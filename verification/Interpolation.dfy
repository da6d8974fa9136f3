/** Lagrange interpolation at zero, over the scalar field of prime order `q`
    (wsts/src/compute.rs, `lambda` and `poly`). Ids are 32-bit; the field is larger. */
module Interpolation {
  import opened Basics
  import opened ModArith

  /** A scalar field whose elements tell all 32-bit ids apart. */
  ghost predicate ScalarField(q: int) {
    IsPrime(q) && q > 0x1_0000_0000
  }

  predicate Distinct<T(==)>(s: seq<T>) {
    forall i, j :: 0 <= i < j < |s| ==> s[i] != s[j]
  }

  /** The factor that key id `j` contributes to the coefficient of `i`. */
  function Factor(q: int, i: u32, j: u32): (r: int)
    requires q > 1
  {
    if i == j then 1 else Mod(q, j * Inv(q, j - i))
  }

  function Lambda(q: int, i: u32, ids: seq<u32>): (r: int)
    requires q > 1
    ensures 0 <= r < q
  {
    if ids == [] then 1 else Mod(q, Lambda(q, i, ids[..|ids| - 1]) * Factor(q, i, ids[|ids| - 1]))
  }

  /** The running product of `lambda`, skipping the id itself. */
  method ComputeLambda(q: int, i: u32, keyIds: seq<u32>) returns (lambda: int)
    requires q > 1
    ensures lambda == Lambda(q, i, keyIds)
  {
    lambda := 1;
    for n := 0 to |keyIds|
      invariant lambda == Lambda(q, i, keyIds[..n])
    {
      LambdaSnoc(q, i, keyIds[..n], keyIds[n]);
      assert keyIds[..n + 1] == keyIds[..n] + [keyIds[n]];
      var j := keyIds[n];
      if i != j {
        var quotient := Mod(q, j * Inv(q, j - i));
        lambda := Mod(q, lambda * quotient);
      }
    }
    assert keyIds[..|keyIds|] == keyIds;
  }

  lemma LambdaSnoc(q: int, i: u32, ids: seq<u32>, j: u32)
    requires q > 1
    ensures Lambda(q, i, ids + [j]) == if i == j then Lambda(q, i, ids) else Mod(q, Lambda(q, i, ids) * Factor(q, i, j))
  {
    assert (ids + [j])[..|ids|] == ids;
    if i == j {
      assert Lambda(q, i, ids) * 1 == Lambda(q, i, ids);
      ModUnique(q, Lambda(q, i, ids), 0, Lambda(q, i, ids));
    }
  }

  /** Value at `x` of the polynomial with coefficients `f`, constant term first. */
  function Eval(q: int, f: seq<int>, x: int): (r: int)
    requires q > 1
    ensures 0 <= r < q
  {
    if f == [] then 0 else Mod(q, f[0] + x * Eval(q, f[1..], x))
  }

  // ---------------------------------------------------------------------
  // Removing one id from the list
  // ---------------------------------------------------------------------

  function Remove(ids: seq<u32>, s: u32): (r: seq<u32>)
    ensures forall x :: x in r <==> x in ids && x != s
  {
    if ids == [] then []
    else
      var last := ids[|ids| - 1];
      var rest := Remove(ids[..|ids| - 1], s);
      assert forall x :: x in ids <==> x in ids[..|ids| - 1] || x == last;
      if last == s then rest else rest + [last]
  }

  lemma {:induction false} RemoveAbsent(ids: seq<u32>, s: u32)
    requires s !in ids
    ensures Remove(ids, s) == ids
  {
    if ids != [] {
      RemoveAbsent(ids[..|ids| - 1], s);
      assert ids == ids[..|ids| - 1] + [ids[|ids| - 1]];
    }
  }

  lemma {:induction false} RemoveDistinct(ids: seq<u32>, s: u32)
    requires Distinct(ids)
    ensures Distinct(Remove(ids, s))
    ensures s in ids ==> |Remove(ids, s)| == |ids| - 1
  {
    if ids != [] {
      var rest, last := ids[..|ids| - 1], ids[|ids| - 1];
      RemoveDistinct(rest, s);
      if last == s {
        assert s !in rest;
        RemoveAbsent(rest, s);
      } else {
        assert last !in Remove(rest, s);
        assert s in ids ==> s in rest;
      }
    }
  }

  lemma {:induction false} LambdaRemove(q: int, i: u32, ids: seq<u32>, s: u32)
    requires ScalarField(q) && Distinct(ids) && s in ids && i != s
    ensures Cong(q, Lambda(q, i, ids) * (s - i), Lambda(q, i, Remove(ids, s)) * s)
  {
    var rest, last := ids[..|ids| - 1], ids[|ids| - 1];
    var phi := Factor(q, i, last);
    CongMod(q, Lambda(q, i, rest) * phi);
    if last == s {
      RemoveAbsent(rest, s);
      FactorCancels(q, i, s);
      CancelFactor(q, Lambda(q, i, ids), Lambda(q, i, rest), phi, s - i, s);
    } else {
      LambdaRemove(q, i, rest, s);
      var less := Lambda(q, i, Remove(rest, s));
      assert Remove(ids, s)[..|Remove(ids, s)| - 1] == Remove(rest, s);
      CongMod(q, less * phi);
      KeepFactor(q, Lambda(q, i, ids), Lambda(q, i, rest), less, Lambda(q, i, Remove(ids, s)), phi, s - i, s);
    }
  }

  lemma CancelFactor(q: int, product: int, rest: int, phi: int, d: int, s: int)
    requires q > 0 && Cong(q, product, rest * phi) && Cong(q, phi * d, s)
    ensures Cong(q, product * d, rest * s)
  {
    CongMul(q, product, rest * phi, d, d);
    CongMul(q, rest, rest, phi * d, s);
    assert rest * phi * d == rest * (phi * d);
  }

  lemma KeepFactor(q: int, product: int, rest: int, less: int, lessProduct: int, phi: int, d: int, s: int)
    requires q > 0 && Cong(q, product, rest * phi) && Cong(q, lessProduct, less * phi)
    requires Cong(q, rest * d, less * s)
    ensures Cong(q, product * d, lessProduct * s)
  {
    CongMul(q, product, rest * phi, d, d);
    CongMul(q, rest * d, less * s, phi, phi);
    CongMul(q, lessProduct, less * phi, s, s);
    assert rest * phi * d == rest * d * phi;
    assert less * s * phi == less * phi * s;
  }

  lemma FactorCancels(q: int, i: u32, j: u32)
    requires ScalarField(q) && i != j
    ensures Cong(q, Factor(q, i, j) * (j - i), j)
  {
    var inv := Inv(q, j - i);
    UnitDifference(q, i, j);
    InvCorrect(q, j - i);
    CongMod(q, j * inv);
    CongMul(q, Factor(q, i, j), j * inv, j - i, j - i);
    CongMul(q, j, j, (j - i) * inv, 1);
    assert j * inv * (j - i) == j * ((j - i) * inv);
  }

  lemma UnitDifference(q: int, i: u32, j: u32)
    requires q > 0x1_0000_0000 && i != j
    ensures Mod(q, j - i) != 0
  {
  }

  // ---------------------------------------------------------------------
  // Weighted sums
  // ---------------------------------------------------------------------

  /** Sum of `lambda(i, ids) * f(i)` over `i` in `over`. */
  ghost function WeightedSum(q: int, ids: seq<u32>, over: seq<u32>, f: seq<int>): (r: int)
    requires q > 1
  {
    if over == [] then 0
    else
      var i := over[|over| - 1];
      WeightedSum(q, ids, over[..|over| - 1], f) + Lambda(q, i, ids) * Eval(q, f, i)
  }

  /** Sum of `lambda(i, ids) * i * f(i)` over `i` in `over`. */
  ghost function MomentSum(q: int, ids: seq<u32>, over: seq<u32>, f: seq<int>): (r: int)
    requires q > 1
  {
    if over == [] then 0
    else
      var i := over[|over| - 1];
      MomentSum(q, ids, over[..|over| - 1], f) + Lambda(q, i, ids) * i * Eval(q, f, i)
  }

  /** Dropping one id turns the moment sum into a difference of weighted sums. */
  lemma {:induction false} MomentByRemoval(q: int, ids: seq<u32>, over: seq<u32>, f: seq<int>, s: u32)
    requires ScalarField(q) && Distinct(ids) && s in ids
    ensures Cong(q, MomentSum(q, ids, over, f),
                 s * (WeightedSum(q, ids, over, f) - WeightedSum(q, Remove(ids, s), Remove(over, s), f)))
  {
    if over != [] {
      var rest, i := over[..|over| - 1], over[|over| - 1];
      MomentByRemoval(q, ids, rest, f, s);
      var fi, l := Eval(q, f, i), Lambda(q, i, ids);
      var w, w' := WeightedSum(q, ids, rest, f), WeightedSum(q, Remove(ids, s), Remove(rest, s), f);
      if i == s {
        KeptTerm(q, MomentSum(q, ids, rest, f), s, w, w', l, fi);
      } else {
        var l' := Lambda(q, i, Remove(ids, s));
        LambdaRemove(q, i, ids, s);
        MovedTerm(q, MomentSum(q, ids, rest, f), s, i, w, w', l, l', fi);
        assert Remove(over, s)[..|Remove(over, s)| - 1] == Remove(rest, s);
      }
    }
  }

  lemma KeptTerm(q: int, m: int, s: int, w: int, w': int, l: int, fi: int)
    requires q > 0 && Cong(q, m, s * (w - w'))
    ensures Cong(q, m + l * s * fi, s * (w + l * fi - w'))
  {
    CongAdd(q, m, s * (w - w'), l * s * fi, l * s * fi);
    assert s * (w - w') + l * s * fi == s * (w + l * fi - w');
  }

  lemma MovedTerm(q: int, m: int, s: int, i: int, w: int, w': int, l: int, l': int, fi: int)
    requires q > 0 && Cong(q, m, s * (w - w')) && Cong(q, l * (s - i), l' * s)
    ensures Cong(q, m + l * i * fi, s * (w + l * fi - (w' + l' * fi)))
  {
    CongMul(q, l * (s - i), l' * s, fi, fi);
    CongSub(q, l * s * fi, l * s * fi, l * (s - i) * fi, l' * s * fi);
    assert l * s * fi - l * (s - i) * fi == l * i * fi;
    CongAdd(q, m, s * (w - w'), l * i * fi, l * s * fi - l' * s * fi);
    assert s * (w - w') + (l * s * fi - l' * s * fi) == s * (w + l * fi - (w' + l' * fi));
  }

  /** `f = c + x * r`, summed. */
  lemma {:induction false} WeightedSumHorner(q: int, ids: seq<u32>, over: seq<u32>, f: seq<int>)
    requires q > 1 && f != []
    ensures Cong(q, WeightedSum(q, ids, over, f),
                 f[0] * WeightedSum(q, ids, over, [1]) + MomentSum(q, ids, over, f[1..]))
  {
    if over != [] {
      var rest, i := over[..|over| - 1], over[|over| - 1];
      WeightedSumHorner(q, ids, rest, f);
      var l, r := Lambda(q, i, ids), Eval(q, f[1..], i);
      EvalOne(q, i);
      CongMod(q, f[0] + i * r);
      HornerTerm(q, WeightedSum(q, ids, rest, f), f[0], WeightedSum(q, ids, rest, [1]),
                 MomentSum(q, ids, rest, f[1..]), l, i, Eval(q, f, i), r);
    }
  }

  lemma HornerTerm(q: int, sum: int, c: int, w: int, m: int, l: int, i: int, fi: int, r: int)
    requires q > 0 && Cong(q, sum, c * w + m) && Cong(q, fi, c + i * r)
    ensures Cong(q, sum + l * fi, c * (w + l * 1) + (m + l * i * r))
  {
    CongMul(q, l, l, fi, c + i * r);
    CongAdd(q, sum, c * w + m, l * fi, l * (c + i * r));
    assert c * w + m + l * (c + i * r) == c * (w + l * 1) + (m + l * i * r);
  }

  lemma EvalOne(q: int, x: int)
    requires q > 1
    ensures Eval(q, [1], x) == 1
  {
    assert Eval(q, [1][1..], x) == 0;
    assert x * 0 == 0;
  }

  /** The coefficients of distinct ids add up to one. */
  lemma {:induction false} LambdasSumToOne(q: int, ids: seq<u32>)
    requires ScalarField(q) && Distinct(ids) && ids != []
    ensures Cong(q, WeightedSum(q, ids, ids, [1]), 1)
    decreases |ids|
  {
    if |ids| == 1 {
      assert ids[..0] == [];
      EvalOne(q, ids[0]);
      assert Lambda(q, ids[0], ids[..0]) == 1;
        assert WeightedSum(q, ids, ids, [1]) == 1;
    } else {
      var a, b := ids[0], ids[1];
      var w := WeightedSum(q, ids, ids, [1]);
      RemovedLambdas(q, ids, a);
      RemovedLambdas(q, ids, b);
      var m := MomentSum(q, ids, ids, [1]);
      CongSub(q, m, a * (w - 1), m, b * (w - 1));
      assert a * (w - 1) - b * (w - 1) == (a - b) * (w - 1);
      CancelUnit(q, b, a, w - 1);
      CongAdd(q, w - 1, 0, 1, 1);
    }
  }

  lemma RemovedLambdas(q: int, ids: seq<u32>, s: u32)
    requires ScalarField(q) && Distinct(ids) && |ids| >= 2 && s in ids
    ensures Cong(q, MomentSum(q, ids, ids, [1]), s * (WeightedSum(q, ids, ids, [1]) - 1))
    decreases |ids|, 0
  {
    RemoveDistinct(ids, s);
    var w, w' := WeightedSum(q, ids, ids, [1]), WeightedSum(q, Remove(ids, s), Remove(ids, s), [1]);
    LambdasSumToOne(q, Remove(ids, s));
    MomentByRemoval(q, ids, ids, [1], s);
    CongSub(q, w, w, w', 1);
    CongMul(q, s, s, w - w', w - 1);
  }

  /** A non-zero difference of ids can be cancelled. */
  lemma CancelUnit(q: int, i: u32, j: u32, a: int)
    requires ScalarField(q) && i != j && Cong(q, 0, (j - i) * a)
    ensures Cong(q, a, 0)
  {
    UnitDifference(q, i, j);
    InvCorrect(q, j - i);
    var inv := Inv(q, j - i);
    CongMul(q, inv, inv, 0, (j - i) * a);
    CongMul(q, (j - i) * inv, 1, a, a);
    assert inv * ((j - i) * a) == (j - i) * inv * a;
  }

  // ---------------------------------------------------------------------
  // The interpolation theorem
  // ---------------------------------------------------------------------

  /** For distinct ids and any polynomial with at most as many coefficients, the
      weighted shares add up to the constant term. */
  lemma {:induction false} Interpolate(q: int, ids: seq<u32>, f: seq<int>)
    requires ScalarField(q) && Distinct(ids) && |f| <= |ids|
    ensures Cong(q, WeightedSum(q, ids, ids, f), Eval(q, f, 0))
    decreases |f|
  {
    if f == [] {
      ZeroPolynomial(q, ids, ids);
    } else {
      var s, r := ids[0], f[1..];
      RemoveDistinct(ids, s);
      Interpolate(q, ids, r);
      Interpolate(q, Remove(ids, s), r);
      MomentByRemoval(q, ids, ids, r, s);
      var w, w' := WeightedSum(q, ids, ids, r), WeightedSum(q, Remove(ids, s), Remove(ids, s), r);
      CongSub(q, w, Eval(q, r, 0), w', Eval(q, r, 0));
      CongMul(q, s, s, w - w', 0);
      WeightedSumHorner(q, ids, ids, f);
      LambdasSumToOne(q, ids);
      CongMul(q, f[0], f[0], WeightedSum(q, ids, ids, [1]), 1);
      CongAdd(q, f[0] * WeightedSum(q, ids, ids, [1]), f[0] * 1, MomentSum(q, ids, ids, r), 0);
      EvalAtZero(q, f);
    }
  }

  lemma EvalAtZero(q: int, f: seq<int>)
    requires q > 1 && f != []
    ensures Eval(q, f, 0) == Mod(q, f[0])
    ensures Cong(q, Eval(q, f, 0), f[0])
  {
    assert 0 * Eval(q, f[1..], 0) == 0;
    CongMod(q, f[0]);
  }

  lemma {:induction false} ZeroPolynomial(q: int, ids: seq<u32>, over: seq<u32>)
    requires q > 1
    ensures WeightedSum(q, ids, over, []) == 0
  {
    if over != [] {
      ZeroPolynomial(q, ids, over[..|over| - 1]);
      assert Lambda(q, over[|over| - 1], ids) * 0 == 0;
    }
  }
}
