/** Distributed key generation: shares, commitments and the group polynomial
    (wsts/src/v2.rs, `Party::compute_secret` and `Aggregator::init`). */
module Dkg {
  import opened Basics
  import opened ModArith
  import opened Interpolation
  import opened Secp
  import opened Ownership

  // ---------------------------------------------------------------------
  // Sums over the values of a hash map, in whatever order they come
  // ---------------------------------------------------------------------

  ghost function SumBelow(m: map<u32, int>, n: nat): int {
    if n == 0 then 0 else SumBelow(m, n - 1) + if n - 1 in m then m[n - 1] else 0
  }

  /** The sum of all values; ids are below 2^32 and `q` is above it. */
  ghost function MapSum(q: int, m: map<u32, int>): int
    requires q > 0
  {
    SumBelow(m, q)
  }

  lemma {:induction false} SumInsert(m: map<u32, int>, k: u32, v: int, n: nat)
    requires k !in m
    ensures SumBelow(m[k := v], n) == SumBelow(m, n) + if k < n then v else 0
  {
    if n > 0 { SumInsert(m, k, v, n - 1); }
  }

  lemma {:induction false} SumEmpty(n: nat)
    ensures SumBelow(map[], n) == 0
  {
    if n > 0 { SumEmpty(n - 1); }
  }

  /** If `h = f + x * g` value by value, then so are the sums. */
  lemma {:induction false} SumLinear(q: int, h: map<u32, int>, f: map<u32, int>, x: int, g: map<u32, int>, n: nat)
    requires q > 0 && h.Keys == f.Keys == g.Keys
    requires forall i :: i in h ==> Cong(q, h[i], f[i] + x * g[i])
    ensures Cong(q, SumBelow(h, n), SumBelow(f, n) + x * SumBelow(g, n))
  {
    hide Cong;
    CongRefl(q, 0);
    if n > 0 {
      SumLinear(q, h, f, x, g, n - 1);
      if n - 1 in h {
        LinearTerm(q, SumBelow(h, n - 1), SumBelow(f, n - 1), x, SumBelow(g, n - 1), h[n - 1], f[n - 1], g[n - 1]);
      }
    } else {
      assert x * 0 == 0;
    }
  }

  lemma LinearTerm(q: int, sh: int, sf: int, x: int, sg: int, h: int, f: int, g: int)
    requires q > 0 && Cong(q, sh, sf + x * sg) && Cong(q, h, f + x * g)
    ensures Cong(q, sh + h, (sf + f) + x * (sg + g))
  {
    CongAdd(q, sh, sf + x * sg, h, f + x * g);
    assert sf + x * sg + (f + x * g) == (sf + f) + x * (sg + g);
  }

  /** A sum splits into the part over known keys and the rest. */
  lemma {:induction false} SumSplit(q: int, m: map<u32, int>, known: map<u32, int>, rest: map<u32, int>, n: nat)
    requires q > 0 && m.Keys == known.Keys + rest.Keys && known.Keys !! rest.Keys
    requires forall i :: i in known ==> Cong(q, m[i], known[i])
    requires forall i :: i in rest ==> m[i] == rest[i]
    ensures Cong(q, SumBelow(m, n), SumBelow(known, n) + SumBelow(rest, n))
  {
    hide Cong;
    CongRefl(q, 0);
    if n > 0 {
      SumSplit(q, m, known, rest, n - 1);
      if n - 1 in known {
        CongAdd(q, SumBelow(m, n - 1), SumBelow(known, n - 1) + SumBelow(rest, n - 1), m[n - 1], known[n - 1]);
      } else if n - 1 in rest {
        CongRefl(q, m[n - 1]);
        CongAdd(q, SumBelow(m, n - 1), SumBelow(known, n - 1) + SumBelow(rest, n - 1), m[n - 1], rest[n - 1]);
      }
    }
  }

  // ---------------------------------------------------------------------
  // The group polynomial
  // ---------------------------------------------------------------------

  ghost function Column(m: map<u32, seq<int>>, j: nat): (r: map<u32, int>)
    requires forall i :: i in m ==> j < |m[i]|
  {
    map i | i in m :: m[i][j]
  }

  /** Coefficient-wise sum of polynomials with `t` coefficients each. */
  ghost function GroupCoeffs(q: int, m: map<u32, seq<int>>, t: nat): (r: seq<int>)
    requires q > 1 && forall i :: i in m ==> |m[i]| == t
    ensures |r| == t && forall j :: 0 <= j < t ==> r[j] == Mod(q, MapSum(q, Column(m, j)))
  {
    seq(t, j requires 0 <= j < t => Mod(q, MapSum(q, Column(m, j))))
  }

  ghost function Values(q: int, m: map<u32, seq<int>>, x: int): (r: map<u32, int>)
    requires q > 1
  {
    map i | i in m :: Eval(q, m[i], x)
  }

  /** The group polynomial takes at `x` the sum of the values of its parts. */
  lemma {:induction false} GroupEval(q: int, m: map<u32, seq<int>>, t: nat, x: int)
    requires q > 1 && forall i :: i in m ==> |m[i]| == t
    ensures Cong(q, Eval(q, GroupCoeffs(q, m, t), x), MapSum(q, Values(q, m, x)))
    decreases t
  {
    if t == 0 {
      SumZeroes(Values(q, m, x), q);
    } else {
      var tails := Tails(m);
      GroupEval(q, tails, t - 1, x);
      GroupCoeffsTail(q, m, t);
      ValuesHorner(q, m, x);
      var c, rest := GroupCoeffs(q, m, t)[0], GroupCoeffs(q, tails, t - 1);
      CongMod(q, MapSum(q, Column(m, 0)));
      CongMod(q, c + x * Eval(q, rest, x));
      GroupStep(q, c, MapSum(q, Column(m, 0)), x, Eval(q, rest, x), MapSum(q, Values(q, tails, x)),
                Eval(q, GroupCoeffs(q, m, t), x), MapSum(q, Values(q, m, x)));
    }
  }

  ghost function Tails(m: map<u32, seq<int>>): (r: map<u32, seq<int>>)
    requires forall i :: i in m ==> m[i] != []
  {
    map i | i in m :: m[i][1..]
  }

  lemma GroupCoeffsTail(q: int, m: map<u32, seq<int>>, t: nat)
    requires q > 1 && t > 0 && forall i :: i in m ==> |m[i]| == t
    ensures GroupCoeffs(q, m, t)[1..] == GroupCoeffs(q, Tails(m), t - 1)
  {
    forall j | 0 <= j < t - 1
      ensures GroupCoeffs(q, m, t)[1..][j] == GroupCoeffs(q, Tails(m), t - 1)[j]
    {
      assert Column(m, j + 1) == Column(Tails(m), j);
    }
  }

  lemma EvalHorner(q: int, f: seq<int>, x: int)
    requires q > 1 && f != []
    ensures Cong(q, Eval(q, f, x), f[0] + x * Eval(q, f[1..], x))
  {
    CongMod(q, f[0] + x * Eval(q, f[1..], x));
  }

  lemma ValueHorner(q: int, m: map<u32, seq<int>>, x: int, i: u32)
    requires q > 1 && i in m && forall i :: i in m ==> m[i] != []
    ensures i in Values(q, m, x) && i in Column(m, 0) && i in Values(q, Tails(m), x)
    ensures Cong(q, Values(q, m, x)[i], Column(m, 0)[i] + x * Values(q, Tails(m), x)[i])
  {
    hide Cong, Eval;
    EvalHorner(q, m[i], x);
  }

  lemma ValuesHorner(q: int, m: map<u32, seq<int>>, x: int)
    requires q > 1 && forall i :: i in m ==> m[i] != []
    ensures Cong(q, MapSum(q, Values(q, m, x)), MapSum(q, Column(m, 0)) + x * MapSum(q, Values(q, Tails(m), x)))
  {
    var h, f, g := Values(q, m, x), Column(m, 0), Values(q, Tails(m), x);
    assert h.Keys == m.Keys && f.Keys == m.Keys && g.Keys == m.Keys;
    hide Cong, Eval, SumBelow, Values, Column, Tails;
    forall i | i in h
      ensures Cong(q, h[i], f[i] + x * g[i])
    {
      ValueHorner(q, m, x, i);
    }
    SumLinear(q, h, f, x, g, q);
  }

  lemma GroupStep(q: int, c: int, heads: int, x: int, e: int, evals: int, value: int, sum: int)
    requires q > 0 && Cong(q, c, heads) && Cong(q, e, evals)
    requires Cong(q, value, c + x * e) && Cong(q, sum, heads + x * evals)
    ensures Cong(q, value, sum)
  {
    CongMul(q, x, x, e, evals);
    CongAdd(q, c, heads, x * e, x * evals);
  }

  lemma {:induction false} SumZeroes(m: map<u32, int>, n: nat)
    requires forall i :: i in m ==> m[i] == 0
    ensures SumBelow(m, n) == 0
  {
    if n > 0 { SumZeroes(m, n - 1); }
  }

  // ---------------------------------------------------------------------
  // Commitments
  // ---------------------------------------------------------------------

  /** A committed polynomial with the proof that its sender knows the constant term. */
  datatype Commitment = Commitment(poly: seq<Point>, id: ID)

  type PolyCommitment = c: Commitment | c.poly != [] witness Commitment([Point(0)], ID(0, Point(0), 0))

  type Commitments = map<u32, PolyCommitment>

  /** `check_public_shares` */
  predicate GoodCommitment(s: Suite, c: PolyCommitment, threshold: nat)
    requires s.q > 1
  {
    |c.poly| == threshold && Owns(s, c.id, c.poly[0])
  }

  function CommitTo(s: Suite, f: seq<int>): (r: seq<Point>)
    requires s.q > 1
    ensures |r| == |f| && forall i :: 0 <= i < |f| ==> r[i] == s.Times(f[i], G)
  {
    seq(|f|, i requires 0 <= i < |f| => s.Times(f[i], G))
  }

  ghost predicate AllDegrees(comms: Commitments, threshold: nat) {
    forall i :: i in comms ==> |comms[i].poly| == threshold
  }

  ghost function CommitmentLogs(comms: Commitments): (r: map<u32, seq<int>>)
    ensures r.Keys == comms.Keys
  {
    map i | i in comms :: Logs(comms[i].poly)
  }

  ghost function GroupPoly(s: Suite, comms: Commitments, threshold: nat): (r: seq<Point>)
    requires s.q > 1 && AllDegrees(comms, threshold)
    ensures |r| == threshold && forall j :: 0 <= j < threshold ==> s.IsPoint(r[j])
    ensures Logs(r) == GroupCoeffs(s.q, CommitmentLogs(comms), threshold)
  {
    var coeffs := GroupCoeffs(s.q, CommitmentLogs(comms), threshold);
    seq(threshold, j requires 0 <= j < threshold => Point(coeffs[j]))
  }

  ghost function ConstantTerms(comms: Commitments): (r: map<u32, int>) {
    map i | i in comms :: comms[i].poly[0].k
  }

  /** The group key: the sum of the constant terms. */
  ghost function GroupKey(s: Suite, comms: Commitments): (r: Point)
    requires s.q > 1
    ensures s.IsPoint(r)
  {
    Point(Mod(s.q, MapSum(s.q, ConstantTerms(comms))))
  }

  lemma GroupKeyIsConstantTerm(s: Suite, comms: Commitments, threshold: nat)
    requires s.q > 1 && AllDegrees(comms, threshold) && threshold > 0
    ensures GroupPoly(s, comms, threshold)[0] == GroupKey(s, comms)
  {
    assert Column(CommitmentLogs(comms), 0) == ConstantTerms(comms);
    assert Logs(GroupPoly(s, comms, threshold))[0] == GroupCoeffs(s.q, CommitmentLogs(comms), threshold)[0];
  }

  // ---------------------------------------------------------------------
  // What a successful round means for a private key
  // ---------------------------------------------------------------------

  /** The share that every committed sender sent for `key` lies on that sender's polynomial. */
  ghost predicate SharesConsistent(s: Suite, shares: map<u32, int>, comms: Commitments, key: u32)
    requires s.q > 1
  {
    && comms.Keys <= shares.Keys
    && forall i :: i in comms ==> s.Times(shares[i], G) == Poly(s, key, comms[i].poly)
  }

  ghost function Unknown(shares: map<u32, int>, comms: Commitments): map<u32, int> {
    map i | i in shares && i !in comms :: shares[i]
  }

  /** The summed key lies on the group polynomial exactly when the shares of senders
      without a commitment cancel; in particular when there are none. */
  lemma SecretOnGroupPolynomial(s: Suite, shares: map<u32, int>, comms: Commitments, threshold: nat, key: u32)
    requires s.q > 1 && AllDegrees(comms, threshold) && SharesConsistent(s, shares, comms, key)
    ensures s.Times(MapSum(s.q, shares), G) == Poly(s, key, GroupPoly(s, comms, threshold))
       <==> Cong(s.q, MapSum(s.q, Unknown(shares, comms)), 0)
    ensures Unknown(shares, comms) == map[] ==> Cong(s.q, MapSum(s.q, Unknown(shares, comms)), 0)
  {
    hide Cong, Eval, SharesConsistent, AllDegrees, SumBelow;
    var q := s.q;
    var logs := CommitmentLogs(comms);
    var known, rest := Values(q, logs, key), Unknown(shares, comms);
    KnownShares(s, shares, comms, key);
    SumSplit(q, shares, known, rest, q);
    LogDegrees(comms, threshold);
    GroupEval(q, logs, threshold, key);
    var value := Eval(q, GroupCoeffs(q, logs, threshold), key);
    SumEmpty(q);
    CongRefl(q, 0);
    ExtraCancels(q, MapSum(q, shares), MapSum(q, known), MapSum(q, rest), value);
  }

  lemma LogDegrees(comms: Commitments, threshold: nat)
    requires AllDegrees(comms, threshold)
    ensures forall i :: i in CommitmentLogs(comms) ==> |CommitmentLogs(comms)[i]| == threshold
  {}

  /** Checked shares are the values of the committed polynomials; the others are unknown. */
  lemma KnownShares(s: Suite, shares: map<u32, int>, comms: Commitments, key: u32)
    requires s.q > 1 && SharesConsistent(s, shares, comms, key)
    ensures var known, rest := Values(s.q, CommitmentLogs(comms), key), Unknown(shares, comms);
            && shares.Keys == known.Keys + rest.Keys && known.Keys !! rest.Keys
            && (forall i :: i in known ==> Cong(s.q, shares[i], known[i]))
            && (forall i :: i in rest ==> shares[i] == rest[i])
  {
    var known := Values(s.q, CommitmentLogs(comms), key);
    forall i | i in known
      ensures i in shares && Cong(s.q, shares[i], known[i])
    {
      CongMod(s.q, shares[i] * 1);
    }
  }

  lemma ExtraCancels(q: int, total: int, known: int, extra: int, value: int)
    requires q > 0 && 0 <= value < q && Cong(q, total, known + extra) && Cong(q, value, known)
    ensures Mod(q, total * 1) == value <==> Cong(q, extra, 0)
  {
    CongMod(q, total * 1);
    if Mod(q, total * 1) == value {
      CongSub(q, known + extra, total, known, value);
      CongSub(q, total, value, value, value);
    }
    if Cong(q, extra, 0) {
      CongAdd(q, known, value, extra, 0);
      CongCanonical(q, Mod(q, total * 1), value);
    }
  }
}
