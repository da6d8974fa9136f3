/** Numbers in bitcoin script (sbtc/src/deposits.rs, read_scriptint and scriptint_parse):
    little endian, with the sign in the top bit of the last byte, and minimal. */
module ScriptNum {
  import opened Basics
  import ModArith

  datatype Error = NumericOverflow | NonMinimalPush

  function Pow256(n: nat): (r: nat)
    ensures r > 0
  {
    if n == 0 then 1 else 256 * Pow256(n - 1)
  }

  // ---------------------------------------------------------------------
  // Reading, as the code does it
  // ---------------------------------------------------------------------

  /** The fold of `scriptint_parse`: each byte is shifted by eight more bits than the last. */
  function Fold(v: seq<byte>, acc: nat, weight: nat): nat {
    if v == [] then acc else Fold(v[1..], acc + v[0] * weight, weight * 256)
  }

  /** `scriptint_parse`: with the sign bit set, the bits below it are negated. */
  function Parse(v: seq<byte>): int
    requires v != []
  {
    var ret := Fold(v, 0, 1);
    if v[|v| - 1] >= 0x80 then -(ret % (Pow256(|v| - 1) * 128)) else ret
  }

  /** `read_scriptint` */
  function Read(v: seq<byte>, maxSize: nat): Result<int, Error> {
    if v == [] then Ok(0)
    else if |v| > maxSize then Err(NumericOverflow)
    else if v[|v| - 1] % 128 == 0 && (|v| <= 1 || v[|v| - 2] < 0x80) then Err(NonMinimalPush)
    else Ok(Parse(v))
  }

  // ---------------------------------------------------------------------
  // Writing
  // ---------------------------------------------------------------------

  /** The shortest bytes for a magnitude, with room for the sign bit. */
  function Spell(a: nat, negative: bool): (v: seq<byte>)
    requires a > 0
    ensures v != []
  {
    var sign := if negative then 0x80 else 0;
    if a > 0xFF then [a % 256] + Spell(a / 256, negative)
    else if a >= 0x80 then [a, sign]
    else [a + sign]
  }

  /** The minimal encoding of a number. */
  function Write(n: int): seq<byte> {
    if n == 0 then [] else if n < 0 then Spell(-n, true) else Spell(n, false)
  }

  // ---------------------------------------------------------------------
  // Magnitude and sign
  // ---------------------------------------------------------------------

  function LittleEndian(v: seq<byte>): nat {
    if v == [] then 0 else v[0] + 256 * LittleEndian(v[1..])
  }

  lemma {:induction false} FoldIsLittleEndian(v: seq<byte>, acc: nat, weight: nat)
    ensures Fold(v, acc, weight) == acc + weight * LittleEndian(v)
  {
    if v != [] {
      FoldIsLittleEndian(v[1..], acc + v[0] * weight, weight * 256);
      Weighted(v[0], weight, LittleEndian(v[1..]));
    }
  }

  lemma Weighted(x: nat, weight: nat, rest: nat)
    ensures weight * (x + 256 * rest) == x * weight + weight * 256 * rest
  {}

  function Magnitude(v: seq<byte>): nat
    requires v != []
  {
    if |v| == 1 then v[0] % 128 else v[0] + 256 * Magnitude(v[1..])
  }

  predicate Negative(v: seq<byte>)
    requires v != []
  {
    v[|v| - 1] >= 0x80
  }

  predicate Minimal(v: seq<byte>)
    requires v != []
  {
    v[|v| - 1] % 128 != 0 || (|v| > 1 && v[|v| - 2] >= 0x80)
  }

  lemma {:induction false} MagnitudeBound(v: seq<byte>)
    requires v != []
    ensures Magnitude(v) < Pow256(|v| - 1) * 128
  {
    if |v| > 1 {
      MagnitudeBound(v[1..]);
    }
  }

  lemma {:induction false} SignSplit(v: seq<byte>)
    requires v != []
    ensures LittleEndian(v) == Magnitude(v) + if Negative(v) then Pow256(|v| - 1) * 128 else 0
  {
    if |v| > 1 {
      SignSplit(v[1..]);
    } else {
      assert v[1..] == [];
    }
  }

  lemma Remainder(m: nat, p: nat)
    requires m < p
    ensures (m + p) % p == m
  {}

  /** Parsing gives the magnitude with its sign. */
  lemma ParseIsSigned(v: seq<byte>)
    requires v != []
    ensures Parse(v) == if Negative(v) then 0 - Magnitude(v) else Magnitude(v)
  {
    FoldIsLittleEndian(v, 0, 1);
    SignSplit(v);
    MagnitudeBound(v);
    Remainder(Magnitude(v), Pow256(|v| - 1) * 128);
  }

  lemma {:induction false} SpellCorrect(a: nat, negative: bool)
    requires a > 0
    ensures var v := Spell(a, negative); Minimal(v) && Magnitude(v) == a && Negative(v) == negative
  {
    var v := Spell(a, negative);
    if a > 0xFF {
      SpellCorrect(a / 256, negative);
      assert v[1..] == Spell(a / 256, negative);
    } else if a >= 0x80 {
      assert v[1..] == [v[1]];
    }
  }

  lemma SpellStep(x: byte, m: nat, negative: bool)
    requires m > 0
    ensures Spell(x + 256 * m, negative) == [x] + Spell(m, negative)
  {
    assert (x + 256 * m) % 256 == x && (x + 256 * m) / 256 == m;
  }

  lemma {:induction false} MinimalIsSpelled(v: seq<byte>)
    requires v != [] && Minimal(v)
    ensures Magnitude(v) > 0 && v == Spell(Magnitude(v), Negative(v))
  {
    if |v| > 1 {
      var rest := v[1..];
      if |v| == 2 && v[1] % 128 == 0 {
        assert v == [v[0], v[1]] && rest == [v[1]] && Magnitude(v) == v[0];
      } else {
        MinimalIsSpelled(rest);
        SpellStep(v[0], Magnitude(rest), Negative(rest));
        hide Spell;
        assert v == [v[0]] + rest;
      }
    }
  }

  // ---------------------------------------------------------------------
  // Reading and writing are inverse
  // ---------------------------------------------------------------------

  /** A string is read as `n` exactly when it is the minimal encoding of `n` and short
      enough; so no number has two readings and no reading two spellings. */
  lemma ReadExactly(v: seq<byte>, maxSize: nat, n: int)
    ensures Read(v, maxSize) == Ok(n) <==> v == Write(n) && |v| <= maxSize
  {
    if v != [] && Read(v, maxSize) == Ok(n) {
      ParseIsSigned(v);
      MinimalIsSpelled(v);
    }
    if n != 0 && v == Write(n) {
      SpellCorrect(if n < 0 then -n else n, n < 0);
      ParseIsSigned(v);
    }
  }

  /** And what is not read is too long, or the encoding of no number. */
  lemma ReadErrors(v: seq<byte>, maxSize: nat)
    ensures Read(v, maxSize) == Err(NumericOverflow) <==> |v| > maxSize
    ensures Read(v, maxSize) == Err(NonMinimalPush) <==> |v| <= maxSize && forall n: int :: v != Write(n)
  {
    if Read(v, maxSize).Ok? { ReadExactly(v, maxSize, Read(v, maxSize).value); }
    forall n: int | |v| <= maxSize && Read(v, maxSize).Err? ensures v != Write(n) {
      ReadExactly(v, maxSize, n);
    }
  }

  /** The bytes of a written number: the base-256 digits of its magnitude, the last one below 128
      with 128 added for a negative number, and none too many. */
  lemma {:induction false} SpellDigits(a: nat, negative: bool, i: nat)
    requires a > 0 && i < |Spell(a, negative)|
    ensures var k := |Spell(a, negative)|;
            && 128 * Pow256(k - 1) > a && (k > 1 ==> 128 * Pow256(k - 2) <= a)
            && Spell(a, negative)[i] == a / Pow256(i) % 256 + if i == k - 1 && negative then 128 else 0
  {
    assert Pow256(0) == 1 && Pow256(1) == 256;
    if a > 0xFF {
      var rest := Spell(a / 256, negative);
      assert Spell(a, negative) == [a % 256] + rest;
      SpellDigits(a / 256, negative, if i == 0 then 0 else i - 1);
      var k := |rest|;
      DigitBounds(a, Pow256(k - 1));
      if k > 1 { DigitBounds(a, Pow256(k - 2)); }
      if i > 0 { ModArith.DivTwice(a, 256, Pow256(i - 1)); }
    }
  }

  lemma DigitBounds(a: nat, p: nat)
    ensures 128 * p > a / 256 ==> 128 * (256 * p) > a
    ensures 128 * p <= a / 256 ==> 128 * (256 * p) <= a
  {
    assert 128 * (256 * p) == 256 * (128 * p);
  }

  /** What is read from at most five bytes lies strictly between -2^39 and 2^39. */
  lemma ReadBound(v: seq<byte>, n: int)
    requires Read(v, 5) == Ok(n)
    ensures -0x80_0000_0000 < n < 0x80_0000_0000
    ensures LittleEndian(v) < 0x100_0000_0000
  {
    if v != [] {
      ParseIsSigned(v);
      MagnitudeBound(v);
      SignSplit(v);
      SmallPowers(|v| - 1);
    }
  }

  lemma SmallPowers(n: nat)
    requires n <= 4
    ensures Pow256(n) <= 0x1_0000_0000
  {
    assert Pow256(2) == 0x1_0000;
  }

  /** How long the encoding of a small non-negative number is. */
  lemma WriteLength(n: nat)
    ensures n == 0 ==> |Write(n)| == 0
    ensures 0 < n < 0x80 ==> Write(n) == [n]
    ensures 0x80 <= n < 0x8000 ==> |Write(n)| == 2
    ensures 0x8000 <= n < 0x1_0000 ==> |Write(n)| == 3
  {
    if 0x100 <= n < 0x1_0000 {
      assert Spell(n, false) == [n % 256] + Spell(n / 256, false);
      assert n / 256 <= 0xFF;
    }
  }
}
