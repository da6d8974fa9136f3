/** LEB128 integers (sbtc/src/leb128.rs; section 7.6 of DWARF 5): encoder, decoder, size
    and reading cursor. Machine words are integers in range; the low seven bits are the
    remainder by 128 and a shift by seven bits is a division or product by 128. */
module Leb128 {
  import opened Basics
  import ModArith

  const MAX_BYTES: nat := 10

  datatype Error =
    | IncompleteSequence | InvalidContinuation | EmptyInput | ValueOutOfBounds | IndexOutOfBounds
    | UnexpectedDecodeError

  /** On 64-bit words, masking, shifting and or-ing are the arithmetic used below. */
  lemma WordOperations(v: bv64, a: bv64, b: bv64)
    ensures v & 0x7F == v % 0x80 && v >> 7 == v / 0x80
    ensures a & b == 0 ==> a | b == a + b
  {}

  predicate Continues(b: byte) {
    b >= 0x80
  }

  function Low(b: byte): (r: nat)
    ensures r < 128
  {
    b % 128
  }

  // ---------------------------------------------------------------------
  // Values and encodings
  // ---------------------------------------------------------------------

  function Pow128(n: nat): (r: nat)
    ensures r > 0
  {
    if n == 0 then 1 else 128 * Pow128(n - 1)
  }

  /** The number spelled by the low bits, least significant first. */
  function Value(bytes: seq<byte>): nat {
    if bytes == [] then 0 else Low(bytes[0]) + 128 * Value(bytes[1..])
  }

  /** The spelling of `v` in `k` bytes: all but the last carry the continuation flag. */
  function Padded(v: nat, k: nat): (r: seq<byte>)
    ensures |r| == k
  {
    if k == 0 then []
    else if k == 1 then [v % 128]
    else [v % 128 + 128] + Padded(v / 128, k - 1)
  }

  function Size(v: nat): (k: nat)
    ensures k > 0
  {
    if v < 128 then 1 else 1 + Size(v / 128)
  }

  function Encode(v: nat): seq<byte> {
    Padded(v, Size(v))
  }

  /** How many bytes from the front carry the flag. */
  function Flagged(bytes: seq<byte>): (n: nat)
    ensures n <= |bytes|
    ensures forall i :: 0 <= i < n ==> Continues(bytes[i])
    ensures n < |bytes| ==> !Continues(bytes[n])
  {
    if bytes == [] || !Continues(bytes[0]) then 0 else 1 + Flagged(bytes[1..])
  }

  /** What decoding returns, by the number of flagged bytes. */
  function Decoded(bytes: seq<byte>): Result<(nat, nat), Error> {
    var n := Flagged(bytes);
    if bytes == [] then Err(EmptyInput)
    else if n < MAX_BYTES - 1 then
      if n == |bytes| then Err(IncompleteSequence) else Ok((Value(bytes[..n + 1]), n + 1))
    else if |bytes| == MAX_BYTES - 1 then Err(IncompleteSequence)
    else if Low(bytes[MAX_BYTES - 1]) > 1 then Err(ValueOutOfBounds)
    else if Continues(bytes[MAX_BYTES - 1]) then Err(InvalidContinuation)
    else Ok((Value(bytes[..MAX_BYTES]), MAX_BYTES))
  }

  // ---------------------------------------------------------------------
  // Arithmetic of spellings
  // ---------------------------------------------------------------------

  lemma {:induction false} ValueSnoc(bytes: seq<byte>, b: byte)
    ensures Value(bytes + [b]) == Value(bytes) + Low(b) * Pow128(|bytes|)
  {
    if bytes == [] {
      assert [b][1..] == [];
    } else {
      assert (bytes + [b])[1..] == bytes[1..] + [b];
      ValueSnoc(bytes[1..], b);
    }
  }

  lemma {:induction false} ValueBound(bytes: seq<byte>)
    ensures Value(bytes) < Pow128(|bytes|)
  {
    if bytes != [] {
      ValueBound(bytes[1..]);
    }
  }

  lemma {:induction false} SizeBound(v: nat, k: nat)
    requires k > 0
    ensures v < Pow128(k) <==> Size(v) <= k
  {
    if k == 1 {
      assert Pow128(1) == 128 * Pow128(0);
    } else if v >= 128 {
      SizeBound(v / 128, k - 1);
      assert v < Pow128(k) <==> v / 128 < Pow128(k - 1);
    }
  }

  lemma PaddedStep(low: nat, rest: nat, k: nat)
    requires low < 128 && k > 1
    ensures Padded(low + 128 * rest, k) == [low + 128] + Padded(rest, k - 1)
  {
    assert (low + 128 * rest) % 128 == low && (low + 128 * rest) / 128 == rest;
  }

  lemma OneByte(bytes: seq<byte>)
    requires |bytes| == 1 && bytes[0] < 128
    ensures bytes == Padded(Value(bytes), 1)
  {
    assert bytes[1..] == [] && Value(bytes) == bytes[0];
  }

  lemma AddByte(bytes: seq<byte>)
    requires |bytes| > 1 && Continues(bytes[0])
    requires bytes[1..] == Padded(Value(bytes[1..]), |bytes| - 1)
    ensures bytes == Padded(Value(bytes), |bytes|)
  {
    hide Padded, Low, Continues;
    var low, rest := Low(bytes[0]), Value(bytes[1..]);
    FlaggedByte(bytes[0]);
    PaddedStep(low, rest, |bytes|);
    assert bytes == [bytes[0]] + bytes[1..];
  }

  lemma FlaggedByte(b: byte)
    requires Continues(b)
    ensures b == Low(b) + 128
  {}

  /** A spelling with flags on all bytes but the last is the padded spelling of its value. */
  lemma {:induction false} SpellingIsPadded(bytes: seq<byte>)
    requires bytes != [] && Flagged(bytes) == |bytes| - 1
    ensures bytes == Padded(Value(bytes), |bytes|)
  {
    if |bytes| == 1 {
      OneByte(bytes);
    } else {
      SpellingIsPadded(bytes[1..]);
      AddByte(bytes);
    }
  }

  lemma {:induction false} PaddedSpells(v: nat, k: nat)
    requires k > 0 && v < Pow128(k)
    ensures Value(Padded(v, k)) == v
  {
    var p := Padded(v, k);
    if k == 1 {
      assert Pow128(1) == 128 * Pow128(0);
      assert p[1..] == [];
    } else {
      assert p[1..] == Padded(v / 128, k - 1);
      PaddedSpells(v / 128, k - 1);
    }
  }

  lemma {:induction false} PaddedFlags(v: nat, k: nat, tail: seq<byte>)
    requires k > 0
    ensures Flagged(Padded(v, k) + tail) == k - 1
  {
    if k > 1 {
      var rest := Padded(v / 128, k - 1);
      assert (Padded(v, k) + tail)[1..] == rest + tail;
      PaddedFlags(v / 128, k - 1, tail);
    }
  }

  lemma {:induction false} PaddedDigits(v: nat, k: nat, i: nat)
    requires i < k
    ensures Padded(v, k)[i] == v / Pow128(i) % 128 + if i < k - 1 then 128 else 0
  {
    if i > 0 {
      PaddedDigits(v / 128, k - 1, i - 1);
      ModArith.DivTwice(v, 128, Pow128(i - 1));
    } else {
      assert Pow128(0) == 1;
    }
  }

  /** The encoding of a number: its base-128 digits, least significant first and none too many,
      flagged but for the last. */
  lemma EncodeDigits(v: nat, i: nat)
    requires i < |Encode(v)|
    ensures v < Pow128(|Encode(v)|) && (|Encode(v)| > 1 ==> Pow128(|Encode(v)| - 1) <= v)
    ensures Encode(v)[i] == v / Pow128(i) % 128 + if i < |Encode(v)| - 1 then 128 else 0
  {
    SizeBound(v, Size(v));
    if Size(v) > 1 { SizeBound(v, Size(v) - 1); }
    PaddedDigits(v, Size(v), i);
  }

  // ---------------------------------------------------------------------
  // What decodes to what
  // ---------------------------------------------------------------------

  lemma Powers()
    ensures Pow128(9) == 0x8000_0000_0000_0000 && Pow128(10) == 128 * Pow128(9)
  {
    assert Pow128(3) == 0x20_0000;
    assert Pow128(6) == 0x400_0000_0000;
  }

  /** Ten bytes hold a u64 exactly when the low bits of the last are zero or one. */
  lemma TenthByte(p: seq<byte>)
    requires |p| == 10
    ensures Low(p[9]) <= 1 <==> Value(p) < 0x1_0000_0000_0000_0000
  {
    hide Value, Low, Pow128;
    assert p == p[..9] + [p[9]];
    ValueSnoc(p[..9], p[9]);
    ValueBound(p[..9]);
    Powers();
  }

  lemma FlaggedPrefix(bytes: seq<byte>, k: nat)
    requires 0 < k <= |bytes|
    ensures Flagged(bytes) == k - 1 ==> Flagged(bytes[..k]) == k - 1
  {}

  /** Decoding yields `v` from `k` bytes exactly when they are the spelling of `v` padded to
      `k` bytes, `v` is a u64 and `k` is between its size and ten. */
  lemma DecodedExactly(bytes: seq<byte>, v: nat, k: nat)
    ensures Decoded(bytes) == Ok((v, k)) <==>
            && v < 0x1_0000_0000_0000_0000 && Size(v) <= k <= 10
            && k <= |bytes| && bytes[..k] == Padded(v, k)
  {
    hide Decoded, Padded, Size;
    if Decoded(bytes) == Ok((v, k)) {
      DecodedIsPadded(bytes, v, k);
    }
    if v < 0x1_0000_0000_0000_0000 && Size(v) <= k <= 10 && k <= |bytes| && bytes[..k] == Padded(v, k) {
      PaddedDecodes(v, k, bytes[k..]);
      assert bytes == Padded(v, k) + bytes[k..];
    }
  }

  lemma DecodedIsPadded(bytes: seq<byte>, v: nat, k: nat)
    requires Decoded(bytes) == Ok((v, k))
    ensures v < 0x1_0000_0000_0000_0000 && Size(v) <= k <= 10 && k <= |bytes| && bytes[..k] == Padded(v, k)
  {
    assert Flagged(bytes) == k - 1 by {
      assert k == 10 ==> Flagged(bytes) >= 9 && !Continues(bytes[9]);
    }
    FlaggedPrefix(bytes, k);
    SpellingIsPadded(bytes[..k]);
    ValueBound(bytes[..k]);
    SizeBound(v, k);
    Powers();
    if k == 10 {
      TenthByte(bytes[..k]);
    } else {
      SizeBound(v, 9);
    }
  }

  lemma PaddedDecodes(v: u64, k: nat, tail: seq<byte>)
    requires Size(v) <= k <= 10
    ensures Decoded(Padded(v, k) + tail) == Ok((v, k))
  {
    var bytes := Padded(v, k) + tail;
    assert bytes[..k] == Padded(v, k);
    SizeBound(v, k);
    PaddedFlags(v, k, tail);
    PaddedSpells(v, k);
    if k == 10 {
      TenthByte(bytes[..k]);
    }
  }

  /** Encoding a u64 and decoding it gives it back, with the size of the encoding, whatever
      follows. */
  lemma RoundTrip(v: u64, tail: seq<byte>)
    ensures 1 <= |Encode(v)| <= 10 && Decoded(Encode(v) + tail) == Ok((v, |Encode(v)|))
  {
    Powers();
    SizeBound(v, 10);
    PaddedDecodes(v, Size(v), tail);
  }

  /** The encoding is the shortest string that decodes to the value, and the only one of
      its length. */
  lemma ShortestAndUnique(bytes: seq<byte>, v: nat, k: nat)
    requires Decoded(bytes) == Ok((v, k))
    ensures Size(v) == |Encode(v)| <= k <= 10
    ensures k == |Encode(v)| ==> bytes[..k] == Encode(v)
  {
    DecodedExactly(bytes, v, k);
  }

  lemma IncompleteExactly(bytes: seq<byte>)
    ensures Decoded(bytes) == Err(IncompleteSequence) <==>
            1 <= |bytes| <= 9 && forall i :: 0 <= i < |bytes| ==> Continues(bytes[i])
  {}

  /** Every input fails in one of four ways or decodes. */
  lemma DecodedTotal(bytes: seq<byte>)
    ensures Decoded(bytes).Err? ==>
              Decoded(bytes).error in {EmptyInput, IncompleteSequence, ValueOutOfBounds, InvalidContinuation}
    ensures Decoded(bytes) == Err(EmptyInput) <==> bytes == []
    ensures Decoded(bytes).Err? && Decoded(bytes).error in {ValueOutOfBounds, InvalidContinuation} <==>
            |bytes| >= 10 && (forall i :: 0 <= i < 9 ==> Continues(bytes[i])) && bytes[9] > 1
  {}

  // ---------------------------------------------------------------------
  // The loops
  // ---------------------------------------------------------------------

  class Buffer {
    var bytes: seq<byte>

    constructor ()
      ensures bytes == []
    {
      bytes := [];
    }

    /** `encode_into` */
    method EncodeInto(value: u64)
      modifies this
      ensures bytes == old(bytes) + Encode(value)
    {
      var v: nat := value;
      ghost var done: seq<byte> := [];
      while true
        invariant bytes == old(bytes) + done
        invariant done + Encode(v) == Encode(value)
        decreases v
      {
        var b := v % 128;
        ghost var rest := v;
        v := v / 128;
        if v != 0 {
          b := b + 0x80;
        }
        bytes := bytes + [b];
        assert Encode(rest) == [b] + (if v == 0 then [] else Encode(v));
        assert done + Encode(rest) == done + [b] + (if v == 0 then [] else Encode(v));
        done := done + [b];
        if v == 0 {
          break;
        }
      }
      assert bytes == old(bytes) + done;
    }
  }

  /** Neither the shift nor the sum ever exceeds 64 bits. */
  lemma ShiftFits(before: seq<byte>, b: byte)
    requires |before| < 9 || (|before| == 9 && Low(b) <= 1)
    ensures Value(before) + Low(b) * Pow128(|before|) < 0x1_0000_0000_0000_0000
  {
    Powers();
    ValueBound(before);
    if |before| < 9 {
      ValueSnoc(before, b);
      ValueBound(before + [b]);
      PowMonotone(|before| + 1, 9);
    }
  }

  lemma {:induction false} PowMonotone(a: nat, b: nat)
    requires a <= b
    ensures Pow128(a) <= Pow128(b)
  {
    if a < b {
      PowMonotone(a, b - 1);
    }
  }

  /** `try_decode` */
  method TryDecode(bytes: seq<byte>) returns (r: Result<(nat, nat), Error>)
    ensures r == Decoded(bytes)
  {
    if bytes == [] {
      return Err(EmptyInput);
    }
    var result: u64, position, weight := 0, 0, 1;
    while position < |bytes|
      invariant position < |bytes| && position <= 9 && position <= Flagged(bytes)
      invariant result == Value(bytes[..position]) && weight == Pow128(position)
    {
      var b := bytes[position];
      var value := Low(b);
      if position == MAX_BYTES - 1 {
        if value > 1 {
          return Err(ValueOutOfBounds);
        }
        if Continues(b) {
          return Err(InvalidContinuation);
        }
      }
      assert bytes[..position + 1] == bytes[..position] + [b];
      ValueSnoc(bytes[..position], b);
      ShiftFits(bytes[..position], b);
      result := result + value * weight;
      position := position + 1;
      weight := 128 * weight;
      if !Continues(b) {
        return Ok((result, position));
      }
      if position == |bytes| {
        return Err(IncompleteSequence);
      }
    }
    return Err(UnexpectedDecodeError);
  }

  /** `calculate_size` */
  method CalculateSize(value: u64) returns (size: nat)
    ensures size == |Encode(value)|
  {
    var v: nat := value;
    size := 0;
    while v >= 0x80
      invariant size + Size(v) == Size(value)
    {
      size := size + 1;
      v := v / 128;
    }
    size := size + 1;
  }

  // ---------------------------------------------------------------------
  // The cursor
  // ---------------------------------------------------------------------

  /** `read_leb128` on a position: the value or error, and the position afterwards. */
  function ReadAt(buffer: seq<byte>, position: nat): (Result<nat, Error>, nat) {
    if position >= |buffer| then (Err(IndexOutOfBounds), position)
    else match Decoded(buffer[position..])
      case Ok((v, k)) => (Ok(v), position + k)
      case Err(e) => (Err(e), position)
  }

  class Cursor {
    const buffer: seq<byte>
    var position: nat

    constructor (buffer: seq<byte>)
      ensures this.buffer == buffer && position == 0
    {
      this.buffer, position := buffer, 0;
    }

    method Read() returns (r: Result<nat, Error>)
      modifies this
      ensures (r, position) == ReadAt(buffer, old(position))
      ensures r.Err? ==> position == old(position)
      ensures r.Ok? ==> old(position) < position <= |buffer|
    {
      if position >= |buffer| {
        return Err(IndexOutOfBounds);
      }
      var decoded := TryDecode(buffer[position..]);
      if decoded.Err? {
        return Err(decoded.error);
      }
      position := position + decoded.value.1;
      return Ok(decoded.value.0);
    }
  }

  function EncodeAll(values: seq<u64>): seq<byte> {
    if values == [] then [] else Encode(values[0]) + EncodeAll(values[1..])
  }

  /** Reading from `position` until the end or the first error. */
  function ReadToEnd(buffer: seq<byte>, position: nat): (Result<seq<nat>, Error>, nat)
    decreases |buffer| - position
  {
    if position >= |buffer| then (Ok([]), position)
    else
      var (r, next) := ReadAt(buffer, position);
      if r.Err? then (Err(r.error), position)
      else
        var (rest, end) := ReadToEnd(buffer, next);
        (if rest.Ok? then Ok([r.value] + rest.value) else rest, end)
  }

  lemma ReadEncoded(before: seq<byte>, v: u64, tail: seq<byte>)
    ensures |Encode(v)| > 0
    ensures ReadAt(before + Encode(v) + tail, |before|) == (Ok(v), |before + Encode(v)|)
  {
    RoundTrip(v, tail);
    assert (before + Encode(v) + tail)[|before|..] == Encode(v) + tail;
  }

  /** Values written one after another are read back in order, and the cursor ends at the
      end of the buffer. */
  lemma {:induction false} ListRoundTrip(before: seq<byte>, values: seq<u64>)
    ensures var buffer := before + EncodeAll(values);
            ReadToEnd(buffer, |before|) == (Ok(values), |buffer|)
    decreases |values|
  {
    hide Encode, ReadAt;
    if values != [] {
      var v, rest := values[0], values[1..];
      ReadEncoded(before, v, EncodeAll(rest));
      ListRoundTrip(before + Encode(v), rest);
      assert before + EncodeAll(values) == before + Encode(v) + EncodeAll(rest);
      assert values == [v] + rest;
    }
  }

  /** Different lists have different encodings. */
  lemma EncodeAllInjective(a: seq<u64>, b: seq<u64>)
    requires EncodeAll(a) == EncodeAll(b)
    ensures a == b
  {
    ListRoundTrip([], a);
    ListRoundTrip([], b);
  }
}
