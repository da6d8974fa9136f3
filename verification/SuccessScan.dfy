/** The scan for OP_SUCCESSx opcodes (BIP-342; sbtc/src/deposits.rs, `validate_script`), and the
    instructions of a script it is about. */
module SuccessScan {
  import opened Basics
  import opened ScriptNum

  const OP_PUSHDATA1: byte := 0x4c
  const OP_PUSHDATA2: byte := 0x4d
  const OP_PUSHDATA4: byte := 0x4e

  predicate IsSuccess(op: byte) {
    || op == 80 || op == 98 || 126 <= op <= 129 || 131 <= op <= 134 || 137 <= op <= 138
    || 141 <= op <= 142 || 149 <= op <= 153 || 187 <= op <= 254
  }

  /** Some instruction is an OP_SUCCESSx. Pushed data is skipped, and the scan ends at a push
      that runs past the end of the script. */
  predicate HasSuccess(script: Bytes)
    decreases |script|
  {
    if script == [] then false
    else if script[0] > OP_PUSHDATA4 then IsSuccess(script[0]) || HasSuccess(script[1..])
    else
      var width := PushWidth(script[0]);
      if |script| < 1 + width then false
      else
        var size := if width == 0 then script[0] else LittleEndian(script[1..1 + width]);
        if |script| < 1 + width + size then false else HasSuccess(script[1 + width + size..])
  }

  /** Bytes that hold the length of the pushed data. */
  function PushWidth(op: byte): nat {
    if op == OP_PUSHDATA1 then 1 else if op == OP_PUSHDATA2 then 2 else if op == OP_PUSHDATA4 then 4 else 0
  }

  // ---------------------------------------------------------------------
  // Instructions
  // ---------------------------------------------------------------------

  /** A push in one of its four forms, minimal or not, or an opcode above the pushes. */
  datatype Instruction =
    | PushBytes(data: Bytes)
    | PushData1(data: Bytes)
    | PushData2(data: Bytes)
    | PushData4(data: Bytes)
    | Op(code: byte)
  {
    predicate Valid() {
      match this
      case PushBytes(data) => |data| <= 75
      case PushData1(data) => |data| < 0x100
      case PushData2(data) => |data| < 0x1_0000
      case PushData4(data) => |data| < 0x1_0000_0000
      case Op(code) => code > 78
    }

    function Print(): (r: Bytes)
      requires Valid()
      ensures r != []
    {
      match this
      case PushBytes(data) => [|data|] + data
      case PushData1(data) => [76, |data|] + data
      case PushData2(data) => [77, |data| % 256, |data| / 256] + data
      case PushData4(data) =>
        [78, |data| % 256, |data| / 256 % 256, |data| / 0x1_0000 % 256, |data| / 0x100_0000] + data
      case Op(code) => [code]
    }
  }

  predicate AllValid(list: seq<Instruction>) {
    forall i :: 0 <= i < |list| ==> list[i].Valid()
  }

  function PrintAll(list: seq<Instruction>): Bytes
    requires AllValid(list)
  {
    if list == [] then [] else list[0].Print() + PrintAll(list[1..])
  }

  /** The opcodes OP_SUCCESS80 to OP_SUCCESS254, by number. */
  ghost predicate Listed(op: int) {
    || op in {80, 98, 126, 127, 128, 129, 131, 132, 133, 134, 137, 138, 141, 142, 149, 150, 151, 152, 153}
    || 187 <= op <= 254
  }

  /** Whole instructions, then an OP_SUCCESSx, then anything. */
  ghost predicate Reaches(script: Bytes, list: seq<Instruction>, op: byte, rest: Bytes) {
    AllValid(list) && Listed(op) && script == PrintAll(list) + ([op] + rest)
  }

  ghost predicate ReachesSuccess(script: Bytes) {
    exists list, op, rest :: Reaches(script, list, op, rest)
  }

  lemma TwoBytes(a: byte, b: byte)
    ensures LittleEndian([a, b]) == a + 256 * b
  {
    assert [a, b][1..] == [b] && [b][1..] == [];
    assert LittleEndian([]) == 0;
  }

  lemma FourBytes(a: byte, b: byte, c: byte, d: byte)
    ensures LittleEndian([a, b, c, d]) == a + 256 * b + 0x1_0000 * c + 0x100_0000 * d
  {
    assert [a, b, c, d][1..] == [b, c, d] && [b, c, d][1..] == [c, d];
    TwoBytes(c, d);
  }

  lemma OneByte(a: byte)
    ensures LittleEndian([a]) == a
  {
    assert [a][1..] == [];
  }

  /** What stands before the data of a push: an opcode and the bytes of the length. */
  ghost predicate IsHead(head: Bytes, size: nat) {
    && head != [] && head[0] <= 78 && |head| == 1 + PushWidth(head[0])
    && size == if |head| == 1 then head[0] else LittleEndian(head[1..])
  }

  lemma ScanHead(head: Bytes, data: Bytes, rest: Bytes)
    requires IsHead(head, |data|)
    ensures HasSuccess(head + data + rest) == HasSuccess(rest)
  {
    hide LittleEndian;
    var script := head + data + rest;
    assert script[0] == head[0] && script[1..|head|] == head[1..];
    assert script[|head| + |data|..] == rest;
  }

  lemma FourDigits(a: byte, b: byte, c: byte, d: byte, n: nat)
    ensures n == a + 256 * b + 0x1_0000 * c + 0x100_0000 * d <==>
            n < 0x1_0000_0000 && a == n % 256 && b == n / 256 % 256 && c == n / 0x1_0000 % 256 && d == n / 0x100_0000
  {
    var m := n / 256;
    assert n / 0x1_0000 == m / 256 && n / 0x100_0000 == m / 256 / 256;
    assert n == 256 * m + n % 256 && m == 256 * (m / 256) + m % 256;
  }

  lemma HeadOf(push: Instruction) returns (head: Bytes)
    requires push.Valid() && !push.Op?
    ensures IsHead(head, |push.data|) && push.Print() == head + push.data
  {
    hide LittleEndian;
    var n := |push.data|;
    match push
    case PushBytes(_) =>
      head := [n];
    case PushData1(_) =>
      head := [76, n];
      assert head[1..] == [n];
      OneByte(n);
    case PushData2(_) =>
      head := [77, n % 256, n / 256];
      assert head[1..] == [n % 256, n / 256];
      TwoBytes(n % 256, n / 256);
    case PushData4(_) =>
      var a, b, c, d := n % 256, n / 256 % 256, n / 0x1_0000 % 256, n / 0x100_0000;
      head := [78, a, b, c, d];
      assert head[1..] == [a, b, c, d];
      FourBytes(a, b, c, d);
      FourDigits(a, b, c, d, n);
  }

  lemma HeadedPush(head: Bytes, data: Bytes) returns (push: Instruction)
    requires IsHead(head, |data|)
    ensures push.Valid() && !push.Op? && push.Print() == head + data
  {
    hide LittleEndian;
    var n := |data|;
    if |head| == 1 {
      assert head == [n];
      push := PushBytes(data);
    } else if |head| == 2 {
      assert head == [76, head[1]] && head[1..] == [head[1]];
      OneByte(head[1]);
      push := PushData1(data);
    } else if |head| == 3 {
      assert head == [77, head[1], head[2]] && head[1..] == [head[1], head[2]];
      TwoBytes(head[1], head[2]);
      push := PushData2(data);
    } else {
      var a, b, c, d := head[1], head[2], head[3], head[4];
      assert head == [78, a, b, c, d] && head[1..] == [a, b, c, d];
      FourBytes(a, b, c, d);
      FourDigits(a, b, c, d, n);
      push := PushData4(data);
    }
  }

  /** The scan of a push is the scan of what follows it. */
  lemma ScanPush(push: Instruction, rest: Bytes)
    requires push.Valid() && !push.Op?
    ensures HasSuccess(push.Print() + rest) == HasSuccess(rest)
  {
    hide HasSuccess, IsHead;
    var head := HeadOf(push);
    ScanHead(head, push.data, rest);
  }

  lemma ScanOp(op: byte, rest: Bytes)
    requires op > 78
    ensures HasSuccess([op] + rest) <==> Listed(op) || HasSuccess(rest)
  {
    assert ([op] + rest)[1..] == rest;
  }

  lemma ScanFirst(first: Instruction, after: Bytes)
    requires first.Valid() && HasSuccess(after)
    ensures HasSuccess(first.Print() + after)
  {
    hide HasSuccess;
    if first.Op? { ScanOp(first.code, after); } else { ScanPush(first, after); }
  }

  lemma PrintFirst(list: seq<Instruction>, tail: Bytes)
    requires AllValid(list) && list != []
    ensures PrintAll(list) + tail == list[0].Print() + (PrintAll(list[1..]) + tail)
  {
    hide Instruction.Print;
    assert PrintAll(list) == list[0].Print() + PrintAll(list[1..]);
  }

  lemma {:induction false} ReachedIsFlagged(list: seq<Instruction>, op: byte, rest: Bytes)
    requires AllValid(list) && Listed(op)
    ensures HasSuccess(PrintAll(list) + ([op] + rest))
    decreases |list|
  {
    hide HasSuccess, Instruction.Print;
    if list == [] {
      assert PrintAll(list) + ([op] + rest) == [op] + rest;
      ScanOp(op, rest);
    } else {
      ReachedIsFlagged(list[1..], op, rest);
      PrintFirst(list, [op] + rest);
      hide PrintAll;
      ScanFirst(list[0], PrintAll(list[1..]) + ([op] + rest));
    }
  }

  lemma FlaggedHead(script: Bytes) returns (head: Bytes, data: Bytes, after: Bytes)
    requires HasSuccess(script) && script[0] <= 78
    ensures IsHead(head, |data|) && script == head + data + after && HasSuccess(after)
  {
    hide LittleEndian;
    var width := PushWidth(script[0]);
    head := script[..1 + width];
    assert head[1..] == script[1..1 + width];
    var size := if width == 0 then script[0] else LittleEndian(script[1..1 + width]);
    data, after := script[1 + width..1 + width + size], script[1 + width + size..];
    assert script == script[..1 + width] + script[1 + width..1 + width + size] + script[1 + width + size..];
  }

  /** The push at the front of a flagged script. */
  lemma FirstPush(script: Bytes) returns (push: Instruction, after: Bytes)
    requires HasSuccess(script) && script[0] <= 78
    ensures push.Valid() && script == push.Print() + after && HasSuccess(after)
  {
    hide HasSuccess, IsHead;
    var head, data, rest := FlaggedHead(script);
    after := rest;
    push := HeadedPush(head, data);
  }

  lemma {:induction false} FlaggedReaches(script: Bytes)
    requires HasSuccess(script)
    ensures ReachesSuccess(script)
    decreases |script|
  {
    if script[0] > 78 && IsSuccess(script[0]) {
      assert script == PrintAll([]) + ([script[0]] + script[1..]);
      assert Reaches(script, [], script[0], script[1..]);
    } else {
      var first, after;
      if script[0] > 78 {
        first, after := Op(script[0]), script[1..];
        assert script == first.Print() + after;
      } else {
        first, after := FirstPush(script);
      }
      FlaggedReaches(after);
      var list, op, rest :| Reaches(after, list, op, rest);
      Prepend(script, first, after, list, op, rest);
    }
  }

  lemma Prepend(script: Bytes, first: Instruction, after: Bytes, list: seq<Instruction>, op: byte, rest: Bytes)
    requires first.Valid() && script == first.Print() + after && Reaches(after, list, op, rest)
    ensures Reaches(script, [first] + list, op, rest)
  {
    hide Instruction.Print;
    assert ([first] + list)[1..] == list;
    PrintFirst([first] + list, [op] + rest);
  }

  /** A script is flagged exactly when whole instructions lead to an OP_SUCCESSx. */
  lemma HasSuccessExactly(script: Bytes)
    ensures HasSuccess(script) <==> ReachesSuccess(script)
  {
    if HasSuccess(script) { FlaggedReaches(script); }
    if ReachesSuccess(script) {
      var list, op, rest :| Reaches(script, list, op, rest);
      ReachedIsFlagged(list, op, rest);
    }
  }

  /** A list of instructions is flagged exactly when one of them is an OP_SUCCESSx. */
  lemma {:induction false} PrintedFlagged(list: seq<Instruction>)
    requires AllValid(list)
    ensures HasSuccess(PrintAll(list)) <==> exists i :: 0 <= i < |list| && list[i].Op? && Listed(list[i].code)
    decreases |list|
  {
    hide HasSuccess;
    if list == [] {
      assert !HasSuccess([]) by { NothingFlagged(); }
    } else {
      var after := PrintAll(list[1..]);
      PrintedFlagged(list[1..]);
      assert forall i :: 1 <= i < |list| ==> list[i] == list[1..][i - 1];
      if list[0].Op? { ScanOp(list[0].code, after); } else { ScanPush(list[0], after); }
      if i :| 0 <= i < |list| && list[i].Op? && Listed(list[i].code) {
        assert i > 0 ==> list[1..][i - 1] == list[i];
      }
    }
  }

  lemma NothingFlagged()
    ensures !HasSuccess([])
  {}
}
