/** The two leaf scripts of a deposit and the validation of a deposit request
    (sbtc/src/deposits.rs). Scripts are byte strings. What comes from libraries and cannot
    be seen there is a parameter: which principal versions, contract names and x-only keys
    are valid, the taproot output script, and the transaction id. */
module Deposits {
  import opened Basics
  import opened ScriptNum
  import opened SuccessScan

  const OP_PUSHNUM_NEG1: byte := 0x4f
  const OP_PUSHNUM_1: byte := 0x51
  const OP_PUSHNUM_16: byte := 0x60
  const OP_DROP: byte := 0x75
  const OP_CHECKSIG: byte := 0xac
  const OP_CSV: byte := 0xb2

  const DEPOSIT_SCRIPT_FIXED_LENGTH: nat := 35
  const STACKS_ADDRESS_ENCODED_SIZE: nat := 21
  const STANDARD_SCRIPT_LENGTH: nat := 1 + 1 + 8 + STACKS_ADDRESS_ENCODED_SIZE + DEPOSIT_SCRIPT_FIXED_LENGTH
  const MAX_RECLAIM_SCRIPT_LENGTH: nat := 2048

  datatype Error =
    | TxidMismatch | OutpointIndex | UtxoScriptPubKeyMismatch | RecipientNetworkMismatch
    | InvalidDepositScriptLength | InvalidDepositCheckSigPart | NonMinimalPushDepositScript | InvalidDepositScript
    | ParseStacksAddress | InvalidXOnlyPublicKey
    | InvalidReclaimScript | BadScriptNum(error: ScriptNum.Error) | InvalidReclaimScriptLockTime(lockTime: int)
    | DisabledLockTime | UnsupportedLockTimeUnits | InvalidReclaimScriptLength | ReclaimScriptWithSuccessOp

  /** Validity of the pieces that libraries decide. */
  datatype Rules = Rules(
    versionOk: byte -> bool,
    nameOk: Bytes -> bool,
    keyOk: Bytes -> bool,
    mainnet: byte -> bool,
    scriptPubkey: (Bytes, Bytes) -> Bytes)
  {
    ghost predicate Valid() {
      && (forall n :: nameOk(n) ==> 1 <= |n| <= 128)
      && (forall k :: keyOk(k) ==> |k| == 32)
    }
  }

  /** Rules that only bound the lengths are valid. */
  lemma RulesExist()
    ensures Rules(_ => true, n => 1 <= |n| <= 128, k => |k| == 32, _ => true, (d, r) => d + r).Valid()
  {}

  // ---------------------------------------------------------------------
  // Principals (SIP-005) and big endian integers
  // ---------------------------------------------------------------------

  datatype Principal =
    | Standard(version: byte, hash160: Bytes)
    | Contract(version: byte, hash160: Bytes, name: Bytes)

  predicate PrincipalOk(rules: Rules, p: Principal) {
    rules.versionOk(p.version) && |p.hash160| == 20 && (p.Contract? ==> rules.nameOk(p.name) && |p.name| < 256)
  }

  function Serialize(p: Principal): Bytes
    requires p.Contract? ==> |p.name| < 256
  {
    match p
    case Standard(version, hash160) => [0x05, version] + hash160
    case Contract(version, hash160, name) => [0x06, version] + hash160 + [|name|] + name
  }

  /** A principal from the front of `b`; what follows it is not looked at. */
  function Deserialize(rules: Rules, b: Bytes): Option<Principal> {
    if |b| < 22 || !rules.versionOk(b[1]) then None
    else if b[0] == 0x05 then Some(Standard(b[1], b[2..22]))
    else if b[0] != 0x06 || |b| < 23 then None
    else
      var end: nat := 23 + b[22] as int;
      if |b| < end || !rules.nameOk(b[23..end]) then None else Some(Contract(b[1], b[2..22], b[23..end]))
  }

  lemma PrincipalRoundTrip(rules: Rules, p: Principal, tail: Bytes)
    requires rules.Valid() && PrincipalOk(rules, p)
    ensures Deserialize(rules, Serialize(p) + tail) == Some(p) && 22 <= |Serialize(p)| <= 151
  {
    var b := Serialize(p) + tail;
    assert b[2..22] == p.hash160;
    if p.Contract? {
      assert b[23..23 + |p.name|] == p.name;
    }
  }

  lemma DeserializeIsPrefix(rules: Rules, b: Bytes)
    requires rules.Valid() && Deserialize(rules, b).Some?
    ensures PrincipalOk(rules, Deserialize(rules, b).value) && Serialize(Deserialize(rules, b).value) <= b
  {
    if b[0] == 0x06 {
      var end: nat := 23 + b[22] as int;
      assert [0x06, b[1]] + b[2..22] + [b[22]] + b[23..end] == b[..end];
    } else {
      assert [0x05, b[1]] + b[2..22] == b[..22];
    }
  }

  function BigEndian(n: nat, k: nat): (b: Bytes)
    ensures |b| == k
  {
    if k == 0 then [] else BigEndian(n / 256, k - 1) + [n % 256]
  }

  function FromBigEndian(b: Bytes): nat {
    if b == [] then 0 else 256 * FromBigEndian(b[..|b| - 1]) + b[|b| - 1]
  }

  lemma {:induction false} BigEndianRoundTrip(n: nat, k: nat)
    requires n < Pow256(k)
    ensures FromBigEndian(BigEndian(n, k)) == n
  {
    if k > 0 {
      BigEndianRoundTrip(n / 256, k - 1);
      assert BigEndian(n, k)[..k - 1] == BigEndian(n / 256, k - 1);
    }
  }

  lemma {:induction false} FromBigEndianRoundTrip(b: Bytes)
    ensures FromBigEndian(b) < Pow256(|b|) && BigEndian(FromBigEndian(b), |b|) == b
  {
    if b != [] {
      FromBigEndianRoundTrip(b[..|b| - 1]);
      assert b == b[..|b| - 1] + [b[|b| - 1]];
    }
  }

  lemma EightBytes()
    ensures Pow256(8) == 0x1_0000_0000_0000_0000
  {
    assert Pow256(4) == 0x1_0000_0000;
  }

  // ---------------------------------------------------------------------
  // The script builder
  // ---------------------------------------------------------------------

  function PushSlice(data: Bytes): Bytes
    requires |data| < 0x1_0000_0000
  {
    if |data| < OP_PUSHDATA1 then [|data|] + data
    else if |data| < 0x100 then [OP_PUSHDATA1, |data|] + data
    else if |data| < 0x1_0000 then [OP_PUSHDATA2, |data| % 256, |data| / 256] + data
    else [OP_PUSHDATA4, |data| % 256, |data| / 256 % 256, |data| / 0x1_0000 % 256, |data| / 0x100_0000] + data
  }

  /** `push_int` for the heights a block-based lock time can have. */
  function PushInt(n: u16): Bytes {
    if 1 <= n <= 16 then [n - 1 + OP_PUSHNUM_1]
    else if n == 0 then [0]
    else WriteLength(n); PushSlice(Write(n))
  }

  // ---------------------------------------------------------------------
  // The scan of printed scripts
  // ---------------------------------------------------------------------

  lemma ScanSkipsPush(data: Bytes, rest: Bytes)
    requires |data| < 0x100
    ensures HasSuccess(PushSlice(data) + rest) == HasSuccess(rest)
  {
    var script := PushSlice(data) + rest;
    if |data| < OP_PUSHDATA1 {
      assert script[1 + |data|..] == rest;
    } else {
      assert script[1..2] == [script[1]] && [script[1]][1..] == [];
      assert LittleEndian(script[1..2]) == |data|;
      assert script[2 + |data|..] == rest;
    }
  }

  lemma ScanSkipsOp(op: byte, rest: Bytes)
    requires op > OP_PUSHDATA4 && !IsSuccess(op)
    ensures HasSuccess([op] + rest) == HasSuccess(rest)
  {
    assert ([op] + rest)[1..] == rest;
  }

  // ---------------------------------------------------------------------
  // Relative lock times (BIP-68)
  // ---------------------------------------------------------------------

  datatype LockTime = Blocks(height: u16) | Time(intervals: u16)

  /** Bit 31 disables the lock, bit 22 selects time units, the low 16 bits are the value; the
      other bits are dropped. */
  function FromConsensus(n: u32): Option<LockTime> {
    if n / 0x8000_0000 % 2 == 1 then None
    else if n / 0x40_0000 % 2 == 1 then Some(Time(n % 0x1_0000))
    else Some(Blocks(n % 0x1_0000))
  }

  // ---------------------------------------------------------------------
  // The reclaim script
  // ---------------------------------------------------------------------

  datatype ReclaimInputs = ReclaimInputs(lockTime: LockTime, script: Bytes)

  function ValidateLockTime(n: u32): Result<LockTime, Error> {
    match FromConsensus(n)
    case None => Err(DisabledLockTime)
    case Some(Time(_)) => Err(UnsupportedLockTimeUnits)
    case Some(Blocks(h)) => Ok(Blocks(h))
  }

  function ValidateScript(script: Bytes): Option<Error> {
    if |script| > MAX_RECLAIM_SCRIPT_LENGTH then Some(InvalidReclaimScriptLength)
    else if HasSuccess(script) then Some(ReclaimScriptWithSuccessOp)
    else None
  }

  function TryNew(n: u32, script: Bytes): Result<ReclaimInputs, Error> {
    match ValidateLockTime(n)
    case Err(e) => Err(e)
    case Ok(lockTime) =>
      match ValidateScript(script)
      case Some(e) => Err(e)
      case None => Ok(ReclaimInputs(lockTime, script))
  }

  /** What `try_new` can return. */
  predicate ReclaimOk(r: ReclaimInputs) {
    r.lockTime.Blocks? && ValidateScript(r.script).None?
  }

  function ReclaimScript(r: ReclaimInputs): Bytes
    requires r.lockTime.Blocks?
  {
    PushInt(r.lockTime.height) + [OP_CSV] + r.script
  }

  /** `reclaim_script`: what `try_new` can produce is recovered from the script, and the leaf
      has no OP_SUCCESSx. */
  method BuildReclaimScript(r: ReclaimInputs) returns (script: Bytes)
    requires ReclaimOk(r)
    ensures script == ReclaimScript(r) && ParseReclaim(script) == Ok(r) && !HasSuccess(script)
    ensures forall other :: ReclaimOk(other) && ReclaimScript(other) == script ==> other == r
  {
    ReclaimRoundTrip(r);
    ReclaimLeafScan(r);
    ScanOfOk(r);
    hide HasSuccess, ValidateScript, ParseReclaim;
    script := PushInt(r.lockTime.height);
    script := script + [OP_CSV];
    script := script + r.script;
    forall other | ReclaimOk(other) && ReclaimScript(other) == script ensures other == r {
      ReclaimRoundTrip(other);
    }
  }

  /** The match of `ReclaimScriptInputs::parse`: the number in front of OP_CSV, and the rest. */
  function SplitReclaim(b: Bytes): Result<(int, Bytes), Error> {
    if |b| >= 2 && b[0] == 0 && b[1] == OP_CSV then Ok((0, b[2..]))
    else if |b| >= 2 && b[1] == OP_CSV && (b[0] == OP_PUSHNUM_NEG1 || OP_PUSHNUM_1 <= b[0] <= OP_PUSHNUM_16) then
      Ok((b[0] - OP_PUSHNUM_1 + 1, b[2..]))
    else if |b| >= 1 && b[0] <= 5 && |b| > 1 + b[0] as int && b[1 + b[0] as int] == OP_CSV then
      var n: nat := b[0];
      match Read(b[1..1 + n], 5)
      case Ok(value) => Ok((value, b[2 + n..]))
      case Err(e) => Err(BadScriptNum(e))
    else Err(InvalidReclaimScript)
  }

  function ParseReclaim(b: Bytes): Result<ReclaimInputs, Error> {
    match SplitReclaim(b)
    case Err(e) => Err(e)
    case Ok((n, script)) =>
      if 0 <= n < 0x1_0000_0000 then TryNew(n, script) else Err(InvalidReclaimScriptLockTime(n))
  }

  /** `try_new`, on bits and bytes: bit 31 and then bit 22 must be clear, then the script short, then
      free of any OP_SUCCESSx that whole instructions lead to. */
  lemma TryNewExactly(n: u32, script: Bytes)
    ensures TryNew(n, script) ==
            if n >= 0x8000_0000 then Err(DisabledLockTime)
            else if n / 0x40_0000 % 2 == 1 then Err(UnsupportedLockTimeUnits)
            else if |script| > 2048 then Err(InvalidReclaimScriptLength)
            else if ReachesSuccess(script) then Err(ReclaimScriptWithSuccessOp)
            else Ok(ReclaimInputs(Blocks(n % 0x1_0000), script))
    ensures TryNew(n, script).Ok? ==> ReclaimOk(TryNew(n, script).value)
  {
    hide HasSuccess, ReachesSuccess;
    HasSuccessExactly(script);
  }

  /** Printing then parsing returns the number and the user's script. */
  lemma SplitPrinted(n: u16, script: Bytes)
    ensures SplitReclaim(PushInt(n) + [OP_CSV] + script) == Ok((n, script))
  {
    var b := PushInt(n) + [OP_CSV] + script;
    if n <= 16 {
      assert b[2..] == script;
    } else {
      WriteLength(n);
      var k := |Write(n)|;
      assert b[1..1 + k] == Write(n) && b[1 + k] == OP_CSV && b[2 + k..] == script;
      ReadExactly(Write(n), 5, n);
    }
  }

  /** Every reclaim input that `try_new` can produce is recovered from its script. */
  lemma ReclaimRoundTrip(r: ReclaimInputs)
    requires ReclaimOk(r)
    ensures ParseReclaim(ReclaimScript(r)) == Ok(r)
  {
    hide SplitReclaim, PushInt, ValidateScript, TryNew;
    SplitPrinted(r.lockTime.height, r.script);
    TryNewSmall(r.lockTime.height, r.script);
  }

  lemma TryNewSmall(n: u16, script: Bytes)
    requires ValidateScript(script).None?
    ensures TryNew(n, script) == Ok(ReclaimInputs(Blocks(n), script))
  {}

  lemma ShortFormCanonical(b: Bytes, n: int, script: Bytes)
    requires SplitReclaim(b) == Ok((n, script)) && n >= 0 && (b[0] == 0 || b[0] > 5)
    ensures n <= 16 && b == PushInt(n) + [OP_CSV] + script
  {
    assert b == [b[0], OP_CSV] + b[2..];
  }

  lemma LongForm(b: Bytes, n: int, script: Bytes)
    requires SplitReclaim(b) == Ok((n, script)) && 1 <= b[0] <= 5
    ensures b == [b[0]] + Write(n) + [OP_CSV] + script && |Write(n)| == b[0]
  {
    var k: nat := b[0];
    ReadExactly(b[1..1 + k], 5, n);
    hide Write, Read;
    assert b == [b[0]] + b[1..1 + k] + [b[1 + k]] + b[2 + k..];
  }

  lemma LongFormCanonical(b: Bytes, n: u16, script: Bytes)
    requires b != [] && 1 <= b[0] <= 5 && b == [b[0]] + Write(n) + [OP_CSV] + script && |Write(n)| == b[0]
    ensures b == PushInt(n) + [OP_CSV] + script <==> !(b[0] == 1 && b[1] <= 16)
  {
    WriteLength(n);
    hide Write;
    assert b[1] == Write(n)[0];
    if n > 16 {
      assert b == PushInt(n) + [OP_CSV] + script;
    } else {
      assert b[0] != (PushInt(n) + [OP_CSV] + script)[0];
    }
  }

  lemma PrintedSplit(r: ReclaimInputs)
    requires r.lockTime.Blocks?
    ensures SplitReclaim(ReclaimScript(r)) == Ok((r.lockTime.height, r.script))
  {
    SplitPrinted(r.lockTime.height, r.script);
  }

  lemma KeptBits(n: u32, script: Bytes)
    requires TryNew(n, script).Ok?
    ensures var r := TryNew(n, script).value;
            r.script == script && r.lockTime.Blocks? && (r.lockTime.height == n <==> n < 0x1_0000)
  {}

  lemma CanonicalBelow(b: Bytes, n: u16, script: Bytes)
    requires SplitReclaim(b) == Ok((n, script))
    ensures b != [] && (b == PushInt(n) + [OP_CSV] + script <==> !(b[0] == 1 && b[1] <= 16))
  {
    assert b != [];
    if b[0] == 0 || b[0] > 5 {
      ShortFormCanonical(b, n, script);
    } else {
      LongForm(b, n, script);
      hide SplitReclaim, PushInt;
      LongFormCanonical(b, n, script);
    }
  }

  /** A reclaim script that parses is the print of what was parsed exactly when its number is
      below 2^16 and not one of 1..16 in the long form. */
  lemma ReclaimCanonicalExactly(b: Bytes)
    requires ParseReclaim(b).Ok?
    ensures ReclaimScript(ParseReclaim(b).value) == b <==>
            SplitReclaim(b).value.0 < 0x1_0000 && !(b[0] == 1 && b[1] <= 16)
  {
    hide SplitReclaim, TryNew, PushInt;
    var (n, script) := SplitReclaim(b).value;
    KeptBits(n, script);
    if n >= 0x1_0000 {
      hide ReclaimScript;
      PrintedSplit(ParseReclaim(b).value);
    } else {
      CanonicalBelow(b, n, script);
    }
  }

  lemma ScanSkipsNumber(n: u16, rest: Bytes)
    ensures HasSuccess(PushInt(n) + rest) == HasSuccess(rest)
  {
    if 1 <= n <= 16 {
      ScanSkipsOp(n - 1 + OP_PUSHNUM_1, rest);
    } else if n == 0 {
      ScanSkipsPush([], rest);
      assert PushSlice([]) == [0];
    } else {
      WriteLength(n);
      ScanSkipsPush(Write(n), rest);
    }
  }

  /** The consensus rule scans the whole leaf; scanning the user's part decides it. */
  lemma ReclaimLeafScan(r: ReclaimInputs)
    requires r.lockTime.Blocks?
    ensures HasSuccess(ReclaimScript(r)) == HasSuccess(r.script)
    ensures ReachesSuccess(ReclaimScript(r)) <==> ReachesSuccess(r.script)
  {
    hide ReachesSuccess, HasSuccess, PushInt;
    var rest := [OP_CSV] + r.script;
    ScanSkipsOp(OP_CSV, r.script);
    assert ReclaimScript(r) == PushInt(r.lockTime.height) + rest;
    ScanSkipsNumber(r.lockTime.height, rest);
    HasSuccessExactly(ReclaimScript(r));
    HasSuccessExactly(r.script);
  }

  /** Parsing alone lets through lock times with bits above the low 16 (all but 22 and 31)
      and drops them; they never survive the comparison with the print. */
  lemma HighBitsDropped(n: u32, script: Bytes)
    requires 0x1_0000 <= n < 0x8000_0000 && n / 0x40_0000 % 2 == 0 && ValidateScript(script).None?
    ensures |Write(n)| <= 5
    ensures var b := PushSlice(Write(n)) + [OP_CSV] + script;
            && ParseReclaim(b) == Ok(ReclaimInputs(Blocks(n % 0x1_0000), script))
            && ReclaimScript(ParseReclaim(b).value) != b
  {
    ShortWrite(n);
    var k := |Write(n)|;
    var b := PushSlice(Write(n)) + [OP_CSV] + script;
    assert PushSlice(Write(n)) == [k] + Write(n);
    hide Write, PushSlice;
    assert b[1..1 + k] == Write(n) && b[1 + k] == OP_CSV && b[2 + k..] == script;
    ReadExactly(Write(n), 5, n);
    ReclaimCanonicalExactly(b);
  }

  lemma ShortWrite(n: u32)
    requires n >= 0x1_0000
    ensures 3 <= |Write(n)| <= 5
  {
    assert Write(n) == [n % 256] + Spell(n / 256, false);
    assert Spell(n / 256, false) == [n / 256 % 256] + Spell(n / 256 / 256, false);
    var top := n / 256 / 256;
    assert top > 0xFF ==> Spell(top, false) == [top % 256] + Spell(top / 256, false);
  }

  /** Parsing alone lets through 1..16 as a one-byte push. */
  lemma LongFormAccepted(n: u16, script: Bytes)
    requires 1 <= n <= 16 && ValidateScript(script).None?
    ensures var b := [1, n, OP_CSV] + script;
            ParseReclaim(b) == Ok(ReclaimInputs(Blocks(n), script)) && ReclaimScript(ParseReclaim(b).value) != b
  {
    hide TryNew, ReclaimScript, ValidateScript;
    var b := [1, n, OP_CSV] + script;
    assert b[1..2] == Write(n) && b[3..] == script;
    ReadExactly(Write(n), 5, n);
    hide Read, Write;
    TryNewSmall(n, script);
    ReclaimCanonicalExactly(b);
  }

  // ---------------------------------------------------------------------
  // The deposit script
  // ---------------------------------------------------------------------

  datatype DepositInputs = DepositInputs(signersPublicKey: Bytes, recipient: Principal, maxFee: u64)

  predicate DepositOk(rules: Rules, d: DepositInputs) {
    rules.keyOk(d.signersPublicKey) && PrincipalOk(rules, d.recipient)
  }

  function DepositData(d: DepositInputs): Bytes
    requires d.recipient.Contract? ==> |d.recipient.name| < 256
  {
    BigEndian(d.maxFee, 8) + Serialize(d.recipient)
  }

  function CheckPart(key: Bytes): Bytes
    requires |key| < 0x1_0000_0000
  {
    [OP_DROP] + PushSlice(key) + [OP_CHECKSIG]
  }

  function DepositScript(rules: Rules, d: DepositInputs): Bytes
    requires rules.Valid() && DepositOk(rules, d)
  {
    PushSlice(DepositData(d)) + CheckPart(d.signersPublicKey)
  }

  /** `deposit_script`: the inputs are recovered from the script, and the leaf has no
      OP_SUCCESSx. */
  method BuildDepositScript(rules: Rules, d: DepositInputs) returns (script: Bytes)
    requires rules.Valid() && DepositOk(rules, d)
    ensures script == DepositScript(rules, d) && ParseDeposit(rules, script) == Ok(d) && !HasSuccess(script)
    ensures forall other :: DepositOk(rules, other) && DepositScript(rules, other) == script ==> other == d
  {
    hide PushSlice, Serialize, BigEndian, ParseDeposit, HasSuccess;
    PrincipalRoundTrip(rules, d.recipient, []);
    var data := BigEndian(d.maxFee, 8);
    data := data + Serialize(d.recipient);
    script := PushSlice(data);
    script := script + [OP_DROP];
    script := script + PushSlice(d.signersPublicKey);
    script := script + [OP_CHECKSIG];
    assert script == PushSlice(data) + ([OP_DROP] + PushSlice(d.signersPublicKey) + [OP_CHECKSIG]);
    DepositRoundTrip(rules, d);
    DepositLeafScan(rules, d);
    forall other | DepositOk(rules, other) && DepositScript(rules, other) == script ensures other == d {
      DepositRoundTrip(rules, other);
    }
  }

  /** The match on the part in front of OP_DROP. */
  function SplitPush(params: Bytes): Result<Bytes, Error> {
    if |params| >= 2 && params[0] == OP_PUSHDATA1 && |params| - 2 == params[1] && 75 < params[1] < 160 then
      Ok(params[2..])
    else if |params| >= 2 && params[0] == OP_PUSHDATA1 && |params| - 2 == params[1] && params[1] < 76 then
      Err(NonMinimalPushDepositScript)
    else if |params| >= 1 && |params| - 1 == params[0] && params[0] < 76 then Ok(params[1..])
    else Err(InvalidDepositScript)
  }

  /** The fee, then a principal, out of the pushed data. */
  function ParseData(rules: Rules, data: Bytes, key: Bytes): Result<DepositInputs, Error> {
    if |data| < 8 then Err(InvalidDepositScript)
    else match Deserialize(rules, data[8..])
      case None => Err(ParseStacksAddress)
      case Some(recipient) =>
        if !rules.keyOk(key) then Err(InvalidXOnlyPublicKey)
        else
          FromBigEndianRoundTrip(data[..8]);
          EightBytes();
          Ok(DepositInputs(key, recipient, FromBigEndian(data[..8])))
  }

  function ParseDeposit(rules: Rules, script: Bytes): Result<DepositInputs, Error> {
    if |script| < STANDARD_SCRIPT_LENGTH then Err(InvalidDepositScriptLength)
    else
      var split := |script| - DEPOSIT_SCRIPT_FIXED_LENGTH;
      var check := script[split..];
      if !(check[0] == OP_DROP && check[1] == 32 && check[34] == OP_CHECKSIG) then Err(InvalidDepositCheckSigPart)
      else match SplitPush(script[..split])
        case Err(e) => Err(e)
        case Ok(data) => ParseData(rules, data, check[2..34])
  }

  /** A push is split back into its data, and only pushes of 0 to 75 bytes by one length byte
      and of 76 to 159 bytes by OP_PUSHDATA1 are. */
  lemma SplitPushExactly(params: Bytes, data: Bytes)
    ensures SplitPush(params) == Ok(data) <==> |data| < 160 && params == PushSlice(data)
  {
    if SplitPush(params) == Ok(data) {
      assert params[0] == OP_PUSHDATA1 ==> params == [params[0], params[1]] + params[2..];
      assert params == [params[0]] + params[1..];
    }
    if |data| < 160 && params == PushSlice(data) {
      assert |data| < 76 ==> params[1..] == data;
      assert |data| >= 76 ==> params[2..] == data;
    }
  }

  lemma CheckPartSplit(check: Bytes)
    requires |check| == 35 && check[0] == OP_DROP && check[1] == 32 && check[34] == OP_CHECKSIG
    ensures check == CheckPart(check[2..34])
  {
    var key := check[2..34];
    assert PushSlice(key) == [32] + key;
    hide PushSlice;
    assert check == [OP_DROP] + ([32] + key) + [OP_CHECKSIG];
  }

  lemma ParseDataShape(rules: Rules, data: Bytes, key: Bytes)
    requires rules.Valid() && ParseData(rules, data, key).Ok?
    ensures var d := ParseData(rules, data, key).value;
            DepositOk(rules, d) && d.signersPublicKey == key && DepositData(d) <= data
  {
    DeserializeIsPrefix(rules, data[8..]);
    FromBigEndianRoundTrip(data[..8]);
    var d := ParseData(rules, data, key).value;
    hide Serialize, Deserialize, BigEndian, FromBigEndian;
    assert data == data[..8] + data[8..];
  }

  lemma ParseDataPrinted(rules: Rules, d: DepositInputs, extra: Bytes)
    requires rules.Valid() && DepositOk(rules, d)
    ensures ParseData(rules, DepositData(d) + extra, d.signersPublicKey) == Ok(d)
  {
    hide Serialize, Deserialize, BigEndian, FromBigEndian, Pow256;
    PrincipalRoundTrip(rules, d.recipient, extra);
    var data := DepositData(d) + extra;
    assert data[..8] == BigEndian(d.maxFee, 8) && data[8..] == Serialize(d.recipient) + extra;
    EightBytes();
    BigEndianRoundTrip(d.maxFee, 8);
  }

  /** A script long enough is split into a push and the fixed part exactly when it is their
      concatenation. */
  lemma ParseDepositSplit(rules: Rules, data: Bytes, key: Bytes)
    requires |key| == 32 && 30 <= |data| < 160
    ensures ParseDeposit(rules, PushSlice(data) + CheckPart(key)) == ParseData(rules, data, key)
  {
    var script := PushSlice(data) + CheckPart(key);
    SplitPushExactly(PushSlice(data), data);
    var split := |script| - 35;
    assert CheckPart(key) == [OP_DROP, 32] + key + [OP_CHECKSIG];
    assert CheckPart(key)[2..34] == key;
    assert |PushSlice(data)| >= 31;
    hide SplitPush, PushSlice, CheckPart, ParseData;
    assert script[..split] == PushSlice(data) && script[split..] == CheckPart(key);
  }

  /** What `parse` accepts: a push of fee and address bytes, then the fixed part. The address
      bytes may go on after the principal. */
  lemma ParseDepositShape(rules: Rules, script: Bytes) returns (extra: Bytes)
    requires rules.Valid() && ParseDeposit(rules, script).Ok?
    ensures var d := ParseDeposit(rules, script).value;
            && DepositOk(rules, d) && |DepositData(d) + extra| < 160
            && script == PushSlice(DepositData(d) + extra) + CheckPart(d.signersPublicKey)
  {
    hide SplitPush, ParseData, Deserialize, DepositData, CheckPart, PushSlice;
    var split := |script| - 35;
    var check := script[split..];
    CheckPartSplit(check);
    var data := SplitPush(script[..split]).value;
    SplitPushExactly(script[..split], data);
    ParseDataShape(rules, data, check[2..34]);
    var d := ParseDeposit(rules, script).value;
    extra := data[|DepositData(d)|..];
    assert DepositData(d) + extra == data;
    assert script == script[..split] + check;
  }

  lemma ParsePrinted(rules: Rules, d: DepositInputs, extra: Bytes)
    requires rules.Valid() && DepositOk(rules, d) && |DepositData(d) + extra| < 160
    ensures ParseDeposit(rules, PushSlice(DepositData(d) + extra) + CheckPart(d.signersPublicKey)) == Ok(d)
  {
    PrincipalRoundTrip(rules, d.recipient, []);
    ParseDataPrinted(rules, d, extra);
    ParseDepositSplit(rules, DepositData(d) + extra, d.signersPublicKey);
  }

  /** Every valid deposit input is recovered from its script, with standard or contract
      recipient, in either form of push. */
  lemma DepositRoundTrip(rules: Rules, d: DepositInputs)
    requires rules.Valid() && DepositOk(rules, d)
    ensures ParseDeposit(rules, DepositScript(rules, d)) == Ok(d)
  {
    PrincipalRoundTrip(rules, d.recipient, []);
    assert DepositData(d) + [] == DepositData(d);
    ParsePrinted(rules, d, []);
  }

  /** `parse` ignores bytes after the principal; the comparison with the print does not. */
  lemma TrailingBytesDropped(rules: Rules, d: DepositInputs, extra: Bytes)
    requires rules.Valid() && DepositOk(rules, d) && extra != [] && |DepositData(d) + extra| < 160
    ensures var script := PushSlice(DepositData(d) + extra) + CheckPart(d.signersPublicKey);
            ParseDeposit(rules, script) == Ok(d) && script != DepositScript(rules, d)
  {
    ParsePrinted(rules, d, extra);
    var script := PushSlice(DepositData(d) + extra) + CheckPart(d.signersPublicKey);
    assert |script| > |DepositScript(rules, d)|;
  }

  /** The leaf the signers spend has no OP_SUCCESSx. */
  lemma DepositLeafScan(rules: Rules, d: DepositInputs)
    requires rules.Valid() && DepositOk(rules, d)
    ensures !HasSuccess(DepositScript(rules, d)) && !ReachesSuccess(DepositScript(rules, d))
  {
    hide ReachesSuccess;
    HasSuccessExactly(DepositScript(rules, d));
    var key := d.signersPublicKey;
    PrincipalRoundTrip(rules, d.recipient, []);
    ScanSkipsOp(OP_CHECKSIG, []);
    assert [OP_CHECKSIG] + [] == [OP_CHECKSIG];
    ScanSkipsPush(key, [OP_CHECKSIG]);
    ScanSkipsOp(OP_DROP, PushSlice(key) + [OP_CHECKSIG]);
    assert CheckPart(key) == [OP_DROP] + (PushSlice(key) + [OP_CHECKSIG]);
    ScanSkipsPush(DepositData(d), CheckPart(key));
  }

  // ---------------------------------------------------------------------
  // Validation of a request
  // ---------------------------------------------------------------------

  datatype Request = Request(txid: int, vout: u32, reclaimScript: Bytes, depositScript: Bytes)
  datatype TxOut = TxOut(value: u64, scriptPubkey: Bytes)
  datatype Transaction = Transaction(txid: int, output: seq<TxOut>)

  datatype DepositInfo = DepositInfo(
    txid: int, vout: u32, maxFee: u64, amount: u64, depositScript: Bytes, reclaimScript: Bytes,
    signersPublicKey: Bytes, recipient: Principal, lockTime: LockTime)

  /** `validate_tx` */
  function ValidateTx(rules: Rules, req: Request, tx: Transaction, isMainnet: bool): Result<DepositInfo, Error>
    requires rules.Valid()
  {
    if tx.txid != req.txid then Err(TxidMismatch)
    else if req.vout >= |tx.output| then Err(OutpointIndex)
    else
      var out := tx.output[req.vout];
      match ParseDeposit(rules, req.depositScript)
      case Err(e) => Err(e)
      case Ok(deposit) =>
        match ParseReclaim(req.reclaimScript)
        case Err(e) => Err(e)
        case Ok(reclaim) =>
          ParsedInputsOk(rules, req.depositScript, req.reclaimScript);
          var depositScript, reclaimScript := DepositScript(rules, deposit), ReclaimScript(reclaim);
          if depositScript != req.depositScript then Err(InvalidDepositScript)
          else if reclaimScript != req.reclaimScript then Err(InvalidReclaimScript)
          else if rules.scriptPubkey(depositScript, reclaimScript) != out.scriptPubkey then
            Err(UtxoScriptPubKeyMismatch)
          else if rules.mainnet(deposit.recipient.version) != isMainnet then Err(RecipientNetworkMismatch)
          else Ok(DepositInfo(req.txid, req.vout, deposit.maxFee, out.value, depositScript, reclaimScript,
                                  deposit.signersPublicKey, deposit.recipient, reclaim.lockTime))
  }

  lemma ParsedInputsOk(rules: Rules, depositScript: Bytes, reclaimScript: Bytes)
    requires rules.Valid()
    ensures ParseDeposit(rules, depositScript).Ok? ==> DepositOk(rules, ParseDeposit(rules, depositScript).value)
    ensures ParseReclaim(reclaimScript).Ok? ==> ReclaimOk(ParseReclaim(reclaimScript).value)
  {
    if ParseDeposit(rules, depositScript).Ok? {
      var _ := ParseDepositShape(rules, depositScript);
    }
  }

  /** The transaction pays to the canonical scripts of `d` and `r`. */
  ghost predicate Pays(rules: Rules, req: Request, tx: Transaction, d: DepositInputs, r: ReclaimInputs)
    requires rules.Valid() && DepositOk(rules, d) && ReclaimOk(r)
  {
    && tx.txid == req.txid && req.vout < |tx.output|
    && req.depositScript == DepositScript(rules, d) && req.reclaimScript == ReclaimScript(r)
    && tx.output[req.vout].scriptPubkey == rules.scriptPubkey(DepositScript(rules, d), ReclaimScript(r))
  }

  /** An accepted request carries, byte for byte, the canonical scripts of the fields that are
      returned; so non-minimal pushes, bytes after the principal and lock-time bits above the
      low 16 are refused, and neither leaf has an OP_SUCCESSx. */
  lemma AcceptedIsCanonical(rules: Rules, req: Request, tx: Transaction, isMainnet: bool)
    returns (d: DepositInputs, r: ReclaimInputs)
    requires rules.Valid() && ValidateTx(rules, req, tx, isMainnet).Ok?
    ensures DepositOk(rules, d) && ReclaimOk(r) && Pays(rules, req, tx, d, r)
    ensures rules.mainnet(d.recipient.version) == isMainnet
    ensures ValidateTx(rules, req, tx, isMainnet).value ==
            DepositInfo(req.txid, req.vout, d.maxFee, tx.output[req.vout].value, req.depositScript, req.reclaimScript,
                        d.signersPublicKey, d.recipient, r.lockTime)
    ensures SplitReclaim(req.reclaimScript) == Ok((r.lockTime.height, r.script))
    ensures !ReachesSuccess(req.depositScript) && !ReachesSuccess(req.reclaimScript) && |r.script| <= 2048
  {
    hide ParseDeposit, ParseReclaim, HasSuccess, DepositScript, ReclaimScript, SplitReclaim, ValidateScript;
    hide ReachesSuccess, PrincipalOk;
    d := ParseDeposit(rules, req.depositScript).value;
    r := ParseReclaim(req.reclaimScript).value;
    ParsedInputsOk(rules, req.depositScript, req.reclaimScript);
    DepositLeafScan(rules, d);
    ReclaimLeafScan(r);
    ScanOfOk(r);
    PrintedSplit(r);
  }

  lemma ScanOfOk(r: ReclaimInputs)
    requires ReclaimOk(r)
    ensures !HasSuccess(r.script) && !ReachesSuccess(r.script) && |r.script| <= 2048
  {
    HasSuccessExactly(r.script);
  }

  /** And every request with canonical scripts of valid inputs is accepted. */
  lemma CanonicalIsAccepted(rules: Rules, req: Request, tx: Transaction, d: DepositInputs, r: ReclaimInputs)
    requires rules.Valid() && DepositOk(rules, d) && ReclaimOk(r) && Pays(rules, req, tx, d, r)
    ensures ValidateTx(rules, req, tx, rules.mainnet(d.recipient.version)) ==
            Ok(DepositInfo(req.txid, req.vout, d.maxFee, tx.output[req.vout].value, req.depositScript,
                           req.reclaimScript, d.signersPublicKey, d.recipient, r.lockTime))
    ensures ValidateTx(rules, req, tx, !rules.mainnet(d.recipient.version)) == Err(RecipientNetworkMismatch)
  {
    DepositRoundTrip(rules, d);
    ReclaimRoundTrip(r);
  }
}
