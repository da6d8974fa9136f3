/** The deposit and reclaim scripts byte by byte, and the exact inputs of the two parsers
    (sbtc/src/deposits.rs). */
module DepositLayout {
  import opened Basics
  import opened ScriptNum
  import opened SuccessScan
  import opened Deposits

  // ---------------------------------------------------------------------
  // The reclaim script
  // ---------------------------------------------------------------------

  /** The lock time in its shortest form, OP_CSV, and the user's script. */
  lemma ReclaimLayout(h: u16, user: Bytes)
    ensures ReclaimScript(ReclaimInputs(Blocks(h), user)) ==
            (if h == 0 then [0x00]
             else if h <= 16 then [0x50 + h]
             else if h < 0x80 then [0x01, h]
             else if h < 0x8000 then [0x02, h % 256, h / 256]
             else [0x03, h % 256, h / 256, 0x00]) + [0xb2] + user
  {
    WriteLength(h);
    if h >= 0x80 { WriteTwo(h); }
  }

  lemma WriteTwo(h: u16)
    requires h >= 0x80
    ensures Write(h) == if h < 0x8000 then [h % 256, h / 256] else [h % 256, h / 256, 0]
  {
    if h > 0xFF {
      assert Spell(h, false) == [h % 256] + Spell(h / 256, false);
    }
  }

  /** The number in front of OP_CSV in one of its four spellings. */
  ghost predicate Spells(head: Bytes, n: int) {
    || (n == 0 && head == [0x00])
    || (n == -1 && head == [0x4f])
    || (1 <= n <= 16 && head == [0x50 + n])
    || (1 <= |Write(n)| <= 5 && head == [|Write(n)|] + Write(n))
  }

  /** The split finds a number and a rest exactly where the script is a spelling of the number,
      OP_CSV and the rest. */
  lemma SplitReclaimExactly(b: Bytes, n: int, user: Bytes)
    ensures SplitReclaim(b) == Ok((n, user)) <==> exists head :: Spells(head, n) && b == head + [0xb2] + user
  {
    if SplitReclaim(b) == Ok((n, user)) {
      var head := SplitHead(b, n, user);
    }
    if head :| Spells(head, n) && b == head + [0xb2] + user {
      SplitSpelled(head, n, user);
    }
  }

  lemma SplitHead(b: Bytes, n: int, user: Bytes) returns (head: Bytes)
    requires SplitReclaim(b) == Ok((n, user))
    ensures Spells(head, n) && b == head + [0xb2] + user
  {
    if 1 <= b[0] <= 5 {
      LongForm(b, n, user);
      hide Write, SplitReclaim;
      head := [b[0]] + Write(n);
    } else {
      head := [b[0]];
      assert b == [b[0]] + [b[1]] + b[2..];
    }
  }

  lemma SplitSpelled(head: Bytes, n: int, user: Bytes)
    requires Spells(head, n)
    ensures SplitReclaim(head + [0xb2] + user) == Ok((n, user))
  {
    var b := head + [0xb2] + user;
    if |head| == 1 {
      assert b[1] == 0xb2 && b[2..] == user;
    } else {
      var k := |Write(n)|;
      ReadExactly(Write(n), 5, n);
      hide Write, Read;
      assert b[1..1 + k] == Write(n) && b[1 + k] == 0xb2 && b[2 + k..] == user;
    }
  }

  /** A reclaim script parses exactly when it spells a lock time below 2^31 without bit 22, then
      OP_CSV, then at most 2048 bytes that reach no OP_SUCCESSx; the low 16 bits are kept. */
  lemma ParseReclaimExactly(b: Bytes, r: ReclaimInputs)
    ensures ParseReclaim(b) == Ok(r) <==>
            && |r.script| <= 2048 && !ReachesSuccess(r.script)
            && exists n, head :: 0 <= n < 0x8000_0000 && n / 0x40_0000 % 2 == 0 && r.lockTime == Blocks(n % 0x1_0000)
                              && Spells(head, n) && b == head + [0xb2] + r.script
  {
    hide Spells, ReachesSuccess, SplitReclaim, TryNew;
    if ParseReclaim(b) == Ok(r) {
      var (n, user) := SplitReclaim(b).value;
      SplitReclaimExactly(b, n, user);
      TryNewExactly(n, user);
    }
    if n, head :| 0 <= n < 0x8000_0000 && n / 0x40_0000 % 2 == 0 && r.lockTime == Blocks(n % 0x1_0000)
                  && Spells(head, n) && b == head + [0xb2] + r.script {
      SplitReclaimExactly(b, n, r.script);
      TryNewExactly(n, r.script);
    }
  }

  /** A push of one to five bytes in front of OP_CSV. */
  ghost predicate PushesShort(b: Bytes, data: Bytes, user: Bytes) {
    1 <= |data| <= 5 && b == [|data|] + data + [0xb2] + user
  }

  /** Why the split fails: a short push that is no minimal number, or anything else that is not a
      number and OP_CSV. A number that is found but is no u32 is reported as it is. */
  lemma ReclaimRefusals(b: Bytes)
    ensures SplitReclaim(b).Err? ==>
              || SplitReclaim(b) == Err(InvalidReclaimScript)
              || (SplitReclaim(b) == Err(BadScriptNum(NonMinimalPush))
                  && exists data, user :: PushesShort(b, data, user))
    ensures SplitReclaim(b) == Err(InvalidReclaimScript) <==>
              && (forall data, user :: !PushesShort(b, data, user))
              && (forall n, user :: SplitReclaim(b) != Ok((n, user)))
    ensures SplitReclaim(b).Err? ==> ParseReclaim(b) == Err(SplitReclaim(b).error)
    ensures SplitReclaim(b).Ok? && !(0 <= SplitReclaim(b).value.0 < 0x1_0000_0000) ==>
              ParseReclaim(b) == Err(InvalidReclaimScriptLockTime(SplitReclaim(b).value.0))
  {
    if SplitReclaim(b).Err? && SplitReclaim(b).error.BadScriptNum? {
      var k: nat := b[0];
      ReadErrors(b[1..1 + k], 5);
      assert PushesShort(b, b[1..1 + k], b[2 + k..]);
    }
    forall data, user | PushesShort(b, data, user) ensures SplitReclaim(b) != Err(InvalidReclaimScript) {
      assert b[1 + |data|] == 0xb2;
    }
    if SplitReclaim(b).Ok? {
      var (n, user) := SplitReclaim(b).value;
      assert SplitReclaim(b) == Ok((n, user));
    }
  }

  // ---------------------------------------------------------------------
  // The deposit script
  // ---------------------------------------------------------------------

  /** A 64-bit number in eight bytes, the most significant one first. */
  function FeeBytes(f: u64): Bytes {
    [f / 0x100_0000_0000_0000, f / 0x1_0000_0000_0000 % 256, f / 0x100_0000_0000 % 256, f / 0x1_0000_0000 % 256,
     f / 0x100_0000 % 256, f / 0x1_0000 % 256, f / 0x100 % 256, f % 256]
  }

  lemma BigEndianStep(n: nat, k: nat, b: Bytes)
    requires BigEndian(n / 256, k) == b
    ensures BigEndian(n, k + 1) == b + [n % 256]
  {}

  lemma Quotients(f: u64)
    ensures f / 0x100 / 256 == f / 0x1_0000 && f / 0x1_0000 / 256 == f / 0x100_0000
    ensures f / 0x100_0000 / 256 == f / 0x1_0000_0000 && f / 0x1_0000_0000 / 256 == f / 0x100_0000_0000
    ensures f / 0x100_0000_0000 / 256 == f / 0x1_0000_0000_0000
    ensures f / 0x1_0000_0000_0000 / 256 == f / 0x100_0000_0000_0000 < 256
  {}

  lemma FeeLayout(f: u64)
    ensures BigEndian(f, 8) == FeeBytes(f)
  {
    var f1 := f / 0x100;
    var f2 := f / 0x1_0000;
    var f3 := f / 0x100_0000;
    var f4 := f / 0x1_0000_0000;
    var f5 := f / 0x100_0000_0000;
    var f6 := f / 0x1_0000_0000_0000;
    var f7 := f / 0x100_0000_0000_0000;
    Quotients(f);
    hide BigEndian;
    assert BigEndian(f7 / 256, 0) == [] by { BigEndianNothing(f7 / 256); }
    BigEndianStep(f7, 0, []);
    BigEndianStep(f6, 1, [f7]);
    BigEndianStep(f5, 2, [f7, f6 % 256]);
    BigEndianStep(f4, 3, [f7, f6 % 256, f5 % 256]);
    BigEndianStep(f3, 4, [f7, f6 % 256, f5 % 256, f4 % 256]);
    BigEndianStep(f2, 5, [f7, f6 % 256, f5 % 256, f4 % 256, f3 % 256]);
    BigEndianStep(f1, 6, [f7, f6 % 256, f5 % 256, f4 % 256, f3 % 256, f2 % 256]);
    BigEndianStep(f, 7, [f7, f6 % 256, f5 % 256, f4 % 256, f3 % 256, f2 % 256, f1 % 256]);
  }

  lemma BigEndianNothing(n: nat)
    ensures BigEndian(n, 0) == []
  {}

  /** Type prefix, version and hash; for a contract also the length of its name and the name. */
  function Address(p: Principal): Bytes
    requires |p.hash160| == 20 && (p.Contract? ==> |p.name| < 256)
  {
    match p
    case Standard(version, hash160) => [5, version] + hash160
    case Contract(version, hash160, name) => [6, version] + hash160 + [|name|] + name
  }

  /** A deposit script in full: the push of fee, address and whatever `extra` follows it, OP_DROP, the
      push of the signers' key, OP_CHECKSIG. */
  function DepositBytes(d: DepositInputs, extra: Bytes): Bytes
    requires |d.recipient.hash160| == 20 && (d.recipient.Contract? ==> |d.recipient.name| < 256)
    requires |Address(d.recipient)| + |extra| < 248
  {
    var size := 8 + |Address(d.recipient)| + |extra|;
    (if size <= 75 then [size] else [0x4c, size]) + (FeeBytes(d.maxFee) + Address(d.recipient) + extra)
    + ([0x75, 0x20] + d.signersPublicKey + [0xac])
  }

  lemma PrintedBytes(d: DepositInputs, extra: Bytes)
    requires |d.recipient.hash160| == 20 && (d.recipient.Contract? ==> |d.recipient.name| < 256)
    requires |d.signersPublicKey| == 32 && |Address(d.recipient)| + |extra| < 152
    ensures PushSlice(DepositData(d) + extra) + CheckPart(d.signersPublicKey) == DepositBytes(d, extra)
  {
    DataBytes(d);
    CheckBytes(d.signersPublicKey);
    PushBytesOf(FeeBytes(d.maxFee) + Address(d.recipient) + extra);
    hide PushSlice, DepositData, FeeBytes, Address, CheckPart;
  }

  lemma DataBytes(d: DepositInputs)
    requires |d.recipient.hash160| == 20 && (d.recipient.Contract? ==> |d.recipient.name| < 256)
    ensures DepositData(d) == FeeBytes(d.maxFee) + Address(d.recipient) && |FeeBytes(d.maxFee)| == 8
  {
    FeeLayout(d.maxFee);
    hide BigEndian;
  }

  lemma CheckBytes(key: Bytes)
    requires |key| == 32
    ensures CheckPart(key) == [0x75, 0x20] + key + [0xac]
  {}

  lemma PushBytesOf(data: Bytes)
    requires |data| < 160
    ensures PushSlice(data) == (if |data| <= 75 then [|data|] else [0x4c, |data|]) + data
  {}

  lemma AddressLength(rules: Rules, d: DepositInputs)
    requires rules.Valid() && DepositOk(rules, d)
    ensures 22 <= |Address(d.recipient)| <= 151
  {}

  lemma DepositScriptLayout(rules: Rules, d: DepositInputs)
    requires rules.Valid() && DepositOk(rules, d)
    ensures |Address(d.recipient)| <= 151 && DepositScript(rules, d) == DepositBytes(d, [])
  {
    AddressLength(rules, d);
    assert DepositData(d) + [] == DepositData(d);
    PrintedBytes(d, []);
  }

  /** A script parses as `d` exactly when it is the bytes of `d`, perhaps with something after the
      address, and pushes fewer than 160 bytes. */
  lemma ParseDepositExactly(rules: Rules, script: Bytes, d: DepositInputs)
    requires rules.Valid()
    ensures ParseDeposit(rules, script) == Ok(d) <==>
            && DepositOk(rules, d)
            && exists extra :: 8 + |Address(d.recipient)| + |extra| < 160 && script == DepositBytes(d, extra)
  {
    hide DepositBytes, ParseDeposit, PushSlice, CheckPart, DepositData;
    if ParseDeposit(rules, script) == Ok(d) {
      var extra := ParseDepositShape(rules, script);
      DataLength(d);
      PrintedBytes(d, extra);
    }
    if DepositOk(rules, d) {
      if extra :| 8 + |Address(d.recipient)| + |extra| < 160 && script == DepositBytes(d, extra) {
        DataLength(d);
        PrintedBytes(d, extra);
        ParsePrinted(rules, d, extra);
      }
    }
  }

  lemma DataLength(d: DepositInputs)
    requires |d.recipient.hash160| == 20 && (d.recipient.Contract? ==> |d.recipient.name| < 256)
    ensures |DepositData(d)| == 8 + |Address(d.recipient)|
  {}

  /** The checks of `parse` in order, up to the address: length, fixed part, push. */
  lemma ParseDepositRefusals(rules: Rules, script: Bytes)
    ensures var n, r := |script|, ParseDeposit(rules, script);
            && (n < 66 <==> r == Err(InvalidDepositScriptLength))
            && (n >= 66 ==>
                  var fixed := script[n - 35] == 0x75 && script[n - 34] == 32 && script[n - 1] == 0xac;
                  && (!fixed <==> r == Err(InvalidDepositCheckSigPart))
                  && (r == Err(NonMinimalPushDepositScript) <==>
                        fixed && script[0] == 0x4c && n - 37 == script[1] && script[1] <= 75)
                  && (r == Err(InvalidDepositScript) <==>
                        && fixed
                        && !(script[0] == 0x4c && n - 37 == script[1] && script[1] < 160)
                        && !(n - 36 == script[0] && script[0] <= 75)))
  {
    var n := |script|;
    if n >= 66 {
      var params, check := script[..n - 35], script[n - 35..];
      assert check[0] == script[n - 35] && check[1] == script[n - 34] && check[34] == script[n - 1];
      assert params[0] == script[0] && params[1] == script[1] && |params| == n - 35;
    }
  }

  // ---------------------------------------------------------------------
  // Refused requests
  // ---------------------------------------------------------------------

  /** The checks of `validate_tx` in order: transaction, output, the two scripts, their canonical
      form, the payment, the network. */
  lemma RequestRefusals(rules: Rules, req: Request, tx: Transaction, isMainnet: bool)
    requires rules.Valid()
    ensures var r := ValidateTx(rules, req, tx, isMainnet);
            var d, c := ParseDeposit(rules, req.depositScript), ParseReclaim(req.reclaimScript);
            && (r == Err(TxidMismatch) <==> tx.txid != req.txid)
            && (r == Err(OutpointIndex) <==> tx.txid == req.txid && req.vout >= |tx.output|)
            && (tx.txid == req.txid && req.vout < |tx.output| ==>
                  && (d.Err? ==> r == Err(d.error))
                  && (d.Ok? && c.Err? ==> r == Err(c.error))
                  && (d.Ok? && c.Ok? ==>
                        && DepositOk(rules, d.value) && ReclaimOk(c.value)
                        && var sameDeposit := DepositScript(rules, d.value) == req.depositScript;
                        var sameReclaim := ReclaimScript(c.value) == req.reclaimScript;
                        var pays := tx.output[req.vout].scriptPubkey
                                    == rules.scriptPubkey(req.depositScript, req.reclaimScript);
                        && (r == Err(InvalidDepositScript) <==> !sameDeposit)
                        && (r == Err(InvalidReclaimScript) <==> sameDeposit && !sameReclaim)
                        && (r == Err(UtxoScriptPubKeyMismatch) <==> sameDeposit && sameReclaim && !pays)
                        && (r == Err(RecipientNetworkMismatch) <==>
                              sameDeposit && sameReclaim && pays
                              && rules.mainnet(d.value.recipient.version) != isMainnet)))
  {
    hide ParseDeposit, ParseReclaim, DepositScript, ReclaimScript;
    ParsedInputsOk(rules, req.depositScript, req.reclaimScript);
    NoSuchError(rules, req.depositScript, req.reclaimScript);
  }

  /** The parsers do not give the errors of the checks before them. */
  lemma NoSuchError(rules: Rules, depositScript: Bytes, reclaimScript: Bytes)
    ensures ParseDeposit(rules, depositScript) != Err(TxidMismatch)
    ensures ParseDeposit(rules, depositScript) != Err(OutpointIndex)
    ensures ParseReclaim(reclaimScript) != Err(TxidMismatch) && ParseReclaim(reclaimScript) != Err(OutpointIndex)
  {}
}
