/** Which pending withdrawal requests the coordinator proposes for a sweep
    (signer/src/transaction_coordinator.rs, get_eligible_pending_withdrawal_requests). */
module Withdrawals {
  import opened Basics

  const WITHDRAWAL_DUST_LIMIT: u64 := 546

  datatype Request = Request(id: nat, amount: u64, bitcoinBlockHeight: u64)

  /** One vote per signer of the current set; None when it is not known. */
  type Votes = seq<Option<bool>>

  datatype Withdrawal = Withdrawal(request: Request, votes: Votes)

  datatype Params = Params(
    tipHeight: u64, expiryWindow: u64, expiryBuffer: u64, minConfirmations: u64, perWithdrawalCap: u64,
    signatureThreshold: u16)

  // ---------------------------------------------------------------------
  // Votes
  // ---------------------------------------------------------------------

  /** The signers, by position, whose vote is `v`. */
  ghost function Voters(votes: Votes, v: Option<bool>): set<nat> {
    set i: nat | i < |votes| && votes[i] == v
  }

  lemma SubsetSize(a: set<nat>, b: set<nat>)
    requires a <= b
    ensures |a| <= |b|
  {
    assert b == a + (b - a);
    assert |b| == |a| + |b - a|;
  }

  /** One more vote is one more voter for it, and those of a prefix are among all. */
  lemma NextVote(votes: Votes, i: nat, v: Option<bool>)
    requires i < |votes|
    ensures |Voters(votes[..i + 1], v)| == |Voters(votes[..i], v)| + if votes[i] == v then 1 else 0
    ensures |Voters(votes[..i + 1], v)| <= |Voters(votes, v)|
  {
    assert Voters(votes[..i + 1], v) == Voters(votes[..i], v) + if votes[i] == v then {i} else {};
    SubsetSize(Voters(votes[..i + 1], v), Voters(votes, v));
  }

  /** No counter of the fold exceeds 16 bits. */
  ghost predicate CountsFit(votes: Votes) {
    && |set i: nat | i < |votes| && votes[i] == Some(true)| <= 65535
    && |set i: nat | i < |votes| && votes[i] == Some(false)| <= 65535
    && |set i: nat | i < |votes| && votes[i] == None| <= 65535
  }

  /** The fold over the votes; the build checks for overflow, so it stops when a 16-bit counter
      is exceeded. */
  method Tally(votes: Votes) returns (r: Option<(u16, u16, u16)>)
    ensures r.None? <==> !CountsFit(votes)
    ensures r.Some? ==>
              var (accepted, rejected, missing) := r.value;
              && accepted == |set i: nat | i < |votes| && votes[i] == Some(true)|
              && rejected == |set i: nat | i < |votes| && votes[i] == Some(false)|
              && missing == |set i: nat | i < |votes| && votes[i] == None|
              && accepted + rejected + missing == |votes|
  {
    var accepted: u16, rejected: u16, missing: u16 := 0, 0, 0;
    for i := 0 to |votes|
      invariant accepted == |Voters(votes[..i], Some(true))|
      invariant rejected == |Voters(votes[..i], Some(false))|
      invariant missing == |Voters(votes[..i], None)|
      invariant accepted + rejected + missing == i
    {
      NextVote(votes, i, Some(true));
      NextVote(votes, i, Some(false));
      NextVote(votes, i, None);
      match votes[i]
      case Some(true) =>
        if accepted == U16_MAX { return None; }
        accepted := accepted + 1;
      case Some(false) =>
        if rejected == U16_MAX { return None; }
        rejected := rejected + 1;
      case None =>
        if missing == U16_MAX { return None; }
        missing := missing + 1;
    }
    assert votes[..|votes|] == votes;
    r := Some((accepted, rejected, missing));
  }

  // ---------------------------------------------------------------------
  // The rules
  // ---------------------------------------------------------------------

  function MinSoftHeight(p: Params): u64 {
    SaturatingAdd(SaturatingSub(p.tipHeight, p.expiryWindow), p.expiryBuffer)
  }

  /** The rules that need no votes. */
  predicate Considered(p: Params, r: Request) {
    && r.bitcoinBlockHeight >= MinSoftHeight(p)
    && WITHDRAWAL_DUST_LIMIT <= r.amount <= p.perWithdrawalCap
    && SaturatingSub(p.tipHeight, r.bitcoinBlockHeight) >= p.minConfirmations
  }

  ghost predicate Eligible(p: Params, r: Request, votes: Votes) {
    Considered(p, r) && |Voters(votes, Some(true))| >= p.signatureThreshold
  }

  /** The rules that need no votes, without saturation: a height at the end of the range passes the
      expiry rule whatever the buffer, and no confirmation is asked of a request above the tip only
      when none is asked at all. */
  lemma ConsideredExactly(p: Params, r: Request)
    ensures Considered(p, r) <==>
            && 546 <= r.amount <= p.perWithdrawalCap
            && (r.bitcoinBlockHeight + p.minConfirmations <= p.tipHeight || p.minConfirmations == 0)
            && (|| r.bitcoinBlockHeight == 0xFFFF_FFFF_FFFF_FFFF
                || (if p.tipHeight >= p.expiryWindow then p.tipHeight - p.expiryWindow else 0) + p.expiryBuffer
                   <= r.bitcoinBlockHeight)
  {}

  /** Blocks since the request was confirmed. */
  function Age(p: Params, r: Request): nat {
    if r.bitcoinBlockHeight <= p.tipHeight then p.tipHeight - r.bitcoinBlockHeight else 0
  }

  /** With a buffer inside the window, a request passes the time rules exactly when its age is
      between the confirmations and the window less the buffer, and it is not older than
      the chain allows for the buffer: the saturating arithmetic makes no difference. */
  lemma AgeExactly(p: Params, r: Request)
    requires p.expiryBuffer <= p.expiryWindow && r.bitcoinBlockHeight <= p.tipHeight
    ensures r.bitcoinBlockHeight >= MinSoftHeight(p)
            && SaturatingSub(p.tipHeight, r.bitcoinBlockHeight) >= p.minConfirmations <==>
            p.minConfirmations <= Age(p, r) <= p.expiryWindow - p.expiryBuffer
            && (p.tipHeight < p.expiryWindow ==> r.bitcoinBlockHeight >= p.expiryBuffer)
  {}

  /** Every eligible request has an age in the range, also one above the tip. */
  lemma EligibleAge(p: Params, r: Request, votes: Votes)
    requires Eligible(p, r, votes) && p.expiryBuffer <= p.expiryWindow
    ensures p.minConfirmations <= Age(p, r) <= p.expiryWindow - p.expiryBuffer
  {}

  /** With a buffer beyond the window, or confirmations beyond what the buffer leaves, nothing
      that needs a confirmation is ever eligible. */
  lemma NoRoom(p: Params, r: Request, votes: Votes)
    requires p.minConfirmations > 0 && p.minConfirmations + p.expiryBuffer > p.expiryWindow
    ensures !Eligible(p, r, votes)
  {}

  // ---------------------------------------------------------------------
  // The loop
  // ---------------------------------------------------------------------

  /** How the call can end early. */
  datatype Failure = StorageFails | CounterOverflows

  /** The i-th request stops the loop: its votes cannot be read, or not be counted. */
  ghost predicate Stops(p: Params, pending: seq<Request>, votes: seq<Votes>, answers: nat -> bool, i: nat)
    requires i < |pending| == |votes|
  {
    Considered(p, pending[i]) && (!answers(i) || !CountsFit(votes[i]))
  }

  /** Which requests can stop the call: those in range, as the votes of no other are looked at. */
  lemma StopsExactly(p: Params, pending: seq<Request>, votes: seq<Votes>, answers: nat -> bool, i: nat)
    requires i < |pending| == |votes|
    ensures Stops(p, pending, votes, answers, i) <==>
            && 546 <= pending[i].amount <= p.perWithdrawalCap
            && (pending[i].bitcoinBlockHeight + p.minConfirmations <= p.tipHeight || p.minConfirmations == 0)
            && (|| pending[i].bitcoinBlockHeight == 0xFFFF_FFFF_FFFF_FFFF
                || (if p.tipHeight >= p.expiryWindow then p.tipHeight - p.expiryWindow else 0) + p.expiryBuffer
                   <= pending[i].bitcoinBlockHeight)
            && (|| !answers(i)
                || |set v: nat | v < |votes[i]| && votes[i][v] == Some(true)| > 65535
                || |set v: nat | v < |votes[i]| && votes[i][v] == Some(false)| > 65535
                || |set v: nat | v < |votes[i]| && votes[i][v] == None| > 65535)
  {
    hide Considered;
    ConsideredExactly(p, pending[i]);
  }

  /** `answers(i)`: the votes query for the i-th pending request succeeds, if it is made. The
      result is the sublist of pending requests, in order and with their votes, that have enough
      accepting signers, an amount in range and an age in range; the call fails exactly when
      some request stops it, and for the reason of the first one. */
  method GetEligible(p: Params, pending: seq<Request>, votes: seq<Votes>, answers: nat -> bool)
      returns (r: Result<seq<Withdrawal>, Failure>, ghost chosen: seq<nat>)
    requires |votes| == |pending|
    ensures r.Ok? <==> forall i :: 0 <= i < |pending| ==> !Stops(p, pending, votes, answers, i)
    ensures r.Ok? ==>
              && |r.value| == |chosen|
              && (forall i, j :: 0 <= i < j < |chosen| ==> chosen[i] < chosen[j])
              && forall i :: 0 <= i < |chosen| ==>
                   chosen[i] < |pending| && r.value[i] == Withdrawal(pending[chosen[i]], votes[chosen[i]])
    ensures r.Ok? ==>
              forall i: nat :: i < |pending| ==>
                (i in chosen <==>
                  && |set v: nat | v < |votes[i]| && votes[i][v] == Some(true)| >= p.signatureThreshold
                  && 546 <= pending[i].amount <= p.perWithdrawalCap
                  && (pending[i].bitcoinBlockHeight + p.minConfirmations <= p.tipHeight || p.minConfirmations == 0)
                  && (|| pending[i].bitcoinBlockHeight == 0xFFFF_FFFF_FFFF_FFFF
                      || (if p.tipHeight >= p.expiryWindow then p.tipHeight - p.expiryWindow else 0) + p.expiryBuffer
                         <= pending[i].bitcoinBlockHeight))
    ensures r.Err? ==> exists i :: 0 <= i < |pending| && Stops(p, pending, votes, answers, i)
                         && (forall j :: 0 <= j < i ==> !Stops(p, pending, votes, answers, j))
                         && r.error == if answers(i) then CounterOverflows else StorageFails
  {
    var eligible: seq<Withdrawal> := [];
    chosen := [];
    var minHeight := SaturatingSub(p.tipHeight, p.expiryWindow);
    var minSoftHeight := SaturatingAdd(minHeight, p.expiryBuffer);
    for i := 0 to |pending|
      invariant forall k :: 0 <= k < i ==> !Stops(p, pending, votes, answers, k)
      invariant |eligible| == |chosen|
      invariant forall k, l :: 0 <= k < l < |chosen| ==> chosen[k] < chosen[l]
      invariant forall k :: 0 <= k < |chosen| ==>
                  chosen[k] < i && eligible[k] == Withdrawal(pending[chosen[k]], votes[chosen[k]])
      invariant forall k: nat :: k < i ==> (k in chosen <==> Eligible(p, pending[k], votes[k]))
    {
      var req := pending[i];
      if req.bitcoinBlockHeight < minSoftHeight {
        continue;
      }
      if req.amount < WITHDRAWAL_DUST_LIMIT {
        continue;
      }
      if req.amount > p.perWithdrawalCap {
        continue;
      }
      var confirmations := SaturatingSub(p.tipHeight, req.bitcoinBlockHeight);
      if confirmations < p.minConfirmations {
        continue;
      }
      assert Considered(p, req);
      if !answers(i) {
        assert Stops(p, pending, votes, answers, i);
        return Err(StorageFails), [];
      }
      var tally := Tally(votes[i]);
      if tally.None? {
        assert Stops(p, pending, votes, answers, i);
        return Err(CounterOverflows), [];
      }
      if tally.value.0 < p.signatureThreshold {
        continue;
      }
      eligible := eligible + [Withdrawal(req, votes[i])];
      chosen := chosen + [i];
    }
    forall i: nat | i < |pending| {
      ConsideredExactly(p, pending[i]);
    }
    r := Ok(eligible);
  }
}
