/** Stacks transactions are signed once per tenure (signer/src/transaction_signer.rs): the
    signer keeps, for the two bitcoin tips it used last, the requests it has signed. */
module SignRequests {
  import opened Basics
  import opened Lru

  const STACKS_SIGN_REQUEST_LRU_SIZE: nat := 2

  type Tip = int

  /** `details`: everything in the transaction that is not named. */
  datatype StacksTx =
    | CompleteDeposit(outpoint: int, details: int)
    | AcceptWithdrawal(requestId: nat, details: int)
    | RejectWithdrawal(requestId: nat, details: int)
    | RotateKeys(aggregateKey: int, details: int)
    | SmartContract(contract: int)

  datatype RequestId =
    | DepositId(outpoint: int)
    | WithdrawalId(requestId: nat)
    | KeysId(aggregateKey: int)
    | ContractId(contract: int)

  /** `from_sign_request` */
  function IdOf(tx: StacksTx): RequestId {
    match tx
    case CompleteDeposit(o, _) => DepositId(o)
    case AcceptWithdrawal(r, _) => WithdrawalId(r)
    case RejectWithdrawal(r, _) => WithdrawalId(r)
    case RotateKeys(k, _) => KeysId(k)
    case SmartContract(c) => ContractId(c)
  }

  predicate IsAnswer(tx: StacksTx) {
    tx.AcceptWithdrawal? || tx.RejectWithdrawal?
  }

  /** Two transactions of which at most one may be signed: completions of one deposit, answers to
      one withdrawal request, rotations to one key, deployments of one contract. */
  predicate Conflict(a: StacksTx, b: StacksTx) {
    || (a.CompleteDeposit? && b.CompleteDeposit? && a.outpoint == b.outpoint)
    || (IsAnswer(a) && IsAnswer(b) && a.requestId == b.requestId)
    || (a.RotateKeys? && b.RotateKeys? && a.aggregateKey == b.aggregateKey)
    || (a.SmartContract? && a == b)
  }

  /** The request ids tell transactions apart unless they conflict. */
  lemma ConflictIsSameId(a: StacksTx, b: StacksTx)
    ensures IdOf(a) == IdOf(b) <==> Conflict(a, b)
  {}

  type Signed = Cache<Tip, set<RequestId>>

  /** How the broadcast of the signature goes; the local signal comes after it. */
  datatype Sending = BroadcastFails | SignalFails | Sent

  /** `valid`: all checks pass that do not look at the cache, up to the transaction id. */
  datatype Event = Event(tip: Tip, tx: StacksTx, valid: bool, sending: Sending)

  datatype Response = AlreadySigned | Invalid | SendFailed | Done

  /** Mark the request as signed for the tenure (`get_or_insert_mut`, then insert). */
  function Record(c: Signed, tip: Tip, id: RequestId): Signed {
    var before := if Has(c, tip) then Lookup(c, tip).value else {};
    Put(c, STACKS_SIGN_REQUEST_LRU_SIZE, tip, before + {id})
  }

  function Respond(c: Signed, e: Event): Response {
    if Has(c, e.tip) && IdOf(e.tx) in Lookup(c, e.tip).value then AlreadySigned
    else if !e.valid then Invalid
    else if !e.sending.Sent? then SendFailed
    else Done
  }

  /** The signature goes out to the network. */
  predicate Emits(c: Signed, e: Event) {
    Respond(c, e).Done? || (Respond(c, e).SendFailed? && e.sending.SignalFails?)
  }

  /** `handle_stacks_transaction_sign_request`: the look-up already counts as a use. */
  function Handle(c: Signed, e: Event): Signed {
    var used := Touch(c, e.tip);
    if Respond(c, e).Done? then Record(used, e.tip, IdOf(e.tx)) else used
  }

  class SignerLoop {
    var stacksSignRequest: Signed

    ghost predicate Valid()
      reads this
    {
      Small(stacksSignRequest)
    }

    constructor ()
      ensures Valid() && stacksSignRequest == []
    {
      stacksSignRequest := [];
    }

    method AssertNotSigned(e: Event) returns (ok: bool)
      modifies this
      ensures stacksSignRequest == Touch(old(stacksSignRequest), e.tip)
      ensures ok <==> !Respond(old(stacksSignRequest), e).AlreadySigned?
    {
      var found := Lookup(stacksSignRequest, e.tip);
      stacksSignRequest := Touch(stacksSignRequest, e.tip);
      ok := found.None? || IdOf(e.tx) !in found.value;
    }

    method OnSignRequest(e: Event) returns (r: Response, emitted: bool)
      requires Valid()
      modifies this
      ensures Valid() && stacksSignRequest == Handle(old(stacksSignRequest), e)
      ensures r == Respond(old(stacksSignRequest), e)
      ensures emitted <==> Emits(old(stacksSignRequest), e)
    {
      HandleSmall(stacksSignRequest, e);
      emitted := false;
      var unsigned := AssertNotSigned(e);
      if !unsigned {
        return AlreadySigned, false;
      }
      if !e.valid {
        return Invalid, false;
      }
      if e.sending.BroadcastFails? {
        return SendFailed, false;
      }
      emitted := true;
      if e.sending.SignalFails? {
        return SendFailed, true;
      }
      stacksSignRequest := Record(stacksSignRequest, e.tip, IdOf(e.tx));
      r := Done;
    }
  }

  // ---------------------------------------------------------------------
  // One step on a cache of two
  // ---------------------------------------------------------------------

  predicate Small(c: Signed) {
    |c| <= 2 && (|c| == 2 ==> c[0].key != c[1].key)
  }

  lemma SmallLookup(c: Signed, k: Tip)
    requires Small(c)
    ensures Distinct(c)
    ensures Lookup(c, k) == if |c| > 0 && c[0].key == k then Some(c[0].value)
                            else if |c| > 1 && c[1].key == k then Some(c[1].value) else None
    ensures Pop(c, k) == if |c| > 0 && c[0].key == k then c[1..] else if |c| > 1 && c[1].key == k then c[..1] else c
  {
    if |c| == 2 {
      assert c[1..][1..] == [] && c == [c[0], c[1]];
    } else if |c| == 1 {
      assert c[1..] == [] && c == [c[0]];
    }
  }

  /** The event brings its tip to the front: the tip was known, or its request is signed. */
  predicate Uses(c: Signed, e: Event) {
    Has(c, e.tip) || Respond(c, e).Done?
  }

  lemma HandleSmall(c: Signed, e: Event)
    requires Small(c)
    ensures Small(Handle(c, e))
    ensures !Uses(c, e) ==> Handle(c, e) == c
    ensures Uses(c, e) ==> |Handle(c, e)| > 0 && Handle(c, e)[0].key == e.tip
    ensures Respond(c, e).Done? ==> IdOf(e.tx) in Handle(c, e)[0].value
    ensures Has(c, e.tip) ==> Lookup(c, e.tip).value <= Handle(c, e)[0].value
    ensures Uses(c, e) && c != [] && c[0].key != e.tip ==> Handle(c, e) == [Handle(c, e)[0], c[0]]
    ensures Uses(c, e) && c != [] && c[0].key == e.tip ==> Handle(c, e)[1..] == c[1..]
  {
    SmallLookup(c, e.tip);
    var used := Touch(c, e.tip);
    assert Small(used);
    SmallLookup(used, e.tip);
  }

  function Run(c: Signed, events: seq<Event>): Signed {
    if events == [] then c else Handle(Run(c, events[..|events| - 1]), events[|events| - 1])
  }

  predicate UsesAt(c: Signed, events: seq<Event>, i: nat)
    requires i < |events|
  {
    Uses(Run(c, events[..i]), events[i])
  }

  predicate DoneAt(c: Signed, events: seq<Event>, i: nat)
    requires i < |events|
  {
    Respond(Run(c, events[..i]), events[i]).Done?
  }

  lemma {:induction false} RunSmall(c: Signed, events: seq<Event>)
    requires Small(c)
    ensures Small(Run(c, events))
  {
    if events != [] {
      RunSmall(c, events[..|events| - 1]);
      HandleSmall(Run(c, events[..|events| - 1]), events[|events| - 1]);
    }
  }

  // ---------------------------------------------------------------------
  // Signed at most once
  // ---------------------------------------------------------------------

  /** `tip` has signed `id` and is in no danger from `other`. */
  ghost predicate Remembers(c: Signed, tip: Tip, id: RequestId, other: Tip) {
    && c != [] && Has(c, tip) && id in Lookup(c, tip).value
    && (c[0].key == tip || c[0].key == other)
  }

  lemma RemembersStep(c: Signed, tip: Tip, id: RequestId, other: Tip, e: Event)
    requires Small(c) && Remembers(c, tip, id, other) && (e.tip == tip || e.tip == other)
    ensures Remembers(Handle(c, e), tip, id, other)
  {
    HandleSmall(c, e);
    SmallLookup(c, tip);
    SmallLookup(c, e.tip);
    SmallLookup(Handle(c, e), tip);
  }

  lemma {:induction false} RemembersRun(c: Signed, tip: Tip, id: RequestId, other: Tip, events: seq<Event>)
    requires Small(c) && Remembers(c, tip, id, other)
    requires forall i :: 0 <= i < |events| ==> events[i].tip == tip || events[i].tip == other
    ensures Remembers(Run(c, events), tip, id, other)
  {
    if events != [] {
      var before := events[..|events| - 1];
      RemembersRun(c, tip, id, other, before);
      RunSmall(c, before);
      RemembersStep(Run(c, before), tip, id, other, events[|events| - 1]);
    }
  }

  lemma SignedIsRemembered(c: Signed, e: Event, other: Tip)
    requires Small(c) && Respond(c, e).Done?
    ensures Small(Handle(c, e)) && Remembers(Handle(c, e), e.tip, IdOf(e.tx), other)
  {
    HandleSmall(c, e);
    SmallLookup(Handle(c, e), e.tip);
  }

  lemma {:induction false} RunSplit(c: Signed, a: seq<Event>, b: seq<Event>)
    ensures Run(c, a + b) == Run(Run(c, a), b)
  {
    if b == [] {
      assert a + b == a;
    } else {
      RunSplit(c, a, b[..|b| - 1]);
      assert (a + b)[..|a + b| - 1] == a + b[..|b| - 1];
    }
  }

  lemma {:induction false} RefusedAgain(c: Signed, e: Event, between: seq<Event>, again: Event, other: Tip)
    requires Small(c) && Respond(c, e).Done?
    requires again.tip == e.tip && IdOf(again.tx) == IdOf(e.tx)
    requires forall k :: 0 <= k < |between| ==> between[k].tip == e.tip || between[k].tip == other
    ensures Respond(Run(Handle(c, e), between), again) == AlreadySigned
  {
    SignedIsRemembered(c, e, other);
    RemembersRun(Handle(c, e), e.tip, IdOf(e.tx), other, between);
  }

  lemma {:induction false} RunThrough(c: Signed, events: seq<Event>, i: nat, j: nat)
    requires i < j <= |events|
    ensures Run(c, events[..j]) == Run(Handle(Run(c, events[..i]), events[i]), events[i + 1..j])
  {
    hide Handle;
    var upto := events[..i + 1];
    assert upto[..|upto| - 1] == events[..i];
    assert Run(c, upto) == Handle(Run(c, events[..i]), events[i]);
    assert events[..j] == upto + events[i + 1..j];
    RunSplit(c, upto, events[i + 1..j]);
  }

  /** In any run, as long as requests come for at most one other tip, what was signed in a
      tenure excludes everything that conflicts with it. */
  lemma {:induction false} SignedOnce(events: seq<Event>, i: nat, j: nat, other: Tip)
    requires i < j < |events| && DoneAt([], events, i)
    requires events[i].tip == events[j].tip && Conflict(events[i].tx, events[j].tx)
    requires forall k :: i < k < j ==> events[k].tip == events[i].tip || events[k].tip == other
    ensures Respond(Run([], events[..j]), events[j]) == AlreadySigned
  {
    hide Run, Handle, Respond, IdOf;
    ConflictIsSameId(events[i].tx, events[j].tx);
    RunThrough([], events, i, j);
    RunSmall([], events[..i]);
    RefusedAgain(Run([], events[..i]), events[i], events[i + 1..j], events[j], other);
  }

  /** Accepting and rejecting one withdrawal exclude each other in a tenure. */
  lemma AcceptOrReject(events: seq<Event>, i: nat, j: nat, other: Tip)
    requires i < j < |events| && DoneAt([], events, i)
    requires
      || (events[i].tx.AcceptWithdrawal? && events[j].tx.RejectWithdrawal?)
      || (events[i].tx.RejectWithdrawal? && events[j].tx.AcceptWithdrawal?)
    requires events[i].tx.requestId == events[j].tx.requestId && events[i].tip == events[j].tip
    requires forall k :: i < k < j ==> events[k].tip == events[i].tip || events[k].tip == other
    ensures !DoneAt([], events, j)
  {
    SignedOnce(events, i, j, other);
  }

  // ---------------------------------------------------------------------
  // Nothing else is refused
  // ---------------------------------------------------------------------

  /** What an event adds to the record of a tip: at most its own request, if that is signed. */
  lemma HandleLookup(c: Signed, e: Event, tip: Tip, id: RequestId)
    requires Small(c) && Has(Handle(c, e), tip) && id in Lookup(Handle(c, e), tip).value
    ensures (Has(c, tip) && id in Lookup(c, tip).value) || (Respond(c, e).Done? && e.tip == tip && IdOf(e.tx) == id)
  {
    hide IdOf;
    SmallLookup(c, tip);
    TouchLookup(c, e.tip, tip);
    TouchLookup(c, e.tip, e.tip);
    var used := Touch(c, e.tip);
    if Respond(c, e).Done? {
      var before := if Has(used, e.tip) then Lookup(used, e.tip).value else {};
      PutLookup(used, 2, e.tip, before + {IdOf(e.tx)}, tip);
    }
  }

  /** The record of a tip comes from requests of this tip that were signed. */
  lemma {:induction false} RecordedWasSigned(events: seq<Event>, tip: Tip, id: RequestId) returns (i: nat)
    requires Has(Run([], events), tip) && id in Lookup(Run([], events), tip).value
    ensures i < |events| && DoneAt([], events, i) && events[i].tip == tip && IdOf(events[i].tx) == id
  {
    hide Handle, Respond, IdOf;
    var last := |events| - 1;
    var before := events[..last];
    RunSmall([], before);
    HandleLookup(Run([], before), events[last], tip, id);
    if Respond(Run([], before), events[last]).Done? && events[last].tip == tip && IdOf(events[last].tx) == id {
      i := last;
    } else {
      i := RecordedWasSigned(before, tip, id);
      PrefixAt([], events, last, i);
    }
  }

  /** In any run, a request is refused as signed only if a conflicting request of its tip was
      signed before. */
  lemma {:induction false} RefusedForReason(events: seq<Event>, j: nat) returns (i: nat)
    requires j < |events| && Respond(Run([], events[..j]), events[j]) == AlreadySigned
    ensures i < j && DoneAt([], events, i) && events[i].tip == events[j].tip && Conflict(events[i].tx, events[j].tx)
  {
    hide Run, Handle, IdOf;
    i := RecordedWasSigned(events[..j], events[j].tip, IdOf(events[j].tx));
    PrefixAt([], events, j, i);
    ConflictIsSameId(events[i].tx, events[j].tx);
  }

  /** So a valid request that reaches the network is signed, unless a conflicting one of its tip was. */
  lemma {:induction false} SignedUnlessConflict(events: seq<Event>, j: nat)
    requires j < |events| && events[j].valid && events[j].sending.Sent?
    requires forall i :: 0 <= i < j && DoneAt([], events, i) && events[i].tip == events[j].tip ==>
               !Conflict(events[i].tx, events[j].tx)
    ensures DoneAt([], events, j)
  {
    if Respond(Run([], events[..j]), events[j]) == AlreadySigned {
      var i := RefusedForReason(events, j);
    }
  }

  /** Only what is recorded is remembered. After a signature has gone out for a request, one
      goes out for the same request right after exactly when the local signal of the first
      failed and the second is valid and reaches the network. */
  lemma SecondEmission(c: Signed, e: Event, again: Event)
    requires Small(c) && Emits(c, e)
    requires again.tip == e.tip && Conflict(e.tx, again.tx)
    ensures Emits(Handle(c, e), again) <==> e.sending.SignalFails? && again.valid && !again.sending.BroadcastFails?
  {
    ConflictIsSameId(e.tx, again.tx);
    HandleSmall(c, e);
    SmallLookup(c, e.tip);
    TouchLookup(c, e.tip, e.tip);
    SmallLookup(Handle(c, e), e.tip);
  }

  /** What is not refused as signed is answered by its own merits, and a signature goes out exactly
      for what is valid and can be broadcast. */
  lemma AnsweredExactly(c: Signed, e: Event)
    requires Respond(c, e) != AlreadySigned
    ensures Respond(c, e) == if !e.valid then Invalid else if e.sending == Sent then Done else SendFailed
    ensures Emits(c, e) <==> e.valid && e.sending != BroadcastFails
  {}

  // ---------------------------------------------------------------------
  // Exactly when a tenure is forgotten
  // ---------------------------------------------------------------------

  /** Two other tips, one used and then a request of the second signed, with nothing asked for
      `tip` in between. */
  ghost predicate DisplacedBy(c: Signed, events: seq<Event>, tip: Tip, a: nat, b: nat) {
    && a < b < |events| && UsesAt(c, events, a) && DoneAt(c, events, b)
    && events[a].tip != tip && events[b].tip != tip && events[a].tip != events[b].tip
    && forall k :: a < k < b ==> events[k].tip != tip
  }

  ghost predicate Displaced(c: Signed, events: seq<Event>, tip: Tip) {
    exists a, b :: DisplacedBy(c, events, tip, a, b)
  }

  /** Where a signed request is: in the entry at the front, in the entry behind the tip that was
      used last, or in none. */
  datatype Place = Front | Behind(used: Tip) | Gone

  function Track(c: Signed, events: seq<Event>, tip: Tip): Place {
    if events == [] then Front
    else
      var last := |events| - 1;
      var e := events[last];
      match Track(c, events[..last], tip)
      case Front => if e.tip != tip && UsesAt(c, events, last) then Behind(e.tip) else Front
      case Behind(x) =>
        if e.tip == tip then Front
        else if DoneAt(c, events, last) && e.tip != x then Gone
        else Behind(x)
      case Gone => Gone
  }

  ghost predicate At(now: Signed, tip: Tip, id: RequestId, place: Place) {
    match place
    case Front => now != [] && now[0].key == tip && id in now[0].value
    case Behind(x) => |now| == 2 && x != tip && now[0].key == x && now[1].key == tip && id in now[1].value
    case Gone => Has(now, tip) ==> id !in Lookup(now, tip).value
  }

  /** The event signs this request. */
  predicate Signs(now: Signed, e: Event, tip: Tip, id: RequestId) {
    e.tip == tip && IdOf(e.tx) == id && Respond(now, e).Done?
  }

  lemma TrackOther(now: Signed, tip: Tip, id: RequestId, place: Place, e: Event)
    requires Small(now) && At(now, tip, id, place) && e.tip != tip
    ensures place.Front? ==> At(Handle(now, e), tip, id, if Uses(now, e) then Behind(e.tip) else Front)
    ensures place.Behind? ==>
              At(Handle(now, e), tip, id, if Respond(now, e).Done? && e.tip != place.used then Gone else place)
    ensures place.Behind? && Uses(now, e) && !Respond(now, e).Done? ==> e.tip == place.used
    ensures place.Gone? ==> At(Handle(now, e), tip, id, Gone)
  {
    HandleSmall(now, e);
    SmallLookup(now, e.tip);
    SmallLookup(now, tip);
    SmallLookup(Handle(now, e), tip);
  }

  lemma TrackSame(now: Signed, tip: Tip, id: RequestId, place: Place, e: Event)
    requires Small(now) && At(now, tip, id, place) && e.tip == tip && !Signs(now, e, tip, id)
    ensures At(Handle(now, e), tip, id, if place.Gone? then Gone else Front)
  {
    HandleSmall(now, e);
    SmallLookup(now, tip);
    SmallLookup(Touch(now, tip), tip);
    TouchLookup(now, tip, tip);
    SmallLookup(Handle(now, e), tip);
  }

  /** No event of the run signs the request. */
  ghost predicate NotSigned(c: Signed, events: seq<Event>, tip: Tip, id: RequestId) {
    forall i :: 0 <= i < |events| ==> !Signs(Run(c, events[..i]), events[i], tip, id)
  }

  /** No event of the run signs a request of `tip` that conflicts with `tx`. */
  ghost predicate NoneSigned(c: Signed, events: seq<Event>, tip: Tip, tx: StacksTx) {
    forall i :: 0 <= i < |events| && DoneAt(c, events, i) && events[i].tip == tip ==> !Conflict(tx, events[i].tx)
  }

  lemma NoneSignedById(c: Signed, events: seq<Event>, tip: Tip, tx: StacksTx)
    requires NoneSigned(c, events, tip, tx)
    ensures NotSigned(c, events, tip, IdOf(tx))
  {
    hide Respond, Run, IdOf;
    forall i | 0 <= i < |events| ensures !Signs(Run(c, events[..i]), events[i], tip, IdOf(tx)) {
      ConflictIsSameId(tx, events[i].tx);
      assert DoneAt(c, events, i) <==> Respond(Run(c, events[..i]), events[i]).Done?;
    }
  }

  lemma NotSignedPrefix(c: Signed, events: seq<Event>, tip: Tip, id: RequestId)
    requires events != [] && NotSigned(c, events, tip, id)
    ensures NotSigned(c, events[..|events| - 1], tip, id)
    ensures !Signs(Run(c, events[..|events| - 1]), events[|events| - 1], tip, id)
  {
    hide Signs;
    var before := events[..|events| - 1];
    forall i | 0 <= i < |before| ensures !Signs(Run(c, before[..i]), before[i], tip, id) {
      assert before[..i] == events[..i];
    }
  }

  lemma {:induction false} TrackRun(c: Signed, events: seq<Event>, tip: Tip, id: RequestId)
    requires Small(c) && At(c, tip, id, Front) && NotSigned(c, events, tip, id)
    ensures At(Run(c, events), tip, id, Track(c, events, tip))
  {
    hide Uses, Handle, Respond, Signs, NotSigned, At;
    if events != [] {
      var last := |events| - 1;
      var before := events[..last];
      NotSignedPrefix(c, events, tip, id);
      TrackRun(c, before, tip, id);
      RunSmall(c, before);
      if events[last].tip == tip {
        TrackSame(Run(c, before), tip, id, Track(c, before, tip), events[last]);
      } else {
        TrackOther(Run(c, before), tip, id, Track(c, before, tip), events[last]);
      }
    }
  }

  lemma PrefixAt(c: Signed, events: seq<Event>, n: nat, a: nat)
    requires a < n <= |events|
    ensures UsesAt(c, events[..n], a) == UsesAt(c, events, a) && DoneAt(c, events[..n], a) == DoneAt(c, events, a)
    ensures events[..n][a] == events[a]
  {
    assert events[..n][..a] == events[..a];
  }

  /** A tip used after the last event of `tip` shows in the place, until it is gone. */
  lemma {:induction false} TrackUses(c: Signed, events: seq<Event>, tip: Tip, id: RequestId, a: nat)
    requires Small(c) && At(c, tip, id, Front) && NotSigned(c, events, tip, id)
    requires a < |events| && UsesAt(c, events, a) && forall k :: a <= k < |events| ==> events[k].tip != tip
    ensures Track(c, events, tip).Gone? || Track(c, events, tip) == Behind(events[a].tip)
  {
    hide Uses, Handle, Respond, Signs, NotSigned, At;
    var last := |events| - 1;
    var before := events[..last];
    NotSignedPrefix(c, events, tip, id);
    TrackRun(c, before, tip, id);
    RunSmall(c, before);
    TrackOther(Run(c, before), tip, id, Track(c, before, tip), events[last]);
    if a < last {
      PrefixAt(c, events, last, a);
      TrackUses(c, before, tip, id, a);
    }
  }

  lemma {:induction false} GoneStays(c: Signed, events: seq<Event>, tip: Tip, n: nat)
    requires n <= |events| && Track(c, events[..n], tip).Gone?
    ensures Track(c, events, tip).Gone?
  {
    if n == |events| {
      assert events[..n] == events;
    } else {
      assert events[..|events| - 1][..n] == events[..n];
      GoneStays(c, events[..|events| - 1], tip, n);
    }
  }

  lemma {:induction false} DisplacedIsGone(c: Signed, events: seq<Event>, tip: Tip, id: RequestId, a: nat, b: nat)
    requires Small(c) && At(c, tip, id, Front) && NotSigned(c, events, tip, id)
    requires DisplacedBy(c, events, tip, a, b)
    ensures Track(c, events, tip).Gone?
  {
    hide Run, Uses, Handle, Respond, Signs, At;
    var upto, before := events[..b + 1], events[..b];
    assert upto[..b] == before;
    NotSignedUpTo(c, events, tip, id, b);
    PrefixAt(c, events, b, a);
    TrackUses(c, before, tip, id, a);
    PrefixAt(c, events, b + 1, b);
    assert Track(c, upto, tip).Gone?;
    GoneStays(c, events, tip, b + 1);
  }

  lemma NotSignedUpTo(c: Signed, events: seq<Event>, tip: Tip, id: RequestId, n: nat)
    requires n <= |events| && NotSigned(c, events, tip, id)
    ensures NotSigned(c, events[..n], tip, id)
  {
    hide Signs;
    forall i | 0 <= i < n ensures !Signs(Run(c, events[..n][..i]), events[..n][i], tip, id) {
      assert events[..n][..i] == events[..i];
    }
  }

  /** The place tells what happened: who was used since the last event of `tip`, or which two
      events displaced it. */
  lemma {:induction false} TrackTells(c: Signed, events: seq<Event>, tip: Tip)
    ensures Track(c, events, tip).Behind? ==> exists a :: UsedSince(c, events, tip, a, Track(c, events, tip).used)
    ensures Track(c, events, tip).Gone? ==> Displaced(c, events, tip)
  {
    hide Uses, Handle, Respond;
    if events != [] {
      var last := |events| - 1;
      var before := events[..last];
      TrackTells(c, before, tip);
      match Track(c, before, tip)
      case Front =>
        assert Track(c, events, tip).Behind? ==> UsedSince(c, events, tip, last, events[last].tip);
      case Behind(x) =>
        var a :| UsedSince(c, before, tip, a, x);
        PrefixAt(c, events, last, a);
        assert events[last].tip != tip ==> UsedSince(c, events, tip, a, x);
        assert Track(c, events, tip).Gone? ==> DisplacedBy(c, events, tip, a, last);
      case Gone =>
        var a, b :| DisplacedBy(c, before, tip, a, b);
        PrefixAt(c, events, last, a);
        PrefixAt(c, events, last, b);
        assert DisplacedBy(c, events, tip, a, b);
    }
  }

  /** The `a`-th event uses `x`, and nothing is asked for `tip` from then on. */
  ghost predicate UsedSince(c: Signed, events: seq<Event>, tip: Tip, a: nat, x: Tip) {
    a < |events| && UsesAt(c, events, a) && events[a].tip == x && forall k :: a <= k < |events| ==> events[k].tip != tip
  }

  /** Whatever happens in between, as long as the request is not signed again there, a signed
      request is signed a second time exactly when meanwhile one other tip was used and then
      a request of a third was signed, with nothing asked for its own tip between the two. */
  lemma {:induction false} ForgottenExactly(c: Signed, e: Event, between: seq<Event>, again: Event)
    requires Small(c) && Respond(c, e).Done?
    requires NoneSigned(Handle(c, e), between, e.tip, e.tx)
    requires again.tip == e.tip && Conflict(e.tx, again.tx) && again.valid && again.sending.Sent?
    ensures Respond(Run(Handle(c, e), between), again) == Done <==> Displaced(Handle(c, e), between, e.tip)
    ensures Respond(Run(Handle(c, e), between), again) in {Done, AlreadySigned}
  {
    ConflictIsSameId(e.tx, again.tx);
    HandleSmall(c, e);
    var start, tip, id := Handle(c, e), e.tip, IdOf(e.tx);
    NoneSignedById(start, between, tip, e.tx);
    TrackRun(start, between, tip, id);
    TrackTells(start, between, tip);
    if Displaced(start, between, tip) {
      var a, b :| DisplacedBy(start, between, tip, a, b);
      DisplacedIsGone(start, between, tip, id, a, b);
    }
    RunSmall(start, between);
    SmallLookup(Run(start, between), tip);
  }

  /** Requests that are only looked at count too. Take any three valid requests of different
      tips: in this run the second is signed twice, although only one other tip has had a
      request signed in between. */
  lemma {:induction false} AskingIsEnough(first: Event, e: Event, third: Event)
    requires first.valid && first.sending.Sent? && e.valid && e.sending.Sent? && third.valid && third.sending.Sent?
    requires first.tip != e.tip && e.tip != third.tip && third.tip != first.tip
    ensures var events := [first, e, first, third, e];
            && DoneAt([], events, 1) && DoneAt([], events, 4)
            && Respond(Run([], events[..2]), first) == AlreadySigned && DoneAt([], events, 3)
  {
    var events := [first, e, first, third, e];
    var x := Entry(first.tip, {IdOf(first.tx)});
    var y := Entry(e.tip, {IdOf(e.tx)});
    var z := Entry(third.tip, {IdOf(third.tx)});
    hide Handle, Respond, IdOf, Run;
    assert events[..0] == [];
    RunNone([]);
    RunNext([], events, 0);
    SignFresh([], first);
    assert [x] + [] == [x] && Run([], events[..1]) == [x];
    RunNext([], events, 1);
    SignFresh([x], e);
    assert Run([], events[..2]) == [y, x];
    RunNext([], events, 2);
    AskSecond([y, x], first);
    assert Run([], events[..3]) == [x, y];
    RunNext([], events, 3);
    SignFresh([x, y], third);
    assert Run([], events[..4]) == [z, x];
    SignFresh([z, x], e);
  }

  lemma RunNone(c: Signed)
    ensures Run(c, []) == c
  {}

  lemma RunNext(c: Signed, events: seq<Event>, n: nat)
    requires n < |events|
    ensures Run(c, events[..n + 1]) == Handle(Run(c, events[..n]), events[n])
  {
    assert events[..n + 1][..n] == events[..n];
  }

  /** A request of a tip that is not in the cache is signed and pushes out the older entry. */
  lemma SignFresh(c: Signed, e: Event)
    requires Small(c) && (forall i :: 0 <= i < |c| ==> c[i].key != e.tip) && e.valid && e.sending.Sent?
    ensures Respond(c, e) == Done
    ensures Handle(c, e) == [Entry(e.tip, {IdOf(e.tx)})] + if c == [] then [] else [c[0]]
  {
    SmallLookup(c, e.tip);
    HandleSmall(c, e);
    assert {} + {IdOf(e.tx)} == {IdOf(e.tx)};
  }

  /** A signed request of the older tip is refused and makes that tip the newer one. */
  lemma AskSecond(c: Signed, e: Event)
    requires Small(c) && |c| == 2 && c[1].key == e.tip && IdOf(e.tx) in c[1].value
    ensures Respond(c, e) == AlreadySigned && Handle(c, e) == [c[1], c[0]]
  {
    SmallLookup(c, e.tip);
  }
}
