/** The cache of WSTS state machines of a signer (signer/src/transaction_signer.rs). A machine
    holds the nonce of one signing round; what is proved here is that no nonce makes two
    signature shares, and that a sweep machine is asked for one only once. */
module SignerMachines {
  import opened Basics
  import opened Lru

  type Sighash = int

  datatype MachineId = Dkg(tip: int) | BitcoinSign(sighash: Sighash) | DkgVerification(key: int, tip: int)

  /** `serial` tells machines apart that are loaded one after another for the same id, and with
      them their nonces: a machine makes one nonce, when it is installed for a nonce request.
      `armed`: the nonce has not been taken for a share. */
  datatype Machine = Machine(serial: nat, armed: bool)

  /** `decisions`: the stored answers to "will we sign this sighash". */
  datatype State = State(capacity: nat, machines: Cache<MachineId, Machine>, next: nat, decisions: map<Sighash, bool>)

  /** What a signing message belongs to. The message is the data to sign, when it has the
      length of a sighash. */
  datatype Round = DkgRound | Sweep | Verification(key: int, tip: int, valid: bool)

  /** `signs`: the request names this signer and is well formed, so that the machine gets as far
      as taking its nonce. */
  datatype Event =
    | DecisionStored(sighash: Sighash, willSign: bool)
    | NonceRequest(fromCoordinator: bool, round: Round, message: Option<Sighash>, load: bool)
    | ShareRequest(fromCoordinator: bool, round: Round, message: Option<Sighash>, signs: bool)
    | DkgBegin(tip: int)
    | DkgMessage(tip: int, ends: bool)
    | VerificationMessage(key: int, tip: int, ends: bool)

  /** `validate_bitcoin_sign_request` */
  predicate Accepted(st: State, message: Option<Sighash>) {
    message.Some? && message.value in st.decisions && st.decisions[message.value]
  }

  /** Load a fresh machine and put it into the cache, for a nonce request with a nonce. */
  function Install(st: State, id: MachineId): State
    requires st.capacity > 0
  {
    st.(machines := Put(st.machines, st.capacity, id, Machine(st.next, !id.Dkg?)), next := st.next + 1)
  }

  function Use(st: State, id: MachineId): State {
    st.(machines := Touch(st.machines, id))
  }

  /** The machine takes its nonce. */
  function Spend(st: State, id: MachineId): State {
    var m := Lookup(st.machines, id);
    if m.Some? then st.(machines := Modify(st.machines, id, m.value.(armed := false))) else st
  }

  function Remove(st: State, id: MachineId): State {
    st.(machines := Pop(st.machines, id))
  }

  /** The request makes the signer install a machine for this sighash. */
  predicate Installs(st: State, e: Event, s: Sighash) {
    e.NonceRequest? && e.fromCoordinator && e.round.Sweep? && e.message == Some(s) && Accepted(st, e.message) && e.load
  }

  /** The request is processed by a machine: this one. */
  function Processed(st: State, e: Event): Option<Machine> {
    if e.ShareRequest? && e.fromCoordinator && e.round.Sweep? && Accepted(st, e.message)
    then Lookup(st.machines, BitcoinSign(e.message.value)) else None
  }

  /** The machine whose nonce makes a share, of a sweep or of a verification. */
  function Signing(st: State, e: Event): Option<Machine> {
    if !(e.ShareRequest? && e.fromCoordinator && e.signs) || e.round.DkgRound? then None
    else
      var m := if e.round.Sweep? then Processed(st, e)
               else if e.round.valid then Lookup(st.machines, DkgVerification(e.round.key, e.round.tip))
               else None;
      if m.Some? && m.value.armed then m else None
  }

  /** `handle_wsts_message`, as far as it changes the cache. Whether a machine's own processing
      fails makes no difference: the sweep machine is popped either way. */
  function Step(st: State, e: Event): State
    requires st.capacity > 0
  {
    match e
    case DecisionStored(s, will) => st.(decisions := st.decisions[s := will])
    case NonceRequest(coordinator, round, message, load) =>
      if !coordinator || round.DkgRound? || !load then st
      else if round.Sweep? then
        if Accepted(st, message) then Use(Install(st, BitcoinSign(message.value)), BitcoinSign(message.value)) else st
      else if round.valid then
        var id := DkgVerification(round.key, round.tip);
        Use(Install(st, id), id)
      else st
    case ShareRequest(coordinator, round, message, signs) =>
      if !coordinator || round.DkgRound? then st
      else if round.Sweep? then
        if Accepted(st, message) then Remove(Use(st, BitcoinSign(message.value)), BitcoinSign(message.value)) else st
      else if !round.valid then st
      else if signs then Spend(st, DkgVerification(round.key, round.tip))
      else Use(st, DkgVerification(round.key, round.tip))
    case DkgBegin(tip) => Use(Install(st, Dkg(tip)), Dkg(tip))
    case DkgMessage(tip, ends) => if ends then Remove(Use(st, Dkg(tip)), Dkg(tip)) else Use(st, Dkg(tip))
    case VerificationMessage(key, tip, ends) => if ends then Remove(st, DkgVerification(key, tip)) else st
  }

  /** The two handlers that install and spend machines, on the fields they change. */
  class SignerLoop {
    const capacity: nat
    var machines: Cache<MachineId, Machine>
    var next: nat
    var decisions: map<Sighash, bool>

    ghost function View(): State
      reads this
    {
      State(capacity, machines, next, decisions)
    }

    constructor (capacity: nat)
      requires capacity > 0
      ensures View() == State(capacity, [], 0, map[])
    {
      this.capacity := capacity;
      machines, next, decisions := [], 0, map[];
    }

    method ValidateSignRequest(message: Option<Sighash>) returns (ok: bool)
      ensures ok == Accepted(View(), message)
    {
      if message.None? || message.value !in decisions {
        return false;
      }
      ok := decisions[message.value];
    }

    method OnNonceRequest(e: Event) returns (installed: bool)
      requires capacity > 0 && e.NonceRequest?
      modifies this`machines, this`next
      ensures View() == Step(old(View()), e)
      ensures e.round.Sweep? ==> (installed <==> e.message.Some? && Installs(old(View()), e, e.message.value))
    {
      if !e.fromCoordinator || e.round.DkgRound? {
        return false;
      }
      var id;
      if e.round.Sweep? {
        var ok := ValidateSignRequest(e.message);
        if !ok {
          return false;
        }
        id := BitcoinSign(e.message.value);
      } else {
        if !e.round.valid {
          return false;
        }
        id := DkgVerification(e.round.key, e.round.tip);
      }
      if !e.load {
        return false;
      }
      machines := Put(machines, capacity, id, Machine(next, true));
      next := next + 1;
      machines := Touch(machines, id);
      installed := true;
    }

    /** `processed`: the machine that got the request of a sweep; `share`: the machine whose
        nonce made a share. */
    method OnShareRequest(e: Event) returns (processed: Option<Machine>, share: Option<Machine>)
      requires capacity > 0 && e.ShareRequest?
      modifies this`machines
      ensures View() == Step(old(View()), e)
      ensures processed == Processed(old(View()), e) && share == Signing(old(View()), e)
    {
      processed, share := None, None;
      if !e.fromCoordinator || e.round.DkgRound? {
        return;
      }
      var id;
      if e.round.Sweep? {
        var ok := ValidateSignRequest(e.message);
        if !ok {
          return;
        }
        id := BitcoinSign(e.message.value);
      } else {
        if !e.round.valid {
          return;
        }
        id := DkgVerification(e.round.key, e.round.tip);
      }
      var machine := Lookup(machines, id);
      if machine.Some? && e.signs && machine.value.armed {
        share := machine;
      }
      if e.round.Sweep? {
        processed := machine;
        machines := Touch(machines, id);
        machines := Pop(machines, id);
      } else if machine.Some? && e.signs {
        machines := Modify(machines, id, machine.value.(armed := false));
      } else {
        machines := Touch(machines, id);
      }
    }
  }

  // ---------------------------------------------------------------------
  // What every step keeps
  // ---------------------------------------------------------------------

  /** Machines in the cache are loaded ones, no two are the same, and none in it that is a sweep
      machine or still has its nonce is in `used`. */
  ghost predicate Inv(st: State, used: set<nat>) {
    && st.capacity > 0 && Distinct(st.machines) && |st.machines| <= st.capacity
    && (forall n :: n in used ==> n < st.next)
    && (forall id :: Has(st.machines, id) ==>
          Serial(st, id) < st.next && (id.BitcoinSign? || Armed(st, id) ==> Serial(st, id) !in used))
    && (forall a, b :: Has(st.machines, a) && Has(st.machines, b) && Serial(st, a) == Serial(st, b) ==> a == b)
  }

  ghost function Serial(st: State, id: MachineId): nat
    requires Has(st.machines, id)
  {
    Lookup(st.machines, id).value.serial
  }

  ghost predicate Armed(st: State, id: MachineId)
    requires Has(st.machines, id)
  {
    Lookup(st.machines, id).value.armed
  }

  /** `id` has the machine it had before, perhaps without its nonce, or none. */
  ghost predicate Kept(before: State, after: State, id: MachineId) {
    Has(after.machines, id) ==>
      && Has(before.machines, id) && Serial(after, id) == Serial(before, id)
      && (Armed(after, id) ==> Armed(before, id))
  }

  lemma KeptInv(before: State, after: State, used: set<nat>, spent: set<nat>)
    requires Inv(before, used) && forall id :: Kept(before, after, id)
    requires after.capacity == before.capacity && after.next == before.next
    requires Distinct(after.machines) && |after.machines| <= after.capacity
    requires forall n :: n in spent ==> n < before.next
    requires forall id :: Has(after.machines, id) && (id.BitcoinSign? || Armed(after, id)) ==>
               Serial(after, id) !in spent
    ensures Inv(after, used + spent)
  {
    forall id | Has(after.machines, id)
      ensures Serial(after, id) < after.next
      ensures id.BitcoinSign? || Armed(after, id) ==> Serial(after, id) !in used + spent
    {
      assert Kept(before, after, id);
    }
    forall a, b | Has(after.machines, a) && Has(after.machines, b) && Serial(after, a) == Serial(after, b)
      ensures a == b
    {
      assert Kept(before, after, a) && Kept(before, after, b);
    }
  }

  lemma UseInv(st: State, used: set<nat>, id: MachineId)
    requires Inv(st, used)
    ensures Inv(Use(st, id), used) && Lookup(Use(st, id).machines, id) == Lookup(st.machines, id)
    ensures forall x :: Kept(st, Use(st, id), x)
  {
    forall x ensures Kept(st, Use(st, id), x) {
      TouchLookup(st.machines, id, x);
    }
    TouchLookup(st.machines, id, id);
    KeptInv(st, Use(st, id), used, {});
    assert used + {} == used;
  }

  /** A machine other than of a sweep is used up by taking its nonce. */
  lemma SpendInv(st: State, used: set<nat>, id: MachineId)
    requires Inv(st, used) && !id.BitcoinSign?
    ensures Inv(Spend(st, id), used)
    ensures Has(st.machines, id) ==> Inv(Spend(st, id), used + {Serial(st, id)})
    ensures forall x :: Kept(st, Spend(st, id), x)
  {
    var after := Spend(st, id);
    if Has(st.machines, id) {
      var v := Lookup(st.machines, id).value.(armed := false);
      forall x ensures Kept(st, after, x) {
        ModifyLookup(st.machines, id, v, x);
      }
      ModifyLookup(st.machines, id, v, id);
      KeptInv(st, after, used, {});
      assert used + {} == used;
      forall x | Has(after.machines, x) && (x.BitcoinSign? || Armed(after, x))
        ensures Serial(after, x) != Serial(st, id)
      {
        assert Kept(st, after, x);
      }
      KeptInv(st, after, used, {Serial(st, id)});
    }
  }

  lemma RemoveInv(st: State, used: set<nat>, id: MachineId)
    requires Inv(st, used)
    ensures Inv(Remove(st, id), used) && !Has(Remove(st, id).machines, id)
    ensures forall x :: Kept(st, Remove(st, id), x)
    ensures Has(st.machines, id) ==> Inv(Remove(st, id), used + {Serial(st, id)})
  {
    var after := Remove(st, id);
    forall x ensures Kept(st, after, x) {
      PopLookup(st.machines, id, x);
    }
    PopLookup(st.machines, id, id);
    PopDistinct(st.machines, id);
    KeptInv(st, after, used, {});
    assert used + {} == used;
    if Has(st.machines, id) {
      forall x | Has(after.machines, x) ensures Serial(after, x) != Serial(st, id) {
        assert Kept(st, after, x);
      }
      KeptInv(st, after, used, {Serial(st, id)});
    }
  }

  lemma InstallInv(st: State, used: set<nat>, id: MachineId)
    requires Inv(st, used)
    ensures Inv(Install(st, id), used) && Lookup(Install(st, id).machines, id) == Some(Machine(st.next, !id.Dkg?))
    ensures forall x :: x != id ==> Kept(st, Install(st, id), x)
  {
    var after := Install(st, id);
    forall x ensures x != id ==> Kept(st, after, x) {
      PutLookup(st.machines, st.capacity, id, Machine(st.next, !id.Dkg?), x);
    }
    PutLookup(st.machines, st.capacity, id, Machine(st.next, !id.Dkg?), id);
    forall x | Has(after.machines, x)
      ensures Serial(after, x) < after.next && (x.BitcoinSign? || Armed(after, x) ==> Serial(after, x) !in used)
    {
      assert x != id ==> Kept(st, after, x);
    }
    forall a, b | Has(after.machines, a) && Has(after.machines, b) && Serial(after, a) == Serial(after, b)
      ensures a == b
    {
      assert (a != id ==> Kept(st, after, a)) && (b != id ==> Kept(st, after, b));
    }
  }

  /** A machine is used by the request of a sweep that it processes, and by taking its nonce. */
  function UsedBy(st: State, e: Event): set<nat> {
    if Processed(st, e).Some? then {Processed(st, e).value.serial}
    else if Signing(st, e).Some? then {Signing(st, e).value.serial}
    else {}
  }

  lemma NothingUsed(used: set<nat>)
    ensures used + {} == used
  {}

  lemma StepInv(st: State, used: set<nat>, e: Event)
    requires Inv(st, used)
    ensures Inv(Step(st, e), used + UsedBy(st, e))
  {
    assert st.capacity > 0;
    hide Inv;
    NothingUsed(used);
    match e
    case DecisionStored(s, will) =>
      DecisionInv(st, used, s, will);
    case NonceRequest(coordinator, round, message, load) =>
      if coordinator && !round.DkgRound? && load && (round.Sweep? ==> Accepted(st, message)) {
        var id := if round.Sweep? then BitcoinSign(message.value) else DkgVerification(round.key, round.tip);
        InstallInv(st, used, id);
        UseInv(Install(st, id), used, id);
      }
    case ShareRequest(coordinator, round, message, signs) =>
      if coordinator && round.Sweep? && Accepted(st, message) {
        var id := BitcoinSign(message.value);
        UseInv(st, used, id);
        RemoveInv(Use(st, id), used, id);
      } else if round.Verification? {
        UseInv(st, used, DkgVerification(round.key, round.tip));
        SpendInv(st, used, DkgVerification(round.key, round.tip));
      }
    case DkgBegin(tip) =>
      InstallInv(st, used, Dkg(tip));
      UseInv(Install(st, Dkg(tip)), used, Dkg(tip));
    case DkgMessage(tip, ends) =>
      UseInv(st, used, Dkg(tip));
      RemoveInv(Use(st, Dkg(tip)), used, Dkg(tip));
    case VerificationMessage(key, tip, ends) =>
      RemoveInv(st, used, DkgVerification(key, tip));
  }

  lemma DecisionInv(st: State, used: set<nat>, s: Sighash, will: bool)
    requires Inv(st, used)
    ensures Inv(st.(decisions := st.decisions[s := will]), used)
  {}

  // ---------------------------------------------------------------------
  // Runs
  // ---------------------------------------------------------------------

  function Run(capacity: nat, events: seq<Event>): (st: State)
    requires capacity > 0
    ensures st.capacity == capacity
  {
    if events == [] then State(capacity, [], 0, map[])
    else Step(Run(capacity, events[..|events| - 1]), events[|events| - 1])
  }

  /** The machine that processes the `i`-th event, when that is a request for a share of
      a sweep. */
  function ProcessedAt(capacity: nat, events: seq<Event>, i: nat): Option<Machine>
    requires capacity > 0 && i < |events|
  {
    Processed(Run(capacity, events[..i]), events[i])
  }

  predicate InstallsAt(capacity: nat, events: seq<Event>, i: nat, s: Sighash)
    requires capacity > 0 && i < |events|
  {
    Installs(Run(capacity, events[..i]), events[i], s)
  }

  /** The `i`-th event is a request for a share of this sighash that a machine processes. */
  predicate SpendsAt(capacity: nat, events: seq<Event>, i: nat, s: Sighash)
    requires capacity > 0 && i < |events|
  {
    ProcessedAt(capacity, events, i).Some? && events[i].message == Some(s)
  }

  lemma PrefixAt(capacity: nat, events: seq<Event>, n: nat, m: nat, s: Sighash)
    requires capacity > 0 && m < n <= |events|
    ensures SpendsAt(capacity, events[..n], m, s) == SpendsAt(capacity, events, m, s)
    ensures InstallsAt(capacity, events[..n], m, s) == InstallsAt(capacity, events, m, s)
    ensures events[..n][..m] == events[..m]
  {
    assert events[..n][..m] == events[..m];
  }

  /** The machines that have processed a request for a share. */
  function Used(capacity: nat, events: seq<Event>): set<nat>
    requires capacity > 0
  {
    if events == [] then {}
    else
      var before := events[..|events| - 1];
      Used(capacity, before) + UsedBy(Run(capacity, before), events[|events| - 1])
  }

  lemma {:induction false} RunInv(capacity: nat, events: seq<Event>)
    requires capacity > 0
    ensures Inv(Run(capacity, events), Used(capacity, events))
  {
    if events != [] {
      var before := events[..|events| - 1];
      RunInv(capacity, before);
      StepInv(Run(capacity, before), Used(capacity, before), events[|events| - 1]);
    }
  }

  lemma {:induction false} UsedContains(capacity: nat, events: seq<Event>, i: nat)
    requires capacity > 0 && i < |events|
    ensures UsedBy(Run(capacity, events[..i]), events[i]) <= Used(capacity, events)
  {
    var before := events[..|events| - 1];
    if i < |before| {
      assert before[..i] == events[..i];
      UsedContains(capacity, before, i);
    }
  }

  /** The machine whose nonce makes a share with the `i`-th event. */
  function SigningAt(capacity: nat, events: seq<Event>, i: nat): Option<Machine>
    requires capacity > 0 && i < |events|
  {
    Signing(Run(capacity, events[..i]), events[i])
  }

  /** No nonce makes two shares, in sweeps and verifications alike, although machines of
      verifications stay in the cache after a share request. */
  lemma NoNonceTwice(capacity: nat, events: seq<Event>, i: nat, j: nat)
    requires capacity > 0 && i < j < |events|
    requires SigningAt(capacity, events, i).Some? && SigningAt(capacity, events, j).Some?
    ensures SigningAt(capacity, events, i).value.serial != SigningAt(capacity, events, j).value.serial
  {
    var before := events[..j];
    assert before[..i] == events[..i];
    UsedContains(capacity, before, i);
    RunInv(capacity, before);
    var st, e := Run(capacity, before), events[j];
    var id := if e.round.Sweep? then BitcoinSign(e.message.value) else DkgVerification(e.round.key, e.round.tip);
    assert Has(st.machines, id) && Armed(st, id);
  }

  /** No machine processes two requests for a share of a sweep. */
  lemma OneSharePerMachine(capacity: nat, events: seq<Event>, i: nat, j: nat)
    requires capacity > 0 && i < j < |events|
    requires ProcessedAt(capacity, events, i).Some? && ProcessedAt(capacity, events, j).Some?
    ensures ProcessedAt(capacity, events, i).value.serial != ProcessedAt(capacity, events, j).value.serial
  {
    var before := events[..j];
    assert before[..i] == events[..i];
    UsedContains(capacity, before, i);
    RunInv(capacity, before);
    var id := BitcoinSign(events[j].message.value);
    assert Has(Run(capacity, before).machines, id);
    assert Serial(Run(capacity, before), id) !in Used(capacity, before);
  }

  lemma StepOrigin(st: State, used: set<nat>, e: Event, s: Sighash)
    requires Inv(st, used) && Has(Step(st, e).machines, BitcoinSign(s))
    ensures Installs(st, e, s) ==> Serial(Step(st, e), BitcoinSign(s)) == st.next
    ensures !Installs(st, e, s) ==>
              Kept(st, Step(st, e), BitcoinSign(s)) && !(Processed(st, e).Some? && e.message == Some(s))
  {
    assert st.capacity > 0;
    hide Inv;
    var id := BitcoinSign(s);
    match e
    case DecisionStored(_, _) =>
    case NonceRequest(coordinator, round, message, load) =>
      if coordinator && !round.DkgRound? && load && (round.Sweep? ==> Accepted(st, message)) {
        var new_ := if round.Sweep? then BitcoinSign(message.value) else DkgVerification(round.key, round.tip);
        InstallInv(st, used, new_);
        UseInv(Install(st, new_), used, new_);
        assert Kept(Install(st, new_), Use(Install(st, new_), new_), id);
        assert id != new_ ==> Kept(st, Install(st, new_), id);
      }
    case ShareRequest(coordinator, round, message, signs) =>
      if coordinator && round.Sweep? && Accepted(st, message) {
        var done := BitcoinSign(message.value);
        UseInv(st, used, done);
        RemoveInv(Use(st, done), used, done);
        assert Kept(st, Use(st, done), id) && Kept(Use(st, done), Remove(Use(st, done), done), id);
      } else if round.Verification? {
        var other := DkgVerification(round.key, round.tip);
        UseInv(st, used, other);
        SpendInv(st, used, other);
        assert Kept(st, Use(st, other), id) && Kept(st, Spend(st, other), id);
      }
    case DkgBegin(tip) =>
      InstallInv(st, used, Dkg(tip));
      UseInv(Install(st, Dkg(tip)), used, Dkg(tip));
      assert Kept(st, Install(st, Dkg(tip)), id);
      assert Kept(Install(st, Dkg(tip)), Use(Install(st, Dkg(tip)), Dkg(tip)), id);
    case DkgMessage(tip, ends) =>
      UseInv(st, used, Dkg(tip));
      RemoveInv(Use(st, Dkg(tip)), used, Dkg(tip));
      assert Kept(st, Use(st, Dkg(tip)), id) && Kept(Use(st, Dkg(tip)), Remove(Use(st, Dkg(tip)), Dkg(tip)), id);
    case VerificationMessage(key, tip, ends) =>
      var other := DkgVerification(key, tip);
      RemoveInv(st, used, other);
      assert Kept(st, Remove(st, other), id);
  }

  /** A sweep machine in the cache was installed by an accepted nonce request for its sighash,
      and no share was asked from it since. */
  lemma {:induction false} Origin(capacity: nat, events: seq<Event>, s: Sighash) returns (k: nat)
    requires capacity > 0 && Has(Run(capacity, events).machines, BitcoinSign(s))
    ensures k < |events| && InstallsAt(capacity, events, k, s)
    ensures Serial(Run(capacity, events), BitcoinSign(s)) == Run(capacity, events[..k]).next
    ensures forall m :: k < m < |events| ==> !SpendsAt(capacity, events, m, s)
  {
    var last := |events| - 1;
    var before := events[..last];
    var st := Run(capacity, before);
    RunInv(capacity, before);
    StepOrigin(st, Used(capacity, before), events[last], s);
    if Installs(st, events[last], s) {
      k := last;
    } else {
      KeptHas(st, Run(capacity, events), BitcoinSign(s));
      assert !SpendsAt(capacity, events, last, s);
      hide Run, SpendsAt, InstallsAt, Has, Serial;
      k := Origin(capacity, before, s);
      PrefixAt(capacity, events, last, k, s);
      forall m | k < m < |events| ensures !SpendsAt(capacity, events, m, s) {
        if m < last {
          PrefixAt(capacity, events, last, m, s);
        }
      }
    }
  }

  lemma KeptHas(before: State, after: State, id: MachineId)
    requires Kept(before, after, id) && Has(after.machines, id)
    ensures Has(before.machines, id) && Serial(after, id) == Serial(before, id)
  {}

  /** Between two requests for a share that sweep machines of one sighash process there is an
      accepted nonce request that installed the machine of the second; and whenever a share
      is processed, the stored decision was to sign, then and when the machine was installed. */
  lemma {:induction false} FreshMachineBetween(capacity: nat, events: seq<Event>, i: nat, j: nat) returns (k: nat)
    requires capacity > 0 && i < j < |events|
    requires ProcessedAt(capacity, events, i).Some? && ProcessedAt(capacity, events, j).Some?
    requires events[i].message == events[j].message
    ensures var s := events[j].message.value;
            && i < k < j && InstallsAt(capacity, events, k, s)
            && ProcessedAt(capacity, events, j).value.serial == Run(capacity, events[..k]).next
            && (forall m :: k < m < j ==> !SpendsAt(capacity, events, m, s))
            && Run(capacity, events[..k]).decisions[s] && Run(capacity, events[..j]).decisions[s]
  {
    var before, s := events[..j], events[j].message.value;
    k := Origin(capacity, before, s);
    PrefixAt(capacity, events, j, k, s);
    PrefixAt(capacity, events, j, i, s);
    forall m | k < m < j ensures !SpendsAt(capacity, events, m, s) {
      PrefixAt(capacity, events, j, m, s);
    }
    assert SpendsAt(capacity, events, i, s);
  }

  // ---------------------------------------------------------------------
  // What is refused, and what is not
  // ---------------------------------------------------------------------

  /** A signing message is heard: it is from the coordinator, and for a sweep with a stored decision
      to sign it, or for a verification that is due. */
  predicate Heard(decisions: map<Sighash, bool>, fromCoordinator: bool, round: Round, message: Option<Sighash>) {
    && fromCoordinator
    && match round
       case DkgRound => false
       case Sweep => message.Some? && message.value in decisions && decisions[message.value]
       case Verification(_, _, valid) => valid
  }

  /** What is not heard changes nothing and makes no share; nor does a nonce request whose machine
      cannot be loaded. */
  lemma UnheardIgnored(st: State, e: Event)
    requires st.capacity > 0 && (e.NonceRequest? || e.ShareRequest?)
    requires !Heard(st.decisions, e.fromCoordinator, e.round, e.message) || (e.NonceRequest? && !e.load)
    ensures Step(st, e) == st && Processed(st, e) == None && Signing(st, e) == None
  {}

  /** The machine a signing message is for. */
  function Target(round: Round, message: Option<Sighash>): Option<MachineId> {
    match round
    case DkgRound => None
    case Sweep => if message.Some? then Some(BitcoinSign(message.value)) else None
    case Verification(key, tip, _) => Some(DkgVerification(key, tip))
  }

  /** The machine that an event loads, if it loads one. */
  function Loads(decisions: map<Sighash, bool>, e: Event): Option<MachineId> {
    if e.DkgBegin? then Some(Dkg(e.tip))
    else if e.NonceRequest? && e.load && Heard(decisions, e.fromCoordinator, e.round, e.message)
    then Target(e.round, e.message)
    else None
  }

  /** What a step does to the machine of any id. A loaded machine is fresh and has a nonce unless it
      is for key generation; loading into a full cache drops the least recently used machine; a
      heard share request takes the machine of a sweep away, and its nonce from that of a
      verification; a round that ends takes its machine away; any other machine stays. */
  lemma StepExactly(st: State, used: set<nat>, e: Event, x: MachineId)
    requires Inv(st, used)
    ensures var now := Lookup(st.machines, x);
            var loads := Loads(st.decisions, e);
            var asked := e.ShareRequest? && Heard(st.decisions, e.fromCoordinator, e.round, e.message)
                         && Target(e.round, e.message) == Some(x);
            Lookup(Step(st, e).machines, x) ==
              if loads == Some(x) then Some(Machine(st.next, !x.Dkg?))
              else if loads.Some? && |st.machines| == st.capacity && !Has(st.machines, loads.value)
                      && x == st.machines[|st.machines| - 1].key then None
              else if asked && x.BitcoinSign? then None
              else if asked && e.signs && now.Some? then Some(now.value.(armed := false))
              else if e.DkgMessage? && e.ends && x == Dkg(e.tip) then None
              else if e.VerificationMessage? && e.ends && x == DkgVerification(e.key, e.tip) then None
              else now
  {
    match e
    case DecisionStored(_, _) =>
    case NonceRequest(_, round, message, _) => LoadsExactly(st, Loads(st.decisions, e), used, x);
    case ShareRequest(_, round, message, _) =>
      if Target(round, message).Some? {
        var id := Target(round, message).value;
        TouchLookup(st.machines, id, x);
        PopLookup(Touch(st.machines, id), id, x);
        if Has(st.machines, id) {
          ModifyLookup(st.machines, id, Lookup(st.machines, id).value.(armed := false), x);
        }
      }
    case DkgBegin(tip) => LoadsExactly(st, Some(Dkg(tip)), used, x);
    case DkgMessage(tip, _) =>
      TouchLookup(st.machines, Dkg(tip), x);
      PopLookup(Touch(st.machines, Dkg(tip)), Dkg(tip), x);
    case VerificationMessage(key, tip, _) =>
      PopLookup(st.machines, DkgVerification(key, tip), x);
  }

  lemma LoadsExactly(st: State, id: Option<MachineId>, used: set<nat>, x: MachineId)
    requires Inv(st, used)
    ensures id.Some? ==>
              Lookup(Use(Install(st, id.value), id.value).machines, x) ==
              if x == id.value then Some(Machine(st.next, !x.Dkg?))
              else if |st.machines| == st.capacity && !Has(st.machines, id.value)
                      && x == st.machines[|st.machines| - 1].key then None
              else Lookup(st.machines, x)
  {
    if id.Some? {
      PutExactly(st.machines, st.capacity, id.value, Machine(st.next, !id.value.Dkg?), x);
      InstallInv(st, used, id.value);
      TouchLookup(Install(st, id.value).machines, id.value, x);
    }
  }

  /** Events that load no machine, ask no share from `id` and do not end its round. */
  predicate LeavesAlone(e: Event, id: MachineId) {
    && !e.NonceRequest? && !e.DkgBegin?
    && !(e.ShareRequest? && Target(e.round, e.message) == Some(id))
    && !(e.DkgMessage? && e.ends && id == Dkg(e.tip))
    && !(e.VerificationMessage? && e.ends && id == DkgVerification(e.key, e.tip))
  }

  lemma {:induction false} MachineStays(capacity: nat, events: seq<Event>, k: nat, id: MachineId)
    requires capacity > 0 && k <= |events| && forall m :: k <= m < |events| ==> LeavesAlone(events[m], id)
    ensures Lookup(Run(capacity, events).machines, id) == Lookup(Run(capacity, events[..k]).machines, id)
  {
    if k == |events| {
      assert events[..k] == events;
    } else {
      var before := events[..|events| - 1];
      assert before[..k] == events[..k];
      MachineStays(capacity, before, k, id);
      RunInv(capacity, before);
      StepExactly(Run(capacity, before), Used(capacity, before), events[|events| - 1], id);
    }
  }

  /** After a heard nonce request, for a sweep or a verification, as long as no machine is loaded, no
      share is asked from its machine and its round does not end, a heard share request gets its
      share, from the nonce made then. */
  lemma {:induction false} NonceThenShare(capacity: nat, events: seq<Event>, k: nat, id: MachineId)
    requires capacity > 0 && k < |events| - 1
    requires var e, d := events[k], Run(capacity, events[..k]).decisions;
             && e.NonceRequest? && e.load && Target(e.round, e.message) == Some(id)
             && Heard(d, e.fromCoordinator, e.round, e.message)
    requires forall m :: k < m < |events| - 1 ==> LeavesAlone(events[m], id)
    requires var e, d := events[|events| - 1], Run(capacity, events[..|events| - 1]).decisions;
             && e.ShareRequest? && e.signs && Target(e.round, e.message) == Some(id)
             && Heard(d, e.fromCoordinator, e.round, e.message)
    ensures SigningAt(capacity, events, |events| - 1) == Some(Machine(Run(capacity, events[..k]).next, true))
  {
    hide Step, LeavesAlone;
    var before := events[..|events| - 1];
    assert before[..k + 1][..k] == events[..k];
    RunInv(capacity, events[..k]);
    StepExactly(Run(capacity, events[..k]), Used(capacity, events[..k]), events[k], id);
    assert Run(capacity, before[..k + 1]) == Step(Run(capacity, events[..k]), events[k]);
    MachineStays(capacity, before, k + 1, id);
  }
}
