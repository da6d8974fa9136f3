/** The life of stored DKG shares across the signer, the block observer and the
    coordinator's rules (signer/src/transaction_signer.rs, signer/src/block_observer.rs,
    signer/src/transaction_coordinator.rs, signer/src/storage/postgres). Each handler is
    one atomic step on the state the three share. */
module DkgLifecycle {
  import opened Basics

  datatype BlockRef = BlockRef(hash: int, height: u64)

  /** A compressed public key: x-coordinate and parity byte. */
  datatype Key = Key(xOnly: int, odd: bool)

  datatype Status = Unverified | Verified | Failed

  datatype SignerSet = SignerSet(signers: set<int>, required: u16)

  datatype Shares = Shares(key: Key, status: Status, startedAt: BlockRef, set_: SignerSet)

  datatype Config = Config(set_: SignerSet, window: u16, minHeight: Option<u64>)

  /** `rows` is the share table in order of creation; `machines` the tips that have a DKG
      state machine in the cache. */
  datatype State = State(tip: Option<BlockRef>, rows: seq<Shares>, machines: set<BlockRef>, registry: Option<SignerSet>)

  // ---------------------------------------------------------------------
  // Queries and updates of the share table
  // ---------------------------------------------------------------------

  function Latest(rows: seq<Shares>): (r: Option<Shares>)
    ensures r.None? <==> rows == []
    ensures r.Some? ==> r.value == rows[|rows| - 1]
  {
    if rows == [] then None else Some(rows[|rows| - 1])
  }

  function LatestNonFailed(rows: seq<Shares>): (r: Option<Shares>)
    ensures r.None? <==> forall i :: 0 <= i < |rows| ==> rows[i].status == Failed
    ensures r.Some? ==> exists i :: 0 <= i < |rows| && rows[i] == r.value && r.value.status != Failed
                          && forall j :: i < j < |rows| ==> rows[j].status == Failed
  {
    if rows == [] then None
    else if rows[|rows| - 1].status != Failed then Some(rows[|rows| - 1])
    else LatestNonFailed(rows[..|rows| - 1])
  }

  /** Inserting a key that is already there changes nothing. */
  function Insert(rows: seq<Shares>, row: Shares): seq<Shares> {
    if exists i :: 0 <= i < |rows| && rows[i].key == row.key then rows else rows + [row]
  }

  /** Both status updates touch pending rows only, and select by x-coordinate. */
  function Settle(rows: seq<Shares>, xOnly: int, status: Status): (r: seq<Shares>)
    ensures |r| == |rows|
    ensures forall i :: 0 <= i < |rows| ==>
              r[i] == if rows[i].key.xOnly == xOnly && rows[i].status == Unverified
                      then rows[i].(status := status) else rows[i]
  {
    seq(|rows|, i requires 0 <= i < |rows| =>
      if rows[i].key.xOnly == xOnly && rows[i].status == Unverified then rows[i].(status := status) else rows[i])
  }

  // ---------------------------------------------------------------------
  // Decisions
  // ---------------------------------------------------------------------

  function MaxVerificationHeight(config: Config, row: Shares): u64 {
    SaturatingAdd(row.startedAt.height, config.window)
  }

  /** `should_run_dkg` */
  predicate ShouldRunDkg(config: Config, st: State, tip: BlockRef) {
    match LatestNonFailed(st.rows)
    case None => true
    case Some(latest) =>
      if latest.status == Unverified then false
      else if st.registry.Some? && st.registry.value != config.set_ && latest.set_ != config.set_ then true
      else config.minHeight.Some? && latest.startedAt.height < config.minHeight.value <= tip.height
  }

  /** `validate_dkg_verification_message`, as far as the share table decides it. */
  predicate MayVerify(config: Config, st: State, xOnly: int) {
    match (st.tip, Latest(st.rows))
    case (Some(tip), Some(latest)) =>
      latest.key.xOnly == xOnly && latest.status != Failed && tip.height <= MaxVerificationHeight(config, latest)
    case _ => false
  }

  /** `assert_rotate_key_action`: (needs verification, needs key rotation). */
  function RotateKeyAction(config: Config, last: Shares, current: Option<Key>, tip: BlockRef): Option<(bool, bool)> {
    var rotate := Some(last.key) != current;
    var past := tip.height > MaxVerificationHeight(config, last);
    match last.status
    case Unverified => Some((!past, rotate && !past))
    case Verified => Some((rotate && !past, rotate))
    case Failed => None
  }

  // ---------------------------------------------------------------------
  // Steps
  // ---------------------------------------------------------------------

  /** How far one iteration of the observer's loop gets. */
  datatype Progress = CheckFails | UpdateFails | Completes

  datatype Event =
    | BlockObserved(block: BlockRef, stored: bool, info: Option<SignerSet>, progress: Progress)
    | DkgBegin(fromCoordinator: bool, machineBuilt: bool)
    | DkgEndSuccess(key: Key)
    | VerificationEnds(xOnly: int, signatureValid: bool)
    | Evicted(tip: BlockRef)
    | Restarted

  /** `check_pending_dkg_shares`: fail the latest shares once their window is over. */
  function CheckPending(config: Config, rows: seq<Shares>, block: BlockRef): seq<Shares> {
    match Latest(rows)
    case Some(last) =>
      if last.status == Unverified && MaxVerificationHeight(config, last) < block.height
      then Settle(rows, last.key.xOnly, Failed) else rows
    case None => rows
  }

  function Step(config: Config, st: State, e: Event): State {
    match e
    case BlockObserved(block, stored, info, progress) =>
      var pending := Latest(st.rows).Some? && Latest(st.rows).value.status == Unverified;
      if progress.CheckFails? || (pending && !stored) then st
      else
        var st' := st.(rows := CheckPending(config, st.rows, block));
        var st'' := if info.Some? then st'.(registry := info) else st';
        if progress.UpdateFails? || !stored then st'' else st''.(tip := Some(block))
    case DkgBegin(fromCoordinator, machineBuilt) =>
      if st.tip.Some? && fromCoordinator && ShouldRunDkg(config, st, st.tip.value) && machineBuilt
      then st.(machines := st.machines + {st.tip.value}) else st
    case DkgEndSuccess(key) =>
      if st.tip.Some? && st.tip.value in st.machines
      then st.(rows := Insert(st.rows, Shares(key, Unverified, st.tip.value, config.set_)),
               machines := st.machines - {st.tip.value})
      else st
    case VerificationEnds(xOnly, valid) =>
      if MayVerify(config, st, xOnly)
      then st.(rows := Settle(st.rows, xOnly, if valid then Verified else Failed)) else st
    case Evicted(tip) => st.(machines := st.machines - {tip})
    case Restarted => State(None, st.rows, {}, None)
  }

  /** The handlers, on the fields they change. */
  class Signer {
    const config: Config
    var tip: Option<BlockRef>
    var rows: seq<Shares>
    var machines: set<BlockRef>
    var registry: Option<SignerSet>

    ghost function View(): State
      reads this
    {
      State(tip, rows, machines, registry)
    }

    constructor (config: Config)
      ensures this.config == config && View() == State(None, [], {}, None)
    {
      this.config := config;
      tip, rows, machines, registry := None, [], {}, None;
    }

    /** The process starts again: the table is what is left. */
    method OnRestart()
      modifies this`tip, this`machines, this`registry
      ensures View() == Step(config, old(View()), Restarted)
    {
      tip, machines, registry := None, {}, None;
    }

    method CheckPendingDkgShares(block: BlockRef, stored: bool) returns (ok: bool)
      modifies this`rows
      ensures ok <==> !(old(Latest(rows)).Some? && old(Latest(rows)).value.status == Unverified && !stored)
      ensures rows == if ok then CheckPending(config, old(rows), block) else old(rows)
    {
      var last := Latest(rows);
      if last.None? || last.value.status != Unverified {
        return true;
      }
      if !stored {
        return false;
      }
      var maxHeight := SaturatingAdd(last.value.startedAt.height, config.window);
      if maxHeight < block.height {
        rows := Settle(rows, last.value.key.xOnly, Failed);
      }
      ok := true;
    }

    /** One iteration of the block observer's loop. */
    method OnBlock(block: BlockRef, stored: bool, info: Option<SignerSet>, progress: Progress)
      modifies this`rows, this`registry, this`tip
      ensures View() == Step(config, old(View()), BlockObserved(block, stored, info, progress))
    {
      if progress.CheckFails? {
        return;
      }
      var ok := CheckPendingDkgShares(block, stored);
      if !ok {
        return;
      }
      if info.Some? {
        registry := info;
      }
      if progress.UpdateFails? || !stored {
        return;
      }
      tip := Some(block);
    }

    method OnDkgBegin(fromCoordinator: bool, machineBuilt: bool) returns (started: bool)
      modifies this`machines
      ensures View() == Step(config, old(View()), DkgBegin(fromCoordinator, machineBuilt))
      ensures started ==> tip.Some? && tip.value in machines && ShouldRunDkg(config, old(View()), tip.value)
    {
      started := false;
      if tip.None? || !fromCoordinator {
        return;
      }
      if !ShouldRunDkg(config, State(tip, rows, machines, registry), tip.value) {
        return;
      }
      if machineBuilt {
        machines := machines + {tip.value};
        started := true;
      }
    }

    method OnDkgEndSuccess(key: Key) returns (ok: bool)
      modifies this`rows, this`machines
      ensures View() == Step(config, old(View()), DkgEndSuccess(key))
      ensures ok <==> old(tip.Some? && tip.value in machines)
    {
      if tip.None? || tip.value !in machines {
        return false;
      }
      rows := Insert(rows, Shares(key, Unverified, tip.value, config.set_));
      machines := machines - {tip.value};
      ok := true;
    }

    method OnVerificationEnds(xOnly: int, signatureValid: bool) returns (ok: bool)
      modifies this`rows
      ensures View() == Step(config, old(View()), VerificationEnds(xOnly, signatureValid))
      ensures ok <==> MayVerify(config, old(View()), xOnly)
    {
      if !MayVerify(config, State(tip, rows, machines, registry), xOnly) {
        return false;
      }
      rows := Settle(rows, xOnly, if signatureValid then Verified else Failed);
      ok := true;
    }
  }

  // ---------------------------------------------------------------------
  // Runs
  // ---------------------------------------------------------------------

  function Tips(st: State): set<BlockRef> {
    if st.tip.Some? then {st.tip.value} else {}
  }

  /** The state after all events. */
  function Run(config: Config, st: State, events: seq<Event>): State {
    if events == [] then st else Step(config, Run(config, st, events[..|events| - 1]), events[|events| - 1])
  }

  /** All tips since the start of the run or the last restart. */
  function Visited(config: Config, st: State, events: seq<Event>): set<BlockRef> {
    if events == [] then Tips(st)
    else if events[|events| - 1].Restarted? then {}
    else Visited(config, st, events[..|events| - 1]) + Tips(Run(config, st, events))
  }

  /** A tip once left does not return before a restart: every event leaves the tip alone,
      forgets it, or moves it to a tip not had since. */
  ghost predicate NoReturn(config: Config, st: State, events: seq<Event>) {
    events != [] ==>
    var before := events[..|events| - 1];
    && NoReturn(config, st, before)
    && var now, then_ := Run(config, st, before), Run(config, st, events);
       Moves(now, then_, Visited(config, st, before))
  }

  /** A state to start from: no round under way, and of the shares in the table only the
      latest may be pending, within its window when there is a tip. */
  ghost predicate Initial(config: Config, st: State) {
    st.machines == {} && OnlyLastPending(st.rows) && (LatestPending(st) && st.tip.Some? ==> WithinWindow(config, st))
  }

  ghost predicate LatestPending(st: State) {
    st.rows != [] && st.rows[|st.rows| - 1].status == Unverified
  }

  ghost predicate WithinWindow(config: Config, st: State)
    requires st.rows != [] && st.tip.Some?
  {
    st.tip.value.height <= MaxVerificationHeight(config, st.rows[|st.rows| - 1])
  }

  /** Only the last row may be pending; while it is, a tip is within its window and has no
      round under way. */
  ghost predicate Sound(config: Config, st: State, visited: set<BlockRef>) {
    && OnlyLastPending(st.rows)
    && (LatestPending(st) && st.tip.Some? ==> st.tip.value !in st.machines && WithinWindow(config, st))
    && st.machines <= visited && Tips(st) <= visited
  }

  /** The step goes to no tip of `visited` but the one it is at. */
  ghost predicate Moves(st: State, then_: State, visited: set<BlockRef>) {
    st.tip == then_.tip || then_.tip.None? || then_.tip.value !in visited
  }

  lemma StepSound(config: Config, st: State, visited: set<BlockRef>, e: Event)
    requires Sound(config, st, visited) && Moves(st, Step(config, st, e), visited)
    ensures Sound(config, Step(config, st, e), if e.Restarted? then {} else visited + Tips(Step(config, st, e)))
  {
    if e.DkgBegin? && Step(config, st, e) != st {
      assert ShouldRunDkg(config, st, st.tip.value);
    }
  }

  /** Every reachable state of a run without returning tips is sound. */
  lemma {:induction false} RunSound(config: Config, st: State, events: seq<Event>)
    requires Initial(config, st) && NoReturn(config, st, events)
    ensures Sound(config, Run(config, st, events), Visited(config, st, events))
  {
    if events != [] {
      var before := events[..|events| - 1];
      RunSound(config, st, before);
      StepSound(config, Run(config, st, before), Visited(config, st, before), events[|events| - 1]);
    }
  }

  /** The rule "skip DKG while the latest shares are unverified" never holds a tip beyond
      the verification window: past it, what blocks DKG is verified shares. */
  lemma {:induction false} UnverifiedNeverBlocksPastWindow(config: Config, st: State, events: seq<Event>, i: nat)
    requires Initial(config, st) && NoReturn(config, st, events)
    requires i < |Run(config, st, events).rows| && Run(config, st, events).rows[i].status == Unverified
    ensures var now := Run(config, st, events);
            && i == |now.rows| - 1
            && (now.tip.Some? ==>
                  && now.tip.value.height <= MaxVerificationHeight(config, now.rows[i])
                  && MayVerify(config, now, now.rows[i].key.xOnly)
                  && !ShouldRunDkg(config, now, now.tip.value)
                  && RotateKeyAction(config, now.rows[i], None, now.tip.value) == Some((true, true)))
  {
    RunSound(config, st, events);
  }

  /** The coordinator asks for a verification only where the signers at its tip take part: for
      pending shares exactly there, for verified ones exactly there while their key is not in place.
      It never rotates to pending shares without verifying them, to failed ones, or to the key in
      place, and to verified shares whatever the height. */
  lemma VerificationAgreed(config: Config, st: State, last: Shares, current: Option<Key>, tip: BlockRef)
    requires st.tip == Some(tip) && Latest(st.rows) == Some(last)
    ensures RotateKeyAction(config, last, current, tip).None? <==> last.status == Failed
    ensures MayVerify(config, st, last.key.xOnly) <==>
            last.status != Failed && tip.height as int <= last.startedAt.height as int + config.window as int
    ensures last.status != Failed ==>
              var (verify, rotate) := RotateKeyAction(config, last, current, tip).value;
              && (verify <==> MayVerify(config, st, last.key.xOnly)
                              && (last.status == Verified ==> current != Some(last.key)))
              && (rotate <==> current != Some(last.key) && (last.status == Unverified ==> verify))
  {}

  ghost predicate OnlyLastPending(rows: seq<Shares>) {
    forall i :: 0 <= i < |rows| - 1 ==> rows[i].status != Unverified
  }

  /** A round of the current tip ends with a new key while the latest shares are pending. */
  ghost predicate OverlapsPending(st: State, e: Event) {
    && e.DkgEndSuccess? && st.tip.Some? && st.tip.value in st.machines
    && LatestPending(st)
    && forall i :: 0 <= i < |st.rows| ==> st.rows[i].key != e.key
  }

  /** This is the one step by which shares other than the latest become pending, in any run. */
  lemma OnlyLastPendingExactly(config: Config, st: State, e: Event)
    requires OnlyLastPending(st.rows)
    ensures OnlyLastPending(Step(config, st, e).rows) <==> !OverlapsPending(st, e)
  {
    if OverlapsPending(st, e) {
      assert Step(config, st, e).rows == st.rows + [Shares(e.key, Unverified, st.tip.value, config.set_)];
      assert Step(config, st, e).rows[|st.rows| - 1].status == Unverified;
    }
  }

  /** If tips may return, a round left behind can be finished later and two share sets
      are pending at once. */
  lemma ReturningTipBreaksSoundness()
    ensures exists config, events ::
              var now := Run(config, State(None, [], {}, None), events);
              |now.rows| == 2 && now.rows[0].status == Unverified && now.rows[1].status == Unverified
  {
    hide Step, Run;
    var a, b := BlockRef(1, 10), BlockRef(2, 10);
    var config := Config(SignerSet({1}, 1), 5, None);
    var st0 := State(None, [], {}, None);
    var seeA, seeB := BlockObserved(a, true, None, Completes), BlockObserved(b, true, None, Completes);
    var begin, end1, end2 := DkgBegin(true, true), DkgEndSuccess(Key(1, false)), DkgEndSuccess(Key(2, false));
    var row1 := Shares(Key(1, false), Unverified, b, config.set_);
    var row2 := Shares(Key(2, false), Unverified, a, config.set_);
    BeginsAndLeaves(config, a, b);
    EndsBoth(config, a, b, row1, row2);
    RunSnoc(config, st0, [], seeA);
    var e1 := [] + [seeA];
    RunSnoc(config, st0, e1, begin);
    var e2 := e1 + [begin];
    RunSnoc(config, st0, e2, seeB);
    var e3 := e2 + [seeB];
    RunSnoc(config, st0, e3, begin);
    var e4 := e3 + [begin];
    RunSnoc(config, st0, e4, end1);
    var e5 := e4 + [end1];
    RunSnoc(config, st0, e5, seeA);
    var e6 := e5 + [seeA];
    RunSnoc(config, st0, e6, end2);
    assert Run(config, st0, e6 + [end2]) == State(Some(a), [row1, row2], {}, None);
  }

  /** With no shares stored, a round begins at either tip. */
  lemma BeginsAndLeaves(config: Config, a: BlockRef, b: BlockRef)
    requires a != b
    ensures var see := (t: BlockRef) => BlockObserved(t, true, None, Completes);
            && Step(config, State(None, [], {}, None), see(a)) == State(Some(a), [], {}, None)
            && Step(config, State(Some(a), [], {}, None), DkgBegin(true, true)) == State(Some(a), [], {a}, None)
            && Step(config, State(Some(a), [], {a}, None), see(b)) == State(Some(b), [], {a}, None)
            && Step(config, State(Some(b), [], {a}, None), DkgBegin(true, true)) == State(Some(b), [], {a, b}, None)
  {
    assert {} + {a} == {a} && {a} + {b} == {a, b};
  }

  lemma EndsBoth(config: Config, a: BlockRef, b: BlockRef, row1: Shares, row2: Shares)
    requires a != b && a.height == b.height && row1.key != row2.key
    requires row1 == Shares(row1.key, Unverified, b, config.set_)
    requires row2 == Shares(row2.key, Unverified, a, config.set_)
    ensures Step(config, State(Some(b), [], {a, b}, None), DkgEndSuccess(row1.key)) == State(Some(b), [row1], {a}, None)
    ensures Step(config, State(Some(b), [row1], {a}, None), BlockObserved(a, true, None, Completes))
         == State(Some(a), [row1], {a}, None)
    ensures Step(config, State(Some(a), [row1], {a}, None), DkgEndSuccess(row2.key))
         == State(Some(a), [row1, row2], {}, None)
  {
    hide ShouldRunDkg, MayVerify;
    assert {a, b} - {b} == {a} && {a} - {a} == {};
    assert [] + [row1] == [row1] && [row1] + [row2] == [row1, row2];
  }

  lemma RunSnoc(config: Config, st: State, events: seq<Event>, e: Event)
    ensures Run(config, st, []) == st
    ensures Run(config, st, events + [e]) == Step(config, Run(config, st, events), e)
  {
    assert (events + [e])[..|events|] == events;
  }

  // ---------------------------------------------------------------------
  // The step, row by row
  // ---------------------------------------------------------------------

  /** What one event does to a row, on heights and keys: a pending row is revoked by a stored block
      above its window, when the latest row is pending under the same x-coordinate, and settled by a
      verification of that x-coordinate, when the latest row has it and the tip is in its window.
      Nothing else changes a row. */
  lemma RowStepExactly(config: Config, st: State, e: Event, i: nat)
    requires i < |st.rows|
    ensures var row, last := st.rows[i], st.rows[|st.rows| - 1];
            var end := last.startedAt.height as int + config.window as int;
            && i < |Step(config, st, e).rows|
            && Step(config, st, e).rows[i] ==
               if row.status != Unverified || row.key.xOnly != last.key.xOnly then row
               else if e.BlockObserved? && e.stored && e.progress != CheckFails && last.status == Unverified
                    && end < e.block.height
               then row.(status := Failed)
               else if e.VerificationEnds? && e.xOnly == row.key.xOnly && last.status != Failed
                    && st.tip.Some? && st.tip.value.height <= end
               then row.(status := if e.signatureValid then Verified else Failed)
               else row
  {}

  /** A block within the window of a pending row leaves the row alone. */
  lemma PendingSurvivesBlock(config: Config, st: State, e: Event, i: nat)
    requires OnlyLastPending(st.rows) && i < |st.rows| && st.rows[i].status == Unverified
    requires e.BlockObserved? && e.block.height as int <= st.rows[i].startedAt.height as int + config.window as int
    ensures i < |Step(config, st, e).rows| && Step(config, st, e).rows[i] == st.rows[i]
  {
    RowStepExactly(config, st, e, i);
  }

  /** A row is added by a round of the current tip that ends with a new key, and by nothing else; it
      is pending, started at the tip, and made for the configured signers. */
  lemma NewRowExactly(config: Config, st: State, e: Event)
    ensures var rows' := Step(config, st, e).rows;
            if && e.DkgEndSuccess? && st.tip.Some? && st.tip.value in st.machines
               && forall i :: 0 <= i < |st.rows| ==> st.rows[i].key != e.key
            then && |rows'| == |st.rows| + 1
                 && rows'[|st.rows|] == Shares(e.key, Unverified, st.tip.value, config.set_)
            else |rows'| == |st.rows|
  {}

  /** The latest shares that have not failed are verified, and there is a reason for new ones: the
      registry and the shares are for other signers than the configuration, or the shares were
      started below the minimum height and the tip has reached it. */
  ghost predicate Outdated(config: Config, st: State, tip: BlockRef, l: nat)
    requires l < |st.rows|
  {
    && st.rows[l].status == Verified && (forall j :: l < j < |st.rows| ==> st.rows[j].status == Failed)
    && (|| (st.registry.Some? && st.registry.value != config.set_ && st.rows[l].set_ != config.set_)
        || (config.minHeight.Some? && st.rows[l].startedAt.height < config.minHeight.value
            && config.minHeight.value <= tip.height))
  }

  lemma ShouldRunDkgExactly(config: Config, st: State, tip: BlockRef)
    ensures ShouldRunDkg(config, st, tip) <==>
            || (forall i :: 0 <= i < |st.rows| ==> st.rows[i].status == Failed)
            || (exists l: nat :: l < |st.rows| && Outdated(config, st, tip, l))
  {
    var latest := LatestNonFailed(st.rows);
    if latest.Some? {
      var l :| 0 <= l < |st.rows| && st.rows[l] == latest.value && latest.value.status != Failed
            && forall j :: l < j < |st.rows| ==> st.rows[j].status == Failed;
      assert forall m: nat :: m < |st.rows| && Outdated(config, st, tip, m) ==> m == l;
      assert ShouldRunDkg(config, st, tip) <==> Outdated(config, st, tip, l);
    }
  }

  /** The tip moves to a stored block whose pass completes, and is forgotten by a restart; a machine
      comes by a begin from the coordinator while DKG should run, and goes by the end of its round,
      by eviction or by a restart; the registry follows the passes that get as far as reading it. */
  lemma RestOfStepExactly(config: Config, st: State, e: Event)
    ensures var st' := Step(config, st, e);
            var reached := e.BlockObserved? && e.progress != CheckFails
                           && (e.stored || st.rows == [] || st.rows[|st.rows| - 1].status != Unverified);
            && st'.tip == (if e.Restarted? then None
                           else if reached && e.stored && e.progress == Completes then Some(e.block) else st.tip)
            && st'.registry == (if e.Restarted? then None
                                else if reached && e.info.Some? then e.info else st.registry)
            && forall t :: t in st'.machines <==>
                 || (t in st.machines && !e.Restarted? && (e.Evicted? ==> e.tip != t)
                     && (e.DkgEndSuccess? ==> st.tip != Some(t)))
                 || (e.DkgBegin? && e.fromCoordinator && e.machineBuilt && st.tip == Some(t)
                     && ShouldRunDkg(config, st, t))
  {
    hide ShouldRunDkg, MayVerify, CheckPending;
  }

  /** In a run without returning tips, a row once pending stays as it is until a verification of its
      key ends or a block above its window is observed. */
  lemma {:induction false} PendingUntil(config: Config, st: State, events: seq<Event>, k: nat, i: nat)
    requires Initial(config, st) && NoReturn(config, st, events) && k <= |events|
    requires i < |Run(config, st, events[..k]).rows| && Run(config, st, events[..k]).rows[i].status == Unverified
    requires var row := Run(config, st, events[..k]).rows[i];
             forall j :: k <= j < |events| ==>
               && (events[j].VerificationEnds? ==> events[j].xOnly != row.key.xOnly)
               && (events[j].BlockObserved? ==>
                     events[j].block.height as int <= row.startedAt.height as int + config.window as int)
    ensures i < |Run(config, st, events).rows|
    ensures Run(config, st, events).rows[i] == Run(config, st, events[..k]).rows[i]
  {
    hide Step, NoReturn;
    if k == |events| {
      assert events[..k] == events;
    } else {
      var before, e := events[..|events| - 1], events[|events| - 1];
      assert before[..k] == events[..k];
      NoReturnPrefix(config, st, events);
      PendingUntil(config, st, before, k, i);
      RunSound(config, st, before);
      var now := Run(config, st, before);
      assert i == |now.rows| - 1;
      RowStepExactly(config, now, e, i);
    }
  }

  lemma NoReturnPrefix(config: Config, st: State, events: seq<Event>)
    requires NoReturn(config, st, events) && events != []
    ensures NoReturn(config, st, events[..|events| - 1])
  {}

  /** And these two settle it: the first stored block above the window whose pass gets to the check
      revokes it, and a verification that ends while there is a tip decides it. */
  lemma {:induction false} PendingSettledExactly(config: Config, st: State, events: seq<Event>, i: nat)
    requires Initial(config, st) && NoReturn(config, st, events) && events != []
    requires var now := Run(config, st, events[..|events| - 1]);
             i < |now.rows| && now.rows[i].status == Unverified
    ensures var e := events[|events| - 1];
            var now := Run(config, st, events[..|events| - 1]);
            var row := now.rows[i];
            && i < |Run(config, st, events).rows|
            && Run(config, st, events).rows[i] ==
               if e.BlockObserved? && e.stored && e.progress != CheckFails
                  && row.startedAt.height as int + config.window as int < e.block.height
               then row.(status := Failed)
               else if e.VerificationEnds? && e.xOnly == row.key.xOnly && now.tip.Some?
               then row.(status := if e.signatureValid then Verified else Failed)
               else row
  {
    hide Step, NoReturn;
    var before := events[..|events| - 1];
    NoReturnPrefix(config, st, events);
    RunSound(config, st, before);
    RowStepExactly(config, Run(config, st, before), events[|events| - 1], i);
  }

  // ---------------------------------------------------------------------
  // How often DKG can succeed
  // ---------------------------------------------------------------------

  /** Shares verified after the start, in row order. */
  ghost predicate NewVerified(rows: seq<Shares>, base: nat, i: int) {
    base <= i < |rows| && rows[i].status == Verified
  }

  /** The rows stored since the start come from the configuration, and each one that
      follows a verified one was started at or above the minimum height, after one started
      below it. `started` is a round under way at the tip. */
  ghost predicate Budgeted(config: Config, st: State, base: nat) {
    && base <= |st.rows|
    && (forall i :: base <= i < |st.rows| ==> st.rows[i].set_ == config.set_)
    && (forall i, j :: NewVerified(st.rows, base, i) && i < j < |st.rows| && st.rows[j].status != Failed ==>
          SecondRound(config, st.rows[i].startedAt.height, st.rows[j].startedAt.height))
    && (forall i :: st.tip.Some? && st.tip.value in st.machines && NewVerified(st.rows, base, i) ==>
          SecondRound(config, st.rows[i].startedAt.height, st.tip.value.height))
  }

  ghost predicate SecondRound(config: Config, first: u64, second: u64) {
    config.minHeight.Some? && first < config.minHeight.value <= second
  }

  lemma BeginBudgeted(config: Config, st: State, base: nat, visited: set<BlockRef>, i: nat)
    requires Sound(config, st, visited) && Budgeted(config, st, base)
    requires st.tip.Some? && ShouldRunDkg(config, st, st.tip.value) && NewVerified(st.rows, base, i)
    ensures SecondRound(config, st.rows[i].startedAt.height, st.tip.value.height)
  {
    var latest := LatestNonFailed(st.rows).value;
    var l :| 0 <= l < |st.rows| && st.rows[l] == latest
          && forall j :: l < j < |st.rows| ==> st.rows[j].status == Failed;
    assert latest.status == Verified;
    assert l >= i;
    assert latest.set_ == config.set_;
  }

  lemma StepBudgeted(config: Config, st: State, base: nat, visited: set<BlockRef>, e: Event)
    requires Sound(config, st, visited) && Budgeted(config, st, base)
    requires Moves(st, Step(config, st, e), visited)
    ensures Budgeted(config, Step(config, st, e), base)
  {
    hide MaxVerificationHeight, ShouldRunDkg, LatestNonFailed, MayVerify;
    var st' := Step(config, st, e);
    if e.DkgBegin? && st' != st {
      forall i | NewVerified(st.rows, base, i)
        ensures SecondRound(config, st.rows[i].startedAt.height, st.tip.value.height)
      {
        BeginBudgeted(config, st, base, visited, i);
      }
    } else if e.DkgEndSuccess? && st' != st {
      forall i, j | NewVerified(st'.rows, base, i) && i < j < |st'.rows| && st'.rows[j].status != Failed
        ensures SecondRound(config, st'.rows[i].startedAt.height, st'.rows[j].startedAt.height)
      {
        assert NewVerified(st.rows, base, i);
      }
    } else if e.VerificationEnds? && st' != st {
      SettleBudgeted(config, st, base, visited, e.xOnly, if e.signatureValid then Verified else Failed);
    } else if e.BlockObserved? && st'.rows != st.rows {
      SettleBudgeted(config, st, base, visited, Latest(st.rows).value.key.xOnly, Failed);
      assert st'.rows == Settle(st.rows, Latest(st.rows).value.key.xOnly, Failed);
    }
  }

  lemma SettleBudgeted(config: Config, st: State, base: nat, visited: set<BlockRef>, xOnly: int, status: Status)
    requires Sound(config, st, visited) && Budgeted(config, st, base) && status != Unverified
    ensures Budgeted(config, st.(rows := Settle(st.rows, xOnly, status)), base)
  {
    var rows' := Settle(st.rows, xOnly, status);
    forall i, j | NewVerified(rows', base, i) && i < j < |rows'| && rows'[j].status != Failed
      ensures SecondRound(config, rows'[i].startedAt.height, rows'[j].startedAt.height)
    {
      assert NewVerified(st.rows, base, i);
    }
  }

  lemma {:induction false} RunBudgeted(config: Config, st: State, events: seq<Event>)
    requires Initial(config, st) && NoReturn(config, st, events)
    ensures Budgeted(config, Run(config, st, events), |st.rows|)
  {
    if events != [] {
      var before := events[..|events| - 1];
      RunBudgeted(config, st, before);
      RunSound(config, st, before);
      StepBudgeted(config, Run(config, st, before), |st.rows|, Visited(config, st, before), events[|events| - 1]);
    }
  }

  /** With a fixed configuration at most two rounds of a run end in verified shares, and
      the second only because the tip has reached the minimum height meanwhile. */
  lemma {:induction false} AtMostTwoVerifiedRounds(config: Config, st: State, events: seq<Event>, i: nat, j: nat)
    requires Initial(config, st) && NoReturn(config, st, events) && i < j
    requires NewVerified(Run(config, st, events).rows, |st.rows|, i)
    requires NewVerified(Run(config, st, events).rows, |st.rows|, j)
    ensures var rows := Run(config, st, events).rows;
            && SecondRound(config, rows[i].startedAt.height, rows[j].startedAt.height)
            && forall k :: NewVerified(rows, |st.rows|, k) ==> k == i || k == j
  {
    RunBudgeted(config, st, events);
    var rows := Run(config, st, events).rows;
    assert forall a, b :: NewVerified(rows, |st.rows|, a) && NewVerified(rows, |st.rows|, b) && a < b ==>
        SecondRound(config, rows[a].startedAt.height, rows[b].startedAt.height);
  }

  /** Settled rows never change again, in any run. */
  lemma {:induction false} SettledForever(config: Config, st: State, events: seq<Event>, i: nat)
    requires i < |st.rows| && st.rows[i].status != Unverified
    ensures i < |Run(config, st, events).rows| && Run(config, st, events).rows[i] == st.rows[i]
  {
    if events != [] {
      SettledForever(config, st, events[..|events| - 1], i);
    }
  }
}
