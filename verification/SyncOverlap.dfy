/** Overlapping rounds of the subscriptions worker: a sync keeps the record it was given across its
    awaits and writes that one back (`crates/greentic-events-runtime/src/install.rs`). */
module SyncOverlap {
  import opened Wrappers
  import opened Backoff
  import opened Json
  import opened Registry
  import opened InstallStore
  import opened SubscriptionSync

  /** A sync under way: the spec and the record it was begun with. */
  datatype Pending = Pending(spec: ProviderSpec, record: InstallRecord)

  datatype Step = Begin(spec: ProviderSpec, key: InstallKey) | Finish(i: nat, outcome: SyncOutcome)

  /** The store, the syncs begun (`None` once finished), and the finished ones in order. */
  datatype State = State(installs: Installs, pending: seq<Option<Pending>>, done: seq<Entry>)

  predicate Finishes(s: State, step: Step) {
    step.Finish? && step.i < |s.pending| && s.pending[step.i].Some?
  }

  function Move(s: State, step: Step, maxFailures: u32): State {
    match step
    case Begin(spec, key) =>
      if key in s.installs then s.(pending := s.pending + [Some(Pending(spec, s.installs[key]))]) else s
    case Finish(i, outcome) =>
      if Finishes(s, step) then
        var mine := s.pending[i].value;
        State(
          SyncEffect(s.installs, mine.record, outcome, maxFailures),
          s.pending[i := None],
          s.done + [Entry(mine.spec, KeyOf(mine.record), outcome)])
      else
        s
  }

  function Run(start: Installs, steps: seq<Step>, maxFailures: u32): State {
    if steps == [] then State(start, [], [])
    else Move(Run(start, steps[..|steps| - 1], maxFailures), steps[|steps| - 1], maxFailures)
  }

  // ---- Bounds that hold however the syncs overlap ----

  function Exhaustions(done: seq<Entry>, key: InstallKey): nat {
    if done == [] then 0
    else
      var last := done[|done| - 1];
      Exhaustions(done[..|done| - 1], key) + if last.key == key && last.outcome.Exhausted? then 1 else 0
  }

  ghost predicate Within(initial: FailureState, now: FailureState, exhausted: nat, maxFailures: u32) {
    && now.failures <= initial.failures + exhausted
    && (now.degraded ==> initial.degraded || (exhausted > 0 && initial.failures + exhausted >= maxFailures))
  }

  ghost predicate RecordWithin(start: Installs, record: InstallRecord, done: seq<Entry>, maxFailures: u32) {
    var key := KeyOf(record);
    && key in start
    && Within(ReadState(start[key].metadata), ReadState(record.metadata), Exhaustions(done, key), maxFailures)
  }

  /** What was written last for an install shows: a success as a clean state, a failure as a count. */
  ghost predicate LastShows(state: FailureState, done: seq<Entry>, key: InstallKey) {
    && (Streak(done, key) > 0 ==> state.failures > 0)
    && (Streak(done, key) == 0 && EverSucceeded(done, key) ==> state == CLEAN)
  }

  ghost predicate OverlapOk(start: Installs, s: State, maxFailures: u32) {
    && Keyed(s.installs) && s.installs.Keys == start.Keys
    && (forall key :: key in s.installs ==>
          && RecordWithin(start, s.installs[key], s.done, maxFailures)
          && LastShows(ReadState(s.installs[key].metadata), s.done, key))
    && forall i :: 0 <= i < |s.pending| && s.pending[i].Some? ==>
         RecordWithin(start, s.pending[i].value.record, s.done, maxFailures)
  }

  lemma WithinMore(start: Installs, record: InstallRecord, done: seq<Entry>, entry: Entry, maxFailures: u32)
    requires RecordWithin(start, record, done, maxFailures)
    ensures RecordWithin(start, record, done + [entry], maxFailures)
  {
    assert (done + [entry])[..|done|] == done;
  }

  /** A finished sync's record: one failure more than the one it was begun with, or none. */
  lemma FinishWrites(start: Installs, mine: Pending, done: seq<Entry>, outcome: SyncOutcome, maxFailures: u32)
    requires RecordWithin(start, mine.record, done, maxFailures) && !outcome.Unresolved?
    ensures var after := done + [Entry(mine.spec, KeyOf(mine.record), outcome)];
            var written := Written(mine.record, outcome, maxFailures);
            && KeyOf(written) == KeyOf(mine.record)
            && RecordWithin(start, written, after, maxFailures)
            && LastShows(ReadState(written.metadata), after, KeyOf(mine.record))
  {
    var entry := Entry(mine.spec, KeyOf(mine.record), outcome);
    assert (done + [entry])[..|done|] == done;
    if outcome.Succeeded? {
      MetadataRoundTrip(mine.record.metadata, outcome.now, 0, false);
    } else {
      var after := AfterFailure(ReadState(mine.record.metadata), maxFailures);
      MetadataRoundTrip(mine.record.metadata, "unknown", after.failures, after.degraded);
    }
  }

  lemma ShowsStill(state: FailureState, done: seq<Entry>, entry: Entry, key: InstallKey)
    requires LastShows(state, done, key) && (entry.key != key || entry.outcome.Unresolved?)
    ensures LastShows(state, done + [entry], key)
  {
    assert (done + [entry])[..|done|] == done;
    SucceededStep(done + [entry], key);
  }

  lemma StoredStay(start: Installs, s: State, mine: Pending, outcome: SyncOutcome, maxFailures: u32, key: InstallKey)
    requires OverlapOk(start, s, maxFailures) && RecordWithin(start, mine.record, s.done, maxFailures)
    requires key in s.installs
    ensures var after := SyncEffect(s.installs, mine.record, outcome, maxFailures);
            var done := s.done + [Entry(mine.spec, KeyOf(mine.record), outcome)];
            && KeyOf(after[key]) == key
            && RecordWithin(start, after[key], done, maxFailures)
            && LastShows(ReadState(after[key].metadata), done, key)
  {
    var entry := Entry(mine.spec, KeyOf(mine.record), outcome);
    if key == entry.key && !outcome.Unresolved? {
      FinishWrites(start, mine, s.done, outcome, maxFailures);
    } else {
      WithinMore(start, s.installs[key], s.done, entry, maxFailures);
      ShowsStill(ReadState(s.installs[key].metadata), s.done, entry, key);
    }
  }

  lemma FinishKeeps(start: Installs, s: State, step: Step, maxFailures: u32)
    requires OverlapOk(start, s, maxFailures) && Finishes(s, step)
    ensures OverlapOk(start, Move(s, step, maxFailures), maxFailures)
  {
    var mine := s.pending[step.i].value;
    var after := Move(s, step, maxFailures);
    assert RecordWithin(start, mine.record, s.done, maxFailures);
    assert after.installs.Keys == s.installs.Keys;
    forall key | key in s.installs
      ensures KeyOf(after.installs[key]) == key
      ensures RecordWithin(start, after.installs[key], after.done, maxFailures)
      ensures LastShows(ReadState(after.installs[key].metadata), after.done, key)
    {
      StoredStay(start, s, mine, step.outcome, maxFailures, key);
    }
    forall i | 0 <= i < |after.pending| && after.pending[i].Some?
      ensures RecordWithin(start, after.pending[i].value.record, after.done, maxFailures)
    {
      var entry := Entry(mine.spec, KeyOf(mine.record), step.outcome);
      WithinMore(start, s.pending[i].value.record, s.done, entry, maxFailures);
    }
  }

  lemma MoveKeeps(start: Installs, s: State, step: Step, maxFailures: u32)
    requires OverlapOk(start, s, maxFailures)
    ensures OverlapOk(start, Move(s, step, maxFailures), maxFailures)
  {
    if Finishes(s, step) {
      FinishKeeps(start, s, step, maxFailures);
    }
  }

  lemma {:induction false} RunKeepsBounds(start: Installs, steps: seq<Step>, maxFailures: u32)
    requires Keyed(start)
    ensures OverlapOk(start, Run(start, steps, maxFailures), maxFailures)
  {
    if steps != [] {
      RunKeepsBounds(start, steps[..|steps| - 1], maxFailures);
      MoveKeeps(start, Run(start, steps[..|steps| - 1], maxFailures), steps[|steps| - 1], maxFailures);
    }
  }

  // ---- What an install carries, however the syncs overlap ----

  /** The states that successful syncs of an install have brought. */
  function SyncedStates(done: seq<Entry>, key: InstallKey): set<Value> {
    if done == [] then {}
    else
      var last := done[|done| - 1];
      SyncedStates(done[..|done| - 1], key) +
      if last.key == key && last.outcome.Succeeded? then {last.outcome.state} else {}
  }

  /** A record differs from the one at the start in nothing but what syncs write, and its subscriptions
      state is the one at the start or a success's. */
  ghost predicate Carried(start: Installs, record: InstallRecord, done: seq<Entry>) {
    var key := KeyOf(record);
    && key in start
    && SameIdentity(start[key], record)
    && SameOtherMetadata(start[key].metadata, record.metadata)
    && record.subscriptionsState in SyncedStates(done, key) + {start[key].subscriptionsState}
  }

  ghost predicate LastStateShows(record: InstallRecord, done: seq<Entry>) {
    Streak(done, KeyOf(record)) == 0 && EverSucceeded(done, KeyOf(record)) ==>
      LastSynced(done, KeyOf(record)) == Some(record.subscriptionsState)
  }

  ghost predicate CarriedOk(start: Installs, s: State) {
    && Keyed(s.installs) && s.installs.Keys == start.Keys
    && (forall key :: key in s.installs ==>
          Carried(start, s.installs[key], s.done) && LastStateShows(s.installs[key], s.done))
    && forall i :: 0 <= i < |s.pending| && s.pending[i].Some? ==> Carried(start, s.pending[i].value.record, s.done)
  }

  lemma CarriedMore(start: Installs, record: InstallRecord, done: seq<Entry>, entry: Entry)
    requires Carried(start, record, done)
    ensures Carried(start, record, done + [entry])
    ensures LastStateShows(record, done) && (entry.key != KeyOf(record) || entry.outcome.Unresolved?) ==>
              LastStateShows(record, done + [entry])
  {
    assert (done + [entry])[..|done|] == done;
    SucceededStep(done + [entry], KeyOf(record));
  }

  lemma FinishCarries(start: Installs, mine: Pending, done: seq<Entry>, outcome: SyncOutcome, maxFailures: u32)
    requires Carried(start, mine.record, done) && !outcome.Unresolved?
    ensures var after := done + [Entry(mine.spec, KeyOf(mine.record), outcome)];
            var written := Written(mine.record, outcome, maxFailures);
            KeyOf(written) == KeyOf(mine.record) && Carried(start, written, after) && LastStateShows(written, after)
  {
    var entry := Entry(mine.spec, KeyOf(mine.record), outcome);
    assert (done + [entry])[..|done|] == done;
    WrittenTouchesOnly(mine.record, outcome, maxFailures);
  }

  lemma CarryOn(start: Installs, s: State, step: Step, maxFailures: u32)
    requires CarriedOk(start, s) && Finishes(s, step)
    ensures CarriedOk(start, Move(s, step, maxFailures))
  {
    hide Carried, LastStateShows, Written;
    var mine := s.pending[step.i].value;
    var entry := Entry(mine.spec, KeyOf(mine.record), step.outcome);
    var after := Move(s, step, maxFailures);
    CarriedKnown(start, mine.record, s.done);
    assert after.installs.Keys == s.installs.Keys;
    if !step.outcome.Unresolved? {
      FinishCarries(start, mine, s.done, step.outcome, maxFailures);
    }
    forall key | key in s.installs
      ensures KeyOf(after.installs[key]) == key
      ensures Carried(start, after.installs[key], after.done) && LastStateShows(after.installs[key], after.done)
    {
      if key != entry.key || step.outcome.Unresolved? {
        CarriedMore(start, s.installs[key], s.done, entry);
      }
    }
    forall i | 0 <= i < |after.pending| && after.pending[i].Some?
      ensures Carried(start, after.pending[i].value.record, after.done)
    {
      CarriedMore(start, s.pending[i].value.record, s.done, entry);
    }
  }

  lemma CarriedKnown(start: Installs, record: InstallRecord, done: seq<Entry>)
    requires Carried(start, record, done)
    ensures KeyOf(record) in start
  {}

  lemma {:induction false} RunCarries(start: Installs, steps: seq<Step>, maxFailures: u32)
    requires Keyed(start)
    ensures CarriedOk(start, Run(start, steps, maxFailures))
  {
    if steps != [] {
      var before := Run(start, steps[..|steps| - 1], maxFailures);
      RunCarries(start, steps[..|steps| - 1], maxFailures);
      if Finishes(before, steps[|steps| - 1]) {
        CarryOn(start, before, steps[|steps| - 1], maxFailures);
      }
    }
  }

  /** However syncs overlap, an install's count never exceeds its exhausted syncs, it is not degraded
      before those reach the threshold, and its last sync shows: zero and its own state after a success,
      at least one after a failure. The subscriptions state is always the one at the start or that of a
      successful sync, and nothing else that a sync does not write ever changes. */
  lemma OverlapBounds(start: Installs, steps: seq<Step>, maxFailures: u32, key: InstallKey)
    requires Keyed(start) && key in start
    requires NeverSynced(start[key].metadata) || ReadState(start[key].metadata) == FailureState(0, false)
    ensures var s := Run(start, steps, maxFailures);
            && key in s.installs
            && var state := ReadState(s.installs[key].metadata);
               && state.failures <= Exhaustions(s.done, key)
               && (state.degraded ==> Exhaustions(s.done, key) > 0 && Exhaustions(s.done, key) >= maxFailures)
               && (Streak(s.done, key) > 0 ==> 1 <= state.failures)
               && (Streak(s.done, key) == 0 && EverSucceeded(s.done, key) ==>
                     state == CLEAN && LastSynced(s.done, key) == Some(s.installs[key].subscriptionsState))
               && s.installs[key].subscriptionsState in SyncedStates(s.done, key) + {start[key].subscriptionsState}
               && SameIdentity(start[key], s.installs[key])
               && SameOtherMetadata(start[key].metadata, s.installs[key].metadata)
  {
    ReadStateMeans(start[key].metadata);
    RunKeepsBounds(start, steps, maxFailures);
    RunCarries(start, steps, maxFailures);
    assert Carried(start, Run(start, steps, maxFailures).installs[key], Run(start, steps, maxFailures).done);
  }

  // ---- What overlap can lose ----

  /** Overlapping failures may count as one: two syncs that were begun with the same record leave the
      count of the later write. */
  lemma OverlapLosesCount(start: Installs, spec: ProviderSpec, key: InstallKey, message: string, maxFailures: u32)
    requires Keyed(start) && key in start
    requires NeverSynced(start[key].metadata) || ReadState(start[key].metadata) == FailureState(0, false)
    ensures var failed := Exhausted(message);
            var steps := [Begin(spec, key), Begin(spec, key), Finish(0, failed), Finish(1, failed)];
            var s := Run(start, steps, maxFailures);
            && s.done == [Entry(spec, key, failed), Entry(spec, key, failed)]
            && key in s.installs
            && ReadState(s.installs[key].metadata).failures == 1
            && key in Replay(start, s.done, maxFailures)
            && ReadState(Replay(start, s.done, maxFailures)[key].metadata).failures == 2
  {
    ReadStateMeans(start[key].metadata);
    TwoBegunTogether(start, spec, key, Exhausted(message), Exhausted(message), maxFailures);
    FailedTwice(start, spec, key, message, maxFailures);
  }

  /** A failure may undo a success: a sync that was begun before the success writes the old subscriptions
      state back. */
  lemma OverlapRevertsState(
    start: Installs, spec: ProviderSpec, key: InstallKey, state: Value, now: string, message: string, maxFailures: u32)
    requires Keyed(start) && key in start
    ensures var synced, failed := Succeeded(state, now), Exhausted(message);
            var steps := [Begin(spec, key), Begin(spec, key), Finish(0, synced), Finish(1, failed)];
            var s := Run(start, steps, maxFailures);
            && s.done == [Entry(spec, key, synced), Entry(spec, key, failed)]
            && key in s.installs
            && s.installs[key].subscriptionsState == start[key].subscriptionsState
            && LastSynced(s.done, key) == Some(state)
  {
    var synced, failed := Succeeded(state, now), Exhausted(message);
    TwoBegunTogether(start, spec, key, synced, failed, maxFailures);
    var one, done := [Entry(spec, key, synced)], [Entry(spec, key, synced), Entry(spec, key, failed)];
    assert done[..|done| - 1] == one;
    assert LastSynced(one, key) == Some(state);
  }

  /** The later write is what the record that both were begun with comes to. */
  lemma TwoBegunTogether(
    start: Installs, spec: ProviderSpec, key: InstallKey, first: SyncOutcome, second: SyncOutcome, maxFailures: u32)
    requires Keyed(start) && key in start && !first.Unresolved? && !second.Unresolved?
    ensures Run(start, [Begin(spec, key), Begin(spec, key), Finish(0, first), Finish(1, second)], maxFailures)
         == State(start[key := Written(start[key], second, maxFailures)], [None, None],
                  [Entry(spec, key, first), Entry(spec, key, second)])
  {
    hide Written;
    var begin, mine := Begin(spec, key), Pending(spec, start[key]);
    var two := [begin, begin];
    BegunTwice(start, spec, key, maxFailures);
    WrittenKey(start[key], first, maxFailures);
    RunStep(start, two, Finish(0, first), maxFailures);
    assert Run(start, two + [Finish(0, first)], maxFailures)
        == State(start[key := Written(start[key], first, maxFailures)], [None, Some(mine)], [Entry(spec, key, first)]);
    RunStep(start, two + [Finish(0, first)], Finish(1, second), maxFailures);
    assert two + [Finish(0, first)] + [Finish(1, second)] == [begin, begin, Finish(0, first), Finish(1, second)];
  }

  lemma BegunTwice(start: Installs, spec: ProviderSpec, key: InstallKey, maxFailures: u32)
    requires key in start
    ensures var mine := Some(Pending(spec, start[key]));
            Run(start, [Begin(spec, key), Begin(spec, key)], maxFailures) == State(start, [mine, mine], [])
  {
    var begin := Begin(spec, key);
    RunStep(start, [], begin, maxFailures);
    RunStep(start, [begin], begin, maxFailures);
    assert [] + [begin] == [begin] && [begin] + [begin] == [begin, begin];
    assert Run(start, [begin], maxFailures) == State(start, [Some(Pending(spec, start[key]))], []);
  }

  lemma WrittenKey(record: InstallRecord, outcome: SyncOutcome, maxFailures: u32)
    ensures KeyOf(Written(record, outcome, maxFailures)) == KeyOf(record)
  {}

  lemma RunStep(start: Installs, steps: seq<Step>, step: Step, maxFailures: u32)
    ensures Run(start, steps + [step], maxFailures) == Move(Run(start, steps, maxFailures), step, maxFailures)
  {
    assert (steps + [step])[..|steps|] == steps;
  }

  lemma FailedTwice(start: Installs, spec: ProviderSpec, key: InstallKey, message: string, maxFailures: u32)
    requires Keyed(start) && key in start && ReadState(start[key].metadata) == CLEAN
    ensures ReadState(Written(start[key], Exhausted(message), maxFailures).metadata).failures == 1
    ensures var done := [Entry(spec, key, Exhausted(message)), Entry(spec, key, Exhausted(message))];
            && key in Replay(start, done, maxFailures)
            && ReadState(Replay(start, done, maxFailures)[key].metadata).failures == 2
  {
    var after := AfterFailure(CLEAN, maxFailures);
    MetadataRoundTrip(start[key].metadata, "unknown", after.failures, after.degraded);
    var entry := Entry(spec, key, Exhausted(message));
    var one, done := [entry], [entry, entry];
    assert one[..|one| - 1] == [] && done[..|done| - 1] == one;
    assert Streak(one, key) == 1;
    assert Streak(done, key) == 2;
    FailureStateTracks(start, done, maxFailures, key);
  }

  // ---- Without overlap on one install, the serial theorems hold ----

  /** Every sync that finished found its record in the store as it was when the sync was begun. */
  predicate Undisturbed(start: Installs, steps: seq<Step>, maxFailures: u32) {
    steps == [] ||
    var last := steps[|steps| - 1];
    var before := Run(start, steps[..|steps| - 1], maxFailures);
    && Undisturbed(start, steps[..|steps| - 1], maxFailures)
    && (Finishes(before, last) ==>
          var record := before.pending[last.i].value.record;
          KeyOf(record) in before.installs && before.installs[KeyOf(record)] == record)
  }

  /** Undisturbed syncs come to the same as the serial history in which they finished. */
  lemma {:induction false} UndisturbedIsSerial(start: Installs, steps: seq<Step>, maxFailures: u32)
    requires Undisturbed(start, steps, maxFailures)
    ensures var s := Run(start, steps, maxFailures);
            s.installs == Replay(start, s.done, maxFailures)
  {
    if steps != [] {
      var last := steps[|steps| - 1];
      var before := Run(start, steps[..|steps| - 1], maxFailures);
      UndisturbedIsSerial(start, steps[..|steps| - 1], maxFailures);
      if Finishes(before, last) {
        var done := Run(start, steps, maxFailures).done;
        assert done[..|done| - 1] == before.done;
      }
    }
  }

  /** No sync of an install is begun while another one is under way. */
  predicate Alone(start: Installs, steps: seq<Step>, maxFailures: u32) {
    steps == [] ||
    var last := steps[|steps| - 1];
    var before := Run(start, steps[..|steps| - 1], maxFailures);
    && Alone(start, steps[..|steps| - 1], maxFailures)
    && (last.Begin? ==> forall i :: 0 <= i < |before.pending| && before.pending[i].Some? ==>
          KeyOf(before.pending[i].value.record) != last.key)
  }

  ghost predicate Current(s: State) {
    && (forall i :: 0 <= i < |s.pending| && s.pending[i].Some? ==>
          var record := s.pending[i].value.record;
          KeyOf(record) in s.installs && s.installs[KeyOf(record)] == record)
    && forall i, j :: 0 <= i < j < |s.pending| && s.pending[i].Some? && s.pending[j].Some? ==>
         KeyOf(s.pending[i].value.record) != KeyOf(s.pending[j].value.record)
  }

  lemma CurrentKept(s: State, step: Step, maxFailures: u32)
    requires Keyed(s.installs) && Current(s)
    requires step.Begin? ==> forall i :: 0 <= i < |s.pending| && s.pending[i].Some? ==>
               KeyOf(s.pending[i].value.record) != step.key
    ensures Current(Move(s, step, maxFailures))
  {
    hide UpdateMetadata, ReadState, AfterFailure;
  }

  /** Syncs of different installs may overlap as they like. */
  lemma {:induction false} AloneIsUndisturbed(start: Installs, steps: seq<Step>, maxFailures: u32)
    requires Keyed(start) && Alone(start, steps, maxFailures)
    ensures Undisturbed(start, steps, maxFailures) && Current(Run(start, steps, maxFailures))
  {
    hide OverlapOk;
    if steps != [] {
      AloneIsUndisturbed(start, steps[..|steps| - 1], maxFailures);
      RunKeepsBounds(start, steps[..|steps| - 1], maxFailures);
      CurrentKept(Run(start, steps[..|steps| - 1], maxFailures), steps[|steps| - 1], maxFailures);
    }
  }
}
