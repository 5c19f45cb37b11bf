/** Which schedules of overlapping syncs come to the serial history of their ends, whatever the
    syncs themselves come to (`crates/greentic-events-runtime/src/install.rs`). */
module SyncSchedules {
  import opened Wrappers
  import opened Backoff
  import opened Json
  import opened Registry
  import opened InstallStore
  import opened SubscriptionSync
  import opened SyncOverlap

  // ---- What a schedule tells before any sync has an outcome ----

  /** A sync under way: its install, and whether another sync of that install has finished since it was
      begun. */
  datatype Ticket = Ticket(key: InstallKey, stale: bool)

  function Tickets(known: set<InstallKey>, steps: seq<Step>): seq<Option<Ticket>> {
    if steps == [] then []
    else
      var before := Tickets(known, steps[..|steps| - 1]);
      match steps[|steps| - 1]
      case Begin(_, key) => if key in known then before + [Some(Ticket(key, false))] else before
      case Finish(i, _) =>
        if i < |before| && before[i].Some? then Overtaken(before, before[i].value.key)[i := None] else before
  }

  function Overtaken(tickets: seq<Option<Ticket>>, key: InstallKey): (overtaken: seq<Option<Ticket>>)
    ensures |overtaken| == |tickets|
  {
    seq(|tickets|, i requires 0 <= i < |tickets| =>
      if tickets[i].Some? && tickets[i].value.key == key then Some(Ticket(key, true)) else tickets[i])
  }

  predicate TakesStale(tickets: seq<Option<Ticket>>, step: Step) {
    step.Finish? && step.i < |tickets| && tickets[step.i].Some? && tickets[step.i].value.stale
  }

  /** No sync finishes that another one of its install has overtaken. */
  predicate NoneStale(known: set<InstallKey>, steps: seq<Step>) {
    forall n :: 0 <= n < |steps| ==> !TakesStale(Tickets(known, steps[..n]), steps[n])
  }

  predicate SameStep(a: Step, b: Step) {
    if a.Begin? then a == b else b.Finish? && a.i == b.i
  }

  /** The same syncs begun and finished in the same order, with any outcomes. */
  ghost predicate SameSchedule(a: seq<Step>, b: seq<Step>) {
    |a| == |b| && forall k :: 0 <= k < |a| ==> SameStep(a[k], b[k])
  }

  lemma {:induction false} SameTickets(known: set<InstallKey>, a: seq<Step>, b: seq<Step>)
    requires SameSchedule(a, b)
    ensures Tickets(known, a) == Tickets(known, b)
  {
    if a != [] {
      SameTickets(known, a[..|a| - 1], b[..|b| - 1]);
      assert SameStep(a[|a| - 1], b[|b| - 1]);
    }
  }

  lemma SameStale(known: set<InstallKey>, a: seq<Step>, b: seq<Step>)
    requires SameSchedule(a, b) && NoneStale(known, a)
    ensures NoneStale(known, b)
  {
    forall n | 0 <= n < |b| ensures !TakesStale(Tickets(known, b[..n]), b[n]) {
      assert SameSchedule(a[..n], b[..n]);
      SameTickets(known, a[..n], b[..n]);
      assert SameStep(a[n], b[n]) && !TakesStale(Tickets(known, a[..n]), a[n]);
    }
  }

  // ---- A schedule without stale ends is serial ----

  ghost predicate Tracks(tickets: seq<Option<Ticket>>, s: State) {
    && |tickets| == |s.pending|
    && forall i :: 0 <= i < |tickets| ==>
         && tickets[i].Some? == s.pending[i].Some?
         && (tickets[i].Some? ==>
               tickets[i].value.key in s.installs && tickets[i].value.key == KeyOf(s.pending[i].value.record))
  }

  lemma MoveTracks(known: set<InstallKey>, tickets: seq<Option<Ticket>>, s: State, steps: seq<Step>, maxFailures: u32)
    requires steps != [] && tickets == Tickets(known, steps[..|steps| - 1])
    requires Keyed(s.installs) && s.installs.Keys == known && Tracks(tickets, s)
    ensures var after := Move(s, steps[|steps| - 1], maxFailures);
            Keyed(after.installs) && after.installs.Keys == known && Tracks(Tickets(known, steps), after)
  {
    hide Written;
    var step := steps[|steps| - 1];
    if Finishes(s, step) {
      WrittenKey(s.pending[step.i].value.record, step.outcome, maxFailures);
    }
  }

  lemma {:induction false} RunTracks(start: Installs, steps: seq<Step>, maxFailures: u32)
    requires Keyed(start)
    ensures var s := Run(start, steps, maxFailures);
            Keyed(s.installs) && s.installs.Keys == start.Keys && Tracks(Tickets(start.Keys, steps), s)
  {
    if steps != [] {
      var earlier := steps[..|steps| - 1];
      RunTracks(start, earlier, maxFailures);
      MoveTracks(start.Keys, Tickets(start.Keys, earlier), Run(start, earlier, maxFailures), steps, maxFailures);
    }
  }

  /** A sync that is not stale still holds the stored record. */
  ghost predicate Fresh(tickets: seq<Option<Ticket>>, s: State) {
    && Tracks(tickets, s)
    && forall i :: 0 <= i < |tickets| && tickets[i].Some? && !tickets[i].value.stale ==>
         s.installs[tickets[i].value.key] == s.pending[i].value.record
  }

  lemma MoveFresh(known: set<InstallKey>, tickets: seq<Option<Ticket>>, s: State, steps: seq<Step>, maxFailures: u32)
    requires steps != [] && tickets == Tickets(known, steps[..|steps| - 1])
    requires Keyed(s.installs) && s.installs.Keys == known && Fresh(tickets, s)
    requires !TakesStale(tickets, steps[|steps| - 1])
    ensures Fresh(Tickets(known, steps), Move(s, steps[|steps| - 1], maxFailures))
  {
    hide Written;
    MoveTracks(known, tickets, s, steps, maxFailures);
  }

  lemma {:induction false} NoneStaleUndisturbed(start: Installs, steps: seq<Step>, maxFailures: u32)
    requires Keyed(start) && NoneStale(start.Keys, steps)
    ensures Undisturbed(start, steps, maxFailures)
    ensures Fresh(Tickets(start.Keys, steps), Run(start, steps, maxFailures))
  {
    hide Written;
    if steps != [] {
      var n := |steps| - 1;
      var tickets, before := Tickets(start.Keys, steps[..n]), Run(start, steps[..n], maxFailures);
      assert forall k :: 0 <= k < n ==> steps[..n][..k] == steps[..k];
      NoneStaleUndisturbed(start, steps[..n], maxFailures);
      RunTracks(start, steps[..n], maxFailures);
      MoveFresh(start.Keys, tickets, before, steps, maxFailures);
    }
  }

  ghost predicate Serial(start: Installs, steps: seq<Step>, maxFailures: u32) {
    var s := Run(start, steps, maxFailures);
    s.installs == Replay(start, s.done, maxFailures)
  }

  // ---- A stale end diverges ----

  /** The sync that made a ticket stale: step m finished it, while both were under way. */
  ghost predicate Overtakes(known: set<InstallKey>, steps: seq<Step>, m: nat, i: nat, key: InstallKey) {
    && m < |steps| && steps[m].Finish? && steps[m].i != i
    && var before := Tickets(known, steps[..m]);
       && i < |before| && before[i].Some? && before[i].value.key == key
       && steps[m].i < |before| && before[steps[m].i].Some? && before[steps[m].i].value.key == key
  }

  lemma {:induction false} Overtaker(known: set<InstallKey>, steps: seq<Step>, i: nat) returns (m: nat)
    requires i < |Tickets(known, steps)| && Tickets(known, steps)[i].Some? && Tickets(known, steps)[i].value.stale
    ensures Overtakes(known, steps, m, i, Tickets(known, steps)[i].value.key)
  {
    var n := |steps| - 1;
    var before := Tickets(known, steps[..n]);
    if i < |before| && before[i].Some? && before[i].value.stale {
      m := Overtaker(known, steps[..n], i);
      assert steps[..n][..m] == steps[..m];
    } else {
      m := n;
    }
  }

  /** The schedule with outcomes that write at two steps only. */
  function WritingAt(steps: seq<Step>, m: nat, first: SyncOutcome, n: nat, second: SyncOutcome): seq<Step> {
    seq(|steps|, k requires 0 <= k < |steps| =>
      match steps[k]
      case Begin(spec, key) => Begin(spec, key)
      case Finish(i, _) => Finish(i, if k == m then first else if k == n then second else Unresolved("")))
  }

  predicate Quiet(step: Step) { step.Begin? || step.outcome.Unresolved? }

  /** A step that writes nothing leaves the store and the serial history's result alone. */
  lemma QuietMove(start: Installs, s: State, step: Step, maxFailures: u32)
    requires Quiet(step)
    ensures var after := Move(s, step, maxFailures);
            && after.installs == s.installs
            && Replay(start, after.done, maxFailures) == Replay(start, s.done, maxFailures)
            && |s.pending| <= |after.pending|
            && (forall i :: 0 <= i < |s.pending| ==> after.pending[i] == s.pending[i] || after.pending[i].None?)
            && (step.Begin? ==> forall i :: |s.pending| <= i < |after.pending| ==>
                  step.key in s.installs && after.pending[i] == Some(Pending(step.spec, s.installs[step.key])))
            && (step.Finish? ==> |after.pending| == |s.pending|)
  {
    var after := Move(s, step, maxFailures);
    if Finishes(s, step) {
      assert after.done[..|after.done| - 1] == s.done;
    }
  }

  lemma LoudMove(start: Installs, s: State, step: Step, maxFailures: u32)
    requires Finishes(s, step) && !Quiet(step)
    requires Replay(start, s.done, maxFailures).Keys == start.Keys
    requires Keyed(Replay(start, s.done, maxFailures)) && KeyOf(s.pending[step.i].value.record) in start
    ensures var after, mine := Move(s, step, maxFailures), s.pending[step.i].value.record;
            var before, key := Replay(start, s.done, maxFailures), KeyOf(mine);
            && after.installs == s.installs[key := Written(mine, step.outcome, maxFailures)]
            && after.pending == s.pending[step.i := None]
            && Replay(start, after.done, maxFailures)
                 == before[key := Written(before[key], step.outcome, maxFailures)]
  {
    hide Written;
    var after := Move(s, step, maxFailures);
    assert after.done[..|after.done| - 1] == s.done;
  }

  /** Before the first of the two writes: every sync under way holds what is stored from the start. */
  ghost predicate Untried(start: Installs, s: State, maxFailures: u32) {
    && s.installs == start && Replay(start, s.done, maxFailures) == start
    && forall i :: 0 <= i < |s.pending| && s.pending[i].Some? ==>
         var record := s.pending[i].value.record;
         KeyOf(record) in start && record == start[KeyOf(record)]
  }

  lemma {:induction false} QuietRun(start: Installs, steps: seq<Step>, maxFailures: u32)
    requires Keyed(start) && forall k :: 0 <= k < |steps| ==> Quiet(steps[k])
    ensures Untried(start, Run(start, steps, maxFailures), maxFailures)
  {
    if steps != [] {
      QuietRun(start, steps[..|steps| - 1], maxFailures);
      QuietMove(start, Run(start, steps[..|steps| - 1], maxFailures), steps[|steps| - 1], maxFailures);
    }
  }

  /** Quiet steps from one point of a run to a later one. */
  lemma {:induction false} QuietStretch(start: Installs, steps: seq<Step>, lo: nat, hi: nat, i: nat, maxFailures: u32)
    requires lo <= hi <= |steps| && forall k :: lo <= k < hi ==> Quiet(steps[k])
    requires i < |Run(start, steps[..lo], maxFailures).pending|
    ensures var s, later := Run(start, steps[..lo], maxFailures), Run(start, steps[..hi], maxFailures);
            && later.installs == s.installs
            && Replay(start, later.done, maxFailures) == Replay(start, s.done, maxFailures)
            && i < |later.pending| && (later.pending[i] == s.pending[i] || later.pending[i].None?)
    decreases hi
  {
    if lo < hi {
      QuietStretch(start, steps, lo, hi - 1, i, maxFailures);
      assert steps[..hi][..hi - 1] == steps[..hi - 1];
      QuietMove(start, Run(start, steps[..hi - 1], maxFailures), steps[hi - 1], maxFailures);
    }
  }

  /** Between the two writes: the first is stored, and the stale sync, if under way, holds the record of
      the start. */
  ghost predicate Between(start: Installs, s: State, i: nat, key: InstallKey, one: InstallRecord, maxFailures: u32) {
    && key in start
    && s.installs == start[key := one] && Replay(start, s.done, maxFailures) == start[key := one]
    && i < |s.pending| && (s.pending[i].Some? ==> s.pending[i].value.record == start[key])
  }

  lemma FirstWrite(start: Installs, steps: seq<Step>, m: nat, i: nat, key: InstallKey, maxFailures: u32)
    requires Keyed(start) && key in start && Overtakes(start.Keys, steps, m, i, key)
    requires forall k :: 0 <= k <= m ==> (Quiet(steps[k]) <==> k != m)
    ensures var one := Written(start[key], steps[m].outcome, maxFailures);
            Between(start, Run(start, steps[..m + 1], maxFailures), i, key, one, maxFailures)
  {
    hide Written;
    QuietRun(start, steps[..m], maxFailures);
    RunTracks(start, steps[..m], maxFailures);
    LoudMove(start, Run(start, steps[..m], maxFailures), steps[m], maxFailures);
    assert steps[..m + 1][..m] == steps[..m];
  }

  lemma SecondWrite(start: Installs, steps: seq<Step>, n: nat, key: InstallKey, one: InstallRecord, maxFailures: u32)
    requires Keyed(start) && key in start && KeyOf(one) == key
    requires n < |steps| && steps[n].Finish? && !Quiet(steps[n])
    requires var s := Run(start, steps[..n], maxFailures);
             Between(start, s, steps[n].i, key, one, maxFailures) && Finishes(s, steps[n])
    ensures var s := Run(start, steps[..n + 1], maxFailures);
            && s.installs == start[key := Written(start[key], steps[n].outcome, maxFailures)]
            && Replay(start, s.done, maxFailures) == start[key := Written(one, steps[n].outcome, maxFailures)]
            && steps[n].i < |s.pending|
  {
    hide Written;
    LoudMove(start, Run(start, steps[..n], maxFailures), steps[n], maxFailures);
    assert steps[..n + 1][..n] == steps[..n];
  }

  /** With nothing else written, the stale write builds on the start, the serial one on the first write. */
  lemma StaleWrite(start: Installs, steps: seq<Step>, m: nat, n: nat, key: InstallKey, maxFailures: u32)
    requires Keyed(start) && m < n < |steps| && steps[n].Finish? && key in start
    requires Overtakes(start.Keys, steps, m, steps[n].i, key)
    requires steps[n].i < |Tickets(start.Keys, steps[..n])| && Tickets(start.Keys, steps[..n])[steps[n].i].Some?
    requires forall k :: 0 <= k < |steps| ==> (Quiet(steps[k]) <==> k != m && k != n)
    ensures var s, first, second := Run(start, steps, maxFailures), steps[m].outcome, steps[n].outcome;
            && key in s.installs && key in Replay(start, s.done, maxFailures)
            && s.installs[key] == Written(start[key], second, maxFailures)
            && Replay(start, s.done, maxFailures)[key]
                 == Written(Written(start[key], first, maxFailures), second, maxFailures)
  {
    hide Written, Overtakes, Tickets;
    var i := steps[n].i;
    var one := Written(start[key], steps[m].outcome, maxFailures);
    OvertakesWrites(start.Keys, steps, m, i, key);
    WrittenKey(start[key], steps[m].outcome, maxFailures);
    FirstWrite(start, steps, m, i, key, maxFailures);
    QuietStretch(start, steps, m + 1, n, i, maxFailures);
    RunTracks(start, steps[..n], maxFailures);
    SecondWrite(start, steps, n, key, one, maxFailures);
    QuietStretch(start, steps, n + 1, |steps|, i, maxFailures);
    assert steps[..|steps|] == steps;
  }

  lemma OvertakesWrites(known: set<InstallKey>, steps: seq<Step>, m: nat, i: nat, key: InstallKey)
    requires Overtakes(known, steps, m, i, key)
    ensures m < |steps| && steps[m].Finish?
  {}

  /** A schedule with a stale end, outcomes that make it write over another sync's write. */
  lemma StaleDiverges(
    start: Installs, steps: seq<Step>, n: nat, first: SyncOutcome, second: SyncOutcome, key: InstallKey,
    maxFailures: u32)
    returns (other: seq<Step>)
    requires Keyed(start) && n < |steps| && TakesStale(Tickets(start.Keys, steps[..n]), steps[n])
    requires key == Tickets(start.Keys, steps[..n])[steps[n].i].value.key
    requires !first.Unresolved? && !second.Unresolved?
    ensures SameSchedule(steps, other) && key in start
    ensures var s := Run(start, other, maxFailures);
            && key in s.installs && key in Replay(start, s.done, maxFailures)
            && s.installs[key] == Written(start[key], second, maxFailures)
            && Replay(start, s.done, maxFailures)[key]
                 == Written(Written(start[key], first, maxFailures), second, maxFailures)
  {
    var i := steps[n].i;
    var m := Overtaker(start.Keys, steps[..n], i);
    other := WritingAt(steps, m, first, n, second);
    RunTracks(start, steps[..n], maxFailures);
    assert steps[..n][..m] == steps[..m];
    assert SameSchedule(steps[..m], other[..m]) && SameSchedule(steps[..n], other[..n]);
    SameTickets(start.Keys, steps[..m], other[..m]);
    SameTickets(start.Keys, steps[..n], other[..n]);
    StaleWrite(start, other, m, n, key, maxFailures);
  }

  // ---- Exactly when ----

  /** Whatever their outcomes, overlapping syncs come to the serial history of their ends iff none of them
      ends stale. */
  lemma SerialIff(start: Installs, steps: seq<Step>, maxFailures: u32)
    requires Keyed(start)
    ensures (forall other :: SameSchedule(steps, other) ==> Serial(start, other, maxFailures))
       <==> NoneStale(start.Keys, steps)
  {
    if NoneStale(start.Keys, steps) {
      forall other | SameSchedule(steps, other) ensures Serial(start, other, maxFailures) {
        NoneStaleSerial(start, steps, other, maxFailures);
      }
    } else {
      var n :| 0 <= n < |steps| && TakesStale(Tickets(start.Keys, steps[..n]), steps[n]);
      var other := StateDiverges(start, steps, n, maxFailures);
      assert SameSchedule(steps, other) && !Serial(start, other, maxFailures);
    }
  }

  lemma NoneStaleSerial(start: Installs, steps: seq<Step>, other: seq<Step>, maxFailures: u32)
    requires Keyed(start) && NoneStale(start.Keys, steps) && SameSchedule(steps, other)
    ensures Serial(start, other, maxFailures)
  {
    SameStale(start.Keys, steps, other);
    NoneStaleUndisturbed(start, other, maxFailures);
    UndisturbedIsSerial(start, other, maxFailures);
  }

  /** Every install's subscriptions state is that of its last success. */
  ghost predicate StatesLast(start: Installs, steps: seq<Step>, maxFailures: u32) {
    var s := Run(start, steps, maxFailures);
    forall key :: key in start ==>
      && key in s.installs
      && s.installs[key].subscriptionsState == LastSynced(s.done, key).GetOr(start[key].subscriptionsState)
  }

  lemma StateDiverges(start: Installs, steps: seq<Step>, n: nat, maxFailures: u32) returns (other: seq<Step>)
    requires Keyed(start) && n < |steps| && TakesStale(Tickets(start.Keys, steps[..n]), steps[n])
    ensures SameSchedule(steps, other)
    ensures !StatesLast(start, other, maxFailures) && !Serial(start, other, maxFailures)
  {
    var key := Tickets(start.Keys, steps[..n])[steps[n].i].value.key;
    RunTracks(start, steps[..n], maxFailures);
    var state := if start[key].subscriptionsState == Null then Value.Bool(true) else Null;
    other := StaleDiverges(start, steps, n, Succeeded(state, ""), Exhausted(""), key, maxFailures);
    HistoryTouchesOnly(start, Run(start, other, maxFailures).done, maxFailures, key);
  }

  /** The subscriptions states are those of the last successes, whatever the outcomes, iff no sync ends stale. */
  lemma StatesLastIff(start: Installs, steps: seq<Step>, maxFailures: u32)
    requires Keyed(start)
    ensures (forall other :: SameSchedule(steps, other) ==> StatesLast(start, other, maxFailures))
       <==> NoneStale(start.Keys, steps)
  {
    if NoneStale(start.Keys, steps) {
      forall other | SameSchedule(steps, other) ensures StatesLast(start, other, maxFailures) {
        var done := Run(start, other, maxFailures).done;
        NoneStaleSerial(start, steps, other, maxFailures);
        forall key | key in start
          ensures key in Replay(start, done, maxFailures)
          ensures Replay(start, done, maxFailures)[key].subscriptionsState
               == LastSynced(done, key).GetOr(start[key].subscriptionsState)
        {
          HistoryTouchesOnly(start, done, maxFailures, key);
        }
      }
    } else {
      var n :| 0 <= n < |steps| && TakesStale(Tickets(start.Keys, steps[..n]), steps[n]);
      var other := StateDiverges(start, steps, n, maxFailures);
      assert SameSchedule(steps, other) && !StatesLast(start, other, maxFailures);
    }
  }

  /** Every install's failure count and latch are those of its failed syncs since its last success. */
  ghost predicate FailuresCounted(start: Installs, steps: seq<Step>, maxFailures: u32) {
    var s := Run(start, steps, maxFailures);
    forall key :: key in start ==>
      && key in s.installs
      && ReadState(s.installs[key].metadata) == StateAfter(ReadState(start[key].metadata), s.done, key, maxFailures)
  }

  /** With a count at the start, a forgotten success shows; without one, a forgotten failure does. */
  lemma CountDiverges(start: Installs, steps: seq<Step>, n: nat, maxFailures: u32) returns (other: seq<Step>)
    requires Keyed(start) && n < |steps| && TakesStale(Tickets(start.Keys, steps[..n]), steps[n])
    ensures SameSchedule(steps, other) && !FailuresCounted(start, other, maxFailures)
  {
    var key := Tickets(start.Keys, steps[..n])[steps[n].i].value.key;
    RunTracks(start, steps[..n], maxFailures);
    var counted := ReadState(start[key].metadata).failures > 0;
    var first := if counted then Succeeded(Null, "") else Exhausted("");
    other := StaleDiverges(start, steps, n, first, Exhausted(""), key, maxFailures);
    FailureStateTracks(start, Run(start, other, maxFailures).done, maxFailures, key);
    TwoWritesCount(start[key], first, maxFailures);
  }

  lemma TwoWritesCount(record: InstallRecord, first: SyncOutcome, maxFailures: u32)
    requires !first.Unresolved? && (first.Succeeded? <==> ReadState(record.metadata).failures > 0)
    ensures ReadState(Written(record, Exhausted(""), maxFailures).metadata).failures
         != ReadState(Written(Written(record, first, maxFailures), Exhausted(""), maxFailures).metadata).failures
  {
    WrittenState(record, first, maxFailures);
    WrittenState(record, Exhausted(""), maxFailures);
    WrittenState(Written(record, first, maxFailures), Exhausted(""), maxFailures);
  }

  lemma WrittenState(record: InstallRecord, outcome: SyncOutcome, maxFailures: u32)
    requires !outcome.Unresolved?
    ensures ReadState(Written(record, outcome, maxFailures).metadata)
         == if outcome.Succeeded? then CLEAN else AfterFailure(ReadState(record.metadata), maxFailures)
  {
    if outcome.Succeeded? {
      MetadataRoundTrip(record.metadata, outcome.now, 0, false);
    } else {
      var after := AfterFailure(ReadState(record.metadata), maxFailures);
      MetadataRoundTrip(record.metadata, "unknown", after.failures, after.degraded);
    }
  }

  /** Failures are counted as in serial runs, whatever the outcomes, iff no sync ends stale. */
  lemma FailuresCountedIff(start: Installs, steps: seq<Step>, maxFailures: u32)
    requires Keyed(start)
    ensures (forall other :: SameSchedule(steps, other) ==> FailuresCounted(start, other, maxFailures))
       <==> NoneStale(start.Keys, steps)
  {
    if NoneStale(start.Keys, steps) {
      forall other | SameSchedule(steps, other) ensures FailuresCounted(start, other, maxFailures) {
        var done := Run(start, other, maxFailures).done;
        NoneStaleSerial(start, steps, other, maxFailures);
        forall key | key in start
          ensures key in Replay(start, done, maxFailures)
          ensures ReadState(Replay(start, done, maxFailures)[key].metadata)
               == StateAfter(ReadState(start[key].metadata), done, key, maxFailures)
        {
          FailureStateTracks(start, done, maxFailures, key);
        }
      }
    } else {
      var n :| 0 <= n < |steps| && TakesStale(Tickets(start.Keys, steps[..n]), steps[n]);
      var other := CountDiverges(start, steps, n, maxFailures);
      assert SameSchedule(steps, other) && !FailuresCounted(start, other, maxFailures);
    }
  }
}
