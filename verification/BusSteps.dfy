/** Any number of publishers interleaved on one bus (`src/bus.rs`). They share the key set and the
    counters; every atomic operation of `publish` is one step, and a schedule says who moves next and
    what a provider answers. A publisher that is never scheduled again is a dropped future. */
module BusSteps {
  import opened Wrappers
  import opened Backoff
  import opened Routing
  import opened Delivery

  /** Where a publisher stands; `p` is its provider, `answers` what its attempts have brought. */
  datatype Phase =
    | Idle
    | Admitted(p: nat)                                             // access and route checked
    | Counted(p: nat)                                              // record_in done, key not yet recorded
    | Trying(p: nat, answers: seq<Response>)                       // past the key guard
    | Accepted(p: nat, answers: seq<Response>)                     // delivered, record_out ahead
    | Exhausted(p: nat, answers: seq<Response>)                    // given up, record_failed ahead
    | Failing(p: nat, answers: seq<Response>)                      // counted as failed, dead letter ahead
    | DeadLettered(p: nat, answers: seq<Response>, dlq: Response)  // dead letter sent, record_dlq ahead
    | Done(run: PublishRun)

  datatype Tagged = Tagged(publisher: nat, call: Call)

  datatype State = State(
    seen: set<string>,
    eventsIn: nat,
    eventsOut: nat,
    eventsFailed: nat,
    eventsDlq: nat,
    phases: seq<Phase>,
    calls: seq<Tagged>)

  datatype Choice = Choice(publisher: nat, answer: Response)

  /** What one step of one publisher does to what is shared. */
  datatype Effect = Effect(
    phase: Phase,
    countIn: nat,
    countOut: nat,
    countFailed: nat,
    countDlq: nat,
    key: set<string>,
    calls: seq<Call>)

  function Quiet(phase: Phase): Effect { Effect(phase, 0, 0, 0, 0, {}, []) }

  ghost predicate AnswersOk(policy: RetryPolicy, phase: Phase) {
    && (phase.Trying? ==> KeepsTrying(policy, phase.answers) && |phase.answers| <= policy.maxRetries)
    && (phase.Accepted? ==> RetryRun(policy, phase.answers) && phase.answers[|phase.answers| - 1].Delivered?)
    && (phase.Exhausted? || phase.Failing? || phase.DeadLettered? ==>
          RetryRun(policy, phase.answers) && phase.answers[|phase.answers| - 1].Refused?)
  }

  /** What a publisher in a phase has behind it. */
  ghost predicate PhaseOk(bus: BusConfig, event: Event, phase: Phase) {
    match phase
    case Idle => true
    case Done(run) => RunOk(bus, event, !WasDuplicate(run.result), run)
    case _ =>
      && AllowPublish(bus.acl, event.tenant, event.topic)
      && ProviderForTopic(bus.providers, event.topic) == Some(phase.p)
      && AnswersOk(bus.providers[phase.p].retry, phase)
  }

  ghost function Advance(
    bus: BusConfig, event: Event, phase: Phase, seen: set<string>, answer: Response): (effect: Effect)
    requires PhaseOk(bus, event, phase)
  {
    match phase
    case Idle =>
      if !AllowPublish(bus.acl, event.tenant, event.topic) then
        Quiet(Done(PublishRun([], None, Failed(AclDenied(event.tenant, event.topic, "publish")))))
      else
        match ProviderForTopic(bus.providers, event.topic) {
          case None => Quiet(Done(PublishRun([], None, Failed(NoProvider(event.topic)))))
          case Some(p) => Quiet(Admitted(p))
        }
    case Admitted(p) => Quiet(Counted(p)).(countIn := 1)
    case Counted(p) =>
      match KeyOf(event) {
        case None => Quiet(Trying(p, []))
        case Some(key) =>
          if key in seen then Quiet(Done(PublishRun([], None, Failed(Duplicate(key)))))
          else Quiet(Trying(p, [])).(key := {key})
      }
    case Trying(p, answers) =>
      var all := answers + [answer];
      var next :=
        if answer.Delivered? then Accepted(p, all)
        else if |answers| == bus.providers[p].retry.maxRetries
             || !IsRetryable(bus.providers[p].retry, answer.message)
        then Exhausted(p, all)
        else Trying(p, all);
      Quiet(next).(calls := [Call(p, event, answer)])
    case Accepted(p, answers) => Quiet(Done(PublishRun(answers, None, Published))).(countOut := 1)
    case Exhausted(p, answers) => Quiet(Failing(p, answers)).(countFailed := 1)
    case Failing(p, answers) =>
      var letter := DlqEvent(bus.providers[p], event, answers[|answers| - 1].message);
      Quiet(DeadLettered(p, answers, answer)).(calls := [Call(p, letter, answer)])
    case DeadLettered(p, answers, dlq) =>
      var error := DeliveryFailed(bus.providers[p].name, answers[|answers| - 1].message);
      Quiet(Done(PublishRun(answers, Some(dlq), Failed(error)))).(countDlq := 1)
    case Done(_) => Quiet(phase)
  }

  function TagAll(i: nat, calls: seq<Call>): seq<Tagged> {
    seq(|calls|, k requires 0 <= k < |calls| => Tagged(i, calls[k]))
  }

  ghost predicate AllOk(bus: BusConfig, jobs: seq<Event>, phases: seq<Phase>) {
    |phases| == |jobs| && forall i :: 0 <= i < |jobs| ==> PhaseOk(bus, jobs[i], phases[i])
  }

  ghost function Step(bus: BusConfig, jobs: seq<Event>, s: State, choice: Choice): (s': State)
    requires AllOk(bus, jobs, s.phases)
    ensures AllOk(bus, jobs, s'.phases)
  {
    if choice.publisher >= |jobs| then s
    else
      var i := choice.publisher;
      var e := Advance(bus, jobs[i], s.phases[i], s.seen, choice.answer);
      AdvanceOk(bus, jobs[i], s.phases[i], s.seen, choice.answer);
      State(
        s.seen + e.key,
        s.eventsIn + e.countIn,
        s.eventsOut + e.countOut,
        s.eventsFailed + e.countFailed,
        s.eventsDlq + e.countDlq,
        s.phases[i := e.phase],
        s.calls + TagAll(i, e.calls))
  }

  /** Publisher i publishes jobs[i]; the key set may already hold keys. */
  function Init(jobs: seq<Event>, seen: set<string>): State {
    State(seen, 0, 0, 0, 0, seq(|jobs|, _ => Idle), [])
  }

  ghost function Run(bus: BusConfig, jobs: seq<Event>, seen: set<string>, schedule: seq<Choice>): (s: State)
    ensures AllOk(bus, jobs, s.phases)
  {
    if schedule == [] then Init(jobs, seen)
    else Step(bus, jobs, Run(bus, jobs, seen, schedule[..|schedule| - 1]), schedule[|schedule| - 1])
  }

  // ---- One publisher ----

  predicate CountedIn(phase: Phase) {
    !phase.Idle? && !phase.Admitted? && (phase.Done? ==> ReachedBus(phase.run.result))
  }
  predicate CountedOut(phase: Phase) { phase.Done? && phase.run.result.Published? }
  predicate CountedFailed(phase: Phase) { LetterPending(phase) || CountedDlq(phase) }
  predicate CountedDlq(phase: Phase) { phase.Done? && LostDelivery(phase.run.result) }
  predicate Suppressed(phase: Phase) { phase.Done? && WasDuplicate(phase.run.result) }
  /** In flight past `record_in`, outcome not yet counted. */
  predicate Unresolved(phase: Phase) { phase.Counted? || phase.Trying? || phase.Accepted? || phase.Exhausted? }
  /** Between `record_failed` and `record_dlq`. */
  predicate LetterPending(phase: Phase) { phase.Failing? || phase.DeadLettered? }
  /** Past the key guard. */
  predicate Passed(phase: Phase) {
    || phase.Trying? || phase.Accepted? || phase.Exhausted?
    || LetterPending(phase) || CountedOut(phase) || CountedDlq(phase)
  }

  ghost function CallsSoFar(bus: BusConfig, event: Event, phase: Phase): seq<Call> {
    match phase
    case Trying(_, answers) => CallsOf(bus, event, answers, None)
    case Accepted(_, answers) => CallsOf(bus, event, answers, None)
    case Exhausted(_, answers) => CallsOf(bus, event, answers, None)
    case Failing(_, answers) => CallsOf(bus, event, answers, None)
    case DeadLettered(_, answers, dlq) => CallsOf(bus, event, answers, Some(dlq))
    case Done(run) => CallsOf(bus, event, run.answers, run.dlq)
    case _ => []
  }

  function Bit(b: bool): nat { if b then 1 else 0 }

  lemma AdvanceOk(bus: BusConfig, event: Event, phase: Phase, seen: set<string>, answer: Response)
    requires PhaseOk(bus, event, phase)
    ensures PhaseOk(bus, event, Advance(bus, event, phase, seen, answer).phase)
  {
    if phase.Trying? {
      RetryStep(bus.providers[phase.p].retry, phase.answers, answer);
      var all := phase.answers + [answer];
      assert all[|all| - 1] == answer;
    }
  }

  lemma AdvanceCounts(bus: BusConfig, event: Event, phase: Phase, seen: set<string>, answer: Response)
    requires PhaseOk(bus, event, phase)
    ensures var e := Advance(bus, event, phase, seen, answer);
            && Bit(CountedIn(e.phase)) == Bit(CountedIn(phase)) + e.countIn
            && Bit(CountedOut(e.phase)) == Bit(CountedOut(phase)) + e.countOut
            && Bit(CountedFailed(e.phase)) == Bit(CountedFailed(phase)) + e.countFailed
            && Bit(CountedDlq(e.phase)) == Bit(CountedDlq(phase)) + e.countDlq
  {}

  /** The guard is passed once, with a key nobody has recorded; afterwards it stays passed. */
  lemma AdvanceKeys(bus: BusConfig, event: Event, phase: Phase, seen: set<string>, answer: Response)
    requires PhaseOk(bus, event, phase)
    ensures var e := Advance(bus, event, phase, seen, answer);
            && (Passed(phase) ==> Passed(e.phase) && e.key == {})
            && (!Passed(phase) && Passed(e.phase) ==>
                  if KeyOf(event).Some? then KeyOf(event).value !in seen && e.key == {KeyOf(event).value}
                  else e.key == {})
            && (!Passed(e.phase) ==> e.key == {})
  {}

  lemma TryingCalls(bus: BusConfig, event: Event, phase: Phase, seen: set<string>, answer: Response)
    requires PhaseOk(bus, event, phase) && phase.Trying?
    ensures var e := Advance(bus, event, phase, seen, answer);
            CallsSoFar(bus, event, e.phase) == CallsSoFar(bus, event, phase) + e.calls
  {
    AttemptCallsAppend(phase.p, event, phase.answers, answer);
  }

  lemma FailingCalls(bus: BusConfig, event: Event, phase: Phase, seen: set<string>, answer: Response)
    requires PhaseOk(bus, event, phase) && phase.Failing?
    ensures var e := Advance(bus, event, phase, seen, answer);
            CallsSoFar(bus, event, e.phase) == CallsSoFar(bus, event, phase) + e.calls
  {
    var calls := AttemptCalls(phase.p, event, phase.answers);
    assert calls + [] == calls;
  }

  lemma {:induction false} AdvanceCalls(bus: BusConfig, event: Event, phase: Phase, seen: set<string>, answer: Response)
    requires PhaseOk(bus, event, phase)
    ensures var e := Advance(bus, event, phase, seen, answer);
            CallsSoFar(bus, event, e.phase) == CallsSoFar(bus, event, phase) + e.calls
  {
    if phase.Trying? {
      TryingCalls(bus, event, phase, seen, answer);
    } else if phase.Failing? {
      FailingCalls(bus, event, phase, seen, answer);
    } else {
      var calls := CallsSoFar(bus, event, phase);
      assert calls + [] == calls;
    }
  }

  // ---- All of them ----

  ghost function Count(phases: seq<Phase>, test: Phase -> bool): nat {
    if phases == [] then 0 else Count(phases[..|phases| - 1], test) + Bit(test(phases[|phases| - 1]))
  }

  lemma {:induction false} CountUpdate(phases: seq<Phase>, i: nat, phase: Phase, test: Phase -> bool)
    requires i < |phases|
    ensures Count(phases[i := phase], test) + Bit(test(phases[i])) == Count(phases, test) + Bit(test(phase))
  {
    var n := |phases|;
    if i == n - 1 {
      assert phases[i := phase][..n - 1] == phases[..n - 1];
    } else {
      CountUpdate(phases[..n - 1], i, phase, test);
      assert phases[i := phase][..n - 1] == phases[..n - 1][i := phase];
    }
  }

  lemma {:induction false} CountNone(phases: seq<Phase>, test: Phase -> bool)
    requires forall i :: 0 <= i < |phases| ==> !test(phases[i])
    ensures Count(phases, test) == 0
  {
    if phases != [] {
      CountNone(phases[..|phases| - 1], test);
    }
  }

  ghost function CallsBy(calls: seq<Tagged>, i: nat): seq<Call> {
    if calls == [] then []
    else
      var last := calls[|calls| - 1];
      CallsBy(calls[..|calls| - 1], i) + if last.publisher == i then [last.call] else []
  }

  lemma CallsByStep(calls: seq<Tagged>, more: seq<Call>, i: nat, j: nat)
    requires |more| <= 1
    ensures CallsBy(calls + TagAll(i, more), j) == CallsBy(calls, j) + if i == j then more else []
  {
    if more == [] {
      assert calls + TagAll(i, more) == calls;
    } else {
      assert (calls + TagAll(i, more))[..|calls|] == calls;
      assert more == [more[0]];
    }
  }

  // ---- Invariants of every run ----

  ghost predicate CountersOk(s: State) {
    && s.eventsIn == Count(s.phases, CountedIn)
    && s.eventsOut == Count(s.phases, CountedOut)
    && s.eventsFailed == Count(s.phases, CountedFailed)
    && s.eventsDlq == Count(s.phases, CountedDlq)
  }

  lemma {:induction false} RunCounters(bus: BusConfig, jobs: seq<Event>, seen: set<string>, schedule: seq<Choice>)
    ensures CountersOk(Run(bus, jobs, seen, schedule))
  {
    if schedule == [] {
      var idle := Init(jobs, seen).phases;
      CountNone(idle, CountedIn);
      CountNone(idle, CountedOut);
      CountNone(idle, CountedFailed);
      CountNone(idle, CountedDlq);
    } else {
      var before, choice := schedule[..|schedule| - 1], schedule[|schedule| - 1];
      RunCounters(bus, jobs, seen, before);
      var s := Run(bus, jobs, seen, before);
      if choice.publisher < |jobs| {
        var i := choice.publisher;
        var e := Advance(bus, jobs[i], s.phases[i], s.seen, choice.answer);
        AdvanceCounts(bus, jobs[i], s.phases[i], s.seen, choice.answer);
        CountUpdate(s.phases, i, e.phase, CountedIn);
        CountUpdate(s.phases, i, e.phase, CountedOut);
        CountUpdate(s.phases, i, e.phase, CountedFailed);
        CountUpdate(s.phases, i, e.phase, CountedDlq);
      }
    }
  }

  ghost predicate CallsOk(bus: BusConfig, jobs: seq<Event>, s: State)
    requires |s.phases| == |jobs|
  {
    && (forall a :: 0 <= a < |s.calls| ==> s.calls[a].publisher < |jobs|)
    && forall i :: 0 <= i < |jobs| ==> CallsBy(s.calls, i) == CallsSoFar(bus, jobs[i], s.phases[i])
  }

  lemma CallsKept(bus: BusConfig, jobs: seq<Event>, s: State, i: nat, phase: Phase, more: seq<Call>)
    requires |s.phases| == |jobs| && CallsOk(bus, jobs, s) && i < |jobs| && |more| <= 1
    requires CallsSoFar(bus, jobs[i], phase) == CallsSoFar(bus, jobs[i], s.phases[i]) + more
    ensures CallsOk(bus, jobs, s.(phases := s.phases[i := phase], calls := s.calls + TagAll(i, more)))
  {
    hide CallsBy, CallsSoFar;
    forall j | 0 <= j < |jobs|
      ensures CallsBy(s.calls + TagAll(i, more), j) == CallsSoFar(bus, jobs[j], s.phases[i := phase][j])
    {
      CallsByStep(s.calls, more, i, j);
    }
  }

  lemma {:induction false} RunCalls(bus: BusConfig, jobs: seq<Event>, seen: set<string>, schedule: seq<Choice>)
    ensures CallsOk(bus, jobs, Run(bus, jobs, seen, schedule))
  {
    if schedule != [] {
      var before, choice := schedule[..|schedule| - 1], schedule[|schedule| - 1];
      RunCalls(bus, jobs, seen, before);
      var s := Run(bus, jobs, seen, before);
      if choice.publisher < |jobs| {
        var i := choice.publisher;
        var e := Advance(bus, jobs[i], s.phases[i], s.seen, choice.answer);
        AdvanceCalls(bus, jobs[i], s.phases[i], s.seen, choice.answer);
        CallsKept(bus, jobs, s, i, e.phase, e.calls);
      }
    }
  }

  ghost predicate Holds(jobs: seq<Event>, phases: seq<Phase>, i: nat, key: string)
    requires |phases| == |jobs|
  {
    i < |jobs| && Passed(phases[i]) && KeyOf(jobs[i]) == Some(key)
  }

  /** Every key is held by at most one publisher, by none if it was there from the start, and the key
      set is what was there plus what is held. */
  ghost predicate KeysOk(jobs: seq<Event>, seen: set<string>, s: State)
    requires |s.phases| == |jobs|
  {
    && (forall i: nat, j: nat, key :: Holds(jobs, s.phases, i, key) && Holds(jobs, s.phases, j, key) ==> i == j)
    && (forall i: nat, key :: Holds(jobs, s.phases, i, key) ==> key !in seen && key in s.seen)
    && (forall key :: key in s.seen ==> key in seen || exists i: nat :: Holds(jobs, s.phases, i, key))
    && seen <= s.seen
  }

  lemma {:induction false} RunKeys(bus: BusConfig, jobs: seq<Event>, seen: set<string>, schedule: seq<Choice>)
    ensures KeysOk(jobs, seen, Run(bus, jobs, seen, schedule))
  {
    if schedule != [] {
      var before, choice := schedule[..|schedule| - 1], schedule[|schedule| - 1];
      RunKeys(bus, jobs, seen, before);
      var s := Run(bus, jobs, seen, before);
      if choice.publisher < |jobs| {
        StepKeys(bus, jobs, seen, s, choice);
      }
    }
  }

  lemma StepKeys(bus: BusConfig, jobs: seq<Event>, seen: set<string>, s: State, choice: Choice)
    requires AllOk(bus, jobs, s.phases) && KeysOk(jobs, seen, s) && choice.publisher < |jobs|
    ensures KeysOk(jobs, seen, Step(bus, jobs, s, choice))
  {
    var i := choice.publisher;
    var e := Advance(bus, jobs[i], s.phases[i], s.seen, choice.answer);
    var s' := Step(bus, jobs, s, choice);
    AdvanceKeys(bus, jobs[i], s.phases[i], s.seen, choice.answer);
    forall j: nat, key
      ensures Holds(jobs, s'.phases, j, key) <==> Holds(jobs, s.phases, j, key) || (j == i && key in e.key)
    {
    }
    forall key | key in s'.seen ensures key in seen || exists j: nat :: Holds(jobs, s'.phases, j, key) {
      if key in e.key {
        assert Holds(jobs, s'.phases, i, key);
      } else if key !in seen {
        var j: nat :| Holds(jobs, s.phases, j, key);
        assert Holds(jobs, s'.phases, j, key);
      }
    }
  }

  // ---- What follows for every schedule ----

  /** One publish counted in is one outcome counted, or still on its way to one. */
  lemma {:induction false} PhasesAddUp(phases: seq<Phase>)
    ensures Count(phases, CountedIn) ==
            Count(phases, CountedOut) + Count(phases, CountedFailed) + Count(phases, Suppressed)
                + Count(phases, Unresolved)
    ensures Count(phases, CountedFailed) == Count(phases, CountedDlq) + Count(phases, LetterPending)
    decreases |phases|
  {
    if phases != [] {
      PhasesAddUp(phases[..|phases| - 1]);
    }
  }

  lemma {:induction false} CountersAddUp(bus: BusConfig, jobs: seq<Event>, seen: set<string>, schedule: seq<Choice>)
    ensures var s := Run(bus, jobs, seen, schedule);
            && s.eventsIn == s.eventsOut + s.eventsFailed + Count(s.phases, Suppressed) + Count(s.phases, Unresolved)
            && s.eventsFailed == s.eventsDlq + Count(s.phases, LetterPending)
  {
    RunCounters(bus, jobs, seen, schedule);
    PhasesAddUp(Run(bus, jobs, seen, schedule).phases);
  }

  /** With nobody in flight, every failure has its dead letter counted and every publish its outcome. */
  lemma QuiescentCounters(bus: BusConfig, jobs: seq<Event>, seen: set<string>, schedule: seq<Choice>)
    requires var s := Run(bus, jobs, seen, schedule);
             forall i :: 0 <= i < |jobs| ==> s.phases[i].Idle? || s.phases[i].Admitted? || s.phases[i].Done?
    ensures var s := Run(bus, jobs, seen, schedule);
            s.eventsDlq == s.eventsFailed && s.eventsIn == s.eventsOut + s.eventsFailed + Count(s.phases, Suppressed)
  {
    var s := Run(bus, jobs, seen, schedule);
    CountersAddUp(bus, jobs, seen, schedule);
    CountNone(s.phases, Unresolved);
    CountNone(s.phases, LetterPending);
  }

  /** Every call was made by a publisher past the guard. */
  lemma CallerPassed(bus: BusConfig, jobs: seq<Event>, s: State, a: nat)
    requires AllOk(bus, jobs, s.phases) && CallsOk(bus, jobs, s) && a < |s.calls|
    ensures Passed(s.phases[s.calls[a].publisher])
  {
    var i := s.calls[a].publisher;
    CallPosition(s.calls, a);
    assert CallsSoFar(bus, jobs[i], s.phases[i]) != [];
  }

  /** A call stands in its publisher's own sequence at the number of calls that publisher made before. */
  lemma {:induction false} CallPosition(calls: seq<Tagged>, a: nat)
    requires a < |calls|
    ensures var i := calls[a].publisher;
            && |CallsBy(calls[..a], i)| < |CallsBy(calls, i)|
            && CallsBy(calls, i)[|CallsBy(calls[..a], i)|] == calls[a].call
    decreases |calls|
  {
    var n := |calls| - 1;
    if a < n {
      CallPosition(calls[..n], a);
      assert calls[..n][..a] == calls[..a];
    }
  }

  /** Any two provider calls for one key, retries and dead letters included, come from one publisher,
      and that publisher recorded a key that was not there before. */
  lemma OnePublisherPerKey(
    bus: BusConfig, jobs: seq<Event>, seen: set<string>, schedule: seq<Choice>, a: nat, b: nat, key: string)
    requires var s := Run(bus, jobs, seen, schedule);
             a < |s.calls| && b < |s.calls|
    requires var s := Run(bus, jobs, seen, schedule);
             && s.calls[a].publisher < |jobs| && KeyOf(jobs[s.calls[a].publisher]) == Some(key)
             && s.calls[b].publisher < |jobs| && KeyOf(jobs[s.calls[b].publisher]) == Some(key)
    ensures var s := Run(bus, jobs, seen, schedule);
            s.calls[a].publisher == s.calls[b].publisher && key !in seen && key in s.seen
  {
    var s := Run(bus, jobs, seen, schedule);
    RunCalls(bus, jobs, seen, schedule);
    RunKeys(bus, jobs, seen, schedule);
    CallerPassed(bus, jobs, s, a);
    CallerPassed(bus, jobs, s, b);
    assert Holds(jobs, s.phases, s.calls[a].publisher, key);
    assert Holds(jobs, s.phases, s.calls[b].publisher, key);
  }

  /** Of a publisher's calls only the last can have succeeded. */
  lemma OnlyLastDelivers(bus: BusConfig, event: Event, phase: Phase, k: nat)
    requires PhaseOk(bus, event, phase) && k < |CallsSoFar(bus, event, phase)| - 1
    ensures CallsSoFar(bus, event, phase)[k].response.Refused?
  {
    if phase.Done? {
      OneDeliveryPerRun(bus, event, !WasDuplicate(phase.run.result), phase.run);
    } else if !phase.Trying? && k < |phase.answers| - 1 {
      RefusedBeforeLast(bus.providers[phase.p].retry, phase.answers, k);
    }
  }

  lemma {:induction false} EarlierCallEarlierPosition(calls: seq<Tagged>, a: nat, b: nat)
    requires a < b < |calls| && calls[a].publisher == calls[b].publisher
    ensures |CallsBy(calls[..a], calls[a].publisher)| < |CallsBy(calls[..b], calls[a].publisher)|
  {
    CallPosition(calls[..b], a);
    assert calls[..b][..a] == calls[..a];
  }

  /** Over the whole run at most one provider call succeeds for a key. */
  lemma AtMostOneDeliveryPerKey(
    bus: BusConfig, jobs: seq<Event>, seen: set<string>, schedule: seq<Choice>, a: nat, b: nat, key: string)
    requires var s := Run(bus, jobs, seen, schedule);
             a < b < |s.calls|
    requires var s := Run(bus, jobs, seen, schedule);
             && s.calls[a].publisher < |jobs| && KeyOf(jobs[s.calls[a].publisher]) == Some(key)
             && s.calls[b].publisher < |jobs| && KeyOf(jobs[s.calls[b].publisher]) == Some(key)
    ensures Run(bus, jobs, seen, schedule).calls[a].call.response.Refused?
  {
    var s := Run(bus, jobs, seen, schedule);
    RunCalls(bus, jobs, seen, schedule);
    OnePublisherPerKey(bus, jobs, seen, schedule, a, b, key);
    var i := s.calls[a].publisher;
    EarlierCallEarlierPosition(s.calls, a, b);
    CallPosition(s.calls, a);
    CallPosition(s.calls, b);
    OnlyLastDelivers(bus, jobs[i], s.phases[i], |CallsBy(s.calls[..a], i)|);
  }

  /** Each publisher that is done, whatever the others did meanwhile, has made the calls and got the
      result of a publish of its own; it was suppressed only if its key was there or is held by another. */
  lemma {:induction false} DoneRefinesPublish(
    bus: BusConfig, jobs: seq<Event>, seen: set<string>, schedule: seq<Choice>, i: nat)
    requires i < |jobs| && Run(bus, jobs, seen, schedule).phases[i].Done?
    ensures var s := Run(bus, jobs, seen, schedule);
            var run := s.phases[i].run;
            && RunOk(bus, jobs[i], !WasDuplicate(run.result), run)
            && CallsBy(s.calls, i) == CallsOf(bus, jobs[i], run.answers, run.dlq)
            && (ReachedBus(run.result) && KeyOf(jobs[i]).Some? ==> KeyOf(jobs[i]).value in s.seen)
            && (WasDuplicate(run.result) ==>
                  && KeyOf(jobs[i]).Some?
                  && var key := KeyOf(jobs[i]).value;
                     key in seen || exists j: nat :: j != i && Holds(jobs, s.phases, j, key))
  {
    RunCalls(bus, jobs, seen, schedule);
    RunKeys(bus, jobs, seen, schedule);
    var s := Run(bus, jobs, seen, schedule);
    var run := s.phases[i].run;
    if ReachedBus(run.result) && KeyOf(jobs[i]).Some? {
      if WasDuplicate(run.result) {
        DuplicateKeyRecorded(bus, jobs, seen, schedule, i);
      } else {
        assert Holds(jobs, s.phases, i, KeyOf(jobs[i]).value);
      }
    }
  }

  /** The same tenant publishing with the same key. */
  predicate SameSubmission(a: Event, b: Event) {
    && "idempotency_key" in a.metadata && "idempotency_key" in b.metadata
    && a.tenant == b.tenant
    && a.metadata["idempotency_key"] == b.metadata["idempotency_key"]
  }

  /** Tenants never suppress each other: as long as no tenant name holds a colon, a publish ends as a
      duplicate only of an earlier publish of the same tenant with the same key, on this bus or before. */
  lemma SuppressedByOwnTenant(bus: BusConfig, jobs: seq<Event>, seen: set<string>, schedule: seq<Choice>, i: nat)
    requires i < |jobs| && forall j :: 0 <= j < |jobs| ==> ':' !in jobs[j].tenant
    requires var phase := Run(bus, jobs, seen, schedule).phases[i];
             phase.Done? && phase.run.result.Failed? && phase.run.result.error.Duplicate?
    ensures "idempotency_key" in jobs[i].metadata
    ensures jobs[i].tenant + ":" + jobs[i].metadata["idempotency_key"] in seen
            || exists j :: 0 <= j < |jobs| && j != i && SameSubmission(jobs[j], jobs[i])
                        && Passed(Run(bus, jobs, seen, schedule).phases[j])
  {
    DoneRefinesPublish(bus, jobs, seen, schedule, i);
    var key := KeyOf(jobs[i]).value;
    if key !in seen {
      var j: nat :| j != i && Holds(jobs, Run(bus, jobs, seen, schedule).phases, j, key);
      SameKeyIff(jobs[j], jobs[i]);
    }
  }

  /** And the same submission is one: two of them are never both let past the key guard. */
  lemma SameSubmissionOnce(bus: BusConfig, jobs: seq<Event>, seen: set<string>, schedule: seq<Choice>, i: nat, j: nat)
    requires i < |jobs| && j < |jobs| && i != j && SameSubmission(jobs[i], jobs[j])
    ensures var s := Run(bus, jobs, seen, schedule); !(Passed(s.phases[i]) && Passed(s.phases[j]))
  {
    RunKeys(bus, jobs, seen, schedule);
    var s := Run(bus, jobs, seen, schedule);
    if Passed(s.phases[i]) && Passed(s.phases[j]) {
      assert Holds(jobs, s.phases, i, KeyOf(jobs[i]).value) && Holds(jobs, s.phases, j, KeyOf(jobs[i]).value);
    }
  }

  lemma {:induction false} DuplicateKeyRecorded(
    bus: BusConfig, jobs: seq<Event>, seen: set<string>, schedule: seq<Choice>, i: nat)
    requires i < |jobs|
    requires Suppressed(Run(bus, jobs, seen, schedule).phases[i])
    ensures KeyOf(jobs[i]).Some? && KeyOf(jobs[i]).value in Run(bus, jobs, seen, schedule).seen
  {
    if schedule != [] {
      var before := schedule[..|schedule| - 1];
      if Suppressed(Run(bus, jobs, seen, before).phases[i]) {
        DuplicateKeyRecorded(bus, jobs, seen, before, i);
      }
    }
  }

  /** A publisher that will never pass the guard: if it is done, it was refused before the bus or
      suppressed as a duplicate. */
  predicate ShutOut(phase: Phase, key: string) {
    && !Passed(phase)
    && (phase.Done? ==>
          && phase.run.result.Failed?
          && if ReachedBus(phase.run.result) then phase.run.result.error == Duplicate(key)
             else phase.run.result.error.AclDenied? || phase.run.result.error.NoProvider?)
  }

  lemma AdvanceShutOut(bus: BusConfig, event: Event, phase: Phase, seen: set<string>, answer: Response, key: string)
    requires PhaseOk(bus, event, phase) && KeyOf(event) == Some(key) && key in seen && !Passed(phase)
    ensures ShutOut(Advance(bus, event, phase, seen, answer).phase, key)
  {}

  lemma NotPassedShutOut(bus: BusConfig, event: Event, phase: Phase, key: string)
    requires PhaseOk(bus, event, phase) && KeyOf(event) == Some(key) && !Passed(phase)
    ensures ShutOut(phase, key)
  {}

  /** Once a key is recorded it stays so, and every publish that has not passed the guard with it ends
      as a duplicate, if it reaches the bus at all, even when the publisher that recorded it failed. */
  lemma {:induction false} LaterPublishIsDuplicate(
    bus: BusConfig, jobs: seq<Event>, seen: set<string>, schedule: seq<Choice>, later: seq<Choice>, i: nat, key: string)
    requires i < |jobs| && KeyOf(jobs[i]) == Some(key)
    requires key in Run(bus, jobs, seen, schedule).seen && !Passed(Run(bus, jobs, seen, schedule).phases[i])
    ensures key in Run(bus, jobs, seen, schedule + later).seen
    ensures ShutOut(Run(bus, jobs, seen, schedule + later).phases[i], key)
    decreases |later|
  {
    if later == [] {
      assert schedule + later == schedule;
      NotPassedShutOut(bus, jobs[i], Run(bus, jobs, seen, schedule).phases[i], key);
    } else {
      var before, choice := later[..|later| - 1], later[|later| - 1];
      LaterPublishIsDuplicate(bus, jobs, seen, schedule, before, i, key);
      assert (schedule + later)[..|schedule + later| - 1] == schedule + before;
      var s := Run(bus, jobs, seen, schedule + before);
      AdvanceShutOut(bus, jobs[i], s.phases[i], s.seen, choice.answer, key);
    }
  }

  lemma PhaseCallRouted(bus: BusConfig, event: Event, phase: Phase, k: nat)
    requires PhaseOk(bus, event, phase) && k < |CallsSoFar(bus, event, phase)|
    ensures AllowPublish(bus.acl, event.tenant, event.topic)
    ensures FirstProvider(bus.providers, event.topic, CallsSoFar(bus, event, phase)[k].provider)
  {
    RouteIsFirst(bus.providers, event.topic);
  }

  /** Every call of every run goes to the first provider serving the event's own topic, for an event
      that access control admits. */
  lemma CallsAdmittedAndRouted(bus: BusConfig, jobs: seq<Event>, seen: set<string>, schedule: seq<Choice>, a: nat)
    requires a < |Run(bus, jobs, seen, schedule).calls|
    ensures var s := Run(bus, jobs, seen, schedule);
            && s.calls[a].publisher < |jobs|
            && var event := jobs[s.calls[a].publisher];
               && AllowPublish(bus.acl, event.tenant, event.topic)
               && FirstProvider(bus.providers, event.topic, s.calls[a].call.provider)
  {
    RunCalls(bus, jobs, seen, schedule);
    var s := Run(bus, jobs, seen, schedule);
    var i := s.calls[a].publisher;
    CallPosition(s.calls, a);
    PhaseCallRouted(bus, jobs[i], s.phases[i], |CallsBy(s.calls[..a], i)|);
  }

  // ---- A publisher that keeps being scheduled finishes ----

  function Turns(schedule: seq<Choice>, i: nat): nat {
    if schedule == [] then 0
    else Turns(schedule[..|schedule| - 1], i) + Bit(schedule[|schedule| - 1].publisher == i)
  }

  /** A publisher's turns are the choices that name it. */
  lemma TurnsMean(schedule: seq<Choice>, choice: Choice, i: nat)
    ensures Turns([], i) == 0
    ensures Turns(schedule + [choice], i) == Turns(schedule, i) + if choice.publisher == i then 1 else 0
  {
    assert (schedule + [choice])[..|schedule|] == schedule;
  }

  function Budget(bus: BusConfig, event: Event): nat {
    match ProviderForTopic(bus.providers, event.topic)
    case None => 0
    case Some(p) => bus.providers[p].retry.maxRetries
  }

  /** Steps a publisher may still need. */
  ghost function Remaining(bus: BusConfig, event: Event, phase: Phase): int {
    var m := Budget(bus, event);
    match phase
    case Idle => m + 8
    case Admitted(_) => m + 7
    case Counted(_) => m + 6
    case Trying(_, answers) => m + 5 - |answers|
    case Exhausted(_, _) => 3
    case Failing(_, _) => 2
    case DeadLettered(_, _, _) => 1
    case Accepted(_, _) => 1
    case Done(_) => 0
  }

  /** Whatever the providers answer and the others do, `max_retries + 8` turns finish a publish. */
  lemma {:induction false} EnoughTurnsFinish(
    bus: BusConfig, jobs: seq<Event>, seen: set<string>, schedule: seq<Choice>, i: nat)
    requires i < |jobs| && Turns(schedule, i) >= Budget(bus, jobs[i]) + 8
    ensures Run(bus, jobs, seen, schedule).phases[i].Done?
  {
    TurnsSpent(bus, jobs, seen, schedule, i);
  }

  lemma AdvanceSpends(bus: BusConfig, event: Event, phase: Phase, seen: set<string>, answer: Response)
    requires PhaseOk(bus, event, phase)
    ensures var after := Advance(bus, event, phase, seen, answer).phase;
            after.Done? || Remaining(bus, event, after) < Remaining(bus, event, phase)
    ensures !phase.Done? ==> Remaining(bus, event, phase) >= 1
  {}

  lemma {:induction false} TurnsSpent(
    bus: BusConfig, jobs: seq<Event>, seen: set<string>, schedule: seq<Choice>, i: nat)
    requires i < |jobs|
    ensures var phase := Run(bus, jobs, seen, schedule).phases[i];
            phase.Done? || (Remaining(bus, jobs[i], phase) >= 1 &&
                            Turns(schedule, i) + Remaining(bus, jobs[i], phase) <= Budget(bus, jobs[i]) + 8)
  {
    if schedule != [] {
      var before, choice := schedule[..|schedule| - 1], schedule[|schedule| - 1];
      TurnsSpent(bus, jobs, seen, before, i);
      var s := Run(bus, jobs, seen, before);
      AdvanceSpends(bus, jobs[i], s.phases[i], s.seen, choice.answer);
      AdvanceSpends(bus, jobs[i], Run(bus, jobs, seen, schedule).phases[i], {}, choice.answer);
    }
  }
}
