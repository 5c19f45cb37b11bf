/** The poller behind a broker subscription (`src/runner.rs`, `src/subscription.rs`): it fetches,
    decodes, enqueues on a bounded channel and acknowledges, while the consumer reads from the other
    end and may drop its handle at any time. A schedule is any interleaving of the two with the broker. */
module Subscription {
  import opened Wrappers
  import opened Routing

  const CAPACITY: nat := 64

  datatype AckMode = Manual | Auto

  /** An event as the broker hands it out. Decoding it may fail; how is not part of this model. */
  datatype WireEvent = WireEvent(id: string, body: string)

  type Decoder = WireEvent -> Option<Event>

  /** What `next_event` may return. */
  datatype Fetch = Fetched(event: WireEvent) | Nothing | FetchError

  /** Where the poller stands between two awaits. */
  datatype Task = Polling | Sending(event: Event) | Acking(id: string) | Stopped

  /** The channel is `buffer` and `open`; the other sequences record what has happened. */
  datatype State = State(
    task: Task,
    buffer: seq<Event>,
    open: bool,
    fetched: seq<WireEvent>,
    enqueued: seq<Event>,
    received: seq<Event>,
    acks: seq<string>)

  /** `TaskStep` carries what the broker answers when it polls. A consumer's `Receive` takes the
      oldest event; `Drop` closes the channel and discards what it holds. */
  datatype Action = TaskStep(fetch: Fetch) | Receive | Drop

  const START := State(Polling, [], true, [], [], [], [])

  /** An await that cannot complete, or a reader that finds nothing, leaves the state as it is. */
  function Step(decode: Decoder, mode: AckMode, s: State, action: Action): State {
    match action
    case TaskStep(fetch) =>
      (match s.task
       case Polling =>
         (match fetch
          case Fetched(wire) =>
            var s' := s.(fetched := s.fetched + [wire]);
            (match decode(wire)
             case Some(event) => s'.(task := Sending(event))
             case None => s'.(task := Stopped))
          case Nothing => s
          case FetchError => s.(task := Stopped))
       case Sending(event) =>
         if !s.open then s.(task := Stopped)
         else if |s.buffer| < CAPACITY then
           s.(buffer := s.buffer + [event],
              enqueued := s.enqueued + [event],
              task := if mode == Auto then Acking(event.id) else Polling)
         else s
       case Acking(id) => s.(acks := s.acks + [id], task := Polling)
       case Stopped => s)
    case Receive =>
      if s.open && s.buffer != [] then
        s.(received := s.received + [s.buffer[0]], buffer := s.buffer[1..])
      else s
    case Drop => s.(open := false, buffer := [])
  }

  function Run(decode: Decoder, mode: AckMode, actions: seq<Action>): State {
    if actions == [] then START
    else Step(decode, mode, Run(decode, mode, actions[..|actions| - 1]), actions[|actions| - 1])
  }

  // ---- What every interleaving keeps ----

  /** The decodable events of what was fetched, in order. */
  function Decoded(decode: Decoder, fetched: seq<WireEvent>): seq<Event> {
    if fetched == [] then []
    else
      Decoded(decode, fetched[..|fetched| - 1]) +
      match decode(fetched[|fetched| - 1])
      case Some(event) => [event]
      case None => []
  }

  function Ids(events: seq<Event>): seq<string> {
    seq(|events|, i requires 0 <= i < |events| => events[i].id)
  }

  lemma IdsAppend(events: seq<Event>, event: Event)
    ensures Ids(events + [event]) == Ids(events) + [event.id]
  {}

  /** The one event in the poller's hands. */
  function InHand(s: State): seq<Event> {
    if s.task.Sending? then [s.task.event] else []
  }

  function AckDue(s: State): seq<string> {
    if s.task.Acking? then [s.task.id] else []
  }

  /** While the poller runs, every fetched event decodes and is enqueued or in hand; when it has
      stopped, at most the last fetched event went no further. */
  ghost predicate FetchOk(decode: Decoder, s: State) {
    if s.task.Stopped? then
      && s.enqueued <= Decoded(decode, s.fetched)
      && |s.fetched| <= |s.enqueued| + 1
      && (|Decoded(decode, s.fetched)| > |s.enqueued| ==> !s.open)
    else
      && |Decoded(decode, s.fetched)| == |s.fetched|
      && s.enqueued + InHand(s) == Decoded(decode, s.fetched)
  }

  /** First in, first out: nothing is lost or reordered between the two ends while the handle is held. */
  ghost predicate ChannelOk(s: State) {
    && |s.buffer| <= CAPACITY
    && if s.open then s.received + s.buffer == s.enqueued else s.received <= s.enqueued && s.buffer == []
  }

  /** Acknowledgements follow the enqueued ids, at most one behind. */
  ghost predicate AcksOk(mode: AckMode, s: State) {
    if mode == Auto then s.acks + AckDue(s) == Ids(s.enqueued) else s.acks == [] && !s.task.Acking?
  }

  ghost predicate Inv(decode: Decoder, mode: AckMode, s: State) {
    FetchOk(decode, s) && ChannelOk(s) && AcksOk(mode, s)
  }

  lemma {:induction false} StepKeeps(decode: Decoder, mode: AckMode, s: State, action: Action)
    requires Inv(decode, mode, s)
    ensures Inv(decode, mode, Step(decode, mode, s, action))
  {
    match action
    case TaskStep(fetch) =>
      if s.task.Polling? {
        PollKeeps(decode, mode, s, fetch);
      } else if s.task.Sending? {
        SendKeeps(decode, mode, s, fetch);
      } else if s.task.Acking? {
        AckKeeps(decode, mode, s, fetch);
      }
    case Receive => ReceiveKeeps(decode, mode, s);
    case Drop =>
  }

  lemma PollKeeps(decode: Decoder, mode: AckMode, s: State, fetch: Fetch)
    requires Inv(decode, mode, s) && s.task.Polling?
    ensures Inv(decode, mode, Step(decode, mode, s, TaskStep(fetch)))
  {
    hide Decoded;
    assert s.enqueued + [] == s.enqueued;
    if fetch.Fetched? {
      DecodedStep(decode, s.fetched, fetch.event);
    }
  }

  lemma DecodedStep(decode: Decoder, fetched: seq<WireEvent>, wire: WireEvent)
    ensures Decoded(decode, fetched + [wire]) ==
            if decode(wire).Some? then Decoded(decode, fetched) + [decode(wire).value] else Decoded(decode, fetched)
  {
    assert (fetched + [wire])[..|fetched|] == fetched;
  }

  lemma SendKeeps(decode: Decoder, mode: AckMode, s: State, fetch: Fetch)
    requires Inv(decode, mode, s) && s.task.Sending?
    ensures Inv(decode, mode, Step(decode, mode, s, TaskStep(fetch)))
  {
    var event := s.task.event;
    IdsAppend(s.enqueued, event);
    assert s.received + (s.buffer + [event]) == (s.received + s.buffer) + [event];
    assert s.enqueued + [event] + [] == s.enqueued + [event];
    assert s.acks + [] == s.acks;
  }

  lemma AckKeeps(decode: Decoder, mode: AckMode, s: State, fetch: Fetch)
    requires Inv(decode, mode, s) && s.task.Acking?
    ensures Inv(decode, mode, Step(decode, mode, s, TaskStep(fetch)))
  {
    assert s.acks + [s.task.id] + [] == s.acks + [s.task.id];
  }

  lemma ReceiveKeeps(decode: Decoder, mode: AckMode, s: State)
    requires Inv(decode, mode, s)
    ensures Inv(decode, mode, Step(decode, mode, s, Receive))
  {
    if s.open && s.buffer != [] {
      assert s.buffer == [s.buffer[0]] + s.buffer[1..];
      assert s.received + [s.buffer[0]] + s.buffer[1..] == s.received + s.buffer;
    }
  }

  lemma {:induction false} RunKeeps(decode: Decoder, mode: AckMode, actions: seq<Action>)
    ensures Inv(decode, mode, Run(decode, mode, actions))
  {
    if actions != [] {
      RunKeeps(decode, mode, actions[..|actions| - 1]);
      StepKeeps(decode, mode, Run(decode, mode, actions[..|actions| - 1]), actions[|actions| - 1]);
    }
  }

  // ---- In the terms of the two ends ----

  /** The consumer reads an in-order prefix, gap-free and by position free of repeats, of the decodable
      events fetched; with the handle held, what it has not read yet is in the buffer or in the poller's hands. */
  lemma {:induction false} DeliveredInOrder(decode: Decoder, mode: AckMode, actions: seq<Action>)
    ensures var s := Run(decode, mode, actions);
            && s.received + s.buffer <= Decoded(decode, s.fetched)
            && |s.buffer| <= 64
            && (s.open ==> Decoded(decode, s.fetched) == s.received + s.buffer + InHand(s))
  {
    RunKeeps(decode, mode, actions);
    var s := Run(decode, mode, actions);
    assert s.received + s.buffer <= s.enqueued;
    assert !s.task.Stopped? ==> s.enqueued <= s.enqueued + InHand(s);
  }

  /** Auto mode acknowledges the enqueued events, in order, once each, with at most the last one
      outstanding; manual mode acknowledges nothing. */
  lemma AcksFollowEnqueued(decode: Decoder, mode: AckMode, actions: seq<Action>)
    ensures var s := Run(decode, mode, actions);
            && (mode == Auto ==> s.acks <= Ids(s.enqueued) && |s.enqueued| <= |s.acks| + 1)
            && (mode == Auto && |s.acks| < |s.enqueued| ==> s.task == Acking(s.enqueued[|s.enqueued| - 1].id))
            && (mode == Manual ==> s.acks == [])
  {
    RunKeeps(decode, mode, actions);
    var s := Run(decode, mode, actions);
    if mode == Auto && s.task.Acking? {
      assert (s.acks + [s.task.id])[|s.acks|] == Ids(s.enqueued)[|s.acks|];
    }
  }

  /** A stopped poller has acknowledged exactly what it enqueued, and left at most one fetched event
      neither enqueued nor acknowledged. That one is undecodable, or the handle is gone. */
  lemma StoppedAccounts(decode: Decoder, mode: AckMode, actions: seq<Action>)
    requires Run(decode, mode, actions).task.Stopped?
    ensures var s := Run(decode, mode, actions);
            && (mode == Auto ==> s.acks == Ids(s.enqueued))
            && |s.enqueued| <= |Decoded(decode, s.fetched)| <= |s.fetched| <= |s.enqueued| + 1
            && (|s.fetched| > |s.enqueued| ==> !s.open || decode(s.fetched[|s.fetched| - 1]).None?)
  {
    RunKeeps(decode, mode, actions);
    var s := Run(decode, mode, actions);
    DecodedFits(decode, s.fetched);
    assert s.acks + [] == s.acks;
    if |s.fetched| > |s.enqueued| && s.open && decode(s.fetched[|s.fetched| - 1]).Some? {
      StoppedLast(decode, mode, actions);
    }
  }

  lemma {:induction false} DecodedFits(decode: Decoder, fetched: seq<WireEvent>)
    ensures |Decoded(decode, fetched)| <= |fetched|
    ensures |Decoded(decode, fetched)| == |fetched| ==> forall i :: 0 <= i < |fetched| ==>
              decode(fetched[i]) == Some(Decoded(decode, fetched)[i])
  {
    if fetched != [] {
      DecodedFits(decode, fetched[..|fetched| - 1]);
    }
  }

  /** The poller ends on an undecodable event only if that is the last one it fetched. */
  lemma {:induction false} StoppedLast(decode: Decoder, mode: AckMode, actions: seq<Action>)
    ensures var s := Run(decode, mode, actions);
            s.task.Stopped? && s.open && |s.fetched| > |s.enqueued| ==> decode(s.fetched[|s.fetched| - 1]).None?
  {
    if actions != [] {
      var before := actions[..|actions| - 1];
      StoppedLast(decode, mode, before);
      RunKeeps(decode, mode, before);
    }
  }

  /** At most a full buffer of acknowledged events has not been read; once the handle is dropped, those
      are the acknowledged events that are lost. */
  lemma UnreadAcksBounded(decode: Decoder, mode: AckMode, actions: seq<Action>)
    ensures var s := Run(decode, mode, actions);
            |s.acks| <= |s.enqueued| <= |s.received| + 64
  {
    UnreadBounded(decode, mode, actions);
    RunKeeps(decode, mode, actions);
    var s := Run(decode, mode, actions);
    if mode == Auto {
      assert |s.acks + AckDue(s)| == |Ids(s.enqueued)|;
    }
  }

  lemma {:induction false} UnreadBounded(decode: Decoder, mode: AckMode, actions: seq<Action>)
    ensures var s := Run(decode, mode, actions);
            |s.enqueued| <= |s.received| + CAPACITY
  {
    if actions != [] {
      UnreadBounded(decode, mode, actions[..|actions| - 1]);
      RunKeeps(decode, mode, actions[..|actions| - 1]);
      RunKeeps(decode, mode, actions);
    }
  }

  /** The poller never waits in vain: unless it has stopped or the broker has nothing, it moves, or the
      buffer is full and the next read lets it move. */
  lemma NoDeadlock(decode: Decoder, mode: AckMode, actions: seq<Action>, fetch: Fetch)
    requires var s := Run(decode, mode, actions);
             !s.task.Stopped? && !(s.task.Polling? && fetch.Nothing?)
    ensures var s := Run(decode, mode, actions);
            || Step(decode, mode, s, TaskStep(fetch)).task != s.task
            || Step(decode, mode, s, TaskStep(fetch)).acks != s.acks
            || (|s.buffer| == 64 && var s' := Step(decode, mode, s, Receive);
                  s'.task == s.task && Step(decode, mode, s', TaskStep(fetch)).task != s.task)
  {
    RunKeeps(decode, mode, actions);
  }

  /** An empty poll changes nothing: the poller asks again. */
  lemma EmptyPollGoesOn(decode: Decoder, mode: AckMode, actions: seq<Action>)
    requires Run(decode, mode, actions).task.Polling?
    ensures Run(decode, mode, actions + [TaskStep(Nothing)]) == Run(decode, mode, actions)
  {
    assert (actions + [TaskStep(Nothing)])[..|actions|] == actions;
  }

  /** The steps that end the poller: a failing poll, an event that does not decode, a send after the drop. */
  predicate EndsPolling(decode: Decoder, s: State, action: Action) {
    && action.TaskStep?
    && (|| (s.task.Polling? && action.fetch.FetchError?)
        || (s.task.Polling? && action.fetch.Fetched? && decode(action.fetch.event) == None)
        || (s.task.Sending? && !s.open))
  }

  lemma StopStep(decode: Decoder, mode: AckMode, s: State, action: Action)
    ensures Step(decode, mode, s, action).task.Stopped? <==> s.task.Stopped? || EndsPolling(decode, s, action)
  {}

  ghost predicate EndedAt(decode: Decoder, mode: AckMode, actions: seq<Action>, k: nat)
    requires k < |actions|
  {
    EndsPolling(decode, Run(decode, mode, actions[..k]), actions[k])
  }

  /** The poller has stopped iff one of those steps has been taken, and nothing starts it again. */
  lemma {:induction false} StoppedIff(decode: Decoder, mode: AckMode, actions: seq<Action>)
    ensures Run(decode, mode, actions).task.Stopped? <==>
              exists k :: 0 <= k < |actions| && EndedAt(decode, mode, actions, k)
  {
    hide Step, EndsPolling;
    if actions != [] {
      var n := |actions| - 1;
      var before := actions[..n];
      StoppedIff(decode, mode, before);
      StopStep(decode, mode, Run(decode, mode, before), actions[n]);
      forall k | 0 <= k < n ensures EndedAt(decode, mode, before, k) <==> EndedAt(decode, mode, actions, k) {
        assert before[..k] == actions[..k];
      }
      assert EndedAt(decode, mode, actions, n) <==> EndsPolling(decode, Run(decode, mode, before), actions[n]);
    }
  }

  /** In the terms of the two ends: the handle was dropped, a poll failed, or the last event does not decode. */
  lemma {:induction false} StopReasons(decode: Decoder, mode: AckMode, actions: seq<Action>)
    ensures var s := Run(decode, mode, actions);
            s.task.Stopped? ==>
              || Drop in actions
              || TaskStep(FetchError) in actions
              || (s.fetched != [] && decode(s.fetched[|s.fetched| - 1]) == None)
  {
    if actions != [] {
      var n := |actions| - 1;
      StopReasons(decode, mode, actions[..n]);
      OpenIff(decode, mode, actions[..n]);
      assert actions == actions[..n] + [actions[n]];
    }
  }

  /** The channel is open until the consumer drops its handle. */
  lemma {:induction false} OpenIff(decode: Decoder, mode: AckMode, actions: seq<Action>)
    ensures Run(decode, mode, actions).open <==> Drop !in actions
  {
    if actions != [] {
      var n := |actions| - 1;
      OpenIff(decode, mode, actions[..n]);
      assert actions == actions[..n] + [actions[n]];
    }
  }

  // ---- The channel itself ----

  datatype SendResult = Sent | Full | Closed

  /** The bounded queue between the poller and the subscription handle; each method does to it what the
      step of the same name does to the buffer of the protocol. */
  class SubscriptionChannel {
    var buffer: seq<Event>
    var open: bool

    ghost predicate Valid()
      reads this
    {
      |buffer| <= CAPACITY && (!open ==> buffer == [])
    }

    ghost predicate At(s: State)
      reads this
    {
      s.buffer == buffer && s.open == open
    }

    constructor ()
      ensures Valid() && buffer == [] && open
    {
      buffer, open := [], true;
    }

    /** `Full` is a send that has to wait. */
    method Send(event: Event) returns (result: SendResult)
      requires Valid()
      modifies this
      ensures Valid()
      ensures result == if !old(open) then Closed else if |old(buffer)| < CAPACITY then Sent else Full
      ensures open == old(open) && buffer == if result == Sent then old(buffer) + [event] else old(buffer)
      ensures forall decode: Decoder, mode: AckMode, s: State, fetch: Fetch | old(At(s)) && s.task == Sending(event) ::
                At(Step(decode, mode, s, TaskStep(fetch)))
    {
      if !open {
        result := Closed;
      } else if |buffer| < CAPACITY {
        buffer := buffer + [event];
        result := Sent;
      } else {
        result := Full;
      }
    }

    /** The oldest event; nothing when there is none yet. */
    method Next() returns (event: Option<Event>)
      requires Valid() && open
      modifies this
      ensures Valid() && open
      ensures event.None? ==> old(buffer) == [] == buffer
      ensures event.Some? ==> old(buffer) == [event.value] + buffer
      ensures forall decode: Decoder, mode: AckMode, s: State | old(At(s)) :: At(Step(decode, mode, s, Receive))
    {
      if buffer == [] {
        event := None;
      } else {
        event := Some(buffer[0]);
        buffer := buffer[1..];
      }
    }

    /** Dropping the handle. */
    method Close()
      requires Valid()
      modifies this
      ensures Valid() && !open && buffer == []
      ensures forall decode: Decoder, mode: AckMode, s: State | old(At(s)) :: At(Step(decode, mode, s, Drop))
    {
      buffer, open := [], false;
    }
  }
}
