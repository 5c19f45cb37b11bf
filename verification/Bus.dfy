/** The event bus as one publisher at a time sees it (`src/bus.rs`), with the key store
    (`src/idempotency.rs`) and the counters (`src/metrics.rs`) that buses may share. */
module Bus {
  import opened Wrappers
  import opened Backoff
  import opened Routing
  import opened Delivery

  class InMemoryIdempotencyStore {
    var seen: set<string>

    constructor ()
      ensures seen == {}
    {
      seen := {};
    }

    /** True iff the key is new; afterwards it is not. */
    method RecordKey(key: string) returns (newly: bool)
      modifies this
      ensures newly == (key !in old(seen))
      ensures seen == old(seen) + {key}
    {
      newly := key !in seen;
      seen := seen + {key};
    }
  }

  class EventMetrics {
    var eventsIn: nat
    var eventsOut: nat
    var eventsFailed: nat
    var eventsDlq: nat

    constructor ()
      ensures Counters() == (0, 0, 0, 0)
    {
      eventsIn, eventsOut, eventsFailed, eventsDlq := 0, 0, 0, 0;
    }

    ghost function Counters(): (nat, nat, nat, nat)
      reads this
    {
      (eventsIn, eventsOut, eventsFailed, eventsDlq)
    }

    method RecordIn()
      modifies this`eventsIn
      ensures eventsIn == old(eventsIn) + 1
    {
      eventsIn := eventsIn + 1;
    }

    method RecordOut()
      modifies this`eventsOut
      ensures eventsOut == old(eventsOut) + 1
    {
      eventsOut := eventsOut + 1;
    }

    method RecordFailed()
      modifies this`eventsFailed
      ensures eventsFailed == old(eventsFailed) + 1
    {
      eventsFailed := eventsFailed + 1;
    }

    method RecordDlq()
      modifies this`eventsDlq
      ensures eventsDlq == old(eventsDlq) + 1
    {
      eventsDlq := eventsDlq + 1;
    }
  }

  lemma NoneYet(before: seq<Call>, p: nat, event: Event, policy: RetryPolicy)
    ensures before + AttemptCalls(p, event, []) == before && MayWait(policy, []) && Sum([]) == 0
  {}

  lemma CallsStep(before: seq<Call>, p: nat, event: Event, answers: seq<Response>, answer: Response)
    ensures before + AttemptCalls(p, event, answers) + [Call(p, event, answer)]
         == before + AttemptCalls(p, event, answers + [answer])
  {
    AttemptCallsAppend(p, event, answers, answer);
  }

  class EventBus {
    const config: BusConfig
    const idempotency: InMemoryIdempotencyStore
    const metrics: EventMetrics
    ghost var calls: seq<Call>  // every provider call made so far
    ghost var slept: nat        // every wait between attempts, added up

    constructor (config: BusConfig, idempotency: InMemoryIdempotencyStore, metrics: EventMetrics)
      ensures this.config == config && this.idempotency == idempotency && this.metrics == metrics
      ensures calls == [] && slept == 0
    {
      this.config, this.idempotency, this.metrics := config, idempotency, metrics;
      calls, slept := [], 0;
    }

    /** Sleeps before a further attempt; `delays` are the waits before it. */
    method Backoff(retry: RetryPolicy, attempt: u32, ghost delays: seq<Duration>) returns (ghost delays': seq<Duration>)
      requires |delays| == attempt - 1 < retry.maxRetries && MayWait(retry, delays)
      modifies this`slept
      ensures |delays'| == attempt && MayWait(retry, delays')
      ensures slept - Sum(delays') == old(slept) - Sum(delays)
    {
      var delay := DelayForAttempt(retry, attempt);
      WaitStep(retry, delays, delay);
      delays' := delays + [delay];
      slept := slept + delay;
    }

    /** `respond(k)` is the provider's answer to attempt k. */
    method PublishWithRetry(p: nat, event: Event, respond: nat -> Response)
      returns (result: Response, ghost answers: seq<Response>, ghost delays: seq<Duration>)
      requires p < |config.providers|
      modifies this`calls, this`slept
      ensures RetryRun(config.providers[p].retry, answers)
      ensures forall k :: 0 <= k < |answers| ==> CalledAgain(config.providers[p].retry, answers, k)
      ensures forall k :: 0 <= k < |answers| ==> answers[k] == respond(k)
      ensures result == answers[|answers| - 1]
      ensures calls == old(calls) + AttemptCalls(p, event, answers)
      ensures |delays| == |answers| - 1 && MayWait(config.providers[p].retry, delays)
      ensures slept == old(slept) + Sum(delays)
    {
      hide CalledAgain, IsRetryable, MayWait, AttemptCalls, Sum;
      var retry := config.providers[p].retry;
      var lastErr: Option<string> := None;
      answers, delays := [], [];
      NoneYet(calls, p, event, retry);
      var attempt: nat := 0;
      while attempt <= retry.maxRetries
        invariant |answers| == |delays| == attempt <= retry.maxRetries
        invariant KeepsTrying(retry, answers)
        invariant forall k :: 0 <= k < |answers| ==> answers[k] == respond(k)
        invariant calls == old(calls) + AttemptCalls(p, event, answers)
        invariant MayWait(retry, delays) && slept == old(slept) + Sum(delays)
        decreases retry.maxRetries - attempt
      {
        var answer := respond(attempt);
        RetryStep(retry, answers, answer);
        CallsStep(old(calls), p, event, answers, answer);
        answers := answers + [answer];
        calls := calls + [Call(p, event, answer)];
        if answer.Delivered? {
          RetryRunIff(retry, answers);
          return Delivered, answers, delays;
        }
        lastErr := Some(answer.message);
        if attempt == retry.maxRetries || !IsRetryable(retry, answer.message) {
          break;
        }
        delays := Backoff(retry, attempt + 1, delays);
        attempt := attempt + 1;
      }
      RetryRunIff(retry, answers);
      result := Refused(lastErr.GetOr("unknown error"));
    }

    /** The dead letter is counted whether or not the provider takes it. */
    method PublishToDlq(p: nat, event: Event, answer: Response)
      modifies this`calls, metrics`eventsDlq
      ensures calls == old(calls) + [Call(p, event, answer)]
      ensures metrics.eventsDlq == old(metrics.eventsDlq) + 1
    {
      calls := calls + [Call(p, event, answer)];
      metrics.RecordDlq();
    }

    /** What follows the key guard: attempts, then the dead letter if they came to nothing.
        `respond(k)` is the provider's answer to attempt k, `dlqAnswer` to the dead letter. */
    method Send(p: nat, event: Event, respond: nat -> Response, dlqAnswer: Response)
      returns (result: PublishResult, ghost run: PublishRun, ghost delays: seq<Duration>)
      requires p < |config.providers|
      modifies this`calls, this`slept, metrics`eventsOut, metrics`eventsFailed, metrics`eventsDlq
      ensures result == run.result && SentOk(config.providers[p], run)
      ensures calls == old(calls) + SentCalls(config, p, event, run.answers, run.dlq)
      ensures forall k :: 0 <= k < |run.answers| ==> run.answers[k] == respond(k)
      ensures run.dlq.Some? ==> run.dlq.value == dlqAnswer
      ensures metrics.eventsOut == old(metrics.eventsOut) + if result.Published? then 1 else 0
      ensures metrics.eventsFailed == old(metrics.eventsFailed) + if LostDelivery(result) then 1 else 0
      ensures metrics.eventsDlq == old(metrics.eventsDlq) + if LostDelivery(result) then 1 else 0
      ensures |delays| == |run.answers| - 1 && MayWait(config.providers[p].retry, delays)
      ensures slept == old(slept) + Sum(delays)
    {
      var reg := config.providers[p];
      ghost var answers;
      var outcome;
      outcome, answers, delays := PublishWithRetry(p, event, respond);
      match outcome {
        case Delivered =>
          metrics.RecordOut();
          result := Published;
          run := PublishRun(answers, None, result);
        case Refused(reason) =>
          metrics.RecordFailed();
          PublishToDlq(p, DlqEvent(reg, event, reason), dlqAnswer);
          result := Failed(DeliveryFailed(reg.name, reason));
          run := PublishRun(answers, Some(dlqAnswer), result);
      }
    }

    method Publish(event: Event, respond: nat -> Response, dlqAnswer: Response)
      returns (result: PublishResult, ghost run: PublishRun, ghost delays: seq<Duration>)
      modifies this, idempotency, metrics
      ensures result == run.result
      ensures RunOk(config, event, KeyOf(event).Some? && KeyOf(event).value !in old(idempotency.seen), run)
      ensures calls == old(calls) + CallsOf(config, event, run.answers, run.dlq)
      ensures forall k :: 0 <= k < |run.answers| ==> run.answers[k] == respond(k)
      ensures run.dlq.Some? ==> run.dlq.value == dlqAnswer
      ensures idempotency.seen ==
              old(idempotency.seen) + if ReachedBus(result) && KeyOf(event).Some? then {KeyOf(event).value} else {}
      ensures idempotency.seen == old(idempotency.seen) +
              if Admitted(config, event) && "idempotency_key" in event.metadata
              then {event.tenant + ":" + event.metadata["idempotency_key"]} else {}
      ensures metrics.eventsIn == old(metrics.eventsIn) + if ReachedBus(result) then 1 else 0
      ensures metrics.eventsIn == old(metrics.eventsIn) + if Admitted(config, event) then 1 else 0
      ensures metrics.eventsOut == old(metrics.eventsOut) + if result.Published? then 1 else 0
      ensures metrics.eventsFailed == old(metrics.eventsFailed) + if LostDelivery(result) then 1 else 0
      ensures metrics.eventsDlq == old(metrics.eventsDlq) + if LostDelivery(result) then 1 else 0
      ensures run.answers == [] ==> delays == []
      ensures run.answers != [] ==>
                && |delays| == |run.answers| - 1
                && MayWait(config.providers[ProviderForTopic(config.providers, event.topic).value].retry, delays)
      ensures slept == old(slept) + Sum(delays)
    {
      RouteIsFirst(config.providers, event.topic);
      delays := [];
      if !AllowPublish(config.acl, event.tenant, event.topic) {
        result := Failed(AclDenied(event.tenant, event.topic, "publish"));
        run := PublishRun([], None, result);
        return;
      }
      var route := ProviderForTopic(config.providers, event.topic);
      if route.None? {
        result := Failed(NoProvider(event.topic));
        run := PublishRun([], None, result);
        return;
      }
      metrics.RecordIn();
      var key := KeyOf(event);
      if key.Some? {
        var newly := idempotency.RecordKey(key.value);
        if !newly {
          result := Failed(Duplicate(key.value));
          run := PublishRun([], None, result);
          return;
        }
      }
      result, run, delays := Send(route.value, event, respond, dlqAnswer);
    }
  }
}
