/** What one publish does, said without saying how: the provider calls it makes and the result it
    returns (`src/bus.rs`). The sequential bus and the interleaved one are both held to it. */
module Delivery {
  import opened Wrappers
  import opened Backoff
  import opened Routing

  const IDEMPOTENCY_KEY := "idempotency_key"
  const DLQ_REASON := "dlq_reason"

  datatype Response = Delivered | Refused(message: string)

  /** One call of a provider's `publish`. */
  datatype Call = Call(provider: nat, event: Event, response: Response)

  datatype BusError =
    | NoProvider(topic: string)
    | AclDenied(tenant: string, topic: string, operation: string)
    | Duplicate(key: string)
    | DeliveryFailed(provider: string, reason: string)

  datatype PublishResult = Published | Failed(error: BusError)

  /** The immutable part of a bus. */
  datatype BusConfig = BusConfig(providers: seq<Registration>, acl: Acl)

  /** A finished publish: the answers to its attempts, the answer to its dead letter, its result. */
  datatype PublishRun = PublishRun(answers: seq<Response>, dlq: Option<Response>, result: PublishResult)

  // ---- Idempotency keys ----

  function Compose(tenant: string, key: string): string { tenant + ":" + key }

  function KeyOf(event: Event): Option<string> {
    if IDEMPOTENCY_KEY in event.metadata then Some(Compose(event.tenant, event.metadata[IDEMPOTENCY_KEY])) else None
  }

  lemma ColonInLonger(t1: string, k1: string, t2: string, k2: string)
    requires Compose(t1, k1) == Compose(t2, k2) && |t1| < |t2|
    ensures ':' in t2
  {
    assert Compose(t1, k1)[|t1|] == ':';
    assert t2[|t1|] == Compose(t2, k2)[|t1|];
  }

  /** Publishes of different tenants never share a key, as long as no tenant name holds a colon. */
  lemma ComposeInjective(t1: string, k1: string, t2: string, k2: string)
    requires ':' !in t1 && ':' !in t2
    requires Compose(t1, k1) == Compose(t2, k2)
    ensures t1 == t2 && k1 == k2
  {
    if |t1| < |t2| {
      ColonInLonger(t1, k1, t2, k2);
      assert false;
    }
    if |t2| < |t1| {
      ColonInLonger(t2, k2, t1, k1);
      assert false;
    }
    assert t1 == Compose(t1, k1)[..|t1|] && k1 == Compose(t1, k1)[|t1| + 1..];
    assert t2 == Compose(t2, k2)[..|t2|] && k2 == Compose(t2, k2)[|t2| + 1..];
  }

  /** Exactly which tenants can suppress each other's publishes: those where one name continues the
      other behind a colon. */
  lemma TenantsCollideIff(t1: string, t2: string)
    ensures (exists k1, k2 :: Compose(t1, k1) == Compose(t2, k2)) <==> t1 == t2 || t1 + ":" <= t2 || t2 + ":" <= t1
  {
    if t1 == t2 {
      assert Compose(t1, "") == Compose(t2, "");
    } else if t1 + ":" <= t2 {
      assert Compose(t1, t2[|t1| + 1..] + ":") == Compose(t2, "");
    } else if t2 + ":" <= t1 {
      assert Compose(t2, t1[|t2| + 1..] + ":") == Compose(t1, "");
    }
    forall k1, k2 | Compose(t1, k1) == Compose(t2, k2)
      ensures t1 == t2 || t1 + ":" <= t2 || t2 + ":" <= t1
    {
      var c, d := Compose(t1, k1), Compose(t2, k2);
      assert t1 + ":" == c[..|t1| + 1] && t2 + ":" == d[..|t2| + 1];
      if |t1| == |t2| {
        assert t1 == c[..|t1|] && t2 == d[..|t2|];
      }
    }
  }

  /** What makes two publishes the same, on the events themselves: the same tenant and the same key. */
  lemma SameKeyIff(a: Event, b: Event)
    ensures KeyOf(a).Some? <==> "idempotency_key" in a.metadata
    ensures "idempotency_key" in a.metadata && "idempotency_key" in b.metadata && ':' !in a.tenant &&
              ':' !in b.tenant ==>
              (KeyOf(a) == KeyOf(b) <==>
                 && a.tenant == b.tenant
                 && a.metadata["idempotency_key"] == b.metadata["idempotency_key"])
  {
    if KeyOf(a).Some? && KeyOf(a) == KeyOf(b) && ':' !in a.tenant && ':' !in b.tenant {
      ComposeInjective(a.tenant, a.metadata["idempotency_key"], b.tenant, b.metadata["idempotency_key"]);
    }
  }

  // ---- The retry loop ----

  ghost predicate KeepsTrying(policy: RetryPolicy, answers: seq<Response>) {
    forall k :: 0 <= k < |answers| ==> answers[k].Refused? && IsRetryable(policy, answers[k].message)
  }

  ghost predicate Terminal(policy: RetryPolicy, calls: nat, answer: Response) {
    answer.Delivered? || !IsRetryable(policy, answer.message) || calls == policy.maxRetries + 1
  }

  /** The attempts of one publish: retryable refusals up to the first success, the first refusal
      that is not retryable, or the end of the budget. */
  ghost predicate RetryRun(policy: RetryPolicy, answers: seq<Response>) {
    && 1 <= |answers| <= policy.maxRetries + 1
    && KeepsTrying(policy, answers[..|answers| - 1])
    && Terminal(policy, |answers|, answers[|answers| - 1])
  }

  lemma RefusedBeforeLast(policy: RetryPolicy, answers: seq<Response>, k: nat)
    requires RetryRun(policy, answers) && k < |answers| - 1
    ensures answers[k].Refused? && !Terminal(policy, k + 1, answers[k])
  {
    assert answers[..|answers| - 1][k] == answers[k];
  }

  /** One more retryable refusal within the budget keeps the loop going; any other answer ends it. */
  lemma RetryStep(policy: RetryPolicy, answers: seq<Response>, answer: Response)
    requires KeepsTrying(policy, answers) && |answers| <= policy.maxRetries
    ensures Terminal(policy, |answers| + 1, answer) ==> RetryRun(policy, answers + [answer])
    ensures !Terminal(policy, |answers| + 1, answer) ==> KeepsTrying(policy, answers + [answer])
  {
    assert (answers + [answer])[..|answers|] == answers;
  }

  /** The answers a provider gives decide how often it is asked. */
  lemma RetryRunUnique(policy: RetryPolicy, shorter: seq<Response>, longer: seq<Response>)
    requires RetryRun(policy, shorter) && RetryRun(policy, longer) && shorter <= longer
    ensures shorter == longer
  {
    if |shorter| < |longer| {
      RefusedBeforeLast(policy, longer, |shorter| - 1);
      assert false;
    }
  }

  /** The provider is called again exactly after a refusal that calls for a retry, within the budget. */
  ghost predicate CalledAgain(policy: RetryPolicy, answers: seq<Response>, k: nat)
    requires k < |answers|
  {
    k + 1 < |answers| <==> answers[k].Refused? && Mentions(policy, answers[k].message) && k < policy.maxRetries
  }

  lemma RetryRunIff(policy: RetryPolicy, answers: seq<Response>)
    ensures RetryRun(policy, answers) <==>
              answers != [] && forall k :: 0 <= k < |answers| ==> CalledAgain(policy, answers, k)
  {
    if answers != [] {
      var n := |answers| - 1;
      forall k | 0 <= k < |answers| ensures k < n ==> answers[..n][k] == answers[k]
        ensures answers[k].Refused? ==>
                  (IsRetryable(policy, answers[k].message) <==> Mentions(policy, answers[k].message))
      {
        if answers[k].Refused? {
          RetryableIff(policy, answers[k].message);
        }
      }
      if forall k :: 0 <= k < |answers| ==> CalledAgain(policy, answers, k) {
        assert CalledAgain(policy, answers, n);
        assert n > 0 ==> CalledAgain(policy, answers, n - 1);
        forall k | 0 <= k < n ensures answers[..n][k].Refused? && IsRetryable(policy, answers[..n][k].message) {
          assert CalledAgain(policy, answers, k);
        }
      }
      if RetryRun(policy, answers) {
        forall k | 0 <= k < |answers| ensures CalledAgain(policy, answers, k) {
          if k < n {
            RefusedBeforeLast(policy, answers, k);
          }
        }
      }
    }
  }

  function DlqEvent(reg: Registration, event: Event, reason: string): Event {
    event.(topic := reg.dlqTopic.GetOr(event.topic + ".dlq"), metadata := event.metadata[DLQ_REASON := reason])
  }

  // ---- A whole publish ----

  predicate Keyed(event: Event, unseen: bool) { KeyOf(event).None? || unseen }

  /** Past the key guard: the attempts, and a dead letter exactly when the last of them was refused. */
  ghost predicate SentOk(reg: Registration, run: PublishRun) {
    && RetryRun(reg.retry, run.answers)
    && match run.answers[|run.answers| - 1]
       case Delivered => run.dlq.None? && run.result == Published
       case Refused(reason) => run.dlq.Some? && run.result == Failed(DeliveryFailed(reg.name, reason))
  }

  ghost predicate RunOk(bus: BusConfig, event: Event, unseen: bool, run: PublishRun) {
    if !AllowPublish(bus.acl, event.tenant, event.topic) then
      run == PublishRun([], None, Failed(AclDenied(event.tenant, event.topic, "publish")))
    else
      match ProviderForTopic(bus.providers, event.topic)
      case None => run == PublishRun([], None, Failed(NoProvider(event.topic)))
      case Some(p) =>
        if KeyOf(event).Some? && !unseen then
          run == PublishRun([], None, Failed(Duplicate(KeyOf(event).value)))
        else
          SentOk(bus.providers[p], run)
  }

  ghost function AttemptCalls(p: nat, event: Event, answers: seq<Response>): (calls: seq<Call>) {
    seq(|answers|, k requires 0 <= k < |answers| => Call(p, event, answers[k]))
  }

  lemma AttemptCallsAppend(p: nat, event: Event, answers: seq<Response>, answer: Response)
    ensures AttemptCalls(p, event, answers + [answer]) == AttemptCalls(p, event, answers) + [Call(p, event, answer)]
  {}

  ghost function DlqCalls(
    bus: BusConfig, p: nat, event: Event, answers: seq<Response>, dlq: Option<Response>): seq<Call>
  {
    if p < |bus.providers| && dlq.Some? && answers != [] && answers[|answers| - 1].Refused? then
      [Call(p, DlqEvent(bus.providers[p], event, answers[|answers| - 1].message), dlq.value)]
    else
      []
  }

  /** Every provider call of a publish, in order: its attempts, then its dead letter. */
  ghost function CallsOf(bus: BusConfig, event: Event, answers: seq<Response>, dlq: Option<Response>): seq<Call> {
    match ProviderForTopic(bus.providers, event.topic)
    case None => []
    case Some(p) => SentCalls(bus, p, event, answers, dlq)
  }

  ghost function SentCalls(
    bus: BusConfig, p: nat, event: Event, answers: seq<Response>, dlq: Option<Response>): seq<Call>
  {
    AttemptCalls(p, event, answers) + DlqCalls(bus, p, event, answers, dlq)
  }

  /** The provider a subscription goes to, or why it is refused. */
  function SubscribeRoute(bus: BusConfig, tenant: string, topic: string): Result<nat, BusError> {
    if !AllowSubscribe(bus.acl, tenant, topic) then Err(AclDenied(tenant, topic, "subscribe"))
    else
      match ProviderForTopic(bus.providers, topic)
      case None => Err(NoProvider(topic))
      case Some(p) => Ok(p)
  }

  /** Access control and routing let the event in. */
  predicate Admitted(bus: BusConfig, event: Event) {
    && AllowPublish(bus.acl, event.tenant, event.topic)
    && exists i :: 0 <= i < |bus.providers| && bus.providers[i].Serves(event.topic)
  }

  // ---- What a run means for the four counters and the key set ----

  /** An event counts as in, and its key is recorded, iff it is admitted; each admitted event ends as
      published, as a duplicate, or as failed and dead-lettered. */
  lemma CountedMeans(bus: BusConfig, event: Event, unseen: bool, run: PublishRun)
    requires RunOk(bus, event, unseen, run)
    ensures ReachedBus(run.result) <==> Admitted(bus, event)
    ensures LostDelivery(run.result) <==> run.dlq.Some?
    ensures WasDuplicate(run.result) <==> Admitted(bus, event) && "idempotency_key" in event.metadata && !unseen
  {
    RouteIsFirst(bus.providers, event.topic);
  }

  predicate ReachedBus(result: PublishResult) {
    result.Published? || result.error.Duplicate? || result.error.DeliveryFailed?
  }

  predicate LostDelivery(result: PublishResult) { result.Failed? && result.error.DeliveryFailed? }

  predicate WasDuplicate(result: PublishResult) { result.Failed? && result.error.Duplicate? }

  /** What a publish returns, from the access list, the route, the key and the last answer. */
  lemma ResultMeans(bus: BusConfig, event: Event, unseen: bool, run: PublishRun)
    requires RunOk(bus, event, unseen, run)
    ensures var allowed := AllowPublish(bus.acl, event.tenant, event.topic);
            var route := ProviderForTopic(bus.providers, event.topic);
            var duplicate := "idempotency_key" in event.metadata && !unseen;
            if !allowed then run.result == Failed(AclDenied(event.tenant, event.topic, "publish"))
            else if route.None? then run.result == Failed(NoProvider(event.topic))
            else if duplicate then
              run.result == Failed(Duplicate(event.tenant + ":" + event.metadata["idempotency_key"]))
            else
              && run.answers != []
              && (run.answers[|run.answers| - 1] == Delivered ==> run.result == Published && run.dlq == None)
              && (forall reason :: run.answers[|run.answers| - 1] == Refused(reason) ==>
                    run.result == Failed(DeliveryFailed(bus.providers[route.value].name, reason)) && run.dlq.Some?)
    ensures run.answers == [] ==> run.dlq == None
  {}

  /** What a publish sends: the event itself for every answer to an attempt, then at most a dead letter. */
  lemma CallsMean(bus: BusConfig, event: Event, unseen: bool, run: PublishRun)
    requires RunOk(bus, event, unseen, run)
    ensures var calls, n := CallsOf(bus, event, run.answers, run.dlq), |run.answers|;
            && |calls| == n + (if run.dlq.Some? then 1 else 0)
            && (forall k :: 0 <= k < n ==> calls[k].event == event && calls[k].response == run.answers[k])
            && (run.dlq.Some? ==> calls[n].response == run.dlq.value)
  {}

  /** A subscription goes to the first provider serving its topic, if access control admits it. */
  lemma SubscribeRouteIff(bus: BusConfig, tenant: string, topic: string)
    ensures forall p: nat :: SubscribeRoute(bus, tenant, topic) == Ok(p) <==>
              AllowSubscribe(bus.acl, tenant, topic) && FirstProvider(bus.providers, topic, p)
    ensures SubscribeRoute(bus, tenant, topic) == Err(AclDenied(tenant, topic, "subscribe")) <==>
              !AllowSubscribe(bus.acl, tenant, topic)
    ensures SubscribeRoute(bus, tenant, topic) == Err(NoProvider(topic)) <==>
              && AllowSubscribe(bus.acl, tenant, topic)
              && forall i :: 0 <= i < |bus.providers| ==> !bus.providers[i].Serves(topic)
  {
    RouteIsFirst(bus.providers, topic);
  }

  /** Only the last call of a publish, its dead letter included, can succeed. */
  lemma OneDeliveryPerRun(bus: BusConfig, event: Event, unseen: bool, run: PublishRun)
    requires RunOk(bus, event, unseen, run)
    ensures var calls := CallsOf(bus, event, run.answers, run.dlq);
            forall a :: 0 <= a < |calls| - 1 ==> calls[a].response.Refused?
  {
    var calls := CallsOf(bus, event, run.answers, run.dlq);
    forall a | 0 <= a < |calls| - 1 ensures calls[a].response.Refused? {
      if a < |run.answers| - 1 {
        RefusedBeforeLast(bus.providers[calls[a].provider].retry, run.answers, a);
      }
    }
  }

  /** No provider is called for a publish that access control, routing or the key guard stops; every
      call of any other goes to the first provider that serves the event's own topic. */
  lemma CallsAreRouted(bus: BusConfig, event: Event, unseen: bool, run: PublishRun)
    requires RunOk(bus, event, unseen, run)
    ensures CallsOf(bus, event, run.answers, run.dlq) != [] <==>
              && AllowPublish(bus.acl, event.tenant, event.topic)
              && ProviderForTopic(bus.providers, event.topic).Some?
              && Keyed(event, unseen)
    ensures forall k :: 0 <= k < |CallsOf(bus, event, run.answers, run.dlq)| ==>
              FirstProvider(bus.providers, event.topic, CallsOf(bus, event, run.answers, run.dlq)[k].provider)
  {
    RouteIsFirst(bus.providers, event.topic);
  }

  /** A failed publish says why three times over: its last attempt's refusal, its error and its dead
      letter all carry the same reason, and the dead letter changes nothing else but the topic. */
  lemma DeadLetterCarriesReason(bus: BusConfig, event: Event, unseen: bool, run: PublishRun)
    requires RunOk(bus, event, unseen, run) && LostDelivery(run.result)
    ensures var calls, n, reason := CallsOf(bus, event, run.answers, run.dlq), |run.answers|, run.result.error.reason;
            && |calls| == n + 1
            && calls[n - 1].event == event && calls[n - 1].response == Refused(reason)
            && var letter := calls[n].event;
               && letter.metadata.Keys == event.metadata.Keys + {DLQ_REASON} && letter.metadata[DLQ_REASON] == reason
               && letter.metadata.Keys == event.metadata.Keys + {"dlq_reason"} &&
                   letter.metadata["dlq_reason"] == reason
               && (forall key :: key in event.metadata && key != DLQ_REASON ==>
                   letter.metadata[key] == event.metadata[key])
               && letter.(topic := event.topic, metadata := event.metadata) == event
               && calls[n].provider == calls[n - 1].provider < |bus.providers|
               && var configured := bus.providers[calls[n].provider].dlqTopic;
                  letter.topic == if configured.Some? then configured.value else event.topic + ".dlq"
  {
    RouteIsFirst(bus.providers, event.topic);
  }
}
