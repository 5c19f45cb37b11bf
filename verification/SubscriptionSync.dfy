/** The subscriptions worker: retries, a failure counter and a degraded latch kept inside each
    install's JSON metadata (`crates/greentic-events-runtime/src/install.rs`). */
module SubscriptionSync {
  import opened Wrappers
  import opened Backoff
  import opened Json
  import opened Registry
  import opened InstallStore
  import opened Text
  import Delivery

  // ---- The persisted failure state ----

  const SUBSCRIPTIONS := "subscriptions"

  function UpdateMetadata(metadata: Value, lastSync: string, failures: u32, degraded: bool): Value {
    var root := if metadata.Object? then metadata.fields else map[];
    var subs := map["last_sync" := Str(lastSync), "failures" := Integer(failures), "degraded" := Value.Bool(degraded)];
    Object(root[SUBSCRIPTIONS := Object(subs)])
  }

  datatype FailureState = FailureState(failures: u32, degraded: bool)

  const CLEAN := FailureState(0, false)

  function ReadState(metadata: Value): FailureState {
    match metadata.Get(SUBSCRIPTIONS)
    case Some(Object(subs)) =>
      var failures := if "failures" in subs then subs["failures"].AsU64().GetOr(0) else 0;
      var degraded := if "degraded" in subs then subs["degraded"].AsBool().GetOr(false) else false;
      FailureState(TruncateU32(failures), degraded)
    case _ => CLEAN
  }

  function LastSync(metadata: Value): Option<Value> {
    match metadata.Get(SUBSCRIPTIONS)
    case Some(subs) => subs.Get("last_sync")
    case None => None
  }

  /** What is written is what is read back, and nothing else in the metadata changes. */
  lemma MetadataRoundTrip(metadata: Value, lastSync: string, failures: u32, degraded: bool)
    ensures var updated := UpdateMetadata(metadata, lastSync, failures, degraded);
            && ReadState(updated) == FailureState(failures, degraded)
            && LastSync(updated) == Some(Str(lastSync))
            && forall key :: key != SUBSCRIPTIONS ==> updated.Get(key) == metadata.Get(key)
  {
    assert "failures"[0] != "degraded"[0] && "failures"[0] != "last_sync"[0] && "degraded"[0] != "last_sync"[0];
  }

  /** What is written, spelt out. */
  lemma MetadataWritten(metadata: Value, lastSync: string, failures: u32, degraded: bool)
    ensures UpdateMetadata(metadata, lastSync, failures, degraded).Get("subscriptions") ==
            Some(Object(map["last_sync" := Str(lastSync), "failures" := Integer(failures),
                "degraded" := Value.Bool(degraded)]))
  {}

  /** What is read, spelt out: a count of no more than 64 bits, cut to 32, and a latch; what is missing or of
      another type reads as zero and not degraded. */
  lemma ReadStateMeans(metadata: Value)
    ensures NeverSynced(metadata) ==> ReadState(metadata) == FailureState(0, false)
    ensures !NeverSynced(metadata) ==>
              var subs := metadata.fields["subscriptions"].fields;
              && (forall n :: "failures" in subs && subs["failures"] == Integer(n) && 0 <= n <= 18446744073709551615 ==>
                    ReadState(metadata).failures == n % 4294967296)
              && ((forall n :: "failures" in subs && subs["failures"] == Integer(n) ==>
                     !(0 <= n <= 18446744073709551615)) ==> ReadState(metadata).failures == 0)
              && (ReadState(metadata).degraded <==> "degraded" in subs && subs["degraded"] == Value.Bool(true))
  {}

  /** Metadata without an object under "subscriptions". */
  predicate NeverSynced(metadata: Value) {
    !(metadata.Object? && "subscriptions" in metadata.fields && metadata.fields["subscriptions"].Object?)
  }

  function SaturatingAdd(a: u32, b: nat): u32 { Min(a + b, U32_MAX) }

  /** One more failed sync: the counter saturates, and once degraded stays degraded. */
  function AfterFailure(state: FailureState, maxFailures: u32): FailureState {
    var failures := SaturatingAdd(state.failures, 1);
    FailureState(failures, state.degraded || failures >= maxFailures)
  }

  // ---- One sync ----

  /** The driver's answer to one attempt. */
  datatype DriverAnswer = Synced(state: Value) | DriverError(message: string)

  datatype SyncOutcome =
    | Unresolved(message: string)
    | Succeeded(state: Value, now: string)
    | Exhausted(message: string)

  /** The record a sync writes back. */
  function Written(record: InstallRecord, outcome: SyncOutcome, maxFailures: u32): InstallRecord {
    match outcome
    case Unresolved(_) => record
    case Succeeded(state, now) =>
      record.(subscriptionsState := state, metadata := UpdateMetadata(record.metadata, now, 0, false))
    case Exhausted(_) =>
      var after := AfterFailure(ReadState(record.metadata), maxFailures);
      record.(metadata := UpdateMetadata(record.metadata, "unknown", after.failures, after.degraded))
  }

  function SyncEffect(installs: Installs, record: InstallRecord, outcome: SyncOutcome, maxFailures: u32): Installs {
    if outcome.Unresolved? then installs else installs[KeyOf(record) := Written(record, outcome, maxFailures)]
  }

  /** How often the driver is asked: up to its first success, or the whole budget. Every error is retried. */
  ghost predicate SyncRun(policy: RetryPolicy, answers: seq<DriverAnswer>) {
    && 1 <= |answers| <= policy.maxRetries + 1
    && (forall k :: 0 <= k < |answers| - 1 ==> answers[k].DriverError?)
    && (answers[|answers| - 1].Synced? || |answers| == policy.maxRetries + 1)
  }

  /** The driver's answers, as `publish` would see a provider's. */
  function AsResponses(answers: seq<DriverAnswer>): seq<Delivery.Response> {
    seq(|answers|, k requires 0 <= k < |answers| => AsResponse(answers[k]))
  }

  function AsResponse(answer: DriverAnswer): Delivery.Response {
    match answer
    case Synced(_) => Delivery.Delivered
    case DriverError(message) => Delivery.Refused(message)
  }

  ghost predicate SyncsLikePublish(policy: RetryPolicy, answers: seq<DriverAnswer>) {
    SyncRun(policy, answers) <==> Delivery.RetryRun(policy, AsResponses(answers))
  }

  /** The worker does not look at the policy's list of retryable errors: it retries as `publish` does,
      whatever the driver answers, iff nothing is retried or the list admits every message. */
  lemma SyncsLikePublishIff(policy: RetryPolicy)
    ensures (forall answers :: SyncsLikePublish(policy, answers))
       <==> policy.maxRetries == 0 || policy.retryableErrors == [] || "" in policy.retryableErrors
  {
    if policy.maxRetries == 0 || policy.retryableErrors == [] || "" in policy.retryableErrors {
      forall answers ensures SyncsLikePublish(policy, answers) {
        AlikeWhenAllRetryable(policy, answers);
      }
    } else {
      assert !IsRetryable(policy, "");
      var answers := [DriverError(""), Synced(Null)];
      assert SyncRun(policy, answers);
      var responses := AsResponses(answers);
      assert responses[..|responses| - 1][0] == Delivery.Refused("");
      assert !SyncsLikePublish(policy, answers);
    }
  }

  lemma AlikeWhenAllRetryable(policy: RetryPolicy, answers: seq<DriverAnswer>)
    requires policy.maxRetries == 0 || policy.retryableErrors == [] || "" in policy.retryableErrors
    ensures SyncsLikePublish(policy, answers)
  {
    var responses := AsResponses(answers);
    forall message ensures policy.maxRetries == 0 || IsRetryable(policy, message) {
      if policy.maxRetries > 0 && policy.retryableErrors != [] {
        var i :| 0 <= i < |policy.retryableErrors| && policy.retryableErrors[i] == "";
        assert OccursAt(message, "", 0);
        assert Contains(message, policy.retryableErrors[i]);
      }
    }
    if answers != [] {
      var n := |answers| - 1;
      assert forall k :: 0 <= k < n ==> responses[..n][k] == AsResponse(answers[k]);
      assert responses[n] == AsResponse(answers[n]);
    }
  }

  ghost predicate OutcomeOf(
    spec: ProviderSpec, record: InstallRecord, env: Environment, policy: RetryPolicy, answers: seq<DriverAnswer>,
    outcome: SyncOutcome)
  {
    match Resolve(record, env.configs, env.secrets)
    case Err(message) => answers == [] && outcome == Unresolved(message)
    case Ok(install) =>
      && SyncRun(policy, answers)
      && match answers[|answers| - 1]
         case Synced(state) => outcome == Succeeded(state, env.clock(spec, install))
         case DriverError(message) => outcome == Exhausted(message)
  }

  function ErrorOf(outcome: SyncOutcome): Option<string> {
    match outcome
    case Unresolved(message) => Some(message)
    case Succeeded(_, _) => None
    case Exhausted(message) => Some(message)
  }

  /** What one sync comes to: the driver is asked again exactly after an error within the budget; its first
      success, or the last error, or the failed resolution decides the result and what is written. */
  lemma SyncMeans(
    spec: ProviderSpec, record: InstallRecord, env: Environment, policy: RetryPolicy, answers: seq<DriverAnswer>,
    outcome: SyncOutcome, installs: Installs, maxFailures: u32)
    requires OutcomeOf(spec, record, env, policy, answers, outcome)
    ensures var resolved := Resolve(record, env.configs, env.secrets);
            var key := InstallKey(record.providerId, record.installId);
            var after := SyncEffect(installs, record, outcome, maxFailures);
            if resolved.Err? then answers == [] && ErrorOf(outcome) == Some(resolved.error) && after == installs
            else
              && answers != []
              && (forall k :: 0 <= k < |answers| ==>
                    (k + 1 < |answers| <==> answers[k].DriverError? && k < policy.maxRetries))
              && var last := answers[|answers| - 1];
                 && (forall state :: last == Synced(state) ==>
                       ErrorOf(outcome) == None &&
                       after == installs[key := Renewed(record, state, env.clock(spec, resolved.value))])
                 && (forall message :: last == DriverError(message) ==>
                       ErrorOf(outcome) == Some(message) &&
                       after == installs[key := Failed(record, ReadState(record.metadata), maxFailures)])
  {
    if Resolve(record, env.configs, env.secrets).Ok? {
      var n := |answers| - 1;
      assert forall k :: 0 <= k < n ==> answers[k].DriverError?;
    }
  }

  /** A synced record: the driver's state, and metadata that says when, and that nothing has failed. */
  function Renewed(record: InstallRecord, state: Value, now: string): InstallRecord {
    record.(subscriptionsState := state, metadata := WithSubscriptions(record.metadata, now, 0, false))
  }

  /** A record that failed once more. */
  function Failed(record: InstallRecord, before: FailureState, maxFailures: u32): InstallRecord {
    var failures := if before.failures < 4294967295 then before.failures + 1 else 4294967295;
    record.(metadata :=
      WithSubscriptions(record.metadata, "unknown", failures, before.degraded || failures >= maxFailures))
  }

  function WithSubscriptions(metadata: Value, lastSync: string, failures: int, degraded: bool): Value {
    var subscriptions :=
      Object(map["last_sync" := Str(lastSync), "failures" := Integer(failures), "degraded" := Value.Bool(degraded)]);
    if metadata.Object? then Object(metadata.fields["subscriptions" := subscriptions])
    else Object(map["subscriptions" := subscriptions])
  }

  datatype Diagnostic = Diagnostic(providerId: string, installId: Option<string>, code: DiagnosticCode, message: string)

  /** `drive` answers attempt k of syncing an install. */
  type Driver = (ProviderSpec, ResolvedInstall, nat) -> DriverAnswer

  /** `clock` is the clock's reading when that sync succeeds. */
  datatype Environment = Environment(
    configs: ValueStore,
    secrets: ValueStore,
    drive: Driver,
    clock: (ProviderSpec, ResolvedInstall) -> string)

  /** The attempts so far, none of which succeeded. */
  ghost predicate AllRefused(
    answers: seq<DriverAnswer>, spec: ProviderSpec, install: ResolvedInstall, env: Environment)
  {
    forall k :: 0 <= k < |answers| ==> answers[k].DriverError? && answers[k] == env.drive(spec, install, k)
  }

  class SubscriptionsWorker {
    const store: InMemoryInstallStore
    const retry: RetryPolicy
    const maxFailures: u32
    ghost var slept: nat

    constructor (store: InMemoryInstallStore, retry: RetryPolicy, maxFailures: u32)
      ensures this.store == store && this.retry == retry && this.maxFailures == maxFailures && slept == 0
    {
      this.store, this.retry, this.maxFailures := store, retry, maxFailures;
      slept := 0;
    }

    method IncrementFailures(record: InstallRecord)
      requires store.Valid()
      modifies store
      ensures store.Valid()
      ensures forall message ::
                store.installs == SyncEffect(old(store.installs), record, Exhausted(message), maxFailures)
    {
      var state := ReadState(record.metadata);
      var failures: u32 := SaturatingAdd(state.failures, 1);
      var degraded := state.degraded || failures >= maxFailures;
      store.Put(record.(metadata := UpdateMetadata(record.metadata, "unknown", failures, degraded)));
    }

    /** Retries until the driver succeeds or the budget is spent, then writes the record back. */
    method SyncInstall(spec: ProviderSpec, record: InstallRecord, env: Environment)
      returns (
        error: Option<string>, ghost outcome: SyncOutcome, ghost answers: seq<DriverAnswer>,
        ghost delays: seq<Duration>)
      requires store.Valid()
      modifies store, this`slept
      ensures store.Valid()
      ensures OutcomeOf(spec, record, env, retry, answers, outcome)
      ensures answers != [] ==> forall k :: 0 <= k < |answers| ==>
                answers[k] == env.drive(spec, Resolve(record, env.configs, env.secrets).value, k)
      ensures error == ErrorOf(outcome)
      ensures store.installs == SyncEffect(old(store.installs), record, outcome, maxFailures)
      ensures MayWait(retry, delays) && |delays| == (if answers == [] then 0 else |answers| - 1)
      ensures slept == old(slept) + Sum(delays)
    {
      answers, delays := [], [];
      var resolved := ResolveInstall(record, env.configs, env.secrets);
      if resolved.Err? {
        return Some(resolved.error), Unresolved(resolved.error), answers, delays;
      }
      var install := resolved.value;
      var lastErr: Option<string> := None;
      var attempt: nat := 0;
      while attempt <= retry.maxRetries
        invariant attempt <= retry.maxRetries
        invariant store.Valid() && store.installs == old(store.installs)
        invariant |answers| == |delays| == attempt
        invariant AllRefused(answers, spec, install, env)
        invariant MayWait(retry, delays) && slept == old(slept) + Sum(delays)
        decreases retry.maxRetries - attempt
      {
        var answer := env.drive(spec, install, attempt);
        answers := answers + [answer];
        if answer.Synced? {
          var now := env.clock(spec, install);
          outcome := Succeeded(answer.state, now);
          var updated := install.record.(
            subscriptionsState := answer.state,
            metadata := UpdateMetadata(install.record.metadata, now, 0, false));
          store.Put(updated);
          return None, outcome, answers, delays;
        }
        lastErr := Some(answer.message);
        if attempt == retry.maxRetries {
          break;
        }
        var delay := DelayForAttempt(retry, attempt + 1);
        WaitStep(retry, delays, delay);
        delays := delays + [delay];
        slept := slept + delay;
        attempt := attempt + 1;
      }
      IncrementFailures(record);
      error := Some(lastErr.GetOr("subscription sync failed"));
      outcome := Exhausted(error.value);
    }

    /** Syncs every install of every wanted provider, one after the other. */
    method SyncAll(specs: seq<ProviderSpec>, wanted: ProviderSpec -> bool, env: Environment)
      returns (diagnostics: seq<Diagnostic>, ghost history: seq<Entry>)
      requires store.Valid()
      modifies store, this`slept
      ensures store.Valid()
      ensures Recorded(old(store.installs), store.installs, history, diagnostics, env, retry, maxFailures)
      ensures Turns(history, specs, old(store.installs), wanted)
      ensures Round(history, old(store.installs), specs, wanted)
      ensures DistinctNames(specs) ==> OncePerInstall(history)
    {
      diagnostics, history := [], [];
      for s := 0 to |specs|
        invariant store.Valid()
        invariant Recorded(old(store.installs), store.installs, history, diagnostics, env, retry, maxFailures)
        invariant Turns(history, specs[..s], old(store.installs), wanted)
      {
        ghost var before := history;
        assert specs[..s + 1][..s] == specs[..s];
        if wanted(specs[s]) {
          diagnostics, history := SyncProvider(specs[s], env, diagnostics, history, old(store.installs));
          assert history[..|before|] == before;
        }
      }
      assert specs[..|specs|] == specs;
      TurnsRound(history, specs, old(store.installs), wanted);
    }

    /** One turn of the outer loop. Every record it syncs is still the stored one when its turn comes. */
    method SyncProvider(
      spec: ProviderSpec, env: Environment, diagnostics: seq<Diagnostic>, ghost history: seq<Entry>,
      ghost start: Installs)
      returns (diagnostics': seq<Diagnostic>, ghost history': seq<Entry>)
      requires store.Valid() && Keyed(start)
      requires Recorded(start, store.installs, history, diagnostics, env, retry, maxFailures)
      modifies store, this`slept
      ensures store.Valid() && Recorded(start, store.installs, history', diagnostics', env, retry, maxFailures)
      ensures history <= history' && ProviderPart(history'[|history|..], start, spec)
    {
      ReplayKeys(start, history, maxFailures);
      var records := store.ListInstalls(spec.name);
      ghost var listed := store.installs;
      ListedApart(records, listed, spec.name);
      ghost var part;
      diagnostics', history', part := SyncRecords(spec, records, env, diagnostics, history, start);
      ListedPart(part, records, start, listed, spec);
      assert history'[|history|..] == part;
    }

    /** The inner loop. */
    method SyncRecords(
      spec: ProviderSpec, records: seq<InstallRecord>, env: Environment, diagnostics: seq<Diagnostic>,
      ghost history: seq<Entry>, ghost start: Installs)
      returns (diagnostics': seq<Diagnostic>, ghost history': seq<Entry>, ghost part: seq<Entry>)
      requires store.Valid() && Recorded(start, store.installs, history, diagnostics, env, retry, maxFailures)
      requires Untouched(records, 0, store.installs) && Apart(records, spec.name)
      modifies store, this`slept
      ensures store.Valid() && Recorded(start, store.installs, history', diagnostics', env, retry, maxFailures)
      ensures history' == history + part && SyncsOf(part, spec, records, |records|)
    {
      diagnostics', history', part := diagnostics, history, [];
      for i := 0 to |records|
        invariant store.Valid() && Recorded(start, store.installs, history', diagnostics', env, retry, maxFailures)
        invariant history' == history + part && SyncsOf(part, spec, records, i)
        invariant Untouched(records, i, store.installs)
      {
        ghost var entry;
        ghost var before := store.installs;
        diagnostics', history', entry := SyncOne(spec, records[i], env, diagnostics', history', start);
        UntouchedStep(records, i, before, store.installs, spec.name);
        SyncsOfStep(history, part, entry, spec, records, i);
        part := part + [entry];
      }
    }

    /** One turn of the inner loop. */
    method SyncOne(
      spec: ProviderSpec, record: InstallRecord, env: Environment, diagnostics: seq<Diagnostic>,
      ghost history: seq<Entry>, ghost start: Installs)
      returns (diagnostics': seq<Diagnostic>, ghost history': seq<Entry>, ghost entry: Entry)
      requires store.Valid() && record.providerId == spec.name
      requires KeyOf(record) in store.installs && store.installs[KeyOf(record)] == record
      requires Recorded(start, store.installs, history, diagnostics, env, retry, maxFailures)
      modifies store, this`slept
      ensures store.Valid() && Recorded(start, store.installs, history', diagnostics', env, retry, maxFailures)
      ensures history' == history + [entry] && entry.spec == spec && entry.key == KeyOf(record)
      ensures OnlyChanges(KeyOf(record), old(store.installs), store.installs)
    {
      diagnostics' := diagnostics;
      var error;
      ghost var outcome, answers, delays;
      error, outcome, answers, delays := SyncInstall(spec, record, env);
      entry := Entry(spec, KeyOf(record), outcome);
      history' := history + [entry];
      assert history'[..|history|] == history;
      assert Answered(spec, record, answers, env);
      if error.Some? {
        diagnostics' := diagnostics'
            + [Diagnostic(record.providerId, Some(record.installId), SubscriptionSyncFailed, error.value)];
      }
    }
  }

  // ---- A history of syncs, one after the other ----

  datatype Entry = Entry(spec: ProviderSpec, key: InstallKey, outcome: SyncOutcome)

  /** Each sync starts from the record that is stored when its turn comes. */
  function Replay(installs: Installs, history: seq<Entry>, maxFailures: u32): Installs {
    if history == [] then installs
    else
      var last := history[|history| - 1];
      var before := Replay(installs, history[..|history| - 1], maxFailures);
      if last.key in before then SyncEffect(before, before[last.key], last.outcome, maxFailures) else before
  }

  ghost predicate Answered(spec: ProviderSpec, record: InstallRecord, answers: seq<DriverAnswer>, env: Environment) {
    match Resolve(record, env.configs, env.secrets)
    case Err(_) => answers == []
    case Ok(install) => forall k :: 0 <= k < |answers| ==> answers[k] == env.drive(spec, install, k)
  }

  /** The outcome is the one that resolving the record and asking the driver, with the entry's own
      spec, comes to. */
  ghost predicate GenuineOutcome(record: InstallRecord, entry: Entry, env: Environment, retry: RetryPolicy) {
    && entry.spec.name == record.providerId
    && exists answers ::
         && Answered(entry.spec, record, answers, env)
         && OutcomeOf(entry.spec, record, env, retry, answers, entry.outcome)
  }

  /** Every sync of the history was run on the record stored when its turn came. */
  ghost predicate Genuine(
    installs: Installs, history: seq<Entry>, env: Environment, retry: RetryPolicy, maxFailures: u32)
  {
    history == [] ||
    var last := history[|history| - 1];
    var before := Replay(installs, history[..|history| - 1], maxFailures);
    && Genuine(installs, history[..|history| - 1], env, retry, maxFailures)
    && last.key in before
    && GenuineOutcome(before[last.key], last, env, retry)
  }

  /** The records whose turn is still to come are stored as they were listed. */
  ghost predicate Untouched(records: seq<InstallRecord>, i: nat, installs: Installs) {
    forall j :: i <= j < |records| ==> KeyOf(records[j]) in installs && installs[KeyOf(records[j])] == records[j]
  }

  /** The syncs of the first n records, in order. */
  ghost predicate SyncsOf(part: seq<Entry>, spec: ProviderSpec, records: seq<InstallRecord>, n: nat) {
    |part| == n <= |records| && forall j :: 0 <= j < n ==> part[j].spec == spec && part[j].key == KeyOf(records[j])
  }

  lemma SyncsOfStep(
    history: seq<Entry>, part: seq<Entry>, entry: Entry, spec: ProviderSpec, records: seq<InstallRecord>, n: nat)
    requires SyncsOf(part, spec, records, n) && n < |records|
    requires entry.spec == spec && entry.key == KeyOf(records[n])
    ensures SyncsOf(part + [entry], spec, records, n + 1)
    ensures history + part + [entry] == history + (part + [entry])
  {}

  ghost predicate OnlyChanges(key: InstallKey, before: Installs, after: Installs) {
    forall k :: k in before && k != key ==> k in after && after[k] == before[k]
  }

  /** Distinct installs of one provider. */
  ghost predicate Apart(records: seq<InstallRecord>, providerId: string) {
    && (forall i, j :: 0 <= i < j < |records| ==> KeyOf(records[i]) != KeyOf(records[j]))
    && forall i :: 0 <= i < |records| ==> records[i].providerId == providerId
  }

  lemma ListedApart(records: seq<InstallRecord>, listed: Installs, providerId: string)
    requires IsListing(records, listed, providerId)
    ensures Apart(records, providerId) && Untouched(records, 0, listed)
  {
    forall i | 0 <= i < |records|
      ensures records[i].providerId == providerId
      ensures KeyOf(records[i]) in listed && listed[KeyOf(records[i])] == records[i]
    {
      assert records[i] in records;
    }
  }

  lemma UntouchedStep(records: seq<InstallRecord>, i: nat, before: Installs, after: Installs, providerId: string)
    requires i < |records| && Apart(records, providerId)
    requires Untouched(records, i, before) && OnlyChanges(KeyOf(records[i]), before, after)
    ensures Untouched(records, i + 1, after)
  {}

  /** What the store and the diagnostics are after a history. */
  ghost predicate Recorded(
    start: Installs, installs: Installs, history: seq<Entry>, diagnostics: seq<Diagnostic>, env: Environment,
    retry: RetryPolicy, maxFailures: u32)
  {
    && installs == Replay(start, history, maxFailures)
    && diagnostics == Diagnose(history)
    && Genuine(start, history, env, retry, maxFailures)
  }

  ghost predicate SyncedFor(history: seq<Entry>, spec: ProviderSpec, key: InstallKey) {
    exists i :: 0 <= i < |history| && history[i].spec == spec && history[i].key == key
  }

  ghost predicate CoversProvider(history: seq<Entry>, installs: Installs, spec: ProviderSpec) {
    forall key :: key in installs && key.providerId == spec.name ==> SyncedFor(history, spec, key)
  }

  /** The syncs of one provider: each of its installs, once, with its own spec, and nothing else. */
  ghost predicate ProviderPart(part: seq<Entry>, installs: Installs, spec: ProviderSpec) {
    && CoversProvider(part, installs, spec)
    && OncePerInstall(part)
    && forall entry :: entry in part ==> EntryFor(entry, installs, spec)
  }

  ghost predicate EntryFor(entry: Entry, installs: Installs, spec: ProviderSpec) {
    entry.spec == spec && entry.key in installs && entry.key.providerId == spec.name
  }

  lemma ListedPart(part: seq<Entry>, records: seq<InstallRecord>, start: Installs, listed: Installs, spec: ProviderSpec)
    requires IsListing(records, listed, spec.name) && listed.Keys == start.Keys && Keyed(listed)
    requires SyncsOf(part, spec, records, |records|)
    ensures ProviderPart(part, start, spec)
  {
    forall key | key in start && key.providerId == spec.name ensures SyncedFor(part, spec, key) {
      assert listed[key] in records;
      var j :| 0 <= j < |records| && records[j] == listed[key];
      assert part[j].key == key;
    }
    forall entry | entry in part ensures EntryFor(entry, start, spec) {
      var j :| 0 <= j < |part| && part[j] == entry;
      assert records[j] in records;
    }
  }

  /** The turns of the outer loop: the wanted specs in order, each with all its installs. */
  ghost predicate Turns(
    history: seq<Entry>, specs: seq<ProviderSpec>, installs: Installs, wanted: ProviderSpec -> bool)
    decreases |specs|
  {
    if specs == [] then history == []
    else
      var last := specs[|specs| - 1];
      var earlier := specs[..|specs| - 1];
      if wanted(last) then
        exists n: nat ::
          n <= |history| && Turns(history[..n], earlier, installs, wanted) && ProviderPart(history[n..], installs, last)
      else
        Turns(history, earlier, installs, wanted)
  }

  /** A history has every install of every wanted provider, and nothing that is not wanted. */
  ghost predicate Round(
    history: seq<Entry>, installs: Installs, specs: seq<ProviderSpec>, wanted: ProviderSpec -> bool)
  {
    && (forall spec :: spec in specs && wanted(spec) ==> CoversProvider(history, installs, spec))
    && forall entry :: entry in history ==>
         entry.spec in specs && wanted(entry.spec) && EntryFor(entry, installs, entry.spec)
  }

  lemma CoversMore(part: seq<Entry>, history: seq<Entry>, lo: nat, installs: Installs, spec: ProviderSpec)
    requires lo + |part| <= |history| && history[lo..lo + |part|] == part && CoversProvider(part, installs, spec)
    ensures CoversProvider(history, installs, spec)
  {
    forall key | key in installs && key.providerId == spec.name ensures SyncedFor(history, spec, key) {
      var j :| 0 <= j < |part| && part[j].spec == spec && part[j].key == key;
      assert history[lo + j] == part[j];
    }
  }

  lemma {:induction false} TurnsRound(
    history: seq<Entry>, specs: seq<ProviderSpec>, installs: Installs, wanted: ProviderSpec -> bool)
    requires Turns(history, specs, installs, wanted)
    ensures Round(history, installs, specs, wanted)
    ensures DistinctNames(specs) ==> OncePerInstall(history)
    decreases |specs|
  {
    if specs != [] {
      var m := |specs| - 1;
      var last, earlier := specs[m], specs[..m];
      assert specs == earlier + [last];
      if wanted(last) {
        var n: nat :| n <= |history| && Turns(history[..n], earlier, installs, wanted)
                      && ProviderPart(history[n..], installs, last);
        TurnsRound(history[..n], earlier, installs, wanted);
        RoundJoined(history, n, earlier, last, installs, wanted);
        if DistinctNames(specs) {
          OnceJoined(history, n, earlier, last, installs, wanted);
        }
      } else {
        TurnsRound(history, earlier, installs, wanted);
      }
    }
  }

  lemma RoundJoined(
    history: seq<Entry>, n: nat, specs: seq<ProviderSpec>, last: ProviderSpec, installs: Installs,
    wanted: ProviderSpec -> bool)
    requires n <= |history| && wanted(last)
    requires Round(history[..n], installs, specs, wanted) && ProviderPart(history[n..], installs, last)
    ensures Round(history, installs, specs + [last], wanted)
  {
    var before, part := history[..n], history[n..];
    assert history == before + part;
    forall spec | spec in specs + [last] && wanted(spec) ensures CoversProvider(history, installs, spec) {
      if spec in specs {
        CoversMore(before, history, 0, installs, spec);
      } else {
        CoversMore(part, history, n, installs, spec);
      }
    }
  }

  lemma OnceJoined(
    history: seq<Entry>, n: nat, specs: seq<ProviderSpec>, last: ProviderSpec, installs: Installs,
    wanted: ProviderSpec -> bool)
    requires n <= |history| && DistinctNames(specs + [last])
    requires Round(history[..n], installs, specs, wanted) && ProviderPart(history[n..], installs, last)
    requires OncePerInstall(history[..n])
    ensures OncePerInstall(history)
  {
    var before, part := history[..n], history[n..];
    forall i, j | 0 <= i < j < |history| ensures history[i].key != history[j].key {
      if i < n <= j {
        assert history[i] == before[i] && before[i] in before && history[j] == part[j - n] && part[j - n] in part;
        var k :| 0 <= k < |specs| && specs[k] == history[i].spec;
        assert (specs + [last])[k] == specs[k] && (specs + [last])[|specs|] == last;
      } else if i >= n {
        assert history[i] == part[i - n] && history[j] == part[j - n];
      } else {
        assert history[i] == before[i] && history[j] == before[j];
      }
    }
  }

  ghost predicate OncePerInstall(history: seq<Entry>) {
    forall i, j :: 0 <= i < j < |history| ==> history[i].key != history[j].key
  }

  ghost predicate DistinctNames(specs: seq<ProviderSpec>) {
    forall i, j :: 0 <= i < j < |specs| ==> specs[i].name != specs[j].name
  }

  function Diagnose(history: seq<Entry>): seq<Diagnostic> {
    if history == [] then []
    else
      var last := history[|history| - 1];
      Diagnose(history[..|history| - 1]) +
      match ErrorOf(last.outcome)
      case None => []
      case Some(message) => [Diagnostic(last.key.providerId, Some(last.key.installId), SubscriptionSyncFailed, message)]
  }

  /** One diagnostic for every sync that failed, whether its install did not resolve or its driver gave up. */
  lemma DiagnoseMeans(history: seq<Entry>, entry: Entry)
    ensures Diagnose([]) == []
    ensures Diagnose(history + [entry]) == Diagnose(history) +
            if entry.outcome.Succeeded? then []
            else [Diagnostic(entry.key.providerId, Some(entry.key.installId), SubscriptionSyncFailed,
                entry.outcome.message)]
  {
    assert (history + [entry])[..|history|] == history;
  }

  lemma {:induction false} ReplayKeys(installs: Installs, history: seq<Entry>, maxFailures: u32)
    requires Keyed(installs)
    ensures Keyed(Replay(installs, history, maxFailures))
    ensures Replay(installs, history, maxFailures).Keys == installs.Keys
  {
    if history != [] {
      ReplayKeys(installs, history[..|history| - 1], maxFailures);
    }
  }

  /** Running one history after another is running them as one, so what holds of a history holds of
      any number of rounds of `sync_all`. */
  lemma {:induction false} ReplayConcat(installs: Installs, first: seq<Entry>, second: seq<Entry>, maxFailures: u32)
    ensures Replay(Replay(installs, first, maxFailures), second, maxFailures)
              == Replay(installs, first + second, maxFailures)
    decreases |second|
  {
    if second == [] {
      assert first + second == first;
    } else {
      var n := |second| - 1;
      ReplayConcat(installs, first, second[..n], maxFailures);
      assert (first + second)[..|first + second| - 1] == first + second[..n];
    }
  }

  /** Exhausted syncs of an install since its last success; failed resolutions do not count. */
  function Streak(history: seq<Entry>, key: InstallKey): nat {
    if history == [] then 0
    else
      var last := history[|history| - 1];
      var before := Streak(history[..|history| - 1], key);
      if last.key != key || last.outcome.Unresolved? then before
      else if last.outcome.Succeeded? then 0
      else before + 1
  }

  predicate EverSucceeded(history: seq<Entry>, key: InstallKey) {
    exists i :: 0 <= i < |history| && history[i].key == key && history[i].outcome.Succeeded?
  }

  function LastSynced(history: seq<Entry>, key: InstallKey): Option<Value> {
    if history == [] then None
    else
      var last := history[|history| - 1];
      if last.key == key && last.outcome.Succeeded? then Some(last.outcome.state)
      else LastSynced(history[..|history| - 1], key)
  }

  /** The failure state after any history, from any state to begin with: the streak counts on top of
      what was there, or of nothing once a sync has succeeded. */
  function StateAfter(initial: FailureState, history: seq<Entry>, key: InstallKey, maxFailures: u32): FailureState {
    var start := if EverSucceeded(history, key) then CLEAN else initial;
    var streak := Streak(history, key);
    var failures := SaturatingAdd(start.failures, streak);
    FailureState(failures, start.degraded || (streak > 0 && failures >= maxFailures))
  }

  lemma {:induction false} FailureStateTracks(
    installs: Installs, history: seq<Entry>, maxFailures: u32, key: InstallKey)
    requires Keyed(installs) && key in installs
    ensures key in Replay(installs, history, maxFailures)
    ensures ReadState(Replay(installs, history, maxFailures)[key].metadata)
         == StateAfter(ReadState(installs[key].metadata), history, key, maxFailures)
  {
    ReplayKeys(installs, history, maxFailures);
    if history != [] {
      var n := |history| - 1;
      var last := history[n];
      FailureStateTracks(installs, history[..n], maxFailures, key);
      ReplayKeys(installs, history[..n], maxFailures);
      SucceededStep(history, key);
      var before := Replay(installs, history[..n], maxFailures);
      if last.key == key {
        var record := before[key];
        match last.outcome
        case Succeeded(_, now) => MetadataRoundTrip(record.metadata, now, 0, false);
        case Exhausted(_) =>
          var after := AfterFailure(ReadState(record.metadata), maxFailures);
          MetadataRoundTrip(record.metadata, "unknown", after.failures, after.degraded);
        case Unresolved(_) =>
      }
    }
  }

  lemma SucceededStep(history: seq<Entry>, key: InstallKey)
    requires history != []
    ensures var n := |history| - 1;
            EverSucceeded(history, key) <==>
              EverSucceeded(history[..n], key) || (history[n].key == key && history[n].outcome.Succeeded?)
  {
    var n := |history| - 1;
    if EverSucceeded(history, key) {
      var i :| 0 <= i < |history| && history[i].key == key && history[i].outcome.Succeeded?;
      assert i < n ==> history[..n][i] == history[i];
    }
    if EverSucceeded(history[..n], key) {
      var i :| 0 <= i < n && history[..n][i].key == key && history[..n][i].outcome.Succeeded?;
      assert history[i] == history[..n][i];
    }
  }

  /** From metadata that no sync has written yet, for every threshold: the persisted count is the streak, saturating,
      and the
      install is degraded exactly when it has failed and its count has reached the threshold. */
  lemma FreshFailureState(installs: Installs, history: seq<Entry>, maxFailures: u32, key: InstallKey)
    requires Keyed(installs) && key in installs
    requires NeverSynced(installs[key].metadata) || ReadState(installs[key].metadata) == FailureState(0, false)
    ensures key in Replay(installs, history, maxFailures)
    ensures var state := ReadState(Replay(installs, history, maxFailures)[key].metadata);
            && state.failures == Min(Streak(history, key), U32_MAX)
            && (state.degraded <==> Streak(history, key) > 0 && state.failures >= maxFailures)
  {
    ReadStateMeans(installs[key].metadata);
    FailureStateTracks(installs, history, maxFailures, key);
  }

  predicate SameIdentity(a: InstallRecord, b: InstallRecord) {
    a.(metadata := b.metadata, subscriptionsState := b.subscriptionsState) == b
  }

  ghost predicate SameOtherMetadata(a: Value, b: Value) {
    forall key :: key != SUBSCRIPTIONS ==> a.Get(key) == b.Get(key)
  }

  /** No history touches an install's identity, its references or any other metadata; an install that
      is not synced is not touched at all, and its subscriptions state is that of its last success. */
  lemma {:induction false} HistoryTouchesOnly(
    installs: Installs, history: seq<Entry>, maxFailures: u32, key: InstallKey)
    requires Keyed(installs) && key in installs
    ensures key in Replay(installs, history, maxFailures)
    ensures var before, after := installs[key], Replay(installs, history, maxFailures)[key];
            && SameIdentity(before, after)
            && SameOtherMetadata(before.metadata, after.metadata)
            && ((forall i :: 0 <= i < |history| ==> history[i].key != key) ==> after == before)
            && after.subscriptionsState == LastSynced(history, key).GetOr(before.subscriptionsState)
  {
    ReplayKeys(installs, history, maxFailures);
    if history != [] {
      var n := |history| - 1;
      var last := history[n];
      HistoryTouchesOnly(installs, history[..n], maxFailures, key);
      ReplayKeys(installs, history[..n], maxFailures);
      assert forall i {:trigger history[..n][i]} :: 0 <= i < n ==> history[..n][i] == history[i];
      if last.key == key && !last.outcome.Unresolved? {
        assert history[n].key == key;
        WrittenTouchesOnly(Replay(installs, history[..n], maxFailures)[key], last.outcome, maxFailures);
      }
    }
  }

  lemma WrittenTouchesOnly(record: InstallRecord, outcome: SyncOutcome, maxFailures: u32)
    ensures var written := Written(record, outcome, maxFailures);
            && SameIdentity(record, written)
            && SameOtherMetadata(record.metadata, written.metadata)
            && written.subscriptionsState == if outcome.Succeeded? then outcome.state else record.subscriptionsState
  {
    match outcome
    case Succeeded(_, now) => MetadataRoundTrip(record.metadata, now, 0, false);
    case Exhausted(_) =>
      var after := AfterFailure(ReadState(record.metadata), maxFailures);
      MetadataRoundTrip(record.metadata, "unknown", after.failures, after.degraded);
    case Unresolved(_) =>
  }
}
