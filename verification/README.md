# Verified model of greentic-events

A Dafny 4.11 model of the event bus, with proofs. It covers the glob matcher behind routing and access
control, the publish pipeline (one publisher at a time, and any number interleaved), the polling worker
behind a broker subscription, the install runtime, the config-flow interpreter, the backoff arithmetic,
pack overrides and the event topic grammar. `dafny verify dfyconfig.toml` checks all of it.

| file | what it models |
|---|---|
| `Pattern.dfy` | the glob matcher, against a recursive definition of globs |
| `Characters.dfy` | the same matcher read over characters instead of bytes |
| `TopicGrammar.dfy` | the event topic check, against the documented regular expression |
| `Backoff.dfy` | retry policy, fixed-width delay arithmetic, total wait |
| `Routing.dfy` | access rules and first-match routing |
| `Delivery.dfy` | what one publish does: calls, result, idempotency key, dead letter |
| `Bus.dfy` | the bus, the key store and the counters as classes |
| `BusSteps.dfy` | any number of publishers on one bus, one atomic operation at a time |
| `Json.dfy` | JSON values |
| `Builder.dfy`, `Registry.dfy` | annotations, overrides, registration from packs, `build` |
| `Subscription.dfy` | broker, poller, bounded channel and consumer as a step system; the channel as a class |
| `InstallStore.dfy`, `SinkRouting.dfy`, `SubscriptionSync.dfy` | the install store, the sink router, the subscriptions worker |
| `SyncOverlap.dfy`, `SyncSchedules.dfy` | rounds of the subscriptions worker that overlap; which schedules are serial |
| `ConfigFlow.dfy` | the config-flow walk and its visit budget |
| `DryRun.dfy` | the made-up topic of the dry-run subscription check |
| `Text.dfy`, `Wrappers.dfy` | substring search; options and results |

## How it is modelled

- A string is its UTF-8 bytes, each written as one `char`; no theorem limits which characters occur.
  `Characters.dfy` groups bytes into characters by their first byte, as section 3 of RFC 3629 does. It also
  admits the few groups which that section excludes, so its for-all statements cover more than real strings.
- A duration is its number of nanoseconds, up to the largest `Duration`; `u32` widths, saturation and
  truncation are written out.
- What other code answers (a provider, the broker, the subscription driver, a provider factory, value
  stores, decoding, node id checks, template rendering) is a parameter, so the theorems hold for every answer.
- Jitter is any permitted delay; sleeping only adds to a ghost total.
- A schedule of the interleaved bus or of the subscription is any sequence of steps by anybody. Nothing is
  assumed fair, so a future that is dropped is a publisher that is not scheduled again.
- A hash map yields its entries in any order; an ordered map yields them in key order.

## What turned out not to hold as stated

- The matcher is not complete: a `*` in the value can be consumed by a `*` of the pattern as a literal.
  `ValueExactIff` and `PatternExactIff` give the exact condition for values and for patterns.
- The matcher's comment says `?` matches a character; it matches a byte (`QuestionIsOneByte`). Read over
  characters, `ValueCharactersIff` and `PatternCharactersIff` give the exact conditions, which cover the
  previous point too: a value of one-byte characters without `*`; a pattern without wildcards, or `*` alone.
- README of the repository calls access rules allowlists; the builder leaves the default at "allow", so
  only a matching rule can deny (`BuiltAclDeniesByRuleOnly`). It acts as an allowlist exactly where some rule
  matches (`BuiltAclAllowlistIff`).
- A tenant or topic with a `*` can slip past a rule whose patterns match it, or miss its provider: exactly
  such a one (`AclExactIff`, `RouteExactIff`).
- The `Fixed` backoff is not constant: it waits base times the attempt (`CappedDelayClosedForm`). `FixedConstantIff` says
  for which policies all its waits are the same.
- Two tenants can share idempotency keys when one name continues the other behind a colon (`TenantsCollideIff`).
- `with_overrides` before or after a pack is registered may differ; `OverrideOrderIff` says exactly when.
- A config-flow walk that ends may need one visit more than there are nodes (`LostNodeNeedsOneMore`), never more;
  `ExtraVisitIff` says which walks do, and `ExtraVisitIffChain` which flows and answers lead to one.
- The dry-run subscription check can fail for want of a provider: exactly when the broker declares no topic
  (`CheckFindsBrokerIff`).
- A missing config whose reference holds the word "secret" is reported as a missing secret (`ResolveErrorClass`).
- The subscriptions worker retries every driver error; `retryable_errors` has no say there (`SyncInstall`).
  It retries as `publish` does exactly when nothing is retried or the list admits every message
  (`SyncsLikePublishIff`).
- Rounds of the subscriptions worker that overlap need not come to what their syncs would one after the other:
  two failures of one install may count as one (`OverlapLosesCount`), and a failing sync that was begun before a
  success writes the old subscriptions state back (`OverlapRevertsState`). Overlap as such does no harm. What
  does is a sync that ends after another one of its install that ended since it was begun: store, failure
  counts and subscriptions states are the serial ones for all outcomes exactly without such an end (`SerialIff`,
  `FailuresCountedIff`, `StatesLastIff`). `OverlapBounds` holds in any case.

## Model

| member | source | states |
|---|---|---|
| Pattern.SimpleMatch | src/pattern.rs:13-41 | the two-cursor loop computes the matcher's decision; a match is a glob match; a glob match of a `*`-free value is found; fewer than (text+1)*(pattern+1) iterations |
| Pattern.ScanSound | src/pattern.rs:19-34 | from any loop state, acceptance means the rest matches or the remembered star may still swallow a byte, whatever the text holds |
| Pattern.ScanComplete | src/pattern.rs:19-34 | forgetting all stars but the last loses no match when text or pattern is free of `*` |
| Pattern.MatchIsGlob | src/pattern.rs:1-11 | every reported match is a match in the documented sense, for all patterns and values |
| Pattern.MatchIffGlob | src/pattern.rs:5-11 | the decision is exact unless both sides hold a `*` and the pattern is not `*` alone |
| Pattern.ValueExactIff | src/pattern.rs:20-23 | a value is decided exactly by all patterns iff it holds no `*` |
| Pattern.PatternExactIff | src/pattern.rs:6-8 | a pattern decides all values exactly iff it holds no `*` or is `*` alone |
| Pattern.MissedPattern | src/pattern.rs:20-23 | for every `*` in a value, a concrete pattern that should match it and does not |
| Pattern.MissedValue | src/pattern.rs:20-23 | for every other pattern with a `*`, a concrete value that it should match and does not |
| Pattern.PrefixIff | src/pattern.rs:19-41 | a prefix followed by one star matches exactly what starts with the prefix, unless a `*` comes right behind it and more behind that |
| Characters.BytesToCharacters | src/pattern.rs:10 | no byte match begins or ends inside a character, unless `?` meets one of several bytes |
| Characters.CharactersToBytes | src/pattern.rs:10 | a match over characters is one over their bytes, under the same condition |
| Characters.MatchIffCharGlob | src/pattern.rs:1-11 | the decision is the documented one, read over characters, unless both sides hold a `*` or `?` meets a longer character |
| Characters.ValueCharactersIff | src/pattern.rs:1-11 | a value is decided as documented by all patterns iff each of its characters is one byte and none is `*` |
| Characters.PatternCharactersIff | src/pattern.rs:1-11 | a pattern decides all values as documented iff it is `*` alone or holds no wildcard |
| Pattern.QuestionIsOneByte | src/pattern.rs:4 | `?` matches exactly the one-byte values, where the comment says character |
| TopicGrammar.IsValidEventTopic | crates/greentic-events-validate/src/lib.rs:120-147 | the split-and-loop check accepts exactly the language of the documented regular expression |
| TopicGrammar.SplitJoin | crates/greentic-events-validate/src/lib.rs:124 | splitting at dots loses nothing and leaves no dot in a segment |
| TopicGrammar.JoinSplit | crates/greentic-events-validate/src/lib.rs:124 | segments without dots survive joining and splitting |
| TopicGrammar.TopicIffSegments | crates/greentic-events-validate/src/lib.rs:128-146 | the regular language, said segment by segment |
| TopicGrammar.ValidTopicMatchedExactly | crates/greentic-events-validate/src/lib.rs:238 | on well-formed topics every pattern is decided exactly as a glob |
| Backoff.DelayForAttempt | src/backoff.rs:45-61 | the delay is the capped one, or with jitter anything up to it that a u64 holds |
| Backoff.SaturatingPowIsCapped | src/backoff.rs:51 | saturating powers of two are true powers capped at the width of u32 |
| Backoff.CappedDelayClosedForm | src/backoff.rs:45-55 | saturation, checked multiplication and capping come to one formula in unbounded arithmetic, per strategy |
| Backoff.MayDelayIff | src/backoff.rs:45-82 | which delays may come back, per strategy and in unbounded arithmetic; jitter reaches down to zero and no further than 64 bits |
| Backoff.RetryableIff | src/backoff.rs:35-43 | a message is retried iff nothing is listed or the message can be cut around a listed error |
| Backoff.CappedDelayMonotone | src/backoff.rs:45-55 | delays grow with the attempt and never exceed the maximum |
| Backoff.FixedConstantIff | src/backoff.rs:47-49 | the `Fixed` waits are all alike iff there is at most one retry, no base delay, or a cap no larger than it |
| Backoff.TotalWaitCapped | src/bus.rs:190-191 | waits of a retry loop stay within the maximum delay each, for every jitter |
| Backoff.TotalWaitExponential | src/backoff.rs:50-59 | n calls wait at most base * (2^n - 2) |
| Backoff.TotalWaitFixed | src/backoff.rs:47-49 | n calls wait at most base * n * (n - 1) / 2 |
| Backoff.UncappedExponentialWait | src/backoff.rs:50-59 | the exponential bound is reached as long as neither cap nor width is |
| Routing.AclFirstMatchWins | src/acl.rs:30-64 | the first matching rule decides publish and subscribe, else the default |
| Routing.BuiltAclDeniesByRuleOnly | src/bus.rs:243-263 | an access list made by the builder denies publish or subscribe iff the first matching rule does |
| Routing.BuiltAclAllowlistIff | src/bus.rs:243-263 | it decides as a list that denies by default would iff some rule matches |
| Routing.AclExactIff | src/acl.rs:15-64 | every access list decides a tenant and topic as its globs are documented iff neither holds a `*`; else some list that should deny lets publish and subscribe through |
| Routing.RouteIsFirst | src/bus.rs:214-226 | the route is the lowest-indexed provider with a matching pattern, and none iff there is no such provider |
| Routing.AppendKeepsRoute | src/bus.rs:280-283 | registering more providers never reroutes a topic that had a provider |
| Routing.ValidTopicRoutedByGlob | src/bus.rs:214-226 | a well-formed topic has no provider iff no pattern, read as a glob, matches it |
| Routing.RouteExactIff | src/bus.rs:214-226 | every provider list routes a topic iff one of its globs matches it, iff the topic holds no `*` |
| Delivery.ComposeInjective | src/bus.rs:75-79 | composed keys of tenants without colon differ unless tenant and key agree |
| Delivery.TenantsCollideIff | src/bus.rs:76 | exactly which tenants can produce a common key |
| Delivery.SameKeyIff | src/bus.rs:75-79 | two publishes of colon-free tenants have the same key iff tenant and idempotency key are the same |
| Delivery.RetryRunIff | src/bus.rs:179-195 | the provider is called again exactly after a refusal that calls for it, within the budget |
| Delivery.ResultMeans | src/bus.rs:63-109 | what a publish returns, from access list, route, key and last answer |
| Delivery.CountedMeans | src/bus.rs:74-105 | an event is counted in, and its key recorded, iff access and routing admit it; which results are duplicates and which are dead-lettered |
| Delivery.CallsMean | src/bus.rs:83-102 | what a publish sends: the event itself at every attempt, then at most a dead letter |
| Delivery.SubscribeRouteIff | src/bus.rs:124-148 | a subscription goes to the first provider serving its topic iff it is admitted |
| Delivery.RetryStep | src/bus.rs:179-193 | one more answer either ends the retry run or keeps it going |
| Delivery.RetryRunUnique | src/bus.rs:179-195 | the provider's answers determine how often it is called |
| Delivery.OneDeliveryPerRun | src/bus.rs:83-104 | only the last call of a publish, dead letter included, can succeed |
| Delivery.CallsAreRouted | src/bus.rs:64-79 | a publish calls a provider iff access, routing and key guard let it, and then the first that serves the topic |
| Delivery.DeadLetterCarriesReason | src/bus.rs:88-103 | last refusal, error and dead letter carry one reason; the letter differs only in topic and reason |
| Bus.InMemoryIdempotencyStore.RecordKey | src/idempotency.rs:22-27 | reports whether the key was new and adds it |
| Bus.EventMetrics.RecordIn | src/metrics.rs:39-44 | counts one event in, changes no other counter |
| Bus.EventMetrics.RecordOut | src/metrics.rs:46-54 | counts one event out, changes no other counter |
| Bus.EventMetrics.RecordFailed | src/metrics.rs:56-61 | counts one failure, changes no other counter |
| Bus.EventMetrics.RecordDlq | src/metrics.rs:63-68 | counts one dead letter, changes no other counter |
| Bus.EventBus.PublishWithRetry | src/bus.rs:173-196 | calls with the same event up to the first success, non-retryable error or end of budget; returns the last answer; waits as the policy says |
| Bus.EventBus.PublishToDlq | src/bus.rs:198-212 | one call, counted whatever the answer |
| Bus.EventBus.Send | src/bus.rs:82-105 | the attempts, then a dead letter exactly when the last was refused, with its counters |
| Bus.EventBus.Publish | src/bus.rs:63-109 | the whole publish is a valid run; key set, counters and calls change as its result says, and not at all when denied or unroutable |
| BusSteps.AdvanceOk | src/bus.rs:63-105 | each atomic step keeps what a publisher's phase promises |
| BusSteps.RunCounters | src/metrics.rs:39-68 | in every reachable state each counter is the number of publishers that have counted |
| BusSteps.CountersAddUp | src/bus.rs:74-105 | in = out + failed + duplicates + in flight, and failed = dead-lettered + letters pending, in every reachable state |
| BusSteps.QuiescentCounters | src/bus.rs:74-105 | with nothing in flight, dlq = failed and in = out + failed + duplicates |
| BusSteps.RunCalls | src/bus.rs:82-109 | each publisher's calls in the interleaved trace are those of its own attempts and dead letter |
| BusSteps.RunKeys | src/idempotency.rs:22-27 | at most one publisher holds a key, and the key set is what was there plus what is held |
| BusSteps.OnePublisherPerKey | src/bus.rs:75-80 | all calls for a key, retries and dead letter included, come from the one publisher that recorded it |
| BusSteps.AtMostOneDeliveryPerKey | src/bus.rs:75-104 | over a whole run at most one provider call succeeds for a key |
| BusSteps.LaterPublishIsDuplicate | src/bus.rs:77-79 | once a key is recorded, every other publish with it that reaches the bus is a duplicate, even if the first failed |
| BusSteps.SuppressedByOwnTenant | src/bus.rs:75-79 | colon-free tenants never suppress each other: a duplicate is one of the same tenant's with the same key |
| BusSteps.SameSubmissionOnce | src/bus.rs:75-79 | of two publishes of one tenant with one key at most one passes the key guard |
| BusSteps.DoneRefinesPublish | src/bus.rs:63-109 | a finished publisher has the calls and the result of a sequential publish; it was suppressed only for a key that was there or is another's |
| BusSteps.CallsAdmittedAndRouted | src/bus.rs:64-65 | every call of every run is for an admitted event, on the first provider serving its topic |
| BusSteps.EnoughTurnsFinish | src/bus.rs:63-109 | max_retries + 8 turns finish a publish, whatever else happens |
| Builder.KeyUnambiguous | src/bus.rs:441-450 | an annotation key names one provider and one field, even with dots in names |
| Builder.OrderIrrelevant | src/bus.rs:445 | the order of the annotation map does not matter |
| Builder.OtherProvidersIrrelevant | src/bus.rs:441-449 | another provider's annotations never change an override |
| Builder.OverridesFromAnnotations | src/bus.rs:437-505 | the fold over the annotations equals the field-by-field reading of the map |
| Builder.ReadEntry | src/bus.rs:446-497 | one turn of the fold sets its field if well typed, materialising the defaults, and no other |
| Builder.StrategyIff | src/bus.rs:475-479 | a strategy is named by its documented name in any mixture of cases, and by nothing else |
| Builder.StrategyNames | src/bus.rs:475-479 | lower-casing first changes nothing; unknown names fall back to jitter |
| Builder.RetryMeans | src/bus.rs:459-495 | which annotations make a policy, and each of its fields: the annotated value, cut to 32 bits or turned from milliseconds, or the default |
| Builder.OverridesMean | src/bus.rs:452-457 | the dead-letter topic is the annotated string; there are overrides iff there is that or a policy |
| Builder.StringsMean | src/bus.rs:486-491 | of a list of retryable errors the strings count, in order |
| Registry.EventBusBuilder.WithOverrides | src/bus.rs:275-278 | replaces the whole override map |
| Registry.EventBusBuilder.LearnOverrides | src/bus.rs:312-316 | an override already there stays |
| Registry.EventBusBuilder.RegisterFromPack | src/bus.rs:303-353 | all providers but bridges are appended in order, under the merged overrides in which earlier entries win; fails iff a provider, or with a bridge factory a bridge, cannot be built |
| Registry.EventBusBuilder.RegisterSpec | src/bus.rs:311-350 | one turn: learns the override unless one is there, then appends the provider under the overrides so far |
| Registry.EventBusBuilder.Build | src/bus.rs:355-379 | each provider keeps place, name and topics, and takes the dead-letter topic and policy set for its name, else its own; no topic is rerouted |
| Registry.PackOverridesMean | src/bus.rs:311-316 | a pack overrides what is annotated for each provider it declares, of any kind; an override already there wins |
| Registry.RegistrableMeans | src/bus.rs:317-348 | of a pack's specs all but the bridges are registered, each once and in order |
| Registry.OverlayKeepsRoutes | src/bus.rs:356-370 | overrides never change the route of a topic |
| Registry.OverlayTwice | src/bus.rs:356-370 | overlaying twice is overlaying once |
| Registry.PackOverridesApplied | src/bus.rs:335-347 | a provider from a pack is built with exactly what is annotated for it and the defaults |
| Registry.OverrideOrderIff | src/bus.rs:275-379 | setting explicit overrides before or after registering gives the same bus iff each registered provider is order free |
| Registry.FullOverridesOrderFree | src/bus.rs:382-386 | overrides that set both fields are order free |
| Subscription.RunKeeps | src/runner.rs:209-231 | the protocol invariant holds after every interleaving |
| Subscription.DeliveredInOrder | src/runner.rs:209-231 | what is read and buffered is an in-order prefix of the decodable events fetched; the buffer never exceeds 64; nothing is lost while the handle is held |
| Subscription.AcksFollowEnqueued | src/runner.rs:214-220 | auto mode acks the enqueued ids in order, at most the last outstanding; manual mode acks nothing |
| Subscription.StoppedAccounts | src/runner.rs:215-228 | after the end acks equal enqueued ids and at most one fetched event, undecodable or after the drop, got nowhere |
| Subscription.UnreadAcksBounded | src/subscription.rs:66-69 | at most 64 enqueued, so at most 64 acknowledged events have not been read; after the drop those are all that is lost |
| Subscription.StoppedIff | src/runner.rs:210-229 | the poller has stopped iff a poll failed, an event did not decode, or a send came after the drop |
| Subscription.StopReasons | src/runner.rs:210-229 | so it stops only after a drop, a failing poll, or an undecodable last event |
| Subscription.EmptyPollGoesOn | src/runner.rs:224-227 | an empty poll changes nothing |
| Subscription.OpenIff | src/subscription.rs:29-47 | the channel is open until the handle is dropped |
| Subscription.NoDeadlock | src/runner.rs:210-231 | the poller moves, or the buffer is full and the next read lets it |
| Subscription.SubscriptionChannel.Send | src/subscription.rs:66-69 | the bounded queue: appends, waits when full, fails when closed, as the protocol's step |
| Subscription.SubscriptionChannel.Next | src/subscription.rs:44-47 | takes the oldest event, as the protocol's step |
| InstallStore.InMemoryInstallStore.Put | crates/greentic-events-runtime/src/install.rs:142-177 | stores the record under its own key |
| InstallStore.InMemoryInstallStore.ListInstalls | crates/greentic-events-runtime/src/install.rs:157-167 | lists each install of the provider once, in some order |
| InstallStore.ResolveInstall | crates/greentic-events-runtime/src/install.rs:107-133 | config references first, then secrets; the first that fails names the error |
| InstallStore.ResolveIff | crates/greentic-events-runtime/src/install.rs:107-133 | succeeds iff every reference reads, and then every key, and no other, has what its reference reads |
| InstallStore.ResolveErrIff | crates/greentic-events-runtime/src/install.rs:107-127 | a failed resolution names the first reference that does not read, configs before secrets |
| InstallStore.ResolveErrorCodeIff | crates/greentic-events-runtime/src/install.rs:523-532 | the code is decided by the word "secret" anywhere in the message, then by "config" |
| InstallStore.ResolveErrorClass | crates/greentic-events-runtime/src/install.rs:523-532 | a missing secret is always classified so, a missing config iff its reference lacks "secret"; never malformed |
| SinkRouting.BuildSinkRouter | crates/greentic-events-runtime/src/install.rs:247-310 | router and diagnostics are those of one turn per listed install of each sink; the router is the last-built one also with repeated names; with distinct sink names they partition the listed installs, each routed to its own instance or given exactly one diagnostic |
| SinkRouting.RoutedIffTurned | crates/greentic-events-runtime/src/install.rs:288-291 | for any turns, repeated ones included, a key is routed iff one of its turns succeeds |
| SinkRouting.DiagnosedPerTurn | crates/greentic-events-runtime/src/install.rs:276-301 | for any turns, repeated ones included, a key has one diagnostic per failed turn |
| SinkRouting.RoutedOrDiagnosed | crates/greentic-events-runtime/src/install.rs:254-301 | with distinct sink names each install is routed to its own instance iff its references read and the factory accepts it; else it has one diagnostic with the code and message of what failed |
| SinkRouting.TurnsPartition | crates/greentic-events-runtime/src/install.rs:247-310 | with distinct sink names the listed installs are partitioned into routed and diagnosed, and the router holds nothing else |
| SinkRouting.OnlySinksRouted | crates/greentic-events-runtime/src/install.rs:254-257 | only stored installs of sinks are routed, also with repeated sink names |
| SinkRouting.RoutedIsLastBuilt | crates/greentic-events-runtime/src/install.rs:254-301 | also with repeated sink names, each key is routed to what the last sink of its name that could be built built for it |
| SinkRouting.EmitReachesItsInstall | crates/greentic-events-runtime/src/install.rs:207-223 | emit reaches an instance iff some sink builds one for exactly the named install, and then that one |
| SinkRouting.EmitReachesOwnSink | crates/greentic-events-runtime/src/install.rs:207-223 | with distinct sink names, emit reaches the instance the sink of that name built for the install, or none |
| SubscriptionSync.MetadataRoundTrip | crates/greentic-events-runtime/src/install.rs:534-590 | what is written to the metadata is read back, and every other key keeps its value |
| SubscriptionSync.ReadStateMeans | crates/greentic-events-runtime/src/install.rs:574-590 | metadata never synced reads (0, false); else the count is cut to 32 bits and the latch is the stored one |
| SubscriptionSync.MetadataWritten | crates/greentic-events-runtime/src/install.rs:534-553 | the three members that are written |
| SubscriptionSync.SyncMeans | crates/greentic-events-runtime/src/install.rs:474-520 | one sync, from the driver's answers: when it is asked again, the error returned, and the record written, with count, latch and clock reading spelt out |
| SubscriptionSync.DiagnoseMeans | crates/greentic-events-runtime/src/install.rs:457-467 | one diagnostic for every sync that failed, unresolved installs included |
| SubscriptionSync.SubscriptionsWorker.IncrementFailures | crates/greentic-events-runtime/src/install.rs:555-572 | writes back the saturating count and the latch |
| SubscriptionSync.SubscriptionsWorker.SyncInstall | crates/greentic-events-runtime/src/install.rs:474-520 | retries to the first success or the end of the budget, waits as the policy says, writes exactly one record back, or none if unresolved |
| SubscriptionSync.SubscriptionsWorker.SyncAll | crates/greentic-events-runtime/src/install.rs:438-472 | goes through the wanted providers in order and syncs every install of each, with that provider's own spec, from its current record; nothing else is synced; once each with distinct names; one diagnostic per failed sync |
| SubscriptionSync.SyncsLikePublishIff | crates/greentic-events-runtime/src/install.rs:481-507 | the worker retries as `publish` does, for all answers, iff nothing is retried or the list of retryable errors admits every message |
| SubscriptionSync.ReplayConcat | crates/greentic-events-runtime/src/install.rs:438-472 | rounds of syncs compose into one history |
| SubscriptionSync.FailureStateTracks | crates/greentic-events-runtime/src/install.rs:555-572 | after any history of any installs, from any state, the persisted count and latch are a function of the failures since the last success |
| SubscriptionSync.FreshFailureState | crates/greentic-events-runtime/src/install.rs:555-572 | from metadata never synced the count is the streak (saturating), degraded iff there is a failure and the count has reached the threshold |
| SubscriptionSync.HistoryTouchesOnly | crates/greentic-events-runtime/src/install.rs:484-493 | identity, references, other metadata and other installs are unchanged; the subscriptions state is that of the last success |
| SyncOverlap.OverlapBounds | crates/greentic-events-runtime/src/install.rs:474-520 | however syncs overlap, the count is at most the exhausted syncs, the last write shows in count and state, the subscriptions state is the start's or a success's, nothing is degraded early and nothing else changes |
| SyncOverlap.OverlapLosesCount | crates/greentic-events-runtime/src/install.rs:555-572 | two overlapping failures of one install count as one where serial ones count as two |
| SyncOverlap.OverlapRevertsState | crates/greentic-events-runtime/src/install.rs:484-508 | a failing sync begun before a success writes the subscriptions state of the start back |
| SyncOverlap.UndisturbedIsSerial | crates/greentic-events-runtime/src/install.rs:474-520 | syncs that find their record unchanged when they write come to the serial history of their ends |
| SyncOverlap.AloneIsUndisturbed | crates/greentic-events-runtime/src/install.rs:438-472 | a sufficient case: no two syncs of one install overlap; the exact one is SerialIff |
| SyncSchedules.SerialIff | crates/greentic-events-runtime/src/install.rs:474-520 | a schedule comes to the serial history of its ends for all outcomes iff no sync ends stale, which the schedule alone decides |
| SyncSchedules.FailuresCountedIff | crates/greentic-events-runtime/src/install.rs:555-572 | count and latch are those of the failures since the last success for all outcomes iff no sync ends stale |
| SyncSchedules.StatesLastIff | crates/greentic-events-runtime/src/install.rs:484-493 | the subscriptions states are those of the last successes for all outcomes iff no sync ends stale |
| SyncSchedules.StaleDiverges | crates/greentic-events-runtime/src/install.rs:474-520 | for every stale end, outcomes with which it writes over another sync's write |
| ConfigFlow.ApplyQuestions | src/e2e.rs:1241-1262 | the in-place loop computes the fold over the fields, with its three errors |
| ConfigFlow.QuestionsSettle | src/e2e.rs:1247-1261 | asking only adds answers, and asking again changes nothing |
| ConfigFlow.RunConfigFlow | src/e2e.rs:1187-1224 | returns what the walk without limit ends with; reports the limit exactly when that walk never ends |
| ConfigFlow.FlowExplained | src/e2e.rs:1181-1240 | the outcome from the interpreter's own inputs: where it starts, with which answers, and why it ends where it ends |
| ConfigFlow.OutcomeExplained | src/e2e.rs:1190-1224 | a walk ends where the chain of routes first cannot be left, for the reason found there, knowing exactly the answers given and the defaults asked on the way |
| ConfigFlow.SuppliedAnswerCounts | src/e2e.rs:1181-1184 | a supplied answer is never reported missing, and the template is rendered with it |
| ConfigFlow.AskAllSourced | src/e2e.rs:1252-1258 | an answer is the given one, or else the default of the first field asking for it |
| ConfigFlow.VisitsSettle | src/e2e.rs:1198-1221 | a visit that goes on is idempotent, is limited to existing nodes, and leaves nodes visited before unaffected |
| ConfigFlow.Pigeonhole | src/e2e.rs:1189 | a walk still going after one visit per node loops for ever or is sent to a node that does not exist |
| ConfigFlow.BudgetSuffices | src/e2e.rs:1189-1224 | a walk that ends does so within one visit per node, one more for a lost node, so the budget changes no result |
| ConfigFlow.LostNodeNeedsOneMore | src/e2e.rs:1193-1196 | a flow for which one visit per node is not enough |
| ConfigFlow.ExtraVisitIff | src/e2e.rs:1189-1196 | of the walks that end, exactly those need the extra visit that go through every node and on to one that is not there |
| ConfigFlow.ComesBackLoops | src/e2e.rs:1211-1212 | a walk that comes back to a node never ends, since routing does not depend on answers |
| ConfigFlow.ExtraVisitIffChain | src/e2e.rs:1187-1224 | a walk has that extra visit iff its chain of routes goes through as many nodes as there are and on to a lost one, with every field on it supplied |
| ConfigFlow.LimitIffRevisit | src/e2e.rs:1224 | the limit is reported iff the walk comes back to a node |
| ConfigFlow.LimitIffChain | src/e2e.rs:1187-1262 | checkable beforehand: the limit is reported iff the chain of routes from the entry has more hops than the flow has nodes and each field on it is answered, defaulted, or asked before with a default |
| ConfigFlow.AskAllIff | src/e2e.rs:1241-1262 | asking succeeds iff every field is so supplied, and then exactly the answered and the defaulted are known |
| DryRun.SampleMeans | src/e2e.rs:1085-1091 | the made-up topic is the pattern with "test" for every star |
| DryRun.SampleMatches | src/e2e.rs:1085-1091 | the made-up topic always matches its pattern and holds no `*` |
| DryRun.CheckFindsBrokerIff | src/e2e.rs:425-464 | subscribe and publish of the check find the broker iff it declares a topic pattern |

## Left out

- Command line, shell scripts, pack opening, file reports and live external commands: input and output.
- JSON and YAML text, RFC 3339 times, template rendering and flow compilation: libraries that are not part of this model.
- `manifest_entry_flows` and the other manifest validators: a first-occurrence deduplication and one-branch checks.
- `SourceRuntime::start_sources`: the loop of the sink router without a router.
- Message and event bridges, WIT conversions, provider descriptors: map lookups and field copies. Of a pack's bridges the model has their overrides and whether they can be built.
- `EventBusBuilder::register_provider`, `with_acl` and the store and metrics setters: single assignments.
- The dry-run provider's broadcast channel: test fixture over a lossy library channel.
- Tracing spans, OpenTelemetry handles and latency values.
- RecordIn: does not model the wrap-around of a 64-bit counter, which takes 2^64 events; nor do its three siblings.
- SyncInstall: the store is the in-memory one, whose writes never fail; a store that refuses a write is not modelled.
- Run: publishers share one key store and one bus; a store shared by several buses would only add publishers.
- SubscriptionChannel: the interleaved protocol is modelled on values, each atomic channel operation being one step; the class shows that a real queue does those steps.
