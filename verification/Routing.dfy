/** Who may publish, and to which provider an event goes (`src/acl.rs`, `src/bus.rs`). */
module Routing {
  import opened Wrappers
  import opened Backoff
  import Pattern
  import TopicGrammar

  /** `body` stands for every field that publishing only carries along. */
  datatype Event = Event(id: string, topic: string, tenant: string, body: string, metadata: map<string, string>)

  datatype AclRule = AclRule(tenantPattern: string, topicPattern: string, allowPublish: bool, allowSubscribe: bool) {
    predicate Matches(tenant: string, topic: string) {
      Pattern.MatchesPattern(tenantPattern, tenant) && Pattern.MatchesPattern(topicPattern, topic)
    }
  }

  datatype Acl = Acl(rules: seq<AclRule>, defaultAllow: bool)

  datatype Registration = Registration(
    name: string,
    topics: seq<string>,
    dlqTopic: Option<string>,
    retry: RetryPolicy)
  {
    predicate Serves(topic: string) {
      exists i :: 0 <= i < |topics| && Pattern.MatchesPattern(topics[i], topic)
    }
  }

  /** `rules.iter().find(..)` */
  function FindRule(rules: seq<AclRule>, tenant: string, topic: string): Option<AclRule> {
    if rules == [] then None
    else if rules[0].Matches(tenant, topic) then Some(rules[0])
    else FindRule(rules[1..], tenant, topic)
  }

  predicate AllowPublish(acl: Acl, tenant: string, topic: string) {
    match FindRule(acl.rules, tenant, topic)
    case Some(rule) => rule.allowPublish
    case None => acl.defaultAllow
  }

  predicate AllowSubscribe(acl: Acl, tenant: string, topic: string) {
    match FindRule(acl.rules, tenant, topic)
    case Some(rule) => rule.allowSubscribe
    case None => acl.defaultAllow
  }

  /** `provider_for_topic`, by position in the provider list. */
  function ProviderForTopic(providers: seq<Registration>, topic: string): (p: Option<nat>)
    ensures p.Some? ==> p.value < |providers|
  {
    if providers == [] then None
    else if providers[0].Serves(topic) then Some(0)
    else
      match ProviderForTopic(providers[1..], topic)
      case Some(i) => Some(i + 1)
      case None => None
  }

  // ---- First match wins ----

  ghost predicate FirstRule(rules: seq<AclRule>, tenant: string, topic: string, i: nat) {
    && i < |rules|
    && rules[i].Matches(tenant, topic)
    && forall j :: 0 <= j < i ==> !rules[j].Matches(tenant, topic)
  }

  ghost predicate FirstProvider(providers: seq<Registration>, topic: string, i: nat) {
    && i < |providers|
    && providers[i].Serves(topic)
    && forall j :: 0 <= j < i ==> !providers[j].Serves(topic)
  }

  lemma {:induction false} FindRuleIsFirst(rules: seq<AclRule>, tenant: string, topic: string)
    ensures FindRule(rules, tenant, topic).None? <==> forall j :: 0 <= j < |rules| ==> !rules[j].Matches(tenant, topic)
    ensures forall i: nat :: FirstRule(rules, tenant, topic, i) ==> FindRule(rules, tenant, topic) == Some(rules[i])
  {
    if rules != [] {
      FindRuleIsFirst(rules[1..], tenant, topic);
      assert forall j {:trigger rules[j]} :: 1 <= j < |rules| ==> rules[j] == rules[1..][j - 1];
      forall i: nat | FirstRule(rules, tenant, topic, i) ensures FindRule(rules, tenant, topic) == Some(rules[i]) {
        if i > 0 {
          assert !rules[0].Matches(tenant, topic);
          assert forall j {:trigger rules[1..][j]} :: 0 <= j < i - 1 ==> rules[1..][j] == rules[j + 1];
          assert FirstRule(rules[1..], tenant, topic, i - 1);
        }
      }
      assert forall j {:trigger rules[1..][j]} :: 0 <= j < |rules| - 1 ==> rules[1..][j] == rules[j + 1];
    }
  }

  /** A rule decides exactly when it matches and none before it does; with no match the default decides. */
  lemma AclFirstMatchWins(acl: Acl, tenant: string, topic: string)
    ensures forall i: nat :: FirstRule(acl.rules, tenant, topic, i) ==>
              && AllowPublish(acl, tenant, topic) == acl.rules[i].allowPublish
              && AllowSubscribe(acl, tenant, topic) == acl.rules[i].allowSubscribe
    ensures (forall j :: 0 <= j < |acl.rules| ==> !acl.rules[j].Matches(tenant, topic)) ==>
              AllowPublish(acl, tenant, topic) == AllowSubscribe(acl, tenant, topic) == acl.defaultAllow
  {
    FindRuleIsFirst(acl.rules, tenant, topic);
  }

  /** The builder replaces the rules but never the default, which is to allow: an access list built
      through it denies exactly what the first matching rule denies. */
  lemma BuiltAclDeniesByRuleOnly(rules: seq<AclRule>, tenant: string, topic: string)
    ensures !AllowPublish(Acl(rules, true), tenant, topic) <==>
            exists i: nat :: FirstRule(rules, tenant, topic, i) && !rules[i].allowPublish
    ensures !AllowSubscribe(Acl(rules, true), tenant, topic) <==>
            exists i: nat :: FirstRule(rules, tenant, topic, i) && !rules[i].allowSubscribe
  {
    FindRuleIsFirst(rules, tenant, topic);
    if FindRule(rules, tenant, topic).Some? {
      var i := FirstRuleExists(rules, tenant, topic);
    }
  }

  /** Such a list acts as an allowlist would, which denies whatever no rule speaks of, iff some rule
      matches. */
  lemma BuiltAclAllowlistIff(rules: seq<AclRule>, tenant: string, topic: string)
    ensures
      && AllowPublish(Acl(rules, true), tenant, topic) == AllowPublish(Acl(rules, false), tenant, topic)
      && AllowSubscribe(Acl(rules, true), tenant, topic) == AllowSubscribe(Acl(rules, false), tenant, topic)
      <==> exists j :: 0 <= j < |rules| && rules[j].Matches(tenant, topic)
  {
    FindRuleIsFirst(rules, tenant, topic);
  }

  // ---- Access control read as globs ----

  /** The rule as its patterns are documented. */
  predicate GlobApplies(rule: AclRule, tenant: string, topic: string) {
    Pattern.Glob(rule.tenantPattern, tenant) && Pattern.Glob(rule.topicPattern, topic)
  }

  function FindGlobRule(rules: seq<AclRule>, tenant: string, topic: string): Option<AclRule> {
    if rules == [] then None
    else if GlobApplies(rules[0], tenant, topic) then Some(rules[0])
    else FindGlobRule(rules[1..], tenant, topic)
  }

  predicate GlobAllowPublish(acl: Acl, tenant: string, topic: string) {
    match FindGlobRule(acl.rules, tenant, topic)
    case Some(rule) => rule.allowPublish
    case None => acl.defaultAllow
  }

  predicate GlobAllowSubscribe(acl: Acl, tenant: string, topic: string) {
    match FindGlobRule(acl.rules, tenant, topic)
    case Some(rule) => rule.allowSubscribe
    case None => acl.defaultAllow
  }

  ghost predicate DecidedAsGlobs(acl: Acl, tenant: string, topic: string) {
    && FindRule(acl.rules, tenant, topic) == FindGlobRule(acl.rules, tenant, topic)
    && AllowPublish(acl, tenant, topic) == GlobAllowPublish(acl, tenant, topic)
    && AllowSubscribe(acl, tenant, topic) == GlobAllowSubscribe(acl, tenant, topic)
  }

  lemma {:induction false} StarFreeFindsGlobRule(rules: seq<AclRule>, tenant: string, topic: string)
    requires '*' !in tenant && '*' !in topic
    ensures FindRule(rules, tenant, topic) == FindGlobRule(rules, tenant, topic)
  {
    if rules != [] {
      Pattern.MatchIffGlob(rules[0].tenantPattern, tenant);
      Pattern.MatchIffGlob(rules[0].topicPattern, topic);
      StarFreeFindsGlobRule(rules[1..], tenant, topic);
    }
  }

  lemma MissedByPattern(value: string) returns (pattern: string)
    requires '*' in value
    ensures Pattern.Glob(pattern, value) && !Pattern.MatchesPattern(pattern, value)
  {
    var i :| 0 <= i < |value| && value[i] == '*';
    pattern := Pattern.MissedPattern(value, i);
  }

  /** A rule that denies, as documented, and that the matcher passes over. */
  lemma StarSlipsPast(tenant: string, topic: string) returns (rule: AclRule)
    requires '*' in tenant || '*' in topic
    ensures !rule.allowPublish && !rule.allowSubscribe
    ensures GlobApplies(rule, tenant, topic) && !rule.Matches(tenant, topic)
  {
    Pattern.LoneStar(tenant);
    Pattern.LoneStar(topic);
    if '*' in tenant {
      var pattern := MissedByPattern(tenant);
      rule := AclRule(pattern, "*", false, false);
    } else {
      var pattern := MissedByPattern(topic);
      rule := AclRule("*", pattern, false, false);
    }
  }

  /** Every access list decides a tenant and a topic as documented iff neither holds a `*`. Otherwise some
      list that is documented to deny lets both operations through. */
  lemma AclExactIff(tenant: string, topic: string)
    ensures (forall acl :: DecidedAsGlobs(acl, tenant, topic)) <==> '*' !in tenant && '*' !in topic
    ensures '*' in tenant || '*' in topic ==>
              exists acl :: && AllowPublish(acl, tenant, topic) && !GlobAllowPublish(acl, tenant, topic)
                            && AllowSubscribe(acl, tenant, topic) && !GlobAllowSubscribe(acl, tenant, topic)
  {
    if '*' !in tenant && '*' !in topic {
      forall acl: Acl ensures DecidedAsGlobs(acl, tenant, topic) {
        StarFreeFindsGlobRule(acl.rules, tenant, topic);
      }
    } else {
      var rule := StarSlipsPast(tenant, topic);
      var acl := Acl([rule], true);
      assert FindRule(acl.rules, tenant, topic) == None;
      assert FindGlobRule(acl.rules, tenant, topic) == Some(rule);
      assert !DecidedAsGlobs(acl, tenant, topic);
      assert AllowPublish(acl, tenant, topic) && !GlobAllowPublish(acl, tenant, topic);
    }
  }

  lemma {:induction false} FirstRuleExists(rules: seq<AclRule>, tenant: string, topic: string) returns (i: nat)
    requires FindRule(rules, tenant, topic).Some?
    ensures FirstRule(rules, tenant, topic, i) && FindRule(rules, tenant, topic) == Some(rules[i])
  {
    if rules[0].Matches(tenant, topic) {
      i := 0;
    } else {
      var k := FirstRuleExists(rules[1..], tenant, topic);
      i := k + 1;
      assert forall j {:trigger rules[j]} :: 1 <= j < i ==> rules[j] == rules[1..][j - 1];
    }
  }

  lemma {:induction false} RouteIsFirst(providers: seq<Registration>, topic: string)
    ensures forall i: nat :: ProviderForTopic(providers, topic) == Some(i) <==> FirstProvider(providers, topic, i)
    ensures ProviderForTopic(providers, topic) == None <==>
              forall j :: 0 <= j < |providers| ==> !providers[j].Serves(topic)
  {
    if providers != [] {
      var rest := providers[1..];
      RouteIsFirst(rest, topic);
      assert forall j {:trigger providers[j]} :: 1 <= j < |providers| ==> providers[j] == rest[j - 1];
      assert forall j {:trigger rest[j]} :: 0 <= j < |rest| ==> rest[j] == providers[j + 1];
      forall i: nat ensures ProviderForTopic(providers, topic) == Some(i) <==> FirstProvider(providers, topic, i) {
        if i > 0 && !providers[0].Serves(topic) {
          assert FirstProvider(rest, topic, i - 1) <==> FirstProvider(providers, topic, i);
        }
      }
    }
  }

  /** Registering more providers never reroutes a topic that already had one. */
  lemma AppendKeepsRoute(providers: seq<Registration>, more: seq<Registration>, topic: string)
    requires ProviderForTopic(providers, topic).Some?
    ensures ProviderForTopic(providers + more, topic) == ProviderForTopic(providers, topic)
  {
    var i := ProviderForTopic(providers, topic).value;
    RouteIsFirst(providers, topic);
    RouteIsFirst(providers + more, topic);
    assert FirstProvider(providers + more, topic, i);
  }

  /** On well-formed topics a provider is found exactly when one of its patterns, read as a glob,
      matches the topic. */
  lemma ValidTopicRoutedByGlob(providers: seq<Registration>, topic: string)
    requires TopicGrammar.Accepts(TopicGrammar.TOPIC, topic)
    ensures ProviderForTopic(providers, topic).None? <==>
            forall j, k :: 0 <= j < |providers| && 0 <= k < |providers[j].topics| ==>
              !Pattern.Glob(providers[j].topics[k], topic)
  {
    RouteIsFirst(providers, topic);
    forall j, k | 0 <= j < |providers| && 0 <= k < |providers[j].topics|
      ensures Pattern.MatchesPattern(providers[j].topics[k], topic) <==> Pattern.Glob(providers[j].topics[k], topic)
    {
      TopicGrammar.ValidTopicMatchedExactly(topic, providers[j].topics[k]);
    }
  }

  /** Some pattern of some provider, read as a glob, matches the topic. */
  ghost predicate GlobServed(providers: seq<Registration>, topic: string) {
    exists j, k :: 0 <= j < |providers| && 0 <= k < |providers[j].topics| && Pattern.Glob(providers[j].topics[k], topic)
  }

  /** Every list of providers routes a topic exactly when one of its globs matches it iff the topic holds
      no `*`. */
  lemma RouteExactIff(topic: string)
    ensures (forall providers :: ProviderForTopic(providers, topic).Some? <==> GlobServed(providers, topic))
       <==> '*' !in topic
  {
    if '*' !in topic {
      forall providers ensures ProviderForTopic(providers, topic).Some? <==> GlobServed(providers, topic) {
        StarFreeRouted(providers, topic);
      }
    } else {
      var pattern := MissedByPattern(topic);
      var providers := [Registration("", [pattern], None, DEFAULT_POLICY)];
      assert providers[0].topics[0] == pattern;
      assert GlobServed(providers, topic) && !providers[0].Serves(topic);
      assert ProviderForTopic(providers, topic).None?;
    }
  }

  lemma StarFreeRouted(providers: seq<Registration>, topic: string)
    requires '*' !in topic
    ensures ProviderForTopic(providers, topic).Some? <==> GlobServed(providers, topic)
  {
    RouteIsFirst(providers, topic);
    forall j, k | 0 <= j < |providers| && 0 <= k < |providers[j].topics|
      ensures Pattern.MatchesPattern(providers[j].topics[k], topic) <==> Pattern.Glob(providers[j].topics[k], topic)
    {
      Pattern.MatchIffGlob(providers[j].topics[k], topic);
    }
  }
}
