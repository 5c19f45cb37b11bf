/** Provider registration from packs, with retry and dead-letter overrides (`src/bus.rs`). */
module Builder {
  import opened Wrappers
  import opened Backoff
  import opened Routing
  import opened Json

  datatype Overrides = Overrides(retry: Option<RetryPolicy>, dlqTopic: Option<string>)

  // ---- Annotation keys ----

  datatype Field = DlqTopic | MaxRetries | BaseDelayMs | MaxDelayMs | StrategyName | RetryableErrors

  function Suffix(f: Field): string {
    match f
    case DlqTopic => "dlq_topic"
    case MaxRetries => "retry.max_retries"
    case BaseDelayMs => "retry.base_delay_ms"
    case MaxDelayMs => "retry.max_delay_ms"
    case StrategyName => "retry.strategy"
    case RetryableErrors => "retry.retryable_errors"
  }

  function Prefix(name: string): string { "events.providers." + name + "." }

  function Key(name: string, f: Field): string { Prefix(name) + Suffix(f) }

  lemma SuffixShape(f: Field)
    ensures |Suffix(f)| == match f
                           case DlqTopic => 9
                           case MaxRetries => 17
                           case BaseDelayMs => 19
                           case MaxDelayMs => 18
                           case StrategyName => 14
                           case RetryableErrors => 22
    ensures forall i :: 0 <= i < |Suffix(f)| && Suffix(f)[i] == '.' ==> i == 5
  {}

  /** An annotation key names one provider and one field, dots in provider names notwithstanding. */
  lemma KeyUnambiguous(n1: string, f1: Field, n2: string, f2: Field)
    requires Key(n1, f1) == Key(n2, f2)
    ensures n1 == n2 && f1 == f2
  {
    SuffixShape(f1);
    SuffixShape(f2);
    if |n1| < |n2| {
      DotInSuffix(n1, f1, n2, f2);
      assert false;
    }
    if |n2| < |n1| {
      DotInSuffix(n2, f2, n1, f1);
      assert false;
    }
    assert n1 == Key(n1, f1)[17..17 + |n1|];
    assert n2 == Key(n2, f2)[17..17 + |n2|];
  }

  /** A shorter provider name leaves the longer one's closing dot inside its own suffix. */
  lemma DotInSuffix(n1: string, f1: Field, n2: string, f2: Field)
    requires Key(n1, f1) == Key(n2, f2) && |n1| < |n2|
    ensures |Suffix(f1)| == |Suffix(f2)| + |n2| - |n1|
    ensures |n2| - |n1| - 1 < |Suffix(f1)| && Suffix(f1)[|n2| - |n1| - 1] == '.'
  {
    var at := 17 + |n2|;
    assert Key(n2, f2)[at] == '.';
    assert Key(n1, f1)[at] == Suffix(f1)[at - 18 - |n1|];
  }

  // ---- Reading annotations ----

  function AsciiLower(s: string): string {
    seq(|s|, i requires 0 <= i < |s| => if 'A' <= s[i] <= 'Z' then (s[i] as int + 32) as char else s[i])
  }

  function ParseStrategy(s: string): Strategy {
    var lower := AsciiLower(s);
    if lower == "fixed" then Fixed else if lower == "exponential" then Exponential else ExponentialWithJitter
  }

  /** The documented names, in any case; every other name falls back to jitter. */
  lemma StrategyNames(s: string)
    ensures ParseStrategy(AsciiLower(s)) == ParseStrategy(s)
    ensures ParseStrategy("fixed") == Fixed && ParseStrategy("exponential") == Exponential
    ensures ParseStrategy("exponential_with_jitter") == ExponentialWithJitter
  {
    assert AsciiLower(AsciiLower(s)) == AsciiLower(s);
    assert AsciiLower("fixed") == "fixed" && AsciiLower("exponential") == "exponential";
    assert |AsciiLower("exponential_with_jitter")| == 23;
  }

  /** The same letter, up to ASCII case. */
  predicate SameLetter(a: char, b: char) {
    || a == b
    || ('A' <= a <= 'Z' && b as int == a as int + 32)
    || ('A' <= b <= 'Z' && a as int == b as int + 32)
  }

  predicate SameName(a: string, b: string) {
    |a| == |b| && forall i :: 0 <= i < |a| ==> SameLetter(a[i], b[i])
  }

  /** A strategy is named by its documented name in any mixture of cases, and by nothing else. */
  lemma StrategyIff(s: string)
    ensures ParseStrategy(s) == Fixed <==> SameName(s, "fixed")
    ensures ParseStrategy(s) == Exponential <==> SameName(s, "exponential")
  {
    LowerIff(s, "fixed");
    LowerIff(s, "exponential");
    assert "fixed"[0] != "exponential"[0];
  }

  lemma LowerIff(s: string, name: string)
    requires forall i :: 0 <= i < |name| ==> 'a' <= name[i] <= 'z'
    ensures AsciiLower(s) == name <==> SameName(s, name)
  {
    if SameName(s, name) {
      forall i | 0 <= i < |s| ensures AsciiLower(s)[i] == name[i] {
        assert SameLetter(s[i], name[i]);
      }
    }
    if AsciiLower(s) == name {
      forall i | 0 <= i < |s| ensures SameLetter(s[i], name[i]) {
        assert AsciiLower(s)[i] == name[i];
      }
    }
  }

  function FromMillis(ms: nat): Duration
    requires ms <= U64_MAX
  {
    ms * 1_000_000
  }

  function Strings(items: seq<Value>): seq<string> {
    if items == [] then []
    else Strings(items[..|items| - 1]) + if items[|items| - 1].Str? then [items[|items| - 1].s] else []
  }

  type Annotations = map<string, Value>

  /** The value of one field, if it is there and of the right type. */
  function Lookup<T>(annotations: Annotations, name: string, f: Field, read: Value -> Option<T>): Option<T> {
    if Key(name, f) in annotations then read(annotations[Key(name, f)]) else None
  }

  function ReadMaxRetries(v: Value): Option<u32> {
    if v.AsU64().Some? then Some(TruncateU32(v.AsU64().value)) else None
  }

  function ReadMillis(v: Value): Option<Duration> {
    if v.AsU64().Some? then Some(FromMillis(v.AsU64().value)) else None
  }

  function ReadStrategy(v: Value): Option<Strategy> {
    if v.Str? then Some(ParseStrategy(v.s)) else None
  }

  function ReadErrors(v: Value): Option<seq<string>> {
    if v.Array? then Some(Strings(v.items)) else None
  }

  function ReadTopic(v: Value): Option<string> { v.AsStr() }

  /** The retry fields that are annotated and well typed. */
  datatype Patch = Patch(
    maxRetries: Option<u32>,
    baseDelay: Option<Duration>,
    maxDelay: Option<Duration>,
    strategy: Option<Strategy>,
    errors: Option<seq<string>>)
  {
    /** A policy exists once one field does; every other field has its default. */
    function Policy(): Option<RetryPolicy> {
      if this == Patch(None, None, None, None, None) then None
      else Some(RetryPolicy(
                  maxRetries.GetOr(DEFAULT_POLICY.maxRetries),
                  strategy.GetOr(DEFAULT_POLICY.strategy),
                  baseDelay.GetOr(DEFAULT_POLICY.baseDelay),
                  maxDelay.GetOr(DEFAULT_POLICY.maxDelay),
                  errors.GetOr(DEFAULT_POLICY.retryableErrors)))
    }
  }

  function PatchFor(annotations: Annotations, name: string): Patch {
    Patch(
      Lookup(annotations, name, MaxRetries, ReadMaxRetries),
      Lookup(annotations, name, BaseDelayMs, ReadMillis),
      Lookup(annotations, name, MaxDelayMs, ReadMillis),
      Lookup(annotations, name, StrategyName, ReadStrategy),
      Lookup(annotations, name, RetryableErrors, ReadErrors))
  }

  function RetryFor(annotations: Annotations, name: string): Option<RetryPolicy> {
    PatchFor(annotations, name).Policy()
  }

  function DlqFor(annotations: Annotations, name: string): Option<string> {
    Lookup(annotations, name, DlqTopic, ReadTopic)
  }

  /** Field by field, from the map alone. */
  function OverridesFor(annotations: Annotations, name: string): Option<Overrides> {
    var retry := RetryFor(annotations, name);
    var dlqTopic := DlqFor(annotations, name);
    if retry.Some? || dlqTopic.Some? then Some(Overrides(retry, dlqTopic)) else None
  }

  // ---- What the annotations say, spelt out ----

  function Annotated(annotations: Annotations, name: string, suffix: string): Option<Value> {
    var key := "events.providers." + name + "." + suffix;
    if key in annotations then Some(annotations[key]) else None
  }

  /** A whole number of 64 bits. */
  predicate Counts(annotated: Option<Value>, n: int) {
    annotated == Some(Integer(n)) && 0 <= n <= 18446744073709551615
  }

  ghost predicate Number(annotated: Option<Value>) { exists n :: Counts(annotated, n) }

  predicate Text(annotated: Option<Value>) { annotated.Some? && annotated.value.Str? }

  predicate List(annotated: Option<Value>) { annotated.Some? && annotated.value.Array? }

  /** A provider has a policy of its own iff one of its five retry annotations is well typed; then each
      field is the annotated one, or else the documented default. */
  lemma RetryMeans(annotations: Annotations, name: string)
    ensures var retries := Annotated(annotations, name, "retry.max_retries");
            var base, cap := Annotated(annotations, name, "retry.base_delay_ms"),
                Annotated(annotations, name, "retry.max_delay_ms");
            var strategy := Annotated(annotations, name, "retry.strategy");
            var errors := Annotated(annotations, name, "retry.retryable_errors");
            var policy := RetryFor(annotations, name);
            && (policy.Some? <==> Number(retries) || Number(base) || Number(cap) || Text(strategy) || List(errors))
            && (policy.Some? ==>
                  && (forall n :: Counts(retries, n) ==> policy.value.maxRetries == n % 4294967296)
                  && (!Number(retries) ==> policy.value.maxRetries == 3)
                  && (forall n :: Counts(base, n) ==> policy.value.baseDelay == n * 1000000)
                  && (!Number(base) ==> policy.value.baseDelay == 500000000)
                  && (forall n :: Counts(cap, n) ==> policy.value.maxDelay == n * 1000000)
                  && (!Number(cap) ==> policy.value.maxDelay == 30000000000)
                  && policy.value.strategy
                      == (if Text(strategy) then ParseStrategy(strategy.value.s) else ExponentialWithJitter)
                  && policy.value.retryableErrors == (if List(errors) then Strings(errors.value.items) else []))
  {
    KeysSpelt(annotations, name);
    NumberRead(Annotated(annotations, name, "retry.max_retries"));
    NumberRead(Annotated(annotations, name, "retry.base_delay_ms"));
    NumberRead(Annotated(annotations, name, "retry.max_delay_ms"));
  }

  lemma NumberRead(annotated: Option<Value>)
    ensures Number(annotated) <==> annotated.Some? && annotated.value.AsU64().Some?
    ensures forall n :: Counts(annotated, n) ==> annotated.value.AsU64() == Some(n)
  {
    if annotated.Some? && annotated.value.AsU64().Some? {
      assert Counts(annotated, annotated.value.n);
    }
  }

  lemma KeysSpelt(annotations: Annotations, name: string)
    ensures Lookup(annotations, name, MaxRetries, ReadMaxRetries)
         == Read(Annotated(annotations, name, "retry.max_retries"), ReadMaxRetries)
    ensures Lookup(annotations, name, BaseDelayMs, ReadMillis)
         == Read(Annotated(annotations, name, "retry.base_delay_ms"), ReadMillis)
    ensures Lookup(annotations, name, MaxDelayMs, ReadMillis)
         == Read(Annotated(annotations, name, "retry.max_delay_ms"), ReadMillis)
    ensures Lookup(annotations, name, StrategyName, ReadStrategy)
         == Read(Annotated(annotations, name, "retry.strategy"), ReadStrategy)
    ensures Lookup(annotations, name, RetryableErrors, ReadErrors)
         == Read(Annotated(annotations, name, "retry.retryable_errors"), ReadErrors)
    ensures Lookup(annotations, name, DlqTopic, ReadTopic) == Read(Annotated(annotations, name, "dlq_topic"), ReadTopic)
  {}

  function Read<T>(annotated: Option<Value>, read: Value -> Option<T>): Option<T> {
    if annotated.Some? then read(annotated.value) else None
  }

  /** The dead-letter topic is the annotated string; a provider has overrides iff it has that or a policy. */
  lemma OverridesMean(annotations: Annotations, name: string)
    ensures var topic := Annotated(annotations, name, "dlq_topic");
            var overrides := OverridesFor(annotations, name);
            && (overrides.None? <==> !Text(topic) && RetryFor(annotations, name).None?)
            && (overrides.Some? ==>
                  && overrides.value.dlqTopic == (if Text(topic) then Some(topic.value.s) else None)
                  && overrides.value.retry == RetryFor(annotations, name))
  {
    KeysSpelt(annotations, name);
  }

  /** Only the strings of a list count, in order. */
  lemma StringsMean(before: seq<Value>, after: seq<Value>, v: Value)
    ensures Strings([]) == []
    ensures Strings([v]) == if v.Str? then [v.s] else []
    ensures Strings(before + after) == Strings(before) + Strings(after)
  {
    assert [v][..0] == [];
    StringsConcat(before, after);
  }

  lemma {:induction false} StringsConcat(before: seq<Value>, after: seq<Value>)
    ensures Strings(before + after) == Strings(before) + Strings(after)
    decreases |after|
  {
    if after == [] {
      assert before + after == before;
    } else {
      var n := |after| - 1;
      StringsConcat(before, after[..n]);
      assert (before + after)[..|before| + n] == before + after[..n];
      assert (before + after)[|before| + n] == after[n];
    }
  }

  type Entry = (string, Value)

  ghost predicate DistinctKeys(entries: seq<Entry>) {
    forall i, j :: 0 <= i < j < |entries| ==> entries[i].0 != entries[j].0
  }

  function MapOf(entries: seq<Entry>): Annotations {
    if entries == [] then map[]
    else MapOf(entries[..|entries| - 1])[entries[|entries| - 1].0 := entries[|entries| - 1].1]
  }

  lemma {:induction false} EntryInMap(entries: seq<Entry>, i: nat)
    requires DistinctKeys(entries) && i < |entries|
    ensures entries[i].0 in MapOf(entries) && MapOf(entries)[entries[i].0] == entries[i].1
  {
    if i < |entries| - 1 {
      EntryInMap(entries[..|entries| - 1], i);
    }
  }

  lemma {:induction false} KeyFromEntry(entries: seq<Entry>, key: string) returns (i: nat)
    requires key in MapOf(entries)
    ensures i < |entries| && entries[i] == (key, MapOf(entries)[key])
  {
    i := |entries| - 1;
    if entries[i].0 != key {
      i := KeyFromEntry(entries[..|entries| - 1], key);
    }
  }

  lemma KeyKept(entries: seq<Entry>, reordered: seq<Entry>, key: string)
    requires DistinctKeys(reordered) && key in MapOf(entries)
    requires forall e :: e in entries ==> e in reordered
    ensures key in MapOf(reordered) && MapOf(reordered)[key] == MapOf(entries)[key]
  {
    var i := KeyFromEntry(entries, key);
    assert entries[i] in reordered;
    var j :| 0 <= j < |reordered| && reordered[j] == entries[i];
    EntryInMap(reordered, j);
  }

  /** The order in which a map yields its entries does not matter. */
  lemma OrderIrrelevant(entries: seq<Entry>, reordered: seq<Entry>)
    requires DistinctKeys(entries) && DistinctKeys(reordered)
    requires forall e :: e in entries <==> e in reordered
    ensures MapOf(entries) == MapOf(reordered)
  {
    forall key | key in MapOf(entries) ensures key in MapOf(reordered) && MapOf(reordered)[key] == MapOf(entries)[key] {
      KeyKept(entries, reordered, key);
    }
    forall key | key in MapOf(reordered) ensures key in MapOf(entries) {
      KeyKept(reordered, entries, key);
    }
  }

  /** A provider's overrides depend on its own annotations only. */
  lemma OtherProvidersIrrelevant(annotations: Annotations, name: string, other: string, f: Field, v: Value)
    requires other != name
    ensures OverridesFor(annotations[Key(other, f) := v], name) == OverridesFor(annotations, name)
  {
    forall g ensures Key(name, g) != Key(other, f) {
      if Key(name, g) == Key(other, f) {
        KeyUnambiguous(name, g, other, f);
      }
    }
  }

  // ---- The fold as written ----

  function OrDefault(retry: Option<RetryPolicy>): RetryPolicy { retry.GetOr(DEFAULT_POLICY) }

  /** `entries` are the annotations in whatever order the map yields them. */
  method OverridesFromAnnotations(name: string, entries: seq<Entry>) returns (overrides: Option<Overrides>)
    requires DistinctKeys(entries)
    ensures overrides == OverridesFor(MapOf(entries), name)
  {
    var retry: Option<RetryPolicy> := None;
    var dlqTopic: Option<string> := None;
    for i := 0 to |entries|
      invariant retry == RetryFor(MapOf(entries[..i]), name)
      invariant dlqTopic == DlqFor(MapOf(entries[..i]), name)
    {
      var (key, value) := entries[i];
      assert entries[..i + 1][..i] == entries[..i];
      NewKey(entries, i);
      retry, dlqTopic := ReadEntry(name, key, value, retry, dlqTopic, MapOf(entries[..i]));
    }
    assert entries[..|entries|] == entries;
    if retry.Some? || dlqTopic.Some? {
      overrides := Some(Overrides(retry, dlqTopic));
    } else {
      overrides := None;
    }
  }

  /** One turn of the loop; `before` is what the turns so far have read. */
  method ReadEntry(
    name: string, key: string, value: Value, retry: Option<RetryPolicy>, dlqTopic: Option<string>,
    ghost before: Annotations)
    returns (retry': Option<RetryPolicy>, dlqTopic': Option<string>)
    requires key !in before && retry == RetryFor(before, name) && dlqTopic == DlqFor(before, name)
    ensures retry' == RetryFor(before[key := value], name)
    ensures dlqTopic' == DlqFor(before[key := value], name)
  {
    retry', dlqTopic' := retry, dlqTopic;
    var prefix := Prefix(name);
    if !(prefix <= key) {
      ForeignKey(before, name, key, value);
      return;
    }
    var suffix := key[|prefix|..];
    assert key == prefix + suffix;
    if suffix == "dlq_topic" {
      OwnKey(before, name, DlqTopic, value);
      if value.Str? {
        dlqTopic' := Some(value.s);
      }
    } else {
      retry' := ReadRetryEntry(name, suffix, value, retry, before);
    }
  }

  /** The five suffixes that concern retries; any other is skipped. */
  method ReadRetryEntry(
    name: string, suffix: string, value: Value, retry: Option<RetryPolicy>, ghost before: Annotations)
    returns (retry': Option<RetryPolicy>)
    requires Prefix(name) + suffix !in before && retry == RetryFor(before, name) && suffix != Suffix(DlqTopic)
    ensures retry' == RetryFor(before[Prefix(name) + suffix := value], name)
    ensures DlqFor(before[Prefix(name) + suffix := value], name) == DlqFor(before, name)
  {
    retry' := retry;
    if suffix == "retry.max_retries" {
      OwnKey(before, name, MaxRetries, value);
      if value.AsU64().Some? {
        retry' := Some(OrDefault(retry).(maxRetries := TruncateU32(value.AsU64().value)));
      }
    } else if suffix == "retry.base_delay_ms" {
      OwnKey(before, name, BaseDelayMs, value);
      if value.AsU64().Some? {
        retry' := Some(OrDefault(retry).(baseDelay := FromMillis(value.AsU64().value)));
      }
    } else if suffix == "retry.max_delay_ms" {
      OwnKey(before, name, MaxDelayMs, value);
      if value.AsU64().Some? {
        retry' := Some(OrDefault(retry).(maxDelay := FromMillis(value.AsU64().value)));
      }
    } else if suffix == "retry.strategy" {
      OwnKey(before, name, StrategyName, value);
      if value.Str? {
        retry' := Some(OrDefault(retry).(strategy := ParseStrategy(value.s)));
      }
    } else if suffix == "retry.retryable_errors" {
      OwnKey(before, name, RetryableErrors, value);
      if value.Array? {
        var errors := CollectStrings(value.items);
        retry' := Some(OrDefault(retry).(retryableErrors := errors));
      }
    } else {
      ForeignSuffix(name, suffix);
      ForeignKey(before, name, Prefix(name) + suffix, value);
    }
  }

  lemma ForeignSuffix(name: string, suffix: string)
    requires forall f: Field :: suffix != Suffix(f)
    ensures forall f: Field :: Prefix(name) + suffix != Key(name, f)
  {
    forall f: Field ensures Prefix(name) + suffix != Key(name, f) {
      assert Key(name, f)[|Prefix(name)|..] == Suffix(f);
      assert (Prefix(name) + suffix)[|Prefix(name)|..] == suffix;
    }
  }

  method CollectStrings(items: seq<Value>) returns (errors: seq<string>)
    ensures errors == Strings(items)
  {
    errors := [];
    for i := 0 to |items|
      invariant errors == Strings(items[..i])
    {
      assert items[..i + 1][..i] == items[..i];
      if items[i].Str? {
        errors := errors + [items[i].s];
      }
    }
    assert items[..|items|] == items;
  }

  lemma NewKey(entries: seq<Entry>, i: nat)
    requires DistinctKeys(entries) && i < |entries|
    ensures entries[i].0 !in MapOf(entries[..i])
  {
    if entries[i].0 in MapOf(entries[..i]) {
      var j := KeyFromEntry(entries[..i], entries[i].0);
      assert false;
    }
  }

  /** The entry under a field's key changes that field, if it is of the right type, and no other. */
  lemma OwnKey(annotations: Annotations, name: string, f: Field, v: Value)
    requires Key(name, f) !in annotations
    ensures var before, after := PatchFor(annotations, name), PatchFor(annotations[Key(name, f) := v], name);
            after == match f
                     case DlqTopic => before
                     case MaxRetries => before.(maxRetries := ReadMaxRetries(v))
                     case BaseDelayMs => before.(baseDelay := ReadMillis(v))
                     case MaxDelayMs => before.(maxDelay := ReadMillis(v))
                     case StrategyName => before.(strategy := ReadStrategy(v))
                     case RetryableErrors => before.(errors := ReadErrors(v))
    ensures var before, after := RetryFor(annotations, name), RetryFor(annotations[Key(name, f) := v], name);
            match f
            case DlqTopic => after == before
            case MaxRetries => after == SetIf(ReadMaxRetries(v), before, x => OrDefault(before).(maxRetries := x))
            case BaseDelayMs => after == SetIf(ReadMillis(v), before, x => OrDefault(before).(baseDelay := x))
            case MaxDelayMs => after == SetIf(ReadMillis(v), before, x => OrDefault(before).(maxDelay := x))
            case StrategyName => after == SetIf(ReadStrategy(v), before, x => OrDefault(before).(strategy := x))
            case RetryableErrors => after == SetIf(ReadErrors(v), before, x => OrDefault(before).(retryableErrors := x))
    ensures DlqFor(annotations[Key(name, f) := v], name) ==
            if f == DlqTopic then ReadTopic(v) else DlqFor(annotations, name)
  {
    forall g: Field | g != f ensures Key(name, g) != Key(name, f) {
      if Key(name, g) == Key(name, f) {
        KeyUnambiguous(name, g, name, f);
      }
    }
  }

  function SetIf<T>(read: Option<T>, before: Option<RetryPolicy>, set1: T -> RetryPolicy): Option<RetryPolicy> {
    if read.Some? then Some(set1(read.value)) else before
  }

  lemma ForeignKey(annotations: Annotations, name: string, key: string, v: Value)
    requires forall f: Field :: key != Key(name, f)
    ensures RetryFor(annotations[key := v], name) == RetryFor(annotations, name)
    ensures DlqFor(annotations[key := v], name) == DlqFor(annotations, name)
  {}
}
