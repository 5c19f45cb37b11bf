/** The bus builder: registering a pack's providers and laying overrides over them (`src/bus.rs`). */
module Registry {
  import opened Wrappers
  import opened Backoff
  import opened Routing
  import opened Builder

  datatype Kind = Broker | Source | Sink | Bridge

  datatype ProviderSpec = ProviderSpec(name: string, kind: Kind, topics: seq<string>)

  type OverrideMap = map<string, Overrides>

  /** What there is to learn about a provider from the annotations of its pack. */
  type Learning = string -> Option<Overrides>

  function FromAnnotations(annotations: Annotations): Learning {
    name => OverridesFor(annotations, name)
  }

  function Names(specs: seq<ProviderSpec>): set<string> {
    set spec | spec in specs :: spec.name
  }

  /** What a pack overrides for the providers it declares, bridges included. */
  function PackOverrides(specs: seq<ProviderSpec>, learn: Learning): OverrideMap {
    map name | name in Names(specs) && learn(name).Some? :: learn(name).value
  }

  function Learnt(overrides: OverrideMap, name: string, learn: Learning): OverrideMap {
    if learn(name).Some? && name !in overrides then overrides[name := learn(name).value] else overrides
  }

  function Registrable(specs: seq<ProviderSpec>): seq<ProviderSpec> {
    if specs == [] then []
    else
      var last := specs[|specs| - 1];
      Registrable(specs[..|specs| - 1]) + if last.kind == Bridge then [] else [last]
  }

  predicate Buildable(spec: ProviderSpec, builds: ProviderSpec -> bool, bridges: Option<ProviderSpec -> bool>) {
    if spec.kind == Bridge then bridges.None? || bridges.value(spec) else builds(spec)
  }

  function Register(overrides: OverrideMap, spec: ProviderSpec): Registration {
    var over := if spec.name in overrides then overrides[spec.name] else Overrides(None, None);
    Registration(spec.name, spec.topics, over.dlqTopic, over.retry.GetOr(DEFAULT_POLICY))
  }

  function RegisterAll(overrides: OverrideMap, specs: seq<ProviderSpec>): seq<Registration> {
    seq(|specs|, i requires 0 <= i < |specs| => Register(overrides, specs[i]))
  }

  function Overlay(overrides: OverrideMap, reg: Registration): Registration {
    if reg.name in overrides then
      var over := overrides[reg.name];
      reg.(dlqTopic := if over.dlqTopic.Some? then over.dlqTopic else reg.dlqTopic,
           retry := over.retry.GetOr(reg.retry))
    else
      reg
  }

  /** `build` */
  function OverlayAll(overrides: OverrideMap, providers: seq<Registration>): seq<Registration> {
    seq(|providers|, i requires 0 <= i < |providers| => Overlay(overrides, providers[i]))
  }

  class EventBusBuilder {
    var providers: seq<Registration>
    var overrides: OverrideMap

    constructor ()
      ensures providers == [] && overrides == map[]
    {
      providers, overrides := [], map[];
    }

    /** Replaces the whole map, entries learnt from packs included. */
    method WithOverrides(explicit: OverrideMap)
      modifies this`overrides
      ensures overrides == explicit
    {
      overrides := explicit;
    }

    /** `entry(name).or_insert(..)`: an override that is already there stays. */
    method LearnOverrides(name: string, entries: seq<Entry>)
      requires DistinctKeys(entries)
      modifies this`overrides
      ensures overrides == Learnt(old(overrides), name, FromAnnotations(MapOf(entries)))
    {
      var learnt := OverridesFromAnnotations(name, entries);
      if learnt.Some? && name !in overrides {
        overrides := overrides[name := learnt.value];
      }
    }

    /** `builds` says which specs the provider factory accepts, `bridges` which the bridge factory does,
        if there is one; with a refusal the builder is given up. */
    method RegisterFromPack(
      specs: seq<ProviderSpec>, entries: seq<Entry>, builds: ProviderSpec -> bool,
      bridges: Option<ProviderSpec -> bool>)
      returns (ok: bool)
      requires DistinctKeys(entries)
      modifies this
      ensures ok <==> forall i :: 0 <= i < |specs| ==> Buildable(specs[i], builds, bridges)
      ensures ok ==> overrides == PackOverrides(specs, FromAnnotations(MapOf(entries))) + old(overrides)
      ensures ok ==> providers == old(providers) + RegisterAll(overrides, Registrable(specs))
    {
      hide FromAnnotations, Progress;
      ghost var learn := FromAnnotations(MapOf(entries));
      ghost var explicit := overrides;
      ProgressStart(specs, learn, explicit, providers);
      ok := true;
      for i := 0 to |specs|
        invariant ok && Progress(specs, i, learn, explicit, old(providers), overrides, providers)
        invariant forall j :: 0 <= j < i ==> Buildable(specs[j], builds, bridges)
      {
        ProgressStep(specs, i, learn, explicit, old(providers), overrides, providers);
        ok := RegisterSpec(specs[i], entries, builds, bridges);
        if !ok {
          return;
        }
      }
      ProgressDone(specs, learn, explicit, old(providers), overrides, providers);
    }

    /** One turn of the loop. */
    method RegisterSpec(
      spec: ProviderSpec, entries: seq<Entry>, builds: ProviderSpec -> bool, bridges: Option<ProviderSpec -> bool>)
      returns (ok: bool)
      requires DistinctKeys(entries)
      modifies this
      ensures ok == Buildable(spec, builds, bridges)
      ensures overrides == Learnt(old(overrides), spec.name, FromAnnotations(MapOf(entries)))
      ensures providers == old(providers) + if ok && spec.kind != Bridge then [Register(overrides, spec)] else []
    {
      LearnOverrides(spec.name, entries);
      if spec.kind == Bridge {
        return bridges.None? || bridges.value(spec);
      }
      if !builds(spec) {
        return false;
      }
      providers := providers + [Register(overrides, spec)];
      ok := true;
    }

    /** Each provider keeps its place, name and topics; its dead-letter topic and its retry policy are
        the ones overridden for its name, or else its own. Every topic keeps its route. */
    method Build() returns (registered: seq<Registration>)
      ensures |registered| == |providers|
      ensures forall i :: 0 <= i < |providers| ==>
                && registered[i].name == providers[i].name
                && registered[i].topics == providers[i].topics
                && registered[i].dlqTopic == DlqOverride(providers[i].name).GetOr(providers[i].dlqTopic)
                && registered[i].retry == RetryOverride(providers[i].name).GetOr(providers[i].retry)
      ensures registered == OverlayAll(overrides, providers)
      ensures forall topic :: ProviderForTopic(registered, topic) == ProviderForTopic(providers, topic)
    {
      registered := [];
      for i := 0 to |providers|
        invariant registered == OverlayAll(overrides, providers[..i])
      {
        var reg := providers[i];
        if reg.name in overrides {
          var over := overrides[reg.name];
          if over.dlqTopic.Some? {
            reg := reg.(dlqTopic := over.dlqTopic);
          }
          if over.retry.Some? {
            reg := reg.(retry := over.retry.value);
          }
        }
        registered := registered + [reg];
      }
      assert providers[..|providers|] == providers;
      forall topic ensures ProviderForTopic(registered, topic) == ProviderForTopic(providers, topic) {
        OverlayKeepsRoutes(overrides, providers, topic);
      }
    }

    /** The dead-letter topic set for a name, if one is. */
    function DlqOverride(name: string): Option<Option<string>>
      reads this
    {
      if name in overrides && overrides[name].dlqTopic.Some? then Some(overrides[name].dlqTopic) else None
    }

    function RetryOverride(name: string): Option<RetryPolicy>
      reads this
    {
      if name in overrides then overrides[name].retry else None
    }
  }

  lemma MergedStep(specs: seq<ProviderSpec>, learn: Learning, explicit: OverrideMap, i: nat)
    requires i < |specs|
    ensures PackOverrides(specs[..i + 1], learn) + explicit
         == Learnt(PackOverrides(specs[..i], learn) + explicit, specs[i].name, learn)
  {
    assert specs[..i + 1] == specs[..i] + [specs[i]];
    assert Names(specs[..i + 1]) == Names(specs[..i]) + {specs[i].name};
  }

  /** The builder after the first n specs of a pack. */
  ghost predicate Progress(
    specs: seq<ProviderSpec>, n: nat, learn: Learning, explicit: OverrideMap, start: seq<Registration>,
    overrides: OverrideMap, providers: seq<Registration>)
  {
    && n <= |specs|
    && overrides == PackOverrides(specs[..n], learn) + explicit
    && providers == start + RegisterAll(PackOverrides(specs, learn) + explicit, Registrable(specs[..n]))
  }

  lemma ProgressStep(
    specs: seq<ProviderSpec>, n: nat, learn: Learning, explicit: OverrideMap, start: seq<Registration>,
    overrides: OverrideMap, providers: seq<Registration>)
    requires n < |specs| && Progress(specs, n, learn, explicit, start, overrides, providers)
    ensures var spec := specs[n];
            var after := Learnt(overrides, spec.name, learn);
            Progress(specs, n + 1, learn, explicit, start, after,
                     providers + if spec.kind != Bridge then [Register(after, spec)] else [])
  {
    var spec := specs[n];
    assert specs[..n + 1][..n] == specs[..n];
    MergedStep(specs, learn, explicit, n);
    MergedStable(specs, learn, explicit, n);
    RegisterAllStep(PackOverrides(specs, learn) + explicit, Registrable(specs[..n]), spec);
    if spec.kind == Bridge {
      assert Registrable(specs[..n + 1]) == Registrable(specs[..n]);
    }
  }

  lemma ProgressStart(specs: seq<ProviderSpec>, learn: Learning, overrides: OverrideMap, providers: seq<Registration>)
    ensures Progress(specs, 0, learn, overrides, providers, overrides, providers)
  {}

  lemma ProgressDone(
    specs: seq<ProviderSpec>, learn: Learning, explicit: OverrideMap, start: seq<Registration>,
    overrides: OverrideMap, providers: seq<Registration>)
    requires Progress(specs, |specs|, learn, explicit, start, overrides, providers)
    ensures overrides == PackOverrides(specs, learn) + explicit
    ensures providers == start + RegisterAll(overrides, Registrable(specs))
  {
    assert specs[..|specs|] == specs;
  }

  lemma RegisterAllStep(overrides: OverrideMap, specs: seq<ProviderSpec>, spec: ProviderSpec)
    ensures RegisterAll(overrides, specs + [spec]) == RegisterAll(overrides, specs) + [Register(overrides, spec)]
  {}

  /** An entry, once decided, is the same in the finished map: the first word on a name stands. */
  lemma MergedStable(specs: seq<ProviderSpec>, learn: Learning, explicit: OverrideMap, i: nat)
    requires i < |specs|
    ensures Register(PackOverrides(specs[..i + 1], learn) + explicit, specs[i])
         == Register(PackOverrides(specs, learn) + explicit, specs[i])
  {
    assert specs[..i + 1][i] == specs[i];
    assert specs[i].name in Names(specs[..i + 1]) && specs[i].name in Names(specs);
  }

  /** A pack overrides what is annotated for each provider it declares, whatever its kind; an override that
      is there already wins. */
  lemma PackOverridesMean(specs: seq<ProviderSpec>, learn: Learning, explicit: OverrideMap, name: string)
    ensures var merged := PackOverrides(specs, learn) + explicit;
            var declared := exists spec :: spec in specs && spec.name == name;
            if name in explicit then name in merged && merged[name] == explicit[name]
            else if declared && learn(name).Some? then name in merged && merged[name] == learn(name).value
            else name !in merged
  {}

  /** Of a pack's specs, all but the bridges are registered, each once and in their order. */
  lemma RegistrableMeans(before: seq<ProviderSpec>, after: seq<ProviderSpec>, spec: ProviderSpec)
    ensures Registrable([]) == []
    ensures Registrable([spec]) == if spec.kind.Bridge? then [] else [spec]
    ensures Registrable(before + after) == Registrable(before) + Registrable(after)
  {
    assert [spec][..0] == [];
    RegistrableConcat(before, after);
  }

  lemma {:induction false} RegistrableConcat(before: seq<ProviderSpec>, after: seq<ProviderSpec>)
    ensures Registrable(before + after) == Registrable(before) + Registrable(after)
    decreases |after|
  {
    hide Registrable;
    RegistrableNone();
    if after == [] {
      assert before + after == before;
    } else {
      var n := |after| - 1;
      RegistrableConcat(before, after[..n]);
      RegistrableStep(before + after[..n], after[n]);
      RegistrableStep(after[..n], after[n]);
      assert before + after[..n] + [after[n]] == before + after && after[..n] + [after[n]] == after;
    }
  }

  lemma RegistrableNone()
    ensures Registrable([]) == []
  {}

  lemma RegistrableStep(specs: seq<ProviderSpec>, spec: ProviderSpec)
    ensures Registrable(specs + [spec]) == Registrable(specs) + if spec.kind.Bridge? then [] else [spec]
  {
    assert (specs + [spec])[..|specs|] == specs;
  }

  // ---- What overrides change, and what they do not ----

  /** The overlay never reorders, renames or retargets: every topic keeps its route. */
  lemma {:induction false} OverlayKeepsRoutes(overrides: OverrideMap, providers: seq<Registration>, topic: string)
    ensures ProviderForTopic(OverlayAll(overrides, providers), topic) == ProviderForTopic(providers, topic)
  {
    var built := OverlayAll(overrides, providers);
    RouteIsFirst(providers, topic);
    RouteIsFirst(built, topic);
    assert forall i :: 0 <= i < |providers| ==> built[i].topics == providers[i].topics;
    assert forall i :: 0 <= i < |providers| ==> built[i].Serves(topic) == providers[i].Serves(topic);
    if ProviderForTopic(providers, topic).Some? {
      assert FirstProvider(built, topic, ProviderForTopic(providers, topic).value);
    }
  }

  lemma OverlayTwice(overrides: OverrideMap, providers: seq<Registration>)
    ensures OverlayAll(overrides, OverlayAll(overrides, providers)) == OverlayAll(overrides, providers)
  {
    var once := OverlayAll(overrides, providers);
    assert forall i :: 0 <= i < |once| ==> Overlay(overrides, once[i]) == once[i];
  }

  /** A provider registered from a pack onto a fresh builder is built with what the pack annotates for
      it, field by field, and with the defaults for the rest. */
  lemma PackOverridesApplied(specs: seq<ProviderSpec>, annotations: Annotations, i: nat)
    requires i < |Registrable(specs)|
    ensures var overrides := PackOverrides(specs, FromAnnotations(annotations)) + map[];
            var spec := Registrable(specs)[i];
            OverlayAll(overrides, RegisterAll(overrides, Registrable(specs)))[i]
              == Registration(spec.name, spec.topics, DlqFor(annotations, spec.name),
                              RetryFor(annotations, spec.name).GetOr(DEFAULT_POLICY))
  {
    var spec := Registrable(specs)[i];
    RegistrableNamed(specs);
    assert spec in Registrable(specs);
    assert spec.name in Names(specs);
  }

  /** A provider comes out the same whether explicit overrides are set before or after its pack is
      registered: they say nothing about it, or they set whatever the pack sets. */
  predicate OrderFree(explicit: OverrideMap, learn: Learning, name: string) {
    var fromPack := learn(name);
    name in explicit && fromPack.Some? ==>
      && (explicit[name].dlqTopic.Some? || fromPack.value.dlqTopic.None?)
      && (explicit[name].retry.Some? || fromPack.value.retry.GetOr(DEFAULT_POLICY) == DEFAULT_POLICY)
  }

  /** On a fresh builder and one pack, `with_overrides` first and `with_overrides` last build the same
      bus exactly when every provider the pack registers is order free. */
  lemma OverrideOrderIff(explicit: OverrideMap, specs: seq<ProviderSpec>, learn: Learning)
    ensures var fromPack := PackOverrides(specs, learn);
            OverlayAll(fromPack + explicit, RegisterAll(fromPack + explicit, Registrable(specs)))
              == OverlayAll(explicit, RegisterAll(fromPack + map[], Registrable(specs)))
            <==> forall spec :: spec in Registrable(specs) ==> OrderFree(explicit, learn, spec.name)
  {
    var fromPack := PackOverrides(specs, learn);
    var todo := Registrable(specs);
    var first := OverlayAll(fromPack + explicit, RegisterAll(fromPack + explicit, todo));
    var last := OverlayAll(explicit, RegisterAll(fromPack + map[], todo));
    RegistrableNamed(specs);
    forall i | 0 <= i < |todo| ensures first[i] == last[i] <==> OrderFree(explicit, learn, todo[i].name) {
      assert todo[i] in todo;
      assert todo[i].name in Names(specs);
    }
    if first == last {
      forall spec | spec in todo ensures OrderFree(explicit, learn, spec.name) {
        var i :| 0 <= i < |todo| && todo[i] == spec;
        assert first[i] == last[i];
      }
    }
  }

  lemma {:induction false} RegistrableNamed(specs: seq<ProviderSpec>)
    ensures forall spec :: spec in Registrable(specs) ==> spec in specs && spec.kind != Bridge
  {
    if specs != [] {
      RegistrableNamed(specs[..|specs| - 1]);
    }
  }

  /** Explicit overrides that set both fields are always order free. */
  lemma FullOverridesOrderFree(explicit: OverrideMap, learn: Learning, name: string)
    requires name in explicit ==> explicit[name].retry.Some? && explicit[name].dlqTopic.Some?
    ensures OrderFree(explicit, learn, name)
  {}
}
