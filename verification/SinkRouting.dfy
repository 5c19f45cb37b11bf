/** The sink router and the diagnostics of building it (`crates/greentic-events-runtime/src/install.rs`). */
module SinkRouting {
  import opened Wrappers
  import opened Registry
  import opened InstallStore

  /** The provider built for one install of one spec. */
  datatype Instance = Instance(spec: ProviderSpec, install: ResolvedInstall)

  datatype Diagnostic = Diagnostic(providerId: string, installId: Option<string>, code: DiagnosticCode, message: string)

  /** The factory's verdict: no error, or the error's message. */
  type Factory = (ProviderSpec, ResolvedInstall) -> Option<string>

  datatype Environment = Environment(configs: ValueStore, secrets: ValueStore, factory: Factory)

  /** One turn of the inner loop: an install listed for a spec. */
  datatype Listed = Listed(spec: ProviderSpec, record: InstallRecord)

  type Router = map<InstallKey, Instance>

  // ---- What each turn comes to ----

  function Outcome(env: Environment, turn: Listed): Result<Instance, Diagnostic> {
    var record := turn.record;
    match Resolve(record, env.configs, env.secrets)
    case Err(message) =>
      Err(Diagnostic(record.providerId, Some(record.installId), ResolveErrorCode(message), message))
    case Ok(install) =>
      match env.factory(turn.spec, install)
      case None => Ok(Instance(turn.spec, install))
      case Some(message) => Err(Diagnostic(record.providerId, Some(record.installId), ProviderInitFailed, message))
  }

  function RouterOf(env: Environment, turns: seq<Listed>): Router {
    if turns == [] then map[]
    else
      var last := turns[|turns| - 1];
      var router := RouterOf(env, turns[..|turns| - 1]);
      match Outcome(env, last)
      case Ok(instance) => router[KeyOf(last.record) := instance]
      case Err(_) => router
  }

  function DiagnosticsOf(env: Environment, turns: seq<Listed>): seq<Diagnostic> {
    if turns == [] then []
    else
      DiagnosticsOf(env, turns[..|turns| - 1]) +
      match Outcome(env, turns[|turns| - 1])
      case Ok(_) => []
      case Err(diagnostic) => [diagnostic]
  }

  /** The turns of the two loops: every sink spec in order, every install of its name once. */
  ghost predicate SinkTurns(turns: seq<Listed>, specs: seq<ProviderSpec>, installs: Installs)
    decreases |specs|
  {
    if specs == [] then turns == []
    else
      var last := specs[|specs| - 1];
      var earlier := specs[..|specs| - 1];
      if last.kind.Sink? then
        exists n: nat ::
          n <= |turns| && SinkTurns(turns[..n], earlier, installs) && ListsSpec(turns[n..], last, installs)
      else
        SinkTurns(turns, earlier, installs)
  }

  ghost predicate ListsSpec(turns: seq<Listed>, spec: ProviderSpec, installs: Installs) {
    && (forall i :: 0 <= i < |turns| ==> turns[i].spec == spec)
    && IsListing(Records(turns), installs, spec.name)
  }

  function Records(turns: seq<Listed>): seq<InstallRecord> {
    seq(|turns|, i requires 0 <= i < |turns| => turns[i].record)
  }

  /** One turn of the inner loop, after the turns so far. */
  method TakeTurn(
    spec: ProviderSpec, record: InstallRecord, env: Environment, router: Router, diagnostics: seq<Diagnostic>,
    ghost turns: seq<Listed>)
    returns (router': Router, diagnostics': seq<Diagnostic>)
    requires router == RouterOf(env, turns) && diagnostics == DiagnosticsOf(env, turns)
    ensures router' == RouterOf(env, turns + [Listed(spec, record)])
    ensures diagnostics' == DiagnosticsOf(env, turns + [Listed(spec, record)])
  {
    assert (turns + [Listed(spec, record)])[..|turns|] == turns;
    router', diagnostics' := router, diagnostics;
    var resolved := ResolveInstall(record, env.configs, env.secrets);
    match resolved {
      case Err(message) =>
        diagnostics' := diagnostics
            + [Diagnostic(record.providerId, Some(record.installId), ResolveErrorCode(message), message)];
      case Ok(install) =>
        var failure := env.factory(spec, install);
        if failure.None? {
          router' := router[KeyOf(record) := Instance(spec, install)];
        } else {
          diagnostics' := diagnostics
              + [Diagnostic(record.providerId, Some(record.installId), ProviderInitFailed, failure.value)];
        }
    }
  }

  method BuildSinkRouter(store: InMemoryInstallStore, specs: seq<ProviderSpec>, env: Environment)
    returns (router: Router, diagnostics: seq<Diagnostic>, ghost turns: seq<Listed>)
    requires store.Valid()
    ensures SinkTurns(turns, specs, store.installs)
    ensures router == RouterOf(env, turns)
    ensures diagnostics == DiagnosticsOf(env, turns)
    ensures forall key :: LookUp(router, key) == LastBuilt(env, specs, store.installs, key)
    ensures DistinctSinkNames(specs) ==> Partitioned(env, router, diagnostics, specs, store.installs)
  {
    router, diagnostics, turns := map[], [], [];
    for s := 0 to |specs|
      invariant SinkTurns(turns, specs[..s], store.installs)
      invariant router == RouterOf(env, turns)
      invariant diagnostics == DiagnosticsOf(env, turns)
    {
      var spec := specs[s];
      assert specs[..s + 1][..s] == specs[..s];
      if !spec.kind.Sink? {
        continue;
      }
      var records := store.ListInstalls(spec.name);
      ghost var before := turns;
      for i := 0 to |records|
        invariant turns == before + TurnsFor(spec, records[..i])
        invariant router == RouterOf(env, turns)
        invariant diagnostics == DiagnosticsOf(env, turns)
      {
        TurnsForStep(spec, records, i, before);
        router, diagnostics := TakeTurn(spec, records[i], env, router, diagnostics, turns);
        turns := turns + [Listed(spec, records[i])];
      }
      assert records[..|records|] == records;
      SpecListed(before, spec, records, store.installs);
    }
    assert specs[..|specs|] == specs;
    forall key ensures LookUp(router, key) == LastBuilt(env, specs, store.installs, key) {
      RoutedIsLastBuilt(env, turns, specs, store.installs, key);
    }
    if DistinctSinkNames(specs) {
      TurnsPartition(env, turns, specs, store.installs);
    }
  }

  lemma TurnsForStep(spec: ProviderSpec, records: seq<InstallRecord>, i: nat, before: seq<Listed>)
    requires i < |records|
    ensures before + TurnsFor(spec, records[..i + 1])
              == before + TurnsFor(spec, records[..i]) + [Listed(spec, records[i])]
  {}

  lemma SpecListed(before: seq<Listed>, spec: ProviderSpec, records: seq<InstallRecord>, installs: Installs)
    requires IsListing(records, installs, spec.name)
    ensures var turns := before + TurnsFor(spec, records);
            turns[..|before|] == before && ListsSpec(turns[|before|..], spec, installs)
  {
    assert (before + TurnsFor(spec, records))[|before|..] == TurnsFor(spec, records);
    assert Records(TurnsFor(spec, records)) == records;
  }

  ghost function TurnsFor(spec: ProviderSpec, records: seq<InstallRecord>): seq<Listed> {
    seq(|records|, i requires 0 <= i < |records| => Listed(spec, records[i]))
  }

  // ---- Every listed install is routed or diagnosed ----

  predicate About(key: InstallKey, diagnostic: Diagnostic) {
    diagnostic.providerId == key.providerId && diagnostic.installId == Some(key.installId)
  }

  function CountAbout(key: InstallKey, diagnostics: seq<Diagnostic>): nat {
    if diagnostics == [] then 0
    else CountAbout(key, diagnostics[..|diagnostics| - 1]) + if About(key, diagnostics[|diagnostics| - 1]) then 1 else 0
  }

  /** How many turns of an install ended well, or badly. */
  function Turned(env: Environment, turns: seq<Listed>, key: InstallKey, well: bool): nat {
    if turns == [] then 0
    else
      var last := turns[|turns| - 1];
      Turned(env, turns[..|turns| - 1], key, well) +
      if KeyOf(last.record) == key && Outcome(env, last).Ok? == well then 1 else 0
  }

  lemma DiagnosticAbout(env: Environment, turn: Listed, key: InstallKey)
    requires Outcome(env, turn).Err?
    ensures About(key, Outcome(env, turn).error) <==> KeyOf(turn.record) == key
  {}

  lemma CountAboutStep(key: InstallKey, diagnostics: seq<Diagnostic>, diagnostic: Diagnostic)
    ensures CountAbout(key, diagnostics + [diagnostic])
              == CountAbout(key, diagnostics) + if About(key, diagnostic) then 1 else 0
  {
    assert (diagnostics + [diagnostic])[..|diagnostics|] == diagnostics;
  }

  /** For any list of turns: a key is routed iff one of its turns ended well. */
  lemma {:induction false} RoutedIffTurned(env: Environment, turns: seq<Listed>, key: InstallKey)
    ensures key in RouterOf(env, turns) <==> Turned(env, turns, key, true) > 0
  {
    if turns != [] {
      RoutedIffTurned(env, turns[..|turns| - 1], key);
    }
  }

  /** For any list of turns: a key has one diagnostic for each of its turns that did not end well. */
  lemma {:induction false} DiagnosedPerTurn(env: Environment, turns: seq<Listed>, key: InstallKey)
    ensures CountAbout(key, DiagnosticsOf(env, turns)) == Turned(env, turns, key, false)
  {
    if turns != [] {
      var last := turns[|turns| - 1];
      DiagnosedPerTurn(env, turns[..|turns| - 1], key);
      if Outcome(env, last).Err? {
        DiagnosticAbout(env, last, key);
        CountAboutStep(key, DiagnosticsOf(env, turns[..|turns| - 1]), Outcome(env, last).error);
      } else {
        assert DiagnosticsOf(env, turns) == DiagnosticsOf(env, turns[..|turns| - 1]);
      }
    }
  }

  /** What is routed is what some turn built under that key. */
  lemma {:induction false} RoutedFrom(env: Environment, turns: seq<Listed>, key: InstallKey) returns (i: nat)
    requires key in RouterOf(env, turns)
    ensures i < |turns| && KeyOf(turns[i].record) == key && Outcome(env, turns[i]) == Ok(RouterOf(env, turns)[key])
  {
    var n := |turns| - 1;
    if KeyOf(turns[n].record) == key && Outcome(env, turns[n]).Ok? {
      i := n;
    } else {
      i := RoutedFrom(env, turns[..n], key);
    }
  }

  ghost predicate DistinctSinkNames(specs: seq<ProviderSpec>) {
    forall i, j :: 0 <= i < j < |specs| && specs[i].kind.Sink? && specs[j].kind.Sink? ==> specs[i].name != specs[j].name
  }

  /** A turn is about a stored install of a sink. */
  ghost predicate TurnOk(turn: Listed, specs: seq<ProviderSpec>, installs: Installs) {
    && turn.spec.kind.Sink? && turn.spec in specs
    && turn.record.providerId == turn.spec.name
    && KeyOf(turn.record) in installs && installs[KeyOf(turn.record)] == turn.record
  }

  ghost predicate DistinctTurns(turns: seq<Listed>) {
    forall i, j :: 0 <= i < j < |turns| ==> KeyOf(turns[i].record) != KeyOf(turns[j].record)
  }

  /** Every stored install of the spec has a turn. */
  ghost predicate Covers(turns: seq<Listed>, spec: ProviderSpec, installs: Installs) {
    forall key :: key in installs && KeyOf(installs[key]) == key && key.providerId == spec.name ==>
        Listed(spec, installs[key]) in turns
  }

  lemma LastTurnsCover(turns: seq<Listed>, spec: ProviderSpec, specs: seq<ProviderSpec>, installs: Installs)
    requires ListsSpec(turns, spec, installs) && spec.kind.Sink? && spec in specs
    ensures DistinctTurns(turns) && Covers(turns, spec, installs)
    ensures forall turn :: turn in turns ==> TurnOk(turn, specs, installs)
  {
    var records := Records(turns);
    assert forall i {:trigger turns[i]} :: 0 <= i < |turns| ==> records[i] == turns[i].record && records[i] in records;
    forall key | key in installs && KeyOf(installs[key]) == key && key.providerId == spec.name
      ensures Listed(spec, installs[key]) in turns
    {
      assert installs[key] in records;
      var i :| 0 <= i < |records| && records[i] == installs[key];
      assert turns[i] == Listed(spec, installs[key]);
    }
  }

  lemma {:induction false} TurnsOk(turns: seq<Listed>, specs: seq<ProviderSpec>, installs: Installs)
    requires SinkTurns(turns, specs, installs)
    ensures forall turn :: turn in turns ==> TurnOk(turn, specs, installs)
    decreases |specs|
  {
    if specs != [] {
      var m := |specs| - 1;
      var last, earlier := specs[m], specs[..m];
      assert specs == earlier + [last];
      if last.kind.Sink? {
        var n: nat :| n <= |turns| && SinkTurns(turns[..n], earlier, installs) && ListsSpec(turns[n..], last, installs);
        TurnsOk(turns[..n], earlier, installs);
        LastTurnsCover(turns[n..], last, specs, installs);
        assert turns == turns[..n] + turns[n..];
      } else {
        TurnsOk(turns, earlier, installs);
      }
    }
  }

  /** With distinct sink names, the turns are the stored installs of the sinks, each once. */
  lemma {:induction false} TurnsCover(turns: seq<Listed>, specs: seq<ProviderSpec>, installs: Installs)
    requires SinkTurns(turns, specs, installs) && DistinctSinkNames(specs)
    ensures DistinctTurns(turns)
    ensures forall spec :: spec in specs && spec.kind.Sink? ==> Covers(turns, spec, installs)
    decreases |specs|
  {
    if specs != [] {
      var m := |specs| - 1;
      var last, earlier := specs[m], specs[..m];
      assert specs == earlier + [last];
      if last.kind.Sink? {
        var n: nat :| n <= |turns| && SinkTurns(turns[..n], earlier, installs) && ListsSpec(turns[n..], last, installs);
        TurnsCover(turns[..n], earlier, installs);
        TurnsOk(turns[..n], earlier, installs);
        LastTurnsCover(turns[n..], last, specs, installs);
        assert turns == turns[..n] + turns[n..];
        forall i, j | 0 <= i < j < |turns| ensures KeyOf(turns[i].record) != KeyOf(turns[j].record) {
          if j < n {
            assert turns[i] == turns[..n][i] && turns[j] == turns[..n][j];
          } else if i >= n {
            assert turns[i] == turns[n..][i - n] && turns[j] == turns[n..][j - n];
          } else {
            assert turns[i] == turns[..n][i] && turns[..n][i] in turns[..n];
            assert turns[j] == turns[n..][j - n] && turns[n..][j - n] in turns[n..];
          }
        }
      } else {
        TurnsCover(turns, earlier, installs);
      }
    }
  }

  lemma {:induction false} TurnedOnce(env: Environment, turns: seq<Listed>, i: nat)
    requires DistinctTurns(turns) && i < |turns|
    ensures Turned(env, turns, KeyOf(turns[i].record), true) == if Outcome(env, turns[i]).Ok? then 1 else 0
    ensures Turned(env, turns, KeyOf(turns[i].record), false) == if Outcome(env, turns[i]).Ok? then 0 else 1
    decreases |turns|
  {
    var n := |turns| - 1;
    if i < n {
      TurnedOnce(env, turns[..n], i);
    } else {
      NeverTurned(env, turns[..n], KeyOf(turns[n].record));
    }
  }

  lemma {:induction false} NeverTurned(env: Environment, turns: seq<Listed>, key: InstallKey)
    requires forall i :: 0 <= i < |turns| ==> KeyOf(turns[i].record) != key
    ensures Turned(env, turns, key, true) == Turned(env, turns, key, false) == 0
  {
    if turns != [] {
      NeverTurned(env, turns[..|turns| - 1], key);
    }
  }

  /** With distinct sink names, every stored install of a sink is routed under its own key, to the
      instance built from it, or has exactly one diagnostic; never both. */
  lemma RoutedOrDiagnosed(
    env: Environment, turns: seq<Listed>, specs: seq<ProviderSpec>, installs: Installs, spec: ProviderSpec,
    key: InstallKey)
    requires SinkTurns(turns, specs, installs) && DistinctSinkNames(specs) && Keyed(installs)
    requires spec in specs && spec.kind.Sink? && key in installs && key.providerId == spec.name
    ensures var outcome := Outcome(env, Listed(spec, installs[key]));
            if outcome.Ok? then
              && outcome.value.spec == spec && outcome.value.install.record == installs[key]
              && key in RouterOf(env, turns) && RouterOf(env, turns)[key] == outcome.value
              && CountAbout(key, DiagnosticsOf(env, turns)) == 0
            else
              && key !in RouterOf(env, turns)
              && CountAbout(key, DiagnosticsOf(env, turns)) == 1
              && About(key, outcome.error) && outcome.error in DiagnosticsOf(env, turns)
    ensures Settled(env, RouterOf(env, turns), DiagnosticsOf(env, turns), spec, key, installs[key])
  {
    TurnsCover(turns, specs, installs);
    var i :| 0 <= i < |turns| && turns[i] == Listed(spec, installs[key]);
    assert KeyOf(turns[i].record) == key;
    TurnedOnce(env, turns, i);
    RoutedIffTurned(env, turns, key);
    DiagnosedPerTurn(env, turns, key);
    if Outcome(env, turns[i]).Ok? {
      var j := RoutedFrom(env, turns, key);
      assert j == i;
    } else {
      DiagnosticKept(env, turns, i);
    }
  }

  lemma {:induction false} DiagnosticKept(env: Environment, turns: seq<Listed>, i: nat)
    requires i < |turns| && Outcome(env, turns[i]).Err?
    ensures Outcome(env, turns[i]).error in DiagnosticsOf(env, turns)
    decreases |turns|
  {
    if i < |turns| - 1 {
      DiagnosticKept(env, turns[..|turns| - 1], i);
    }
  }

  /** Each stored install of a sink is either routed, to what its own outcome built, or has its own
      diagnostic and no other; and nothing but those installs is routed. */
  ghost predicate Partitioned(
    env: Environment, router: Router, diagnostics: seq<Diagnostic>, specs: seq<ProviderSpec>, installs: Installs)
  {
    && (forall spec, key :: spec in specs && spec.kind.Sink? && key in installs && key.providerId == spec.name ==>
         Settled(env, router, diagnostics, spec, key, installs[key]))
    && (forall key :: key in router ==> key in installs && SinkBuilt(router[key].spec, specs, key))
  }

  /** An install whose references all read and that the factory accepts is routed to what was built from it,
      without a diagnostic. Any other is not routed, and its one diagnostic says whether resolving it or
      building it failed, and with what message. */
  predicate Settled(
    env: Environment, router: Router, diagnostics: seq<Diagnostic>, spec: ProviderSpec, key: InstallKey,
    record: InstallRecord)
  {
    match Resolve(record, env.configs, env.secrets)
    case Err(message) =>
      && key !in router
      && CountAbout(key, diagnostics) == 1
      && Diagnostic(key.providerId, Some(key.installId), ResolveErrorCode(message), message) in diagnostics
    case Ok(install) =>
      match env.factory(spec, install)
      case None => key in router && router[key] == Instance(spec, install) && CountAbout(key, diagnostics) == 0
      case Some(message) =>
        && key !in router
        && CountAbout(key, diagnostics) == 1
        && Diagnostic(key.providerId, Some(key.installId), ProviderInitFailed, message) in diagnostics
  }

  predicate SinkBuilt(spec: ProviderSpec, specs: seq<ProviderSpec>, key: InstallKey) {
    spec in specs && spec.kind.Sink? && spec.name == key.providerId
  }

  lemma TurnsPartition(env: Environment, turns: seq<Listed>, specs: seq<ProviderSpec>, installs: Installs)
    requires SinkTurns(turns, specs, installs) && DistinctSinkNames(specs) && Keyed(installs)
    ensures Partitioned(env, RouterOf(env, turns), DiagnosticsOf(env, turns), specs, installs)
  {
    var router, diagnostics := RouterOf(env, turns), DiagnosticsOf(env, turns);
    forall spec, key | spec in specs && spec.kind.Sink? && key in installs && key.providerId == spec.name
      ensures Settled(env, router, diagnostics, spec, key, installs[key])
    {
      RoutedOrDiagnosed(env, turns, specs, installs, spec, key);
    }
    forall key | key in router
      ensures key in installs && SinkBuilt(router[key].spec, specs, key)
    {
      OnlySinksRouted(env, turns, specs, installs, key);
    }
  }

  /** Nothing else is routed: a routed key is a stored install of a sink. */
  lemma OnlySinksRouted(
    env: Environment, turns: seq<Listed>, specs: seq<ProviderSpec>, installs: Installs, key: InstallKey)
    requires SinkTurns(turns, specs, installs) && key in RouterOf(env, turns)
    ensures key in installs && SinkBuilt(RouterOf(env, turns)[key].spec, specs, key)
  {
    TurnsOk(turns, specs, installs);
    var j := RoutedFrom(env, turns, key);
    assert turns[j] in turns;
  }

  // ---- Which instance is routed, sink names repeated or not ----

  function LookUp(router: Router, key: InstallKey): Option<Instance> {
    if key in router then Some(router[key]) else None
  }

  /** What one sink builds for a key. */
  function BuiltBy(env: Environment, spec: ProviderSpec, installs: Installs, key: InstallKey): Option<Instance> {
    if key in installs && key.providerId == spec.name then
      match Resolve(installs[key], env.configs, env.secrets)
      case Ok(install) => if env.factory(spec, install).None? then Some(Instance(spec, install)) else None
      case Err(_) => None
    else
      None
  }

  /** The last sink of that name that can be built is the one that counts. */
  function LastBuilt(
    env: Environment, specs: seq<ProviderSpec>, installs: Installs, key: InstallKey): Option<Instance>
  {
    if specs == [] then None
    else
      var last := specs[|specs| - 1];
      if last.kind.Sink? && BuiltBy(env, last, installs, key).Some? then BuiltBy(env, last, installs, key)
      else LastBuilt(env, specs[..|specs| - 1], installs, key)
  }

  lemma {:induction false} RouterConcat(env: Environment, before: seq<Listed>, part: seq<Listed>, key: InstallKey)
    ensures var mine := LookUp(RouterOf(env, part), key);
            LookUp(RouterOf(env, before + part), key) == if mine.Some? then mine else LookUp(RouterOf(env, before), key)
    decreases |part|
  {
    hide Outcome;
    if part == [] {
      assert before + part == before;
    } else {
      var n := |part| - 1;
      RouterConcat(env, before, part[..n], key);
      assert (before + part)[..|before| + n] == before + part[..n];
    }
  }

  lemma PartBuilds(env: Environment, part: seq<Listed>, spec: ProviderSpec, installs: Installs, key: InstallKey)
    requires ListsSpec(part, spec, installs) && spec.kind.Sink? && Keyed(installs)
    ensures LookUp(RouterOf(env, part), key) == BuiltBy(env, spec, installs, key)
  {
    LastTurnsCover(part, spec, [spec], installs);
    if key in installs && key.providerId == spec.name {
      var i :| 0 <= i < |part| && part[i] == Listed(spec, installs[key]);
      TurnedOnce(env, part, i);
      RoutedIffTurned(env, part, key);
    }
    if key in RouterOf(env, part) {
      var j := RoutedFrom(env, part, key);
      assert part[j] in part;
    }
  }

  /** The router holds for every key exactly the instance of the last sink, in the order of the specs,
      that could be built for it. */
  lemma {:induction false} RoutedIsLastBuilt(
    env: Environment, turns: seq<Listed>, specs: seq<ProviderSpec>, installs: Installs, key: InstallKey)
    requires SinkTurns(turns, specs, installs) && Keyed(installs)
    ensures LookUp(RouterOf(env, turns), key) == LastBuilt(env, specs, installs, key)
    decreases |specs|
  {
    hide BuiltBy, ListsSpec, Outcome;
    if specs != [] {
      var last, earlier := specs[|specs| - 1], specs[..|specs| - 1];
      if last.kind.Sink? {
        var n: nat :| n <= |turns| && SinkTurns(turns[..n], earlier, installs) && ListsSpec(turns[n..], last, installs);
        RoutedIsLastBuilt(env, turns[..n], earlier, installs, key);
        PartBuilds(env, turns[n..], last, installs, key);
        RouterConcat(env, turns[..n], turns[n..], key);
        assert turns == turns[..n] + turns[n..];
      } else {
        RoutedIsLastBuilt(env, turns, earlier, installs, key);
      }
    }
  }

  lemma {:induction false} LastBuiltIsSome(
    env: Environment, specs: seq<ProviderSpec>, installs: Installs, key: InstallKey)
    ensures LastBuilt(env, specs, installs, key).None? <==>
            forall spec :: spec in specs && spec.kind.Sink? ==> BuiltBy(env, spec, installs, key).None?
    ensures LastBuilt(env, specs, installs, key).Some? ==>
            exists spec ::
              spec in specs && spec.kind.Sink? &&
                  LastBuilt(env, specs, installs, key) == BuiltBy(env, spec, installs, key)
  {
    if specs != [] {
      var last, earlier := specs[|specs| - 1], specs[..|specs| - 1];
      assert specs == earlier + [last];
      LastBuiltIsSome(env, earlier, installs, key);
    }
  }

  /** `SinkRouter::emit`: the instance that the event reaches, if the install is routed. */
  function Emit(router: Router, providerId: string, installId: string): Result<Instance, string> {
    var key := InstallKey(providerId, installId);
    if key in router then Ok(router[key]) else Err("provider install not found: " + providerId + ":" + installId)
  }

  /** An event reaches an instance iff some sink builds one for exactly the install it names, and then
      the one that such a sink built. */
  lemma EmitReachesItsInstall(
    env: Environment, turns: seq<Listed>, specs: seq<ProviderSpec>, installs: Installs, providerId: string,
    installId: string)
    requires SinkTurns(turns, specs, installs) && Keyed(installs)
    ensures var reached := Emit(RouterOf(env, turns), providerId, installId);
            var key := InstallKey(providerId, installId);
            && (reached.Ok? <==>
                exists spec :: spec in specs && spec.kind.Sink? && BuiltBy(env, spec, installs, key).Some?)
            && (reached.Ok? ==>
                exists spec ::
                  spec in specs && spec.kind.Sink? && BuiltBy(env, spec, installs, key) == Some(reached.value))
  {
    var key := InstallKey(providerId, installId);
    RoutedIsLastBuilt(env, turns, specs, installs, key);
    LastBuiltIsSome(env, specs, installs, key);
  }

  /** With distinct sink names there is no choice of sink. */
  lemma EmitReachesOwnSink(
    env: Environment, turns: seq<Listed>, specs: seq<ProviderSpec>, installs: Installs, spec: ProviderSpec,
    installId: string)
    requires SinkTurns(turns, specs, installs) && DistinctSinkNames(specs) && Keyed(installs)
    requires spec in specs && spec.kind.Sink?
    ensures var reached := Emit(RouterOf(env, turns), spec.name, installId);
            var key := InstallKey(spec.name, installId);
            if BuiltBy(env, spec, installs, key).Some? then reached == Ok(BuiltBy(env, spec, installs, key).value)
            else reached == Err("provider install not found: " + spec.name + ":" + installId)
  {
    var key := InstallKey(spec.name, installId);
    if key in installs {
      RoutedOrDiagnosed(env, turns, specs, installs, spec, key);
    } else if key in RouterOf(env, turns) {
      OnlySinksRouted(env, turns, specs, installs, key);
      assert false;
    }
  }
}
