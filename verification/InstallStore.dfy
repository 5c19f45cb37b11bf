/** Provider installs, the store that keeps them and the resolution of their references
    (`crates/greentic-events-runtime/src/install.rs`). */
module InstallStore {
  import opened Wrappers
  import opened Json
  import opened Text
  import opened Registry

  datatype InstallKey = InstallKey(providerId: string, installId: string)

  /** The references are in the key order of the source's ordered maps; `identity` stands for every
      field that the runtime only carries along. */
  datatype InstallRecord = InstallRecord(
    providerId: string,
    installId: string,
    identity: string,
    configRefs: seq<(string, string)>,
    secretRefs: seq<(string, string)>,
    metadata: Value,
    subscriptionsState: Value)

  function KeyOf(record: InstallRecord): InstallKey { InstallKey(record.providerId, record.installId) }

  type Installs = map<InstallKey, InstallRecord>

  ghost predicate Keyed(installs: Installs) {
    forall key :: key in installs ==> KeyOf(installs[key]) == key
  }

  /** The installs of one provider, each once, in whatever order the hash map yields them. */
  ghost predicate IsListing(records: seq<InstallRecord>, installs: Installs, providerId: string) {
    && (forall i, j :: 0 <= i < j < |records| ==> KeyOf(records[i]) != KeyOf(records[j]))
    && (forall record :: record in records <==>
          record.providerId == providerId && KeyOf(record) in installs && installs[KeyOf(record)] == record)
  }

  class InMemoryInstallStore {
    var installs: Installs

    ghost predicate Valid()
      reads this
    {
      Keyed(installs)
    }

    constructor ()
      ensures Valid() && installs == map[]
    {
      installs := map[];
    }

    /** `insert` and `update_install` */
    method Put(record: InstallRecord)
      requires Valid()
      modifies this
      ensures Valid() && installs == old(installs)[KeyOf(record) := record]
    {
      installs := installs[KeyOf(record) := record];
    }

    method ListInstalls(providerId: string) returns (records: seq<InstallRecord>)
      requires Valid()
      ensures IsListing(records, installs, providerId)
    {
      records := [];
      var keys := installs.Keys;
      while keys != {}
        invariant keys <= installs.Keys
        invariant IsListing(records, installs - keys, providerId)
        decreases |keys|
      {
        var key :| key in keys;
        keys := keys - {key};
        ListingStep(records, installs, keys, key, providerId);
        if installs[key].providerId == providerId {
          records := records + [installs[key]];
        }
      }
      assert installs - {} == installs;
    }
  }

  lemma ListingStep(
    records: seq<InstallRecord>, installs: Installs, rest: set<InstallKey>, key: InstallKey, providerId: string)
    requires Keyed(installs) && key in installs && key !in rest
    requires IsListing(records, installs - (rest + {key}), providerId)
    ensures var record := installs[key];
            IsListing(records + if record.providerId == providerId then [record] else [], installs - rest, providerId)
  {}

  // ---- Resolving references ----

  /** Reading a reference may fail. */
  type ValueStore = string -> Option<Value>

  datatype ResolvedInstall = ResolvedInstall(
    record: InstallRecord,
    config: map<string, Value>,
    secrets: map<string, Value>)

  ghost predicate DistinctRefs(refs: seq<(string, string)>) {
    forall i, j :: 0 <= i < j < |refs| ==> refs[i].0 != refs[j].0
  }

  predicate AllRead(refs: seq<(string, string)>, store: ValueStore) {
    forall i :: 0 <= i < |refs| ==> store(refs[i].1).Some?
  }

  /** The first reference that does not read. */
  function FirstUnread(refs: seq<(string, string)>, store: ValueStore): (unread: Option<string>)
    ensures unread.None? <==> AllRead(refs, store)
    ensures unread.Some? ==>
              exists i :: 0 <= i < |refs|
                       && refs[i].1 == unread.value && store(refs[i].1).None? && AllRead(refs[..i], store)
  {
    if refs == [] then None
    else
      var earlier := FirstUnread(refs[..|refs| - 1], store);
      var n := |refs| - 1;
      assert forall i :: 0 <= i < n ==> refs[..n][i] == refs[i] && refs[..n][..i] == refs[..i];
      if earlier.Some? then earlier
      else if store(refs[n].1).None? then Some(refs[n].1)
      else None
  }

  function ReadAll(refs: seq<(string, string)>, store: ValueStore): map<string, Value>
    requires AllRead(refs, store)
  {
    if refs == [] then map[]
    else
      var (key, reference) := refs[|refs| - 1];
      ReadAll(refs[..|refs| - 1], store)[key := store(reference).value]
  }

  const MISSING_CONFIG := "missing config ref"
  const MISSING_SECRET := "missing secret ref"

  /** Config references first, then secrets; the first that fails names the error. */
  function Resolve(record: InstallRecord, configs: ValueStore, secrets: ValueStore): Result<ResolvedInstall, string> {
    var badConfig := FirstUnread(record.configRefs, configs);
    var badSecret := FirstUnread(record.secretRefs, secrets);
    if badConfig.Some? then Err(MISSING_CONFIG + " " + badConfig.value)
    else if badSecret.Some? then Err(MISSING_SECRET + " " + badSecret.value)
    else Ok(ResolvedInstall(record, ReadAll(record.configRefs, configs), ReadAll(record.secretRefs, secrets)))
  }

  method ReadRefs(refs: seq<(string, string)>, store: ValueStore, missing: string)
    returns (read: Result<map<string, Value>, string>)
    ensures match FirstUnread(refs, store)
            case None => read == Ok(ReadAll(refs, store))
            case Some(reference) => read == Err(missing + " " + reference)
  {
    var values: map<string, Value> := map[];
    for i := 0 to |refs|
      invariant FirstUnread(refs[..i], store) == None && values == ReadAll(refs[..i], store)
    {
      assert refs[..i + 1][..i] == refs[..i];
      var (key, reference) := refs[i];
      var value := store(reference);
      if value.None? {
        UnreadPrefix(refs, store, i + 1);
        return Err(missing + " " + reference);
      }
      values := values[key := value.value];
    }
    assert refs[..|refs|] == refs;
    read := Ok(values);
  }

  lemma {:induction false} UnreadPrefix(refs: seq<(string, string)>, store: ValueStore, i: nat)
    requires i <= |refs| && FirstUnread(refs[..i], store).Some?
    ensures FirstUnread(refs, store) == FirstUnread(refs[..i], store)
    decreases |refs|
  {
    if i == |refs| {
      assert refs[..i] == refs;
    } else {
      assert refs[..|refs| - 1][..i] == refs[..i];
      UnreadPrefix(refs[..|refs| - 1], store, i);
    }
  }

  method ResolveInstall(record: InstallRecord, configs: ValueStore, secrets: ValueStore)
    returns (resolved: Result<ResolvedInstall, string>)
    ensures resolved == Resolve(record, configs, secrets)
  {
    var config := ReadRefs(record.configRefs, configs, MISSING_CONFIG);
    if config.Err? {
      return Err(config.error);
    }
    var secret := ReadRefs(record.secretRefs, secrets, MISSING_SECRET);
    if secret.Err? {
      return Err(secret.error);
    }
    resolved := Ok(ResolvedInstall(record, config.value, secret.value));
  }

  /** Resolution succeeds exactly when every reference reads, and then every key has what its
      reference reads. */
  lemma ResolveIff(record: InstallRecord, configs: ValueStore, secrets: ValueStore)
    requires DistinctRefs(record.configRefs) && DistinctRefs(record.secretRefs)
    ensures Resolve(record, configs, secrets).Ok? <==>
              AllRead(record.configRefs, configs) && AllRead(record.secretRefs, secrets)
    ensures Resolve(record, configs, secrets).Ok? ==>
              var install := Resolve(record, configs, secrets).value;
              && install.record == record
              && (forall i :: 0 <= i < |record.configRefs| ==>
                    var (key, reference) := record.configRefs[i];
                    key in install.config && Some(install.config[key]) == configs(reference))
              && (forall i :: 0 <= i < |record.secretRefs| ==>
                    var (key, reference) := record.secretRefs[i];
                    key in install.secrets && Some(install.secrets[key]) == secrets(reference))
              && (forall key :: key in install.config ==>
                  exists i :: 0 <= i < |record.configRefs| && record.configRefs[i].0 == key)
              && (forall key :: key in install.secrets ==>
                  exists i :: 0 <= i < |record.secretRefs| && record.secretRefs[i].0 == key)
  {
    if Resolve(record, configs, secrets).Ok? {
      ReadAllReads(record.configRefs, configs);
      ReadAllReads(record.secretRefs, secrets);
    }
  }

  lemma {:induction false} ReadAllReads(refs: seq<(string, string)>, store: ValueStore)
    requires AllRead(refs, store) && DistinctRefs(refs)
    ensures forall i :: 0 <= i < |refs| ==>
              refs[i].0 in ReadAll(refs, store) && Some(ReadAll(refs, store)[refs[i].0]) == store(refs[i].1)
    ensures forall key :: key in ReadAll(refs, store) ==> exists i :: 0 <= i < |refs| && refs[i].0 == key
  {
    if refs != [] {
      var n := |refs| - 1;
      var shorter := refs[..n];
      ReadAllReads(shorter, store);
      assert forall i {:trigger refs[i]} :: 0 <= i < n ==> refs[i] == shorter[i];
      assert forall i {:trigger shorter[i]} :: 0 <= i < n ==> shorter[i] == refs[i];
    }
  }

  /** A failed resolution names the first reference that does not read, configs before secrets. */
  lemma ResolveErrIff(record: InstallRecord, configs: ValueStore, secrets: ValueStore, message: string)
    ensures Resolve(record, configs, secrets) == Err(message) <==>
              || (exists i :: FirstMissing(record.configRefs, configs, i)
                           && message == "missing config ref " + record.configRefs[i].1)
              || (exists i :: && AllRead(record.configRefs, configs) && FirstMissing(record.secretRefs, secrets, i)
                              && message == "missing secret ref " + record.secretRefs[i].1)
  {
    FirstUnreadIff(record.configRefs, configs);
    FirstUnreadIff(record.secretRefs, secrets);
    assert MISSING_CONFIG + " " == "missing config ref " && MISSING_SECRET + " " == "missing secret ref ";
  }

  ghost predicate FirstMissing(refs: seq<(string, string)>, store: ValueStore, i: int) {
    && 0 <= i < |refs|
    && store(refs[i].1) == None
    && forall j :: 0 <= j < i ==> store(refs[j].1).Some?
  }

  lemma FirstUnreadIff(refs: seq<(string, string)>, store: ValueStore)
    ensures forall i :: FirstMissing(refs, store, i) ==> FirstUnread(refs, store) == Some(refs[i].1)
    ensures FirstUnread(refs, store).Some? ==>
              exists i :: FirstMissing(refs, store, i) && FirstUnread(refs, store) == Some(refs[i].1)
  {
    if FirstUnread(refs, store).Some? {
      var i :| 0 <= i < |refs| && refs[i].1 == FirstUnread(refs, store).value && store(refs[i].1).None?
            && AllRead(refs[..i], store);
      assert forall j :: 0 <= j < i ==> refs[..i][j] == refs[j];
      assert FirstMissing(refs, store, i);
      forall k | FirstMissing(refs, store, k) ensures k == i {}
    }
  }

  // ---- Classifying a failed resolution by its message ----

  datatype DiagnosticCode =
    | MissingConfig
    | MissingSecret
    | MalformedInstall
    | ProviderInitFailed
    | SubscriptionSyncFailed

  function ResolveErrorCode(message: string): DiagnosticCode {
    if Contains(message, "secret") then MissingSecret
    else if Contains(message, "config") then MissingConfig
    else MalformedInstall
  }

  /** The word "secret" anywhere in a message decides first, then the word "config". */
  lemma ResolveErrorCodeIff(message: string)
    ensures var secret := exists before, after :: message == before + "secret" + after;
            var config := exists before, after :: message == before + "config" + after;
            && (ResolveErrorCode(message) == MissingSecret <==> secret)
            && (ResolveErrorCode(message) == MissingConfig <==> !secret && config)
            && (ResolveErrorCode(message) == MalformedInstall <==> !secret && !config)
  {
    ContainsIff(message, "secret");
    ContainsIff(message, "config");
  }

  /** A missing secret is always reported as such; a missing config exactly when its reference does
      not hold the word "secret". Nothing is ever called malformed. */
  lemma ResolveErrorClass(record: InstallRecord, configs: ValueStore, secrets: ValueStore)
    requires Resolve(record, configs, secrets).Err?
    ensures var code := ResolveErrorCode(Resolve(record, configs, secrets).error);
            match FirstUnread(record.configRefs, configs)
            case Some(reference) => code == if Contains(reference, "secret") then MissingSecret else MissingConfig
            case None => code == MissingSecret
  {
    match FirstUnread(record.configRefs, configs)
    case Some(reference) =>
      ConfigPrefixHasNoSecret();
      ContainsBehind(MISSING_CONFIG, ' ', reference, "secret");
      var message := MISSING_CONFIG + " " + reference;
      assert message == MISSING_CONFIG + [' '] + reference;
      assert message[8..14] == "config" && OccursAt(message, "config", 8);
    case None =>
      var reference := FirstUnread(record.secretRefs, secrets).value;
      var message := MISSING_SECRET + " " + reference;
      assert message[8..14] == "secret" && OccursAt(message, "secret", 8);
  }

  lemma ConfigPrefixHasNoSecret()
    ensures !Contains(MISSING_CONFIG, "secret")
  {
    forall i | 0 <= i <= |MISSING_CONFIG| - 6 ensures !OccursAt(MISSING_CONFIG, "secret", i) {
      NoSecretAt(i);
    }
  }

  lemma NoSecretAt(i: nat)
    requires i <= |MISSING_CONFIG| - 6
    ensures !OccursAt(MISSING_CONFIG, "secret", i)
  {
    var window := MISSING_CONFIG[i..i + 6];
    assert "secret"[1] == 'e';
    assert MISSING_CONFIG[i + 1] != 'e';
    assert window[1] == MISSING_CONFIG[i + 1];
  }
}
