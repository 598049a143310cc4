/** Resolution of one manifest entry: overrides, then the store, then the
    default (src/manifest-parser.ts, resolveConfigurationValue and its inner
    returnDefaultValue). */
module Resolution {
  import opened Wrappers
  import opened Types
  import opened Paths

  /** `storedValues.find((kvp) => kvp.value)`: the first pair of the store's
      answer, in the order the store gave it, whose value is non-empty. */
  function FirstNonEmpty(stored: seq<KeyValuePair>): (found: Option<KeyValuePair>)
    ensures found.None? <==> forall i :: 0 <= i < |stored| ==> stored[i].value == ""
    ensures found.Some? ==>
              exists i :: 0 <= i < |stored| && stored[i] == found.value && stored[i].value != "" &&
                          forall j :: 0 <= j < i ==> stored[j].value == ""
  {
    if stored == [] then None
    else if stored[0].value != "" then Some(stored[0])
    else
      var found := FirstNonEmpty(stored[1..]);
      assert forall i :: 1 <= i < |stored| ==> stored[i] == stored[1..][i - 1];
      found
  }

  /** The fall-back once neither an override nor the store supplied a value. */
  function ReturnDefaultValue(config: ManifestRecord): (r: Result<ValueResolution, Error>)
    ensures r.Ok? <==> Truthy(config.defaultValue) || !IsRequired(config)
    ensures r.Ok? ==> r.value.source == "default"
    ensures r.Ok? && Truthy(config.defaultValue) ==> r.value.resolvedValue == config.defaultValue.value
    ensures r.Ok? && !Truthy(config.defaultValue) ==> r.value.resolvedValue == ""
    ensures r.Err? ==> (r.error == UnconfiguredEntry <==> !Truthy(config.valueFrom))
    ensures r.Err? ==> r.error.UnconfiguredEntry? || r.error.UnresolvedEntry?
  {
    if !Truthy(config.valueFrom) && !Truthy(config.defaultValue) && IsRequired(config) then
      Err(UnconfiguredEntry)
    else if !Truthy(config.defaultValue) && IsRequired(config) then
      Err(UnresolvedEntry)
    else
      Ok(ValueResolution(if Truthy(config.defaultValue) then config.defaultValue.value else "", "default"))
  }

  /** Resolves one entry against the tiers `envs` and the store. */
  function ResolveConfigurationValue(envs: seq<string>, store: ConfigStore, config: ManifestRecord,
                                     overrides: ConfigurationOverrides): (r: Result<ValueResolution, Error>)
    // an override wins outright, whatever the entry says
    ensures config.key in overrides ==> r == Ok(ValueResolution(overrides[config.key], "overrides"))
    // failures: the store's own (which always propagates), or a required entry without a default
    ensures r.Err? ==> config.key !in overrides
    ensures config.key !in overrides && Truthy(config.valueFrom) &&
            store(GetApplicableConfigurations(envs, config)).Err? ==>
              r == Err(StoreQueryFailure(store(GetApplicableConfigurations(envs, config)).error))
    ensures r.Err? && r.error.StoreQueryFailure? ==> Truthy(config.valueFrom)
    ensures r.Err? && !r.error.StoreQueryFailure? ==>
              IsRequired(config) && !Truthy(config.defaultValue) &&
              (r.error == UnconfiguredEntry <==> !Truthy(config.valueFrom)) &&
              (r.error == UnresolvedEntry <==> Truthy(config.valueFrom))
    // an empty value is only ever an override or the fall-back of an optional entry
    ensures r.Ok? && r.value.resolvedValue == "" ==>
              config.key in overrides || (!IsRequired(config) && r.value.source == "default")
  {
    if config.key in overrides then
      Ok(ValueResolution(overrides[config.key], "overrides"))
    else if !Truthy(config.valueFrom) then
      ReturnDefaultValue(config)
    else
      match store(GetApplicableConfigurations(envs, config))
      case Err(reason) => Err(StoreQueryFailure(reason))
      case Ok(storedValues) =>
        match FirstNonEmpty(storedValues)
        case Some(validConfig) => Ok(ValueResolution(validConfig.value, validConfig.key))
        case None => ReturnDefaultValue(config)
  }

  /** With an override for the key, the store is never consulted: any two
      stores give the same answer, the override, even for an entry that
      would otherwise fail. */
  lemma OverrideIgnoresStore(envs: seq<string>, store1: ConfigStore, store2: ConfigStore,
                             config: ManifestRecord, overrides: ConfigurationOverrides)
    requires config.key in overrides
    ensures ResolveConfigurationValue(envs, store1, config, overrides)
            == ResolveConfigurationValue(envs, store2, config, overrides)
            == Ok(ValueResolution(overrides[config.key], "overrides"))
  {
  }

  /** Without an override and without a (non-empty) `valueFrom`, the store is
      never consulted, and the default, the "unconfigured" error or the empty
      optional value follow. */
  lemma NoPathUsesDefault(envs: seq<string>, store1: ConfigStore, store2: ConfigStore,
                          config: ManifestRecord, overrides: ConfigurationOverrides)
    requires config.key !in overrides && !Truthy(config.valueFrom)
    ensures ResolveConfigurationValue(envs, store1, config, overrides)
            == ResolveConfigurationValue(envs, store2, config, overrides)
    ensures Truthy(config.defaultValue) ==>
              ResolveConfigurationValue(envs, store1, config, overrides)
              == Ok(ValueResolution(config.defaultValue.value, "default"))
    ensures !Truthy(config.defaultValue) && IsRequired(config) ==>
              ResolveConfigurationValue(envs, store1, config, overrides) == Err(UnconfiguredEntry)
    ensures !Truthy(config.defaultValue) && config.isRequired == Some(false) ==>
              ResolveConfigurationValue(envs, store1, config, overrides) == Ok(ValueResolution("", "default"))
  {
  }

  /** With a `valueFrom`, the value is that of the first pair in the store's
      answer with a non-empty value, and its source is that pair's key. */
  lemma StoreValueWins(envs: seq<string>, store: ConfigStore, config: ManifestRecord,
                       overrides: ConfigurationOverrides, i: nat)
    requires config.key !in overrides && Truthy(config.valueFrom)
    requires store(GetApplicableConfigurations(envs, config)).Ok?
    requires var stored := store(GetApplicableConfigurations(envs, config)).value;
             i < |stored| && stored[i].value != "" && forall j :: 0 <= j < i ==> stored[j].value == ""
    ensures var stored := store(GetApplicableConfigurations(envs, config)).value;
            ResolveConfigurationValue(envs, store, config, overrides)
            == Ok(ValueResolution(stored[i].value, stored[i].key))
  {
  }

  /** With a `valueFrom` but no non-empty value in the store's answer, the
      default applies, and a required entry without one fails as "unresolved",
      not as "unconfigured". */
  lemma StoreMissUsesDefault(envs: seq<string>, store: ConfigStore, config: ManifestRecord,
                             overrides: ConfigurationOverrides)
    requires config.key !in overrides && Truthy(config.valueFrom)
    requires store(GetApplicableConfigurations(envs, config)).Ok?
    requires var stored := store(GetApplicableConfigurations(envs, config)).value;
             forall j :: 0 <= j < |stored| ==> stored[j].value == ""
    ensures Truthy(config.defaultValue) ==>
              ResolveConfigurationValue(envs, store, config, overrides)
              == Ok(ValueResolution(config.defaultValue.value, "default"))
    ensures !Truthy(config.defaultValue) && IsRequired(config) ==>
              ResolveConfigurationValue(envs, store, config, overrides) == Err(UnresolvedEntry)
    ensures !Truthy(config.defaultValue) && config.isRequired == Some(false) ==>
              ResolveConfigurationValue(envs, store, config, overrides) == Ok(ValueResolution("", "default"))
  {
  }

  /** An optional entry never fails unless the store itself does. */
  lemma OptionalNeverFails(envs: seq<string>, store: ConfigStore, config: ManifestRecord,
                           overrides: ConfigurationOverrides)
    requires config.isRequired == Some(false)
    ensures var r := ResolveConfigurationValue(envs, store, config, overrides);
            r.Ok? || r.error.StoreQueryFailure?
  {
  }

  // ----- Store answer order versus candidate order -----

  /** The value the store gave for `key`, the first pair with that key. */
  function Lookup(stored: seq<KeyValuePair>, key: string): (v: Option<string>)
    ensures v.None? <==> forall i :: 0 <= i < |stored| ==> stored[i].key != key
    ensures stored != [] && stored[0].key == key ==> v == Some(stored[0].value)
  {
    if stored == [] then None
    else if stored[0].key == key then Some(stored[0].value)
    else
      var v := Lookup(stored[1..], key);
      assert forall i :: 1 <= i < |stored| ==> stored[i] == stored[1..][i - 1];
      v
  }

  /** A reference selection by priority: the first candidate key, in the
      order of the tiers, for which the store gave a non-empty value (a key
      missing from the answer counts as empty). */
  function FirstByPriority(candidates: seq<string>, stored: seq<KeyValuePair>): (found: Option<KeyValuePair>)
    ensures found.Some? ==> found.value.key in candidates && found.value.value != ""
  {
    if candidates == [] then None
    else
      var v := Lookup(stored, candidates[0]);
      if v.Some? && v.value != "" then Some(KeyValuePair(candidates[0], v.value))
      else FirstByPriority(candidates[1..], stored)
  }

  /** The store answered in the order of the request: its pairs are some of
      the requested keys, each once, in the order they were first requested. */
  predicate InRequestOrder(candidates: seq<string>, stored: seq<KeyValuePair>)
    decreases |candidates|
  {
    if candidates == [] then stored == []
    else if stored != [] && stored[0].key == candidates[0] then
      Lookup(stored[1..], candidates[0]).None? && InRequestOrder(candidates[1..], stored[1..])
    else
      Lookup(stored, candidates[0]).None? && InRequestOrder(candidates[1..], stored)
  }

  /** Dropping a leading pair with an empty value, whose key occurs nowhere
      else in the answer, does not change the selection by priority. */
  lemma {:induction false} DropEmptyHead(candidates: seq<string>, stored: seq<KeyValuePair>)
    requires stored != [] && stored[0].value == ""
    requires Lookup(stored[1..], stored[0].key).None?
    ensures FirstByPriority(candidates, stored) == FirstByPriority(candidates, stored[1..])
    decreases |candidates|
  {
    if candidates != [] {
      DropEmptyHead(candidates[1..], stored);
      if candidates[0] != stored[0].key {
        assert Lookup(stored, candidates[0]) == Lookup(stored[1..], candidates[0]);
      }
    }
  }

  /** When the store answers in request order, taking the first non-empty
      pair of the answer is the same as taking the first non-empty candidate
      by priority. */
  lemma {:induction false} InRequestOrderAgrees(candidates: seq<string>, stored: seq<KeyValuePair>)
    requires InRequestOrder(candidates, stored)
    ensures FirstNonEmpty(stored) == FirstByPriority(candidates, stored)
    decreases |candidates|
  {
    if candidates == [] {
    } else if stored != [] && stored[0].key == candidates[0] {
      InRequestOrderAgrees(candidates[1..], stored[1..]);
      if stored[0].value == "" {
        DropEmptyHead(candidates[1..], stored);
      }
    } else {
      InRequestOrderAgrees(candidates[1..], stored);
    }
  }

  /** Resolution honours tier priority whenever the store answers in request order. */
  lemma ResolutionHonoursPriority(envs: seq<string>, store: ConfigStore, config: ManifestRecord,
                                  overrides: ConfigurationOverrides)
    requires config.key !in overrides && Truthy(config.valueFrom)
    requires store(GetApplicableConfigurations(envs, config)).Ok?
    requires InRequestOrder(GetApplicableConfigurations(envs, config),
                            store(GetApplicableConfigurations(envs, config)).value)
    requires FirstByPriority(GetApplicableConfigurations(envs, config),
                             store(GetApplicableConfigurations(envs, config)).value).Some?
    ensures var best := FirstByPriority(GetApplicableConfigurations(envs, config),
                                        store(GetApplicableConfigurations(envs, config)).value).value;
            ResolveConfigurationValue(envs, store, config, overrides) == Ok(ValueResolution(best.value, best.key))
  {
    InRequestOrderAgrees(GetApplicableConfigurations(envs, config),
                         store(GetApplicableConfigurations(envs, config)).value);
  }

  /** A store that answers out of request order decides the winner: here the
      "sandbox" value is chosen over the higher-priority "dev" one. */
  lemma ResponseOrderDecides()
    ensures var config := ManifestRecord("K", Some("x"), None, None, false, None);
            var stored := [KeyValuePair("/sandbox/x", "s"), KeyValuePair("/dev/x", "d")];
            var store: ConfigStore := _ => Ok(stored);
            && ResolveConfigurationValue(["dev", "sandbox"], store, config, map[])
               == Ok(ValueResolution("s", "/sandbox/x"))
            && FirstByPriority(GetApplicableConfigurations(["dev", "sandbox"], config), stored)
               == Some(KeyValuePair("/dev/x", "d"))
  {
  }
}
