/** The parser object: its tiers chosen once at construction, then the
    environment file and the container variables produced by resolving every
    manifest entry in manifest order (src/manifest-parser.ts). */
module Parser {
  import opened Wrappers
  import opened Types
  import opened Paths
  import opened Resolution

  /** The environment-file record for an entry resolved to `resolution`: the
      entry's key and value, a comment naming the source, and the entry's
      description as a second comment when there is one. */
  predicate IsRecordFor(record: EnvironmentRecord, config: ManifestRecord, resolution: ValueResolution)
  {
    && record.key == config.key
    && record.value == resolution.resolvedValue
    && |record.comments| == (if Truthy(config.description) then 2 else 1)
    && record.comments[0] == "from " + resolution.source
    && (Truthy(config.description) ==> record.comments[1] == config.description.value)
  }

  /** The entries routed to one of the two lists, in manifest order. */
  function Routed(configs: seq<ManifestRecord>, secret: bool): (routed: seq<ManifestRecord>)
    ensures forall k :: 0 <= k < |routed| ==> routed[k].isSecret == secret
  {
    if configs == [] then []
    else
      Routed(configs[..|configs| - 1], secret)
      + (if configs[|configs| - 1].isSecret == secret then [configs[|configs| - 1]] else [])
  }

  /** Taking one more entry of the manifest adds it to the end of its own list only. */
  lemma RoutedExtend(configs: seq<ManifestRecord>, i: nat, secret: bool)
    requires i < |configs|
    ensures Routed(configs[..i + 1], secret)
            == Routed(configs[..i], secret) + (if configs[i].isSecret == secret then [configs[i]] else [])
  {
    assert configs[..i + 1][..i] == configs[..i];
  }

  /** A list holds exactly the entries whose `isSecret` chose it. */
  lemma {:induction false} RoutedMembers(configs: seq<ManifestRecord>, secret: bool)
    ensures forall c :: c in Routed(configs, secret) <==> c in configs && c.isSecret == secret
  {
    if configs != [] {
      var init, last := configs[..|configs| - 1], configs[|configs| - 1];
      RoutedMembers(init, secret);
      assert configs == init + [last];
    }
  }

  /** Every entry lands in exactly one of the two lists, and the two lengths add up. */
  lemma {:induction false} RoutedPartition(configs: seq<ManifestRecord>)
    ensures |Routed(configs, true)| + |Routed(configs, false)| == |configs|
    ensures forall c :: c in configs ==> (c in Routed(configs, true) <==> c.isSecret)
    ensures forall c :: c in configs ==> (c in Routed(configs, false) <==> !c.isSecret)
  {
    RoutedMembers(configs, true);
    RoutedMembers(configs, false);
    if configs != [] {
      RoutedPartition(configs[..|configs| - 1]);
    }
  }

  /** The secret variable for an entry: the store key of the first non-empty
      pair of the store's answer; no default and no `isRequired` apply. */
  function SecretVar(envs: seq<string>, store: ConfigStore, config: ManifestRecord): (r: Result<SecretKeyValuePair, Error>)
    ensures store(GetApplicableConfigurations(envs, config)).Err? ==>
              r == Err(StoreQueryFailure(store(GetApplicableConfigurations(envs, config)).error))
    ensures store(GetApplicableConfigurations(envs, config)).Ok? ==>
              var stored := store(GetApplicableConfigurations(envs, config)).value;
              && (r.Ok? <==> exists i :: 0 <= i < |stored| && stored[i].value != "")
              && (r.Err? ==> r.error == MissingSecretValue(config.key))
              && (r.Ok? ==> r.value.key == config.key &&
                            exists i :: 0 <= i < |stored| && stored[i].key == r.value.valueFrom &&
                                        stored[i].value != "" && forall j :: 0 <= j < i ==> stored[j].value == "")
  {
    match store(GetApplicableConfigurations(envs, config))
    case Err(reason) => Err(StoreQueryFailure(reason))
    case Ok(storedValues) =>
      match FirstNonEmpty(storedValues)
      case Some(validConfig) => Ok(SecretKeyValuePair(config.key, validConfig.key))
      case None => Err(MissingSecretValue(config.key))
  }

  /** The plain variable for an entry: its value resolved without overrides. */
  function NonSecretVar(envs: seq<string>, store: ConfigStore, config: ManifestRecord): (r: Result<KeyValuePair, Error>)
  {
    match ResolveConfigurationValue(envs, store, config, map[])
    case Ok(resolution) => Ok(KeyValuePair(config.key, resolution.resolvedValue))
    case Err(e) => Err(e)
  }

  /** The error an entry raises when its container variable is built, if any. */
  function ContainerVarError(envs: seq<string>, store: ConfigStore, config: ManifestRecord): Option<Error>
  {
    if config.isSecret then
      (var r := SecretVar(envs, store, config); if r.Err? then Some(r.error) else None)
    else
      (var r := NonSecretVar(envs, store, config); if r.Err? then Some(r.error) else None)
  }

  /** A secret entry fails when the store has no non-empty value for it,
      whatever its default value and whether or not it is required. */
  lemma SecretIgnoresDefault(envs: seq<string>, store: ConfigStore, config: ManifestRecord,
                             defaultValue: Option<string>, isRequired: Option<bool>)
    requires config.isSecret
    requires store(GetApplicableConfigurations(envs, config)).Ok?
    requires var stored := store(GetApplicableConfigurations(envs, config)).value;
             forall j :: 0 <= j < |stored| ==> stored[j].value == ""
    ensures var other := config.(defaultValue := defaultValue, isRequired := isRequired);
            ContainerVarError(envs, store, other) == Some(MissingSecretValue(config.key))
  {
  }

  class ManifestParser {
    var storageClient: ConfigStore
    var envsToFetch: seq<string>
    var manifestData: Manifest

    /** Takes the already parsed manifest; reading and parsing the file is not modelled. */
    constructor (storageClient: ConfigStore, envName: string, manifest: Manifest)
      ensures this.storageClient == storageClient
      ensures envsToFetch == TiersFor(envName)
      ensures manifestData == manifest
    {
      this.storageClient := storageClient;
      match envName {
        case "prod" =>
          envsToFetch := ["prod"];
        case "dev" =>
          envsToFetch := ["dev"];
        case _ =>
          envsToFetch := [envName, "sandbox"];
      }
      manifestData := manifest;
    }

    /** One record per entry, in manifest order, or the first failure in manifest order. */
    method GetLocalEnvironment(overrides: ConfigurationOverrides) returns (r: Result<seq<EnvironmentRecord>, Error>)
      ensures var configs := manifestData.configurations;
              r.Ok? <==> forall i :: 0 <= i < |configs| ==>
                           ResolveConfigurationValue(envsToFetch, storageClient, configs[i], overrides).Ok?
      ensures var configs := manifestData.configurations;
              r.Ok? ==> |r.value| == |configs| &&
                        forall i :: 0 <= i < |configs| ==>
                          IsRecordFor(r.value[i], configs[i],
                                      ResolveConfigurationValue(envsToFetch, storageClient, configs[i], overrides).value)
      ensures var configs := manifestData.configurations;
              r.Err? ==> exists i :: 0 <= i < |configs| &&
                           ResolveConfigurationValue(envsToFetch, storageClient, configs[i], overrides) == Err(r.error) &&
                           forall j :: 0 <= j < i ==>
                             ResolveConfigurationValue(envsToFetch, storageClient, configs[j], overrides).Ok?
    {
      var configs := manifestData.configurations;
      var records: seq<EnvironmentRecord> := [];
      var i := 0;
      while i < |configs|
        invariant 0 <= i <= |configs|
        invariant |records| == i
        invariant forall j :: 0 <= j < i ==>
                    ResolveConfigurationValue(envsToFetch, storageClient, configs[j], overrides).Ok? &&
                    IsRecordFor(records[j], configs[j],
                                ResolveConfigurationValue(envsToFetch, storageClient, configs[j], overrides).value)
      {
        var cfg := configs[i];
        var resolvedValue := ResolveConfigurationValue(envsToFetch, storageClient, cfg, overrides);
        if resolvedValue.Err? {
          return Err(resolvedValue.error);
        }
        var comments := ["from " + resolvedValue.value.source];
        if Truthy(cfg.description) {
          comments := comments + [cfg.description.value];
        }
        records := records + [EnvironmentRecord(cfg.key, resolvedValue.value.resolvedValue, comments)];
        i := i + 1;
      }
      return Ok(records);
    }

    /** Secret entries become store references, the others literal values,
        each list in manifest order; or the first failure in manifest order. */
    method GetContainerVars() returns (r: Result<ContainerVars, Error>)
      ensures var configs := manifestData.configurations;
              r.Ok? <==> forall i :: 0 <= i < |configs| ==>
                           ContainerVarError(envsToFetch, storageClient, configs[i]).None?
      ensures var configs := manifestData.configurations;
              r.Err? ==> exists i :: 0 <= i < |configs| &&
                           ContainerVarError(envsToFetch, storageClient, configs[i]) == Some(r.error) &&
                           forall j :: 0 <= j < i ==> ContainerVarError(envsToFetch, storageClient, configs[j]).None?
      ensures var secrets := Routed(manifestData.configurations, true);
              r.Ok? ==> |r.value.secretContainerVars| == |secrets| &&
                        forall k :: 0 <= k < |secrets| ==>
                          SecretVar(envsToFetch, storageClient, secrets[k]) == Ok(r.value.secretContainerVars[k])
      ensures var plain := Routed(manifestData.configurations, false);
              r.Ok? ==> |r.value.nonSecretContainerVars| == |plain| &&
                        forall k :: 0 <= k < |plain| ==>
                          NonSecretVar(envsToFetch, storageClient, plain[k]) == Ok(r.value.nonSecretContainerVars[k])
      ensures r.Ok? ==> |r.value.secretContainerVars| + |r.value.nonSecretContainerVars|
                        == |manifestData.configurations|
    {
      var configs, envs, store := manifestData.configurations, envsToFetch, storageClient;
      var output := ContainerVars([], []);
      var i := 0;
      while i < |configs|
        invariant 0 <= i <= |configs|
        invariant forall j :: 0 <= j < i ==> ContainerVarError(envs, store, configs[j]).None?
        invariant var secrets := Routed(configs[..i], true);
                  |output.secretContainerVars| == |secrets| &&
                  forall k :: 0 <= k < |secrets| ==>
                    SecretVar(envs, store, secrets[k]) == Ok(output.secretContainerVars[k])
        invariant var plain := Routed(configs[..i], false);
                  |output.nonSecretContainerVars| == |plain| &&
                  forall k :: 0 <= k < |plain| ==>
                    NonSecretVar(envs, store, plain[k]) == Ok(output.nonSecretContainerVars[k])
      {
        var cfg := configs[i];
        RoutedExtend(configs, i, true);
        RoutedExtend(configs, i, false);
        if cfg.isSecret {
          var storedValues := store(GetApplicableConfigurations(envs, cfg));
          if storedValues.Err? {
            return Err(StoreQueryFailure(storedValues.error));
          }
          var validConfig := FirstNonEmpty(storedValues.value);
          if validConfig.Some? {
            assert SecretVar(envs, store, cfg) == Ok(SecretKeyValuePair(cfg.key, validConfig.value.key));
            assert ContainerVarError(envs, store, configs[i]).None?;
            output := output.(secretContainerVars := output.secretContainerVars
                                                     + [SecretKeyValuePair(cfg.key, validConfig.value.key)]);
          } else {
            return Err(MissingSecretValue(cfg.key));
          }
        } else {
          var resolved := ResolveConfigurationValue(envs, store, cfg, map[]);
          if resolved.Err? {
            return Err(resolved.error);
          }
          assert NonSecretVar(envs, store, cfg) == Ok(KeyValuePair(cfg.key, resolved.value.resolvedValue));
          assert ContainerVarError(envs, store, configs[i]).None?;
          output := output.(nonSecretContainerVars := output.nonSecretContainerVars
                                                       + [KeyValuePair(cfg.key, resolved.value.resolvedValue)]);
        }
        i := i + 1;
      }
      assert configs[..i] == configs;
      RoutedPartition(configs);
      return Ok(output);
    }
  }
}
