/** The records of the manifest and of the resolver's output (src/types.ts),
    the errors the resolver raises, and the configuration store it consults. */
module Types {
  import opened Wrappers

  /** One entry of the manifest. Optional fields (`field?: T`) are `Option`s. */
  datatype ManifestRecord = ManifestRecord(
    key: string,
    valueFrom: Option<string>,
    description: Option<string>,
    defaultValue: Option<string>,
    isSecret: bool,
    isRequired: Option<bool>)

  datatype Manifest = Manifest(version: int, configurations: seq<ManifestRecord>)

  datatype EnvironmentRecord = EnvironmentRecord(key: string, value: string, comments: seq<string>)

  /** Caller-supplied values, by entry key. */
  type ConfigurationOverrides = map<string, string>

  datatype KeyValuePair = KeyValuePair(key: string, value: string)

  datatype SecretKeyValuePair = SecretKeyValuePair(key: string, valueFrom: string)

  datatype ContainerVars = ContainerVars(
    nonSecretContainerVars: seq<KeyValuePair>,
    secretContainerVars: seq<SecretKeyValuePair>)

  /** A resolved value and where it came from: "overrides", "default" or a store key. */
  datatype ValueResolution = ValueResolution(resolvedValue: string, source: string)

  /** What resolution can fail with. The two "required" errors carry no key,
      as the messages the code throws do not; a store failure carries
      whatever the store reported. */
  datatype Error =
    | UnconfiguredEntry          // required, no default value and no configuration path
    | UnresolvedEntry            // required, no default value, and no store value found
    | MissingSecretValue(key: string)
    | StoreQueryFailure(reason: string)

  /** The configuration store: one batch lookup by a list of keys, answering
      with key/value pairs in an order of its own choosing, or failing. */
  type ConfigStore = seq<string> -> Result<seq<KeyValuePair>, string>

  /** JavaScript truthiness of an optional string field: absent and "" are both falsy. */
  predicate Truthy(s: Option<string>)
  {
    s.Some? && s.value != ""
  }

  /** `isRequired || typeof isRequired === "undefined"`: required unless explicitly false. */
  predicate IsRequired(config: ManifestRecord)
  {
    config.isRequired != Some(false)
  }
}
