# env-manifest configuration resolution, modelled in Dafny

This project models how the `ManifestParser` of env-manifest turns a manifest
into concrete configuration values. A manifest is a list of configuration
entries. Each entry has a key, an optional store path suffix (`valueFrom`), an
optional description, an optional default value, a secret flag and an optional
"required" flag. The parser resolves each entry in priority order:

1. a caller-supplied override for the key;
2. the configuration store, queried with candidate paths expanded over the
   environment tiers;
3. the literal default.

The parser then produces either the records of an environment file, or the
container variables. For container variables, secret entries become references
to the store key that holds their value, and the other entries become literal
values.

Modules, one file each:

- `wrappers.dfy` (`Wrappers`): `Option` and `Result`.
- `types.dfy` (`Types`): the records of `src/types.ts` as datatypes, the
  resolver's errors, and the store as a function type. It also holds
  JavaScript truthiness for optional strings (`Truthy`: absent and `""` are
  both false) and the "required unless explicitly false" rule (`IsRequired`).
- `paths.dfy` (`Paths`): the tier list for an environment name, and the
  candidate store paths for an entry.
- `resolution.dfy` (`Resolution`): the value chain for one entry
  (`resolveConfigurationValue` with its inner `returnDefaultValue`) and the
  properties proved about it.
- `parser.dfy` (`Parser`): the class `ManifestParser`. Its constructor selects
  the tiers. Its methods `GetLocalEnvironment` and `GetContainerVars` loop over
  the manifest. Their contracts are stated through per-entry definitions:
  `IsRecordFor` is the record built for one entry
  (src/manifest-parser.ts:107-114), `SecretVar` and `NonSecretVar` are the
  secret and non-secret branches (src/manifest-parser.ts:130-142, 143-147),
  and `ContainerVarError` is the error, if any, that one entry raises in
  `getContainerVars`.

The configuration store is a parameter of type
`seq<string> -> Result<seq<KeyValuePair>, string>`. Every property holds for
every store. A store failure becomes the error `StoreQueryFailure`.

Behaviour the model keeps as the code has it:

- **Store answer order.** The comments `// order defines priority`
  (src/manifest-parser.ts:29, 45) make tier order the priority. The code
  nevertheless takes the first pair with a non-empty value in the order the
  store returned the pairs (`storedValues.find`, src/manifest-parser.ts:92).
  The model follows the code (`FirstNonEmpty`).
  `FirstByPriority` is the candidate-order selection. `InRequestOrderAgrees`
  proves that the two agree when the store answers in request order.
  `ResponseOrderDecides` shows an answer in a different order where a "sandbox"
  value beats a "dev" value.
- **Secret without `valueFrom`.** A secret entry is expanded without checking
  `valueFrom`. When it is absent, the paths contain the text `undefined`
  (`Interpolate`), as the template literal renders it.
- **Error identity.** The two "required" errors (`UnconfiguredEntry`,
  `UnresolvedEntry`) carry no key, because the messages the code throws have
  none. `MissingSecretValue` carries the key, as its message does.

## Model

| member | source | states |
|---|---|---|
| `Paths.TiersFor` | src/manifest-parser.ts:21-31 | The environment's own tier comes first. Exactly the environments other than "prod" and "dev" get a second tier, and that tier is "sandbox". |
| `Parser.ManifestParser.constructor` | src/manifest-parser.ts:19-31 | The parser keeps the store and the already parsed manifest, and its `envsToFetch` is the tier list of the environment name. |
| `Paths.CandidatePaths` | src/manifest-parser.ts:42-48 | For n tiers there are 2n paths. Element 2i is `/T_i/<suffix>` and element 2i+1 is `/T_i/generated/<suffix>`, in tier order. |
| `Paths.GetApplicableConfigurations` | src/manifest-parser.ts:42-48 | An entry's candidate paths follow the same layout, with the entry's `valueFrom` as rendered by a template literal. |
| `Paths.ExpansionExample` | src/manifest-parser.ts:42-48 | Suffix "x" over tiers "dev", "sandbox" gives exactly `/dev/x`, `/dev/generated/x`, `/sandbox/x`, `/sandbox/generated/x`. |
| `Resolution.FirstNonEmpty` | src/manifest-parser.ts:91-92 | The result is none exactly when every value in the store's answer is empty. Otherwise it is the first pair, in answer order, whose value is non-empty. |
| `Resolution.ReturnDefaultValue` | src/manifest-parser.ts:61-81 | The fallback succeeds exactly when the default is non-empty or the entry is optional. The value is the default, or "" when there is none, with source "default". A failure is "unconfigured" exactly when there is no `valueFrom`, and "unresolved" otherwise. |
| `Resolution.ResolveConfigurationValue` | src/manifest-parser.ts:50-101 | An override always wins with source "overrides". Otherwise, with a `valueFrom`, a failing store query ends resolution with `StoreQueryFailure` carrying the store's reason. A failure is a store failure (only with a `valueFrom`), or a required entry without a default, whose error kind depends on `valueFrom`. An empty value comes only from an override or from an optional entry's default. |
| `Resolution.OverrideIgnoresStore` | src/manifest-parser.ts:54-59 | With an override present, the result is the override, and it is the same for every store. |
| `Resolution.NoPathUsesDefault` | src/manifest-parser.ts:61-85 | With no override and no `valueFrom`, the result is the same for every store. It is the default, or the "unconfigured" error for a required entry, or ("", "default") for an optional entry. |
| `Resolution.StoreValueWins` | src/manifest-parser.ts:87-98 | With a `valueFrom`, the first non-empty pair of the store's answer gives the value, and the source is that pair's key. |
| `Resolution.StoreMissUsesDefault` | src/manifest-parser.ts:68-100 | When no pair has a value, the default applies. A required entry without a default fails as "unresolved". An optional entry gets ("", "default"). |
| `Resolution.OptionalNeverFails` | src/manifest-parser.ts:61-81 | An entry with `isRequired` false fails only when the store fails. |
| `Resolution.InRequestOrderAgrees` | src/manifest-parser.ts:91-92 | When the store answers in request order, the first non-empty pair of the answer is the first non-empty candidate by tier priority. |
| `Resolution.ResolutionHonoursPriority` | src/manifest-parser.ts:87-98 | When the store answers in request order, resolution returns the highest-priority candidate that has a value. |
| `Resolution.ResponseOrderDecides` | src/manifest-parser.ts:87-98 | When the store answers out of request order, a lower-priority "sandbox" value is chosen over a "dev" value. |
| `Parser.ManifestParser.GetLocalEnvironment` | src/manifest-parser.ts:103-122 | Success holds exactly when every entry resolves. On success there is one record per entry in manifest order, with key, value, the comment "from <source>", and the description as a second comment exactly when it is non-empty. On failure the error is that of the first failing entry, with no partial output. |
| `Parser.SecretVar` | src/manifest-parser.ts:130-142 | A secret references the store key of the first non-empty pair of the answer. With no such pair it fails with `MissingSecretValue`. |
| `Parser.SecretIgnoresDefault` | src/manifest-parser.ts:130-142 | A secret with no store value fails whatever its default value and `isRequired`. |
| `Parser.RoutedMembers` | src/manifest-parser.ts:129-150 | A list holds exactly the entries whose `isSecret` selects it. |
| `Parser.RoutedPartition` | src/manifest-parser.ts:129-150 | Every entry is in exactly one of the two lists, chosen by `isSecret`, and the two lengths add up to the number of entries. |
| `Parser.ManifestParser.GetContainerVars` | src/manifest-parser.ts:124-152 | Success holds exactly when no entry fails. The secret list and the plain list hold the variables of the secret and the non-secret entries. Plain values are resolved with no overrides. The lengths sum to the number of entries. On failure the error is that of the first failing entry. |

## Left out

- Reading and YAML-parsing the manifest file (src/manifest-parser.ts:32-39): these are file I/O and a foreign parser. The constructor takes the parsed `Manifest`.
- Logging (src/manifest-parser.ts:35, 37, 117): output only.
- The real configuration store (src/types.ts:73-76) is a network client. It is a function parameter here, and its failures are one more error outcome.
- `async`/`await` and `Promise.all`: each loop runs sequentially in manifest order, and the store is called once per entry that reaches it.
- Parser.ManifestParser.GetContainerVars: the model fills both lists in manifest order. The code pushes in completion order, so the code guarantees which entries each list holds but not their order.
- Parser.ManifestParser.GetLocalEnvironment: when several entries fail, the model reports the first in manifest order. `Promise.all` rejects with whichever failure happens first in time.
- Parser.ManifestParser.GetContainerVars: when several entries fail, the model likewise reports the first in manifest order, while `await Promise.all` (src/manifest-parser.ts:150) rejects with whichever failure happens first in time.
- `ramda.flatten` is modelled as plain sequence concatenation.
- Overrides are a `map<string, string>`. Keys inherited from a JavaScript object's prototype (such as `constructor`) are not modelled; in the code they count as defined overrides.
- Thrown `Error` objects and their message texts are modelled as the constructors of `Types.Error`.
- The manifest's `version` field is carried but never read, as in the code.
