/** Which environment tiers are searched, and the store keys an entry expands
    to across them (src/manifest-parser.ts, the constructor's switch and
    getApplicableConfigurations). */
module Paths {
  import opened Wrappers
  import opened Types

  /** The tiers searched for an environment, highest priority first: the
      environment itself, and for any environment other than "prod" and
      "dev" the shared "sandbox" tier after it. This specifies the `switch`
      that the `ManifestParser` constructor runs to set `envsToFetch`. */
  function TiersFor(envName: string): (envs: seq<string>)
    ensures |envs| > 0 && envs[0] == envName
    ensures |envs| == 2 <==> envName != "prod" && envName != "dev"
    ensures |envs| <= 2
    ensures |envs| == 2 ==> envs[1] == "sandbox"
  {
    match envName
    case "prod" => ["prod"]
    case "dev" => ["dev"]
    case _ => [envName, "sandbox"]
  }

  /** How a template literal renders an optional field: an absent one prints as "undefined". */
  function Interpolate(s: Option<string>): string
  {
    match s
    case None => "undefined"
    case Some(v) => v
  }

  function DirectPath(env: string, suffix: string): string
  {
    "/" + env + "/" + suffix
  }

  function GeneratedPath(env: string, suffix: string): string
  {
    "/" + env + "/generated/" + suffix
  }

  /** Each tier mapped to its direct and its generated path, the pairs
      concatenated in tier order. */
  function CandidatePaths(envs: seq<string>, suffix: string): (paths: seq<string>)
    ensures |paths| == 2 * |envs|
    ensures forall i :: 0 <= i < |envs| ==>
              paths[2 * i] == DirectPath(envs[i], suffix) &&
              paths[2 * i + 1] == GeneratedPath(envs[i], suffix)
  {
    if envs == [] then []
    else
      var rest := CandidatePaths(envs[1..], suffix);
      var paths := [DirectPath(envs[0], suffix), GeneratedPath(envs[0], suffix)] + rest;
      assert forall i :: 1 <= i < |envs| ==> paths[2 * i] == rest[2 * (i - 1)] && envs[i] == envs[1..][i - 1];
      paths
  }

  /** The store keys queried for one entry under the given tiers. */
  function GetApplicableConfigurations(envs: seq<string>, config: ManifestRecord): (paths: seq<string>)
    ensures |paths| == 2 * |envs|
    ensures forall i :: 0 <= i < |envs| ==>
              paths[2 * i] == DirectPath(envs[i], Interpolate(config.valueFrom)) &&
              paths[2 * i + 1] == GeneratedPath(envs[i], Interpolate(config.valueFrom))
  {
    CandidatePaths(envs, Interpolate(config.valueFrom))
  }

  /** The expansion of suffix "x" over the tiers "dev" then "sandbox":
      direct before generated, tier by tier. */
  lemma ExpansionExample()
    ensures CandidatePaths(["dev", "sandbox"], "x")
            == ["/dev/x", "/dev/generated/x", "/sandbox/x", "/sandbox/generated/x"]
  {
    var p := CandidatePaths(["dev", "sandbox"], "x");
    assert ["dev", "sandbox"][0] == "dev" && ["dev", "sandbox"][1] == "sandbox";
    assert p[0] == DirectPath("dev", "x") == "/dev/x";
    assert p[1] == GeneratedPath("dev", "x") == "/dev/generated/x";
    assert p[2] == DirectPath("sandbox", "x") == "/sandbox/x";
    assert p[3] == GeneratedPath("sandbox", "x") == "/sandbox/generated/x";
  }
}
