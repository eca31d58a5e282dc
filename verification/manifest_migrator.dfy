/** Migration of a deployment manifest's legacy single `release` section to
    the `releases` list. The manifest is its hash of top-level sections; the
    cloud config is passed through. */
module ManifestMigration {
  import opened Results
  import opened Values

  type Manifest = map<string, Value>

  datatype MigrationError = AmbiguousReleaseSpec

  function MigrationErrorMessage(e: MigrationError): string
  {
    match e
    case AmbiguousReleaseSpec =>
      "Deployment manifest contains both 'release' and 'releases' sections, please use one of the two."
  }

  /** `[release].compact`: a nil release gives an empty list. */
  function ReleaseList(release: Value): (r: seq<Value>)
    ensures release.Null? ==> r == []
    ensures !release.Null? ==> r == [release]
  {
    if release.Null? then [] else [release]
  }

  /** `migrate`: a manifest with both sections is ambiguous; one with a
      `release` section has it moved into a one-element `releases` list (or an
      empty one for nil); any other manifest is returned as it is. Every
      other section is kept, and the cloud config comes back unchanged. */
  function Migrate(manifest: Manifest, cloudConfig: Value): (r: Result<(Manifest, Value), MigrationError>)
    ensures r.Failure? <==> "release" in manifest && "releases" in manifest
    ensures r.Failure? ==> r.error == AmbiguousReleaseSpec
    ensures r.Success? ==> r.value.1 == cloudConfig
    ensures r.Success? ==> "release" !in r.value.0
    ensures r.Success? ==> forall k :: k != "release" && k != "releases" ==>
              (k in r.value.0 <==> k in manifest) && (k in manifest ==> r.value.0[k] == manifest[k])
    ensures "release" !in manifest ==> r == Success((manifest, cloudConfig))
    ensures "release" in manifest && "releases" !in manifest ==>
              r.Success? && "releases" in r.value.0 && r.value.0["releases"] == Arr(ReleaseList(manifest["release"]))
  {
    if "release" in manifest then
      if "releases" in manifest then Failure(AmbiguousReleaseSpec)
      else Success(((manifest - {"release"})["releases" := Arr(ReleaseList(manifest["release"]))], cloudConfig))
    else Success((manifest, cloudConfig))
  }

  /** A manifest with both sections is refused with the ambiguity message. */
  lemma AmbiguityMessage(manifest: Manifest, cloudConfig: Value)
    requires "release" in manifest && "releases" in manifest
    ensures Migrate(manifest, cloudConfig).Failure?
    ensures MigrationErrorMessage(Migrate(manifest, cloudConfig).error) ==
              "Deployment manifest contains both 'release' and 'releases' sections, please use one of the two."
  {
    assert Migrate(manifest, cloudConfig) == Failure(AmbiguousReleaseSpec);
  }

  /** Migrating a migrated manifest changes nothing. */
  lemma MigrateIdempotent(manifest: Manifest, cloudConfig: Value)
    requires Migrate(manifest, cloudConfig).Success?
    ensures Migrate(Migrate(manifest, cloudConfig).value.0, cloudConfig) == Migrate(manifest, cloudConfig)
  {
  }

  /** Migration loses no release: a manifest with a `release` section lists
      exactly that release afterwards, unless it was nil, and one with only
      `releases` keeps its list. */
  lemma MigratedReleases(manifest: Manifest, cloudConfig: Value)
    requires Migrate(manifest, cloudConfig).Success?
    requires "release" in manifest || "releases" in manifest
    ensures "releases" in Migrate(manifest, cloudConfig).value.0
    ensures var releases := Migrate(manifest, cloudConfig).value.0["releases"];
            if "release" in manifest then
              releases.Arr? && (forall x :: x in releases.items <==> x == manifest["release"] && !x.Null?)
            else releases == manifest["releases"]
  {
  }

  /** The legacy section `release: {…}` becomes `releases: [{…}]` and a nil one
      an empty list, with `name` untouched. */
  lemma LegacyReleaseExamples(stuff: Value, cloudConfig: Value)
    requires !stuff.Null?
    ensures var m := map["name" := Str("my-custom-name"), "release" := stuff];
            Migrate(m, cloudConfig) == Success((map["name" := Str("my-custom-name"), "releases" := Arr([stuff])], cloudConfig))
    ensures Migrate(map["release" := Null], cloudConfig) == Success((map["releases" := Arr([])], cloudConfig))
  {
    var m := map["name" := Str("my-custom-name"), "release" := stuff];
    assert (m - {"release"})["releases" := Arr([stuff])] == map["name" := Str("my-custom-name"), "releases" := Arr([stuff])];
    assert (map["release" := Null] - {"release"})["releases" := Arr([])] == map["releases" := Arr([])];
  }
}
