/** The build matrix read from the mapping file, and the bundle names derived from it. */
module BuildMatrix {

  /** One platform build descriptor, a row of the mapping file. */
  datatype BuildConfig = BuildConfig(
    dir: string,          // working directory staged into one bundle
    archType: string,     // "x64", "arm64", ...
    name: string,         // display name used as the manifest's package key
    majorVersion: string,
    minorVersion: string,
    uptPackage: string)   // platform identifier of the download service

  /** The parsed mapping file: OS name to its ordered list of descriptors. */
  type Matrix = map<string, seq<BuildConfig>>

  /** The OS keys the packager walks, in this order. */
  const OS_LIST: seq<string> := ["windows", "linux"]

  /** The name of the manifest file staged beside the bundles. */
  const MANIFEST_FILE := "manifest.json"

  /** Every OS in `oses` is a key of the matrix (a missing one makes the packager raise). */
  predicate Covers(m: Matrix, oses: seq<string>)
  {
    forall k :: 0 <= k < |oses| ==> oses[k] in m
  }

  /** The descriptors of the OSes in `oses`, concatenated in that order. */
  function ConfigsOf(m: Matrix, oses: seq<string>): seq<BuildConfig>
    requires Covers(m, oses)
  {
    if oses == [] then [] else ConfigsOf(m, oses[..|oses| - 1]) + m[oses[|oses| - 1]]
  }

  /** Every descriptor the packager visits, in visiting order. */
  function AllConfigs(m: Matrix): seq<BuildConfig>
    requires Covers(m, OS_LIST)
  {
    ConfigsOf(m, OS_LIST)
  }

  /** The distinct working directories named by the descriptors. */
  function Dirs(configs: seq<BuildConfig>): set<string>
  {
    set c | c in configs :: c.dir
  }

  /** The bundle name template `{dir}-{version}.zip`: it starts with the directory, and its length
      fixes where the directory ends. */
  function ZipName(dir: string, version: string): (z: string)
    ensures |z| == |dir| + |version| + 5 && z[..|dir|] == dir
  {
    dir + "-" + version + ".zip"
  }

  /** The bundle names of a set of directories. */
  function ZipNames(dirs: set<string>, version: string): set<string>
  {
    set d | d in dirs :: ZipName(d, version)
  }

  /** For one version, distinct directories give distinct bundle names. */
  lemma ZipNameInjective(d1: string, d2: string, version: string)
    ensures ZipName(d1, version) == ZipName(d2, version) ==> d1 == d2
  {
    if ZipName(d1, version) == ZipName(d2, version) {
      assert |d1| == |d2|;
      assert d1 == ZipName(d1, version)[..|d1|];
    }
  }

  /** No bundle name is the manifest's file name: one ends in ".zip", the other in ".json". */
  lemma ZipNameIsNotManifest(dir: string, version: string)
    ensures ZipName(dir, version) != MANIFEST_FILE
  {
    var z := ZipName(dir, version);
    assert z[|z| - 1] == 'p';
    assert MANIFEST_FILE[|MANIFEST_FILE| - 1] == 'n';
  }

  /** The manifest's file name is never one of the bundle names. */
  lemma ManifestNotAmongZipNames(dirs: set<string>, version: string)
    ensures MANIFEST_FILE !in ZipNames(dirs, version)
  {
    forall d | d in dirs
      ensures ZipName(d, version) != MANIFEST_FILE
    {
      ZipNameIsNotManifest(d, version);
    }
  }

  /** There is exactly one bundle name per distinct working directory. */
  lemma {:induction false} ZipNamesCount(dirs: set<string>, version: string)
    ensures |ZipNames(dirs, version)| == |dirs|
    decreases |dirs|
  {
    if dirs != {} {
      var d :| d in dirs;
      var rest := dirs - {d};
      ZipNamesCount(rest, version);
      assert ZipNames(dirs, version) == ZipNames(rest, version) + {ZipName(d, version)};
      forall e | e in rest
        ensures ZipName(e, version) != ZipName(d, version)
      {
        ZipNameInjective(e, d, version);
      }
    }
  }

  /** The descriptors of the first `i + 1` OSes are those of the first `i`, then the next OS's. */
  lemma ConfigsOfStep(m: Matrix, i: nat)
    requires Covers(m, OS_LIST) && i < |OS_LIST|
    ensures Covers(m, OS_LIST[..i]) && Covers(m, OS_LIST[..i + 1])
    ensures ConfigsOf(m, OS_LIST[..i + 1]) == ConfigsOf(m, OS_LIST[..i]) + m[OS_LIST[i]]
  {
    assert OS_LIST[..i + 1][..i] == OS_LIST[..i];
  }

  /** The descriptors of the first OSes come first among all descriptors. */
  lemma {:induction false} ConfigsOfPrefix(m: Matrix, i: nat)
    requires Covers(m, OS_LIST) && i <= |OS_LIST|
    ensures Covers(m, OS_LIST[..i]) && ConfigsOf(m, OS_LIST[..i]) <= AllConfigs(m)
    decreases |OS_LIST| - i
  {
    if i < |OS_LIST| {
      ConfigsOfStep(m, i);
      ConfigsOfPrefix(m, i + 1);
    } else {
      assert OS_LIST[..i] == OS_LIST;
    }
  }

  /** One more descriptor adds the bundle name of its directory. */
  lemma ZipNamesSnoc(configs: seq<BuildConfig>, c: BuildConfig, version: string)
    ensures ZipNames(Dirs(configs + [c]), version) == ZipNames(Dirs(configs), version) + {ZipName(c.dir, version)}
  {
    DirsAppend(configs, [c]);
    assert Dirs([c]) == {c.dir};
  }

  /** Visiting one more OS adds its directories. */
  lemma DirsAppend(a: seq<BuildConfig>, b: seq<BuildConfig>)
    ensures Dirs(a + b) == Dirs(a) + Dirs(b)
  {
    assert forall c :: c in a + b <==> c in a || c in b;
  }
}
