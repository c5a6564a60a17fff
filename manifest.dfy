/** The Distributor package manifest (schema "2.0"): its `packages` tree, keyed by display name,
    effective version and architecture, and its `files` table of checksums. */
module Manifest {
  import opened Wrappers
  import opened Text
  import opened BuildMatrix

  const SCHEMA_VERSION := "2.0"
  const PUBLISHER := "Uptycs."
  const PACKAGE_DESCRIPTION :=
    "The Uptycs platform provides you with osquery installation packages for "
    + "all supported operating systems, configures it for optimal data collection, "
    + "and automatically schedules the queries necessary to track the historical "
    + "state and activity of all of your assets. "

  /** The leaf of the `packages` tree: `{'file': zip}`. */
  datatype PackageFile = PackageFile(file: string)

  /** `packages[name][version][arch]`. */
  type PackageTree = map<string, map<string, map<string, PackageFile>>>

  /** The leaf of the `files` table: `{'checksums': {'sha256': hex}}`. */
  datatype Checksums = Checksums(sha256: string)

  type FileTable = map<string, Checksums>

  /** The manifest document; `packages` and `files` are absent until the digests are in. */
  datatype Manifest = Manifest(
    schemaVersion: string,
    publisher: string,
    description: string,
    version: string,
    packages: Option<PackageTree>,
    files: Option<FileTable>)

  /** The address of one leaf of the `packages` tree. */
  datatype Key = Key(name: string, version: string, arch: string)

  /** The version string of a descriptor: the major version, then "." and the minor one if any. */
  function EffectiveVersion(major: string, minor: string): string
  {
    if |minor| == 0 then major else major + "." + minor
  }

  /** Where a descriptor goes in the `packages` tree. */
  function KeyOf(c: BuildConfig): Key
  {
    Key(c.name, EffectiveVersion(c.majorVersion, c.minorVersion), c.archType)
  }

  /** The dictionary with only the four header fields. */
  function Header(installerVersion: string): (m: Manifest)
    ensures m.schemaVersion == SCHEMA_VERSION && m.publisher == PUBLISHER
    ensures m.version == installerVersion && m.packages == None && m.files == None
  {
    Manifest(SCHEMA_VERSION, PUBLISHER, PACKAGE_DESCRIPTION, installerVersion, None, None)
  }

  function Lookup(t: PackageTree, k: Key): Option<string>
  {
    if k.name in t && k.version in t[k.name] && k.arch in t[k.name][k.version]
    then Some(t[k.name][k.version][k.arch].file)
    else None
  }

  /** Every file name the tree refers to. */
  function ReferencedFiles(t: PackageTree): set<string>
  {
    set n, v, a | n in t && v in t[n] && a in t[n][v] :: t[n][v][a].file
  }

  /** `t[name][version][arch] = {'file': file}`, creating the two upper levels when absent. */
  function Insert(t: PackageTree, k: Key, file: string): PackageTree
  {
    var byName := if k.name in t then t[k.name] else map[];
    var byVersion := if k.version in byName then byName[k.version] else map[];
    t[k.name := byName[k.version := byVersion[k.arch := PackageFile(file)]]]
  }

  /** An insertion sets its leaf and keeps every other name, version and architecture: no leaf
      and no name is lost, and the only file it can add is its own. */
  lemma InsertSpec(t: PackageTree, k: Key, file: string)
    ensures Lookup(Insert(t, k, file), k) == Some(file)
    ensures forall k' :: k' != k ==> Lookup(Insert(t, k, file), k') == Lookup(t, k')
    ensures Insert(t, k, file).Keys == t.Keys + {k.name}
    ensures ReferencedFiles(Insert(t, k, file)) <= ReferencedFiles(t) + {file}
  {
    var t': PackageTree := Insert(t, k, file);
    assert forall n, v, a | n in t' && v in t'[n] && a in t'[n][v] ::
      t'[n][v][a].file == file || (n in t && v in t[n] && a in t[n][v] && t'[n][v][a] == t[n][v][a]);
  }

  /** The step of `PackagesOf` for its last descriptor. */
  lemma PackagesOfLast(configs: seq<BuildConfig>, installerVersion: string)
    requires configs != []
    ensures var n := |configs| - 1;
      var t := PackagesOf(configs[..n], installerVersion);
      && Lookup(PackagesOf(configs, installerVersion), KeyOf(configs[n])) == Some(ZipName(configs[n].dir, installerVersion))
      && (forall k' :: k' != KeyOf(configs[n]) ==> Lookup(PackagesOf(configs, installerVersion), k') == Lookup(t, k'))
      && ReferencedFiles(PackagesOf(configs, installerVersion)) <= ReferencedFiles(t) + {ZipName(configs[n].dir, installerVersion)}
  {
    var n := |configs| - 1;
    InsertSpec(PackagesOf(configs[..n], installerVersion), KeyOf(configs[n]), ZipName(configs[n].dir, installerVersion));
  }

  /** The tree after the descriptors have been inserted in order. */
  function PackagesOf(configs: seq<BuildConfig>, installerVersion: string): PackageTree
  {
    if configs == [] then map[]
    else
      var last := configs[|configs| - 1];
      Insert(PackagesOf(configs[..|configs| - 1], installerVersion), KeyOf(last),
             ZipName(last.dir, installerVersion))
  }

  /** `files`: one entry per (name, digest) pair, a later pair for a name replacing an earlier one. */
  function FilesOf(hashes: seq<(string, string)>): FileTable
  {
    if hashes == [] then map[]
    else
      var last := hashes[|hashes| - 1];
      FilesOf(hashes[..|hashes| - 1])[last.0 := Checksums(last.1)]
  }

  function Names(hashes: seq<(string, string)>): set<string>
  {
    set k | 0 <= k < |hashes| :: hashes[k].0
  }

  predicate DistinctNames(hashes: seq<(string, string)>)
  {
    forall i, j :: 0 <= i < j < |hashes| ==> hashes[i].0 != hashes[j].0
  }

  /** Appending a pair adds its name; a new name keeps the names distinct. */
  lemma NamesSnoc(hashes: seq<(string, string)>, h: (string, string))
    ensures Names(hashes + [h]) == Names(hashes) + {h.0}
    ensures DistinctNames(hashes) && h.0 !in Names(hashes) ==> DistinctNames(hashes + [h])
  {
    var s := hashes + [h];
    assert s[|hashes|] == h;
    assert forall k :: 0 <= k < |hashes| ==> s[k] == hashes[k];
    if DistinctNames(hashes) && h.0 !in Names(hashes) {
      forall i, j | 0 <= i < j < |s|
        ensures s[i].0 != s[j].0
      {
        if j == |hashes| {
          assert s[i].0 in Names(hashes);
        }
      }
    }
  }

  /** Inserting one more descriptor's bundle into the tree of the earlier ones. */
  lemma PackagesOfSnoc(configs: seq<BuildConfig>, c: BuildConfig, installerVersion: string)
    ensures PackagesOf(configs + [c], installerVersion)
      == Insert(PackagesOf(configs, installerVersion), KeyOf(c), ZipName(c.dir, installerVersion))
  {
    assert (configs + [c])[..|configs|] == configs;
  }

  /** Both `packages` and `files` are present, and every file the tree refers to is a key of `files`. */
  predicate Consistent(m: Manifest)
  {
    m.packages.Some? && m.files.Some? && ReferencedFiles(m.packages.value) <= m.files.value.Keys
  }

  /** Without a "." in the major version, the effective version splits back at its first "."
      into the major and the minor version, and has no "." at all when the minor one is empty. */
  lemma EffectiveVersionSplits(major: string, minor: string)
    requires '.' !in major
    ensures var v := EffectiveVersion(major, minor);
      var i := IndexOf(v, '.');
      && v[..i] == major
      && (i == |v| <==> |minor| == 0)
      && (i < |v| ==> v[i + 1..] == minor)
  {
    if |minor| > 0 {
      IndexOfConcat(major, '.', minor);
      var v := EffectiveVersion(major, minor);
      assert v == major + ['.'] + minor;
    }
  }

  /** The effective version is the major version alone exactly when the minor one is empty. */
  lemma EffectiveVersionIsMajor(major: string, minor: string)
    ensures EffectiveVersion(major, minor) == major <==> |minor| == 0
  {
    if |minor| > 0 {
      assert |EffectiveVersion(major, minor)| > |major|;
    }
  }

  /** Every descriptor has a leaf in the tree. */
  lemma PackagesOfCovers(configs: seq<BuildConfig>, installerVersion: string, i: nat)
    requires i < |configs|
    ensures Lookup(PackagesOf(configs, installerVersion), KeyOf(configs[i])).Some?
  {
    PackagesOfLastWins(configs, installerVersion, KeyOf(configs[i]));
  }

  /** The index of the last descriptor whose key is `k`, or -1 when none has it. */
  function LastWithKey(configs: seq<BuildConfig>, k: Key): (i: int)
    ensures -1 <= i < |configs|
    ensures 0 <= i ==> KeyOf(configs[i]) == k
    ensures forall j :: i < j < |configs| ==> KeyOf(configs[j]) != k
  {
    if configs == [] then -1
    else if KeyOf(configs[|configs| - 1]) == k then |configs| - 1
    else LastWithKey(configs[..|configs| - 1], k)
  }

  /** A leaf of the tree holds the bundle of the LAST descriptor with that key (later descriptors
      overwrite earlier ones without complaint), and a key no descriptor has is absent. */
  lemma {:induction false} PackagesOfLastWins(configs: seq<BuildConfig>, installerVersion: string, k: Key)
    ensures var i := LastWithKey(configs, k);
      Lookup(PackagesOf(configs, installerVersion), k)
        == if i < 0 then None else Some(ZipName(configs[i].dir, installerVersion))
    decreases |configs|
  {
    if configs != [] {
      var n := |configs| - 1;
      PackagesOfLast(configs, installerVersion);
      PackagesOfLastWins(configs[..n], installerVersion, k);
    }
  }

  /** A key is absent from the tree exactly when no descriptor has it. */
  lemma PackagesOfAbsent(configs: seq<BuildConfig>, installerVersion: string, k: Key)
    ensures Lookup(PackagesOf(configs, installerVersion), k).None?
      <==> forall i :: 0 <= i < |configs| ==> KeyOf(configs[i]) != k
  {
    PackagesOfLastWins(configs, installerVersion, k);
  }

  /** Every file the tree refers to is the bundle of one of the descriptors' directories. */
  lemma {:induction false} PackagesOfReferencesBundles(configs: seq<BuildConfig>, installerVersion: string)
    ensures ReferencedFiles(PackagesOf(configs, installerVersion)) <= ZipNames(Dirs(configs), installerVersion)
    decreases |configs|
  {
    if configs != [] {
      var n := |configs| - 1;
      var front, c := configs[..n], configs[n];
      PackagesOfLast(configs, installerVersion);
      PackagesOfReferencesBundles(front, installerVersion);
      assert configs == front + [c];
      ZipNamesSnoc(front, c, installerVersion);
      assert ReferencedFiles(PackagesOf(front, installerVersion)) <= ZipNames(Dirs(front), installerVersion);
    }
  }

  /** With distinct names, `files` has exactly those names as keys, each with its own digest. */
  lemma {:induction false} FilesOfDistinct(hashes: seq<(string, string)>)
    requires DistinctNames(hashes)
    ensures FilesOf(hashes).Keys == Names(hashes)
    ensures forall k :: 0 <= k < |hashes| ==> FilesOf(hashes)[hashes[k].0] == Checksums(hashes[k].1)
    decreases |hashes|
  {
    if hashes != [] {
      var n := |hashes| - 1;
      var front, h := hashes[..n], hashes[n];
      assert hashes == front + [h];
      assert DistinctNames(front);
      FilesOfDistinct(front);
      NamesSnoc(front, h);
      FilesOfStep(hashes, front, h, FilesOf(front), FilesOf(hashes));
    }
  }

  /** The table after one more pair whose name is new. */
  lemma FilesOfStep(hashes: seq<(string, string)>, front: seq<(string, string)>, h: (string, string),
                    prev: FileTable, table: FileTable)
    requires hashes == front + [h] && DistinctNames(hashes)
    requires table == prev[h.0 := Checksums(h.1)]
    requires forall k :: 0 <= k < |front| ==> front[k].0 in prev && prev[front[k].0] == Checksums(front[k].1)
    ensures forall k :: 0 <= k < |hashes| ==> hashes[k].0 in table && table[hashes[k].0] == Checksums(hashes[k].1)
  {
    assert hashes[|front|] == h;
    forall k | 0 <= k < |hashes|
      ensures hashes[k].0 in table && table[hashes[k].0] == Checksums(hashes[k].1)
    {
      if k < |front| {
        assert hashes[k] == front[k];
        assert hashes[k].0 != h.0;
      }
    }
  }
}
