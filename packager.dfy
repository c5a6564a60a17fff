/** The Distributor package assembly: the bundle names of the build matrix, the staging of the
    downloads, the bundles and the manifest, and the hand-over to the bucket. */
module Packager {
  import opened Wrappers
  import opened BuildMatrix
  import opened Manifest
  import opened LocalFiles
  import opened Downloads
  import opened Bucket

  // ---------------------------------------------------------------------------------------------
  // Specifications of the staging steps

  /** The request path of one descriptor's download. */
  function Request(c: BuildConfig, assetGroupId: Option<string>, installerVersion: string, withRemediation: bool)
    : string
  {
    DownloadPath(c.uptPackage, assetGroupId, QueryParams(installerVersion, c.archType, withRemediation))
  }

  /** The downloads of the descriptors, in order, each staged into its working directory; the
      first failure stops the run. */
  function StageAll(files: map<Path, FileData>, configs: seq<BuildConfig>, assetGroupId: Option<string>,
                    server: string -> Response, installerVersion: string, withRemediation: bool)
    : (Outcome, map<Path, FileData>)
  {
    if configs == [] then (Pass, files)
    else
      var (o, before) := StageAll(files, configs[..|configs| - 1], assetGroupId, server, installerVersion, withRemediation);
      if o.Fail? then (o, before)
      else
        var c := configs[|configs| - 1];
        var (res, after) := StageDownload(before, server(Request(c, assetGroupId, installerVersion, withRemediation)), c.dir, c.uptPackage);
        (if res.Failure? then Fail(res.error) else Pass, after)
  }

  /** Staging one more descriptor after a successful run is one more download. */
  lemma StageAllSnoc(files: map<Path, FileData>, configs: seq<BuildConfig>, c: BuildConfig,
                     assetGroupId: Option<string>, server: string -> Response,
                     installerVersion: string, withRemediation: bool,
                     before: map<Path, FileData>, res: Result<string>, after: map<Path, FileData>)
    requires StageAll(files, configs, assetGroupId, server, installerVersion, withRemediation) == (Pass, before)
    requires (res, after)
      == StageDownload(before, server(Request(c, assetGroupId, installerVersion, withRemediation)), c.dir, c.uptPackage)
    ensures StageAll(files, configs + [c], assetGroupId, server, installerVersion, withRemediation)
      == (if res.Failure? then Fail(res.error) else Pass, after)
  {
    assert (configs + [c])[..|configs|] == configs;
  }

  /** Once a download has failed, the later descriptors are not visited. */
  lemma {:induction false} StageAllStops(files: map<Path, FileData>, configs: seq<BuildConfig>, rest: seq<BuildConfig>,
                                         assetGroupId: Option<string>, server: string -> Response,
                                         installerVersion: string, withRemediation: bool)
    requires StageAll(files, configs, assetGroupId, server, installerVersion, withRemediation).0.Fail?
    ensures StageAll(files, configs + rest, assetGroupId, server, installerVersion, withRemediation)
      == StageAll(files, configs, assetGroupId, server, installerVersion, withRemediation)
    decreases |rest|
  {
    if rest == [] {
      assert configs + rest == configs;
    } else {
      var init := rest[..|rest| - 1];
      assert (configs + rest)[..|configs + rest| - 1] == configs + init;
      StageAllStops(files, configs, init, assetGroupId, server, installerVersion, withRemediation);
    }
  }

  /** The descriptors from the `j`-th on are the `j`-th one, then those after it. */
  lemma DropOne(configs: seq<BuildConfig>, j: nat)
    requires j < |configs|
    ensures configs[j..] == [configs[j]] + configs[j + 1..]
  {
  }

  /** Downloading never touches the bucket folder, nor any directory no descriptor names. */
  lemma {:induction false} StageAllFrame(files: map<Path, FileData>, configs: seq<BuildConfig>,
                                         assetGroupId: Option<string>, server: string -> Response,
                                         installerVersion: string, withRemediation: bool)
    ensures var (o, files') := StageAll(files, configs, assetGroupId, server, installerVersion, withRemediation);
      && BucketView(files') == BucketView(files)
      && (forall p :: p in files && !(p.Staged? && p.dir in Dirs(configs)) ==> p in files' && files'[p] == files[p])
    decreases |configs|
  {
    if configs != [] {
      var init := configs[..|configs| - 1];
      var c := configs[|configs| - 1];
      assert configs == init + [c];
      DirsAppend(init, [c]);
      assert Dirs([c]) == {c.dir};
      StageAllFrame(files, init, assetGroupId, server, installerVersion, withRemediation);
      var (o, before) := StageAll(files, init, assetGroupId, server, installerVersion, withRemediation);
      if o.Pass? {
        var response := server(Request(c, assetGroupId, installerVersion, withRemediation));
        var (res, after) := StageDownload(before, response, c.dir, c.uptPackage);
        StageAllSnoc(files, init, c, assetGroupId, server, installerVersion, withRemediation, before, res, after);
        StageDownloadFrame(before, response, c.dir, c.uptPackage);
        assert forall p :: p in files && !(p.Staged? && p.dir in Dirs(init) + {c.dir}) ==>
          p in before && before[p] == files[p] && p in after && after[p] == before[p];
      } else {
        StageAllStops(files, init, [c], assetGroupId, server, installerVersion, withRemediation);
      }
    }
  }

  /** The map from `key(x)` to `val(x)` for every `x` of `dom`, `key` being one-to-one on `dom`. */
  function MapOver<X, K, V>(dom: set<X>, key: X -> K, val: X -> V): map<K, V>
    requires forall x, y :: x in dom && y in dom && key(x) == key(y) ==> x == y
  {
    map x | x in dom :: key(x) := val(x)
  }

  /** Every element of the domain has its entry, and there is no other entry. */
  lemma MapOverExactly<X, K, V>(dom: set<X>, key: X -> K, val: X -> V)
    requires forall x, y :: x in dom && y in dom && key(x) == key(y) ==> x == y
    ensures forall x :: x in dom ==> key(x) in MapOver(dom, key, val) && MapOver(dom, key, val)[key(x)] == val(x)
    ensures forall k :: k in MapOver(dom, key, val) ==> exists x :: x in dom && key(x) == k
  {
    var m := MapOver(dom, key, val);
    forall x | x in dom
      ensures m[key(x)] == val(x)
    {
      var y :| y in dom && key(y) == key(x);
    }
  }

  /** One more element adds exactly its entry. */
  lemma MapOverAddOne<X, K, V>(dom: set<X>, key: X -> K, val: X -> V, x: X)
    requires forall y, z :: y in dom + {x} && z in dom + {x} && key(y) == key(z) ==> y == z
    ensures MapOver(dom + {x}, key, val) == MapOver(dom, key, val)[key(x) := val(x)]
  {
    var after := MapOver(dom + {x}, key, val);
    var expected := MapOver(dom, key, val)[key(x) := val(x)];
    MapOverAddOneWithin(dom, key, val, x);
    MapOverAddOneCovers(dom, key, val, x);
    assert after.Keys == expected.Keys;
  }

  lemma MapOverAddOneWithin<X, K, V>(dom: set<X>, key: X -> K, val: X -> V, x: X)
    requires forall y, z :: y in dom + {x} && z in dom + {x} && key(y) == key(z) ==> y == z
    ensures var after := MapOver(dom + {x}, key, val);
      forall k :: k in after ==> k == key(x) || (k in MapOver(dom, key, val) && after[k] == MapOver(dom, key, val)[k])
    ensures key(x) in MapOver(dom + {x}, key, val) && MapOver(dom + {x}, key, val)[key(x)] == val(x)
  {
    var after := MapOver(dom + {x}, key, val);
    MapOverExactly(dom + {x}, key, val);
    MapOverExactly(dom, key, val);
    forall k | k in after && k != key(x)
      ensures k in MapOver(dom, key, val) && after[k] == MapOver(dom, key, val)[k]
    {
      var y :| y in dom + {x} && key(y) == k;
    }
  }

  lemma MapOverAddOneCovers<X, K, V>(dom: set<X>, key: X -> K, val: X -> V, x: X)
    requires forall y, z :: y in dom + {x} && z in dom + {x} && key(y) == key(z) ==> y == z
    ensures forall k :: k in MapOver(dom, key, val) ==> k in MapOver(dom + {x}, key, val)
  {
    MapOverExactly(dom + {x}, key, val);
    MapOverExactly(dom, key, val);
    forall k | k in MapOver(dom, key, val)
      ensures k in MapOver(dom + {x}, key, val)
    {
      var y :| y in dom && key(y) == k;
    }
  }

  /** Where a directory's bundle is written: `../s3-bucket/{dir}-{version}.zip`. */
  function BundlePath(installerVersion: string): string -> Path
  {
    d => BucketFolder(ZipName(d, installerVersion))
  }

  /** What a directory's bundle holds: the directory's files by base name. */
  function BundleOf(files: map<Path, FileData>): string -> FileData
  {
    d => Archive(StagedFiles(files, d))
  }

  /** Distinct directories have distinct bundle paths. */
  lemma BundlePathInjective(dirs: set<string>, installerVersion: string)
    ensures forall x, y :: x in dirs && y in dirs && BundlePath(installerVersion)(x) == BundlePath(installerVersion)(y) ==> x == y
  {
    forall x, y | x in dirs && y in dirs && BundlePath(installerVersion)(x) == BundlePath(installerVersion)(y)
      ensures x == y
    {
      ZipNameInjective(x, y, installerVersion);
    }
  }

  /** The bundles written for a set of directories. */
  function Bundles(files: map<Path, FileData>, dirs: set<string>, installerVersion: string): map<Path, FileData>
  {
    BundlePathInjective(dirs, installerVersion);
    MapOver(dirs, BundlePath(installerVersion), BundleOf(files))
  }

  /** Each directory has its bundle, and a bundle is written for nothing else. */
  lemma BundlesExactly(files: map<Path, FileData>, dirs: set<string>, installerVersion: string)
    ensures var b := Bundles(files, dirs, installerVersion);
      && (forall d :: d in dirs ==>
            BucketFolder(ZipName(d, installerVersion)) in b
            && b[BucketFolder(ZipName(d, installerVersion))] == Archive(StagedFiles(files, d)))
      && (forall p :: p in b ==> p.BucketFolder? && p.name in ZipNames(dirs, installerVersion))
  {
    BundlePathInjective(dirs, installerVersion);
    MapOverExactly(dirs, BundlePath(installerVersion), BundleOf(files));
  }

  /** Zipping one more directory adds exactly its bundle. */
  lemma BundlesAddOne(files: map<Path, FileData>, done: set<string>, d: string, installerVersion: string)
    ensures Bundles(files, done + {d}, installerVersion)
      == Bundles(files, done, installerVersion)[BucketFolder(ZipName(d, installerVersion)) := Archive(StagedFiles(files, d))]
  {
    BundlePathInjective(done + {d}, installerVersion);
    MapOverAddOne(done, BundlePath(installerVersion), BundleOf(files), d);
  }

  /** Zipping one more directory after those of `done` writes its bundle from the files as they
      were before any zipping. */
  lemma ZipStep(start: map<Path, FileData>, done: set<string>, d: string, installerVersion: string,
                before: map<Path, FileData>, after: map<Path, FileData>)
    requires before == start + Bundles(start, done, installerVersion)
    requires after == before[BucketFolder(ZipName(d, installerVersion)) := Archive(StagedFiles(before, d))]
    ensures after == start + Bundles(start, done + {d}, installerVersion)
  {
    BundlesExactly(start, done, installerVersion);
    StagedFilesIgnoreBucketWrites(start, Bundles(start, done, installerVersion), d);
    BundlesAddOne(start, done, d, installerVersion);
    MergeUpdate(start, Bundles(start, done, installerVersion), BucketFolder(ZipName(d, installerVersion)),
                Archive(StagedFiles(start, d)));
  }

  /** `m` is the manifest of the descriptors and of the listed staged files: the fixed header,
      the `packages` tree of the descriptors, and one checksum per listed file. */
  ghost predicate Describes(m: Manifest, configs: seq<BuildConfig>, installerVersion: string, listed: set<string>,
                            files: map<Path, FileData>, sha256: FileData -> string)
  {
    && m == Header(installerVersion).(packages := Some(PackagesOf(configs, installerVersion)), files := m.files)
    && m.files.Some? && m.files.value.Keys == listed
    && forall f :: f in listed ==>
         BucketFolder(f) in files && m.files.value[f] == Checksums(sha256(files[BucketFolder(f)]))
  }

  /** A manifest that describes at least the bundles of its descriptors is consistent: every file
      its `packages` tree names has a checksum. */
  lemma DescribesConsistent(m: Manifest, configs: seq<BuildConfig>, installerVersion: string, listed: set<string>,
                            files: map<Path, FileData>, sha256: FileData -> string)
    requires Describes(m, configs, installerVersion, listed, files, sha256)
    requires ZipNames(Dirs(configs), installerVersion) <= listed
    ensures Consistent(m)
  {
    PackagesOfReferencesBundles(configs, installerVersion);
  }

  // ---------------------------------------------------------------------------------------------
  // The packager

  class DistributorFilePackager {
    const installerVersion: string
    const withRemediation: bool
    /** The parsed mapping file. */
    const buildConfigs: Matrix
    var dirs: set<string>
    var zipFileList: set<string>
    /** None until the manifest is first generated (the empty dictionary). */
    var manifestDict: Option<Manifest>

    /** The bookkeeping the packager keeps: `dirs` are the descriptors' directories and the
        publish list holds their bundles, and perhaps the manifest. */
    ghost predicate Valid()
      reads this
    {
      && Covers(buildConfigs, OS_LIST)
      && dirs == Dirs(AllConfigs(buildConfigs))
      && ZipNames(dirs, installerVersion) <= zipFileList <= ZipNames(dirs, installerVersion) + {MANIFEST_FILE}
    }

    constructor(installerVersion: string, withRemediation: bool, buildConfigs: Matrix)
      requires Covers(buildConfigs, OS_LIST)
      ensures this.installerVersion == installerVersion && this.withRemediation == withRemediation
      ensures this.buildConfigs == buildConfigs
      ensures Valid() && zipFileList == ZipNames(dirs, installerVersion) && manifestDict == None
    {
      var d, z := CollectBundles(buildConfigs, installerVersion);
      this.installerVersion := installerVersion;
      this.withRemediation := withRemediation;
      this.buildConfigs := buildConfigs;
      dirs := d;
      zipFileList := z;
      manifestDict := None;
    }

    /** The constructor's walk over the descriptors of `windows`, then `linux`. */
    static method CollectBundles(m: Matrix, installerVersion: string) returns (dirs: set<string>, zips: set<string>)
      requires Covers(m, OS_LIST)
      ensures dirs == Dirs(AllConfigs(m))
      ensures zips == ZipNames(dirs, installerVersion)
    {
      dirs := {};
      zips := {};
      for i := 0 to |OS_LIST|
        invariant Covers(m, OS_LIST[..i])
        invariant dirs == Dirs(ConfigsOf(m, OS_LIST[..i])) && zips == ZipNames(dirs, installerVersion)
      {
        ConfigsOfStep(m, i);
        var visited := ConfigsOf(m, OS_LIST[..i]);
        var configs := m[OS_LIST[i]];
        assert visited + configs[..0] == visited;
        for j := 0 to |configs|
          invariant dirs == Dirs(visited + configs[..j]) && zips == ZipNames(dirs, installerVersion)
        {
          assert visited + configs[..j + 1] == (visited + configs[..j]) + [configs[j]];
          DirsAppend(visited + configs[..j], [configs[j]]);
          dirs := dirs + {configs[j].dir};
          zips := zips + {ZipName(configs[j].dir, installerVersion)};
        }
        assert configs[..|configs|] == configs;
      }
      assert OS_LIST[..|OS_LIST|] == OS_LIST;
    }

    /** Downloads every descriptor's installer into its working directory. */
    method DownloadOsqueryFiles(fs: FileSystem, groups: seq<ObjectGroup>, server: string -> Response)
      returns (r: Outcome)
      requires Valid()
      modifies fs
      ensures (r, fs.files)
        == StageAll(old(fs.files), AllConfigs(buildConfigs), AssetGroupOf(groups), server, installerVersion, withRemediation)
    {
      ghost var start := fs.files;
      ghost var id := AssetGroupOf(groups);
      for i := 0 to |OS_LIST|
        invariant Covers(buildConfigs, OS_LIST[..i])
        invariant StageAll(start, ConfigsOf(buildConfigs, OS_LIST[..i]), id, server, installerVersion, withRemediation)
          == (Pass, fs.files)
      {
        ConfigsOfStep(buildConfigs, i);
        ConfigsOfPrefix(buildConfigs, i + 1);
        ghost var visited := ConfigsOf(buildConfigs, OS_LIST[..i]);
        var configs := buildConfigs[OS_LIST[i]];
        r := DownloadEach(fs, configs, groups, server, start, visited);
        if r.Fail? {
          ghost var all := AllConfigs(buildConfigs);
          assert all == visited + configs + all[|visited + configs|..];
          StageAllStops(start, visited + configs, all[|visited + configs|..], id, server, installerVersion, withRemediation);
          return;
        }
      }
      assert OS_LIST[..|OS_LIST|] == OS_LIST;
      r := Pass;
    }

    /** The inner loop over one OS's descriptors, continuing a run over `visited` that started
        from `start`; the first failed download stops it. */
    method DownloadEach(fs: FileSystem, configs: seq<BuildConfig>, groups: seq<ObjectGroup>, server: string -> Response,
                        ghost start: map<Path, FileData>, ghost visited: seq<BuildConfig>)
      returns (r: Outcome)
      requires StageAll(start, visited, AssetGroupOf(groups), server, installerVersion, withRemediation) == (Pass, fs.files)
      modifies fs
      ensures (r, fs.files)
        == StageAll(start, visited + configs, AssetGroupOf(groups), server, installerVersion, withRemediation)
    {
      ghost var id := AssetGroupOf(groups);
      ghost var prefix := visited;
      assert configs[0..] == configs;
      for j := 0 to |configs|
        invariant prefix + configs[j..] == visited + configs
        invariant StageAll(start, prefix, id, server, installerVersion, withRemediation) == (Pass, fs.files)
      {
        var config := configs[j];
        DropOne(configs, j);
        assert prefix + configs[j..] == (prefix + [config]) + configs[j + 1..];
        r := DownloadNext(fs, config, groups, server, start, prefix);
        prefix := prefix + [config];
        if r.Fail? {
          StageAllStops(start, prefix, configs[j + 1..], id, server, installerVersion, withRemediation);
          return;
        }
      }
      assert prefix + [] == prefix;
      return Pass;
    }

    /** One step of the inner loop: stages `config` after a successful run over `prefix`. */
    method DownloadNext(fs: FileSystem, config: BuildConfig, groups: seq<ObjectGroup>, server: string -> Response,
                        ghost start: map<Path, FileData>, ghost prefix: seq<BuildConfig>)
      returns (r: Outcome)
      requires StageAll(start, prefix, AssetGroupOf(groups), server, installerVersion, withRemediation) == (Pass, fs.files)
      modifies fs
      ensures (r, fs.files)
        == StageAll(start, prefix + [config], AssetGroupOf(groups), server, installerVersion, withRemediation)
    {
      ghost var before := fs.files;
      var res := AddBinaryToDir(fs, config, groups, server);
      StageAllSnoc(start, prefix, config, AssetGroupOf(groups), server, installerVersion, withRemediation,
                   before, res, fs.files);
      r := if res.Failure? then Fail(res.error) else Pass;
    }

    /** Requests one descriptor's installer with its query parameters and stages it. */
    method AddBinaryToDir(fs: FileSystem, config: BuildConfig, groups: seq<ObjectGroup>, server: string -> Response)
      returns (r: Result<string>)
      modifies fs
      ensures (r, fs.files)
        == StageDownload(old(fs.files), server(Request(config, AssetGroupOf(groups), installerVersion, withRemediation)),
                         config.dir, config.uptPackage)
    {
      var queryParams := QueryParams(installerVersion, config.archType, withRemediation);
      var api := new PackageDownloadsApi(groups);
      r := api.DownloadPackage(fs, server, config.uptPackage, config.dir, queryParams);
    }

    /** Zips every working directory into its bundle, then generates the manifest. */
    method CreateStagingDir(fs: FileSystem, sha256: FileData -> string) returns (r: Outcome)
      requires Valid()
      modifies this, fs
      ensures Valid()
      ensures var zipped := old(fs.files) + Bundles(old(fs.files), dirs, installerVersion);
        && (r.Pass? <==> forall f :: f in old(zipFileList) ==> BucketFolder(f) in zipped)
        && (old(zipFileList) == ZipNames(dirs, installerVersion) ==> r.Pass?)
        && (r.Fail? ==>
              fs.files == zipped && zipFileList == old(zipFileList) && manifestDict == Some(Header(installerVersion)))
        && (r.Pass? ==>
              && manifestDict.Some?
              && Describes(manifestDict.value, AllConfigs(buildConfigs), installerVersion, old(zipFileList), zipped, sha256)
              && Consistent(manifestDict.value)
              && zipFileList == old(zipFileList) + {MANIFEST_FILE}
              && fs.files == zipped[BucketFolder(MANIFEST_FILE) := ManifestJson(manifestDict.value)])
    {
      ZipDirs(fs);
      r := GenerateManifest(fs, sha256);
    }

    /** The zipping loop: one bundle per working directory, in the set's order. */
    method ZipDirs(fs: FileSystem)
      modifies fs
      ensures fs.files == old(fs.files) + Bundles(old(fs.files), dirs, installerVersion)
    {
      ghost var start := fs.files;
      var remaining := dirs;
      ghost var done: set<string> := {};
      while remaining != {}
        invariant remaining + done == dirs && remaining !! done
        invariant fs.files == start + Bundles(start, done, installerVersion)
        decreases remaining
      {
        var d :| d in remaining;
        ZipNext(fs, d, start, done);
        remaining := remaining - {d};
        done := done + {d};
      }
    }

    /** One more bundle: the bundles zipped so far, and the archive of `d`. */
    method ZipNext(fs: FileSystem, d: string, ghost start: map<Path, FileData>, ghost done: set<string>)
      requires fs.files == start + Bundles(start, done, installerVersion)
      modifies fs
      ensures fs.files == start + Bundles(start, done + {d}, installerVersion)
    {
      ghost var before := fs.files;
      CreateZipFile(fs, d);
      ZipStep(start, done, d, installerVersion, before, fs.files);
    }

    /** Writes `../s3-bucket/{dir}-{version}.zip` holding the directory's files by base name; a
        directory that does not exist gives an empty bundle. */
    method CreateZipFile(fs: FileSystem, directory: string)
      modifies fs
      ensures fs.files
        == old(fs.files)[BucketFolder(ZipName(directory, installerVersion)) := Archive(StagedFiles(old(fs.files), directory))]
    {
      var entries := StagedFiles(fs.files, directory);
      fs.files := fs.files[BucketFolder(ZipName(directory, installerVersion)) := Archive(entries)];
    }

    /** Fills the manifest: header, `packages` tree, then one checksum per listed file; writes
        it to the bucket folder and lists it for upload. A listed file that is missing raises
        out of the digest step, leaving only the header. */
    method GenerateManifest(fs: FileSystem, sha256: FileData -> string) returns (r: Outcome)
      requires Valid()
      modifies this, fs
      ensures Valid()
      ensures r.Pass? <==> forall f :: f in old(zipFileList) ==> BucketFolder(f) in old(fs.files)
      ensures r.Fail? ==>
        manifestDict == Some(Header(installerVersion)) && zipFileList == old(zipFileList) && fs.files == old(fs.files)
      ensures r.Pass? ==>
        && manifestDict.Some?
        && Describes(manifestDict.value, AllConfigs(buildConfigs), installerVersion, old(zipFileList), old(fs.files), sha256)
        && Consistent(manifestDict.value)
        && (MANIFEST_FILE !in old(zipFileList) ==> MANIFEST_FILE !in manifestDict.value.files.value)
        && zipFileList == old(zipFileList) + {MANIFEST_FILE}
        && fs.files == old(fs.files)[BucketFolder(MANIFEST_FILE) := ManifestJson(manifestDict.value)]
    {
      manifestDict := Some(Header(installerVersion));
      var packages := BuildPackages(buildConfigs, installerVersion);
      var hashes := GenerateDigest(fs, zipFileList, sha256);
      if hashes.Failure? {
        return Fail(hashes.error);
      }
      var obj := ChecksumTable(hashes.value);
      FilesOfDistinct(hashes.value);
      var m := Header(installerVersion).(packages := Some(packages), files := Some(obj));
      assert Describes(m, AllConfigs(buildConfigs), installerVersion, zipFileList, fs.files, sha256) by {
        forall f | f in zipFileList
          ensures BucketFolder(f) in fs.files && obj[f] == Checksums(sha256(fs.files[BucketFolder(f)]))
        {
          var k :| 0 <= k < |hashes.value| && hashes.value[k].0 == f;
        }
      }
      DescribesConsistent(m, AllConfigs(buildConfigs), installerVersion, zipFileList, fs.files, sha256);
      manifestDict := Some(m);
      fs.files := fs.files[BucketFolder(MANIFEST_FILE) := ManifestJson(m)];
      zipFileList := zipFileList + {MANIFEST_FILE};
      return Pass;
    }

    /** The `packages` loop: every descriptor inserted in visiting order. */
    static method BuildPackages(m: Matrix, installerVersion: string) returns (packages: PackageTree)
      requires Covers(m, OS_LIST)
      ensures packages == PackagesOf(AllConfigs(m), installerVersion)
    {
      packages := map[];
      for i := 0 to |OS_LIST|
        invariant Covers(m, OS_LIST[..i])
        invariant packages == PackagesOf(ConfigsOf(m, OS_LIST[..i]), installerVersion)
      {
        ConfigsOfStep(m, i);
        packages := InsertEach(packages, m[OS_LIST[i]], installerVersion, ConfigsOf(m, OS_LIST[..i]));
      }
      assert OS_LIST[..|OS_LIST|] == OS_LIST;
    }

    /** The inner loop over one OS's descriptors, continuing the tree of `visited`. */
    static method InsertEach(packages: PackageTree, configs: seq<BuildConfig>, installerVersion: string,
                             ghost visited: seq<BuildConfig>)
      returns (tree: PackageTree)
      requires packages == PackagesOf(visited, installerVersion)
      ensures tree == PackagesOf(visited + configs, installerVersion)
    {
      tree := packages;
      ghost var prefix := visited;
      assert configs[0..] == configs;
      for j := 0 to |configs|
        invariant prefix + configs[j..] == visited + configs
        invariant tree == PackagesOf(prefix, installerVersion)
      {
        var config := configs[j];
        DropOne(configs, j);
        assert prefix + configs[j..] == (prefix + [config]) + configs[j + 1..];
        PackagesOfSnoc(prefix, config, installerVersion);
        tree := Insert(tree, KeyOf(config), ZipName(config.dir, installerVersion));
        prefix := prefix + [config];
      }
      assert prefix + [] == prefix;
    }

    /** One (file, SHA-256 of its bytes) pair per listed file, in the set's order; a missing
        file raises. */
    static method GenerateDigest(fs: FileSystem, zipFileList: set<string>, sha256: FileData -> string)
      returns (r: Result<seq<(string, string)>>)
      ensures r.Failure? <==> exists f :: f in zipFileList && BucketFolder(f) !in fs.files
      ensures r.Success? ==>
        && DistinctNames(r.value) && Names(r.value) == zipFileList
        && forall k :: 0 <= k < |r.value| ==>
             BucketFolder(r.value[k].0) in fs.files && r.value[k].1 == sha256(fs.files[BucketFolder(r.value[k].0)])
    {
      var hashes: seq<(string, string)> := [];
      var remaining := zipFileList;
      while remaining != {}
        invariant remaining <= zipFileList
        invariant DistinctNames(hashes) && Names(hashes) == zipFileList - remaining
        invariant forall f :: f in zipFileList - remaining ==> BucketFolder(f) in fs.files
        invariant forall k :: 0 <= k < |hashes| ==>
          BucketFolder(hashes[k].0) in fs.files && hashes[k].1 == sha256(fs.files[BucketFolder(hashes[k].0)])
        decreases remaining
      {
        var filename :| filename in remaining;
        if BucketFolder(filename) !in fs.files {
          return Failure("FileNotFoundError: " + filename);
        }
        var readableHash := sha256(fs.files[BucketFolder(filename)]);
        NamesSnoc(hashes, (filename, readableHash));
        hashes := hashes + [(filename, readableHash)];
        remaining := remaining - {filename};
      }
      return Success(hashes);
    }

    /** The `files` object: `{name: {'checksums': {'sha256': hex}}}` for every pair, in order. */
    static method ChecksumTable(hashes: seq<(string, string)>) returns (obj: FileTable)
      ensures obj == FilesOf(hashes)
    {
      obj := map[];
      for k := 0 to |hashes|
        invariant obj == FilesOf(hashes[..k])
      {
        assert hashes[..k + 1][..k] == hashes[..k];
        var (key, val) := hashes[k];
        obj := obj[key := Checksums(val)];
      }
      assert hashes[..|hashes|] == hashes;
    }

    /** Publishes the listed files to the bucket. */
    method AddFilesToBucket(fs: FileSystem, s3: S3Service, bucketName: string, awsRegion: string)
      returns (r: Outcome)
      modifies s3
      ensures r.Fail?
        <==> || s3.listing.RaisesBotoCoreError?
             || (!Listed(s3.listing, old(s3.buckets), bucketName) && s3.creation.RaisesBotoCoreError?)
             || exists f :: f in zipFileList && BucketFolder(f) !in fs.files
      ensures s3.createRequests
        == old(s3.createRequests)
           + if Listed(s3.listing, old(s3.buckets), bucketName) || s3.listing.RaisesBotoCoreError? then []
             else [CreateRequest(bucketName, awsRegion)]
      ensures bucketName in s3.buckets
        <==> bucketName in old(s3.buckets) || (!s3.listing.RaisesBotoCoreError? && s3.creation.Answers?)
      ensures s3.buckets
        == if && !Listed(s3.listing, old(s3.buckets), bucketName)
              && !s3.listing.RaisesBotoCoreError? && s3.creation.Answers?
              && bucketName !in old(s3.buckets)
           then old(s3.buckets) + [bucketName]
           else old(s3.buckets)
      ensures s3.listing.RaisesBotoCoreError?
              || (!Listed(s3.listing, old(s3.buckets), bucketName) && s3.creation.RaisesBotoCoreError?)
        ==> s3.objects == old(s3.objects)
      ensures r.Pass? ==>
        s3.objects
          == if bucketName in s3.buckets then old(s3.objects) + Uploads(bucketName, fs.files, zipFileList, s3.rejectedKeys)
             else old(s3.objects)
    {
      var bucket := new ManagePackageBucket(awsRegion, s3);
      var updated := bucket.Update(fs, bucketName, zipFileList);
      r := if updated.Failure? then Fail(updated.error) else Pass;
    }
  }
}
