/** The part of the local file system the packager touches: the per-platform working
    directories (`./{dir}/{name}`) and the bucket staging folder (`../s3-bucket/{name}`). */
module LocalFiles {
  import opened Manifest

  /** A file path. Working directories are modelled flat: the archive keeps base names only. */
  datatype Path = Staged(dir: string, name: string) | BucketFolder(name: string)

  /** File contents. A bundle is the map from entry name to contents; the manifest file holds
      the JSON serialisation of a manifest document, modelled by the document itself. */
  datatype FileData =
    | Text(text: string)
    | Binary(bytes: seq<bv8>)
    | Archive(entries: map<string, FileData>)
    | ManifestJson(doc: Manifest)

  class FileSystem {
    var files: map<Path, FileData>

    constructor(files: map<Path, FileData>)
      ensures this.files == files
    {
      this.files := files;
    }
  }

  /** The files of one working directory, by base name. */
  function StagedFiles(files: map<Path, FileData>, dir: string): map<string, FileData>
  {
    map p | p in files && p.Staged? && p.dir == dir :: p.name := files[p]
  }

  /** The contents of the bucket staging folder. */
  function BucketView(files: map<Path, FileData>): map<string, FileData>
  {
    map p | p in files && p.BucketFolder? :: p.name := files[p]
  }

  /** Writing into the bucket folder leaves every working directory as it was. */
  lemma StagedFilesIgnoreBucketFolder(files: map<Path, FileData>, name: string, data: FileData, dir: string)
    ensures StagedFiles(files[BucketFolder(name) := data], dir) == StagedFiles(files, dir)
  {
    var files' := files[BucketFolder(name) := data];
    assert forall p :: p in files' && p.Staged? <==> p in files && p.Staged?;
  }

  /** Writing into a working directory leaves the bucket folder as it was. */
  lemma BucketViewIgnoresStaged(files: map<Path, FileData>, dir: string, name: string, data: FileData)
    ensures BucketView(files[Staged(dir, name) := data]) == BucketView(files)
  {
    var files' := files[Staged(dir, name) := data];
    assert forall p :: p in files' && p.BucketFolder? <==> p in files && p.BucketFolder?;
  }

  /** Any number of writes into the bucket folder leave every working directory as it was. */
  lemma StagedFilesIgnoreBucketWrites(files: map<Path, FileData>, writes: map<Path, FileData>, dir: string)
    requires forall p :: p in writes ==> p.BucketFolder?
    ensures StagedFiles(files + writes, dir) == StagedFiles(files, dir)
  {
    var merged := files + writes;
    assert forall p :: p in merged && p.Staged? <==> p in files && p.Staged?;
    assert forall p :: p in files && p.Staged? ==> merged[p] == files[p];
  }
}
