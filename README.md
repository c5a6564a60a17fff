# Uptycs osquery packages for AWS Systems Manager Distributor

This project models the packaging core of `create_package.py`. That script builds an AWS Systems Manager Distributor package for the Uptycs osquery agent. The core does four things:

- **Build matrix** (`DistributorFilePackager.__init__`): reads the list of platform build descriptors for the OSes `windows` and `linux`. It collects their working directories and the bundle names `{dir}-{version}.zip`.
- **Downloads** (`download_osquery_files`, `_add_binary_to_dir`, `PackageDownloadsApi`):
  - For each descriptor, builds the query parameters and the request path `/packageDownloads/osquery/{os}/{asset group id}?k=v&...`.
  - Takes the file name from the response's `content-disposition` header and stores the streamed package in the working directory.
  - Rewrites the `filename=` / `$filename=` line of the directory's install script so that it names the downloaded file.
- **Staging and manifest** (`create_staging_dir`, `_create_zip_files`, `_generate_manifest`, `_generate_digest`):
  - Zips every working directory into the bucket folder.
  - Builds `manifest.json`:
    - a header;
    - a `packages` tree, name → version → architecture → `{file}`;
    - a `files` table, bundle name → `{checksums: {sha256}}`.
- **Bucket** (`ManagePackageBucket`): creates the S3 bucket when the listing does not show it. It then uploads every listed file under the `uptycs/` prefix.

## Layout

- `wrappers.dfy`: `Option`, `Result` and `Outcome`.
- `text.dfy`: the string helpers (`IndexOf`, `Split`, `Join`) and their round trips.
- `buildmatrix.dfy`: the descriptors, the visiting order and the bundle names.
- `manifest.dfy`: the manifest document, the `packages` tree as a fold over the descriptors, and the `files` table.
- `localfiles.dfy`: the local disk, with the working directories and the bucket folder, as a `FileSystem` object over a map of paths.
- `downloads.dfy`: the query string, the request path, the `filename="..."` match, the install-script rewrite and the `PackageDownloadsApi` class.
- `bucket.dfy`: an S3 service object, and `ManagePackageBucket` over it.
- `packager.dfy`: the `DistributorFilePackager` class and the specification functions its methods are proved against.

The stateful parts are classes whose methods are proved against functions of the old state:

- `DistributorFilePackager` holds `dirs`, `zipFileList` and `manifestDict`.
- `FileSystem` holds `files`.
- `S3Service` holds `buckets`, `objects` and `createRequests`.

Three kinds of outside input are parameters of the methods:

- The HTTP service is `server: string -> Response`.
- The object-group listing is a `seq<ObjectGroup>`.
- SHA-256 is `sha256: FileData -> string`.

An HTTP response says whether its body parses as JSON (`bodyIsJson`). The API call parses the body of every response whose status is not 200, and of every response it does not stream. A body that does not parse makes the call raise.

How each S3 call ends is a constant of the `S3Service` object:

- `listing` and `creation` say whether `list_buckets` and `create_bucket` answer, raise a `ClientError`, or raise another botocore error.
- `rejectedKeys` are the keys `put_object` refuses.

## Where the code and its description differ

The model follows the code in each of these cases:

- When two descriptors share a name, version and architecture, the later one's bundle replaces the earlier one in the `packages` tree (`Manifest.PackagesOfLastWins`).
- A working directory that was never created gives an empty zip, not an error. `os.walk` of a missing directory yields nothing.
- `update` returns `True` even when individual uploads fail, or when the listing or the bucket creation raises a `ClientError`. Any other botocore error from the listing or the creation is not caught, and `update` raises it.
- When no object group is named `assets`, the asset group id is `None`. The request path then carries the literal segment `None` (`Downloads.GroupSegment`).
- A bundle that is missing when digests are computed raises `FileNotFoundError`. `_generate_manifest` does not catch it, since it catches only `KeyError` and `ValueError`. The packager is left holding the header-only manifest, and no `manifest.json` is written (`GenerateManifest` with `Fail`).
- After a successful manifest generation, `manifest.json` is in `zip_file_list`. A second generation would therefore hash the old manifest too.

## Model

| member | source | states |
|---|---|---|
| Packager.DistributorFilePackager.CollectBundles | ssm-distributor-sources/create_package.py:57-67 | The directories are exactly those of the descriptors of `windows` then `linux`. The bundle names are exactly `{dir}-{version}.zip` of those directories. |
| BuildMatrix.ZipNameInjective | ssm-distributor-sources/create_package.py:44 | For one installer version, two directories with the same bundle name are the same directory. |
| BuildMatrix.ZipNamesCount | ssm-distributor-sources/create_package.py:62-67 | `zip_file_list` has exactly one name per distinct working directory. |
| BuildMatrix.ManifestNotAmongZipNames | ssm-distributor-sources/create_package.py:197-199 | `manifest.json` is never one of the bundle names, so adding it grows the list. |
| BuildMatrix.ConfigsOfPrefix | ssm-distributor-sources/create_package.py:62-63 | The descriptors of the OSes visited so far are a prefix of all descriptors in visiting order. |
| Manifest.Header | ssm-distributor-sources/create_package.py:149-154 | The manifest header carries schema version "2.0", publisher "Uptycs." and the installer version. It has no packages and no files yet. |
| Manifest.EffectiveVersionIsMajor | ssm-distributor-sources/create_package.py:161-163 | The version key equals the major version exactly when the minor version is empty. |
| Manifest.EffectiveVersionSplits | ssm-distributor-sources/create_package.py:161-163 | For a major version without a dot, splitting the key at its first '.' gives back the major and the minor version. |
| Manifest.InsertSpec | ssm-distributor-sources/create_package.py:164-182 | Creating the nested levels and setting the leaf makes name/version/arch map to the file. Every other key is unchanged. The set of names gains the inserted name and no other. No file appears other than the inserted one. |
| Manifest.PackagesOfLast | ssm-distributor-sources/create_package.py:157-182 | The last descriptor visited decides its own key. All other keys keep their earlier values. |
| Manifest.PackagesOfSnoc | ssm-distributor-sources/create_package.py:157-182 | Visiting one more descriptor is one insertion of its key and bundle name. |
| Manifest.PackagesOfCovers | ssm-distributor-sources/create_package.py:157-182 | Every visited descriptor has an entry under its name, version and architecture. |
| Manifest.PackagesOfLastWins | ssm-distributor-sources/create_package.py:157-182 | Each key maps to the bundle of the LAST descriptor with that key, and to nothing when no descriptor has it. |
| Manifest.PackagesOfAbsent | ssm-distributor-sources/create_package.py:157-182 | A key is absent from the tree if and only if no visited descriptor has it. |
| Manifest.PackagesOfReferencesBundles | ssm-distributor-sources/create_package.py:157-182 | Every file named in the packages tree is the bundle name of a visited directory. |
| Manifest.NamesSnoc | ssm-distributor-sources/create_package.py:257-263 | Appending a digest adds its file name. Distinct names stay distinct when the new name is fresh. |
| Manifest.FilesOfDistinct | ssm-distributor-sources/create_package.py:187-194 | For digests with distinct file names, the `files` table has exactly those names as keys. Each key carries its own digest as `checksums.sha256`. |
| Packager.DescribesConsistent | ssm-distributor-sources/create_package.py:157-194 | A manifest built from the descriptors, with digests of every listed file, is consistent: each package file has a checksum entry. |
| Packager.DistributorFilePackager.BuildPackages | ssm-distributor-sources/create_package.py:157-182 | The nested loop over `windows` then `linux` produces the tree of all descriptors in visiting order. |
| Packager.DistributorFilePackager.InsertEach | ssm-distributor-sources/create_package.py:158-182 | The inner loop over one OS's descriptors extends the tree of the descriptors visited before it. |
| Packager.DistributorFilePackager.GenerateDigest | ssm-distributor-sources/create_package.py:246-265 | It fails exactly when a listed file is missing from the bucket folder. Otherwise it gives one digest per listed file, with distinct names. Each digest is the SHA-256 of that file's contents. |
| Packager.DistributorFilePackager.ChecksumTable | ssm-distributor-sources/create_package.py:189-192 | The `update` loop over the digests builds the `files` table, with later entries overriding earlier ones. |
| Packager.DistributorFilePackager.GenerateManifest | ssm-distributor-sources/create_package.py:141-203 | See the details below the table. |
| Packager.DistributorFilePackager.CreateStagingDir | ssm-distributor-sources/create_package.py:75-79 | One bundle is staged per working directory, and then the manifest is generated. Right after construction this always succeeds, and the resulting manifest is consistent. |
| Packager.DistributorFilePackager.ZipDirs | ssm-distributor-sources/create_package.py:77-78 | After the loop, the bucket folder holds exactly one archive per working directory, of that directory's files. Everything else is unchanged. |
| Packager.DistributorFilePackager.CreateZipFile | ssm-distributor-sources/create_package.py:221-243 | `{dir}-{version}.zip` in the bucket folder becomes the archive of the files in the directory. It is empty when the directory is absent. Nothing else changes. |
| Packager.StageAllSnoc | ssm-distributor-sources/create_package.py:69-73 | Downloading one more descriptor after a clean run is one more staged download. Its failure becomes the outcome. |
| Packager.StageAllStops | ssm-distributor-sources/create_package.py:69-73 | Once a download raises, the later descriptors are never visited. |
| Packager.StageAllFrame | ssm-distributor-sources/create_package.py:69-73 | With header file names taken as plain base names, downloading never touches the bucket folder, or any directory other than the descriptors' working directories. |
| Packager.DistributorFilePackager.DownloadOsqueryFiles | ssm-distributor-sources/create_package.py:69-73 | The nested loop performs the staged download of every descriptor in visiting order. It stops at the first failure, and the outcome and disk state are exactly those of that sequence. |
| Packager.DistributorFilePackager.AddBinaryToDir | ssm-distributor-sources/create_package.py:92-124 | One descriptor is one staged download. The request path is built from its `upt_package`, the asset group id and its query parameters. The download goes to its `dir`. |
| Packager.DistributorFilePackager.AddFilesToBucket | ssm-distributor-sources/create_package.py:81-90 | See the details below the table. |
| Packager.BundlesExactly | ssm-distributor-sources/create_package.py:221-239 | The staged bundles are one archive per directory, under its bundle name, and nothing else. |
| Packager.ZipStep | ssm-distributor-sources/create_package.py:77-78 | Zipping one more directory extends the bundles zipped so far by that directory's archive. |
| LocalFiles.StagedFilesIgnoreBucketWrites | ssm-distributor-sources/create_package.py:221-239 | Writing bundles to the bucket folder leaves the contents of every working directory unchanged, so zipping order does not matter. |
| LocalFiles.BucketViewIgnoresStaged | ssm-distributor-sources/create_package.py:596-611 | Writing into a working directory leaves the bucket folder unchanged. |
| Downloads.QueryParamsContents | ssm-distributor-sources/create_package.py:105-117 | See the details below the table. |
| Downloads.QueryParamsList | ssm-distributor-sources/create_package.py:105-117 | The parameters are exactly `osqVersion`, then `gravitonPackage=true` for `arm64`, then `remediationPackage=true` with remediation. No other pair appears. |
| Downloads.PutSpec | ssm-distributor-sources/create_package.py:115-117 | `dict.update` with one pair sets that key and keeps all others. It appends the key to the iteration order only when the key is new. |
| Downloads.QueryStringRoundTrip | ssm-distributor-sources/create_package.py:581-583 | For keys and values free of '&' and '=', parsing the `k=v&...` string gives back the parameters in order. |
| Downloads.DownloadPathCarriesParams | ssm-distributor-sources/create_package.py:577-583 | The part of the request path after its first '?' parses back to exactly the packager's query parameters. |
| Downloads.QueryParamsArePlain | ssm-distributor-sources/create_package.py:105-117 | When the installer version has no '&', every query parameter is free of '&' and '='. |
| Downloads.PackagesVersion | ssm-distributor-sources/create_package.py:550-559 | An empty `items` listing is an error. Otherwise the result is the part of the first item's version before its first '-'. |
| Downloads.AssetGroupOf | ssm-distributor-sources/create_package.py:540-548 | The id is that of the first object group named "assets", or none when no group has that name. |
| Downloads.PackageDownloadsApi.GetAssetGroupId | ssm-distributor-sources/create_package.py:540-548 | The loop over the object groups returns the first "assets" group's id, or none. |
| Downloads.FirstMatchSpec | ssm-distributor-sources/create_package.py:592 | The scan from a position returns the capture of the leftmost match at or after it, and nothing exactly when no match starts there or later. |
| Downloads.FileNameFromDispositionSpec | ssm-distributor-sources/create_package.py:591-592 | The result is the leftmost lazy `filename="(.+?)"` match of the header, with no newline inside. The result is none, and the download fails, exactly when the header has no match. |
| Downloads.FileNameIsOneLine | ssm-distributor-sources/create_package.py:592 | An extracted file name is non-empty and contains no newline. |
| Downloads.InstallScriptName | ssm-distributor-sources/create_package.py:605 | The install script is `install.ps1` exactly for `windows`, and `install.sh` for every other OS. |
| Downloads.FirstAssignSpec | ssm-distributor-sources/create_package.py:609 | The rewrite point of a line is the first occurrence of `filename=` in it. |
| Downloads.SubstituteIsLineWise | ssm-distributor-sources/create_package.py:609 | The left-to-right `re.sub` over the whole script equals rewriting each line on its own. |
| Downloads.SubstituteKeepsLines | ssm-distributor-sources/create_package.py:609 | The rewrite keeps the number of lines, and line k of the result is the rewrite of line k. |
| Downloads.SubstituteWithoutAssignment | ssm-distributor-sources/create_package.py:609 | A script with no `filename=` is left unchanged. |
| Downloads.RewriteLineIdempotent | ssm-distributor-sources/create_package.py:609 | Rewriting a line twice with the same file name gives the same line as rewriting it once. |
| Downloads.SubstituteIdempotent | ssm-distributor-sources/create_package.py:609 | Running the install-script rewrite twice gives the same script as running it once. |
| Downloads.ApiCallError | ssm-distributor-sources/create_package.py:469-486 | The API call hands a response on to the download exactly when the response is a stream and either its status is 200 or its body parses as JSON. Every other response makes the download raise before anything is written. |
| Downloads.ReadTextHasNoCarriageReturn | ssm-distributor-sources/create_package.py:607-608 | Reading the install script in text mode leaves no carriage return. |
| Downloads.ReadTextLineBreak | ssm-distributor-sources/create_package.py:607-608 | In text mode, a `\r\n` line break and a lone `\r` each read as one `\n`. The text before it is kept. |
| Downloads.ReadTextKeepsPlainText | ssm-distributor-sources/create_package.py:607-608 | A script without carriage returns reads back unchanged. |
| Downloads.ReadTextIdempotent | ssm-distributor-sources/create_package.py:607-611 | Reading the text-mode output of a read again changes nothing. |
| Downloads.StageDownloadFrame | ssm-distributor-sources/create_package.py:591-611 | See the details below the table. |
| Downloads.StageDownloadSuccess | ssm-distributor-sources/create_package.py:591-611 | See the details below the table. |
| Downloads.StoreBodyFrame | ssm-distributor-sources/create_package.py:598-602 | Writing the response adds at most `./{dir}/{name}`, and only for status 200. With the name taken as a plain base name, everything outside the working directory is kept, the bucket folder included. |
| Downloads.PointScriptFrame | ssm-distributor-sources/create_package.py:604-611 | Rewriting the install script adds no file and changes nothing outside the working directory. |
| Downloads.PackageDownloadsApi.DownloadPackage | ssm-distributor-sources/create_package.py:561-617 | The request goes to the path built from the OS, the asset group id and the parameters. The outcome and new disk state are those of staging that response. |
| Bucket.CreateRequest | ssm-distributor-sources/create_package.py:688-696 | The bucket creation request carries no location constraint exactly in `us-east-1`. In any other region the constraint is the region. |
| Bucket.ObjectKey | ssm-distributor-sources/create_package.py:651 | The object key is `uptycs/` followed by the file name. |
| Bucket.UploadsExactly | ssm-distributor-sources/create_package.py:649-652 | Every uploaded object comes from a listed file in the bucket folder. Every listed file whose key S3 accepts is uploaded with its contents. |
| Bucket.UploadsAddOne | ssm-distributor-sources/create_package.py:649-652 | Uploading one more file adds its object, unless S3 rejects its key. |
| Bucket.ManagePackageBucket.BucketExists | ssm-distributor-sources/create_package.py:655-674 | The result is true exactly when the listing answers and names the bucket. A `ClientError` gives false. Any other botocore error is not caught and escapes as a failure. |
| Bucket.ManagePackageBucket.CreateBucket | ssm-distributor-sources/create_package.py:676-700 | See the details below the table. |
| Bucket.ManagePackageBucket.UploadFile | ssm-distributor-sources/create_package.py:702-724 | See the details below the table. |
| Bucket.ManagePackageBucket.Update | ssm-distributor-sources/create_package.py:636-653 | See the details below the table. |
| Bucket.ManagePackageBucket.UploadAll | ssm-distributor-sources/create_package.py:649-652 | The upload loop puts every listed file with its contents, except keys S3 rejects. It leaves the bucket list unchanged. |
| Text.JoinSplit | ssm-distributor-sources/create_package.py:559 | Joining the pieces of `split(sep)` with `sep` gives back the string. |
| Text.SplitJoin | ssm-distributor-sources/create_package.py:582 | Splitting a `sep`-join of `sep`-free pieces gives back the pieces. |

**Details for the longer rows**

- **`Packager.DistributorFilePackager.GenerateManifest`**
  - It fails exactly when a listed file is missing. In that case the dictionary keeps only the header, and nothing is written.
  - On success:
    - the manifest has the header, the packages tree of all descriptors and the digest table of the listed files;
    - it is consistent;
    - `manifest.json` is written to the bucket folder;
    - `manifest.json` is added to the list.
- **`Packager.DistributorFilePackager.AddFilesToBucket`**
  - It runs `update` on every listed file: the bundles, and `manifest.json` once the manifest is generated.
  - The answer of `update` is dropped, as the method returns nothing. The outcome is `Fail` exactly when an exception escapes `update`:
    - the listing raises a botocore error other than a `ClientError`;
    - the bucket is not found and its creation raises such an error;
    - or a listed local file is missing.
  - It requests bucket creation unless the listing answers and shows the bucket, or the listing raised a botocore error other than a `ClientError`.
  - The bucket list gains `bucketName` at its end exactly when the listing answered without naming it or raised a `ClientError`, the creation answered, and the name was not listed before. Otherwise the bucket list is unchanged.
  - When the listing, or the creation of a bucket not found, raises another botocore error, the objects are unchanged.
  - On `Pass`, every listed file whose key S3 accepts is uploaded with its contents, when the bucket exists.
- **`Downloads.QueryParamsContents`**
  - `osqVersion` is the installer version.
  - `gravitonPackage=true` is present exactly for `arm64`.
  - `remediationPackage=true` is present exactly when remediation is on.
  - The keys appear in that order.
- **`Downloads.StageDownloadFrame`**
  - With the header's file name taken as a plain base name, only the descriptor's working directory changes.
  - A file is added only as the extracted file name, and only after a 200 response.
  - A response the API call rejects, or one without a file name, fails with nothing written. The API call rejects a non-stream response, and a non-200 response whose body is not JSON.
- **`Downloads.StageDownloadSuccess`**
  - On success:
    - the response is a stream, and its body parses as JSON unless the status is 200;
    - the file name is the header's match;
    - the body is stored under it after a 200;
    - the install script is the line-wise rewrite, with that file name, of its old text as text mode reads it;
    - rewriting the new script again with the same name changes nothing.
- **`Bucket.ManagePackageBucket.CreateBucket`**
  - It records exactly one creation request for the region.
  - The bucket exists afterwards exactly when it existed or the call answers.
  - A `ClientError` gives false. Any other botocore error escapes as a failure.
  - Objects are unchanged.
- **`Bucket.ManagePackageBucket.UploadFile`**
  - A missing local file is an error.
  - Otherwise the result is true exactly when S3 accepts the put, and then the object holds the file's contents.
  - Buckets are unchanged.
- **`Bucket.ManagePackageBucket.Update`**
  - It creates the bucket when the listing does not show it, and records exactly that request.
  - The bucket list gains `bucketName`, and no other name, exactly when that creation answers and the name was not already listed.
  - It then uploads every listed file under `uptycs/{file}`.
  - It returns true regardless of upload outcomes and of a `ClientError` from the listing or the creation.
  - It fails exactly when an exception escapes:
    - the listing raises another botocore error, and then nothing is created or uploaded;
    - the bucket is not found and its creation raises another botocore error, and then nothing is uploaded;
    - or a listed local file is missing.

## Left out

- HTTP, authentication and JWT signing (`UptApiCall`, `UptApiAuth`, `ObjectGroupsApi`) are outside this model. The service's answers are parameters: `server` maps a request path to a response, and the object-group listing is a sequence.
- The response of `/osqueryPackages` is the parameter of `Downloads.PackagesVersion`. A response without `items`, or an item without `version`, is outside this model.
- `_get_asset_group_id` when the listing has no `items` (iterating `None` raises) is outside this model. The listing is always a sequence.
- Header lookup in `requests` is case-insensitive. The model looks up the lower-case `content-disposition` exactly.
- Streaming in 1024-byte chunks, and the `os.makedirs` calls, are outside this model. A file body is stored whole, and directories are implicit in paths.
- `re.sub` replacement escapes are outside this model. A file name containing `\` or `\g<...>` would be interpreted by `re`, while the model inserts it literally.
- JSON serialisation, and the error path of `_write_manifest_file`, are outside this model. The manifest is stored as a value (`ManifestJson`).
- Zip compression, and the order of entries inside an archive, are outside this model. An archive is the map of file names to contents.
- `os.walk` into subdirectories of a working directory is outside this model. The model stages a flat directory, and entries are keyed by base name as in the code.
- SHA-256 is the parameter `sha256`. Hex formatting is part of that function.
- `_parse_mappings` (reading the JSON mapping file) is outside this model. The matrix is a constructor parameter. The constructor requires both `windows` and `linux` keys, because a missing key raises `KeyError` during construction.
- `os.listdir()` in the constructor (`dir_list`) is unused by the core and is not modelled.
- `main`, argument parsing and the `'true'`/`'false'` string passed as `with_remediation` are outside this model. The flag is a boolean here.
- `LogHandler`, `print` and logging output are outside this model.
- `share-uptycs-package.py` and `orgaccounts.py` (sharing the SSM document across accounts) are not part of this model.
- Bucket.ManagePackageBucket.Update: after a failure because a listed local file is missing, the objects uploaded before the failing file are not described.
- Bucket.ManagePackageBucket.UploadAll: after a failure, the objects uploaded before the failing file are not described.
- Packager.DistributorFilePackager.AddFilesToBucket: after a failure because a listed local file is missing, the objects uploaded before the failing file are not described, as for `Update`.
- Text mode is modelled for reading (universal newlines). Writing assumes the POSIX line separator `\n`, as on the Linux hosts that build the package.
- An install script that is not valid UTF-8 text fails with the same error as a missing script. The `UnicodeDecodeError` message is not distinguished.
- Downloads.StoreBody: the file name from the `content-disposition` header is a plain base name inside the working directory. The code joins it into `./{dir}/{name}` unchecked, so a name with `/` or `..` (such as `../../s3-bucket/manifest.json`) writes elsewhere. The model does not capture such a write.
- Downloads.StageDownloadFrame: holds only for a header file name without `/` or `..`, for the same reason as `StoreBody`. The code could write into the bucket folder or another working directory.
- Downloads.StoreBodyFrame: holds only for a header file name without `/` or `..`, for the same reason as `StoreBody`.
- Packager.StageAllFrame: holds only when every header file name is free of `/` and `..`, for the same reason as `StoreBody`.
- Set iteration order for `self.dirs` and `zip_file_list` is an arbitrary choice in the model. No contract depends on it.
