/** Publishing the staged files: an S3 bucket made on demand and one object per file under the
    `uptycs/` prefix. The storage service is a small stateful stand-in for the S3 client. */
module Bucket {
  import opened Wrappers
  import opened LocalFiles

  const S3PREFIX := "uptycs"
  const DEFAULT_REGION := "us-east-1"

  /** An object's address: bucket and key. */
  datatype ObjectRef = ObjectRef(bucket: string, key: string)

  /** The arguments of one `create_bucket` call. */
  datatype CreateBucketRequest = CreateBucketRequest(bucket: string, locationConstraint: Option<string>)

  /** The creation call for a region: the default region takes no location constraint, every
      other region is named as the constraint. */
  function CreateRequest(bucketName: string, region: string): (req: CreateBucketRequest)
    ensures req.bucket == bucketName
    ensures req.locationConstraint.None? <==> region == DEFAULT_REGION
    ensures req.locationConstraint.Some? ==> req.locationConstraint.value == region
  {
    if region == DEFAULT_REGION then CreateBucketRequest(bucketName, None)
    else CreateBucketRequest(bucketName, Some(region))
  }

  /** The key of a staged file: the prefix, a slash, and the file name, which can be read back
      from the key (so distinct files get distinct keys). */
  function ObjectKey(file: string): (key: string)
    ensures |key| == 7 + |file| && key[..7] == "uptycs/" && key[7..] == file
  {
    S3PREFIX + "/" + file
  }

  /** The objects an upload of `fileList` to a bucket writes: one per staged file whose key the
      service accepts, holding that file's contents. */
  function Uploads(bucketName: string, staged: map<Path, FileData>, fileList: set<string>, rejectedKeys: set<string>)
    : map<ObjectRef, FileData>
  {
    map f | f in fileList && BucketFolder(f) in staged && ObjectKey(f) !in rejectedKeys
      :: ObjectRef(bucketName, ObjectKey(f)) := staged[BucketFolder(f)]
  }

  /** Every uploaded object is a staged file under its own key, and every accepted staged file
      of the list is uploaded. */
  lemma UploadsExactly(bucketName: string, staged: map<Path, FileData>, fileList: set<string>, rejectedKeys: set<string>)
    ensures var up := Uploads(bucketName, staged, fileList, rejectedKeys);
      && (forall ref :: ref in up ==>
            exists f :: f in fileList && ref == ObjectRef(bucketName, ObjectKey(f))
                        && BucketFolder(f) in staged && up[ref] == staged[BucketFolder(f)])
      && (forall f :: f in fileList && BucketFolder(f) in staged && ObjectKey(f) !in rejectedKeys ==>
            ObjectRef(bucketName, ObjectKey(f)) in up && up[ObjectRef(bucketName, ObjectKey(f))] == staged[BucketFolder(f)])
  {
    var up := Uploads(bucketName, staged, fileList, rejectedKeys);
    forall f | f in fileList && BucketFolder(f) in staged && ObjectKey(f) !in rejectedKeys
      ensures up[ObjectRef(bucketName, ObjectKey(f))] == staged[BucketFolder(f)]
    {
      forall g | g in fileList && BucketFolder(g) in staged && ObjectKey(g) !in rejectedKeys
        && ObjectRef(bucketName, ObjectKey(g)) == ObjectRef(bucketName, ObjectKey(f))
        ensures g == f
      {
        assert g == ObjectKey(g)[7..];
      }
    }
  }

  /** Uploading one more file adds (or replaces) exactly its object. */
  lemma UploadsAddOne(bucketName: string, staged: map<Path, FileData>, done: set<string>, f: string,
                      rejectedKeys: set<string>)
    requires BucketFolder(f) in staged
    ensures Uploads(bucketName, staged, done + {f}, rejectedKeys)
      == if ObjectKey(f) in rejectedKeys then Uploads(bucketName, staged, done, rejectedKeys)
         else Uploads(bucketName, staged, done, rejectedKeys)[ObjectRef(bucketName, ObjectKey(f)) := staged[BucketFolder(f)]]
  {
    var a := Uploads(bucketName, staged, done + {f}, rejectedKeys);
    var b := Uploads(bucketName, staged, done, rejectedKeys);
    forall g | g in done + {f} && BucketFolder(g) in staged && ObjectKey(g) !in rejectedKeys
      ensures a[ObjectRef(bucketName, ObjectKey(g))] == staged[BucketFolder(g)]
      ensures g in done ==> b[ObjectRef(bucketName, ObjectKey(g))] == staged[BucketFolder(g)]
    {
      UploadsExactly(bucketName, staged, done + {f}, rejectedKeys);
      UploadsExactly(bucketName, staged, done, rejectedKeys);
    }
    forall ref | ref in b
      ensures exists g :: g in done && ref == ObjectRef(bucketName, ObjectKey(g)) && BucketFolder(g) in staged
    {
      UploadsExactly(bucketName, staged, done, rejectedKeys);
    }
  }

  lemma MergeUpdate<K, V>(a: map<K, V>, b: map<K, V>, k: K, v: V)
    ensures (a + b)[k := v] == a + b[k := v]
  {
  }

  /** How one client call ends: it answers, or it raises a botocore `ClientError` (an error
      reported by the service), or another `BotoCoreError` (credentials, connection, ...). */
  datatype Fault = Answers | RaisesClientError | RaisesBotoCoreError

  /** The message of an exception a call raises. */
  function FaultMessage(fault: Fault, call: string): string
  {
    match fault
    case RaisesClientError => "ClientError: " + call
    case _ => "BotoCoreError: " + call
  }

  /** Whether a `list_buckets` call that ends as `listing` finds the bucket among `buckets`. */
  predicate Listed(listing: Fault, buckets: seq<string>, bucketName: string)
  {
    listing.Answers? && bucketName in buckets
  }

  /** A stand-in for the S3 client: the buckets it lists, the objects it holds and the creation
      calls it has received. How each call ends is fixed when it is made. */
  class S3Service {
    var buckets: seq<string>
    var objects: map<ObjectRef, FileData>
    var createRequests: seq<CreateBucketRequest>
    /** How `list_buckets` ends. */
    const listing: Fault
    /** How `create_bucket` ends. */
    const creation: Fault
    /** Keys `put_object` refuses with an exception (either family). */
    const rejectedKeys: set<string>

    constructor(buckets: seq<string>, objects: map<ObjectRef, FileData>,
                listing: Fault, creation: Fault, rejectedKeys: set<string>)
      ensures this.buckets == buckets && this.objects == objects && createRequests == []
      ensures this.listing == listing && this.creation == creation
      ensures this.rejectedKeys == rejectedKeys
    {
      this.buckets := buckets;
      this.objects := objects;
      this.createRequests := [];
      this.listing := listing;
      this.creation := creation;
      this.rejectedKeys := rejectedKeys;
    }

    /** `list_buckets()['Buckets']`, by name; a failure carries the exception raised. */
    method ListBuckets() returns (r: Result<seq<string>>)
      ensures r.Failure? <==> !listing.Answers?
      ensures r.Failure? ==> r.error == FaultMessage(listing, "ListBuckets")
      ensures r.Success? ==> r.value == buckets
    {
      if !listing.Answers? {
        return Failure(FaultMessage(listing, "ListBuckets"));
      }
      return Success(buckets);
    }

    /** `create_bucket(...)`: a bucket of that name is listed afterwards when the call answers. */
    method CreateBucket(req: CreateBucketRequest) returns (r: Outcome)
      modifies this
      ensures r.Pass? <==> creation.Answers?
      ensures r.Fail? ==> r.error == FaultMessage(creation, "CreateBucket")
      ensures createRequests == old(createRequests) + [req]
      ensures buckets == if r.Pass? && req.bucket !in old(buckets) then old(buckets) + [req.bucket] else old(buckets)
      ensures objects == old(objects)
    {
      createRequests := createRequests + [req];
      if !creation.Answers? {
        return Fail(FaultMessage(creation, "CreateBucket"));
      }
      if req.bucket !in buckets {
        buckets := buckets + [req.bucket];
      }
      return Pass;
    }

    /** `put_object(Bucket, Key, Body)`: stores the body, overwriting, when the bucket exists and
        the key is accepted. */
    method PutObject(bucketName: string, key: string, body: FileData) returns (ok: bool)
      modifies this
      ensures ok <==> bucketName in buckets && key !in rejectedKeys
      ensures objects == if ok then old(objects)[ObjectRef(bucketName, key) := body] else old(objects)
      ensures buckets == old(buckets) && createRequests == old(createRequests)
    {
      if bucketName in buckets && key !in rejectedKeys {
        objects := objects[ObjectRef(bucketName, key) := body];
        return true;
      }
      return false;
    }
  }

  class ManagePackageBucket {
    const region: string
    const s3Client: S3Service

    constructor(region: string, s3Client: S3Service)
      ensures this.region == region && this.s3Client == s3Client
    {
      this.region := region;
      this.s3Client := s3Client;
    }

    /** Whether some listed bucket has the name. A client error counts as "no"; any other
        botocore error is not caught and escapes as a failure. */
    method BucketExists(bucketName: string) returns (r: Result<bool>)
      ensures r.Failure? <==> s3Client.listing.RaisesBotoCoreError?
      ensures r.Success? ==> (r.value <==> s3Client.listing.Answers? && bucketName in s3Client.buckets)
    {
      var response := s3Client.ListBuckets();
      if response.Failure? {
        if s3Client.listing.RaisesClientError? {
          return Success(false);
        }
        return Failure(response.error);
      }
      var listed := response.value;
      for i := 0 to |listed|
        invariant bucketName !in listed[..i]
      {
        if bucketName == listed[i] {
          return Success(true);
        }
      }
      return Success(false);
    }

    /** One creation call, with the location constraint of this object's region. A client error
        is reported as `false`; any other botocore error escapes as a failure. */
    method CreateBucket(bucketName: string) returns (r: Result<bool>)
      modifies s3Client
      ensures r.Failure? <==> s3Client.creation.RaisesBotoCoreError?
      ensures r.Success? ==> (r.value <==> s3Client.creation.Answers?)
      ensures s3Client.createRequests == old(s3Client.createRequests) + [CreateRequest(bucketName, region)]
      ensures s3Client.buckets
        == if s3Client.creation.Answers? && bucketName !in old(s3Client.buckets) then old(s3Client.buckets) + [bucketName]
           else old(s3Client.buckets)
      ensures s3Client.objects == old(s3Client.objects)
    {
      var created := s3Client.CreateBucket(CreateRequest(bucketName, region));
      if created.Fail? && s3Client.creation.RaisesBotoCoreError? {
        return Failure(created.error);
      }
      return Success(created.Pass?);
    }

    /** Uploads one staged file. A missing local file raises out of the upload (it is not a
        client error); a refused put is reported as `false`. */
    method UploadFile(fs: FileSystem, file: string, bucketName: string, objectKey: string)
      returns (r: Result<bool>)
      modifies s3Client
      ensures r.Failure? <==> BucketFolder(file) !in fs.files
      ensures r.Success? ==> (r.value <==> bucketName in s3Client.buckets && objectKey !in s3Client.rejectedKeys)
      ensures s3Client.objects
        == if r == Success(true) then old(s3Client.objects)[ObjectRef(bucketName, objectKey) := fs.files[BucketFolder(file)]]
           else old(s3Client.objects)
      ensures s3Client.buckets == old(s3Client.buckets) && s3Client.createRequests == old(s3Client.createRequests)
    {
      if BucketFolder(file) !in fs.files {
        return Failure("FileNotFoundError: " + file);
      }
      var ok := s3Client.PutObject(bucketName, objectKey, fs.files[BucketFolder(file)]);
      return Success(ok);
    }

    /** Makes the bucket when no listed bucket has its name, then uploads every file of the list
        under `uptycs/{file}`. Answers `true` whatever the individual uploads did; a botocore
        error other than a client error from the listing or the creation, or a missing local
        file, escapes as a failure. */
    method Update(fs: FileSystem, bucketName: string, fileList: set<string>) returns (r: Result<bool>)
      modifies s3Client
      ensures r.Success? ==> r.value
      ensures r.Failure?
        <==> || s3Client.listing.RaisesBotoCoreError?
             || (!Listed(s3Client.listing, old(s3Client.buckets), bucketName) && s3Client.creation.RaisesBotoCoreError?)
             || exists f :: f in fileList && BucketFolder(f) !in fs.files
      ensures s3Client.createRequests
        == old(s3Client.createRequests)
           + if Listed(s3Client.listing, old(s3Client.buckets), bucketName) || s3Client.listing.RaisesBotoCoreError? then []
             else [CreateRequest(bucketName, region)]
      ensures bucketName in s3Client.buckets
        <==> bucketName in old(s3Client.buckets) || (!s3Client.listing.RaisesBotoCoreError? && s3Client.creation.Answers?)
      ensures s3Client.listing.RaisesBotoCoreError?
              || (!Listed(s3Client.listing, old(s3Client.buckets), bucketName) && s3Client.creation.RaisesBotoCoreError?)
        ==> s3Client.objects == old(s3Client.objects)
      ensures s3Client.buckets
        == if && !Listed(s3Client.listing, old(s3Client.buckets), bucketName)
              && !s3Client.listing.RaisesBotoCoreError? && s3Client.creation.Answers?
              && bucketName !in old(s3Client.buckets)
           then old(s3Client.buckets) + [bucketName]
           else old(s3Client.buckets)
      ensures r.Success? ==>
        s3Client.objects
          == if bucketName in s3Client.buckets
             then old(s3Client.objects) + Uploads(bucketName, fs.files, fileList, s3Client.rejectedKeys)
             else old(s3Client.objects)
    {
      var found := BucketExists(bucketName);
      if found.Failure? {
        return Failure(found.error);
      }
      if !found.value {
        var created := CreateBucket(bucketName);
        if created.Failure? {
          return Failure(created.error);
        }
      }
      r := UploadAll(fs, bucketName, fileList);
    }

    /** The upload loop of `update`, in the (arbitrary) order of the set. */
    method UploadAll(fs: FileSystem, bucketName: string, fileList: set<string>) returns (r: Result<bool>)
      modifies s3Client
      ensures r.Success? ==> r.value
      ensures r.Failure? <==> exists f :: f in fileList && BucketFolder(f) !in fs.files
      ensures s3Client.buckets == old(s3Client.buckets) && s3Client.createRequests == old(s3Client.createRequests)
      ensures r.Success? ==>
        s3Client.objects
          == if bucketName in s3Client.buckets
             then old(s3Client.objects) + Uploads(bucketName, fs.files, fileList, s3Client.rejectedKeys)
             else old(s3Client.objects)
    {
      var live := bucketName in s3Client.buckets;
      var remaining := fileList;
      ghost var done: set<string> := {};
      while remaining != {}
        invariant remaining + done == fileList && remaining !! done
        invariant forall f :: f in done ==> BucketFolder(f) in fs.files
        invariant s3Client.buckets == old(s3Client.buckets) && s3Client.createRequests == old(s3Client.createRequests)
        invariant s3Client.objects
          == if live then old(s3Client.objects) + Uploads(bucketName, fs.files, done, s3Client.rejectedKeys)
             else old(s3Client.objects)
        decreases remaining
      {
        var file :| file in remaining;
        var uploaded := UploadFile(fs, file, bucketName, ObjectKey(file));
        if uploaded.Failure? {
          assert file in fileList && BucketFolder(file) !in fs.files;
          return Failure(uploaded.error);
        }
        UploadsAddOne(bucketName, fs.files, done, file, s3Client.rejectedKeys);
        if uploaded.value {
          MergeUpdate(old(s3Client.objects), Uploads(bucketName, fs.files, done, s3Client.rejectedKeys),
            ObjectRef(bucketName, ObjectKey(file)), fs.files[BucketFolder(file)]);
        }
        remaining := remaining - {file};
        done := done + {file};
      }
      assert done == fileList;
      return Success(true);
    }
  }
}
