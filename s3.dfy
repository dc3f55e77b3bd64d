/**
 * The S3 layer: the class-level bucket, distribution domain and host
 * settings, the public URL of a size, the object keys of a record, and the
 * store and delete calls that save and delete issue to the gateway.
 */
module S3 {
  import opened Outcomes
  import opened RubyStrings
  import opened SizeTables
  import opened Paths
  import opened Disks

  const S3Host := "http://s3.amazonaws.com"

  /** The message UndefinedBucket is raised with: the heredoc with its six-space indentation removed. */
  const BucketErrorMsg :=
    "\nYou need to define a bucket name. Example:\n\nclass Imagery::Model\n  include Imagery::S3\n\n  s3_bucket 'my-bucket-name'\nend\n"

  /** The exception the bucket getter raises when no bucket is set. */
  const BucketError := UndefinedBucket(BucketErrorMsg)

  const PublicRead := "public_read"
  const PngType := "image/png"

  /** What the bucket getter returns for a stored bucket: the bucket, or UndefinedBucket. */
  function BucketOf(stored: Option<string>): (r: Result<string>)
    ensures r.Ok? <==> stored.Some?
    ensures r.Ok? ==> r.value == stored.value
    ensures r.Err? ==> r.error == BucketError
  {
    match stored
    case None => Err(BucketError)
    case Some(b) => Ok(b)
  }

  /** What the host getter returns for a stored host: the host, or the default S3 endpoint. */
  function HostOf(stored: Option<string>): (r: string)
    ensures stored.Some? ==> r == stored.value
    ensures stored.None? ==> r == S3Host
  {
    if stored.Some? then stored.value else S3Host
  }

  /**
   * S3#url: on the distribution domain when one is set, otherwise on the
   * host and the bucket, which must be set. The size is not checked
   * against the size table.
   */
  function PublicUrl(domain: Option<string>, host: string, bucket: Option<string>,
                     ns: string, key: string, size: string): Result<string>
  {
    if domain.Some? then Ok(ArrayJoin([domain.value, ns, key, Filename(size)], "/"))
    else match BucketOf(bucket)
      case Err(e) => Err(e)
      case Ok(b) => Ok(ArrayJoin([host, b, ns, key, Filename(size)], "/"))
  }

  /**
   * With a domain the URL is <domain>/<ns>/<key>/<size>.png whatever the
   * bucket; without one it is <host>/<bucket>/<ns>/<key>/<size>.png; it
   * fails, with the bucket message, exactly when neither a domain nor a
   * bucket is set.
   */
  lemma PublicUrlSpec(domain: Option<string>, host: string, bucket: Option<string>,
                      ns: string, key: string, size: string)
    ensures domain.Some? ==>
      PublicUrl(domain, host, bucket, ns, key, size) == Ok(domain.value + "/" + ns + "/" + key + "/" + size + ".png")
    ensures domain.None? && bucket.Some? ==>
      PublicUrl(domain, host, bucket, ns, key, size) == Ok(host + "/" + bucket.value + "/" + ns + "/" + key + "/" + size + ".png")
    ensures PublicUrl(domain, host, bucket, ns, key, size).Err? <==> domain.None? && bucket.None?
    ensures PublicUrl(domain, host, bucket, ns, key, size).Err? ==>
      PublicUrl(domain, host, bucket, ns, key, size).error == BucketError
  {
    if domain.Some? {
      var d := domain.value;
      ArrayJoinFour(d, ns, key, Filename(size), "/");
      assert d + "/" + ns + "/" + key + "/" + Filename(size) == d + "/" + ns + "/" + key + "/" + size + ".png";
    } else if bucket.Some? {
      var b := bucket.value;
      ArrayJoinFive(host, b, ns, key, Filename(size), "/");
      assert host + "/" + b + "/" + ns + "/" + key + "/" + Filename(size) ==
        host + "/" + b + "/" + ns + "/" + key + "/" + size + ".png";
    }
  }

  /** An S3 object key and the size whose file it holds. */
  datatype ObjectKey = ObjectKey(path: string, size: string)

  /** S3#s3_object_keys: one key per size, in the order of the size table. */
  function ObjectKeys(sizes: Table, ns: string, key: string): (keys: seq<ObjectKey>)
    ensures |keys| == |sizes|
  {
    if sizes == [] then []
    else [ObjectKey(ArrayJoin([ns, key, Filename(sizes[0].name)], "/"), sizes[0].name)] + ObjectKeys(sizes[1..], ns, key)
  }

  /** The i-th key is the one of the i-th size. */
  lemma {:induction false} ObjectKeyAt(sizes: Table, ns: string, key: string, i: int)
    requires 0 <= i < |sizes|
    ensures ObjectKeys(sizes, ns, key)[i] == ObjectKey(ArrayJoin([ns, key, Filename(sizes[i].name)], "/"), sizes[i].name)
    decreases i
  {
    if i > 0 {
      ObjectKeyAt(sizes[1..], ns, key, i - 1);
    }
  }

  /** The i-th key holds the file of the i-th size. */
  lemma {:induction false} ObjectKeySize(sizes: Table, ns: string, key: string, i: int)
    requires 0 <= i < |sizes|
    ensures ObjectKeys(sizes, ns, key)[i].size == sizes[i].name
    decreases i
  {
    if i > 0 {
      ObjectKeySize(sizes[1..], ns, key, i - 1);
    }
  }

  /** Each size of the table, in order, has the key <ns>/<key>/<size>.png. */
  lemma ObjectKeysSpec(sizes: Table, ns: string, key: string)
    ensures forall i :: 0 <= i < |sizes| ==>
      ObjectKeys(sizes, ns, key)[i] == ObjectKey(ns + "/" + key + "/" + sizes[i].name + ".png", sizes[i].name)
  {
    forall i | 0 <= i < |sizes|
      ensures ObjectKeys(sizes, ns, key)[i] == ObjectKey(ns + "/" + key + "/" + sizes[i].name + ".png", sizes[i].name)
    {
      ObjectKeyAt(sizes, ns, key, i);
      ArrayJoinThree(ns, key, Filename(sizes[i].name), "/");
    }
  }

  /** The object key of a size is its web path without the leading /system/. */
  lemma ObjectKeyMatchesWebPath(ns: string, key: string, size: string)
    requires Plain(ns) && Plain(key) && !StartsWithSep(size)
    ensures WebPath(ns, key, size) == "/system/" + ArrayJoin([ns, key, Filename(size)], "/")
  {
    WebPathLayout(ns, key, size);
    ArrayJoinThree(ns, key, Filename(size), "/");
  }

  /** A call recorded at the gateway, which stands for AWS::S3::S3Object. */
  datatype GatewayCall =
    | StoreCall(objectKey: string, body: Bytes, bucket: string, access: string, contentType: string)
    | DeleteCall(objectKey: string, bucket: string)

  /** The calls a loop issued and the exception that ended it early, if any. */
  datatype Run = Run(calls: seq<GatewayCall>, error: Option<Error>)

  /**
   * One upload of S3#save: the size's file is opened (ENOENT when it is not
   * there), then the bucket is read (UndefinedBucket when unset), then the
   * file is stored publicly readable as a PNG.
   */
  function UploadOf(k: ObjectKey, root: string, ns: string, key: string,
                    files: Files, bucket: Option<string>): (r: Result<GatewayCall>)
    ensures FilePath(root, ns, key, k.size) !in files ==> r == Err(NoSuchFile(FilePath(root, ns, key, k.size)))
    ensures FilePath(root, ns, key, k.size) in files && bucket.None? ==> r == Err(BucketError)
    ensures r.Ok? <==> FilePath(root, ns, key, k.size) in files && bucket.Some?
    ensures r.Ok? ==> r.value == StoreCall(k.path, files[FilePath(root, ns, key, k.size)], bucket.value, PublicRead, PngType)
  {
    var path := FilePath(root, ns, key, k.size);
    if path !in files then Err(NoSuchFile(path))
    else match BucketOf(bucket)
      case Err(e) => Err(e)
      case Ok(b) => Ok(StoreCall(k.path, files[path], b, PublicRead, PngType))
  }

  /**
   * A loop whose passes each issue one call or raise, and that stops at the
   * first pass that raises: the calls of the first `n` passes and the
   * exception that ended the loop, if any.
   */
  function RunFirst(passes: seq<Result<GatewayCall>>, n: nat): (r: Run)
    requires n <= |passes|
    ensures |r.calls| <= n
    ensures r.error.None? ==> |r.calls| == n
    decreases n
  {
    if n == 0 then Run([], None)
    else
      var prev := RunFirst(passes, n - 1);
      if prev.error.Some? then prev
      else match passes[n - 1]
        case Err(e) => Run(prev.calls, Some(e))
        case Ok(c) => Run(prev.calls + [c], None)
  }

  /** Once a pass has raised, later passes do not run. */
  lemma {:induction false} RunStop(passes: seq<Result<GatewayCall>>, m: nat, n: nat)
    requires m <= n <= |passes| && RunFirst(passes, m).error.Some?
    ensures RunFirst(passes, n) == RunFirst(passes, m)
    decreases n
  {
    if n > m {
      RunStop(passes, m, n - 1);
    }
  }

  /** A pass that raises ends the loop with that exception, after the calls already issued. */
  lemma RunFails(passes: seq<Result<GatewayCall>>, i: nat)
    requires i < |passes| && RunFirst(passes, i).error.None? && passes[i].Err?
    ensures RunFirst(passes, |passes|) == Run(RunFirst(passes, i).calls, Some(passes[i].error))
  {
    RunStop(passes, i + 1, |passes|);
  }

  /** A pass that does not raise adds its call after those already issued. */
  lemma RunStep(issued: seq<GatewayCall>, passes: seq<Result<GatewayCall>>, i: nat)
    requires i < |passes| && RunFirst(passes, i).error.None? && passes[i].Ok?
    ensures RunFirst(passes, i + 1) == Run(RunFirst(passes, i).calls + [passes[i].value], None)
    ensures issued + RunFirst(passes, i + 1).calls == (issued + RunFirst(passes, i).calls) + [passes[i].value]
  {
    var prev := RunFirst(passes, i).calls;
    assert issued + (prev + [passes[i].value]) == (issued + prev) + [passes[i].value];
  }

  /** When no pass raises, the loop issues every pass's call, in order. */
  lemma {:induction false} RunAll(passes: seq<Result<GatewayCall>>, n: nat)
    requires n <= |passes|
    requires forall i :: 0 <= i < n ==> passes[i].Ok?
    ensures var r := RunFirst(passes, n);
      && r.error == None && |r.calls| == n
      && forall i :: 0 <= i < n ==> r.calls[i] == passes[i].value
    decreases n
  {
    if n > 0 {
      RunAll(passes, n - 1);
    }
  }

  /** When the first pass raises, the loop issues nothing and ends with that exception. */
  lemma RunFailsFirst(passes: seq<Result<GatewayCall>>)
    requires passes != [] && passes[0].Err?
    ensures RunFirst(passes, |passes|) == Run([], Some(passes[0].error))
  {
    RunStop(passes, 1, |passes|);
  }

  /** The passes of the upload loop of S3#save, one per object key. */
  function UploadPasses(keys: seq<ObjectKey>, root: string, ns: string, key: string,
                        files: Files, bucket: Option<string>): (ps: seq<Result<GatewayCall>>)
    ensures |ps| == |keys|
  {
    if keys == [] then []
    else [UploadOf(keys[0], root, ns, key, files, bucket)] + UploadPasses(keys[1..], root, ns, key, files, bucket)
  }

  lemma {:induction false} UploadPassAt(keys: seq<ObjectKey>, root: string, ns: string, key: string,
                                        files: Files, bucket: Option<string>, i: int)
    requires 0 <= i < |keys|
    ensures UploadPasses(keys, root, ns, key, files, bucket)[i] == UploadOf(keys[i], root, ns, key, files, bucket)
    decreases i
  {
    if i > 0 {
      UploadPassAt(keys[1..], root, ns, key, files, bucket, i - 1);
    }
  }

  /** The uploads of S3#save, one per object key in order, up to the first that fails. */
  function Uploads(keys: seq<ObjectKey>, root: string, ns: string, key: string,
                   files: Files, bucket: Option<string>): Run
  {
    RunFirst(UploadPasses(keys, root, ns, key, files, bucket), |keys|)
  }

  /**
   * When every file is there and the bucket is set, save stores each file,
   * in the order of the keys, under its key, and fails on nothing.
   */
  lemma UploadsAll(keys: seq<ObjectKey>, root: string, ns: string, key: string, files: Files, b: string)
    requires forall i :: 0 <= i < |keys| ==> FilePath(root, ns, key, keys[i].size) in files
    ensures var r := Uploads(keys, root, ns, key, files, Some(b));
      && r.error == None
      && |r.calls| == |keys|
      && forall i :: 0 <= i < |keys| ==>
           r.calls[i] == StoreCall(keys[i].path, files[FilePath(root, ns, key, keys[i].size)], b, PublicRead, PngType)
  {
    var passes := UploadPasses(keys, root, ns, key, files, Some(b));
    forall i | 0 <= i < |keys|
      ensures passes[i] == UploadOf(keys[i], root, ns, key, files, Some(b))
    {
      UploadPassAt(keys, root, ns, key, files, Some(b), i);
    }
    RunAll(passes, |keys|);
  }

  /** Without a bucket no upload happens: the first pass already raises UndefinedBucket. */
  lemma UploadsWithoutBucket(keys: seq<ObjectKey>, root: string, ns: string, key: string, files: Files)
    requires keys != []
    ensures Uploads(keys, root, ns, key, files, None).calls == []
    ensures Uploads(keys, root, ns, key, files, None).error.Some?
    ensures FilePath(root, ns, key, keys[0].size) in files ==>
      Uploads(keys, root, ns, key, files, None) == Run([], Some(BucketError))
  {
    UploadPassAt(keys, root, ns, key, files, None, 0);
    RunFailsFirst(UploadPasses(keys, root, ns, key, files, None));
  }

  /** One pass of the delete loop of S3#delete: the key is deleted from the bucket, which must be set. */
  function DeleteOf(k: ObjectKey, bucket: Option<string>): (r: Result<GatewayCall>)
    ensures r.Ok? <==> bucket.Some?
    ensures r.Ok? ==> r.value == DeleteCall(k.path, bucket.value)
    ensures r.Err? ==> r.error == BucketError
  {
    match BucketOf(bucket)
    case Err(e) => Err(e)
    case Ok(b) => Ok(DeleteCall(k.path, b))
  }

  /** The passes of the delete loop of S3#delete, one per object key. */
  function DeletePasses(keys: seq<ObjectKey>, bucket: Option<string>): (ps: seq<Result<GatewayCall>>)
    ensures |ps| == |keys|
  {
    if keys == [] then [] else [DeleteOf(keys[0], bucket)] + DeletePasses(keys[1..], bucket)
  }

  lemma {:induction false} DeletePassAt(keys: seq<ObjectKey>, bucket: Option<string>, i: int)
    requires 0 <= i < |keys|
    ensures DeletePasses(keys, bucket)[i] == DeleteOf(keys[i], bucket)
    decreases i
  {
    if i > 0 {
      DeletePassAt(keys[1..], bucket, i - 1);
    }
  }

  /** The deletions of S3#delete. */
  function Deletions(keys: seq<ObjectKey>, bucket: Option<string>): Run {
    RunFirst(DeletePasses(keys, bucket), |keys|)
  }

  /** With a bucket, every key is deleted from it, in order; without one, nothing is, and the error is UndefinedBucket. */
  lemma DeletionsSpec(keys: seq<ObjectKey>, bucket: Option<string>)
    ensures bucket.Some? ==>
      var r := Deletions(keys, bucket);
      && r.error == None && |r.calls| == |keys|
      && forall i :: 0 <= i < |keys| ==> r.calls[i] == DeleteCall(keys[i].path, bucket.value)
    ensures bucket.None? && keys != [] ==> Deletions(keys, bucket) == Run([], Some(BucketError))
  {
    var passes := DeletePasses(keys, bucket);
    forall i | 0 <= i < |keys| ensures passes[i] == DeleteOf(keys[i], bucket) {
      DeletePassAt(keys, bucket, i);
    }
    if bucket.Some? {
      RunAll(passes, |keys|);
    } else if keys != [] {
      RunFailsFirst(passes);
    }
  }

  /**
   * The class-level settings of a class that includes Imagery::S3. The
   * getters take an optional argument that, when given, is stored first.
   */
  class Config {
    var bucket: Option<string>
    var domain: Option<string>
    var host: Option<string>

    constructor()
      ensures bucket == None && domain == None && host == None
    {
      bucket := None;
      domain := None;
      host := None;
    }

    /** Configs#s3_bucket(bucket = nil). */
    method Bucket(arg: Option<string>) returns (r: Result<string>)
      modifies this
      ensures bucket == (if arg.Some? then arg else old(bucket))
      ensures domain == old(domain) && host == old(host)
      ensures r == BucketOf(bucket)
    {
      if arg.Some? {
        bucket := arg;
      }
      r := BucketOf(bucket);
    }

    /** Configs#s3_distribution_domain(domain = nil); None stands for nil. */
    method DistributionDomain(arg: Option<string>) returns (r: Option<string>)
      modifies this
      ensures domain == (if arg.Some? then arg else old(domain))
      ensures bucket == old(bucket) && host == old(host)
      ensures r == domain
    {
      if arg.Some? {
        domain := arg;
      }
      r := domain;
    }

    /** Configs#s3_host(host = nil). */
    method Host(arg: Option<string>) returns (r: string)
      modifies this
      ensures host == (if arg.Some? then arg else old(host))
      ensures bucket == old(bucket) && domain == old(domain)
      ensures r == HostOf(host)
    {
      if arg.Some? {
        host := arg;
      }
      r := HostOf(host);
    }

    /** The attribute writer s3_bucket=; unlike the getter it also stores nil. */
    method SetBucket(v: Option<string>)
      modifies this
      ensures bucket == v && domain == old(domain) && host == old(host)
    {
      bucket := v;
    }

    /** The attribute writer s3_distribution_domain=. */
    method SetDistributionDomain(v: Option<string>)
      modifies this
      ensures domain == v && bucket == old(bucket) && host == old(host)
    {
      domain := v;
    }

    /** The attribute writer s3_host=. */
    method SetHost(v: Option<string>)
      modifies this
      ensures host == v && bucket == old(bucket) && domain == old(domain)
    {
      host := v;
    }
  }

  /** The record of the calls made to Imagery::S3::Gateway. */
  class Gateway {
    var calls: seq<GatewayCall>

    constructor()
      ensures calls == []
    {
      calls := [];
    }

    /** Gateway.store(key, io, bucket, access:, content_type:). */
    method Store(objectKey: string, body: Bytes, bucket: string, access: string, contentType: string)
      modifies this
      ensures calls == old(calls) + [StoreCall(objectKey, body, bucket, access, contentType)]
    {
      calls := calls + [StoreCall(objectKey, body, bucket, access, contentType)];
    }

    /** Gateway.delete(key, bucket). */
    method Delete(objectKey: string, bucket: string)
      modifies this
      ensures calls == old(calls) + [DeleteCall(objectKey, bucket)]
    {
      calls := calls + [DeleteCall(objectKey, bucket)];
    }
  }
}
