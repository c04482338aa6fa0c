/** `ensureStorageBucket` and `uploadImage`: the bucket decision, the file checks
    repeated from the storage helper, and the upload path. Every service answer
    is an input. */
module Supabase {
  import opened Text
  import opened Backend
  import Storage

  const BucketName := "photos"

  /** An entry of `listBuckets()`. */
  datatype Bucket = Bucket(name: string)

  /** `buckets.some(bucket => bucket.name === name)`. */
  function AnyNamed(buckets: seq<Bucket>, name: string): (b: bool)
    ensures b <==> exists i :: 0 <= i < |buckets| && buckets[i].name == name
  {
    if |buckets| == 0 then false
    else buckets[|buckets| - 1].name == name || AnyNamed(buckets[..|buckets| - 1], name)
  }

  /** `buckets?.some(...)`: the list is `null` when `listBuckets` failed, and then
      the test is falsy. */
  predicate BucketExists(listed: Option<seq<Bucket>>): (b: bool)
    ensures b <==> listed.Some? && exists i :: 0 <= i < |listed.value| && listed.value[i].name == BucketName
  {
    listed.Some? && AnyNamed(listed.value, BucketName)
  }

  /** What `ensureStorageBucket` did: the calls it made and what it returned. */
  datatype BucketRun = BucketRun(requests: seq<Request>, ready: bool)

  /** `listed` is the `data` of `listBuckets()`; `createFails` is whether
      `createBucket` would answer with an error. */
  function EnsureStorageBucket(listed: Option<seq<Bucket>>, createFails: bool): (run: BucketRun)
    ensures run.requests == [ListBuckets] + (if BucketExists(listed) then [] else [CreateBucket(BucketName)])
    ensures !run.ready <==> !BucketExists(listed) && createFails
  {
    if BucketExists(listed) then BucketRun([ListBuckets], true)
    else BucketRun([ListBuckets, CreateBucket(BucketName)], !createFails)
  }

  /** The limit and the list `uploadImage` writes out again for itself. */
  const UploadSizeLimit := 5242880
  const UploadExtensions: seq<string> := ["jpg", "jpeg", "png", "gif", "webp"]

  /** The checks of `uploadImage`, in its order. */
  function UploadFileCheck(f: Storage.FileInfo): (c: Storage.Check)
    ensures c == Storage.Pass <==>
      StartsWith(f.mimeType, "image/") && f.size <= UploadSizeLimit &&
      ToLower(AfterLastDot(f.name)) in {"jpg", "jpeg", "png", "gif", "webp"}
  {
    if !StartsWith(f.mimeType, "image/") then Storage.Fail(Storage.NotAnImage)
    else if f.size > UploadSizeLimit then Storage.Fail(Storage.TooLarge)
    else
      var fileExt := ToLower(AfterLastDot(f.name));
      if fileExt == "" || fileExt !in UploadExtensions then Storage.Fail(Storage.InvalidType)
      else Storage.Pass
  }

  /** The copy agrees with `validateImageFile` on every file, down to which
      check fails first. */
  lemma UploadCheckMatchesValidator(f: Storage.FileInfo)
    ensures UploadFileCheck(f) == Storage.ValidateImageFile(f)
  {
  }

  /** `${Math.random()}.${fileExt}`, with `token` the rendered random number. */
  function UploadPath(token: string, name: string): (p: string)
    ensures StartsWith(p, token + ".")
    ensures EndsWith(p, "." + ToLower(AfterLastDot(name)))
    ensures AfterLastDot(p) == ToLower(AfterLastDot(name))
    ensures |p| == |token| + 1 + |ToLower(AfterLastDot(name))|
  {
    var ext := ToLower(AfterLastDot(name));
    ToLowerKeepsDots(AfterLastDot(name));
    AfterLastDotOfJoin(token, ext);
    token + "." + ext
  }

  /** The path of a file that passed the checks ends in one of the five
      extensions, lowercased, after a dot. */
  lemma UploadPathExtension(token: string, f: Storage.FileInfo)
    requires UploadFileCheck(f) == Storage.Pass
    ensures exists e :: e in UploadExtensions && EndsWith(UploadPath(token, f.name), "." + e)
  {
    var e := ToLower(AfterLastDot(f.name));
    assert e in UploadExtensions && EndsWith(UploadPath(token, f.name), "." + e);
  }

  /** What `uploadImage` did: the calls it made and the URL it returned, or `null`. */
  datatype UploadRun = UploadRun(requests: seq<Request>, url: Option<string>)

  /** `uploadImage(file)`. `token` stands for `Math.random()`, `uploadFails` for the
      storage answer, `publicUrl` for what `getPublicUrl` builds from the path. */
  function UploadImage(listed: Option<seq<Bucket>>, createFails: bool, f: Storage.FileInfo,
                       token: string, uploadFails: bool, publicUrl: string): (run: UploadRun)
    ensures run.url.Some? <==>
      EnsureStorageBucket(listed, createFails).ready && UploadFileCheck(f) == Storage.Pass && !uploadFails
    ensures run.url.Some? ==> run.url.value == publicUrl
    ensures run.requests == EnsureStorageBucket(listed, createFails).requests +
      (if EnsureStorageBucket(listed, createFails).ready && UploadFileCheck(f) == Storage.Pass
       then [StoreObject(BucketName, UploadPath(token, f.name))] else [])
  {
    var bucket := EnsureStorageBucket(listed, createFails);
    if !bucket.ready then UploadRun(bucket.requests, None)
    else if UploadFileCheck(f) != Storage.Pass then UploadRun(bucket.requests, None)
    else
      var requests := bucket.requests + [StoreObject(BucketName, UploadPath(token, f.name))];
      if uploadFails then UploadRun(requests, None) else UploadRun(requests, Some(publicUrl))
  }

  /** When the bucket is not ready the file is not looked at: the result is `null`
      and nothing is stored, whatever the file. */
  lemma BucketNotReadyIgnoresFile(listed: Option<seq<Bucket>>, createFails: bool,
                                  f: Storage.FileInfo, g: Storage.FileInfo,
                                  token: string, uploadFails: bool, publicUrl: string)
    requires !EnsureStorageBucket(listed, createFails).ready
    ensures UploadImage(listed, createFails, f, token, uploadFails, publicUrl)
         == UploadImage(listed, createFails, g, token, uploadFails, publicUrl)
    ensures UploadImage(listed, createFails, f, token, uploadFails, publicUrl).url == None
  {
  }
}
