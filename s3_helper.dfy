/** The object-store adapter of the server (server/utils/s3Helper.mjs):
    how object keys are named, how the parameters of a signed URL are built,
    and how failures of the store are reported. The store itself (signing,
    putting and deleting objects) is abstract: each is a function parameter,
    and the clock and random number that make keys unique are inputs. */
module S3Helper {
  import opened Common

  /** Expiry, in seconds, of every view URL the server hands out (24 hours). */
  const DefaultExpiry: int := 86400

  const UploadFailurePrefix := "Failed to upload to S3: "
  const DeleteFailurePrefix := "Failed to delete from S3: "

  // ---------------------------------------------------------------------
  // Object keys
  // ---------------------------------------------------------------------

  /** `Math.round(Math.random() * 1e9)`. */
  type RandomPart = r: nat | r <= 1_000_000_000

  /** `Date.now() + "-" + Math.round(Math.random() * 1e9)`. */
  function UniqueSuffix(timestamp: nat, random: RandomPart): string {
    Decimal(timestamp) + "-" + Decimal(random)
  }

  /** Images go under `blogs`, documents under `files`, anything else
      under `uploads`. */
  function Folder(fieldname: string): (folder: string)
    ensures folder == "blogs" <==> fieldname == "image" || fieldname == "thumbnail"
    ensures folder == "files" <==> fieldname == "file"
    ensures folder == "uploads" <==> fieldname !in {"image", "thumbnail", "file"}
  {
    if fieldname == "image" || fieldname == "thumbnail" then "blogs"
    else if fieldname == "file" then "files"
    else "uploads"
  }

  /** Index of the last occurrence of `c` in `s`, if any. */
  function LastIndex(s: string, c: char): (r: Option<nat>)
    ensures r.Some? ==> r.value < |s| && s[r.value] == c
    ensures r.Some? ==> forall j :: r.value < j < |s| ==> s[j] != c
    ensures r.None? ==> forall j :: 0 <= j < |s| ==> s[j] != c
  {
    if s == [] then None
    else if s[|s| - 1] == c then Some(|s| - 1)
    else LastIndex(s[..|s| - 1], c)
  }

  /** The path without the slashes that end it. */
  function TrimTrailingSlashes(path: string): (r: string)
    ensures r <= path
    ensures r != [] ==> r[|r| - 1] != '/'
    ensures forall j :: |r| <= j < |path| ==> path[j] == '/'
  {
    if path != [] && path[|path| - 1] == '/' then TrimTrailingSlashes(path[..|path| - 1])
    else path
  }

  /** The last component of a POSIX path. */
  function BaseName(path: string): (b: string)
    ensures forall j :: 0 <= j < |b| ==> b[j] != '/'
  {
    var t := TrimTrailingSlashes(path);
    match LastIndex(t, '/')
    case None => t
    case Some(k) => t[k + 1..]
  }

  /** Node's POSIX `path.extname`: the last component's text from its last
      dot, or nothing when it has no dot, when its only dot is its first
      character, or when it is `..`. */
  function ExtName(path: string): (ext: string)
    ensures ext == "" || ext[0] == '.'
    ensures forall j :: 1 <= j < |ext| ==> ext[j] != '.' && ext[j] != '/'
    ensures ext != "" ==> |ext| < |BaseName(path)| && ext == BaseName(path)[|BaseName(path)| - |ext|..]
    ensures ext != "" <==> BaseName(path) != ".." && exists d :: 0 < d < |BaseName(path)| && BaseName(path)[d] == '.'
  {
    var b := BaseName(path);
    match LastIndex(b, '.')
    case None => ""
    case Some(d) =>
      if d == 0 then
        assert forall j :: 0 < j < |b| ==> b[j] != '.';
        ""
      else if b == ".." then ""
      else b[d..]
  }

  /** `fieldname + "-" + uniqueSuffix + fileExtension`. */
  function ObjectFileName(fieldname: string, timestamp: nat, random: RandomPart, originalname: string): string {
    fieldname + "-" + UniqueSuffix(timestamp, random) + ExtName(originalname)
  }

  /** The key an upload is stored under: `folder/fileName`. */
  function ObjectKey(fieldname: string, timestamp: nat, random: RandomPart, originalname: string): (key: string)
    ensures KeyPrefix(fieldname) <= key
  {
    var key := Folder(fieldname) + "/" + ObjectFileName(fieldname, timestamp, random, originalname);
    ObjectKeyShape(fieldname, timestamp, random, originalname, key);
    key
  }

  /** What every key of an upload from `fieldname` starts with. */
  function KeyPrefix(fieldname: string): string {
    Folder(fieldname) + "/" + fieldname + "-"
  }

  lemma ObjectKeyShape(fieldname: string, timestamp: nat, random: RandomPart, originalname: string, key: string)
    requires key == Folder(fieldname) + "/" + ObjectFileName(fieldname, timestamp, random, originalname)
    ensures key == KeyPrefix(fieldname) + (Decimal(timestamp) + ("-" + (Decimal(random) + ExtName(originalname))))
    ensures KeyPrefix(fieldname) <= key
  {
    Regroup(Folder(fieldname), fieldname, Decimal(timestamp), Decimal(random), ExtName(originalname));
  }

  /** The concatenation in `ObjectKey`, regrouped around the key prefix. */
  lemma Regroup(folder: string, field: string, d: string, r: string, e: string)
    ensures folder + "/" + (field + "-" + (d + "-" + r) + e)
         == (folder + "/" + field + "-") + (d + ("-" + (r + e)))
  {
  }

  /** The length of the run of digits that starts `s`. */
  function DigitRun(s: string): (n: nat)
    ensures n <= |s|
  {
    if s != [] && IsDigit(s[0]) then 1 + DigitRun(s[1..]) else 0
  }

  lemma {:induction false} DigitRunAfter(a: string, x: string)
    requires forall i :: 0 <= i < |a| ==> IsDigit(a[i])
    requires x == "" || !IsDigit(x[0])
    ensures DigitRun(a + x) == |a|
  {
    if a != [] {
      assert (a + x)[1..] == a[1..] + x;
      DigitRunAfter(a[1..], x);
    } else {
      assert a + x == x;
    }
  }

  /** Two runs of digits each followed by text that is empty or does not
      start with a digit can be told apart where the digits end. */
  lemma SplitAfterDigits(a: string, x: string, b: string, y: string)
    requires forall i :: 0 <= i < |a| ==> IsDigit(a[i])
    requires forall i :: 0 <= i < |b| ==> IsDigit(b[i])
    requires x == "" || !IsDigit(x[0])
    requires y == "" || !IsDigit(y[0])
    requires a + x == b + y
    ensures a == b && x == y
  {
    DigitRunAfter(a, x);
    DigitRunAfter(b, y);
    assert a == (a + x)[..|a|] && b == (b + y)[..|b|];
    assert x == (a + x)[|a|..] && y == (b + y)[|b|..];
  }

  /** For one field name, the key determines the timestamp, the random part
      and the extension: uploads that differ in any of them never share a
      key. */
  lemma ObjectKeyInjective(fieldname: string, t1: nat, r1: RandomPart, n1: string, t2: nat, r2: RandomPart, n2: string)
    requires ObjectKey(fieldname, t1, r1, n1) == ObjectKey(fieldname, t2, r2, n2)
    ensures t1 == t2 && r1 == r2 && ExtName(n1) == ExtName(n2)
  {
    var e1, e2 := ExtName(n1), ExtName(n2);
    var d1, d2 := Decimal(t1), Decimal(t2);
    var x1, x2 := "-" + (Decimal(r1) + e1), "-" + (Decimal(r2) + e2);
    ObjectKeyShape(fieldname, t1, r1, n1, ObjectKey(fieldname, t1, r1, n1));
    ObjectKeyShape(fieldname, t2, r2, n2, ObjectKey(fieldname, t2, r2, n2));
    CancelPrefix(KeyPrefix(fieldname), d1 + x1, d2 + x2);
    SplitAfterDigits(d1, x1, d2, x2);
    DecimalInjective(t1, t2);
    CancelPrefix("-", Decimal(r1) + e1, Decimal(r2) + e2);
    SplitAfterDigits(Decimal(r1), e1, Decimal(r2), e2);
    DecimalInjective(r1, r2);
  }

  lemma CancelPrefix(p: string, u: string, v: string)
    requires p + u == p + v
    ensures u == v
  {
    assert u == (p + u)[|p|..] && v == (p + v)[|p|..];
  }

  // ---------------------------------------------------------------------
  // Signed URLs
  // ---------------------------------------------------------------------

  /** The parameters handed to the signer besides the configured bucket:
      `Key`, `Expires` and, when present, `ResponseContentDisposition`. */
  datatype SignParams = SignParams(key: string, expires: int, disposition: Option<string>)

  /** `s3.getSignedUrl("getObject", params)` against the configured bucket. */
  type Signer = SignParams -> string

  /** The parameter record `getSignedUrl` builds: the download header is
      added exactly when a download is forced and a filename is given. */
  function SignedUrlParams(key: string, expires: int := DefaultExpiry, forceDownload: bool := false,
                           filename: Option<string> := None): (p: SignParams)
    ensures p.key == key && p.expires == expires
    ensures p.disposition.Some? <==> forceDownload && Truthy(filename)
    ensures p.disposition.Some? ==> p.disposition.value == "attachment; filename=\"" + filename.value + "\""
  {
    var disposition := if forceDownload && Truthy(filename)
                       then Some("attachment; filename=\"" + filename.value + "\"")
                       else None;
    SignParams(key, expires, disposition)
  }

  /** `getSignedUrl(key, expires = 86400, forceDownload = false, filename = null)`. */
  function GetSignedUrl(sign: Signer, key: string, expires: int := DefaultExpiry, forceDownload: bool := false,
                        filename: Option<string> := None): (url: string)
    ensures !(forceDownload && Truthy(filename)) ==> url == sign(SignParams(key, expires, None))
    ensures forceDownload && Truthy(filename) ==>
              url == sign(SignParams(key, expires, Some("attachment; filename=\"" + filename.value + "\"")))
  {
    sign(SignedUrlParams(key, expires, forceDownload, filename))
  }

  /** With the defaults, the signer is asked for a 24-hour view URL of the
      key and nothing else. */
  lemma DefaultSignedUrlIsView(key: string)
    ensures SignedUrlParams(key) == SignParams(key, 86400, None)
    ensures SignedUrlParams(key, DefaultExpiry, false, Some("x.pdf")).disposition == None
  {
  }

  // ---------------------------------------------------------------------
  // Upload and delete
  // ---------------------------------------------------------------------

  /** `uploadParams` without the bucket. */
  datatype UploadRequest = UploadRequest(key: string, body: seq<bv8>, contentType: string)

  /** What the store reports after a successful upload. */
  datatype StoredObject = StoredObject(key: string, bucket: string, etag: string, location: string)

  datatype UploadResult = UploadResult(location: string, key: string, bucket: string, etag: string,
                                       originalLocation: string)

  /** The store's upload: the stored object, or the failure's message. */
  type Put = UploadRequest -> Result<StoredObject, string>

  /** The store's delete: nothing, or the failure's message. */
  type Remove = string -> Result<(), string>

  /** `uploadToS3`: store the buffer under a fresh key with its content type,
      then sign a 24-hour view URL for the key the store reports. */
  function UploadToS3(sign: Signer, put: Put, fileBuffer: seq<bv8>, originalname: string, mimetype: string,
                      fieldname: string, timestamp: nat, random: RandomPart): (r: Result<UploadResult, string>)
    ensures var sent := put(UploadRequest(ObjectKey(fieldname, timestamp, random, originalname), fileBuffer, mimetype));
      && (r.Ok? <==> sent.Ok?)
      && (r.Ok? ==> r.value.key == sent.value.key
                    && r.value.location == sign(SignParams(sent.value.key, 86400, None))
                    && r.value.bucket == sent.value.bucket && r.value.etag == sent.value.etag
                    && r.value.originalLocation == sent.value.location)
      && (r.Err? ==> r.error == UploadFailurePrefix + sent.error)
  {
    var key := ObjectKey(fieldname, timestamp, random, originalname);
    match put(UploadRequest(key, fileBuffer, mimetype))
    case Err(message) => Err(UploadFailurePrefix + message)
    case Ok(stored) =>
      Ok(UploadResult(GetSignedUrl(sign, stored.key, 86400), stored.key, stored.bucket, stored.etag, stored.location))
  }

  /** `deleteFromS3`: the store's failure is rethrown with context. */
  function DeleteFromS3(remove: Remove, key: string): (r: Result<(), string>)
    ensures r.Ok? <==> remove(key).Ok?
    ensures r.Err? ==> r.error == DeleteFailurePrefix + remove(key).error
  {
    match remove(key)
    case Ok(_) => Ok(())
    case Err(message) => Err(DeleteFailurePrefix + message)
  }
}
