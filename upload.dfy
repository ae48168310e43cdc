/** The upload middleware (server/middleware/upload.mjs): which files the
    multipart parser lets through, by form field and declared mimetype, and
    the one size limit it applies. */
module Upload {
  import opened Common

  const AllowedImageTypes: seq<string> := ["image/jpeg", "image/jpg", "image/png", "image/webp"]

  const AllowedFileTypes: seq<string> := [
    "application/pdf",
    "application/msword",
    "application/vnd.openxmlformats-officedocument.wordprocessingml.document"
  ]

  const ImageRejected := "Only JPG, JPEG, PNG, and WebP images are allowed"
  const FileRejected := "Only PDF and Word documents are allowed"

  /** The parser's `LIMIT_FILE_SIZE` error. */
  const FileTooLarge := "File too large"

  /** `limits.fileSize`: 50 MiB. */
  const MaxFileSize: nat := 50 * 1024 * 1024

  /** The one call `fileFilter` makes to its callback: `cb(error, accept)`. */
  datatype Callback = Callback(error: Option<string>, accept: bool)

  predicate IsImageField(fieldname: string) {
    fieldname == "image" || fieldname == "thumbnail"
  }

  /** `fileFilter`: images for the image fields, documents for `file`,
      anything for every other field. */
  function FileFilter(fieldname: string, mimetype: string): (cb: Callback)
    ensures cb.accept <==> cb.error.None?
    ensures IsImageField(fieldname) ==> (cb.accept <==> mimetype in AllowedImageTypes)
    ensures IsImageField(fieldname) && !cb.accept ==> cb.error == Some(ImageRejected)
    ensures fieldname == "file" ==> (cb.accept <==> mimetype in AllowedFileTypes)
    ensures fieldname == "file" && !cb.accept ==> cb.error == Some(FileRejected)
    ensures !IsImageField(fieldname) && fieldname != "file" ==> cb.accept
  {
    if IsImageField(fieldname) then
      if mimetype in AllowedImageTypes then Callback(None, true) else Callback(Some(ImageRejected), false)
    else if fieldname == "file" then
      if mimetype in AllowedFileTypes then Callback(None, true) else Callback(Some(FileRejected), false)
    else
      Callback(None, true)
  }

  /** Whether the parser keeps a file of `size` bytes from `fieldname`:
      the filter runs first, on the declared mimetype, and the size limit
      applies to what passes it. */
  function Admit(fieldname: string, mimetype: string, size: nat): (r: Result<(), string>)
    ensures r.Ok? <==> FileFilter(fieldname, mimetype).accept && size <= MaxFileSize
    ensures !FileFilter(fieldname, mimetype).accept ==> r == Err(FileFilter(fieldname, mimetype).error.value)
  {
    var cb := FileFilter(fieldname, mimetype);
    if !cb.accept then Err(cb.error.value)
    else if size > MaxFileSize then Err(FileTooLarge)
    else Ok(())
  }

  /** The size limit does not depend on the field: two files that pass the
      filter are kept or refused alike for the same size. */
  lemma SizeLimitIsUniform(f1: string, m1: string, f2: string, m2: string, size: nat)
    requires FileFilter(f1, m1).accept && FileFilter(f2, m2).accept
    ensures Admit(f1, m1, size) == Admit(f2, m2, size)
  {
  }

  /** The limit is inclusive at exactly 50 MiB, and a 5 MiB + 1 byte cover
      image passes: there is no smaller limit for thumbnails. */
  lemma SizeBoundary()
    ensures Admit("file", "application/pdf", 52428800).Ok?
    ensures Admit("file", "application/pdf", 52428801) == Err(FileTooLarge)
    ensures Admit("thumbnail", "image/png", 5 * 1024 * 1024 + 1).Ok?
  {
  }

  /** A text file offered as a thumbnail is refused with the image message
      before its size is considered. */
  lemma PlainTextThumbnailRefused(size: nat)
    ensures Admit("thumbnail", "text/plain", size) == Err(ImageRejected)
  {
    assert "text/plain" !in AllowedImageTypes;
  }
}
