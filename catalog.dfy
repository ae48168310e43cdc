/** The textbook catalog of the server (server/controllers/textbook.mjs):
    creating, listing, finding, updating and deleting textbook records.
    The textbook collection is a sequence of records held by a store
    object; every read path re-signs the records' asset URLs. */
module Catalog {
  import opened Common
  import opened Api
  import S3Helper

  /** A stored textbook document. `isbn`, `thumbnailKey` and
      `thumbnailName` are optional in the schema; `createdAt` is the
      timestamp the schema's `timestamps` option adds. */
  datatype Textbook = Textbook(
    id: string,
    title: string,
    description: string,
    author: string,
    price: int,
    coverImage: string,
    pdfUrl: string,
    lecturerId: string,
    lecturerName: string,
    category: string,
    isbn: Option<string>,
    fileKey: string,
    fileName: string,
    thumbnailKey: Option<string>,
    thumbnailName: Option<string>,
    createdAt: int)

  const MissingFields := "Please provide all required fields"
  const OnlyLecturers := "Only lecturers can create textbooks"
  const TextbookNotFound := "Textbook not found"
  const SaveRejected := "Textbook validation failed"

  /** The schema's `required` string fields are non-empty (a Number field
      is always present here). */
  predicate SchemaValid(t: Textbook) {
    && t.title != "" && t.description != "" && t.author != ""
    && t.coverImage != "" && t.pdfUrl != "" && t.lecturerId != ""
    && t.lecturerName != "" && t.category != "" && t.fileKey != "" && t.fileName != ""
  }

  /** No two records share an id. */
  predicate UniqueIds(ts: seq<Textbook>) {
    forall i, j :: 0 <= i < j < |ts| ==> ts[i].id != ts[j].id
  }

  /** `Textbook.findById(id)`: the position of the first record with `id`. */
  function FindIndex(ts: seq<Textbook>, id: string): (r: Option<nat>)
    ensures r.Some? ==> r.value < |ts| && ts[r.value].id == id
    ensures r.Some? ==> forall j :: 0 <= j < r.value ==> ts[j].id != id
    ensures r.None? <==> forall j :: 0 <= j < |ts| ==> ts[j].id != id
  {
    if ts == [] then None
    else if ts[0].id == id then Some(0)
    else match FindIndex(ts[1..], id)
      case None => None
      case Some(k) => Some(k + 1)
  }

  /** With unique ids, the record `findById` finds is the only one with that id. */
  lemma FindIndexUnique(ts: seq<Textbook>, id: string, j: nat)
    requires UniqueIds(ts)
    requires j < |ts| && ts[j].id == id
    ensures FindIndex(ts, id) == Some(j)
  {
  }

  // ---------------------------------------------------------------------
  // createTextbook
  // ---------------------------------------------------------------------

  /** The request body of `createTextbook`; a missing key is `None`. */
  datatype TextbookBody = TextbookBody(
    title: Option<string>,
    description: Option<string>,
    author: Option<string>,
    price: Option<int>,
    coverImage: Option<string>,
    pdfUrl: Option<string>,
    lecturerId: Option<string>,
    lecturerName: Option<string>,
    category: Option<string>,
    isbn: Option<string>,
    fileKey: Option<string>,
    fileName: Option<string>,
    thumbnailKey: Option<string>,
    thumbnailName: Option<string>)

  /** Every field the handler tests is truthy: a price of 0 is falsy, and
      `isbn`, `thumbnailKey`, `thumbnailName` are not tested. */
  predicate HasRequiredFields(b: TextbookBody) {
    && Truthy(b.title) && Truthy(b.description) && Truthy(b.author)
    && b.price.Some? && b.price.value != 0
    && Truthy(b.coverImage) && Truthy(b.pdfUrl) && Truthy(b.lecturerId)
    && Truthy(b.lecturerName) && Truthy(b.category) && Truthy(b.fileKey) && Truthy(b.fileName)
  }

  /** The guards of `createTextbook`, in order: missing fields, then role. */
  function CheckCreate(caller: Principal, body: TextbookBody): (r: Option<ApiError>)
    ensures r.None? <==> HasRequiredFields(body) && caller.role == Lecturer
    ensures !HasRequiredFields(body) ==> r == Some(BadRequest(MissingFields))
    ensures HasRequiredFields(body) && caller.role != Lecturer ==> r == Some(Forbidden(OnlyLecturers))
  {
    if !HasRequiredFields(body) then Some(BadRequest(MissingFields))
    else if caller.role != Lecturer then Some(Forbidden(OnlyLecturers))
    else None
  }

  /** The document `new Textbook({...})` saves: the body's values as given,
      under the id and timestamp the database assigns. */
  function NewRecord(body: TextbookBody, id: string, now: int): (t: Textbook)
    requires HasRequiredFields(body)
    ensures SchemaValid(t) && t.id == id
    ensures t.lecturerId == body.lecturerId.value && t.fileKey == body.fileKey.value
    ensures t.thumbnailKey == body.thumbnailKey && t.price == body.price.value
    ensures && t.title == body.title.value && t.description == body.description.value
            && t.author == body.author.value && t.coverImage == body.coverImage.value
            && t.pdfUrl == body.pdfUrl.value && t.lecturerName == body.lecturerName.value
            && t.category == body.category.value && t.fileName == body.fileName.value
    ensures t.isbn == body.isbn && t.thumbnailName == body.thumbnailName && t.createdAt == now
  {
    Textbook(id, body.title.value, body.description.value, body.author.value, body.price.value,
             body.coverImage.value, body.pdfUrl.value, body.lecturerId.value, body.lecturerName.value,
             body.category.value, body.isbn, body.fileKey.value, body.fileName.value,
             body.thumbnailKey, body.thumbnailName, now)
  }

  // ---------------------------------------------------------------------
  // Read paths: filtering and URL enrichment
  // ---------------------------------------------------------------------

  /** A fresh 24-hour view URL for `key`. */
  function ViewUrl(sign: S3Helper.Signer, key: string): string {
    S3Helper.GetSignedUrl(sign, key, S3Helper.DefaultExpiry, false)
  }

  /** The record as a read path returns it: `pdfUrl` re-signed from
      `fileKey` and `coverImage` from `thumbnailKey` when that key is
      truthy; everything else as stored. */
  function Enrich(sign: S3Helper.Signer, t: Textbook): (e: Textbook)
    ensures e.pdfUrl == if t.fileKey != "" then sign(S3Helper.SignParams(t.fileKey, 86400, None)) else t.pdfUrl
    ensures e.coverImage == if Truthy(t.thumbnailKey) then sign(S3Helper.SignParams(t.thumbnailKey.value, 86400, None))
                            else t.coverImage
    ensures e.(pdfUrl := t.pdfUrl, coverImage := t.coverImage) == t
    ensures e.id == t.id && e.lecturerId == t.lecturerId && e.category == t.category
  {
    var withPdf := if t.fileKey != "" then t.(pdfUrl := ViewUrl(sign, t.fileKey)) else t;
    if Truthy(t.thumbnailKey) then withPdf.(coverImage := ViewUrl(sign, t.thumbnailKey.value)) else withPdf
  }

  /** Re-signing an already enriched record gives the same record. */
  lemma EnrichIdempotent(sign: S3Helper.Signer, t: Textbook)
    ensures Enrich(sign, Enrich(sign, t)) == Enrich(sign, t)
  {
  }

  /** For a stored record the URLs saved at creation never reach the
      client: two records that differ only in them read back alike, and
      the PDF URL is always the fresh signature of `fileKey`. */
  lemma StoredUrlsAreDiscarded(sign: S3Helper.Signer, t: Textbook, pdfUrl: string, coverImage: string)
    requires SchemaValid(t) && Truthy(t.thumbnailKey)
    ensures Enrich(sign, t.(pdfUrl := pdfUrl, coverImage := coverImage)) == Enrich(sign, t)
    ensures Enrich(sign, t).pdfUrl == sign(S3Helper.SignParams(t.fileKey, 86400, None))
  {
  }

  /** `textbooks.map(...)`: one enriched record per record, in order. */
  function EnrichAll(sign: S3Helper.Signer, ts: seq<Textbook>): (r: seq<Textbook>)
    ensures |r| == |ts|
    ensures forall i :: 0 <= i < |ts| ==> r[i] == Enrich(sign, ts[i])
  {
    Map(ts, (t: Textbook) => Enrich(sign, t))
  }

  /** The query string of `getAllTextbooks`; an absent parameter is `None`. */
  datatype Query = Query(category: Option<string>, lecturerId: Option<string>, search: Option<string>)

  /** The `$regex` search with option `i` on title or author, for a search
      text without regular-expression metacharacters. */
  predicate MatchesSearch(t: Textbook, search: string) {
    Contains(Lower(t.title), Lower(search)) || Contains(Lower(t.author), Lower(search))
  }

  /** The Mongo query `getAllTextbooks` builds: each truthy parameter adds
      one condition. */
  predicate Matches(q: Query, t: Textbook) {
    && (Truthy(q.category) ==> t.category == q.category.value)
    && (Truthy(q.lecturerId) ==> t.lecturerId == q.lecturerId.value)
    && (Truthy(q.search) ==> MatchesSearch(t, q.search.value))
  }

  /** `getAllTextbooks`: the matching records, in stored order, enriched. */
  function GetAllTextbooks(sign: S3Helper.Signer, docs: seq<Textbook>, q: Query): (r: seq<Textbook>)
    ensures |r| == |Filter(docs, (t: Textbook) => Matches(q, t))| <= |docs|
    ensures forall t :: t in docs && Matches(q, t) ==> Enrich(sign, t) in r
    ensures forall i :: 0 <= i < |r| ==> EnrichedFrom(sign, r[i], docs, (t: Textbook) => Matches(q, t))
  {
    var matched := Filter(docs, (t: Textbook) => Matches(q, t));
    EnrichAllMembers(sign, matched);
    EnrichedComeFrom(sign, matched, docs, (t: Textbook) => Matches(q, t));
    EnrichAll(sign, matched)
  }

  /** `e` is how a read path returns some record of `docs` that passes `p`. */
  ghost predicate EnrichedFrom(sign: S3Helper.Signer, e: Textbook, docs: seq<Textbook>, p: Textbook -> bool) {
    exists t :: t in docs && p(t) && e == Enrich(sign, t)
  }

  /** Each enriched record of a filtered list is the enrichment of a record
      of the original list that passes the filter. */
  lemma EnrichedComeFrom(sign: S3Helper.Signer, matched: seq<Textbook>, docs: seq<Textbook>, p: Textbook -> bool)
    requires forall t :: t in matched ==> t in docs && p(t)
    ensures forall i :: 0 <= i < |matched| ==> EnrichedFrom(sign, EnrichAll(sign, matched)[i], docs, p)
  {
    forall i | 0 <= i < |matched| ensures EnrichedFrom(sign, EnrichAll(sign, matched)[i], docs, p) {
      assert matched[i] in matched;
    }
  }

  /** Every record of the list is there enriched. */
  lemma EnrichAllMembers(sign: S3Helper.Signer, s: seq<Textbook>)
    ensures forall t :: t in s ==> Enrich(sign, t) in EnrichAll(sign, s)
  {
    var r := EnrichAll(sign, s);
    forall t | t in s ensures Enrich(sign, t) in r {
      var i :| 0 <= i < |s| && s[i] == t;
      assert r[i] == Enrich(sign, t);
    }
  }

  /** With no parameter (or only empty ones) every record is listed, in order. */
  lemma UnfilteredListIsWholeCatalog(sign: S3Helper.Signer, docs: seq<Textbook>, q: Query)
    requires !Truthy(q.category) && !Truthy(q.lecturerId) && !Truthy(q.search)
    ensures GetAllTextbooks(sign, docs, q) == EnrichAll(sign, docs)
  {
    FilterAll(docs, (t: Textbook) => Matches(q, t));
  }

  /** An empty search text matches every record. */
  lemma EmptySearchMatchesAll(t: Textbook)
    ensures MatchesSearch(t, "")
  {
    ContainsEmpty(Lower(t.title));
  }

  /** `getTextbooksByLecturer`: that lecturer's records, enriched. */
  function GetTextbooksByLecturer(sign: S3Helper.Signer, docs: seq<Textbook>, lecturerId: string): (r: seq<Textbook>)
    ensures |r| == |Filter(docs, (t: Textbook) => t.lecturerId == lecturerId)| <= |docs|
    ensures forall i :: 0 <= i < |r| ==> r[i].lecturerId == lecturerId
    ensures forall t :: t in docs && t.lecturerId == lecturerId ==> Enrich(sign, t) in r
  {
    var mine := Filter(docs, (t: Textbook) => t.lecturerId == lecturerId);
    assert forall i :: 0 <= i < |mine| ==> mine[i] in mine;
    EnrichAllMembers(sign, mine);
    EnrichAll(sign, mine)
  }

  /** `getTextbooksByCategory`: the records of that category, enriched. */
  function GetTextbooksByCategory(sign: S3Helper.Signer, docs: seq<Textbook>, category: string): (r: seq<Textbook>)
    ensures |r| == |Filter(docs, (t: Textbook) => t.category == category)| <= |docs|
    ensures forall i :: 0 <= i < |r| ==> r[i].category == category
    ensures forall t :: t in docs && t.category == category ==> Enrich(sign, t) in r
  {
    var matched := Filter(docs, (t: Textbook) => t.category == category);
    assert forall i :: 0 <= i < |matched| ==> matched[i] in matched;
    EnrichAllMembers(sign, matched);
    EnrichAll(sign, matched)
  }

  /** Enriching distributes over concatenation. */
  lemma EnrichAllAppend(sign: S3Helper.Signer, a: seq<Textbook>, b: seq<Textbook>)
    ensures EnrichAll(sign, a + b) == EnrichAll(sign, a) + EnrichAll(sign, b)
  {
    var l, r := EnrichAll(sign, a + b), EnrichAll(sign, a) + EnrichAll(sign, b);
    forall i | 0 <= i < |l| ensures l[i] == r[i] {
      if i < |a| { assert (a + b)[i] == a[i]; } else { assert (a + b)[i] == b[i - |a|]; }
    }
  }

  /** The general list keeps stored order and lists each record at most
      once: listing two parts of the catalog one after the other is listing
      the whole, and a single record is listed once, enriched, exactly when
      it matches. Together these fix the list of every catalog. */
  lemma ListKeepsOrder(sign: S3Helper.Signer, front: seq<Textbook>, back: seq<Textbook>, q: Query, t: Textbook)
    ensures GetAllTextbooks(sign, front + back, q) == GetAllTextbooks(sign, front, q) + GetAllTextbooks(sign, back, q)
    ensures GetAllTextbooks(sign, [t], q) == if Matches(q, t) then [Enrich(sign, t)] else []
  {
    var p := (x: Textbook) => Matches(q, x);
    FilterAppend(front, back, p);
    EnrichAllAppend(sign, Filter(front, p), Filter(back, p));
    assert [t][1..] == [];
  }

  /** The lecturer and category routes keep stored order in the same way. */
  lemma RouteListsKeepOrder(sign: S3Helper.Signer, front: seq<Textbook>, back: seq<Textbook>,
                            lecturerId: string, category: string, t: Textbook)
    ensures GetTextbooksByLecturer(sign, front + back, lecturerId)
         == GetTextbooksByLecturer(sign, front, lecturerId) + GetTextbooksByLecturer(sign, back, lecturerId)
    ensures GetTextbooksByCategory(sign, front + back, category)
         == GetTextbooksByCategory(sign, front, category) + GetTextbooksByCategory(sign, back, category)
    ensures GetTextbooksByLecturer(sign, [t], lecturerId) == if t.lecturerId == lecturerId then [Enrich(sign, t)] else []
    ensures GetTextbooksByCategory(sign, [t], category) == if t.category == category then [Enrich(sign, t)] else []
  {
    var byLecturer := (x: Textbook) => x.lecturerId == lecturerId;
    var byCategory := (x: Textbook) => x.category == category;
    FilterAppend(front, back, byLecturer);
    EnrichAllAppend(sign, Filter(front, byLecturer), Filter(back, byLecturer));
    FilterAppend(front, back, byCategory);
    EnrichAllAppend(sign, Filter(front, byCategory), Filter(back, byCategory));
    assert [t][1..] == [];
  }

  /** The lecturer route lists what the general list does when asked for
      the same lecturer, and likewise for a category. */
  lemma RouteListsAgreeWithQuery(sign: S3Helper.Signer, docs: seq<Textbook>, lecturerId: string, category: string)
    requires lecturerId != "" && category != ""
    ensures GetTextbooksByLecturer(sign, docs, lecturerId) == GetAllTextbooks(sign, docs, Query(None, Some(lecturerId), None))
    ensures GetTextbooksByCategory(sign, docs, category) == GetAllTextbooks(sign, docs, Query(Some(category), None, None))
  {
    FilterCongruent(docs, (t: Textbook) => t.lecturerId == lecturerId,
                    (t: Textbook) => Matches(Query(None, Some(lecturerId), None), t));
    FilterCongruent(docs, (t: Textbook) => t.category == category,
                    (t: Textbook) => Matches(Query(Some(category), None, None), t));
  }

  /** `getTextbookById`: 404 when no record has the id, else that record enriched. */
  function GetTextbookById(sign: S3Helper.Signer, docs: seq<Textbook>, id: string): (r: Result<Textbook, ApiError>)
    ensures r.Err? <==> forall j :: 0 <= j < |docs| ==> docs[j].id != id
    ensures r.Err? ==> r.error == NotFound(TextbookNotFound)
    ensures r.Ok? ==> exists j :: 0 <= j < |docs| && docs[j].id == id && r.value == Enrich(sign, docs[j])
  {
    match FindIndex(docs, id)
    case None => Err(NotFound(TextbookNotFound))
    case Some(j) => Ok(Enrich(sign, docs[j]))
  }

  // ---------------------------------------------------------------------
  // updateTextbook: field-by-field assignment
  // ---------------------------------------------------------------------

  /** A key of the update body. Keys the schema does not define (or does
      not let a client set) are dropped by the document. */
  datatype Field =
    | Title | Description | Author | Price | CoverImage | PdfUrl | LecturerId | LecturerName
    | Category | Isbn | FileKey | FileName | ThumbnailKey | ThumbnailName
    | NotInSchema(name: string)

  /** A JSON value of the update body. */
  datatype Value = Str(s: string) | Num(n: int) | Null

  /** Whether the document can cast `v` for `f` at save time: a number for
      the price; a string or a number (cast to its text) for a string
      field; and also null for an optional field. A null in a required
      field fails the save as well, by the `required` validator. Dropped
      keys accept anything. */
  predicate Fits(f: Field, v: Value) {
    match f
    case Price => v.Num?
    case Isbn => true
    case ThumbnailKey => true
    case ThumbnailName => true
    case NotInSchema(_) => true
    case _ => !v.Null?
  }

  predicate AllFit(updates: map<Field, Value>) {
    forall f :: f in updates ==> Fits(f, updates[f])
  }

  /** Mongoose's cast of a value to a String path: a number becomes its text. */
  function Text(v: Value): (s: string)
    requires !v.Null?
    ensures v.Str? ==> s == v.s
    ensures v.Num? ==> s == IntText(v.n)
  {
    if v.Str? then v.s else IntText(v.n)
  }

  function OptionValue(o: Option<string>): Value {
    if o.Some? then Str(o.value) else Null
  }

  function ValueOption(v: Value): Option<string> {
    if v.Null? then None else Some(Text(v))
  }

  /** The value a document holds under `f` (`Null` for a dropped key). */
  function Get(t: Textbook, f: Field): Value {
    match f
    case Title => Str(t.title)
    case Description => Str(t.description)
    case Author => Str(t.author)
    case Price => Num(t.price)
    case CoverImage => Str(t.coverImage)
    case PdfUrl => Str(t.pdfUrl)
    case LecturerId => Str(t.lecturerId)
    case LecturerName => Str(t.lecturerName)
    case Category => Str(t.category)
    case Isbn => OptionValue(t.isbn)
    case FileKey => Str(t.fileKey)
    case FileName => Str(t.fileName)
    case ThumbnailKey => OptionValue(t.thumbnailKey)
    case ThumbnailName => OptionValue(t.thumbnailName)
    case NotInSchema(_) => Null
  }

  /** What reading `f` gives after `textbook[f] = v`: nothing for a dropped
      key, the text of a number for a string field, else `v` itself. */
  function Stored(f: Field, v: Value): Value {
    if f.NotInSchema? then Null
    else if f != Price && v.Num? then Str(IntText(v.n))
    else v
  }

  /** `textbook[key] = value` for a value the field accepts. */
  function Set(t: Textbook, f: Field, v: Value): (u: Textbook)
    requires Fits(f, v)
    ensures u.id == t.id && u.createdAt == t.createdAt
    ensures forall g :: Get(u, g) == if g == f then Stored(f, v) else Get(t, g)
  {
    match f
    case Title => t.(title := Text(v))
    case Description => t.(description := Text(v))
    case Author => t.(author := Text(v))
    case Price => t.(price := v.n)
    case CoverImage => t.(coverImage := Text(v))
    case PdfUrl => t.(pdfUrl := Text(v))
    case LecturerId => t.(lecturerId := Text(v))
    case LecturerName => t.(lecturerName := Text(v))
    case Category => t.(category := Text(v))
    case Isbn => t.(isbn := ValueOption(v))
    case FileKey => t.(fileKey := Text(v))
    case FileName => t.(fileName := Text(v))
    case ThumbnailKey => t.(thumbnailKey := ValueOption(v))
    case ThumbnailName => t.(thumbnailName := ValueOption(v))
    case NotInSchema(_) => t
  }

  /** Reading every field, with the id and timestamp, determines a record. */
  lemma GetDetermines(a: Textbook, b: Textbook)
    requires a.id == b.id && a.createdAt == b.createdAt
    requires forall f :: Get(a, f) == Get(b, f)
    ensures a == b
  {
    assert Get(a, Title) == Get(b, Title) && Get(a, Description) == Get(b, Description);
    assert Get(a, Author) == Get(b, Author) && Get(a, Price) == Get(b, Price);
    assert Get(a, CoverImage) == Get(b, CoverImage) && Get(a, PdfUrl) == Get(b, PdfUrl);
    assert Get(a, LecturerId) == Get(b, LecturerId) && Get(a, LecturerName) == Get(b, LecturerName);
    assert Get(a, Category) == Get(b, Category) && Get(a, Isbn) == Get(b, Isbn);
    assert Get(a, FileKey) == Get(b, FileKey) && Get(a, FileName) == Get(b, FileName);
    assert Get(a, ThumbnailKey) == Get(b, ThumbnailKey) && Get(a, ThumbnailName) == Get(b, ThumbnailName);
  }

  /** The record `updateTextbook` saves, defined field by field. */
  function Patched(t: Textbook, u: map<Field, Value>): (p: Textbook)
    requires AllFit(u)
  {
    t.(
      title := if Title in u then Text(u[Title]) else t.title,
      description := if Description in u then Text(u[Description]) else t.description,
      author := if Author in u then Text(u[Author]) else t.author,
      price := if Price in u then u[Price].n else t.price,
      coverImage := if CoverImage in u then Text(u[CoverImage]) else t.coverImage,
      pdfUrl := if PdfUrl in u then Text(u[PdfUrl]) else t.pdfUrl,
      lecturerId := if LecturerId in u then Text(u[LecturerId]) else t.lecturerId,
      lecturerName := if LecturerName in u then Text(u[LecturerName]) else t.lecturerName,
      category := if Category in u then Text(u[Category]) else t.category,
      isbn := if Isbn in u then ValueOption(u[Isbn]) else t.isbn,
      fileKey := if FileKey in u then Text(u[FileKey]) else t.fileKey,
      fileName := if FileName in u then Text(u[FileName]) else t.fileName,
      thumbnailKey := if ThumbnailKey in u then ValueOption(u[ThumbnailKey]) else t.thumbnailKey,
      thumbnailName := if ThumbnailName in u then ValueOption(u[ThumbnailName]) else t.thumbnailName)
  }

  /** The update holds the cast value under each key present in the body
      and the old value under every other key, and keeps the id and the
      timestamp. */
  lemma PatchedOverwritesExactlyGivenKeys(t: Textbook, u: map<Field, Value>, f: Field)
    requires AllFit(u)
    ensures Get(Patched(t, u), f) == if f in u then Stored(f, u[f]) else Get(t, f)
    ensures Patched(t, u).id == t.id && Patched(t, u).createdAt == t.createdAt
  {
  }

  /** A number sent for a string field is saved as its text: an update of
      the ISBN with a number stores that number's digits. */
  lemma NumberIsbnIsStoredAsText(t: Textbook, n: nat)
    ensures Patched(t, map[Isbn := Num(n)]).isbn == Some(Decimal(n))
    ensures SchemaValid(t) ==> SchemaValid(Patched(t, map[Title := Num(n)]))
  {
  }

  // ---------------------------------------------------------------------
  // deleteTextbook: best-effort asset cleanup
  // ---------------------------------------------------------------------

  /** The keys `deleteFromS3` is called with, in order. A failure ends the
      `try` block, so the thumbnail is not tried after the PDF failed. */
  function AssetDeletions(t: Textbook, remove: S3Helper.Remove): (attempted: seq<string>)
    ensures t.fileKey == "" ==> attempted == if Truthy(t.thumbnailKey) then [t.thumbnailKey.value] else []
    ensures t.fileKey != "" ==> attempted == [t.fileKey] + if Truthy(t.thumbnailKey) && remove(t.fileKey).Ok?
                                                          then [t.thumbnailKey.value] else []
  {
    var pdf := if t.fileKey != "" then [t.fileKey] else [];
    if t.fileKey != "" && S3Helper.DeleteFromS3(remove, t.fileKey).Err? then pdf
    else pdf + (if Truthy(t.thumbnailKey) then [t.thumbnailKey.value] else [])
  }

  /** Removing the one record with a given id is filtering it out. */
  lemma RemoveIsFilter(ts: seq<Textbook>, i: nat)
    requires UniqueIds(ts) && i < |ts|
    ensures Filter(ts, (t: Textbook) => t.id != ts[i].id) == ts[..i] + ts[i + 1..]
  {
    var p := (t: Textbook) => t.id != ts[i].id;
    assert forall j :: 0 <= j < |ts| && j != i ==> p(ts[j]) by {
      forall j | 0 <= j < |ts| && j != i ensures p(ts[j]) {
        if j < i { assert ts[j].id != ts[i].id; } else { assert ts[i].id != ts[j].id; }
      }
    }
    FilterDropsOne(ts, i, p);
  }

  /** Filtering keeps the ids unique. */
  lemma {:induction false} FilterKeepsUniqueIds(ts: seq<Textbook>, p: Textbook -> bool)
    requires UniqueIds(ts)
    ensures UniqueIds(Filter(ts, p))
  {
    if ts != [] {
      var rest := Filter(ts[1..], p);
      assert UniqueIds(ts[1..]) by {
        forall i, j | 0 <= i < j < |ts[1..]| ensures ts[1..][i].id != ts[1..][j].id {
          assert ts[1..][i] == ts[i + 1] && ts[1..][j] == ts[j + 1];
        }
      }
      FilterKeepsUniqueIds(ts[1..], p);
      if p(ts[0]) {
        var r := [ts[0]] + rest;
        forall i, j | 0 <= i < j < |r| ensures r[i].id != r[j].id {
          if i == 0 {
            assert r[j] in ts[1..];
            var k :| 0 <= k < |ts[1..]| && ts[1..][k] == r[j];
            assert ts[k + 1] == r[j];
          } else {
            assert r[i] == rest[i - 1] && r[j] == rest[j - 1];
          }
        }
      }
    }
  }

  /** Removing a record keeps the ids unique. */
  lemma RemoveKeepsUniqueIds(ts: seq<Textbook>, i: nat)
    requires UniqueIds(ts) && i < |ts|
    ensures UniqueIds(ts[..i] + ts[i + 1..])
  {
    var r := ts[..i] + ts[i + 1..];
    forall a, b | 0 <= a < b < |r| ensures r[a].id != r[b].id {
      var a', b' := if a < i then a else a + 1, if b < i then b else b + 1;
      assert r[a] == ts[a'] && r[b] == ts[b'];
    }
  }

  /** `doc` is `orig` after assigning every key of `u` outside `pending`
      whose value fits; the id and the timestamp are kept. */
  ghost predicate AssignedExcept(orig: Textbook, doc: Textbook, u: map<Field, Value>, pending: set<Field>) {
    && doc.id == orig.id && doc.createdAt == orig.createdAt
    && forall f :: Get(doc, f) == if f in u && f !in pending && Fits(f, u[f]) then Stored(f, u[f]) else Get(orig, f)
  }

  /** One step of the assignment loop. */
  lemma AssignStep(orig: Textbook, doc: Textbook, u: map<Field, Value>, pending: set<Field>, k: Field)
    requires AssignedExcept(orig, doc, u, pending) && k in pending && k in u
    ensures Fits(k, u[k]) ==> AssignedExcept(orig, Set(doc, k, u[k]), u, pending - {k})
    ensures !Fits(k, u[k]) ==> AssignedExcept(orig, doc, u, pending - {k})
  {
  }

  /** A record whose every field reads as in the body of an update is the
      patched record. */
  lemma AssignedIsPatched(orig: Textbook, doc: Textbook, u: map<Field, Value>)
    requires AllFit(u)
    requires AssignedExcept(orig, doc, u, {})
    ensures doc == Patched(orig, u)
  {
    forall f ensures Get(doc, f) == Get(Patched(orig, u), f) {
      PatchedOverwritesExactlyGivenKeys(orig, u, f);
    }
    GetDetermines(doc, Patched(orig, u));
  }

  // ---------------------------------------------------------------------
  // The textbook collection
  // ---------------------------------------------------------------------

  class TextbookStore {
    /** The `Textbook` collection, in the order the list endpoints return it. */
    var docs: seq<Textbook>

    ghost predicate Valid()
      reads this
    {
      UniqueIds(docs) && forall t :: t in docs ==> SchemaValid(t)
    }

    constructor ()
      ensures Valid() && docs == []
    {
      docs := [];
    }

    /** `createTextbook`: the guards, then one new record. The database
        assigns `newId`, distinct from every stored id. */
    method CreateTextbook(caller: Principal, body: TextbookBody, newId: string, now: int)
      returns (r: Result<Textbook, ApiError>)
      requires Valid()
      requires forall i :: 0 <= i < |docs| ==> docs[i].id != newId
      modifies this
      ensures Valid()
      ensures CheckCreate(caller, body).Some? ==> r == Err(CheckCreate(caller, body).value) && docs == old(docs)
      ensures CheckCreate(caller, body).None? ==>
                HasRequiredFields(body) && r == Ok(NewRecord(body, newId, now)) && docs == old(docs) + [r.value]
    {
      var rejected := CheckCreate(caller, body);
      if rejected.Some? {
        return Err(rejected.value);
      }
      var t := NewRecord(body, newId, now);
      docs := docs + [t];
      r := Ok(t);
    }

    /** `updateTextbook`: 404 for an unknown id; otherwise each key of the
        body is assigned in turn and the document saved, which fails (and
        stores nothing) when a value does not fit its field or a required
        field ends up empty. No ownership check is made. */
    method UpdateTextbook(id: string, updates: map<Field, Value>) returns (r: Result<Textbook, ApiError>)
      requires Valid()
      modifies this
      ensures Valid()
      ensures FindIndex(old(docs), id).None? ==> r == Err(NotFound(TextbookNotFound)) && docs == old(docs)
      ensures FindIndex(old(docs), id).Some? ==>
                var i := FindIndex(old(docs), id).value;
                if AllFit(updates) && SchemaValid(Patched(old(docs)[i], updates))
                then r == Ok(Patched(old(docs)[i], updates)) && docs == old(docs)[i := r.value]
                else r == Err(ServerError(SaveRejected)) && docs == old(docs)
    {
      var found := FindIndex(docs, id);
      if found.None? {
        return Err(NotFound(TextbookNotFound));
      }
      var i := found.value;
      var orig := docs[i];
      var doc := orig;
      var castFailed := false;
      var pending := updates.Keys;
      while pending != {}
        invariant docs == old(docs) && i < |docs| && orig == docs[i]
        invariant pending <= updates.Keys
        invariant castFailed <==> exists f :: f in updates && f !in pending && !Fits(f, updates[f])
        invariant AssignedExcept(orig, doc, updates, pending)
        decreases pending
      {
        var k :| k in pending;
        AssignStep(orig, doc, updates, pending, k);
        if Fits(k, updates[k]) {
          doc := Set(doc, k, updates[k]);
        } else {
          castFailed := true;
        }
        pending := pending - {k};
      }
      if castFailed {
        return Err(ServerError(SaveRejected));
      }
      AssignedIsPatched(orig, doc, updates);
      if !SchemaValid(doc) {
        return Err(ServerError(SaveRejected));
      }
      docs := docs[i := doc];
      r := Ok(doc);
    }

    /** `deleteTextbook`: 404 for an unknown id; otherwise the assets are
        deleted best-effort (failures are swallowed) and the record is
        removed whatever the store answered. No ownership check is made. */
    method DeleteTextbook(id: string, remove: S3Helper.Remove) returns (r: Result<seq<string>, ApiError>)
      requires Valid()
      modifies this
      ensures Valid()
      ensures FindIndex(old(docs), id).None? ==> r == Err(NotFound(TextbookNotFound)) && docs == old(docs)
      ensures FindIndex(old(docs), id).Some? ==>
                var i := FindIndex(old(docs), id).value;
                && r == Ok(AssetDeletions(old(docs)[i], remove))
                && docs == old(docs)[..i] + old(docs)[i + 1..]
                && forall t :: t in docs <==> t in old(docs) && t.id != id
    {
      var found := FindIndex(docs, id);
      if found.None? {
        return Err(NotFound(TextbookNotFound));
      }
      var i := found.value;
      var attempted := AssetDeletions(docs[i], remove);
      RemoveIsFilter(docs, i);
      RemoveKeepsUniqueIds(docs, i);
      docs := Filter(docs, (t: Textbook) => t.id != id);
      r := Ok(attempted);
    }
  }
}
