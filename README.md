# Textbook marketplace core, modelled in Dafny

This project models the rules at the core of a textbook marketplace. Lecturers
publish textbooks as a PDF plus an optional cover image. Students buy them.
Lecturers and administrators read sales figures. The client app keeps a local
copy of textbooks and purchases. Seven modules cover it:

- `Common` (common.dfy): the shared vocabulary. It has optional values and results, JavaScript truthiness of strings, ASCII lower-casing, substring search, `filter`, `map`, `reduce` sums and decimal rendering of numbers.
- `Api` (api.dfy): the authenticated caller (an id and a role) and the error responses (400, 401, 403, 404, 500) with their messages.
- `S3Helper` (s3_helper.dfy): the object-store adapter. It covers how an upload's object key is named, `folder/field-timestamp-random.ext`, and how the parameters of a signed URL are built. It also covers how store failures are reported. The store itself is abstract: signing, putting and deleting objects are function parameters, and the clock and random number are inputs.
- `Upload` (upload.dfy): the upload middleware. It decides, by form field and declared mimetype, which files are accepted, and applies the one size limit.
- `Catalog` (catalog.dfy): the textbook controller. It covers the validation on create, the list filters, the re-signing of asset URLs on every read path, field-by-field update and best-effort asset cleanup on delete. The collection is a sequence held by the class `TextbookStore`, and create, update and delete are methods on it.
- `Purchases` (purchases.dfy): the purchase controller. `Ledger.CreatePurchase` runs the ordered guard chain and appends at most one record. The read endpoints are functions over the ledger, each behind its role or ownership rule. Revenue and statistics are folds over the ledger.
- `LocalStore` (local_store.dfy): the client's on-device store. The class `TextbookStorage` holds the two storage keys as optional sequences: `None` means the key was never written, and it reads as `[]`. Its four mutators are methods, and the queries are functions over the stored lists.

Four behaviours of the code are easy to misread; the model follows the code in each:

- `updateTextbook` and `deleteTextbook` check no ownership. Any authenticated caller may change or remove any record.
- There is one 50 MiB limit for every upload field. There is no separate, smaller limit for thumbnails.
- The `file` field accepts Word documents as well as PDF.
- `createTextbook` takes `lecturerId` from the request body, not from the caller.

## Model

| member | source | states |
|---|---|---|
| Common.Lower | client/lib/textbookStorage.ts:156-162 | lower-casing keeps the length and maps each character through the ASCII lower-case table |
| Common.Contains | client/lib/textbookStorage.ts:159-162 | `includes` is true exactly when some position starts an occurrence of the query |
| Common.ContainsEmpty | client/lib/textbookStorage.ts:156-162 | every string contains the empty query |
| Common.Decimal | server/utils/s3Helper.mjs:20 | a number is written as one or more decimal digits, with no leading zero |
| Common.DecimalInjective | server/utils/s3Helper.mjs:20 | different numbers are written differently |
| Common.ParseDecimalInverse | server/utils/s3Helper.mjs:20 | reading the digits back gives the number |
| Common.IntText | server/controllers/textbook.mjs:180 | a number cast to a string field is written with a leading minus exactly when negative, then digits only |
| Common.FilterMultiplicity | client/lib/textbookStorage.ts:68 | `filter` keeps each passing element exactly as often as it occurs, and no other element |
| Common.FilterAppend | client/lib/textbookStorage.ts:68 | `filter` distributes over concatenation, so it keeps relative order |
| Common.FilterDropsOne | server/controllers/textbook.mjs:217 | a filter that rejects only position `i` removes exactly that element |
| Common.SumFilterDisjoint | server/controllers/purchase.mjs:223 | the sum over records selected by either of two disjoint tests is the sum of the two sums, and likewise for the counts |
| Api.Status | server/controllers/purchase.mjs:12-100 | every error response has a 4xx or 5xx status (400, 401, 403, 404 or 500 by kind) |
| S3Helper.Folder | server/utils/s3Helper.mjs:25-30 | `blogs` exactly for `image`/`thumbnail`, `files` exactly for `file`, and `uploads` for every other field |
| S3Helper.ExtName | server/utils/s3Helper.mjs:21 | Node's `path.extname`: non-empty exactly when the last path component is not `..` and has a dot after its first character; then it is that component's text from its last dot, a proper suffix with no further dot or `/` |
| S3Helper.ObjectKey | server/utils/s3Helper.mjs:20-32 | every key starts with `folder/fieldname-` |
| S3Helper.ObjectKeyShape | server/utils/s3Helper.mjs:20-32 | the key is the prefix followed by timestamp, `-`, random part and extension |
| S3Helper.ObjectKeyInjective | server/utils/s3Helper.mjs:20-22 | for one field, equal keys mean the same timestamp, random part and extension, so uploads that differ in their suffix get different keys |
| S3Helper.SignedUrlParams | server/utils/s3Helper.mjs:71-86 | key and expiry are passed through, and the download disposition `attachment; filename="…"` is added exactly when a download is forced and the filename is truthy |
| S3Helper.GetSignedUrl | server/utils/s3Helper.mjs:71-89 | the signer is asked for the key and expiry with no disposition, unless a download is forced with a truthy filename, then with `attachment; filename="…"` |
| S3Helper.DefaultSignedUrlIsView | server/utils/s3Helper.mjs:73-75 | by default the signer is asked for a 24-hour URL with no disposition |
| S3Helper.UploadToS3 | server/utils/s3Helper.mjs:12-60 | the buffer is sent under the generated key with its content type; on success the result carries the store's key, bucket, etag and location, plus a 24-hour view URL signed for the store's key; on failure the message is `Failed to upload to S3: ` plus the store's message |
| S3Helper.DeleteFromS3 | server/utils/s3Helper.mjs:96-108 | succeeds exactly when the store does, else `Failed to delete from S3: ` plus the store's message |
| Upload.FileFilter | server/middleware/upload.mjs:7-35 | one callback result: accepted iff there is no error; image fields accept exactly the four image types and document fields the three document types, each with its own message; any other field is accepted |
| Upload.Admit | server/middleware/upload.mjs:37-44 | a file is kept iff the filter accepts it and it has at most 50 MiB; a filter refusal reports the filter's message |
| Upload.SizeLimitIsUniform | server/middleware/upload.mjs:40-43 | two files that pass the filter are kept or refused alike for the same size, whatever their fields |
| Upload.SizeBoundary | server/middleware/upload.mjs:40-43 | exactly 52428800 bytes is kept, one more byte is refused, and a cover image of 5 MiB + 1 byte is kept |
| Upload.PlainTextThumbnailRefused | server/middleware/upload.mjs:20-25 | a text file offered as a thumbnail is refused with the image message, whatever its size |
| Catalog.FindIndex | server/controllers/textbook.mjs:134 | `findById`: the first record with the id, and none exactly when no record has it |
| Catalog.FindIndexUnique | server/controllers/textbook.mjs:134 | with unique ids, the record found is the only one with that id |
| Catalog.CheckCreate | server/controllers/textbook.mjs:25-48 | creation passes iff all eleven required fields are truthy and the caller is a lecturer; missing fields are reported before the role |
| Catalog.NewRecord | server/controllers/textbook.mjs:50-67 | the saved record holds every body value as given (the lecturer id from the body), the assigned id and the creation time, and satisfies the schema's required fields |
| Catalog.Enrich | server/controllers/textbook.mjs:103-121 | `pdfUrl` is re-signed for 24 hours iff `fileKey` is truthy, and `coverImage` iff `thumbnailKey` is truthy; every other field is unchanged |
| Catalog.EnrichIdempotent | server/controllers/textbook.mjs:143-156 | for one signer at one instant, re-signing an already enriched record changes nothing |
| Catalog.StoredUrlsAreDiscarded | server/controllers/textbook.mjs:143-156 | for a stored record with a thumbnail, the URLs saved at creation never reach the client |
| Catalog.EnrichAll | server/controllers/textbook.mjs:103-121 | one enriched record per record, same length, same order |
| Catalog.GetAllTextbooks | server/controllers/textbook.mjs:77-128 | as many entries as matching records; every matching record is listed enriched, and every listed record is a matching record enriched |
| Catalog.ListKeepsOrder | server/controllers/textbook.mjs:100-121 | the list of two catalog parts is the concatenation of their lists, and one record is listed once, enriched, exactly when it matches: one entry per match, in stored order |
| Catalog.UnfilteredListIsWholeCatalog | server/controllers/textbook.mjs:80-100 | with no truthy parameter the whole catalog is listed, in order |
| Catalog.EmptySearchMatchesAll | server/controllers/textbook.mjs:93-98 | an empty search text matches every record |
| Catalog.GetTextbooksByLecturer | server/controllers/textbook.mjs:226-255 | as many entries as the lecturer has records; each of them is listed enriched, and only that lecturer's records are listed |
| Catalog.GetTextbooksByCategory | server/controllers/textbook.mjs:258-287 | as many entries as the category has records; each of them is listed enriched, and only that category's records are listed |
| Catalog.RouteListsKeepOrder | server/controllers/textbook.mjs:229-248 | both routes list two catalog parts as the concatenation of their lists, and one record once, enriched, exactly when it belongs: one entry per record, in stored order |
| Catalog.RouteListsAgreeWithQuery | server/controllers/textbook.mjs:83-90 | the lecturer and category routes list what the general list does for the same parameter |
| Catalog.GetTextbookById | server/controllers/textbook.mjs:131-162 | 404 exactly when no record has the id; otherwise an enriched record with that id |
| Catalog.Set | server/controllers/textbook.mjs:180 | `textbook[key] = value` changes the value under that key only, and keeps the id and timestamp |
| Catalog.PatchedOverwritesExactlyGivenKeys | server/controllers/textbook.mjs:179-183 | the updated record holds the body's value, cast to the field's type, under each key present, the old value under every other key, and the same id and timestamp |
| Catalog.NumberIsbnIsStoredAsText | server/controllers/textbook.mjs:179-183 | a number sent for a string field is saved as its digits, and a number for the title keeps a valid record valid |
| Catalog.AssignedIsPatched | server/controllers/textbook.mjs:179-181 | a record whose every field reads as the update demands is the patched record |
| Catalog.AssetDeletions | server/controllers/textbook.mjs:205-215 | the PDF key is deleted first when present; the thumbnail key is tried only if that did not fail |
| Catalog.RemoveIsFilter | server/controllers/textbook.mjs:217 | deleting by id removes exactly the one record with that id and keeps the order of the rest |
| Catalog.RemoveKeepsUniqueIds | server/controllers/textbook.mjs:217 | removing a record keeps the ids unique |
| Catalog.FilterKeepsUniqueIds | server/controllers/textbook.mjs:229 | a filtered catalog keeps unique ids |
| Catalog.TextbookStore.CreateTextbook | server/controllers/textbook.mjs:6-74 | a failed guard returns its error and stores nothing; otherwise exactly the new record is appended |
| Catalog.TextbookStore.UpdateTextbook | server/controllers/textbook.mjs:165-190 | 404 and no change for an unknown id; otherwise the patched record replaces the old one, with numbers cast to text in string fields; the save fails with nothing stored when a value cannot be cast to its field or a required field ends empty |
| Catalog.TextbookStore.DeleteTextbook | server/controllers/textbook.mjs:193-223 | 404 and no change for an unknown id; otherwise the asset deletions are attempted and the record is removed whatever the store answered |
| Purchases.FindPair | server/controllers/purchase.mjs:36 | `findOne({textbookId, studentId})`: the first record for the pair, and none exactly when no record pairs them |
| Purchases.FindPurchase | server/controllers/purchase.mjs:82 | `findById`: a record with the id, and none exactly when no record has it |
| Purchases.FindTextbook | server/controllers/purchase.mjs:27 | a stored textbook with the id, and none exactly when none has it |
| Purchases.CheckCreatePurchase | server/controllers/purchase.mjs:11-50 | the guards in order: missing or falsy fields (400), non-student (403), unknown textbook (404), existing purchase (400), amount not equal to price (400); it passes exactly when none applies, and then returns the textbook whose price is the amount |
| Purchases.SecondPurchaseRejected | server/controllers/purchase.mjs:35-42 | a student who already holds a record for a textbook is refused another, whatever the body |
| Purchases.FreeTextbookUnpurchasable | server/controllers/purchase.mjs:11-50 | a textbook priced 0 can never be bought: amount 0 is taken as missing and any other amount mismatches |
| Purchases.AcceptedKeepsPairsUnique | server/controllers/purchase.mjs:36-58 | appending a purchase whose pair is not yet recorded keeps at most one record per pair |
| Purchases.PurchaseThenStatus | server/controllers/purchase.mjs:193-197 | after a purchase is recorded, its status check reports it |
| Purchases.GetPurchaseById | server/controllers/purchase.mjs:79-106 | 404 for an unknown id whoever asks; a returned record has the id and belongs to the caller unless the caller is an admin; otherwise 403 |
| Purchases.PurchaseVisibility | server/controllers/purchase.mjs:84-100 | with unique ids, a record is shown iff the caller is an administrator or its student, and it is that record |
| Purchases.GetAllPurchasesAsMounted | server/controllers/purchase.mjs:68-76 | as mounted, every caller receives every record |
| Purchases.MountedListShowsOthersPurchases | server/routes/purchaseRoute.mjs:18-32 | a student receives another student's record through the list, which `getPurchaseById` refuses them |
| Purchases.GetAllPurchases | server/controllers/purchase.mjs:67-76 | administrators receive every record; anyone else gets 401 `Not authorized as an admin` |
| Purchases.AllPurchasesAgreeWithById | server/controllers/purchase.mjs:67-100 | the checked list shows records only to a caller who may read each of them by id |
| Purchases.ByStudent | server/controllers/purchase.mjs:144 | exactly the records of that student |
| Purchases.GetPurchasesByStudent | server/controllers/purchase.mjs:133-151 | allowed iff the caller is an administrator or lecturer, and then exactly `ByStudent`, whose multiplicity and order `LedgerQueriesCount` and `LedgerQueriesKeepOrder` give |
| Purchases.GetMyPurchases | server/controllers/purchase.mjs:109-130 | position i holds the caller's i-th record, with the textbook it names or null |
| Purchases.ForTextbook | server/controllers/purchase.mjs:178 | exactly the records of that textbook |
| Purchases.LedgerQueriesCount | server/controllers/purchase.mjs:144-178 | each record of the student, or of the textbook, is listed as often as stored, and no other record |
| Purchases.LedgerQueriesKeepOrder | server/controllers/purchase.mjs:144-178 | both queries keep ledger order |
| Purchases.RevenueAdds | server/controllers/purchase.mjs:183 | the `reduce` sum is 0 for no record, the amount for one, and adds up over concatenation |
| Purchases.GetPurchasesByTextbook | server/controllers/purchase.mjs:154-186 | 404 for an unknown textbook whoever asks; then allowed iff administrator or the owning lecturer; the data is exactly that textbook's records in ledger order, with their count and `TextbookRevenue` |
| Purchases.CheckPurchaseStatus | server/controllers/purchase.mjs:189-200 | `hasPurchased` iff a record pairs the student with the textbook, and then that record is returned |
| Purchases.LecturerTextbooks | server/controllers/purchase.mjs:215-217 | exactly the lecturer's textbooks; multiplicity and order in `LecturerQueriesCount` and `LecturerQueriesKeepOrder` |
| Purchases.TextbookIds | server/controllers/purchase.mjs:218 | exactly the ids of the given textbooks |
| Purchases.ForTextbooks | server/controllers/purchase.mjs:219-222 | the `$in` query: exactly the records whose textbook id is listed; multiplicity and order in `LecturerQueriesCount` and `LecturerQueriesKeepOrder` |
| Purchases.LecturerQueriesCount | server/controllers/purchase.mjs:213-222 | the lecturer's textbooks, and the records of a list of ids, are each listed as often as stored and nothing else |
| Purchases.LecturerQueriesKeepOrder | server/controllers/purchase.mjs:213-222 | both queries keep stored order |
| Purchases.OwnedIds | server/controllers/purchase.mjs:215-219 | an id is among the lecturer's textbook ids iff it names one of the lecturer's textbooks |
| Purchases.OwnedScope | server/controllers/purchase.mjs:214-222 | the records found through the lecturer's ids are exactly the records of the lecturer's textbooks |
| Purchases.StatsScope | server/controllers/purchase.mjs:209-222 | an administrator's scope is the whole ledger; a lecturer's is the `$in` query over their textbook ids, which holds exactly the records of their own textbooks |
| Purchases.Average | server/controllers/purchase.mjs:240 | 0 without purchases, else the amount that times the count gives the revenue |
| Purchases.GetPurchaseStats | server/controllers/purchase.mjs:203-243 | allowed iff staff; the total count and revenue are those of the caller's scope (every record for an administrator, the records of their own textbooks for a lecturer); recent is the count of scope records created at or after the cutoff, so at most the total; the average with its zero guard |
| Purchases.GetPurchasesByLecturer | server/controllers/purchase.mjs:246-304 | allowed iff administrator or that lecturer; with no textbook count 0, revenue 0 and the note; otherwise the data's records are exactly the `$in` query over the lecturer's textbook ids, in ledger order, each with its textbook, their count, their sum and the textbook count |
| Purchases.WithTextbooks | server/controllers/purchase.mjs:282-292 | each record is paired with one of the lecturer's textbooks, the one it names |
| Purchases.LecturerStatsMatchSales | server/controllers/purchase.mjs:214-224 | a lecturer's own statistics count and sum the same records as their sales route, also when they own no textbook |
| Purchases.RevenueOverTextbooks | server/controllers/purchase.mjs:295 | the revenue over distinct textbooks is the sum of their revenues |
| Purchases.LecturerRevenueIsSumOfTextbookRevenues | server/controllers/purchase.mjs:274-295 | with unique textbook ids, a lecturer's total revenue is the sum of the per-textbook revenues the textbook route reports |
| Purchases.Ledger.CreatePurchase | server/controllers/purchase.mjs:6-65 | a failed guard returns its error and records nothing; otherwise exactly one record for the caller, the textbook and the amount is appended, and each pair keeps at most one record |
| LocalStore.FirstWithId | client/lib/textbookStorage.ts:54 | `findIndex`: the first position with the id, and none exactly when no entry has it |
| LocalStore.BookById | client/lib/textbookStorage.ts:18-26 | the first entry with the id, or null exactly when none has it |
| LocalStore.BooksByLecturer | client/lib/textbookStorage.ts:28-38 | exactly the lecturer's entries; multiplicity and order in `FiltersCount` and `FiltersKeepOrder` |
| LocalStore.BooksByCategory | client/lib/textbookStorage.ts:171-181 | exactly the category's entries; multiplicity and order in `FiltersCount` and `FiltersKeepOrder` |
| LocalStore.SalesOfStudent | client/lib/textbookStorage.ts:87-97 | exactly the student's purchases; multiplicity and order in `FiltersCount` and `FiltersKeepOrder` |
| LocalStore.FiltersCount | client/lib/textbookStorage.ts:28-38 | the lecturer, category and student filters list each entry as often as stored and nothing else |
| LocalStore.FiltersKeepOrder | client/lib/textbookStorage.ts:28-38 | the same three filters keep stored order |
| LocalStore.TextbookIdsOf | client/lib/textbookStorage.ts:105 | exactly the textbook ids of the given purchases |
| LocalStore.PurchasedBooks | client/lib/textbookStorage.ts:99-111 | exactly the catalog entries the student bought |
| LocalStore.PurchasedBooksOncePerEntry | client/lib/textbookStorage.ts:106 | each purchased entry is listed as often as it is in the catalog, however many purchases of it exist |
| LocalStore.PurchasedBooksKeepOrder | client/lib/textbookStorage.ts:106 | the purchased entries keep catalog order |
| LocalStore.HasPurchased | client/lib/textbookStorage.ts:124-135 | true iff some purchase pairs the student with the textbook |
| LocalStore.SalesCount | client/lib/textbookStorage.ts:138-150 | the count never exceeds the number of purchases |
| LocalStore.SalesCountAfterSale | client/lib/textbookStorage.ts:138-150 | one more purchase raises the count by one exactly when it names one of the lecturer's textbooks, repeated purchases included |
| LocalStore.Search | client/lib/textbookStorage.ts:153-168 | an entry is kept iff the lower-cased query occurs in its lower-cased title, author, category or description; multiplicity and order in `SearchCountAndOrder` |
| LocalStore.SearchCountAndOrder | client/lib/textbookStorage.ts:153-168 | a search lists each matching entry as often as stored, nothing else, in stored order |
| LocalStore.EmptySearchListsAll | client/lib/textbookStorage.ts:153-168 | the empty query lists every entry, in order |
| LocalStore.SearchIgnoresQueryCase | client/lib/textbookStorage.ts:156 | queries equal up to case give the same result |
| LocalStore.WithoutId | client/lib/textbookStorage.ts:68 | exactly the entries with another id |
| LocalStore.WithoutIdKeepsOthers | client/lib/textbookStorage.ts:65-74 | deleting keeps every other entry as often as it was there, in the same relative order |
| LocalStore.ReplaceFirstKeepsOthers | client/lib/textbookStorage.ts:51-58 | replacing the first match keeps the length and every other position, and the replaced entry is then the one found by id |
| LocalStore.TextbookStorage.AllTextbooks | client/lib/textbookStorage.ts:8-16 | the stored list, or `[]` when nothing is stored |
| LocalStore.TextbookStorage.AllPurchases | client/lib/textbookStorage.ts:77-85 | the stored list, or `[]` when nothing is stored |
| LocalStore.TextbookStorage.GetTextbookById | client/lib/textbookStorage.ts:18-26 | `BookById` on the stored list: the first stored entry with the id, or null exactly when none has it |
| LocalStore.TextbookStorage.GetTextbooksByLecturer | client/lib/textbookStorage.ts:28-38 | `BooksByLecturer` on the stored list: exactly the lecturer's entries, in order |
| LocalStore.TextbookStorage.GetTextbooksByCategory | client/lib/textbookStorage.ts:171-181 | `BooksByCategory` on the stored list: exactly the category's entries, in order |
| LocalStore.TextbookStorage.GetPurchasesByStudent | client/lib/textbookStorage.ts:87-97 | `SalesOfStudent` on the stored purchases: exactly the student's purchases, in order |
| LocalStore.TextbookStorage.GetPurchasedTextbooks | client/lib/textbookStorage.ts:99-111 | `PurchasedBooks` on the stored lists: exactly the entries the student bought, once per catalog entry, in catalog order |
| LocalStore.TextbookStorage.HasPurchasedTextbook | client/lib/textbookStorage.ts:124-135 | `HasPurchased` on the stored purchases: true iff one pairs the student with the textbook |
| LocalStore.TextbookStorage.GetSalesCountByLecturer | client/lib/textbookStorage.ts:138-150 | `SalesCount` on the stored lists, so at most the number of stored purchases |
| LocalStore.TextbookStorage.SearchTextbooks | client/lib/textbookStorage.ts:153-168 | `Search` on the stored list: exactly the entries matching the query ignoring case, in order |
| LocalStore.TextbookStorage.AddTextbook | client/lib/textbookStorage.ts:40-49 | the stored list becomes the old list plus the entry; purchases are untouched |
| LocalStore.TextbookStorage.UpdateTextbook | client/lib/textbookStorage.ts:51-63 | only the first entry with the id is replaced; nothing is written when none matches |
| LocalStore.TextbookStorage.DeleteTextbook | client/lib/textbookStorage.ts:65-74 | the list without the id's entries is always written back |
| LocalStore.TextbookStorage.AddPurchase | client/lib/textbookStorage.ts:113-122 | the stored purchases become the old list plus the purchase; textbooks are untouched |

## Left out

- Database, object store, signer and clock: Mongo queries are sequence queries, and the object store and signer are function parameters. The timestamp, the random part of a key, the new record ids and the six-month cutoff are inputs.
- `createdAt` descending sorts: reads return records in stored order.
- `getAllTextbooks` search: MongoDB's case-insensitive `$regex` is modelled as ASCII case-insensitive substring search, which agrees only for queries without regular-expression syntax.
- Lower-casing in general: `toLowerCase` is modelled for ASCII letters only.
- Malformed ids: a `findById` on a string that is not an ObjectId throws a cast error, which becomes a 500 response. The model treats such an id as unknown.
- Mongoose casting: update values are integers, strings or null. A number sent for a string field is stored as its text; null in a required field, or a string or null for the price, fails the save. Booleans, objects and arrays in the body are not modelled, and numbers are rendered without JavaScript's exponent form for magnitudes of 10^21 and more.
- Catalog.TextbookStore.CreateTextbook: the request body is typed, with string fields and an integer price. The handler tests only truthiness and Mongoose casts on save, so a numeric `isbn` or `title` stored as its text, a `price` of `"45"` saved as 45, and a `price` of `"abc"` failing the save with a 500 are not modelled.
- Catalog.TextbookStore.UpdateTextbook: a numeric string sent for `price` fails the save, where Mongoose casts `"12"` to 12.
- Update keys: `NotInSchema` stands for a key the schema does not define, which the document drops. Assignments to `_id`, `createdAt` and `updatedAt` are not modelled.
- Record ids: ids are taken in their canonical lower-case hex form and compared as strings. `findById` would also accept an upper-case spelling of the same ObjectId, while the `findOne({ textbookId, studentId })` duplicate check compares the stored string literally; so one purchase per student and textbook holds per id string, not across spellings of one id.
- The `fieldSize` limit of 50 MiB on non-file form fields is not modelled; only file sizes are.
- `Purchases.CheckCreatePurchase`: a non-numeric `amount`, such as a string, is not modelled. Amounts and prices are integers, and floating-point arithmetic is not modelled.
- `Purchases.GetPurchaseStats`: `averageAmount` is an exact rational, not a float.
- `getAllPurchases`: the router and the `authorizeAdmin` middleware are not part of this model beyond the finding below.
- Concurrency: the check-then-insert race of `createPurchase` exists only for concurrent requests. Requests are sequential here, so the one-record-per-pair property holds only for sequential runs.
- HTTP response envelopes, success messages, the multipart parser's internals, `asyncHandler` and logging are not modelled.
- Client storage: JSON serialisation is taken to round-trip, and the `catch` paths for a failing storage backend are not modelled. The client's declared interface names the textbook id `_id`, while the store reads `id`; the model follows the code.

## Findings

| source | as written | input that shows it | evidently intended | confidence | as-written member | corrected member |
|---|---|---|---|---|---|---|
| server/routes/purchaseRoute.mjs:31-32 | `getAllPurchases` is mounted behind `authenticate` only; `authorizeAdmin` is imported but never applied, and the handler checks no role | a student `s1` requests the list while the ledger holds a purchase of student `s2`: the list contains it, although `getPurchaseById` answers 403 for it | only administrators read the whole ledger, as the comments "admin only" at purchase.mjs:67 and purchaseRoute.mjs:31 say; `authorizeAdmin` itself tests `req.user.isAdmin`, which the user schema does not have, so the intended check is on the `admin` role | high, not executed | Purchases.GetAllPurchasesAsMounted, Purchases.MountedListShowsOthersPurchases | Purchases.GetAllPurchases, Purchases.AllPurchasesAgreeWithById |
