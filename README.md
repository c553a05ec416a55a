# Data Fabric KYC SDK for PHP — a verified model of its pure core

The SDK is a thin HTTP client for a KYC (know-your-customer) verification
service. Between the HTTP calls sits a small pure core, and this project
models that core in Dafny:

- **Envelope normalisation** (`KycClient::extractResponseData`). The server
  answers either directly (`{status, check_id, ...}`) or wrapped
  (`{status, data: {...}}`). A wrapped body is flattened with `array_merge`.
- **Pre-flight validation** (`validateCheckData`, `validateDocumentUpload`).
  Each checks in a fixed order and stops at the first failure, each failure
  with its own message.
- **Client configuration**. A key starting with `dfb_test_` puts the
  client in test mode, and trailing slashes are stripped from the base URL.
- **Four read-only response views**: one check, a page of checks, one
  uploaded document with its OCR extraction, and a list of documents. Each
  answers queries by a lookup with a type guard and a documented default.

Decoded JSON is the datatype `PhpArrays.Json`. A PHP array is an ordered
sequence of bindings with string or integer keys (`Entries`).

- Lookup follows the last binding of a key, as a PHP array literal does.
- `isset`, `??`, `empty`, `array_filter` by key and `array_merge` are
  written out exactly. `array_merge` overwrites string keys in place and
  renumbers integer keys from 0.

`validateCheckData` loops over the required fields, so it is a method with a
loop. Its contract ties it to the specification function
`CheckDataVerdict`, and the lemmas beside that function state what the
validator promises. All other members are functions over immutable values,
as in the source: each view holds one or two arrays assigned once by its
constructor.

The date check builds a `DateTime` with the format `Y-m-d` and accepts the
input only when formatting the result gives back the same string. The model
states the outcome of that round trip and leaves `DateTime` out:
`Calendar.ParseYmd` accepts exactly `DDDD-DD-DD` naming a real date in the
proleptic Gregorian calendar. `Calendar.AcceptedIffFormatted` proves that
these are exactly the strings `Calendar.FormatYmd` produces for some date.

Two behaviours of the code as written are proved rather than hidden:

- The list call normalises the body before building the list view. For a
  wrapped list `{status, data: [..], pagination}`, the merge replaces `data`
  by positional keys. The list view reads its checks from `data`, so it
  holds none (`Client.WrappedListLosesChecks`, `Client.WrappedListExample`).
- Some tests expect behaviour the source does not have:
  - tests/KycCheckResponseTest.php:19-39 expects `getCheckId` to fall back
    to an `id` field, including an integer id. The source reads only
    `check_id`, so those expectations fail against it
    (`CheckResponses.NoIdFallback`, `CheckResponses.CheckIdReadsOnlyCheckId`).
  - tests/KycCheckResponseTest.php:183-223 calls `getExpiresAt` and
    `isExpired`, which the source does not define.

  The model follows the source in both places.

## Model

| member | source | states |
|---|---|---|
| PhpArrays.Lookup | src/KycClient.php:349 | reads as absent only when the key is bound nowhere in the array |
| PhpArrays.LookupLastBinding | src/KycClient.php:349 | a key that reads as present reads the value of its last binding: that binding exists and no later binding has the key |
| PhpArrays.LookupAbsent | src/KycClient.php:349 | a key bound nowhere reads as absent (converse of Lookup's contract) |
| PhpArrays.LookupConcat | src/KycClient.php:351-354 | in a concatenation, a binding in the second part shadows one in the first |
| PhpArrays.IsSet | src/KycClient.php:349 | `isset($m[$k])` holds iff k reads as present with a non-null value |
| PhpArrays.Coalesce | src/KycCheckResponse.php:45 | `$m[$k] ?? $d` is k's value when it is set, otherwise d; it is null only when d is |
| PhpArrays.IsEmpty | src/KycClient.php:274 | `empty` on a string holds iff it is "" or "0", on an integer iff 0, on an array iff [], on a boolean iff false |
| PhpArrays.SetKey | src/KycClient.php:351-354 | assignment `$m[$k] = $v` as array_merge performs it: k then reads v, every other key reads as before, distinct keys stay distinct |
| PhpArrays.SetKeyShape | src/KycClient.php:351-354 | assignment keeps every existing key at its position; it keeps the length when the key is bound and appends the binding at the end when it is not |
| PhpArrays.Without | src/KycClient.php:352 | the `array_filter` by key drops every binding of k, leaves every other key's value, keeps the integer-keyed values in their order, keeps distinct keys distinct |
| PhpArrays.WithoutIsSubsequence | src/KycClient.php:352 | the filtered array is a subsequence of the input: the surviving bindings keep their order |
| PhpArrays.MergeProperties | src/KycClient.php:351-354 | array_merge yields distinct keys; a string key reads b's value when b binds it and a's otherwise; integer key j reads the j-th integer-keyed value of a then b |
| PhpArrays.MergeKeepsPositions | src/KycClient.php:351-354 | merging string-keyed arrays keeps every key of the first array at its position (a key the second rebinds is overwritten in place), so new keys can only follow |
| PhpArrays.MergeAppendsNew | src/KycClient.php:351-354 | merging string-keyed arrays without repeated keys: a's keys in place, followed by exactly b's keys that a lacks, in b's order |
| PhpArrays.MergeStringsWithList | src/KycClient.php:351-354 | merging string-keyed fields with a list appends the list's values under the keys 0 .. n-1 |
| Calendar.DaysInMonth | src/KycClient.php:289-290 | month lengths 28..31, February has 29 days exactly in leap years |
| Calendar.ParseYmd | src/KycClient.php:289-290 | an accepted string is DDDD-DD-DD and names a valid date |
| Calendar.FormatThenParse | src/KycClient.php:289-290 | parsing the `Y-m-d` text of a valid date gives that date back |
| Calendar.ParseThenFormat | src/KycClient.php:290 | an accepted string is exactly the `Y-m-d` text of the date parsed from it (the round-trip comparison) |
| Calendar.AcceptedIffFormatted | src/KycClient.php:289-292 | a string is accepted iff it is the `Y-m-d` text of some valid date |
| Calendar.LeapDayIn2000 | src/KycClient.php:289-292 | 2000-02-29 is accepted |
| Calendar.NoLeapDayIn1900 | src/KycClient.php:289-292 | 1900-02-29 is refused |
| Calendar.NoThirtiethOfFebruary | src/KycClient.php:289-292 | 1990-02-30 is refused, although the lenient parser would roll it over |
| Calendar.ShapeExamples | src/KycClient.php:289-292 | 1990-05-15 is accepted; 1990-5-15, 15-05-1990 and 1990/05/15 are refused |
| Client.MessageNamesSubject | src/KycClient.php:275-336 | every failure has a non-empty message; the missing-field and file messages end with the field name or path |
| Client.ListingMessages | src/KycClient.php:279-281 | the document-type and image-type messages list the four accepted values in order, separated by ", " |
| Client.RTrimSlashes | src/KycClient.php:42 | `rtrim($s, '/')` is a prefix of s that does not end in '/', and everything cut off is '/' |
| Client.RTrimSlashesUnique | src/KycClient.php:42 | those three properties determine the trimmed URL |
| Client.RTrimSlashesIdempotent | src/KycClient.php:42 | trimming twice equals trimming once; a URL without a trailing slash is unchanged |
| Client.NewClient | src/KycClient.php:36-58 | the client satisfies the constructor invariant (Valid), keeps the key, is in test mode iff the key starts with "dfb_test_", and stores the base URL without trailing slashes |
| Client.KycClient.IsTestMode | src/KycClient.php:366-369 | on any client the constructor (lines 41-43) can build, test mode holds iff the API key starts with "dfb_test_" |
| Client.KycClient.GetBaseUrl | src/KycClient.php:376-379 | on any client the constructor (lines 41-43) can build, the base URL has no trailing '/' and rtrim leaves it unchanged |
| Client.ClientExamples | tests/KycClientTest.php:11-39 | a dfb_test_ key is test mode, a dfb_live_ key is not; a custom base URL and the default one are kept; trailing slashes are cut |
| Client.ExtractResponseData | src/KycClient.php:346-359 | no array under `data`: the body unchanged; otherwise distinct keys, string keys from `data` win, `data` itself is gone unless `data` rebinds it, integer keys are the body's then `data`'s integer-keyed values renumbered from 0 |
| Client.ExtractKeepsPositions | src/KycClient.php:351-354 | with string keys throughout, the top-level fields other than `data` come first in their original order, each at its place (a field `data` rebinds is overwritten in place) |
| Client.ExtractAppendsNew | src/KycClient.php:351-354 | when `data` has no repeated key, the top-level fields are followed by exactly `data`'s fields that the top level lacks, in `data`'s order |
| Client.ExtractKeepsOuterKey | src/KycClient.php:351-354 | a top-level field that `data` does not rebind survives unchanged |
| Client.ExtractTakesDataKey | src/KycClient.php:351-354 | a field that `data` binds takes `data`'s value |
| Client.ExtractRemovesDataKey | src/KycClient.php:351-354 | after flattening, no `data` key is left when `data` has none of its own |
| Client.ExtractWrappedList | src/KycClient.php:351-354 | a list under `data` becomes the top-level fields followed by the list's values under keys 0 .. n-1 |
| Client.ExtractIdempotent | src/KycClient.php:346-359 | normalising a normalised body changes nothing, unless `data` itself wrapped a `data` array |
| Client.WrappedListLosesChecks | src/KycClient.php:143-144 | after normalisation a wrapped list gives a list view with no checks |
| Client.WrappedListExample | src/KycCheckListResponse.php:24-49 | the envelope {status, data: [check], pagination: {total}} yields no checks but keeps the total |
| Client.EnvelopeExamples | tests/KycCheckResponseTest.php:264-289 | the wrapped envelope flattens so that check id, status and result are read from inside `data` |
| Client.FirstMissing | src/KycClient.php:273-277 | no result iff no field is missing; otherwise a missing field all of whose predecessors are present |
| Client.CheckDataVerdict | src/KycClient.php:269-293 | a failure is a missing required field or one of the document-type and date-of-birth errors; a pass implies a string date of birth that parses |
| Client.ValidateCheckData | src/KycClient.php:269-293 | the loop and the guarded checks return exactly the specification verdict CheckDataVerdict |
| Client.MissingFieldIsFirst | src/KycClient.php:271-277 | "Missing required field: f" iff f is the first of first_name, last_name, date_of_birth, document_type, document_number that is unset or PHP-empty |
| Client.DocumentTypeCheckedBeforeDate | src/KycClient.php:279-282 | with every field present, an unknown document type fails before any date check |
| Client.InvalidDateOfBirthReported | src/KycClient.php:289-292 | once every field is present and the document type accepted, a string date of birth that is not the Y-m-d text of any real date fails with the format message |
| Client.NonStringDateOfBirth | src/KycClient.php:285-288 | a non-string date of birth fails as such, not as a bad format |
| Client.CheckDataAccepted | src/KycClient.php:269-293 | validation passes iff all fields are present, the document type is accepted, and the date of birth is a string that is the Y-m-d text of a valid date |
| Client.TrueDocumentTypeAccepted | src/KycClient.php:280 | the loose in_array lets a boolean true document type through |
| Client.ValidateDocumentUpload | src/KycClient.php:302-338 | each failure holds iff every earlier check passes and its own fails, in the order exists, readable, image type, size, sniffer, MIME type; Pass iff all pass |
| Client.SizeLimitInclusive | src/KycClient.php:321-324 | 10485760 bytes pass, 10485761 bytes fail |
| CheckResponses.CheckResponse.GetCheckId | src/KycCheckResponse.php:32-36 | `check_id` when it is a string, "" otherwise |
| CheckResponses.CheckResponse.GetStatus | src/KycCheckResponse.php:43-47 | `kyc_status` decides when set (a non-string gives ""), otherwise `status` when it is a string, otherwise "" |
| CheckResponses.CheckResponse.GetResult | src/KycCheckResponse.php:54-58 | `result` iff it is a string, null otherwise |
| CheckResponses.CheckResponse.GetRiskScore | src/KycCheckResponse.php:65-69 | `risk_score` iff it is a string, null otherwise |
| CheckResponses.CheckResponse.GetRequestId | src/KycCheckResponse.php:137-141 | `request_id` iff it is a string, null otherwise |
| CheckResponses.CheckResponse.GetVerificationDetails | src/KycCheckResponse.php:76-80 | `verification_details` when it is an array, [] otherwise |
| CheckResponses.CheckResponse.IsApproved | src/KycCheckResponse.php:87-90 | true iff `result` is the string "approved" |
| CheckResponses.CheckResponse.IsRejected | src/KycCheckResponse.php:97-100 | true iff `result` is the string "rejected" |
| CheckResponses.CheckResponse.RequiresReview | src/KycCheckResponse.php:107-110 | true iff `result` is the string "review_required" |
| CheckResponses.CheckResponse.IsPending | src/KycCheckResponse.php:117-120 | true iff the status field read (`kyc_status` when set, else `status`) is the string "pending" or "in_progress" |
| CheckResponses.CheckResponse.IsCompleted | src/KycCheckResponse.php:127-130 | true iff that status field is the string "completed" |
| CheckResponses.CheckResponse.GetRawData | src/KycCheckResponse.php:148-151 | wrapping the raw data again gives the same response |
| CheckResponses.CheckResponse.ToArray | src/KycCheckResponse.php:158-161 | wrapping the array form again gives the same response |
| CheckResponses.ResultPredicatesExclusive | src/KycCheckResponse.php:87-110 | at most one of approved, rejected and review-required holds; none without a string result |
| CheckResponses.PendingAndCompleted | src/KycCheckResponse.php:117-130 | pending iff the status is pending or in_progress; never both pending and completed |
| CheckResponses.StatusDoesNotFallBackPastNonString | src/KycCheckResponse.php:43-47 | an integer `kyc_status` gives "" even when `status` is a string |
| CheckResponses.StatusFallsBackPastNull | src/KycCheckResponse.php:43-47 | a null or absent `kyc_status` falls back to `status` |
| CheckResponses.CheckIdReadsOnlyCheckId | src/KycCheckResponse.php:32-36 | rebinding any key other than `check_id` leaves the check id unchanged |
| CheckResponses.NoIdFallback | tests/KycCheckResponseTest.php:19-39 | a payload with only `id` (string or integer) has the empty check id, contrary to these tests |
| CheckResponses.RawDataRoundTrip | src/KycCheckResponse.php:148-161 | raw data and array form are the constructor's input |
| CheckLists.CheckListResponse.GetChecks | src/KycCheckListResponse.php:35-38 | same length, keys and order as the stored list; element i views data[i] when it is an array and an empty array otherwise |
| CheckLists.CheckListResponse.GetTotal | src/KycCheckListResponse.php:45-49 | `total` when it is an integer, 0 otherwise |
| CheckLists.CheckListResponse.GetPerPage | src/KycCheckListResponse.php:56-60 | `per_page` when it is an integer, 20 otherwise |
| CheckLists.CheckListResponse.GetCurrentPage | src/KycCheckListResponse.php:67-71 | `current_page` when it is an integer, 1 otherwise |
| CheckLists.CheckListResponse.GetLastPage | src/KycCheckListResponse.php:78-82 | `last_page` when it is an integer, 1 otherwise |
| CheckLists.CheckListResponse.HasMorePages | src/KycCheckListResponse.php:89-92 | true iff the integer current page (default 1) is below the integer last page (default 1) |
| CheckLists.CheckListResponse.GetRawData | src/KycCheckListResponse.php:99-102 | the raw data with the same pagination rebuilds the same view |
| CheckLists.FromResponse | src/KycCheckListResponse.php:24-28 | the list is `data` when it is an array, else []; the pagination likewise |
| CheckLists.MorePagesCases | src/KycCheckListResponse.php:89-92 | more pages iff current < last; none for equal pages, past the end, or without pagination |
| CheckLists.PaginationDefaults | src/KycCheckListResponse.php:45-92 | without a pagination array: total 0, per page 20, pages 1 and 1, no more pages |
| CheckLists.NonArrayCheckHasNoId | src/KycCheckListResponse.php:35-38 | a non-array list element becomes a check with the empty id |
| CheckLists.ListRawData | src/KycCheckListResponse.php:99-102 | the raw data is the stored list |
| DocumentResponses.DocumentResponse.Document | src/KycDocumentResponse.php:34 | `document ?? []`, None when it is set to a non-array |
| DocumentResponses.DocumentResponse.GetId | src/KycDocumentResponse.php:32-40 | an id iff the document is an array whose `id` is an integer, and then that integer |
| DocumentResponses.DocumentResponse.GetImageType | src/KycDocumentResponse.php:47-55 | an image type iff the document is an array whose `image_type` is a string, and then that string |
| DocumentResponses.DocumentResponse.HasOcrData | src/KycDocumentResponse.php:62-69 | true iff the document is an array whose `has_ocr_data` is exactly true |
| DocumentResponses.DocumentResponse.GetOcrData | src/KycDocumentResponse.php:76-84 | OCR data iff the document and its `ocr_data` are arrays, and then `ocr_data` |
| DocumentResponses.DocumentResponse.GetExtracted | src/KycDocumentResponse.php:91-249 | every getExtracted* accessor and getProvider: null without OCR data, otherwise its own field when it is a string |
| DocumentResponses.DocumentResponse.GetConfidence | src/KycDocumentResponse.php:226-234 | null without OCR data, otherwise `confidence` when it is an integer |
| DocumentResponses.DocumentResponse.GetStatus | src/KycDocumentResponse.php:256-260 | `status` when it is a string, "" otherwise |
| DocumentResponses.DocumentResponse.IsSuccessful | src/KycDocumentResponse.php:267-270 | true iff `status` is the string "success" |
| DocumentResponses.DocumentResponse.GetRawData | src/KycDocumentResponse.php:277-280 | wrapping the raw data again gives the same response |
| DocumentResponses.DocumentResponse.ToArray | src/KycDocumentResponse.php:287-290 | wrapping the array form again gives the same response |
| DocumentResponses.NoDocumentMeansNoFields | src/KycDocumentResponse.php:32-234 | without a document array every accessor is null and the OCR flag is false |
| DocumentResponses.StringIdIsNull | src/KycDocumentResponse.php:32-40 | a string id reads as null |
| DocumentResponses.OcrFlagIndependentOfPayload | src/KycDocumentResponse.php:62-84 | the flag can be true without OCR data, and OCR data can exist without the flag |
| DocumentResponses.ConfidenceNotClamped | src/KycDocumentResponse.php:226-234 | any integer confidence is returned as sent, with no 0..100 clamp |
| DocumentResponses.SuccessfulIffSuccessStatus | src/KycDocumentResponse.php:256-270 | successful iff `status` is the string "success" |
| DocumentResponses.DocumentRawDataRoundTrip | src/KycDocumentResponse.php:277-290 | raw data and array form are the constructor's input |
| DocumentLists.DocumentListResponse.GetDocuments | src/KycDocumentListResponse.php:32-37 | same length, keys and order; non-array entries become [] |
| DocumentLists.DocumentListResponse.HasOcrData | src/KycDocumentListResponse.php:54-62 | true iff some entry is an array whose `has_ocr_data` is exactly true |
| DocumentLists.DocumentListResponse.GetDocumentsByType | src/KycDocumentListResponse.php:70-75 | exactly the bindings of array entries whose `image_type` is t, keys kept, in their original order |
| DocumentLists.DocumentListResponse.GetCount | src/KycDocumentListResponse.php:44-47 | the count is the number of documents returned |
| DocumentLists.DocumentListResponse.GetRawData | src/KycDocumentListResponse.php:82-85 | wrapping the raw data again gives the same list |
| DocumentLists.FromResponse | src/KycDocumentListResponse.php:22-25 | the list is `documents` when it is an array, else [] |
| DocumentLists.CountMatchesDocuments | src/KycDocumentListResponse.php:32-47 | the count is the stored list's length and the number of documents returned |
| DocumentLists.FilterKeepsKeys | src/KycDocumentListResponse.php:70-75 | a matching entry keeps its own key after filtering |
| DocumentLists.DocumentListRawData | src/KycDocumentListResponse.php:82-85 | the raw data is the stored list |

## Left out

- HTTP transport is not modelled: the Guzzle calls in `createCheck`, `getCheck`, `listChecks`, `reprocessCheck`, `uploadDocument` and `getDocuments` (src/KycClient.php:67-261), their headers, timeouts and multipart bodies, and the wrapping of Guzzle exceptions into `KycException`. These are foreign-library I/O.
- `json_decode` of response bodies and `toJson` (src/KycCheckResponse.php:168-175, src/KycDocumentResponse.php:297-304) are left out. The model starts from a decoded value. Integer-like string keys, which PHP turns into integers on decoding, therefore enter the model already as integer keys.
- `file_exists`, `is_readable`, `filesize` and `finfo` become the input record `Client.FileFacts`. Nothing here reads a file.
- `DateTime::createFromFormat` and `format` are replaced by `Calendar.ParseYmd`, the outcome of their round trip. The parser's leniency (overflowing days, short fields) is visible only through that outcome. Years are the four-digit years 0000-9999.
- `getExpiresAt` and `isExpired` are not modelled. They appear only in tests/KycCheckResponseTest.php:183-223, not in the source, and depend on the clock.
- src/KycException.php (an empty exception class) is not modelled. A failure is `Client.Outcome.Fail` with a `KycError`, and `Client.Message` gives its text.
- PHP loose comparison is modelled only as far as the core uses it. `validateCheckData` calls a non-strict `in_array` on a value of the caller's own check payload (validated by `createCheck` before any request, src/KycClient.php:67-69) against non-numeric words; for the values the model represents, under PHP 8 only the equal string and `true` match (`Client.LooselyIn`). `isPending` also calls a non-strict `in_array` (src/KycCheckResponse.php:119), but its needle is `getStatus()`, which is always a string, and a string equals a non-numeric word loosely only when it is that word, so `CheckResponses.CheckResponse.IsPending` uses exact membership. `validateDocumentUpload` makes two non-strict `in_array` calls as well (src/KycClient.php:316, 335). Their needles are the image type, which is a string, and the `finfo_file` result, which is a string or `false`; against non-empty, non-numeric words only the equal string matches. `Client.ValidateDocumentUpload` therefore uses exact membership, and a `false` MIME type (`None`) fails.
- The check payload given to `createCheck` is limited to the values `PhpArrays.Json` represents: null, booleans, integers, floats, strings and arrays. PHP objects in the payload (a `DateTime` date of birth, a `Stringable` document type that loose `in_array` compares through `__toString`) are not modelled.
- `Client.Message` has no contract of its own: it gives the ten exception texts of src/KycClient.php:275-336 word for word. Its properties are stated by `Client.MessageNamesSubject` and `Client.ListingMessages`.
- `PhpArrays.Merge` has no contract of its own. Its properties are stated by `PhpArrays.MergeProperties`, `PhpArrays.MergeKeepsPositions` and `PhpArrays.MergeStringsWithList`. The key order of a merge is stated for string-keyed arrays (`PhpArrays.MergeAppendsNew`) and for string keys followed by a list (`PhpArrays.MergeStringsWithList`); other mixes of string and integer keys are covered only through lookups.
- The demo scripts (basic.php, create-check.php, error-handling.php, list-checks.php, upload-document.php) and tests/BaseTestCase.php are not part of this model: they are caller code and test scaffolding.
- `Client.ValidateDocumentUpload`: the path string itself is not inspected. Only the facts reported about the file are.
