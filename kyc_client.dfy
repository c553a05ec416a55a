/** The pure core of the API client facade (src/KycClient.php): its
    configuration, the normalisation of the two response envelopes, and the
    two pre-flight validators that reject a request before any network
    round trip. The HTTP calls themselves are not part of this model. */
module Client {
  import opened PhpArrays
  import opened Calendar
  import CheckResponses
  import CheckLists

  const DefaultBaseUrl := "https://datafabric.hiroshiaki.com"
  /** An API key with this prefix is a test key. */
  const TestKeyPrefix := "dfb_test_"

  const RequiredFields: seq<string> :=
    ["first_name", "last_name", "date_of_birth", "document_type", "document_number"]
  const DocumentTypes: seq<string> :=
    ["passport", "drivers_license", "national_id", "residence_permit"]
  const ImageTypes: seq<string> :=
    ["front", "back", "selfie", "proof_of_address"]
  /** 10 MiB; a file of exactly this size is accepted. */
  const MaxFileSize := 10 * 1024 * 1024
  const MimeTypes: seq<string> :=
    ["image/jpeg", "image/jpg", "image/png", "image/webp"]

  /** The local failures the client raises as KycException, each with its
      own message. */
  datatype KycError =
    | MissingField(field: string)
    | InvalidDocumentType
    | DateOfBirthNotString
    | InvalidDateOfBirth
    | FileNotFound(path: string)
    | FileNotReadable(path: string)
    | InvalidImageType
    | FileTooLarge
    | MimeDetectionUnavailable
    | InvalidImageFormat

  datatype Outcome = Pass | Fail(error: KycError)

  /** `implode($sep, $items)` */
  function Implode(sep: string, items: seq<string>): string {
    if items == [] then ""
    else if |items| == 1 then items[0]
    else items[0] + sep + Implode(sep, items[1..])
  }

  /** The exception message of each failure. */
  function Message(e: KycError): string {
    match e
    case MissingField(f) => "Missing required field: " + f
    case InvalidDocumentType => "Invalid document_type. Must be one of: " + Implode(", ", DocumentTypes)
    case DateOfBirthNotString => "date_of_birth must be a string"
    case InvalidDateOfBirth => "Invalid date_of_birth format. Must be YYYY-MM-DD"
    case FileNotFound(p) => "Image file not found: " + p
    case FileNotReadable(p) => "Image file is not readable: " + p
    case InvalidImageType => "Invalid image_type. Must be one of: " + Implode(", ", ImageTypes)
    case FileTooLarge => "Image file size must not exceed 10MB"
    case MimeDetectionUnavailable => "Failed to detect image file type"
    case InvalidImageFormat => "Invalid image format. Must be JPEG, PNG, or WebP"
  }

  /** Every failure has a message, and the messages about a field or a file
      end with its name. */
  lemma MessageNamesSubject(e: KycError)
    ensures Message(e) != []
    ensures e.MissingField? ==> |e.field| <= |Message(e)| && Message(e)[|Message(e)| - |e.field|..] == e.field
    ensures e.FileNotFound? || e.FileNotReadable? ==>
              |e.path| <= |Message(e)| && Message(e)[|Message(e)| - |e.path|..] == e.path
  {
  }

  /** `implode` of four items puts the separator between neighbours and
      nowhere else. */
  lemma ImplodeFour(sep: string, t: seq<string>)
    requires |t| == 4
    ensures Implode(sep, t) == t[0] + sep + t[1] + sep + t[2] + sep + t[3]
  {
    assert t[1..][1..] == t[2..];
    assert t[2..][1..] == [t[3]];
    assert Implode(sep, t[2..][1..]) == t[3];
    var tail := Implode(sep, t[2..]);
    assert tail == t[2] + sep + t[3];
    var mid := Implode(sep, t[1..]);
    assert mid == t[1] + sep + tail;
  }

  /** The two messages that list the accepted values name the four values
      in order, separated by ", ". */
  lemma ListingMessages()
    ensures Message(InvalidDocumentType) == "Invalid document_type. Must be one of: "
              + DocumentTypes[0] + ", " + DocumentTypes[1] + ", " + DocumentTypes[2] + ", " + DocumentTypes[3]
    ensures Message(InvalidImageType) == "Invalid image_type. Must be one of: "
              + ImageTypes[0] + ", " + ImageTypes[1] + ", " + ImageTypes[2] + ", " + ImageTypes[3]
  {
    ImplodeFour(", ", DocumentTypes);
    ImplodeFour(", ", ImageTypes);
  }

  // ---------------------------------------------------------------------
  // Configuration

  predicate StartsWith(s: string, prefix: string) {
    |prefix| <= |s| && s[..|prefix|] == prefix
  }

  /** `rtrim($s, '/')`: the longest prefix of s that does not end in '/',
      all that is cut off being slashes. */
  function RTrimSlashes(s: string): (r: string)
    ensures |r| <= |s| && r == s[..|r|]
    ensures r == [] || r[|r| - 1] != '/'
    ensures forall i :: |r| <= i < |s| ==> s[i] == '/'
  {
    if s != [] && s[|s| - 1] == '/' then RTrimSlashes(s[..|s| - 1]) else s
  }

  /** The three properties of RTrimSlashes determine its result. */
  lemma RTrimSlashesUnique(s: string, t: string)
    requires |t| <= |s| && t == s[..|t|]
    requires t == [] || t[|t| - 1] != '/'
    requires forall i :: |t| <= i < |s| ==> s[i] == '/'
    ensures t == RTrimSlashes(s)
  {
  }

  /** Trimming twice trims nothing more, and a URL without a trailing slash
      is kept as given. */
  lemma RTrimSlashesIdempotent(s: string)
    ensures RTrimSlashes(RTrimSlashes(s)) == RTrimSlashes(s)
    ensures s == [] || s[|s| - 1] != '/' ==> RTrimSlashes(s) == s
  {
  }

  /** The client's settings, fixed once by the constructor. */
  datatype KycClient = KycClient(apiKey: string, baseUrl: string, testMode: bool) {
    /** What the constructor establishes: test mode follows the key prefix
        and the base URL carries no trailing slash. */
    predicate Valid() {
      testMode == StartsWith(apiKey, TestKeyPrefix) && RTrimSlashes(baseUrl) == baseUrl
    }

    function IsTestMode(): (r: bool)
      requires Valid()
      ensures r <==> StartsWith(apiKey, TestKeyPrefix)
    {
      testMode
    }

    function GetBaseUrl(): (r: string)
      requires Valid()
      ensures r == RTrimSlashes(r)
      ensures r == [] || r[|r| - 1] != '/'
    {
      baseUrl
    }
  }

  /** `new KycClient($apiKey, $baseUrl)` */
  function NewClient(apiKey: string, baseUrl: string): (c: KycClient)
    ensures c.Valid()
    ensures c.apiKey == apiKey
    ensures c.IsTestMode() <==> StartsWith(apiKey, TestKeyPrefix)
    ensures c.GetBaseUrl() == RTrimSlashes(baseUrl)
  {
    RTrimSlashesIdempotent(baseUrl);
    KycClient(apiKey, RTrimSlashes(baseUrl), StartsWith(apiKey, TestKeyPrefix))
  }

  /** The client tests: a test key, a live key, a custom and the default
      base URL. */
  lemma ClientExamples()
    ensures NewClient("dfb_test_example_key", DefaultBaseUrl).IsTestMode()
    ensures !NewClient("dfb_live_example_key", DefaultBaseUrl).IsTestMode()
    ensures NewClient("dfb_test_example_key", "http://localhost:8000").GetBaseUrl() == "http://localhost:8000"
    ensures NewClient("dfb_test_example_key", DefaultBaseUrl).GetBaseUrl() == DefaultBaseUrl
    ensures NewClient("k", "http://localhost:8000///").GetBaseUrl() == "http://localhost:8000"
  {
    assert "dfb_test_example_key"[..9] == TestKeyPrefix;
    assert "dfb_live_example_key"[5] != TestKeyPrefix[5];
    var u := "http://localhost:8000///";
    assert RTrimSlashes(u) == RTrimSlashes(u[..|u| - 1]);
    assert RTrimSlashes(u[..|u| - 1]) == RTrimSlashes(u[..|u| - 2]);
    assert RTrimSlashes(u[..|u| - 2]) == RTrimSlashes(u[..|u| - 3]);
    assert u[..|u| - 3] == "http://localhost:8000";
  }

  // ---------------------------------------------------------------------
  // Response envelopes

  /** The wrapped envelope `{..., "data": [...]}`: `data` is set and is an
      array. */
  predicate WrapsArray(body: Entries) {
    IsSet(body, S("data")) && ValueAt(body, S("data")).Arr?
  }

  /** `extractResponseData`: for a wrapped envelope, every top-level binding
      except `data`, merged (array_merge) with the bindings of `data`;
      otherwise the body itself. */
  function ExtractResponseData(body: Entries): (r: Entries)
    ensures !WrapsArray(body) ==> r == body
    ensures WrapsArray(body) ==> DistinctKeys(r)
    ensures WrapsArray(body) ==>
      var d := ValueAt(body, S("data")).entries;
      forall s :: Lookup(r, S(s)) ==
        if Lookup(d, S(s)).Some? then Lookup(d, S(s))
        else if s == "data" then None
        else Lookup(body, S(s))
    ensures WrapsArray(body) ==>
      var ints := IntValues(body) + IntValues(ValueAt(body, S("data")).entries);
      forall j :: Lookup(r, I(j)) == if 0 <= j < |ints| then Some(ints[j]) else None
  {
    if WrapsArray(body) then
      var rest := Without(body, S("data"));
      var d := ValueAt(body, S("data")).entries;
      MergeProperties(rest, d);
      Merge(rest, d)
    else body
  }

  /** A top-level key other than `data` that `data` does not rebind keeps
      its value through normalisation. */
  lemma ExtractKeepsOuterKey(body: Entries, s: string)
    requires WrapsArray(body) && s != "data"
    requires Lookup(ValueAt(body, S("data")).entries, S(s)).None?
    ensures Lookup(ExtractResponseData(body), S(s)) == Lookup(body, S(s))
  {
  }

  /** After normalising a wrapped envelope whose `data` has no `data` key of
      its own, there is no `data` key left. */
  lemma ExtractRemovesDataKey(body: Entries)
    requires WrapsArray(body)
    requires Lookup(ValueAt(body, S("data")).entries, S("data")).None?
    ensures Lookup(ExtractResponseData(body), S("data")).None?
  {
  }

  /** A list under `data` (integer keys) next to object-shaped top-level
      fields: the top-level fields stay as they were and the list's values
      follow them under the positional keys 0 .. n-1. */
  lemma ExtractWrappedList(body: Entries)
    requires StringKeyed(body) && DistinctKeys(body) && WrapsArray(body)
    requires IntKeyed(ValueAt(body, S("data")).entries)
    ensures ExtractResponseData(body)
         == Without(body, S("data")) + Renumbered(ValueAt(body, S("data")).entries, 0)
  {
    MergeStringsWithList(Without(body, S("data")), ValueAt(body, S("data")).entries);
  }

  /** Object-shaped top-level fields and `data`: the top-level fields other
      than `data` come first, in their order, each keeping its position
      when `data` overwrites it. */
  lemma ExtractKeepsPositions(body: Entries)
    requires StringKeyed(body) && DistinctKeys(body) && WrapsArray(body)
    requires StringKeyed(ValueAt(body, S("data")).entries)
    ensures var outer := Without(body, S("data"));
            var r := ExtractResponseData(body);
            IsSubsequence(outer, body) && |outer| <= |r|
            && forall i :: 0 <= i < |outer| ==> r[i].0 == outer[i].0
  {
    var outer := Without(body, S("data"));
    var inner := ValueAt(body, S("data")).entries;
    assert ExtractResponseData(body) == Merge(outer, inner);
    WithoutIsSubsequence(body, S("data"));
    MergeKeepsPositions(outer, inner);
  }

  /** After the top-level fields come exactly `data`'s fields that the top
      level lacks, in `data`'s order. */
  lemma ExtractAppendsNew(body: Entries)
    requires StringKeyed(body) && DistinctKeys(body) && WrapsArray(body)
    requires StringKeyed(ValueAt(body, S("data")).entries)
    requires DistinctKeys(ValueAt(body, S("data")).entries)
    ensures var outer := Without(body, S("data"));
            KeysOf(ExtractResponseData(body))
            == KeysOf(outer) + KeysOf(NewBindings(outer, ValueAt(body, S("data")).entries))
  {
    var outer := Without(body, S("data"));
    var inner := ValueAt(body, S("data")).entries;
    assert ExtractResponseData(body) == Merge(outer, inner);
    MergeAppendsNew(outer, inner);
  }

  /** Normalising twice changes nothing more, unless `data` itself wraps
      another `data` array. */
  lemma ExtractIdempotent(body: Entries)
    requires !WrapsArray(body) || !WrapsArray(ValueAt(body, S("data")).entries)
    ensures ExtractResponseData(ExtractResponseData(body)) == ExtractResponseData(body)
  {
    if WrapsArray(body) {
      var d := ValueAt(body, S("data")).entries;
      var r := ExtractResponseData(body);
      assert Lookup(r, S("data")) == Lookup(d, S("data"));
    }
  }

  /** The list of checks does not survive normalisation. listChecks
      normalises the body before building the list view, and the list view
      reads the list from `data`; once `data` has been merged away the view
      holds no checks, whatever the server sent. */
  lemma WrappedListLosesChecks(body: Entries)
    requires WrapsArray(body)
    requires Lookup(ValueAt(body, S("data")).entries, S("data")).None?
    ensures CheckLists.FromResponse(ExtractResponseData(body)).GetChecks() == []
  {
  }

  /** The same on the envelope `{status, data: [check], pagination}`: one
      check is listed by the server, none reaches the caller, while the
      pagination block passes through. */
  lemma WrappedListExample(check: Entries, total: int)
    ensures var body := [(S("status"), Str("success")),
                         (S("data"), Arr([(I(0), Arr(check))])),
                         (S("pagination"), Arr([(S("total"), Int(total))]))];
            var view := CheckLists.FromResponse(ExtractResponseData(body));
            view.GetChecks() == [] && view.GetTotal() == total
  {
    var page := [(S("total"), Int(total))];
    var list := [(I(0), Arr(check))];
    var e0, e1, e2 := (S("status"), Str("success")), (S("data"), Arr(list)), (S("pagination"), Arr(page));
    var body := [e0, e1, e2];
    LookupTriple(e0, e1, e2, S("data"));
    LookupTriple(e0, e1, e2, S("pagination"));
    LookupSingle(I(0), Arr(check), S("pagination"));
    LookupSingle(I(0), Arr(check), S("data"));
    WrappedListLosesChecks(body);
    ExtractKeepsOuterKey(body, "pagination");
    LookupSingle(S("total"), Int(total), S("total"));
  }

  /** A key that `data` binds takes `data`'s value. */
  lemma ExtractTakesDataKey(body: Entries, s: string)
    requires WrapsArray(body)
    requires Lookup(ValueAt(body, S("data")).entries, S(s)).Some?
    ensures Lookup(ExtractResponseData(body), S(s)) == Lookup(ValueAt(body, S("data")).entries, S(s))
  {
  }

  /** The two envelope shapes of the check tests give the same view: the
      wrapped one is flattened so that the id, status and result are read
      from inside `data`. */
  lemma EnvelopeExamples(id: string, status: string, result: string)
    ensures var inner := [(S("check_id"), Str(id)), (S("kyc_status"), Str(status)), (S("result"), Str(result))];
            var c := CheckResponses.CheckResponse(
                       ExtractResponseData([(S("status"), Str("success")), (S("data"), Arr(inner))]));
            c.GetCheckId() == id && c.GetStatus() == status && c.GetResult() == Some(result)
  {
    var i0, i1, i2 := (S("check_id"), Str(id)), (S("kyc_status"), Str(status)), (S("result"), Str(result));
    var inner := [i0, i1, i2];
    var body := [(S("status"), Str("success")), (S("data"), Arr(inner))];
    LookupPair(body[0], body[1], S("data"));
    LookupTriple(i0, i1, i2, S("check_id"));
    LookupTriple(i0, i1, i2, S("kyc_status"));
    LookupTriple(i0, i1, i2, S("result"));
    ExtractTakesDataKey(body, "check_id");
    ExtractTakesDataKey(body, "kyc_status");
    ExtractTakesDataKey(body, "result");
  }

  // ---------------------------------------------------------------------
  // validateCheckData

  /** A required field fails when it is not set or is empty in PHP's
      sense. */
  predicate Missing(data: Entries, field: string) {
    !IsSet(data, S(field)) || IsEmpty(ValueAt(data, S(field)))
  }

  /** The first of `fields` that is missing, if any. */
  function FirstMissing(data: Entries, fields: seq<string>): (r: Option<string>)
    ensures r.None? <==> forall i :: 0 <= i < |fields| ==> !Missing(data, fields[i])
    ensures r.Some? ==> exists i :: 0 <= i < |fields| && fields[i] == r.value
                          && Missing(data, fields[i])
                          && forall j :: 0 <= j < i ==> !Missing(data, fields[j])
  {
    if fields == [] then None
    else if Missing(data, fields[0]) then Some(fields[0])
    else
      var r := FirstMissing(data, fields[1..]);
      assert forall i :: 1 <= i < |fields| ==> fields[i] == fields[1..][i - 1];
      r
  }

  /** PHP 8's loose `$v == $w` against a word w that is neither empty nor
      numeric: equal strings match, and so does `true` (every such word is
      truthy); null, numbers, false and arrays never match. */
  predicate LooselyEqualsWord(v: Json, w: string) {
    v == Str(w) || v == Bool(true)
  }

  /** `in_array($v, $words)` with loose comparison. */
  predicate LooselyIn(v: Json, words: seq<string>) {
    exists i :: 0 <= i < |words| && LooselyEqualsWord(v, words[i])
  }

  /** What validateCheckData decides, in the order it checks. */
  function CheckDataVerdict(data: Entries): (r: Outcome)
    ensures r.Fail? && r.error.MissingField? ==> r.error.field in RequiredFields
    ensures r.Fail? ==> r.error.MissingField? || r.error in {InvalidDocumentType, DateOfBirthNotString, InvalidDateOfBirth}
    ensures r == Pass ==> ValueAt(data, S("date_of_birth")).Str?
                          && ParseYmd(ValueAt(data, S("date_of_birth")).s).Some?
  {
    match FirstMissing(data, RequiredFields)
    case Some(f) => Fail(MissingField(f))
    case None =>
      var docType := ValueAt(data, S("document_type"));
      var dob := ValueAt(data, S("date_of_birth"));
      if !LooselyIn(docType, DocumentTypes) then Fail(InvalidDocumentType)
      else if !dob.Str? then Fail(DateOfBirthNotString)
      else if ParseYmd(dob.s).None? then Fail(InvalidDateOfBirth)
      else Pass
  }

  /** `validateCheckData`: the required fields one by one, stopping at the
      first missing one, then the document type, then the date of birth. */
  method ValidateCheckData(data: Entries) returns (outcome: Outcome)
    ensures outcome == CheckDataVerdict(data)
  {
    var i := 0;
    while i < |RequiredFields|
      invariant 0 <= i <= |RequiredFields|
      invariant forall j :: 0 <= j < i ==> !Missing(data, RequiredFields[j])
    {
      var field := RequiredFields[i];
      if !IsSet(data, S(field)) || IsEmpty(ValueAt(data, S(field))) {
        return Fail(MissingField(field));
      }
      i := i + 1;
    }
    var docType := ValueAt(data, S("document_type"));
    if !LooselyIn(docType, DocumentTypes) {
      return Fail(InvalidDocumentType);
    }
    var dob := ValueAt(data, S("date_of_birth"));
    if !dob.Str? {
      return Fail(DateOfBirthNotString);
    }
    if ParseYmd(dob.s).None? {
      return Fail(InvalidDateOfBirth);
    }
    return Pass;
  }

  /** The missing-field error names exactly the first required field, in
      the order first_name, last_name, date_of_birth, document_type,
      document_number, that is missing. */
  lemma MissingFieldIsFirst(data: Entries, f: string)
    ensures CheckDataVerdict(data) == Fail(MissingField(f)) <==>
      exists i :: 0 <= i < |RequiredFields| && RequiredFields[i] == f && Missing(data, f)
                  && forall j :: 0 <= j < i ==> !Missing(data, RequiredFields[j])
  {
    var r := FirstMissing(data, RequiredFields);
    if exists i :: 0 <= i < |RequiredFields| && RequiredFields[i] == f && Missing(data, f)
                  && forall j :: 0 <= j < i ==> !Missing(data, RequiredFields[j]) {
      var i :| 0 <= i < |RequiredFields| && RequiredFields[i] == f && Missing(data, f)
               && forall j :: 0 <= j < i ==> !Missing(data, RequiredFields[j]);
      var k :| 0 <= k < |RequiredFields| && RequiredFields[k] == r.value
               && Missing(data, RequiredFields[k])
               && forall j :: 0 <= j < k ==> !Missing(data, RequiredFields[j]);
      assert k == i;
    }
  }

  /** With every required field present, an unknown document type is
      reported before anything about the date of birth is looked at. */
  lemma DocumentTypeCheckedBeforeDate(data: Entries)
    requires forall i :: 0 <= i < |RequiredFields| ==> !Missing(data, RequiredFields[i])
    requires !LooselyIn(ValueAt(data, S("document_type")), DocumentTypes)
    ensures CheckDataVerdict(data) == Fail(InvalidDocumentType)
  {
  }

  /** A payload passes exactly when every required field is present, the
      document type is one of the four (loosely), and the date of birth is
      a string that is the `Y-m-d` text of a real date. */
  lemma CheckDataAccepted(data: Entries)
    ensures CheckDataVerdict(data) == Pass <==>
      && (forall i :: 0 <= i < |RequiredFields| ==> !Missing(data, RequiredFields[i]))
      && LooselyIn(ValueAt(data, S("document_type")), DocumentTypes)
      && ValueAt(data, S("date_of_birth")).Str?
      && exists d :: ValidDate(d) && FormatYmd(d) == ValueAt(data, S("date_of_birth")).s
  {
    if ValueAt(data, S("date_of_birth")).Str? {
      AcceptedIffFormatted(ValueAt(data, S("date_of_birth")).s);
    }
  }

  /** A date of birth that is set but not a string (an integer, say) is
      reported as such, not as a bad format. */
  lemma NonStringDateOfBirth(data: Entries)
    requires forall i :: 0 <= i < |RequiredFields| ==> !Missing(data, RequiredFields[i])
    requires LooselyIn(ValueAt(data, S("document_type")), DocumentTypes)
    requires !ValueAt(data, S("date_of_birth")).Str?
    ensures CheckDataVerdict(data) == Fail(DateOfBirthNotString)
  {
  }

  /** A string date of birth that is not the `Y-m-d` text of any real date
      fails with the format message, once everything before it passes. */
  lemma InvalidDateOfBirthReported(data: Entries)
    requires forall i :: 0 <= i < |RequiredFields| ==> !Missing(data, RequiredFields[i])
    requires LooselyIn(ValueAt(data, S("document_type")), DocumentTypes)
    requires ValueAt(data, S("date_of_birth")).Str?
    requires forall d :: ValidDate(d) ==> FormatYmd(d) != ValueAt(data, S("date_of_birth")).s
    ensures CheckDataVerdict(data) == Fail(InvalidDateOfBirth)
  {
    AcceptedIffFormatted(ValueAt(data, S("date_of_birth")).s);
  }

  /** The loose comparison lets a boolean `true` document type through the
      document-type check. */
  lemma TrueDocumentTypeAccepted(data: Entries)
    requires ValueAt(data, S("document_type")) == Bool(true)
    ensures LooselyIn(ValueAt(data, S("document_type")), DocumentTypes)
  {
    assert LooselyEqualsWord(Bool(true), DocumentTypes[0]);
  }

  // ---------------------------------------------------------------------
  // validateDocumentUpload

  /** What the file system and the content sniffer report about the image
      file: file_exists, is_readable, filesize (None for false), whether
      finfo_open succeeded, and finfo_file's MIME type (None for false). */
  datatype FileFacts = FileFacts(
    present: bool,
    readable: bool,
    size: Option<nat>,
    snifferOpened: bool,
    mime: Option<string>)

  /** `validateDocumentUpload`, checking in order and stopping at the first
      failure. */
  function ValidateDocumentUpload(path: string, imageType: string, file: FileFacts): (r: Outcome)
    ensures r == Fail(FileNotFound(path)) <==> !file.present
    ensures r == Fail(FileNotReadable(path)) <==> file.present && !file.readable
    ensures r == Fail(InvalidImageType) <==>
              file.present && file.readable && imageType !in ImageTypes
    ensures r == Fail(FileTooLarge) <==>
              file.present && file.readable && imageType in ImageTypes
              && (file.size.None? || file.size.value > MaxFileSize)
    ensures r == Fail(MimeDetectionUnavailable) <==>
              file.present && file.readable && imageType in ImageTypes
              && file.size.Some? && file.size.value <= MaxFileSize && !file.snifferOpened
    ensures r == Pass <==>
              file.present && file.readable && imageType in ImageTypes
              && file.size.Some? && file.size.value <= MaxFileSize && file.snifferOpened
              && file.mime.Some? && file.mime.value in MimeTypes
    ensures r.Fail? ==> r.error in {FileNotFound(path), FileNotReadable(path), InvalidImageType,
                                   FileTooLarge, MimeDetectionUnavailable, InvalidImageFormat}
  {
    if !file.present then Fail(FileNotFound(path))
    else if !file.readable then Fail(FileNotReadable(path))
    else if imageType !in ImageTypes then Fail(InvalidImageType)
    else if file.size.None? || file.size.value > MaxFileSize then Fail(FileTooLarge)
    else if !file.snifferOpened then Fail(MimeDetectionUnavailable)
    else if file.mime.None? || file.mime.value !in MimeTypes then Fail(InvalidImageFormat)
    else Pass
  }

  /** The size limit is inclusive: 10485760 bytes pass, one more fails. */
  lemma SizeLimitInclusive(path: string)
    ensures ValidateDocumentUpload(path, "front",
              FileFacts(true, true, Some(10485760), true, Some("image/png"))) == Pass
    ensures ValidateDocumentUpload(path, "front",
              FileFacts(true, true, Some(10485761), true, Some("image/png"))) == Fail(FileTooLarge)
  {
  }
}
