/** The read-only view of one uploaded document and its OCR extraction
    (src/KycDocumentResponse.php). Document fields live under `document`,
    OCR fields under `document.ocr_data`; every accessor type-checks what it
    finds and answers null otherwise. */
module DocumentResponses {
  import opened PhpArrays

  /** The text fields of the OCR extraction, one per string accessor:
      getExtractedDocumentType() .. getExtractedAddress() and getProvider(). */
  datatype OcrText =
    | DocumentType | FullName | FirstName | LastName | IdNumber
    | DateOfBirth | Gender | Nationality | Address | Provider

  /** The key of each text field inside `ocr_data`. */
  function OcrKey(f: OcrText): string {
    match f
    case DocumentType => "document_type"
    case FullName => "full_name"
    case FirstName => "first_name"
    case LastName => "last_name"
    case IdNumber => "id_number"
    case DateOfBirth => "date_of_birth"
    case Gender => "gender"
    case Nationality => "nationality"
    case Address => "address"
    case Provider => "provider"
  }

  datatype DocumentResponse = DocumentResponse(data: Entries) {

    /** `$this->data['document'] ?? []` when that is an array; None when it
        is set to anything else. */
    function Document(): (r: Option<Entries>)
      ensures !IsSet(data, S("document")) ==> r == Some([])
      ensures IsSet(data, S("document")) ==> r == ArrayAt(data, S("document"))
    {
      var v := Coalesce(data, S("document"), Arr([]));
      if v.Arr? then Some(v.entries) else None
    }

    /** `document.id` when the document is an array and the id an integer. */
    function GetId(): (r: Option<int>)
      ensures r.Some? <==> exists e :: ArrayAt(data, S("document")) == Some(e) && IntAt(e, S("id")).Some?
      ensures r.Some? ==> IntAt(ArrayAt(data, S("document")).value, S("id")) == r
    {
      match Document()
      case None => None
      case Some(doc) =>
        var v := Coalesce(doc, S("id"), Null);
        if v.Int? then Some(v.i) else None
    }

    /** `document.image_type` when the document is an array and the field a
        string. */
    function GetImageType(): (r: Option<string>)
      ensures r.Some? <==> exists e :: ArrayAt(data, S("document")) == Some(e) && StringAt(e, S("image_type")).Some?
      ensures r.Some? ==> StringAt(ArrayAt(data, S("document")).value, S("image_type")) == r
    {
      match Document()
      case None => None
      case Some(doc) =>
        var v := Coalesce(doc, S("image_type"), Null);
        if v.Str? then Some(v.s) else None
    }

    /** The server's own flag: true only when `document.has_ocr_data` is
        exactly boolean true. Whether `ocr_data` exists plays no part. */
    predicate HasOcrData()
      ensures HasOcrData() <==> exists e :: ArrayAt(data, S("document")) == Some(e) && Lookup(e, S("has_ocr_data")) == Some(Bool(true))
    {
      match Document()
      case None => false
      case Some(doc) => Coalesce(doc, S("has_ocr_data"), Bool(false)) == Bool(true)
    }

    /** `document.ocr_data` when both it and the document are arrays. */
    function GetOcrData(): (r: Option<Entries>)
      ensures r.Some? <==> exists e :: ArrayAt(data, S("document")) == Some(e) && ArrayAt(e, S("ocr_data")).Some?
      ensures r.Some? ==> ArrayAt(ArrayAt(data, S("document")).value, S("ocr_data")) == r
    {
      match Document()
      case None => None
      case Some(doc) =>
        var v := Coalesce(doc, S("ocr_data"), Null);
        if v.Arr? then Some(v.entries) else None
    }

    /** The OCR text field f (getExtractedFullName() is
        GetExtracted(FullName), and so on; getProvider() is
        GetExtracted(Provider)): null without OCR data, otherwise the field
        when it is a string. */
    function GetExtracted(f: OcrText): (r: Option<string>)
      ensures GetOcrData().None? ==> r.None?
      ensures GetOcrData().Some? ==> r == StringAt(GetOcrData().value, S(OcrKey(f)))
    {
      match GetOcrData()
      case None => None
      case Some(ocr) =>
        var v := Coalesce(ocr, S(OcrKey(f)), Null);
        if v.Str? then Some(v.s) else None
    }

    /** `ocr_data.confidence` when it is an integer; no range is enforced. */
    function GetConfidence(): (r: Option<int>)
      ensures GetOcrData().None? ==> r.None?
      ensures GetOcrData().Some? ==> r == IntAt(GetOcrData().value, S("confidence"))
    {
      match GetOcrData()
      case None => None
      case Some(ocr) =>
        var v := Coalesce(ocr, S("confidence"), Null);
        if v.Int? then Some(v.i) else None
    }

    /** The top-level `status` when it is a string, otherwise "". */
    function GetStatus(): (r: string)
      ensures r == StringAt(data, S("status")).GetOr("")
    {
      var v := Coalesce(data, S("status"), Str(""));
      if v.Str? then v.s else ""
    }

    predicate IsSuccessful()
      ensures IsSuccessful() <==> Lookup(data, S("status")) == Some(Str("success"))
    {
      GetStatus() == "success"
    }

    function GetRawData(): (r: Entries)
      ensures DocumentResponse(r) == this
    {
      data
    }

    function ToArray(): (r: Entries)
      ensures DocumentResponse(r) == this
    {
      data
    }
  }

  /** Without a document array every document accessor answers null and the
      OCR flag is false. */
  lemma NoDocumentMeansNoFields(r: DocumentResponse, f: OcrText)
    requires ArrayAt(r.data, S("document")).None?
    ensures r.GetId().None? && r.GetImageType().None? && r.GetOcrData().None?
    ensures !r.HasOcrData()
    ensures r.GetExtracted(f).None? && r.GetConfidence().None?
  {
  }

  /** A string id is not an id: only integers are returned. */
  lemma StringIdIsNull(doc: Entries, s: string)
    requires Lookup(doc, S("id")) == Some(Str(s))
    ensures DocumentResponse([(S("document"), Arr(doc))]).GetId().None?
  {
    LookupSingle(S("document"), Arr(doc), S("document"));
  }

  /** The OCR flag and the OCR payload are independent: the flag can be true
      with no payload, and a payload can be present with the flag absent. */
  lemma OcrFlagIndependentOfPayload(ocr: Entries)
    ensures var r := DocumentResponse([(S("document"), Arr([(S("has_ocr_data"), Bool(true))]))]);
            r.HasOcrData() && r.GetOcrData().None?
    ensures var r := DocumentResponse([(S("document"), Arr([(S("ocr_data"), Arr(ocr))]))]);
            !r.HasOcrData() && r.GetOcrData() == Some(ocr)
  {
    LookupSingle(S("document"), Arr([(S("has_ocr_data"), Bool(true))]), S("document"));
    LookupSingle(S("has_ocr_data"), Bool(true), S("has_ocr_data"));
    LookupSingle(S("has_ocr_data"), Bool(true), S("ocr_data"));
    LookupSingle(S("document"), Arr([(S("ocr_data"), Arr(ocr))]), S("document"));
    LookupSingle(S("ocr_data"), Arr(ocr), S("has_ocr_data"));
    LookupSingle(S("ocr_data"), Arr(ocr), S("ocr_data"));
  }

  /** The confidence is returned as the server sent it, even outside
      0 .. 100. */
  lemma ConfidenceNotClamped(n: int)
    ensures DocumentResponse([(S("document"), Arr([(S("ocr_data"), Arr([(S("confidence"), Int(n))]))]))])
              .GetConfidence() == Some(n)
  {
    var ocr := [(S("confidence"), Int(n))];
    var doc := [(S("ocr_data"), Arr(ocr))];
    LookupSingle(S("document"), Arr(doc), S("document"));
    LookupSingle(S("ocr_data"), Arr(ocr), S("ocr_data"));
    LookupSingle(S("confidence"), Int(n), S("confidence"));
  }

  /** The upload succeeded exactly when the status is "success". */
  lemma SuccessfulIffSuccessStatus(r: DocumentResponse)
    ensures r.IsSuccessful() <==> StringAt(r.data, S("status")) == Some("success")
  {
  }

  /** The raw data and the array form are the constructor's input,
      unchanged. */
  lemma DocumentRawDataRoundTrip(d: Entries)
    ensures DocumentResponse(d).GetRawData() == d
    ensures DocumentResponse(d).ToArray() == d
  {
  }
}
