/** The read-only view of the documents of one check
    (src/KycDocumentListResponse.php): the array under `documents`, kept
    only when it is an array. Entries are raw arrays; nothing here wraps
    them in the single-document view. */
module DocumentLists {
  import opened PhpArrays

  /** An entry that is an array whose `has_ocr_data` is exactly true. */
  predicate FlagsOcr(doc: Json) {
    doc.Arr? && Coalesce(doc.entries, S("has_ocr_data"), Bool(false)) == Bool(true)
  }

  /** An entry that is an array whose `image_type` is exactly t. */
  predicate OfType(doc: Json, t: string) {
    doc.Arr? && Coalesce(doc.entries, S("image_type"), Null) == Str(t)
  }

  datatype DocumentListResponse = DocumentListResponse(data: Entries) {

    /** `array_map` over the stored list: same keys, same order, every
        non-array entry replaced by an empty array. */
    function GetDocuments(): (r: seq<(Key, Entries)>)
      ensures |r| == |data|
      ensures forall i :: 0 <= i < |r| ==> r[i].0 == data[i].0
      ensures forall i :: 0 <= i < |r| ==>
                r[i].1 == (if data[i].1.Arr? then data[i].1.entries else [])
    {
      AsArrays(data)
    }

    function GetCount(): (r: nat)
      ensures r == |GetDocuments()|
    {
      |data|
    }

    /** Whether some entry carries the OCR flag (the source's loop returns
        true at the first such entry). */
    predicate HasOcrData()
      ensures HasOcrData() <==> exists i :: 0 <= i < |data| && FlagsOcr(data[i].1)
    {
      AnyFlagsOcr(data)
    }

    /** `array_filter` of the stored list by image type: keys are kept, not
        renumbered. */
    function GetDocumentsByType(t: string): (r: Entries)
      ensures forall p :: p in r <==> p in data && OfType(p.1, t)
      ensures |r| <= |data|
      ensures DistinctKeys(data) ==> DistinctKeys(r)
      ensures IsSubsequence(r, data)
    {
      KeepOfType(data, t)
    }

    function GetRawData(): (r: Entries)
      ensures DocumentListResponse(r) == this
    {
      data
    }
  }

  /** The constructor: the list is kept only when it is an array. */
  function FromResponse(response: Entries): (r: DocumentListResponse)
    ensures r.data == ArrayAt(response, S("documents")).GetOr([])
  {
    var d := Coalesce(response, S("documents"), Null);
    DocumentListResponse(if d.Arr? then d.entries else [])
  }

  function AsArrays(list: Entries): (r: seq<(Key, Entries)>)
    ensures |r| == |list|
    ensures forall i :: 0 <= i < |r| ==> r[i].0 == list[i].0
    ensures forall i :: 0 <= i < |r| ==>
              r[i].1 == (if list[i].1.Arr? then list[i].1.entries else [])
  {
    if list == [] then []
    else
      var v := list[0].1;
      [(list[0].0, if v.Arr? then v.entries else [])] + AsArrays(list[1..])
  }

  predicate AnyFlagsOcr(list: Entries)
    ensures AnyFlagsOcr(list) <==> exists i :: 0 <= i < |list| && FlagsOcr(list[i].1)
  {
    if list == [] then false
    else if FlagsOcr(list[0].1) then true
    else
      assert forall i :: 1 <= i < |list| ==> list[i] == list[1..][i - 1];
      AnyFlagsOcr(list[1..])
  }

  function KeepOfType(list: Entries, t: string): (r: Entries)
    ensures forall p :: p in r <==> p in list && OfType(p.1, t)
    ensures |r| <= |list|
    ensures DistinctKeys(list) ==> DistinctKeys(r)
    ensures IsSubsequence(r, list)
  {
    if list == [] then []
    else
      var rest := KeepOfType(list[1..], t);
      if OfType(list[0].1, t) then
        var r := [list[0]] + rest;
        assert r[1..] == rest;
        r
      else rest
  }

  /** The count is the number of stored entries, which is also the number of
      documents returned. */
  lemma CountMatchesDocuments(response: Entries)
    ensures FromResponse(response).GetCount() == |ArrayAt(response, S("documents")).GetOr([])|
    ensures FromResponse(response).GetCount() == |FromResponse(response).GetDocuments()|
  {
  }

  /** Filtering keeps each entry's own key: a matching entry stored under
      key 5 is still found under key 5. */
  lemma FilterKeepsKeys(l: DocumentListResponse, i: int, t: string)
    requires 0 <= i < |l.data| && OfType(l.data[i].1, t)
    ensures l.data[i] in l.GetDocumentsByType(t)
  {
    assert l.data[i] in l.data;
  }

  /** The raw data is the stored list, unchanged. */
  lemma DocumentListRawData(response: Entries)
    ensures FromResponse(response).GetRawData() == ArrayAt(response, S("documents")).GetOr([])
  {
  }
}
