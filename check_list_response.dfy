/** The read-only view of a page of KYC checks
    (src/KycCheckListResponse.php): the list under `data` and the
    pagination block under `pagination`, each kept only when it is an
    array. */
module CheckLists {
  import opened PhpArrays
  import opened CheckResponses

  const DefaultTotal := 0
  const DefaultPerPage := 20
  const DefaultCurrentPage := 1
  const DefaultLastPage := 1

  datatype CheckListResponse = CheckListResponse(data: Entries, pagination: Entries) {

    /** `array_map` of the check view over the stored list: same keys, same
        order, a non-array element viewed as an empty check. */
    function GetChecks(): (r: seq<(Key, CheckResponse)>)
      ensures |r| == |data|
      ensures forall i :: 0 <= i < |r| ==> r[i].0 == data[i].0
      ensures forall i :: 0 <= i < |r| ==>
                r[i].1.data == (if data[i].1.Arr? then data[i].1.entries else [])
    {
      WrapChecks(data)
    }

    /** `pagination.total` when it is an integer, otherwise 0. */
    function GetTotal(): (r: int)
      ensures r == IntAt(pagination, S("total")).GetOr(DefaultTotal)
    {
      IntOr("total", DefaultTotal)
    }

    /** `pagination.per_page` when it is an integer, otherwise 20. */
    function GetPerPage(): (r: int)
      ensures r == IntAt(pagination, S("per_page")).GetOr(DefaultPerPage)
    {
      IntOr("per_page", DefaultPerPage)
    }

    /** `pagination.current_page` when it is an integer, otherwise 1. */
    function GetCurrentPage(): (r: int)
      ensures r == IntAt(pagination, S("current_page")).GetOr(DefaultCurrentPage)
    {
      IntOr("current_page", DefaultCurrentPage)
    }

    /** `pagination.last_page` when it is an integer, otherwise 1. */
    function GetLastPage(): (r: int)
      ensures r == IntAt(pagination, S("last_page")).GetOr(DefaultLastPage)
    {
      IntOr("last_page", DefaultLastPage)
    }

    /** `$this->pagination[$key] ?? $default`, kept only when it is an
        integer. */
    function IntOr(key: string, default: int): int {
      var v := Coalesce(pagination, S(key), Int(default));
      if v.Int? then v.i else default
    }

    predicate HasMorePages()
      ensures HasMorePages() <==>
                IntAt(pagination, S("current_page")).GetOr(DefaultCurrentPage)
                < IntAt(pagination, S("last_page")).GetOr(DefaultLastPage)
    {
      GetCurrentPage() < GetLastPage()
    }

    function GetRawData(): (r: Entries)
      ensures CheckListResponse(r, pagination) == this
    {
      data
    }
  }

  /** The constructor: each part is kept only when it is an array. */
  function FromResponse(response: Entries): (r: CheckListResponse)
    ensures r.data == ArrayAt(response, S("data")).GetOr([])
    ensures r.pagination == ArrayAt(response, S("pagination")).GetOr([])
  {
    var d := Coalesce(response, S("data"), Null);
    var p := Coalesce(response, S("pagination"), Null);
    CheckListResponse(if d.Arr? then d.entries else [], if p.Arr? then p.entries else [])
  }

  function WrapChecks(list: Entries): (r: seq<(Key, CheckResponse)>)
    ensures |r| == |list|
    ensures forall i :: 0 <= i < |r| ==> r[i].0 == list[i].0
    ensures forall i :: 0 <= i < |r| ==>
              r[i].1.data == (if list[i].1.Arr? then list[i].1.entries else [])
  {
    if list == [] then []
    else
      var v := list[0].1;
      [(list[0].0, CheckResponse(if v.Arr? then v.entries else []))] + WrapChecks(list[1..])
  }

  /** There are more pages exactly when the current page is before the last
      one: not for equal pages, not past the end, and not without
      pagination. */
  lemma MorePagesCases(l: CheckListResponse)
    ensures l.HasMorePages() <==> l.GetCurrentPage() < l.GetLastPage()
    ensures l.GetCurrentPage() >= l.GetLastPage() ==> !l.HasMorePages()
    ensures l.pagination == [] ==> !l.HasMorePages()
  {
  }

  /** A response without a pagination array reads the documented defaults. */
  lemma PaginationDefaults(response: Entries)
    requires ArrayAt(response, S("pagination")).None?
    ensures FromResponse(response).GetTotal() == 0
    ensures FromResponse(response).GetPerPage() == 20
    ensures FromResponse(response).GetCurrentPage() == 1
    ensures FromResponse(response).GetLastPage() == 1
    ensures !FromResponse(response).HasMorePages()
  {
  }

  /** A non-array element of the list becomes a check with an empty id. */
  lemma NonArrayCheckHasNoId(l: CheckListResponse, i: int)
    requires 0 <= i < |l.data| && !l.data[i].1.Arr?
    ensures l.GetChecks()[i].1.GetCheckId() == ""
  {
  }

  /** The raw data is the stored list, unchanged. */
  lemma ListRawData(response: Entries)
    ensures FromResponse(response).GetRawData() == ArrayAt(response, S("data")).GetOr([])
  {
  }
}
