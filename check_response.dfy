/** The read-only view of one KYC check (src/KycCheckResponse.php). The
    view keeps the array it was built from and answers every query by a
    lookup with a type guard and a documented default; it never fails on a
    missing or mistyped field. */
module CheckResponses {
  import opened PhpArrays

  datatype CheckResponse = CheckResponse(data: Entries) {

    /** `check_id` when it is a string, otherwise "". */
    function GetCheckId(): (r: string)
      ensures StringAt(data, S("check_id")).Some? ==> r == StringAt(data, S("check_id")).value
      ensures StringAt(data, S("check_id")).None? ==> r == ""
    {
      var v := Coalesce(data, S("check_id"), Str(""));
      if v.Str? then v.s else ""
    }

    /** `kyc_status ?? status ?? ''`, kept only when it is a string. The
        first non-null of the two keys is chosen BEFORE the type test, so a
        non-string `kyc_status` gives "" even when `status` is a string. */
    function GetStatus(): (r: string)
      ensures IsSet(data, S("kyc_status")) ==>
                r == StringAt(data, S("kyc_status")).GetOr("")
      ensures !IsSet(data, S("kyc_status")) ==>
                r == StringAt(data, S("status")).GetOr("")
    {
      var v := Coalesce(data, S("kyc_status"), Coalesce(data, S("status"), Str("")));
      if v.Str? then v.s else ""
    }

    /** `result` when it is a string, otherwise null. */
    function GetResult(): (r: Option<string>)
      ensures r == StringAt(data, S("result"))
    {
      OptionalString("result")
    }

    /** `risk_score` when it is a string, otherwise null. */
    function GetRiskScore(): (r: Option<string>)
      ensures r == StringAt(data, S("risk_score"))
    {
      OptionalString("risk_score")
    }

    /** `request_id` when it is a string, otherwise null. */
    function GetRequestId(): (r: Option<string>)
      ensures r == StringAt(data, S("request_id"))
    {
      OptionalString("request_id")
    }

    /** `$this->data[$key] ?? null`, kept only when it is a string. */
    function OptionalString(key: string): Option<string> {
      var v := Coalesce(data, S(key), Null);
      if v.Str? then Some(v.s) else None
    }

    /** `verification_details` when it is an array, otherwise []. */
    function GetVerificationDetails(): (r: Entries)
      ensures ArrayAt(data, S("verification_details")).Some? ==>
                r == ArrayAt(data, S("verification_details")).value
      ensures ArrayAt(data, S("verification_details")).None? ==> r == []
    {
      var v := Coalesce(data, S("verification_details"), Arr([]));
      if v.Arr? then v.entries else []
    }

    predicate IsApproved()
      ensures IsApproved() <==> Lookup(data, S("result")) == Some(Str("approved"))
    {
      GetResult() == Some("approved")
    }

    predicate IsRejected()
      ensures IsRejected() <==> Lookup(data, S("result")) == Some(Str("rejected"))
    {
      GetResult() == Some("rejected")
    }

    predicate RequiresReview()
      ensures RequiresReview() <==> Lookup(data, S("result")) == Some(Str("review_required"))
    {
      GetResult() == Some("review_required")
    }

    predicate IsPending()
      ensures IsPending() <==> StatusField() in {Str("pending"), Str("in_progress")}
    {
      GetStatus() in ["pending", "in_progress"]
    }

    predicate IsCompleted()
      ensures IsCompleted() <==> StatusField() == Str("completed")
    {
      GetStatus() == "completed"
    }

    /** The raw value the status is read from: `kyc_status` when it is set,
        `status` (or null) otherwise. */
    function StatusField(): Json {
      if IsSet(data, S("kyc_status")) then ValueAt(data, S("kyc_status")) else ValueAt(data, S("status"))
    }

    function GetRawData(): (r: Entries)
      ensures CheckResponse(r) == this
    {
      data
    }

    function ToArray(): (r: Entries)
      ensures CheckResponse(r) == this
    {
      data
    }
  }

  /** At most one of the three result predicates holds, and none holds when
      there is no string result. */
  lemma ResultPredicatesExclusive(c: CheckResponse)
    ensures !(c.IsApproved() && c.IsRejected())
    ensures !(c.IsApproved() && c.RequiresReview())
    ensures !(c.IsRejected() && c.RequiresReview())
    ensures c.GetResult().None? ==> !c.IsApproved() && !c.IsRejected() && !c.RequiresReview()
    ensures c.IsApproved() ==> StringAt(c.data, S("result")) == Some("approved")
  {
  }

  /** A check is pending exactly when its status is pending or in_progress,
      and never both pending and completed. */
  lemma PendingAndCompleted(c: CheckResponse)
    ensures c.IsPending() <==> c.GetStatus() == "pending" || c.GetStatus() == "in_progress"
    ensures !(c.IsPending() && c.IsCompleted())
  {
  }

  /** The status does not fall back to `status` past a `kyc_status` that is
      set but is not a string. */
  lemma StatusDoesNotFallBackPastNonString(c: CheckResponse, n: int)
    requires Lookup(c.data, S("kyc_status")) == Some(Int(n))
    ensures c.GetStatus() == ""
  {
  }

  /** The status falls back to `status` when `kyc_status` is null or absent. */
  lemma StatusFallsBackPastNull(c: CheckResponse, s: string)
    requires ValueAt(c.data, S("kyc_status")) == Null
    requires Lookup(c.data, S("status")) == Some(Str(s))
    ensures c.GetStatus() == s
  {
  }

  /** The check id reads `check_id` and no other key: rebinding any other
      key, `id` included, leaves it unchanged. */
  lemma CheckIdReadsOnlyCheckId(d: Entries, k: Key, v: Json)
    requires k != S("check_id")
    ensures CheckResponse(SetKey(d, k, v)).GetCheckId() == CheckResponse(d).GetCheckId()
  {
  }

  /** The check id has no fallback to `id`: a payload carrying only `id`
      (a string or an integer) has the empty check id. */
  lemma NoIdFallback(id: Json)
    ensures CheckResponse([(S("id"), id), (S("status"), Str("pending"))]).GetCheckId() == ""
  {
    LookupPair((S("id"), id), (S("status"), Str("pending")), S("check_id"));
  }

  /** The raw data and the array form are the constructor's input,
      unchanged. */
  lemma RawDataRoundTrip(d: Entries)
    ensures CheckResponse(d).GetRawData() == d
    ensures CheckResponse(d).ToArray() == d
  {
  }
}
