/** Extracting the per-engine scans from a decoded report of the scanning
    service.  Fetching the report is not modelled: the response arrives as a
    parameter. */
module AgentVirusTotal {
  import opened PyValues

  /** `response.get("results", {}).get("response_code") == 1` selects
      `response["results"]["scans"]`; any other answer is None.  A `results`
      that is present but not a dict has no `get` and raises, and a report
      with the success code but no `scans` raises KeyError. */
  function GetScans(response: Dict): (r: Result<Option<Value>>)
    ensures Lookup(response, "results").None? ==> r == Ok(None)
    ensures Lookup(response, "results").Some? && !Lookup(response, "results").value.DictValue? ==>
              r == Raise(AttributeError("get"))
    ensures Lookup(response, "results").Some? && Lookup(response, "results").value.DictValue? ==>
              var results := Lookup(response, "results").value.entries;
              var code := Lookup(results, "response_code");
              var scans := Lookup(results, "scans");
              && (code.Some? && EqualsOne(code.value) && scans.Some? ==> r == Ok(Some(scans.value)))
              && (code.Some? && EqualsOne(code.value) && scans.None? ==> r == Raise(KeyError("scans")))
              && (!(code.Some? && EqualsOne(code.value)) ==> r == Ok(None))
  {
    var results := DictGet(response, "results", DictValue([]));
    match GetMethod(results, "response_code")
    case Raise(e) => Raise(e)
    case Ok(code) =>
      if EqualsOne(code) then
        match Subscript(DictValue(response), "results")
        case Raise(e) => Raise(e)
        case Ok(found) =>
          match Subscript(found, "scans")
          case Raise(e) => Raise(e)
          case Ok(scans) => Ok(Some(scans))
      else Ok(None)
  }

  /** A response carrying the scans under a success code. */
  function ReportResponse(code: Value, scans: Value): Dict
  {
    [("results", DictValue([("response_code", code), ("scans", scans)]))]
  }

  /** Round trip: the scans put into a report come back unchanged exactly when
      the report's code equals 1; otherwise there is no report. */
  lemma GetScansOfReport(code: Value, scans: Value)
    ensures GetScans(ReportResponse(code, scans)) == (if EqualsOne(code) then Ok(Some(scans)) else Ok(None))
  {
    var results := [("response_code", code), ("scans", scans)];
    assert Lookup(ReportResponse(code, scans), "results") == Some(DictValue(results));
    assert Lookup(results, "response_code") == Some(code);
    assert Lookup(results, "scans") == Some(scans);
  }
}
