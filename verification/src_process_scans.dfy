/** The `src/` variant of the scan processing: a lenient verdict that rates the file HIGH when
    any engine's `detected` is truthy, and technical details made of the
    markdown table alone. */
module SrcProcessScans {
  import opened PyValues
  import opened Detection
  import AgentProcessScans
  import ReportText

  datatype RiskRating = HIGH | SECURE

  /** HIGH exactly when, walking the records in order, a record whose
      `detected` is truthy is reached before any record whose `detected`
      cannot be read; such a record raises instead.  SECURE when every record
      was read and none is truthy (in particular for no records at all). */
  function GetRiskRating(scans: Dict): (r: Result<RiskRating>)
    ensures |scans| == 0 ==> r == Ok(SECURE)
    ensures r == Ok(HIGH) <==>
              exists i :: 0 <= i < |scans| && PassedBefore(scans, i, Truthy)
                          && DetectedAt(scans, i).Ok? && Truthy(DetectedAt(scans, i).value)
    ensures r == Ok(SECURE) <==>
              forall i :: 0 <= i < |scans| ==>
                DetectedAt(scans, i).Ok? && !Truthy(DetectedAt(scans, i).value)
    ensures r.Raise? <==>
              exists i :: 0 <= i < |scans| && PassedBefore(scans, i, Truthy) && DetectedAt(scans, i).Raise?
  {
    FirstHitStopsAtFirst(scans, Truthy);
    match FirstHit(scans, Truthy)
    case Ok(hit) => Ok(if hit then HIGH else SECURE)
    case Raise(e) => Raise(e)
  }

  /** A record whose `detected` cannot be read raises exactly its exception
      when the loop reaches it, that is, when every earlier record has a
      readable `detected` that is not truthy. */
  lemma RiskRatingRaisesAtUnreadableRecord(scans: Dict, i: nat)
    requires i < |scans| && PassedBefore(scans, i, Truthy) && DetectedAt(scans, i).Raise?
    ensures GetRiskRating(scans) == Raise(DetectedAt(scans, i).error)
  {
    FirstHitStopsAtFirst(scans, Truthy);
    assert StopsAt(scans, i, Truthy);
  }

  /** When every record has `detected`, the rating never raises and depends
      only on the multiset of `detected` values: not on engine names, not on
      their order. */
  lemma RiskRatingDependsOnlyOnDetectedValues(a: Dict, b: Dict)
    requires AllDetected(a) && AllDetected(b)
    requires multiset(DetectedValues(a)) == multiset(DetectedValues(b))
    ensures GetRiskRating(a).Ok?
    ensures GetRiskRating(a) == GetRiskRating(b)
  {
    FirstHitByValues(a, Truthy);
    FirstHitByValues(b, Truthy);
    assert forall v :: v in DetectedValues(a) <==> v in DetectedValues(b) by {
      forall v ensures v in DetectedValues(a) <==> v in DetectedValues(b) {
        assert v in DetectedValues(a) <==> v in multiset(DetectedValues(a));
        assert v in DetectedValues(b) <==> v in multiset(DetectedValues(b));
      }
    }
  }

  /** Monotonicity: storing a record with a truthy `detected` under any
      engine (`scans[engine] = record`) of a scan set that rated without
      raising makes the rating HIGH. */
  lemma RiskRatingHighAfterTruthyRecord(scans: Dict, engine: string, record: Value)
    requires GetRiskRating(scans).Ok?
    requires Subscript(record, DetectedKey).Ok? && Truthy(Subscript(record, DetectedKey).value)
    ensures GetRiskRating(SetItem(scans, engine, record)) == Ok(HIGH)
  {
    FirstHitSetItem(scans, engine, record, Truthy);
  }

  /** A HIGH rating survives any engine added to the scan set: the loop stops
      before the new record is read. */
  lemma RiskRatingHighSurvivesNewEngine(scans: Dict, engine: string, record: Value)
    requires engine !in KeySet(scans)
    requires GetRiskRating(scans) == Ok(HIGH)
    ensures GetRiskRating(SetItem(scans, engine, record)) == Ok(HIGH)
  {
    FirstHitAppend(scans, [(engine, record)], Truthy);
  }

  /** The technical details of this variant are the markdown table alone: the
      agent's technical details with neither a target nor a link, when both
      are given the same markdown helpers (each variant imports its own
      markdown module). */
  function GetTechnicalDetails<R>(prepare: Dict -> R, tableMarkdown: R -> string, scans: Dict): (r: string)
    ensures r == AgentProcessScans.GetTechnicalDetails(prepare, tableMarkdown, scans, None, None)
  {
    var formatted := prepare(scans);
    tableMarkdown(formatted)
  }

  /** The table-only text reads back as carrying neither a target header nor
      a link sentence, whenever the table does not itself open like a header. */
  lemma TableOnlyDetailsHaveNoHeaderOrLink<R>(prepare: Dict -> R, tableMarkdown: R -> string, scans: Dict)
    requires !(ReportText.HeaderOpen <= tableMarkdown(prepare(scans)))
    ensures ReportText.ParseReport(GetTechnicalDetails(prepare, tableMarkdown, scans), tableMarkdown(prepare(scans)))
            == Some(ReportText.ReportParts(None, None))
  {
    AgentProcessScans.ParseInvertsTechnicalDetails(prepare, tableMarkdown, scans, None, None);
  }
}
