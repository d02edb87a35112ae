/** The agent's scan processing: dropping the reports of engines known for
    false positives, the strict verdict (`detected is True`), and the
    technical-details text wrapped around the markdown table. */
module AgentProcessScans {
  import opened PyValues
  import opened Detection
  import opened ReportText

  /** Engines whose reports carry many false positives. */
  const ExcludedScanners: seq<string> := ["K7GW", "TrendMicro-HouseCall"]

  /** The excluded engines as a set, the form the contracts below use. */
  const ExcludedSet: set<string> := set k | k in ExcludedScanners

  /** The excluded engines are exactly the two named ones. */
  lemma ExcludedSetIsTwoEngines()
    ensures ExcludedSet == {"K7GW", "TrendMicro-HouseCall"}
  {
  }

  /** `for scanner in keys: scans.pop(scanner, None)`. */
  function PopEach(scans: Dict, keys: seq<string>): (r: Dict)
    ensures r == WithoutKeys(scans, set k | k in keys)
    decreases |keys|
  {
    if |keys| == 0 then
      assert (set k | k in keys) == {};
      WithoutAbsentKeys(scans, {});
      scans
    else
      var rest := PopEach(Pop(scans, keys[0]), keys[1..]);
      WithoutKeysTwice(scans, {keys[0]}, set k | k in keys[1..]);
      assert (set k | k in keys) == {keys[0]} + (set k | k in keys[1..]) by {
        assert keys == [keys[0]] + keys[1..];
      }
      rest
  }

  /** The scans without the excluded engines; every other entry keeps its
      value and its place, and an excluded engine that is absent changes
      nothing. */
  function ExcludeUnreliableScans(scans: Dict): (r: Dict)
    ensures r == WithoutKeys(scans, ExcludedSet)
    ensures KeySet(r) == KeySet(scans) - ExcludedSet
    ensures forall e :: e in r <==> e in scans && e.0 !in ExcludedSet
    ensures DistinctKeys(scans) ==> DistinctKeys(r)
  {
    PopEach(scans, ExcludedScanners)
  }

  /** Excluding twice is excluding once. */
  lemma ExcludeIsIdempotent(scans: Dict)
    ensures ExcludeUnreliableScans(ExcludeUnreliableScans(scans)) == ExcludeUnreliableScans(scans)
  {
    WithoutKeysTwice(scans, ExcludedSet, ExcludedSet);
    assert ExcludedSet + ExcludedSet == ExcludedSet;
  }

  /** With no excluded engine present, the scans come back unchanged. */
  lemma ExcludeWithoutExcludedEngines(scans: Dict)
    requires KeySet(scans) !! ExcludedSet
    ensures ExcludeUnreliableScans(scans) == scans
  {
    WithoutAbsentKeys(scans, ExcludedSet);
  }

  /** The strict verdict: True exactly when, walking the records in order,
      a record whose `detected` is the boolean True is reached before any
      record whose `detected` cannot be read; such a record raises instead.
      Truthy values other than True never count. */
  function IsScanMalicious(scans: Dict): (r: Result<bool>)
    ensures |scans| == 0 ==> r == Ok(false)
    ensures r == Ok(true) <==>
              exists i :: 0 <= i < |scans| && PassedBefore(scans, i, IsTrue)
                          && DetectedAt(scans, i) == Ok(BoolValue(true))
    ensures r == Ok(false) <==>
              forall i :: 0 <= i < |scans| ==>
                DetectedAt(scans, i).Ok? && DetectedAt(scans, i).value != BoolValue(true)
    ensures r.Raise? <==>
              exists i :: 0 <= i < |scans| && PassedBefore(scans, i, IsTrue) && DetectedAt(scans, i).Raise?
  {
    FirstHitStopsAtFirst(scans, IsTrue);
    FirstHit(scans, IsTrue)
  }

  /** A record whose `detected` cannot be read raises exactly its exception
      when the loop reaches it. */
  lemma MaliciousRaisesAtUnreadableRecord(scans: Dict, i: nat)
    requires i < |scans| && PassedBefore(scans, i, IsTrue) && DetectedAt(scans, i).Raise?
    ensures IsScanMalicious(scans) == Raise(DetectedAt(scans, i).error)
  {
    FirstHitStopsAtFirst(scans, IsTrue);
    assert StopsAt(scans, i, IsTrue);
  }

  /** Once a True record is found, nothing that follows is read, not even a
      record lacking `detected`. */
  lemma MaliciousShortCircuits(scans: Dict, later: Dict)
    requires IsScanMalicious(scans) == Ok(true)
    ensures IsScanMalicious(scans + later) == Ok(true)
  {
    FirstHitAppend(scans, later, IsTrue);
  }

  /** The technical details: a header naming the target when one is given,
      the markdown table of the scans, and a sentence linking the full report
      when a link is given.  `prepare` and `tableMarkdown` stand for the
      markdown helpers, whose behaviour is not modelled. */
  function GetTechnicalDetails<R>(prepare: Dict -> R, tableMarkdown: R -> string, scans: Dict,
                                  target: Option<string>, scansLink: Option<string>): (r: string)
    ensures target.None? ==> tableMarkdown(prepare(scans)) <= r
    ensures target.Some? ==> HeaderOpen + target.value + HeaderClose + tableMarkdown(prepare(scans)) <= r
    ensures scansLink.None? ==> EndsWith(r, tableMarkdown(prepare(scans)))
    ensures scansLink.Some? ==> EndsWith(r, tableMarkdown(prepare(scans)) + LinkOpen + scansLink.value + LinkClose)
  {
    var formatted := prepare(scans);
    var table := tableMarkdown(formatted);
    ComposeStarts(target, table, scansLink);
    ComposeEnds(target, table, scansLink);
    Compose(target, table, scansLink)
  }

  /** Round trip: given the table text, the target (when it has no backtick)
      and the link are read back from the technical details, provided an
      absent header cannot be confused with a table that opens like one. */
  lemma ParseInvertsTechnicalDetails<R>(prepare: Dict -> R, tableMarkdown: R -> string, scans: Dict,
                                        target: Option<string>, scansLink: Option<string>)
    requires target.Some? ==> '`' !in target.value
    requires target.None? ==> !(HeaderOpen <= tableMarkdown(prepare(scans)))
    ensures ParseReport(GetTechnicalDetails(prepare, tableMarkdown, scans, target, scansLink),
                        tableMarkdown(prepare(scans)))
            == Some(ReportParts(target, scansLink))
  {
    ParseCompose(target, tableMarkdown(prepare(scans)), scansLink);
  }

  /** Whatever the reader accepts is exactly the technical details built from
      what it returns: the composition is the only shape the text can have. */
  lemma ParsedPartsRebuildText<R>(prepare: Dict -> R, tableMarkdown: R -> string, scans: Dict, text: string)
    requires ParseReport(text, tableMarkdown(prepare(scans))).Some?
    ensures var parts := ParseReport(text, tableMarkdown(prepare(scans))).value;
            GetTechnicalDetails(prepare, tableMarkdown, scans, parts.target, parts.scansLink) == text
  {
    ParseSound(text, tableMarkdown(prepare(scans)));
  }

  /** The text opens with the header exactly when a target is given, unless
      the table itself opens like the header. */
  lemma HeaderPresentIffTarget<R>(prepare: Dict -> R, tableMarkdown: R -> string, scans: Dict,
                                  target: Option<string>, scansLink: Option<string>)
    requires !(HeaderOpen <= tableMarkdown(prepare(scans)))
    ensures HeaderOpen <= GetTechnicalDetails(prepare, tableMarkdown, scans, target, scansLink) <==> target.Some?
  {
    HeaderIffTarget(target, tableMarkdown(prepare(scans)), scansLink);
  }

  /** The text closes with the link sentence's ")." exactly when a link is
      given, unless the table itself ends that way. */
  lemma LinkPresentIffLink<R>(prepare: Dict -> R, tableMarkdown: R -> string, scans: Dict,
                              target: Option<string>, scansLink: Option<string>)
    requires !EndsWith(tableMarkdown(prepare(scans)), LinkClose)
    ensures EndsWith(GetTechnicalDetails(prepare, tableMarkdown, scans, target, scansLink), LinkClose) <==> scansLink.Some?
  {
    LinkIffLink(target, tableMarkdown(prepare(scans)), scansLink);
  }
}
