/** How the two verdicts relate to each other and to the exclusion of
    unreliable engines. */
module VariantComparison {
  import opened PyValues
  import opened Detection
  import AgentProcessScans
  import SrcProcessScans

  /** The strict verdict never sees malware the lenient rating misses: a
      True flag is truthy, and the lenient loop stops no later. */
  lemma MaliciousImpliesHighRisk(scans: Dict)
    requires AgentProcessScans.IsScanMalicious(scans) == Ok(true)
    ensures SrcProcessScans.GetRiskRating(scans) == Ok(SrcProcessScans.HIGH)
  {
    FirstHitWeaken(scans, IsTrue, Truthy);
  }

  /** When every readable `detected` value is a boolean the two verdicts
      agree, down to the exception raised. */
  lemma VerdictsAgreeOnBooleanFlags(scans: Dict)
    requires forall i :: 0 <= i < |scans| && DetectedAt(scans, i).Ok? ==> DetectedAt(scans, i).value.BoolValue?
    ensures AgentProcessScans.IsScanMalicious(scans) == Ok(true) <==>
              SrcProcessScans.GetRiskRating(scans) == Ok(SrcProcessScans.HIGH)
    ensures AgentProcessScans.IsScanMalicious(scans) == Ok(false) <==>
              SrcProcessScans.GetRiskRating(scans) == Ok(SrcProcessScans.SECURE)
    ensures AgentProcessScans.IsScanMalicious(scans).Raise? ==>
              SrcProcessScans.GetRiskRating(scans) == Raise(AgentProcessScans.IsScanMalicious(scans).error)
  {
    FirstHitAgree(scans, IsTrue, Truthy);
  }

  /** A truthy flag that is not the boolean True splits the verdicts: the
      record `{"detected": 1}` is HIGH risk but not malicious. */
  lemma TruthyFlagSplitsVerdicts()
    ensures var scans := [("EngineA", DictValue([("detected", IntValue(1))]))];
            && AgentProcessScans.IsScanMalicious(scans) == Ok(false)
            && SrcProcessScans.GetRiskRating(scans) == Ok(SrcProcessScans.HIGH)
  {
    var scans := [("EngineA", DictValue([("detected", IntValue(1))]))];
    assert DetectedAt(scans, 0) == Ok(IntValue(1));
  }

  const K7GWDetection: (string, Value) := ("K7GW", DictValue([("detected", BoolValue(true))]))
  const EngineCClean: (string, Value) := ("EngineC", DictValue([("detected", BoolValue(false))]))

  lemma ExcludeDropsK7GW()
    ensures AgentProcessScans.ExcludeUnreliableScans([K7GWDetection, EngineCClean]) == [EngineCClean]
  {
    var excluded := AgentProcessScans.ExcludedSet;
    AgentProcessScans.ExcludedSetIsTwoEngines();
    var scans := [K7GWDetection, EngineCClean];
    assert scans[1..] == [EngineCClean] && [EngineCClean][1..] == [];
    assert WithoutKeys([EngineCClean], excluded) == [EngineCClean] + WithoutKeys([], excluded);
    assert WithoutKeys(scans, excluded) == WithoutKeys([EngineCClean], excluded);
  }

  lemma K7GWDetectionIsMalicious()
    ensures AgentProcessScans.IsScanMalicious([K7GWDetection, EngineCClean]) == Ok(true)
  {
    var scans := [K7GWDetection, EngineCClean];
    assert DetectedAt(scans, 0) == Ok(BoolValue(true));
    assert PassedBefore(scans, 0, IsTrue);
  }

  lemma EngineCAloneIsClean()
    ensures AgentProcessScans.IsScanMalicious([EngineCClean]) == Ok(false)
  {
    assert DetectedAt([EngineCClean], 0) == Ok(BoolValue(false));
  }

  /** Excluding an unreliable engine can lower the verdict: a detection by
      K7GW alone is dropped, and what remains is not malicious. */
  lemma ExclusionDropsUnreliableDetection()
    ensures var scans := [K7GWDetection, EngineCClean];
            && AgentProcessScans.IsScanMalicious(scans) == Ok(true)
            && AgentProcessScans.ExcludeUnreliableScans(scans) == scans[1..]
            && AgentProcessScans.IsScanMalicious(AgentProcessScans.ExcludeUnreliableScans(scans)) == Ok(false)
  {
    ExcludeDropsK7GW();
    K7GWDetectionIsMalicious();
    EngineCAloneIsClean();
    assert [K7GWDetection, EngineCClean][1..] == [EngineCClean];
  }
}
