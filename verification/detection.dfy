/** The loop both verdict functions share: walk the engine records in dict
    order, read each record's `detected` entry, and stop at the first one the
    verdict counts as a hit.  Reading `record["detected"]` raises when the
    record lacks the entry (or is not a dict), and the exception escapes. */
module Detection {
  import opened PyValues

  const DetectedKey: string := "detected"

  /** `scans.values()[i]["detected"]`. */
  function DetectedAt(scans: Dict, i: nat): Result<Value>
    requires i < |scans|
  {
    Subscript(scans[i].1, DetectedKey)
  }

  /** Every record before position `i` has a readable `detected` value that is
      not a hit, so the loop reaches position `i`. */
  ghost predicate PassedBefore(scans: Dict, i: nat, hit: Value -> bool)
    requires i <= |scans|
  {
    forall j :: 0 <= j < i ==> DetectedAt(scans, j).Ok? && !hit(DetectedAt(scans, j).value)
  }

  /** Every record has a readable `detected` value. */
  ghost predicate AllDetected(scans: Dict)
  {
    forall i :: 0 <= i < |scans| ==> DetectedAt(scans, i).Ok?
  }

  /** The `detected` values in dict order. */
  function DetectedValues(scans: Dict): (vs: seq<Value>)
    requires AllDetected(scans)
    ensures |vs| == |scans|
    ensures forall i :: 0 <= i < |scans| ==> vs[i] == DetectedAt(scans, i).value
  {
    seq(|scans|, i requires 0 <= i < |scans| && AllDetected(scans) => DetectedAt(scans, i).value)
  }

  /** Reading the records of `scans[1..]` is reading those of `scans` one
      position further on, once the first record has been passed. */
  lemma PassedBeforeTail(scans: Dict, hit: Value -> bool)
    requires 0 < |scans|
    ensures forall j :: 0 <= j < |scans| - 1 ==> DetectedAt(scans[1..], j) == DetectedAt(scans, j + 1)
    ensures forall i :: 0 <= i < |scans| ==>
              (PassedBefore(scans, i + 1, hit) <==>
                 DetectedAt(scans, 0).Ok? && !hit(DetectedAt(scans, 0).value) && PassedBefore(scans[1..], i, hit))
  {
    assert forall j :: 0 <= j < |scans| - 1 ==> DetectedAt(scans[1..], j) == DetectedAt(scans, j + 1);
    forall i | 0 <= i < |scans|
      ensures PassedBefore(scans, i + 1, hit) <==>
                DetectedAt(scans, 0).Ok? && !hit(DetectedAt(scans, 0).value) && PassedBefore(scans[1..], i, hit)
    {
      if PassedBefore(scans, i + 1, hit) {
        forall j | 0 <= j < i
          ensures DetectedAt(scans[1..], j).Ok? && !hit(DetectedAt(scans[1..], j).value)
        {
          assert DetectedAt(scans, j + 1).Ok? && !hit(DetectedAt(scans, j + 1).value);
        }
      }
      if DetectedAt(scans, 0).Ok? && !hit(DetectedAt(scans, 0).value) && PassedBefore(scans[1..], i, hit) {
        forall j | 0 <= j < i + 1
          ensures DetectedAt(scans, j).Ok? && !hit(DetectedAt(scans, j).value)
        {
          if j > 0 {
            assert DetectedAt(scans[1..], j - 1) == DetectedAt(scans, j);
          }
        }
      }
    }
  }

  /** The loop stops at record `i`: its `detected` cannot be read or is a hit. */
  predicate StopsAt(scans: Dict, i: nat, hit: Value -> bool)
    requires i < |scans|
  {
    DetectedAt(scans, i).Raise? || hit(DetectedAt(scans, i).value)
  }

  /** What the loop returns when it stops at record `i`. */
  function OutcomeAt(scans: Dict, i: nat): Result<bool>
    requires i < |scans|
  {
    match DetectedAt(scans, i)
    case Raise(e) => Raise(e)
    case Ok(_) => Ok(true)
  }

  /** The loop: Ok(true) at the first hit, the exception of the first record
      that cannot be read, Ok(false) when every record was read without a hit. */
  function FirstHit(scans: Dict, hit: Value -> bool): (r: Result<bool>)
    ensures r == Ok(false) <==> PassedBefore(scans, |scans|, hit)
    ensures r != Ok(false) ==>
              exists i :: 0 <= i < |scans| && PassedBefore(scans, i, hit) && StopsAt(scans, i, hit)
                          && r == OutcomeAt(scans, i)
  {
    if |scans| == 0 then Ok(false)
    else
      var rest := FirstHit(scans[1..], hit);
      PassedBeforeTail(scans, hit);
      match Subscript(scans[0].1, DetectedKey)
      case Raise(e) =>
        assert PassedBefore(scans, 0, hit) && StopsAt(scans, 0, hit);
        Raise(e)
      case Ok(d) =>
        if hit(d) then
          assert PassedBefore(scans, 0, hit) && StopsAt(scans, 0, hit);
          Ok(true)
        else if rest == Ok(false) then
          assert PassedBefore(scans[1..], |scans| - 1, hit);
          rest
        else
          assert exists i :: 0 <= i < |scans| && PassedBefore(scans, i, hit) && StopsAt(scans, i, hit)
                             && rest == OutcomeAt(scans, i) by {
            var k :| 0 <= k < |scans| - 1 && PassedBefore(scans[1..], k, hit) && StopsAt(scans[1..], k, hit)
                     && rest == OutcomeAt(scans[1..], k);
            assert PassedBefore(scans, k + 1, hit) && StopsAt(scans, k + 1, hit);
          }
          rest
  }

  /** Two records that are both reached and both stop the loop are the same. */
  lemma StopIsUnique(scans: Dict, hit: Value -> bool, i: nat, k: nat)
    requires i < |scans| && PassedBefore(scans, i, hit) && StopsAt(scans, i, hit)
    requires k < |scans| && PassedBefore(scans, k, hit) && StopsAt(scans, k, hit)
    ensures k == i
  {
    assert k >= i by {
      assert DetectedAt(scans, k).Raise? || hit(DetectedAt(scans, k).value);
    }
    assert k <= i by {
      assert DetectedAt(scans, i).Raise? || hit(DetectedAt(scans, i).value);
    }
  }

  /** The record the loop stops at is the first stopping record: whatever
      follows it is never inspected. */
  lemma FirstHitStopsAtFirst(scans: Dict, hit: Value -> bool)
    ensures forall i :: 0 <= i < |scans| && PassedBefore(scans, i, hit) && StopsAt(scans, i, hit) ==>
              FirstHit(scans, hit) == OutcomeAt(scans, i)
  {
    forall i | 0 <= i < |scans| && PassedBefore(scans, i, hit) && StopsAt(scans, i, hit)
      ensures FirstHit(scans, hit) == OutcomeAt(scans, i)
    {
      var r := FirstHit(scans, hit);
      assert !PassedBefore(scans, |scans|, hit) by {
        assert DetectedAt(scans, i).Raise? || hit(DetectedAt(scans, i).value);
      }
      var k :| 0 <= k < |scans| && PassedBefore(scans, k, hit) && StopsAt(scans, k, hit) && r == OutcomeAt(scans, k);
      StopIsUnique(scans, hit, i, k);
    }
  }

  /** Scanning `a + b` is scanning `a` and, only when `a` ends without a hit
      or an exception, going on with `b`: entries after a stop are never read. */
  lemma {:induction false} FirstHitAppend(a: Dict, b: Dict, hit: Value -> bool)
    ensures FirstHit(a + b, hit) == (if FirstHit(a, hit) == Ok(false) then FirstHit(b, hit) else FirstHit(a, hit))
  {
    if |a| == 0 {
      assert a + b == b;
    } else {
      FirstHitAppend(a[1..], b, hit);
      assert (a + b)[0] == a[0];
      assert (a + b)[1..] == a[1..] + b;
    }
  }

  /** When every record has a `detected` value, the loop's answer depends only
      on those values: whether one of them is a hit. */
  lemma FirstHitByValues(scans: Dict, hit: Value -> bool)
    requires AllDetected(scans)
    ensures FirstHit(scans, hit) == Ok(exists v :: v in DetectedValues(scans) && hit(v))
  {
    var vs := DetectedValues(scans);
    if FirstHit(scans, hit) == Ok(false) {
      forall v | v in vs ensures !hit(v) {
        var j :| 0 <= j < |vs| && vs[j] == v;
        assert DetectedAt(scans, j).Ok? && !hit(DetectedAt(scans, j).value);
      }
    } else {
      var k :| 0 <= k < |scans| && PassedBefore(scans, k, hit) && StopsAt(scans, k, hit)
               && FirstHit(scans, hit) == OutcomeAt(scans, k);
      assert DetectedAt(scans, k).Ok?;
      assert vs[k] in vs && hit(vs[k]);
    }
  }

  /** Two hit tests that agree on every readable `detected` value give the same
      answer. */
  lemma {:induction false} FirstHitAgree(scans: Dict, h1: Value -> bool, h2: Value -> bool)
    requires forall i :: 0 <= i < |scans| && DetectedAt(scans, i).Ok? ==>
               h1(DetectedAt(scans, i).value) == h2(DetectedAt(scans, i).value)
    ensures FirstHit(scans, h1) == FirstHit(scans, h2)
  {
    if |scans| > 0 {
      PassedBeforeTail(scans, h1);
      FirstHitAgree(scans[1..], h1, h2);
    }
  }

  /** A weaker hit test stops no later: if `h1` implies `h2`, a hit for `h1`
      means a hit for `h2` (possibly at an earlier record). */
  lemma {:induction false} FirstHitWeaken(scans: Dict, h1: Value -> bool, h2: Value -> bool)
    requires forall v :: h1(v) ==> h2(v)
    requires FirstHit(scans, h1) == Ok(true)
    ensures FirstHit(scans, h2) == Ok(true)
  {
    if Subscript(scans[0].1, DetectedKey).Ok? && !h2(Subscript(scans[0].1, DetectedKey).value) {
      FirstHitWeaken(scans[1..], h1, h2);
    }
  }

  /** Storing a hit under any key of a dict the loop read without exception
      makes the loop report a hit. */
  lemma {:induction false} FirstHitSetItem(scans: Dict, key: string, record: Value, hit: Value -> bool)
    requires FirstHit(scans, hit).Ok?
    requires Subscript(record, DetectedKey).Ok? && hit(Subscript(record, DetectedKey).value)
    ensures FirstHit(SetItem(scans, key, record), hit) == Ok(true)
  {
    if |scans| > 0 && scans[0].0 != key && !hit(Subscript(scans[0].1, DetectedKey).value) {
      FirstHitSetItem(scans[1..], key, record, hit);
    }
  }
}
