/**
  Price bars, the backward search for the anchor bar and the momentum threshold test.
*/
module Momentum {

  import opened Wrappers

  const Percent: real := 100.0

  /** One OHLC bar; `timestamp` is the opening instant in seconds since the epoch. */
  datatype Record = Record(timestamp: int, open: real, high: real, low: real, close: real)

  /**
    A float64 as far as the decision needs one: a finite value (rounding is not
    modelled), an infinity, or NaN. Every ordered comparison with NaN is false.
  */
  datatype Float = Finite(value: real) | PosInf | NegInf | NaN

  /** IEEE `x > bound`. */
  predicate Greater(x: Float, bound: real)
  {
    match x
    case Finite(v) => v > bound
    case PosInf => true
    case NegInf => false
    case NaN => false
  }

  /** IEEE `x < bound`. */
  predicate Less(x: Float, bound: real)
  {
    match x
    case Finite(v) => v < bound
    case PosInf => false
    case NegInf => true
    case NaN => false
  }

  /** Bars in strictly ascending timestamp order, as the exchange delivers them. */
  predicate Ascending(records: seq<Record>)
  {
    forall i, j :: 0 <= i < j < |records| ==> records[i].timestamp < records[j].timestamp
  }

  /**
    `(latest.close / anchor.open - 1) * 100` in float64: the percentage change from the
    anchor's open to the latest close. Dividing by a zero open gives an infinity with the
    sign of the close, or NaN when the close is zero too.
  */
  function Change(latest: Record, anchor: Record): (m: Float)
    ensures anchor.open > 0.0 ==> m.Finite? && (m.value > 0.0 <==> latest.close > anchor.open)
    ensures anchor.open > 0.0 ==> (m.value == 0.0 <==> latest.close == anchor.open)
    ensures anchor.open != 0.0 ==> m.Finite? && anchor.open * (m.value / Percent + 1.0) == latest.close
    ensures anchor.open == 0.0 ==> !m.Finite?
  {
    if anchor.open != 0.0 then Finite((latest.close / anchor.open - 1.0) * Percent)
    else if latest.close > 0.0 then PosInf
    else if latest.close < 0.0 then NegInf
    else NaN
  }

  /**
    The momentum test: every configured threshold is met, strictly
    (`momentum > greaterThan` and `momentum < lessThan`).
  */
  predicate ThresholdMatch(momentum: Float, greaterThan: Option<real>, lessThan: Option<real>)
  {
    (greaterThan.None? || Greater(momentum, greaterThan.value))
    && (lessThan.None? || Less(momentum, lessThan.value))
  }

  /** An undefined (NaN) momentum meets no threshold: it matches only when there is none. */
  lemma NaNMatchesNoThreshold(greaterThan: Option<real>, lessThan: Option<real>)
    ensures ThresholdMatch(NaN, greaterThan, lessThan) <==> greaterThan.None? && lessThan.None?
  {
  }

  /** A finite momentum matches exactly when it lies strictly inside the configured band. */
  lemma FiniteThresholdMatch(m: real, greaterThan: Option<real>, lessThan: Option<real>)
    ensures ThresholdMatch(Finite(m), greaterThan, lessThan)
      <==> (greaterThan.None? || m > greaterThan.value) && (lessThan.None? || m < lessThan.value)
  {
  }

  /** A band with `greaterThan >= lessThan` is empty: no momentum at all can match it. */
  lemma EmptyBand(m: Float, gt: real, lt: real)
    requires gt >= lt
    ensures !ThresholdMatch(m, Some(gt), Some(lt))
  {
  }

  /** The threshold examples: above 5 matches 10 but not 3; between 5 and 10 matches 7 but not 12 or 3. */
  lemma ThresholdExamples()
    ensures ThresholdMatch(Finite(10.0), Some(5.0), None)
    ensures !ThresholdMatch(Finite(3.0), Some(5.0), None)
    ensures ThresholdMatch(Finite(7.0), Some(5.0), Some(10.0))
    ensures !ThresholdMatch(Finite(12.0), Some(5.0), Some(10.0))
    ensures !ThresholdMatch(Finite(3.0), Some(5.0), Some(10.0))
  {
  }

  /**
    The index of the last record whose timestamp is not after `target`, or None when
    every record is after it: the first hit of a scan from the newest record backward.
  */
  function LastAtOrBefore(records: seq<Record>, target: int): (r: Option<nat>)
    ensures r.Some? ==> r.value < |records| && records[r.value].timestamp <= target
    ensures r.Some? ==> forall j :: r.value < j < |records| ==> records[j].timestamp > target
    ensures r.None? ==> forall j :: 0 <= j < |records| ==> records[j].timestamp > target
  {
    if |records| == 0 then None
    else if records[|records| - 1].timestamp <= target then Some(|records| - 1)
    else LastAtOrBefore(records[..|records| - 1], target)
  }

  /** The search finds an anchor exactly when some record is at or before the target. */
  lemma AnchorExists(records: seq<Record>, target: int)
    ensures LastAtOrBefore(records, target).Some?
      <==> exists j :: 0 <= j < |records| && records[j].timestamp <= target
  {
    if LastAtOrBefore(records, target).Some? {
      var k := LastAtOrBefore(records, target).value;
      assert records[k].timestamp <= target;
    }
  }

  /** The contract of LastAtOrBefore pins its value: an index with its two properties is the one it returns. */
  lemma LastAtOrBeforeUnique(records: seq<Record>, target: int, k: nat)
    requires k < |records| && records[k].timestamp <= target
    requires forall j :: k < j < |records| ==> records[j].timestamp > target
    ensures LastAtOrBefore(records, target) == Some(k)
  {
  }

  /**
    On an ascending series the anchor is the bar with the greatest timestamp not after
    the target: every bar at or before the target is at or before the anchor, and every
    later bar is after the target.
  */
  lemma AnchorIsLatestAtOrBefore(records: seq<Record>, target: int)
    requires Ascending(records)
    requires LastAtOrBefore(records, target).Some?
    ensures forall j :: 0 <= j < |records| && records[j].timestamp <= target ==>
              (j <= LastAtOrBefore(records, target).value
               && records[j].timestamp <= records[LastAtOrBefore(records, target).value].timestamp)
  {
    var k := LastAtOrBefore(records, target).value;
    forall j | 0 <= j < |records| && records[j].timestamp <= target
      ensures j <= k && records[j].timestamp <= records[k].timestamp
    {
      if j < k {
        assert records[j].timestamp < records[k].timestamp;
      }
    }
  }

  /**
    The backward scan of the series, from the newest record. The first record not
    after `target` becomes the anchor; momentum is measured from its open to the close
    of the newest record and tested against the thresholds. Without an anchor the
    momentum stays NaN and the test stays false, whatever the thresholds.
  */
  method ScanForAnchor(records: seq<Record>, target: int, greaterThan: Option<real>, lessThan: Option<real>)
    returns (anchor: Option<nat>, momentum: Float, momentumMatch: bool)
    requires |records| > 0
    ensures anchor == LastAtOrBefore(records, target)
    ensures anchor.Some? ==> momentum == Change(records[|records| - 1], records[anchor.value])
    ensures anchor.None? ==> momentum == NaN
    ensures momentumMatch <==> anchor.Some? && ThresholdMatch(momentum, greaterThan, lessThan)
  {
    momentumMatch := false;
    momentum := NaN;
    var lastIndex := |records| - 1;
    var latest := records[lastIndex];
    anchor := None;
    var i := 0;
    while i < |records|
      invariant 0 <= i <= |records|
      invariant anchor == None && momentum == NaN && !momentumMatch
      invariant forall j :: lastIndex - i < j < |records| ==> records[j].timestamp > target
    {
      var record := records[lastIndex - i];
      if record.timestamp <= target {
        momentum := Change(latest, record);
        var matches := true;
        if greaterThan.Some? {
          matches := matches && Greater(momentum, greaterThan.value);
        }
        if lessThan.Some? {
          matches := matches && Less(momentum, lessThan.value);
        }
        momentumMatch := matches;
        anchor := Some(lastIndex - i);
        LastAtOrBeforeUnique(records, target, lastIndex - i);
        break;
      }
      i := i + 1;
    }
  }
}
