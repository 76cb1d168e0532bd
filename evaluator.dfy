/**
  The decision of `Strategy.evaluate`: the weekday gate, the hour gate, the target hour
  and the momentum test, combined into the "all conditions match" verdict.
*/
module Evaluator {

  import opened Wrappers
  import opened Clock
  import opened Strategies
  import opened Momentum

  /** What an evaluation that passed the weekday gate computes. */
  datatype Report = Report(
    timeMatch: bool,
    target: int,
    latest: Record,
    anchor: Option<nat>,
    momentum: Float,
    momentumMatch: bool)

  /** An evaluation stops silently on a day the strategy is not active. */
  datatype Outcome = OffDay | Evaluated(report: Report)

  /** The verdict that opens a position: weekday, time and momentum all match. */
  predicate AllConditionsMatch(o: Outcome)
  {
    o.Evaluated? && o.report.timeMatch && o.report.momentumMatch
  }

  /** Some configured time names, in whole hours and without wrap-around, the hour after `hour`. */
  predicate TimeMatches(times: seq<int>, hour: int)
  {
    exists i :: 0 <= i < |times| && HoursOf(times[i]) == hour + 1
  }

  /** The loop over the configured times, which stops at the first one naming the next hour. */
  method MatchTime(times: seq<int>, nowHour: int) returns (timeMatch: bool)
    ensures timeMatch <==> TimeMatches(times, nowHour)
  {
    timeMatch := false;
    var i := 0;
    while i < |times|
      invariant 0 <= i <= |times|
      invariant !timeMatch
      invariant forall j :: 0 <= j < i ==> HoursOf(times[j]) != nowHour + 1
    {
      var nextHour := nowHour + 1;
      var hours := HoursOf(times[i]);
      if nextHour == hours {
        timeMatch := true;
        break;
      }
      i := i + 1;
    }
  }

  /** The decision for strategy `s` on the bar series `records` at instant `now`. */
  function Evaluation(s: Strategy, records: seq<Record>, now: int): (o: Outcome)
    requires WeekdayOf(now) in s.weekdays ==> |records| > 0
    ensures o.Evaluated? <==> WeekdayOf(now) in s.weekdays
    ensures o.Evaluated? ==> o.report.latest == records[|records| - 1]
    ensures o.Evaluated? ==> o.report.target == TargetInstant(now, s.offset)
    ensures o.Evaluated? && o.report.anchor.None? ==> o.report.momentum == NaN && !o.report.momentumMatch
    ensures o.Evaluated? && o.report.anchor.Some? ==>
      && o.report.anchor.value < |records|
      && records[o.report.anchor.value].timestamp <= o.report.target
      && o.report.momentum == Change(records[|records| - 1], records[o.report.anchor.value])
  {
    if WeekdayOf(now) !in s.weekdays then OffDay
    else
      var target := TargetInstant(now, s.offset);
      var anchor := LastAtOrBefore(records, target);
      var latest := records[|records| - 1];
      var momentum := if anchor.Some? then Change(latest, records[anchor.value]) else NaN;
      Evaluated(Report(
        TimeMatches(s.times, HourOf(now)),
        target,
        latest,
        anchor,
        momentum,
        anchor.Some? && ThresholdMatch(momentum, s.greaterThan, s.lessThan)))
  }

  /**
    Evaluates one strategy. The bar series must be non-empty once the weekday gate
    passes, because the newest bar is read unconditionally after it.
  */
  method Evaluate(s: Strategy, records: seq<Record>, now: int) returns (o: Outcome)
    requires WeekdayOf(now) in s.weekdays ==> |records| > 0
    ensures o == Evaluation(s, records, now)
  {
    var weekday := WeekdayOf(now);
    var weekdayMatch := weekday in s.weekdays;
    if !weekdayMatch {
      return OffDay;
    }
    var timeMatch := MatchTime(s.times, HourOf(now));
    var target := TargetInstant(now, s.offset);
    var anchor, momentum, momentumMatch := ScanForAnchor(records, target, s.greaterThan, s.lessThan);
    return Evaluated(Report(timeMatch, target, records[|records| - 1], anchor, momentum, momentumMatch));
  }

  /** Off the strategy's weekdays nothing else is examined and the verdict is never given. */
  lemma OffDayStopsEarly(s: Strategy, records: seq<Record>, now: int)
    requires WeekdayOf(now) !in s.weekdays
    ensures Evaluation(s, records, now) == OffDay
    ensures !AllConditionsMatch(Evaluation(s, records, now))
  {
  }

  /**
    The verdict holds exactly when the weekday is active, a configured time names the
    next hour, some bar lies at or before the target hour and the momentum measured from
    the newest such bar passes the thresholds.
  */
  lemma AllConditionsMatchIff(s: Strategy, records: seq<Record>, now: int)
    requires WeekdayOf(now) in s.weekdays ==> |records| > 0
    ensures AllConditionsMatch(Evaluation(s, records, now)) <==>
      && WeekdayOf(now) in s.weekdays
      && (exists i :: 0 <= i < |s.times| && HoursOf(s.times[i]) == HourOf(now) + 1)
      && (exists k :: 0 <= k < |records| && records[k].timestamp <= TargetInstant(now, s.offset)
            && (forall j :: k < j < |records| ==> records[j].timestamp > TargetInstant(now, s.offset))
            && ThresholdMatch(Change(records[|records| - 1], records[k]), s.greaterThan, s.lessThan))
  {
    if WeekdayOf(now) in s.weekdays {
      var target := TargetInstant(now, s.offset);
      var anchor := LastAtOrBefore(records, target);
      if anchor.Some? {
        assert records[anchor.value].timestamp <= target;
      }
      if k :| (0 <= k < |records| && records[k].timestamp <= target
                 && (forall j :: k < j < |records| ==> records[j].timestamp > target)
                 && ThresholdMatch(Change(records[|records| - 1], records[k]), s.greaterThan, s.lessThan)) {
        LastAtOrBeforeUnique(records, target, k);
      }
    }
  }

  /** Without an anchor the momentum is undefined and does not match, whatever the thresholds. */
  lemma NoAnchorNoMatch(s: Strategy, records: seq<Record>, now: int)
    requires WeekdayOf(now) in s.weekdays && |records| > 0
    requires forall j :: 0 <= j < |records| ==> records[j].timestamp > TargetInstant(now, s.offset)
    ensures Evaluation(s, records, now).report.anchor == None
    ensures Evaluation(s, records, now).report.momentum == NaN
    ensures !Evaluation(s, records, now).report.momentumMatch
  {
    AnchorExists(records, TargetInstant(now, s.offset));
  }

  /**
    With an anchor whose open is not zero, the momentum is the finite
    `(latest.close / anchor.open - 1) * 100`, where the latest bar is the newest of the
    series whatever the anchor, and it matches exactly when it is strictly inside the band.
  */
  lemma AnchoredDecision(s: Strategy, records: seq<Record>, now: int, k: nat)
    requires WeekdayOf(now) in s.weekdays
    requires k < |records| && records[k].timestamp <= TargetInstant(now, s.offset)
    requires forall j :: k < j < |records| ==> records[j].timestamp > TargetInstant(now, s.offset)
    requires records[k].open != 0.0
    ensures Evaluation(s, records, now).report.anchor == Some(k)
    ensures Evaluation(s, records, now).report.latest == records[|records| - 1]
    ensures Evaluation(s, records, now).report.momentum
      == Finite((records[|records| - 1].close / records[k].open - 1.0) * Percent)
    ensures Evaluation(s, records, now).report.momentumMatch <==>
      var m := (records[|records| - 1].close / records[k].open - 1.0) * Percent;
      (s.greaterThan.None? || m > s.greaterThan.value) && (s.lessThan.None? || m < s.lessThan.value)
  {
    LastAtOrBeforeUnique(records, TargetInstant(now, s.offset), k);
  }

  /** For a strategy that passed validation an undefined momentum never matches. */
  lemma ValidatedUndefinedNeverMatches(s: Strategy, records: seq<Record>, now: int)
    requires WellFormed(s)
    requires WeekdayOf(now) in s.weekdays && |records| > 0
    requires Evaluation(s, records, now).report.momentum == NaN
    ensures !Evaluation(s, records, now).report.momentumMatch
    ensures !AllConditionsMatch(Evaluation(s, records, now))
  {
    NaNMatchesNoThreshold(s.greaterThan, s.lessThan);
  }

  /**
    A series that covers less than the last half hour has no anchor for any look-back of
    two hours or more: the target hour lies at least an hour before `now`.
  */
  lemma InsufficientHistory(s: Strategy, records: seq<Record>, now: int)
    requires WeekdayOf(now) in s.weekdays && |records| > 0
    requires s.offset >= 2
    requires forall j :: 0 <= j < |records| ==> records[j].timestamp >= now - 1800
    ensures Evaluation(s, records, now).report.anchor == None
    ensures Evaluation(s, records, now).report.momentum == NaN
    ensures !Evaluation(s, records, now).report.momentumMatch
  {
    TargetBeforeCurrentHour(now, s.offset);
    NoAnchorNoMatch(s, records, now);
  }

  /** For non-negative times of day the hour gate compares whole hours only: minutes are ignored. */
  lemma TimeGateByHour(times: seq<int>, hour: int)
    requires forall i :: 0 <= i < |times| ==> times[i] >= 0
    ensures TimeMatches(times, hour) <==>
      exists i :: 0 <= i < |times| && SecondsPerHour * (hour + 1) <= times[i] < SecondsPerHour * (hour + 2)
  {
    if i :| 0 <= i < |times| && SecondsPerHour * (hour + 1) <= times[i] < SecondsPerHour * (hour + 2) {
      var h := HoursOf(times[i]);
      assert SecondsPerHour * h <= times[i] < SecondsPerHour * (h + 1);
      assert h == hour + 1;
    }
  }

  /** There is no wrap-around at midnight: during hour 23 no time of day within the day matches, 00:xx included. */
  lemma NoMidnightWrap(times: seq<int>, now: int)
    requires forall i :: 0 <= i < |times| ==> 0 <= times[i] < SecondsPerDay
    requires HourOf(now) == 23
    ensures !TimeMatches(times, HourOf(now))
  {
    forall i | 0 <= i < |times|
      ensures HoursOf(times[i]) != 24
    {
      var h := HoursOf(times[i]);
      assert SecondsPerHour * h <= times[i];
    }
  }

  /** A 14:00 entry matches throughout hour 13, at any minute, but not during hour 14. */
  lemma TimeGateExample(now: int)
    ensures HourOf(now) == 13 ==> TimeMatches([14 * SecondsPerHour], HourOf(now))
    ensures HourOf(now) == 14 ==> !TimeMatches([14 * SecondsPerHour], HourOf(now))
  {
    var times := [14 * SecondsPerHour];
    assert HoursOf(times[0]) == 14;
  }

  /**
    A worked case: bars at 10:00, 11:00 and 12:00 on 1970-01-01 (a Thursday), opening at
    100, 105 and 110 and closing at 100, 105 and 120; at 12:00 with a two-hour look-back
    the target is 11:00, the anchor the 11:00 bar, and the momentum 100/7 (about 14.29)
    percent passes a `greaterThan` of 10; with a 13:00 entry all conditions match.
  */
  lemma EndToEndScenario()
    ensures
      var records := [Record(36000, 100.0, 100.0, 100.0, 100.0),
                      Record(39600, 105.0, 105.0, 105.0, 105.0),
                      Record(43200, 110.0, 120.0, 110.0, 120.0)];
      var s := Strategy("momentum", "BTCUSDT", 2, Some(10.0), None, [4], [13 * SecondsPerHour]);
      && Evaluation(s, records, 43200).Evaluated?
      && Evaluation(s, records, 43200).report.target == 39600
      && Evaluation(s, records, 43200).report.anchor == Some(1)
      && Evaluation(s, records, 43200).report.momentum == Finite(100.0 / 7.0)
      && AllConditionsMatch(Evaluation(s, records, 43200))
  {
    var records := [Record(36000, 100.0, 100.0, 100.0, 100.0),
                    Record(39600, 105.0, 105.0, 105.0, 105.0),
                    Record(43200, 110.0, 120.0, 110.0, 120.0)];
    var s := Strategy("momentum", "BTCUSDT", 2, Some(10.0), None, [4], [13 * SecondsPerHour]);
    assert WeekdayOf(43200) == 4;
    assert TargetInstant(43200, 2) == 39600;
    LastAtOrBeforeUnique(records, 39600, 1);
    assert HoursOf(s.times[0]) == HourOf(43200) + 1;
  }
}
