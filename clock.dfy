/**
  Calendar arithmetic on UTC instants.

  An instant is a whole number of seconds since 1970-01-01T00:00:00 UTC (it may be
  negative); a time of day configured for a strategy is a duration in seconds.
  Dafny's `/` and `%` with a positive divisor round toward minus infinity, which is how
  Go's `time` package splits an instant into day, hour and second of day.
*/
module Clock {

  const SecondsPerHour: int := 3600
  const HoursPerDay: int := 24
  const SecondsPerDay: int := 86400
  const DaysPerWeek: int := 7

  /** 1970-01-01 was a Thursday; Go numbers weekdays from Sunday = 0. */
  const EpochWeekday: int := 4

  /** Go's `time.Weekday`: Sunday = 0, ..., Saturday = 6. */
  type Weekday = d: int | 0 <= d < 7

  /** `now.Hour()`: the hour of the UTC day that contains `t`. */
  function HourOf(t: int): (h: int)
    ensures 0 <= h < HoursPerDay
    ensures SecondsPerDay * (t / SecondsPerDay) + SecondsPerHour * h <= t
    ensures t < SecondsPerDay * (t / SecondsPerDay) + SecondsPerHour * (h + 1)
  {
    (t % SecondsPerDay) / SecondsPerHour
  }

  /** `now.Weekday()`: the day of the week of the UTC day that contains `t`. */
  function WeekdayOf(t: int): Weekday
  {
    (t / SecondsPerDay + EpochWeekday) % DaysPerWeek
  }

  /** The weekday advances by one, cyclically, from one UTC day to the next. */
  lemma WeekdayOfNextDay(t: int)
    ensures WeekdayOf(t + SecondsPerDay) == (WeekdayOf(t) + 1) % DaysPerWeek
  {
    assert (t + SecondsPerDay) / SecondsPerDay == t / SecondsPerDay + 1;
  }

  /** The epoch itself falls on a Thursday. */
  lemma EpochIsThursday()
    ensures WeekdayOf(0) == 4
  {
  }

  /**
    `time.Date(y, m, d, h, 0, 0, 0, UTC)` built from the fields of `t`: the start of the
    hour that contains `t`, on the same UTC day and with the same hour of day.
  */
  function TruncateToHour(t: int): (r: int)
    ensures r % SecondsPerHour == 0
    ensures r <= t < r + SecondsPerHour
    ensures r / SecondsPerDay == t / SecondsPerDay
    ensures HourOf(r) == HourOf(t)
  {
    var r := t - t % SecondsPerHour;
    SameDay(t, r);
    r
  }

  /** `r`, a whole hour at or before `t` and less than an hour before it, lies on the day and the hour of `t`. */
  lemma SameDay(t: int, r: int)
    requires r % SecondsPerHour == 0
    requires r <= t < r + SecondsPerHour
    ensures r / SecondsPerDay == t / SecondsPerDay
    ensures HourOf(r) == HourOf(t)
  {
    var d := t / SecondsPerDay;
    var q := r / SecondsPerHour;
    assert r == SecondsPerHour * q;
    assert SecondsPerDay * d <= t < SecondsPerDay * d + SecondsPerDay;
    // the day boundaries are whole hours, so no boundary lies strictly between r and t
    assert SecondsPerDay * d == SecondsPerHour * (HoursPerDay * d);
    assert HoursPerDay * d <= q < HoursPerDay * d + HoursPerDay;
    assert SecondsPerDay * d <= r;
    assert r / SecondsPerDay == d;
  }

  /** Truncation to the hour is determined by its contract: nothing else is a whole hour within the hour before `t`. */
  lemma TruncateToHourUnique(t: int, r: int)
    requires r % SecondsPerHour == 0
    requires r <= t < r + SecondsPerHour
    ensures r == TruncateToHour(t)
  {
    var r' := TruncateToHour(t);
    assert r == SecondsPerHour * (r / SecondsPerHour);
    assert r' == SecondsPerHour * (r' / SecondsPerHour);
    assert -SecondsPerHour < r - r' < SecondsPerHour;
  }

  /** Shifting an instant by whole hours shifts the start of its hour by the same amount. */
  lemma TruncateShift(t: int, k: int)
    ensures TruncateToHour(t + k * SecondsPerHour) == TruncateToHour(t) + k * SecondsPerHour
  {
    var r := TruncateToHour(t) + k * SecondsPerHour;
    assert TruncateToHour(t) == SecondsPerHour * (TruncateToHour(t) / SecondsPerHour);
    assert r == SecondsPerHour * (TruncateToHour(t) / SecondsPerHour + k);
    TruncateToHourUnique(t + k * SecondsPerHour, r);
  }

  /**
    `int(t.Hours())` for a configured time of day `d`: the number of whole hours in `d`,
    rounded toward zero as Go's float-to-int conversion does. Minutes and seconds are dropped.
  */
  function HoursOf(d: int): (h: int)
    ensures d >= 0 ==> h >= 0 && SecondsPerHour * h <= d < SecondsPerHour * (h + 1)
    ensures d < 0 ==> h <= 0 && SecondsPerHour * (h - 1) < d <= SecondsPerHour * h
  {
    if d >= 0 then d / SecondsPerHour else -((-d) / SecondsPerHour)
  }

  /**
    The instant whose hour anchors the momentum of a strategy with look-back `offset`:
    the start of the hour that contains `now + (1 - offset)` hours.
  */
  function TargetInstant(now: int, offset: int): (r: int)
    ensures r % SecondsPerHour == 0
    ensures r <= now + (1 - offset) * SecondsPerHour < r + SecondsPerHour
  {
    TruncateToHour(now + (1 - offset) * SecondsPerHour)
  }

  /**
    The target lies exactly `offset - 1` whole hours before the start of the current
    hour; with `offset == 1` it is the start of the current hour, and a positive offset
    never looks past it.
  */
  lemma TargetBeforeCurrentHour(now: int, offset: int)
    ensures TargetInstant(now, offset) == TruncateToHour(now) - (offset - 1) * SecondsPerHour
    ensures offset == 1 ==> TargetInstant(now, offset) == TruncateToHour(now)
    ensures offset > 0 ==> TargetInstant(now, offset) <= TruncateToHour(now) <= now
  {
    TruncateShift(now, 1 - offset);
  }
}
