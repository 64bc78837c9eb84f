/** Naive timestamps and the week buckets the scripts derive from them.

    An instant is a whole number of seconds since 1970-01-01 00:00:00, with
    time zones already stripped (`tz_localize(None)`). Whole days are counted
    with floor division, as pandas does for instants before 1970 too. */
module Calendar {

  type Instant = int

  const Day: int := 86400
  const Week: int := 7 * Day

  /** Whole days since the epoch. */
  function DayNumber(t: Instant): int
  {
    t / Day
  }

  /** `Series.dt.dayofweek`: Monday is 0 and Sunday 6; 1970-01-01 was a Thursday. */
  function DayOfWeek(t: Instant): (d: int)
    ensures 0 <= d < 7
  {
    (DayNumber(t) + 3) % 7
  }

  /** `Series.dt.date` read back as a timestamp: midnight of the same day. */
  function Date(t: Instant): Instant
  {
    DayNumber(t) * Day
  }

  /** `t - pd.to_timedelta(t.dt.dayofweek, unit='d')`: back to the Monday of
      t's week, keeping the time of day. */
  function BackToMonday(t: Instant): Instant
  {
    t - DayOfWeek(t) * Day
  }

  /** The Monday at midnight of t's week. */
  function WeekStartDate(t: Instant): Instant
  {
    Date(t) - DayOfWeek(t) * Day
  }

  /** Moving by whole days moves the day number by as many days and keeps the
      time of day. */
  lemma ShiftByDays(t: Instant, k: int)
    ensures DayNumber(t + k * Day) == DayNumber(t) + k
    ensures (t + k * Day) % Day == t % Day
  {
  }

  /** Moving by whole days moves the weekday along the same number of days. */
  lemma ShiftWeekday(t: Instant, k: int)
    ensures DayOfWeek(t + k * Day) == (DayOfWeek(t) + k) % 7
  {
    ShiftByDays(t, k);
  }

  /** Subtracting the weekday index (explanatory.py) lands on a Monday at the
      same time of day, on or before `t` and less than a week earlier. */
  lemma BackToMondayIsMonday(t: Instant)
    ensures DayOfWeek(BackToMonday(t)) == 0
    ensures BackToMonday(t) <= t < BackToMonday(t) + Week
    ensures BackToMonday(t) % Day == t % Day
  {
    ShiftByDays(t, -DayOfWeek(t));
    ShiftWeekday(t, -DayOfWeek(t));
  }

  /** The week bucket of app.py and data_transformation.py is a Monday at
      midnight, on or before `t` and less than a week earlier. */
  lemma WeekStartDateIsMonday(t: Instant)
    ensures DayOfWeek(WeekStartDate(t)) == 0
    ensures WeekStartDate(t) % Day == 0
    ensures WeekStartDate(t) <= t < WeekStartDate(t) + Week
    ensures t - WeekStartDate(t) == DayOfWeek(t) * Day + t % Day
  {
    var d := DayOfWeek(t);
    ShiftByDays(0, DayNumber(t) - d);
    ShiftWeekday(t - t % Day, -d);
    ShiftByDays(t - t % Day, -d);
    assert t - t % Day == DayNumber(t) * Day;
  }

  /** Only one instant is a Monday midnight on or before `t` and less than a
      week earlier: the week bucket is determined by its week. */
  lemma WeekStartDateUnique(t: Instant, m: Instant)
    requires m % Day == 0 && DayOfWeek(m) == 0
    requires m <= t < m + Week
    ensures m == WeekStartDate(t)
  {
    WeekStartDateIsMonday(t);
    var w := WeekStartDate(t);
    // both are Monday midnights, so they lie a whole number of weeks apart
    var k := DayNumber(m) - DayNumber(w);
    assert m == w + k * Day;
    ShiftWeekday(w, k);
    assert k % 7 == 0;
  }

  /** data_transformation.py takes the date of the shifted timestamp; app.py
      shifts the date: both give the same Monday midnight. */
  lemma DateOfBackToMonday(t: Instant)
    ensures Date(BackToMonday(t)) == WeekStartDate(t)
  {
    ShiftByDays(t, -DayOfWeek(t));
  }

  /** Every Monday midnight on or before `t` is on or before t's week
      bucket: the bucket is the latest such Monday. */
  lemma WeekStartDateLatest(t: Instant, m: Instant)
    requires m % Day == 0 && DayOfWeek(m) == 0 && m <= t
    ensures m <= WeekStartDate(t)
  {
    WeekStartDateIsMonday(t);
    var w := WeekStartDate(t);
    var k := DayNumber(w) - DayNumber(m);
    assert w == m + k * Day;
    ShiftWeekday(m, k);
    assert k % 7 == 0;
  }
}
