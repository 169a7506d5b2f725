/** Matching a five-field expression against the clock, and the bounded search for its next minute. */
module CronSearch {
  import opened Calendar
  import opened Text

  /** The explicit value lists of the five fields. */
  datatype CronExpression = CronExpression(
    minutes: seq<int>, hours: seq<int>, days: seq<int>, months: seq<int>, weekdays: seq<int>)

  // A time point is a count of nanoseconds since 1970-01-01T00:00; a minute is named by its number since then.

  const MINUTE: int := 60_000_000_000

  const MINUTES_PER_DAY: int := 1440

  /** Length of the search window, in minutes. */
  const HORIZON: int := 4 * 366 * 24 * 60

  function MinuteOf(time: int): int {
    time / MINUTE
  }

  /** All five fields must hold; day of month and day of week are not alternatives. */
  predicate Matches(e: CronExpression, minute: int) {
    var day := minute / MINUTES_PER_DAY;
    var date := FromDays(day);
    var timeOfDay := minute - day * MINUTES_PER_DAY;
    && timeOfDay % 60 in e.minutes
    && timeOfDay / 60 in e.hours
    && date.day in e.days
    && date.month in e.months
    && Weekday(day) in e.weekdays
  }

  /** In civil terms: minute `minute` of hour `hour` of date `x` matches exactly if each of its five parts is listed. */
  lemma MatchesCivilTime(e: CronExpression, x: Date, hour: int, minute: int)
    requires Valid(x) && 0 <= hour < 24 && 0 <= minute < 60
    ensures Matches(e, ToDays(x) * MINUTES_PER_DAY + 60 * hour + minute) <==>
            && minute in e.minutes && hour in e.hours
            && x.day in e.days && x.month in e.months && Weekday(ToDays(x)) in e.weekdays
  {
    hide FromDays, ToDays;
    ToDaysFromDays(x);
    MinuteSplits(ToDays(x), hour, minute);
  }

  lemma MinuteSplits(day: int, hour: int, minute: int)
    requires 0 <= hour < 24 && 0 <= minute < 60
    ensures (day * MINUTES_PER_DAY + 60 * hour + minute) / MINUTES_PER_DAY == day
    ensures (60 * hour + minute) / 60 == hour && (60 * hour + minute) % 60 == minute
  {
  }

  /** Every minute is such a moment. */
  lemma EveryMinuteIsCivil(m: int) returns (x: Date, hour: int, minute: int)
    ensures Valid(x) && 0 <= hour < 24 && 0 <= minute < 60
    ensures m == ToDays(x) * MINUTES_PER_DAY + 60 * hour + minute
  {
    hide FromDays, ToDays;
    var time := m % MINUTES_PER_DAY;
    x, hour, minute := FromDays(m / MINUTES_PER_DAY), time / 60, time % 60;
    FromDaysToDays(m / MINUTES_PER_DAY);
  }

  predicate StrictlyAscending(values: seq<int>) {
    forall i, j :: 0 <= i < j < |values| ==> values[i] < values[j]
  }

  /** A field as the parser leaves it: some values, in order, none twice, inside the field's bounds. */
  predicate FieldOf(values: seq<int>, min: int, max: int) {
    && values != []
    && StrictlyAscending(values)
    && forall i :: 0 <= i < |values| ==> min <= values[i] <= max
  }

  predicate WellFormed(e: CronExpression) {
    && FieldOf(e.minutes, 0, 59)
    && FieldOf(e.hours, 0, 23)
    && FieldOf(e.days, 1, 31)
    && FieldOf(e.months, 1, 12)
    && FieldOf(e.weekdays, 0, 6)
  }

  /** No minute in [lo, hi) matches. */
  ghost predicate Silent(e: CronExpression, lo: int, hi: int) {
    forall m :: lo <= m < hi ==> !Matches(e, m)
  }

  ghost predicate IsFirstMatch(e: CronExpression, lo: int, hi: int, m: int) {
    lo <= m < hi && Matches(e, m) && Silent(e, lo, m)
  }

  lemma {:induction false} FirstMatchExists(e: CronExpression, lo: int, hi: int)
    requires !Silent(e, lo, hi)
    ensures exists m :: IsFirstMatch(e, lo, hi, m)
    decreases hi - lo
  {
    hide Matches;
    if Matches(e, lo) {
      assert IsFirstMatch(e, lo, hi, lo);
    } else {
      FirstMatchExists(e, lo + 1, hi);
      var m :| IsFirstMatch(e, lo + 1, hi, m);
      assert IsFirstMatch(e, lo, hi, m);
    }
  }

  /** The first matching minute in [lo, hi), if any. */
  ghost function FirstMatch(e: CronExpression, lo: int, hi: int): (r: Option<int>)
    ensures r.Some? ==> IsFirstMatch(e, lo, hi, r.value)
    ensures r.None? <==> Silent(e, lo, hi)
  {
    hide Matches;
    if Silent(e, lo, hi) then None
    else
      FirstMatchExists(e, lo, hi);
      var m :| IsFirstMatch(e, lo, hi, m);
      Some(m)
  }

  /** The minute `next_after` settles on, seen from `base`. */
  ghost function NextMinute(e: CronExpression, base: int): (r: Option<int>)
    ensures r.Some? ==> MinuteOf(base) < r.value <= MinuteOf(base) + HORIZON && Matches(e, r.value)
  {
    FirstMatch(e, MinuteOf(base) + 1, MinuteOf(base) + 1 + HORIZON)
  }

  function Times(minute: Option<int>): Option<int> {
    match minute case None => None case Some(m) => Some(m * MINUTE)
  }

  /** The minute-by-minute search. */
  method NextAfter(e: CronExpression, base: int) returns (r: Option<int>)
    ensures r == Times(NextMinute(e, base))
  {
    hide FromDays, FirstMatch;
    var candidate := (MinuteOf(base) + 1) * MINUTE;
    var deadline := candidate + HORIZON * MINUTE;
    ghost var first := MinuteOf(base) + 1;
    ghost var minute := first;
    while candidate < deadline
      invariant candidate == minute * MINUTE && first <= minute <= first + HORIZON
      invariant Silent(e, first, minute)
      decreases deadline - candidate
    {
      assert MinuteOf(candidate) == minute;
      if Matches(e, MinuteOf(candidate)) {
        FirstMatchIs(e, first, first + HORIZON, minute);
        return Some(candidate);
      }
      candidate := candidate + MINUTE;
      minute := minute + 1;
    }
    return None;
  }

  /** A match with silence before it is the first match. */
  lemma FirstMatchIs(e: CronExpression, lo: int, hi: int, m: int)
    requires lo <= m < hi && Matches(e, m) && Silent(e, lo, m)
    ensures FirstMatch(e, lo, hi) == Some(m)
  {
    var r := FirstMatch(e, lo, hi);
    assert r.Some?;
  }

  lemma Boundary(base: int, m: int)
    ensures base < m * MINUTE <==> MinuteOf(base) < m
    ensures m * MINUTE <= base <==> m <= MinuteOf(base)
    ensures m * MINUTE <= base + HORIZON * MINUTE <==> m <= MinuteOf(base) + HORIZON
    ensures MinuteOf(m * MINUTE) == m
  {
  }

  /** What the search answers: the least matching minute boundary strictly after `base`, and nothing exactly when no
      boundary in the 2 108 160 minutes of four 366-day years matches; a minute is sixty thousand million nanoseconds. */
  lemma NextAfterMeaning(e: CronExpression, base: int)
    ensures match Times(NextMinute(e, base))
            case Some(t) =>
              && base < t <= base + 2_108_160 * 60_000_000_000 && t % 60_000_000_000 == 0
              && Matches(e, t / 60_000_000_000)
              && (forall m :: base < m * MINUTE < t ==> !Matches(e, m))
            case None =>
              forall m :: base < m * MINUTE <= base + 2_108_160 * 60_000_000_000 ==> !Matches(e, m)
  {
    match NextMinute(e, base)
    case Some(next) =>
      Boundary(base, next);
      forall m | base < m * MINUTE < next * MINUTE
        ensures !Matches(e, m)
      {
        Boundary(base, m);
      }
    case None =>
      forall m | base < m * MINUTE <= base + HORIZON * MINUTE
        ensures !Matches(e, m)
      {
        Boundary(base, m);
      }
  }
}
