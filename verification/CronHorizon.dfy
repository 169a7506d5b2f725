/** Which expressions the four-year search window is long enough for. */
module CronHorizon {
  import opened Calendar
  import opened CronSearch
  import opened Text

  ghost predicate EveryWeekday(e: CronExpression) {
    forall w :: 0 <= w < 7 ==> w in e.weekdays
  }

  /** Month `m` and day `d` name a day of every year. */
  predicate Yearly(m: int, d: int) {
    1 <= m <= 12 && 1 <= d <= DaysInMonth(1, m)
  }

  /** The expression allows a day that every year has. */
  ghost predicate AllowsYearly(e: CronExpression) {
    exists m, d :: m in e.months && d in e.days && Yearly(m, d)
  }

  ghost predicate AllowsLeapDay(e: CronExpression) {
    2 in e.months && 29 in e.days
  }

  /** The minute at which the clock shows the first allowed hour and minute of a day. */
  function FirstOfDay(e: CronExpression, day: int): int
    requires WellFormed(e)
  {
    day * MINUTES_PER_DAY + 60 * e.hours[0] + e.minutes[0]
  }

  function LastOfDay(e: CronExpression, day: int): int
    requires WellFormed(e)
  {
    day * MINUTES_PER_DAY + 60 * e.hours[|e.hours| - 1] + e.minutes[|e.minutes| - 1]
  }

  /** The first minute the search looks at. */
  function FirstCandidate(base: int): int {
    MinuteOf(base) + 1
  }

  /** A real date whose month, day and weekday are all listed. */
  predicate Allowed(e: CronExpression, x: Date) {
    Valid(x) && x.month in e.months && x.day in e.days && Weekday(ToDays(x)) in e.weekdays
  }

  /** Some allowed time of the day is one the search looks at when it starts at minute `c`. */
  predicate InReach(e: CronExpression, c: int, day: int)
    requires WellFormed(e)
  {
    c <= LastOfDay(e, day) && FirstOfDay(e, day) < c + HORIZON
  }

  /** An allowed time on an allowed date matches. */
  lemma SlotMatches(e: CronExpression, x: Date, hour: int, minute: int)
    requires Allowed(e, x)
    requires hour in e.hours && 0 <= hour < 24 && minute in e.minutes && 0 <= minute < 60
    ensures Matches(e, ToDays(x) * MINUTES_PER_DAY + 60 * hour + minute)
  {
    hide Matches, ToDays;
    MatchesCivilTime(e, x, hour, minute);
  }

  /** A match falls on a real, allowed date, between that day's first and last allowed minute. */
  lemma MatchFallsOn(e: CronExpression, m: int) returns (x: Date)
    requires WellFormed(e) && Matches(e, m)
    ensures Allowed(e, x)
    ensures FirstOfDay(e, ToDays(x)) <= m <= LastOfDay(e, ToDays(x))
  {
    var day := m / MINUTES_PER_DAY;
    x := FromDays(day);
    FromDaysToDays(day);
    var time := m - day * MINUTES_PER_DAY;
    Extremes(e.hours, time / 60);
    Extremes(e.minutes, time % 60);
  }

  lemma Extremes(values: seq<int>, v: int)
    requires StrictlyAscending(values) && v in values
    ensures values[0] <= v <= values[|values| - 1]
  {
  }

  lemma ReachedDateMatches(e: CronExpression, x: Date, c: int) returns (m: int)
    requires WellFormed(e) && Allowed(e, x) && InReach(e, c, ToDays(x))
    ensures c <= m < c + HORIZON && Matches(e, m)
  {
    hide Matches, Allowed, ToDays;
    var first, last := FirstOfDay(e, ToDays(x)), LastOfDay(e, ToDays(x));
    SlotMatches(e, x, e.hours[0], e.minutes[0]);
    SlotMatches(e, x, e.hours[|e.hours| - 1], e.minutes[|e.minutes| - 1]);
    m := if c <= first then first else last;
  }

  /** Whatever the five fields: the search fails exactly when no date with a listed month, day and weekday is in reach. */
  lemma NoneIffNoDateInReach(e: CronExpression, base: int)
    requires WellFormed(e)
    ensures NextMinute(e, base).None? <==>
            forall x :: Allowed(e, x) ==> !InReach(e, FirstCandidate(base), ToDays(x))
  {
    hide Matches, Allowed, InReach, ToDays;
    var c := FirstCandidate(base);
    if NextMinute(e, base).None? {
      forall x | Allowed(e, x)
        ensures !InReach(e, c, ToDays(x))
      {
        if InReach(e, c, ToDays(x)) {
          var m := ReachedDateMatches(e, x, c);
        }
      }
    } else {
      var m := NextMinute(e, base).value;
      var x := MatchFallsOn(e, m);
      InReachOf(e, c, m, ToDays(x));
    }
  }

  lemma InReachOf(e: CronExpression, c: int, m: int, day: int)
    requires WellFormed(e) && c <= m < c + HORIZON && FirstOfDay(e, day) <= m <= LastOfDay(e, day)
    ensures InReach(e, c, day)
  {
  }

  /** The day `m`/`d` of year `y + 1` comes at most 366 days after that of year `y`. */
  lemma YearApart(y: int, m: int, d: int)
    requires Yearly(m, d)
    ensures ToDays(Date(y, m, d)) + 365 <= ToDays(Date(y + 1, m, d)) <= ToDays(Date(y, m, d)) + 366
  {
    YearLength(y - 1);
    YearLength(y);
  }

  /** Two days of one year are less than 366 days apart. */
  lemma SameYear(a: Date, b: Date)
    requires Valid(a) && Valid(b) && a.year == b.year
    ensures ToDays(b) - ToDays(a) < 366
  {
    YearLength(a.year - 1);
  }

  /** The first `m`/`d` whose time of day `time` is not before minute `c` comes in less than 366 days. */
  lemma NextYearly(c: int, m: int, d: int, time: int) returns (x: Date)
    requires Yearly(m, d) && 0 <= time < MINUTES_PER_DAY
    ensures Valid(x) && x.month == m && x.day == d
    ensures c <= ToDays(x) * MINUTES_PER_DAY + time < c + 366 * MINUTES_PER_DAY
  {
    var today := c / MINUTES_PER_DAY;
    var now := FromDays(today);
    FromDaysToDays(today);
    x := Date(now.year, m, d);
    SameYear(now, x);
    var day := ToDays(x);
    if day * MINUTES_PER_DAY + time < c {
      x := Date(now.year + 1, m, d);
      YearApart(now.year, m, d);
      ToDaysAscends(now, x);
      assert today < ToDays(x) <= day + 366;
    }
  }

  /** With a yearly day allowed, some match comes less than 366 days after any minute `c`. */
  lemma YearlyMatch(e: CronExpression, c: int) returns (m: int)
    requires WellFormed(e) && EveryWeekday(e) && AllowsYearly(e)
    ensures c <= m < c + 366 * MINUTES_PER_DAY && Matches(e, m)
  {
    hide Matches, ToDays, Weekday, YearStart;
    var month, d :| month in e.months && d in e.days && Yearly(month, d);
    var time := 60 * e.hours[0] + e.minutes[0];
    var x := NextYearly(c, month, d, time);
    assert Allowed(e, x);
    SlotMatches(e, x, e.hours[0], e.minutes[0]);
    m := ToDays(x) * MINUTES_PER_DAY + time;
  }

  /** Every weekday and some yearly day allowed: the search succeeds from every base, within 366 days. */
  lemma YearlyAlwaysFound(e: CronExpression, base: int)
    requires WellFormed(e) && EveryWeekday(e) && AllowsYearly(e)
    ensures NextMinute(e, base).Some?
    ensures NextMinute(e, base).value < FirstCandidate(base) + 366 * MINUTES_PER_DAY
  {
    var m := YearlyMatch(e, FirstCandidate(base));
  }

  lemma MatchAllows(e: CronExpression, m: int)
    requires WellFormed(e) && Matches(e, m)
    ensures AllowsYearly(e) || AllowsLeapDay(e)
  {
    var x := MatchFallsOn(e, m);
    assert Yearly(x.month, x.day) || (x.month == 2 && x.day == 29);
  }

  /** No month has any of the allowed days: the search never succeeds, whatever the weekdays. */
  lemma ImpossibleNeverFound(e: CronExpression, base: int)
    requires WellFormed(e) && !AllowsYearly(e) && !AllowsLeapDay(e)
    ensures NextMinute(e, base) == None
  {
    if NextMinute(e, base).Some? {
      MatchAllows(e, NextMinute(e, base).value);
    }
  }

  // Weekdays that are not all allowed. A date moves by one or two weekdays from year to year.

  function WeekdayIn(y: int, m: int, d: int): int {
    Weekday(ToDays(Date(y, m, d)))
  }

  /** Four weekdays, no two alike. */
  predicate FourDifferent(four: seq<int>) {
    && |four| == 4
    && (forall k :: 0 <= k < 4 ==> 0 <= four[k] < 7)
    && (forall k, l :: 0 <= k < l < 4 ==> four[k] != four[l])
  }

  /** Four years running, a yearly date falls on four different weekdays. */
  lemma FourYearsRunning(y: int, m: int, d: int)
    requires Yearly(m, d)
    ensures FourDifferent([WeekdayIn(y, m, d), WeekdayIn(y + 1, m, d), WeekdayIn(y + 2, m, d), WeekdayIn(y + 3, m, d)])
  {
    hide ToDays;
    YearApart(y, m, d);
    YearApart(y + 1, m, d);
    YearApart(y + 2, m, d);
    assert Date(y + 1 + 1, m, d) == Date(y + 2, m, d) && Date(y + 2 + 1, m, d) == Date(y + 3, m, d);
  }

  /** Two lots of four weekdays have one in common. */
  lemma CommonWeekday(weekdays: seq<int>, four: seq<int>) returns (i: nat)
    requires FieldOf(weekdays, 0, 6) && |weekdays| >= 4 && FourDifferent(four)
    ensures i < 4 && four[i] in weekdays
  {
    var all := {0, 1, 2, 3, 4, 5, 6};
    var a := {weekdays[0], weekdays[1], weekdays[2], weekdays[3]};
    var b := {four[0], four[1], four[2], four[3]};
    assert all * (a + b) == a + b;
    assert |a + b| <= |all| by {
      assert |all - (a + b)| == |all| - |all * (a + b)|;
    }
    assert a * b != {};
    var w :| w in a * b;
    i :| 0 <= i < 4 && four[i] == w;
  }

  /** Any four weekdays and some yearly day allowed: the search succeeds from every base. */
  lemma FourWeekdaysAlwaysFound(e: CronExpression, base: int)
    requires WellFormed(e) && |e.weekdays| >= 4 && AllowsYearly(e)
    ensures NextMinute(e, base).Some?
  {
    hide ToDays, Matches, YearStart, IsLeap, Weekday, FourDifferent;
    var m, d :| m in e.months && d in e.days && Yearly(m, d);
    var x := NextYearly(FirstCandidate(base), m, d, 60 * e.hours[0] + e.minutes[0]);
    FourYearsRunning(x.year, m, d);
    var i := CommonWeekday(e.weekdays, [WeekdayIn(x.year, m, d), WeekdayIn(x.year + 1, m, d),
                                        WeekdayIn(x.year + 2, m, d), WeekdayIn(x.year + 3, m, d)]);
    var y := Date(x.year + i, m, d);
    YearsReach(x.year, i, m, d);
    assert Allowed(e, y);
    SlotMatches(e, y, e.hours[0], e.minutes[0]);
  }

  lemma YearsReach(y: int, i: nat, m: int, d: int)
    requires Yearly(m, d) && i < 4
    ensures Valid(Date(y + i, m, d))
    ensures ToDays(Date(y, m, d)) <= ToDays(Date(y + i, m, d)) <= ToDays(Date(y, m, d)) + 3 * 366
  {
    hide ToDays;
    YearApart(y, m, d);
    YearApart(y + 1, m, d);
    YearApart(y + 2, m, d);
  }

  /** Seven consecutive days of some month, up to the 28th, hold every weekday. */
  ghost predicate AllowsWeek(e: CronExpression, d: int) {
    1 <= d <= 22 && forall k :: d <= k < d + 7 ==> k in e.days
  }

  /** A week of days allowed: the search succeeds from every base whatever the weekdays, within 372 days. */
  lemma WeekAlwaysFound(e: CronExpression, base: int, d: int)
    requires WellFormed(e) && AllowsWeek(e, d)
    ensures NextMinute(e, base).Some?
    ensures NextMinute(e, base).value < FirstCandidate(base) + 372 * MINUTES_PER_DAY
  {
    hide Matches, YearStart, IsLeap;
    var c, m := FirstCandidate(base), e.months[0];
    var x := NextYearly(c, m, d, 60 * e.hours[0] + e.minutes[0]);
    var k := (e.weekdays[0] - Weekday(ToDays(x))) % 7;
    var y := Date(x.year, m, d + k);
    assert ToDays(y) == ToDays(x) + k;
    WeekdayLater(ToDays(x), e.weekdays[0]);
    assert d <= y.day < d + 7 && Valid(y);
    assert Allowed(e, y);
    SlotMatches(e, y, e.hours[0], e.minutes[0]);
  }

  lemma WeekdayLater(z: int, w: int)
    requires 0 <= w < 7
    ensures Weekday(z + (w - Weekday(z)) % 7) == w
  {
  }

  /** A yearly day with four weekdays, or a week of days. */
  ghost predicate Plentiful(e: CronExpression) {
    (AllowsYearly(e) && |e.weekdays| >= 4) || exists d :: AllowsWeek(e, d)
  }

  /** Such an expression is found from every base. */
  lemma PlentifulAlwaysFound(e: CronExpression, base: int)
    requires WellFormed(e) && Plentiful(e)
    ensures NextMinute(e, base).Some?
  {
    hide NextMinute, AllowsYearly, AllowsWeek, WellFormed;
    if AllowsYearly(e) && |e.weekdays| >= 4 {
      FourWeekdaysAlwaysFound(e, base);
    } else {
      var d :| AllowsWeek(e, d);
      WeekAlwaysFound(e, base, d);
    }
  }

  /** `0 0 1 1` and some weekdays */
  function NewYear(weekdays: seq<int>): CronExpression {
    CronExpression([0], [0], [1], [1], weekdays)
  }

  lemma NewYears2019To2022(y: int)
    requires ToDays(Date(2018, 1, 2)) < ToDays(Date(y, 1, 1)) <= ToDays(Date(2018, 1, 2)) + 1464
    ensures Weekday(ToDays(Date(y, 1, 1))) in {2, 3, 5, 6}
  {
    hide YearStart;
    assert YearStart(2017) == 17226 && YearStart(2018) == 17591 && YearStart(2022) == 19052 by {
      AboutYears();
    }
    if y <= 2018 {
      YearsAscend(y - 1, 2017);
    } else if y >= 2023 {
      YearsAscend(2022, y - 1);
    } else {
      AboutYears();
    }
  }

  lemma AboutYears()
    ensures YearStart(2017) == 17226 && YearStart(2018) == 17591 && YearStart(2019) == 17956
    ensures YearStart(2020) == 18322 && YearStart(2021) == 18687 && YearStart(2022) == 19052
    ensures YearStart(2023) == 19417 && YearStart(2025) == 20148
  {
  }

  lemma LaterNewYears()
    ensures WeekdayIn(2023, 1, 1) == 0 && WeekdayIn(2024, 1, 1) == 1 && WeekdayIn(2026, 1, 1) == 4
  {
    hide YearStart;
    AboutYears();
  }

  /** Three weekdays are not enough: seen from 2018-01-02, New Year on a Sunday, Monday or Thursday, or on any of the
      three, is given up, although it comes in 2023, 2024 and 2026. */
  lemma NewYearMissed(weekdays: seq<int>) returns (y: int)
    requires FieldOf(weekdays, 0, 6) && forall w :: w in weekdays ==> w in {0, 1, 4}
    ensures NextMinute(NewYear(weekdays), ToDays(Date(2018, 1, 2)) * MINUTES_PER_DAY * MINUTE) == None
    ensures y in {2023, 2024, 2026} && Matches(NewYear(weekdays), ToDays(Date(y, 1, 1)) * MINUTES_PER_DAY)
  {
    hide Matches, YearStart, NextMinute;
    var e, day := NewYear(weekdays), ToDays(Date(2018, 1, 2));
    var base := day * MINUTES_PER_DAY * MINUTE;
    assert FirstCandidate(base) == day * MINUTES_PER_DAY + 1;
    forall x | Allowed(e, x)
      ensures !InReach(e, FirstCandidate(base), ToDays(x))
    {
      assert x == Date(x.year, 1, 1);
      if InReach(e, FirstCandidate(base), ToDays(x)) {
        NewYears2019To2022(x.year);
      }
    }
    NoneIffNoDateInReach(e, base);
    LaterNewYears();
    var w := weekdays[0];
    assert w in weekdays;
    y := if w == 0 then 2023 else if w == 1 then 2024 else 2026;
    assert Allowed(e, Date(y, 1, 1));
    SlotMatches(e, Date(y, 1, 1), 0, 0);
  }

  // What remains: 29 February is the only allowed day.

  /** The last day of February of year `y`. */
  function EndOfFebruary(y: int): int {
    YearStart(y) - 1
  }

  /** A fourth year that the century rule takes away. */
  predicate Skipped(y: int) {
    y % 4 == 0 && !IsLeap(y)
  }

  /** The next fourth year has no 29 February, and the one after it lies outside the window. */
  ghost predicate SkippedYearAhead(e: CronExpression, c: int)
    requires WellFormed(e)
  {
    exists y ::
      && Skipped(y)
      && LastOfDay(e, EndOfFebruary(y - 4)) < c
      && c + HORIZON <= FirstOfDay(e, EndOfFebruary(y + 4))
  }

  lemma OneLeapInFour(y: int)
    requires y % 4 == 0
    ensures !IsLeap(y - 1) && !IsLeap(y - 2) && !IsLeap(y - 3)
    ensures !IsLeap(y) ==> IsLeap(y + 4)
  {
    Rem4(y / 4 - 1, 3);
    Rem4(y / 4 - 1, 2);
    Rem4(y / 4 - 1, 1);
    Rem4(y / 4 + 1, 0);
    if !IsLeap(y) {
      Rem100(y / 100, 4);
    }
  }

  lemma FourYears(y: int)
    requires y % 4 == 0
    ensures EndOfFebruary(y) == EndOfFebruary(y - 4) + (if IsLeap(y) then 1461 else 1460)
    ensures IsLeap(y) ==> Valid(Date(y, 2, 29)) && ToDays(Date(y, 2, 29)) == EndOfFebruary(y)
    ensures Skipped(y) ==> IsLeap(y + 4)
  {
    hide YearStart, IsLeap;
    OneLeapInFour(y);
    YearLength(y - 4);
    YearLength(y - 3);
    YearLength(y - 2);
    YearLength(y - 1);
  }

  /** The first fourth year whose 29 February could still come at or after minute `c`. */
  lemma NextFourthYear(e: CronExpression, c: int) returns (y: int)
    requires WellFormed(e)
    ensures y % 4 == 0
    ensures LastOfDay(e, EndOfFebruary(y - 4)) < c <= LastOfDay(e, EndOfFebruary(y))
  {
    hide YearStart, MarchYear, IsLeap, LastOfDay;
    var today := c / MINUTES_PER_DAY;
    var march := MarchYear(today);
    InMarchYear(today);
    y := march - march % 4;
    YearsAscend(y, march);
    YearsAscend(march + 1, y + 4);
    assert EndOfFebruary(y) < today <= EndOfFebruary(y + 4);
    assert EndOfFebruary(y + 4) < EndOfFebruary(y + 8) by {
      YearsAscend(y + 4, y + 8);
    }
    InsideDay(e, EndOfFebruary(y));
    InsideDay(e, EndOfFebruary(y + 8));
    y := if LastOfDay(e, EndOfFebruary(y + 4)) < c then y + 8 else y + 4;
  }

  lemma InsideDay(e: CronExpression, day: int)
    requires WellFormed(e)
    ensures day * MINUTES_PER_DAY <= FirstOfDay(e, day)
    ensures LastOfDay(e, day) < (day + 1) * MINUTES_PER_DAY
    ensures day * MINUTES_PER_DAY <= LastOfDay(e, day)
  {
  }

  lemma LeapDayMatches(e: CronExpression, y: int)
    requires WellFormed(e) && EveryWeekday(e) && AllowsLeapDay(e) && IsLeap(y)
    ensures Matches(e, FirstOfDay(e, EndOfFebruary(y)))
    ensures Matches(e, LastOfDay(e, EndOfFebruary(y)))
  {
    hide Matches, YearStart, ToDays, Weekday;
    FourYears(y);
    assert Allowed(e, Date(y, 2, 29));
    SlotMatches(e, Date(y, 2, 29), e.hours[0], e.minutes[0]);
    SlotMatches(e, Date(y, 2, 29), e.hours[|e.hours| - 1], e.minutes[|e.minutes| - 1]);
  }

  /** If 29 February is all that is left, a match can only fall there. */
  lemma MatchIsLeapDay(e: CronExpression, m: int) returns (y: int)
    requires WellFormed(e) && !AllowsYearly(e) && Matches(e, m)
    ensures IsLeap(y)
    ensures FirstOfDay(e, EndOfFebruary(y)) <= m <= LastOfDay(e, EndOfFebruary(y))
  {
    var x := MatchFallsOn(e, m);
    assert x.month == 2 && x.day == 29 by {
      assert Yearly(x.month, x.day) || (x.month == 2 && x.day == 29);
    }
    y := x.year;
    FourYears(y);
  }

  lemma LeapApart(leap: int, y: int)
    requires IsLeap(leap) && Skipped(y)
    ensures leap <= y - 4 || y + 4 <= leap
  {
  }

  /** No 29 February falls between the one before a skipped year and the one after it. */
  lemma SkippedGap(e: CronExpression, y: int, m: int)
    requires WellFormed(e) && !AllowsYearly(e) && Skipped(y) && Matches(e, m)
    ensures m <= LastOfDay(e, EndOfFebruary(y - 4)) || FirstOfDay(e, EndOfFebruary(y + 4)) <= m
  {
    hide YearStart, Matches, IsLeap;
    var leap := MatchIsLeapDay(e, m);
    LeapApart(leap, y);
    if leap <= y - 4 {
      YearsAscend(leap, y - 4);
    } else {
      YearsAscend(y + 4, leap);
    }
  }

  lemma SkippedMeansNone(e: CronExpression, base: int)
    requires WellFormed(e) && !AllowsYearly(e) && SkippedYearAhead(e, FirstCandidate(base))
    ensures NextMinute(e, base) == None
  {
    hide YearStart, Matches, IsLeap, LastOfDay, FirstOfDay;
    var c := FirstCandidate(base);
    var y :| Skipped(y) && LastOfDay(e, EndOfFebruary(y - 4)) < c && c + HORIZON <= FirstOfDay(e, EndOfFebruary(y + 4));
    if NextMinute(e, base).Some? {
      SkippedGap(e, y, NextMinute(e, base).value);
    }
  }

  /** A fourth year in reach of `c` has its 29 February inside the window, or is a skipped one. */
  lemma FourthYearReach(e: CronExpression, c: int, y: int)
    requires WellFormed(e) && y % 4 == 0
    requires LastOfDay(e, EndOfFebruary(y - 4)) < c <= LastOfDay(e, EndOfFebruary(y))
    ensures LastOfDay(e, EndOfFebruary(y)) < c + HORIZON
    ensures c <= FirstOfDay(e, EndOfFebruary(y + 4))
    ensures IsLeap(y) || (Skipped(y) && IsLeap(y + 4))
  {
    hide YearStart, IsLeap;
    FourYears(y);
    FourYears(y + 4);
  }

  lemma NoneMeansSkipped(e: CronExpression, base: int)
    requires WellFormed(e) && EveryWeekday(e) && AllowsLeapDay(e) && NextMinute(e, base) == None
    ensures SkippedYearAhead(e, FirstCandidate(base))
  {
    hide YearStart, Matches, IsLeap, LastOfDay, FirstOfDay;
    var y := NextFourthYear(e, FirstCandidate(base));
    FourthYearReach(e, FirstCandidate(base), y);
    if IsLeap(y) {
      LeapDayMatches(e, y);
    } else {
      LeapDayMatches(e, y + 4);
    }
  }

  /** Only 29 February allowed: the search fails exactly when a skipped leap year pushes the next one out of the window. */
  lemma LeapDayFoundIff(e: CronExpression, base: int)
    requires WellFormed(e) && EveryWeekday(e) && AllowsLeapDay(e) && !AllowsYearly(e)
    ensures NextMinute(e, base).None? <==> SkippedYearAhead(e, FirstCandidate(base))
  {
    if NextMinute(e, base).None? {
      NoneMeansSkipped(e, base);
    }
    if SkippedYearAhead(e, FirstCandidate(base)) {
      SkippedMeansNone(e, base);
    }
  }

  /** `0 0 29 2 *` */
  const LEAP_DAY_MIDNIGHT := CronExpression([0], [0], [29], [2], [0, 1, 2, 3, 4, 5, 6])

  lemma Around2100()
    ensures ToDays(Date(2096, 3, 1)) == EndOfFebruary(2100 - 4) + 1
    ensures EndOfFebruary(2100 + 4) == EndOfFebruary(2100 - 4) + 2921
    ensures Skipped(2100) && IsLeap(2104)
    ensures WellFormed(LEAP_DAY_MIDNIGHT) && EveryWeekday(LEAP_DAY_MIDNIGHT)
    ensures AllowsLeapDay(LEAP_DAY_MIDNIGHT) && !AllowsYearly(LEAP_DAY_MIDNIGHT)
  {
  }

  /** The window does not cover every expression that has a match: seen from 2096-03-01, the lone leap day is
      given up although 2104-02-29 matches. */
  lemma LoneLeapDayMissed()
    ensures NextMinute(LEAP_DAY_MIDNIGHT, ToDays(Date(2096, 3, 1)) * MINUTES_PER_DAY * MINUTE) == None
    ensures Matches(LEAP_DAY_MIDNIGHT, ToDays(Date(2104, 2, 29)) * MINUTES_PER_DAY)
  {
    hide Matches, YearStart, IsLeap, ToDays, NextMinute;
    Around2100();
    SkippedMeansNone(LEAP_DAY_MIDNIGHT, ToDays(Date(2096, 3, 1)) * MINUTES_PER_DAY * MINUTE);
    LeapDayMatches(LEAP_DAY_MIDNIGHT, 2104);
    FourYears(2104);
  }
}
