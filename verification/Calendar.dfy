/** The proleptic Gregorian calendar behind std::chrono's year_month_day and weekday. */
module Calendar {

  datatype Date = Date(year: int, month: int, day: int)

  predicate IsLeap(y: int) {
    y % 4 == 0 && (y % 100 != 0 || y % 400 == 0)
  }

  function DaysInMonth(y: int, m: int): int {
    if m == 2 then (if IsLeap(y) then 29 else 28)
    else if m == 4 || m == 6 || m == 9 || m == 11 then 30
    else 31
  }

  predicate Valid(x: Date) {
    1 <= x.month <= 12 && 1 <= x.day <= DaysInMonth(x.year, x.month)
  }

  /** Chronological order of dates. */
  predicate Before(a: Date, b: Date) {
    a.year < b.year || (a.year == b.year && (a.month < b.month || (a.month == b.month && a.day < b.day)))
  }

  /** The date following `x`, by the calendar's own rule. */
  function Following(x: Date): Date {
    if x.day < DaysInMonth(x.year, x.month) then x.(day := x.day + 1)
    else if x.month < 12 then Date(x.year, x.month + 1, 1)
    else Date(x.year + 1, 1, 1)
  }

  // Years are counted from 1 March, so that the leap day closes a year.

  /** Day number of 1 March of year `y`; day 0 is 1970-01-01. */
  function YearStart(y: int): int {
    365 * y + y / 4 - y / 100 + y / 400 - 719468
  }

  /** Days between 1 March and the first day of month `m`, 3 <= m <= 14 (13 and 14 are the next January and February). */
  function MonthStart(m: int): int {
    if m <= 3 then 0 else if m == 4 then 31 else if m == 5 then 61 else if m == 6 then 92
    else if m == 7 then 122 else if m == 8 then 153 else if m == 9 then 184 else if m == 10 then 214
    else if m == 11 then 245 else if m == 12 then 275 else if m == 13 then 306 else 337
  }

  function ToDays(x: Date): int {
    if x.month <= 2 then YearStart(x.year - 1) + MonthStart(x.month + 12) + x.day - 1
    else YearStart(x.year) + MonthStart(x.month) + x.day - 1
  }

  /** The March-based year holding day `z`: 400-year eras, centuries, four-year cycles, years. */
  function MarchYear(z: int): int {
    var n := z + 719468;
    var era, dayOfEra := n / 146097, n % 146097;
    var century := if dayOfEra / 36524 > 3 then 3 else dayOfEra / 36524;
    var dayOfCentury := dayOfEra - 36524 * century;
    var cycle, dayOfCycle := dayOfCentury / 1461, dayOfCentury % 1461;
    var year := if dayOfCycle / 365 > 3 then 3 else dayOfCycle / 365;
    400 * era + 100 * century + 4 * cycle + year
  }

  /** The last month, 3..14, that starts on or before day `doy` of the March-based year. */
  function MarchMonth(doy: int): int {
    if doy < 31 then 3 else if doy < 61 then 4 else if doy < 92 then 5 else if doy < 122 then 6
    else if doy < 153 then 7 else if doy < 184 then 8 else if doy < 214 then 9 else if doy < 245 then 10
    else if doy < 275 then 11 else if doy < 306 then 12 else if doy < 337 then 13 else 14
  }

  /** The date of day number `z`: what `year_month_day{sys_days}` holds. */
  function FromDays(z: int): Date {
    var y := MarchYear(z);
    var doy := z - YearStart(y);
    var m := MarchMonth(doy);
    var d := doy - MonthStart(m) + 1;
    if m <= 12 then Date(y, m, d) else Date(y + 1, m - 12, d)
  }

  /** `weekday{sys_days}.c_encoding()`: Sunday is 0 and 1970-01-01 was a Thursday. */
  function Weekday(z: int): (w: int)
    ensures 0 <= w < 7
  {
    (z + 4) % 7
  }

  /** Weekdays follow each other in sevens from a Thursday, so 2024-04-10 is a Wednesday. */
  lemma WeekdaysCycle(z: int)
    ensures Weekday(z + 1) == if Weekday(z) == 6 then 0 else Weekday(z) + 1
    ensures Weekday(ToDays(Date(1970, 1, 1))) == 4 && Weekday(ToDays(Date(2024, 4, 10))) == 3
  {
    assert Weekday(z + 1) == (Weekday(z) + 1) % 7;
  }

  lemma YearLength(y: int)
    ensures YearStart(y + 1) == YearStart(y) + (if IsLeap(y + 1) then 366 else 365)
  {
    assert (y + 1) / 4 == y / 4 + (if (y + 1) % 4 == 0 then 1 else 0);
    assert (y + 1) / 100 == y / 100 + (if (y + 1) % 100 == 0 then 1 else 0);
    assert (y + 1) / 400 == y / 400 + (if (y + 1) % 400 == 0 then 1 else 0);
  }

  lemma {:induction false} YearsAscend(a: int, b: int)
    requires a <= b
    ensures YearStart(b) >= YearStart(a) + 365 * (b - a)
    decreases b - a
  {
    if a < b {
      YearsAscend(a, b - 1);
      YearLength(b - 1);
    }
  }

  lemma YearStartSplit(e: int, c: int, q: int, r: int)
    requires 0 <= c <= 3 && 0 <= q <= 24 && 0 <= r <= 3
    ensures YearStart(400 * e + 100 * c + 4 * q + r) == 146097 * e + 36524 * c + 1461 * q + 365 * r - 719468
  {
    var y := 400 * e + 100 * c + 4 * q + r;
    assert y / 4 == 100 * e + 25 * c + q;
    assert y / 100 == 4 * e + c;
    assert y / 400 == e;
  }

  lemma Rem4(k: int, r: int)
    requires 0 <= r < 4
    ensures (4 * k + r) % 4 == r
  {
  }

  lemma Rem100(k: int, r: int)
    requires 0 <= r < 100
    ensures (100 * k + r) % 100 == r
  {
  }

  lemma Rem400(k: int, r: int)
    requires 0 <= r < 400
    ensures (400 * k + r) % 400 == r
  {
  }

  lemma LeapSplit(e: int, c: int, q: int, r: int)
    requires 0 <= c <= 3 && 0 <= q <= 24 && 0 <= r <= 3
    ensures IsLeap(400 * e + 100 * c + 4 * q + r + 1) <==> (r == 3 && (q == 24 ==> c == 3))
  {
    if r < 3 {
      Rem4(100 * e + 25 * c + q, r + 1);
    } else {
      Rem4(100 * e + 25 * c + q + 1, 0);
      if q < 24 {
        Rem100(4 * e + c, 4 * q + 4);
      } else {
        Rem100(4 * e + c + 1, 0);
        if c < 3 {
          Rem400(e, 100 * c + 100);
        } else {
          Rem400(e + 1, 0);
        }
      }
    }
  }

  /** Era, century, cycle and year of a day number, with the days left over in that year. */
  lemma MarchYearParts(z: int) returns (era: int, century: int, cycle: int, year: int, rest: int)
    ensures 0 <= century <= 3 && 0 <= cycle <= 24 && 0 <= year <= 3
    ensures MarchYear(z) == 400 * era + 100 * century + 4 * cycle + year
    ensures z + 719468 == 146097 * era + 36524 * century + 1461 * cycle + 365 * year + rest
    ensures 0 <= rest < 365 || (rest == 365 && year == 3 && (cycle == 24 ==> century == 3))
  {
    var n := z + 719468;
    var dayOfEra := n % 146097;
    era, century := n / 146097, if dayOfEra / 36524 > 3 then 3 else dayOfEra / 36524;
    var dayOfCentury := dayOfEra - 36524 * century;
    assert 0 <= dayOfCentury <= 36524 && (century < 3 ==> dayOfCentury < 36524);
    var dayOfCycle := dayOfCentury % 1461;
    cycle, year := dayOfCentury / 1461, if dayOfCycle / 365 > 3 then 3 else dayOfCycle / 365;
    rest := dayOfCycle - 365 * year;
  }

  /** Day `z` lies inside the March-based year that MarchYear finds. */
  lemma InMarchYear(z: int)
    ensures YearStart(MarchYear(z)) <= z < YearStart(MarchYear(z) + 1)
  {
    hide YearStart, MarchYear, IsLeap;
    var era, century, cycle, year, rest := MarchYearParts(z);
    YearStartSplit(era, century, cycle, year);
    LeapSplit(era, century, cycle, year);
    YearLength(MarchYear(z));
  }

  /** Splitting a day number gives a real calendar date, and counting its days gives the number back. */
  lemma FromDaysToDays(z: int)
    ensures Valid(FromDays(z))
    ensures ToDays(FromDays(z)) == z
  {
    hide YearStart, MarchYear, IsLeap;
    InMarchYear(z);
    YearLength(MarchYear(z));
    assert FromDays(z).month <= 2 ==> MarchYear(z) == FromDays(z).year - 1;
  }

  /** Day numbers order dates exactly as the calendar does. */
  lemma ToDaysAscends(a: Date, b: Date)
    requires Valid(a) && Valid(b) && Before(a, b)
    ensures ToDays(a) < ToDays(b)
  {
    hide YearStart, IsLeap;
    var ya := if a.month <= 2 then a.year - 1 else a.year;
    var yb := if b.month <= 2 then b.year - 1 else b.year;
    YearLength(ya);
    if ya < yb {
      YearsAscend(ya + 1, yb);
    }
  }

  /** Every real calendar date survives the trip through its day number. */
  lemma ToDaysFromDays(x: Date)
    requires Valid(x)
    ensures FromDays(ToDays(x)) == x
  {
    var back := FromDays(ToDays(x));
    FromDaysToDays(ToDays(x));
    if Before(back, x) {
      ToDaysAscends(back, x);
    } else if Before(x, back) {
      ToDaysAscends(x, back);
    }
  }

  lemma FollowingIsNextDay(x: Date)
    requires Valid(x)
    ensures Valid(Following(x))
    ensures ToDays(Following(x)) == ToDays(x) + 1
  {
    hide YearStart, IsLeap;
    YearLength(x.year - 1);
  }

  /** A day number belongs to one date only. */
  lemma DateOfDay(z: int, x: Date)
    requires Valid(x) && ToDays(x) == z
    ensures FromDays(z) == x
  {
    ToDaysFromDays(x);
  }

  /** The split starts at 1970-01-01 ... */
  lemma Epoch()
    ensures FromDays(0) == Date(1970, 1, 1)
  {
    DateOfDay(0, Date(1970, 1, 1));
  }

  /** ... and follows the calendar's own next-day rule, forwards and backwards, so it is the calendar. */
  lemma SplitFollowsCalendar(z: int)
    ensures FromDays(z + 1) == Following(FromDays(z))
  {
    FromDaysToDays(z);
    FollowingIsNextDay(FromDays(z));
    DateOfDay(z + 1, Following(FromDays(z)));
  }

  /** Later days have later dates. */
  lemma FromDaysAscends(a: int, b: int)
    requires a < b
    ensures Before(FromDays(a), FromDays(b))
  {
    FromDaysToDays(a);
    FromDaysToDays(b);
    if !Before(FromDays(a), FromDays(b)) && FromDays(a) != FromDays(b) {
      ToDaysAscends(FromDays(b), FromDays(a));
    }
  }
}
