/** Instants as whole nanoseconds since 1970-01-01T00:00:00Z, and their reading in the
    proleptic Gregorian calendar with the leap rule of Appendix C of RFC 3339. */
module Calendar {
  type Nanos = int

  const SECOND: int := 1_000_000_000
  const MINUTE: int := 60_000_000_000
  const HOUR: int := 3_600_000_000_000
  const DAY: int := 86_400_000_000_000
  /** Days from 0000-01-01 to 1970-01-01. */
  const EPOCH_DAY: int := 719528

  datatype Civil = Civil(year: int, month: int, day: int, hour: int, minute: int, second: int, nanos: int)

  predicate Leap(year: int) {
    year % 4 == 0 && (year % 100 != 0 || year % 400 == 0)
  }

  function DaysIn(month: int, year: int): int {
    if month == 2 then (if Leap(year) then 29 else 28)
    else if month == 4 || month == 6 || month == 9 || month == 11 then 30
    else 31
  }

  /** Days from 0000-01-01 to the first of January of the year; negative before year 0. */
  function DaysBeforeYear(year: int): int {
    var y := year - 1;
    366 + 365 * y + y / 4 - y / 100 + y / 400
  }

  function DaysBeforeMonth(month: int, leap: bool): int {
    var shift := if leap then 1 else 0;
    if month <= 1 then 0
    else if month == 2 then 31
    else if month == 3 then 59 + shift
    else if month == 4 then 90 + shift
    else if month == 5 then 120 + shift
    else if month == 6 then 151 + shift
    else if month == 7 then 181 + shift
    else if month == 8 then 212 + shift
    else if month == 9 then 243 + shift
    else if month == 10 then 273 + shift
    else if month == 11 then 304 + shift
    else if month == 12 then 334 + shift
    else 365 + shift
  }

  /** The year containing a day, by splitting off 400-year, 100-year, 4-year and 1-year cycles. */
  function YearOf(day: int): int {
    var d := day - 366;
    var n400, r400 := d / 146097, d % 146097;
    var n100 := if r400 / 36524 == 4 then 3 else r400 / 36524;
    var r100 := r400 - 36524 * n100;
    var n4, r4 := r100 / 1461, r100 % 1461;
    var n1 := if r4 / 365 == 4 then 3 else r4 / 365;
    400 * n400 + 100 * n100 + 4 * n4 + n1 + 1
  }

  function MonthOf(yearDay: int, leap: bool): int {
    if yearDay < 31 then 1
    else if yearDay < DaysBeforeMonth(3, leap) then 2
    else if yearDay < DaysBeforeMonth(4, leap) then 3
    else if yearDay < DaysBeforeMonth(5, leap) then 4
    else if yearDay < DaysBeforeMonth(6, leap) then 5
    else if yearDay < DaysBeforeMonth(7, leap) then 6
    else if yearDay < DaysBeforeMonth(8, leap) then 7
    else if yearDay < DaysBeforeMonth(9, leap) then 8
    else if yearDay < DaysBeforeMonth(10, leap) then 9
    else if yearDay < DaysBeforeMonth(11, leap) then 10
    else if yearDay < DaysBeforeMonth(12, leap) then 11
    else 12
  }

  function DayNumber(t: Nanos): int {
    t / DAY + EPOCH_DAY
  }

  function FromInstant(t: Nanos): Civil {
    var day, rest := DayNumber(t), t % DAY;
    var year := YearOf(day);
    var yearDay := day - DaysBeforeYear(year);
    var month := MonthOf(yearDay, Leap(year));
    Civil(year, month, yearDay - DaysBeforeMonth(month, Leap(year)) + 1,
          rest / HOUR, rest % HOUR / MINUTE, rest % MINUTE / SECOND, rest % SECOND)
  }

  function ToInstant(c: Civil): Nanos {
    (DaysBeforeYear(c.year) + DaysBeforeMonth(c.month, Leap(c.year)) + c.day - 1 - EPOCH_DAY) * DAY
    + c.hour * HOUR + c.minute * MINUTE + c.second * SECOND + c.nanos
  }

  predicate Valid(c: Civil) {
    && 1 <= c.month <= 12
    && 1 <= c.day <= DaysIn(c.month, c.year)
    && 0 <= c.hour < 24 && 0 <= c.minute < 60 && 0 <= c.second < 60
    && 0 <= c.nanos < SECOND
  }

  lemma FourthYears(y: int)
    ensures (y + 1) / 4 == y / 4 + if (y + 1) % 4 == 0 then 1 else 0
  {
    assert y + 1 == 4 * (y / 4) + (y % 4 + 1);
  }

  lemma HundredthYears(y: int)
    ensures (y + 1) / 100 == y / 100 + if (y + 1) % 100 == 0 then 1 else 0
  {
    assert y + 1 == 100 * (y / 100) + (y % 100 + 1);
  }

  lemma FourHundredthYears(y: int)
    ensures (y + 1) / 400 == y / 400 + if (y + 1) % 400 == 0 then 1 else 0
  {
    assert y + 1 == 400 * (y / 400) + (y % 400 + 1);
  }

  lemma CenturyAtFourHundred(year: int)
    requires year % 400 == 0
    ensures year % 100 == 0
  {
    assert year == 100 * (4 * (year / 400));
  }

  lemma FourthAtCentury(year: int)
    requires year % 100 == 0
    ensures year % 4 == 0
  {
    assert year == 4 * (25 * (year / 100));
  }

  lemma YearLength(year: int)
    ensures DaysBeforeYear(year + 1) - DaysBeforeYear(year) == if Leap(year) then 366 else 365
  {
    FourthYears(year - 1);
    HundredthYears(year - 1);
    FourHundredthYears(year - 1);
    if year % 400 == 0 {
      CenturyAtFourHundred(year);
    }
    if year % 100 == 0 {
      FourthAtCentury(year);
    }
  }

  lemma MonthLength(month: int, year: int)
    requires 1 <= month <= 12
    ensures DaysBeforeMonth(month + 1, Leap(year)) - DaysBeforeMonth(month, Leap(year)) == DaysIn(month, year)
  {
  }

  lemma {:induction false} YearsAscend(a: int, b: int)
    requires a <= b
    ensures DaysBeforeYear(a) + 365 * (b - a) <= DaysBeforeYear(b)
    decreases b - a
  {
    if a < b {
      YearsAscend(a, b - 1);
      YearLength(b - 1);
    }
  }

  lemma CycleSplit(a: int, b: int, c: int, e: int)
    requires 0 <= b <= 3 && 0 <= c <= 24 && 0 <= e <= 3
    ensures var y := 400 * a + 100 * b + 4 * c + e;
            DaysBeforeYear(y + 1) == 366 + 146097 * a + 36524 * b + 1461 * c + 365 * e
  {
    var y := 400 * a + 100 * b + 4 * c + e;
    assert y / 4 == 100 * a + 25 * b + c;
    assert y / 100 == 4 * a + b;
    assert y / 400 == a;
  }

  lemma LastYearOfCycleIsLeap(a: int, b: int, c: int)
    requires 0 <= b <= 3 && 0 <= c <= 24 && (c == 24 ==> b == 3)
    ensures Leap(400 * a + 100 * b + 4 * c + 4)
  {
    var year := 400 * a + 100 * b + 4 * c + 4;
    assert year == 4 * (100 * a + 25 * b + c + 1);
    if c == 24 {
      assert year == 400 * (a + 1);
    } else {
      assert year == 100 * (4 * a + b) + (4 * c + 4);
    }
  }

  /** A last day left over after the cycles are split off belongs to a leap year. */
  lemma LeftOverDay(a: int, b: int, c: int, e: int, left: int)
    requires 0 <= b <= 3 && 0 <= c <= 24 && 0 <= e <= 3 && 0 <= left <= 365
    requires left == 365 ==> e == 3 && (c == 24 ==> b == 3)
    ensures var year := 400 * a + 100 * b + 4 * c + e + 1;
            left < DaysBeforeYear(year + 1) - DaysBeforeYear(year)
  {
    YearLength(400 * a + 100 * b + 4 * c + e + 1);
    if left == 365 {
      LastYearOfCycleIsLeap(a, b, c);
    }
  }

  lemma CycleRemainders(r400: int)
    requires 0 <= r400 < 146097
    ensures var n100 := if r400 / 36524 == 4 then 3 else r400 / 36524;
            var r100 := r400 - 36524 * n100;
            var n4, r4 := r100 / 1461, r100 % 1461;
            var n1 := if r4 / 365 == 4 then 3 else r4 / 365;
            && 0 <= n100 <= 3 && 0 <= n4 <= 24 && 0 <= n1 <= 3
            && 0 <= r4 - 365 * n1 <= 365
            && (r4 - 365 * n1 == 365 ==> n1 == 3 && (n4 == 24 ==> n100 == 3))
  {
  }

  lemma YearOfContains(day: int)
    ensures DaysBeforeYear(YearOf(day)) <= day < DaysBeforeYear(YearOf(day) + 1)
  {
    var d := day - 366;
    var n400, r400 := d / 146097, d % 146097;
    var n100 := if r400 / 36524 == 4 then 3 else r400 / 36524;
    var r100 := r400 - 36524 * n100;
    var n4, r4 := r100 / 1461, r100 % 1461;
    var n1 := if r4 / 365 == 4 then 3 else r4 / 365;
    var year, left := 400 * n400 + 100 * n100 + 4 * n4 + n1 + 1, r4 - 365 * n1;
    CycleRemainders(r400);
    CycleSplit(n400, n100, n4, n1);
    LeftOverDay(n400, n100, n4, n1, left);
    assert DaysBeforeYear(year) + left == day;
  }

  lemma YearOfIsUnique(day: int, year: int)
    requires DaysBeforeYear(year) <= day < DaysBeforeYear(year + 1)
    ensures YearOf(day) == year
  {
    YearOfContains(day);
    if YearOf(day) < year {
      YearsAscend(YearOf(day) + 1, year);
    } else if year < YearOf(day) {
      YearsAscend(year + 1, YearOf(day));
    }
  }

  lemma MonthOfContains(yearDay: int, leap: bool)
    requires 0 <= yearDay < if leap then 366 else 365
    ensures var m := MonthOf(yearDay, leap);
            1 <= m <= 12 && DaysBeforeMonth(m, leap) <= yearDay < DaysBeforeMonth(m + 1, leap)
  {
  }

  lemma MonthOfIsUnique(month: int, dayOfMonth: int, year: int)
    requires 1 <= month <= 12 && 0 <= dayOfMonth < DaysIn(month, year)
    ensures MonthOf(DaysBeforeMonth(month, Leap(year)) + dayOfMonth, Leap(year)) == month
  {
  }

  lemma ClockSplit(rest: int)
    requires 0 <= rest < DAY
    ensures rest == rest / HOUR * HOUR + rest % HOUR / MINUTE * MINUTE + rest % MINUTE / SECOND * SECOND + rest % SECOND
    ensures 0 <= rest / HOUR < 24 && 0 <= rest % HOUR / MINUTE < 60 && 0 <= rest % MINUTE / SECOND < 60
  {
  }

  /** Every instant reads as a real calendar date and clock time, and as no other instant does. */
  lemma InstantRoundTrip(t: Nanos)
    ensures Valid(FromInstant(t))
    ensures ToInstant(FromInstant(t)) == t
  {
    var day := DayNumber(t);
    var year := YearOf(day);
    YearOfContains(day);
    YearLength(year);
    MonthOfContains(day - DaysBeforeYear(year), Leap(year));
    MonthLength(FromInstant(t).month, year);
    ClockSplit(t % DAY);
  }

  lemma ClockJoin(hour: int, minute: int, second: int, nanos: int)
    requires 0 <= hour < 24 && 0 <= minute < 60 && 0 <= second < 60 && 0 <= nanos < SECOND
    ensures var clock := hour * HOUR + minute * MINUTE + second * SECOND + nanos;
            && 0 <= clock < DAY
            && clock / HOUR == hour && clock % HOUR / MINUTE == minute
            && clock % MINUTE / SECOND == second && clock % SECOND == nanos
  {
    var clock := hour * HOUR + minute * MINUTE + second * SECOND + nanos;
    assert clock % HOUR == minute * MINUTE + second * SECOND + nanos;
    assert clock % MINUTE == second * SECOND + nanos;
  }

  lemma DaySplit(days: int, clock: int)
    requires 0 <= clock < DAY
    ensures (days * DAY + clock) / DAY == days && (days * DAY + clock) % DAY == clock
  {
  }

  lemma YearDayInYear(c: Civil)
    requires Valid(c)
    ensures 0 <= DaysBeforeMonth(c.month, Leap(c.year)) + c.day - 1 < if Leap(c.year) then 366 else 365
  {
  }

  lemma DateRoundTrip(c: Civil, yearDay: int)
    requires Valid(c) && yearDay == DaysBeforeMonth(c.month, Leap(c.year)) + c.day - 1
    ensures YearOf(DaysBeforeYear(c.year) + yearDay) == c.year
    ensures MonthOf(yearDay, Leap(c.year)) == c.month
  {
    YearDayInYear(c);
    YearOfDate(c.year, yearDay);
    MonthOfIsUnique(c.month, c.day - 1, c.year);
  }

  lemma YearOfDate(year: int, yearDay: int)
    requires 0 <= yearDay < if Leap(year) then 366 else 365
    ensures YearOf(DaysBeforeYear(year) + yearDay) == year
  {
    YearLength(year);
    YearOfIsUnique(DaysBeforeYear(year) + yearDay, year);
  }

  lemma InstantParts(c: Civil, yearDay: int, clock: int)
    requires Valid(c) && yearDay == DaysBeforeMonth(c.month, Leap(c.year)) + c.day - 1
    requires clock == c.hour * HOUR + c.minute * MINUTE + c.second * SECOND + c.nanos
    ensures DayNumber(ToInstant(c)) == DaysBeforeYear(c.year) + yearDay && ToInstant(c) % DAY == clock
  {
    ClockJoin(c.hour, c.minute, c.second, c.nanos);
    DaySplit(DaysBeforeYear(c.year) + yearDay - EPOCH_DAY, clock);
  }

  /** Every valid date and clock time is the reading of its own instant. */
  lemma CivilRoundTrip(c: Civil)
    requires Valid(c)
    ensures FromInstant(ToInstant(c)) == c
  {
    var clock := c.hour * HOUR + c.minute * MINUTE + c.second * SECOND + c.nanos;
    var yearDay := DaysBeforeMonth(c.month, Leap(c.year)) + c.day - 1;
    InstantParts(c, yearDay, clock);
    DateRoundTrip(c, yearDay);
    ClockJoin(c.hour, c.minute, c.second, c.nanos);
  }

  // ---- the whole calendar, from one date and one step ---------------------------------------------

  /** The following date, across the ends of months and years. */
  function NextDate(c: Civil): Civil {
    if c.day < DaysIn(c.month, c.year) then c.(day := c.day + 1)
    else if c.month < 12 then c.(day := 1, month := c.month + 1)
    else c.(day := 1, month := 1, year := c.year + 1)
  }

  /** The reading one nanosecond on, carried from field to field. */
  function Tick(c: Civil): Civil {
    if c.nanos < SECOND - 1 then c.(nanos := c.nanos + 1)
    else if c.second < 59 then c.(nanos := 0, second := c.second + 1)
    else if c.minute < 59 then c.(nanos := 0, second := 0, minute := c.minute + 1)
    else if c.hour < 23 then c.(nanos := 0, second := 0, minute := 0, hour := c.hour + 1)
    else NextDate(c.(nanos := 0, second := 0, minute := 0, hour := 0))
  }

  lemma NextDateIsNextDay(c: Civil)
    requires Valid(c)
    ensures Valid(NextDate(c)) && ToInstant(NextDate(c)) == ToInstant(c) + DAY
  {
    MonthLength(c.month, c.year);
    YearLength(c.year);
  }

  lemma TickIsNextInstant(c: Civil)
    requires Valid(c)
    ensures Valid(Tick(c)) && ToInstant(Tick(c)) == ToInstant(c) + 1
  {
    if c.nanos == SECOND - 1 && c.second == c.minute == 59 && c.hour == 23 {
      var midnight := c.(nanos := 0, second := 0, minute := 0, hour := 0);
      NextDateIsNextDay(midnight);
      assert ToInstant(c) == ToInstant(midnight) + DAY - 1;
    } else {
      assert Tick(c).(nanos := 0, second := 0, minute := 0, hour := 0) == c.(nanos := 0, second := 0, minute := 0, hour := 0);
    }
  }

  /** Instant 0 is the first moment of 1970. */
  lemma EpochReading()
    ensures FromInstant(0) == Civil(1970, 1, 1, 0, 0, 0, 0)
  {
    var c := Civil(1970, 1, 1, 0, 0, 0, 0);
    assert ToInstant(c) == 0;
    ReadingOf(c, 0);
  }

  lemma ReadingOf(c: Civil, t: Nanos)
    requires Valid(c) && ToInstant(c) == t
    ensures FromInstant(t) == c
  {
    CivilRoundTrip(c);
  }

  /** A day later is the next date at the same clock time. */
  lemma NextDayReading(t: Nanos)
    ensures FromInstant(t + DAY) == NextDate(FromInstant(t))
  {
    InstantRoundTrip(t);
    NextDateIsNextDay(FromInstant(t));
    ReadingOf(NextDate(FromInstant(t)), t + DAY);
  }

  /** A nanosecond later every field has moved on as a clock and a calendar do; with the reading
      of instant 0 this leaves no other reading of any instant. */
  lemma NextInstantReading(t: Nanos)
    ensures FromInstant(t + 1) == Tick(FromInstant(t))
  {
    InstantRoundTrip(t);
    TickIsNextInstant(FromInstant(t));
    ReadingOf(Tick(FromInstant(t)), t + 1);
  }

  /** Which months have how many days. */
  lemma MonthDays(month: int, year: int)
    requires 1 <= month <= 12
    ensures DaysIn(month, year) ==
            [31, if year % 4 == 0 && (year % 100 != 0 || year % 400 == 0) then 29 else 28,
             31, 30, 31, 30, 31, 31, 30, 31, 30, 31][month - 1]
  {
  }
}
