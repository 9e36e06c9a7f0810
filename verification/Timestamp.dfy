/** RFC 3339 timestamps (section 5.6): the UTC printing with a trimmed fraction, the
    printing without a fraction, and the tolerant reader of the nanosecond layout. */
module Timestamp {
  import opened Wrappers
  import opened Calendar
  import D = Decimal

  function YearText(year: int): string {
    if year < 0 then "-" + D.Print(-year, 4) else D.Print(year, 4)
  }

  function Two(n: int): (s: string)
    requires 0 <= n < 100
    ensures |s| == 2 && D.AllDigits(s)
  {
    [D.DigitChar(n / 10), D.DigitChar(n % 10)]
  }

  function FractionText(nanos: int): string
    requires 0 <= nanos
  {
    if nanos == 0 then "" else "." + D.TrimZeros(D.Print(nanos, 9))
  }

  function CivilText(c: Civil, fraction: string): string
    requires Valid(c)
  {
    DateText(c, ClockText(c, fraction + "Z"))
  }

  function DateText(c: Civil, rest: string): string
    requires Valid(c)
  {
    YearText(c.year) + ("-" + (Two(c.month) + ("-" + (Two(c.day) + ("T" + rest)))))
  }

  function ClockText(c: Civil, rest: string): string
    requires Valid(c)
  {
    Two(c.hour) + (":" + (Two(c.minute) + (":" + (Two(c.second) + rest))))
  }

  /** The layout with nanoseconds, trailing zeros of the fraction removed. */
  function Format(t: Nanos): string {
    InstantRoundTrip(t);
    var c := FromInstant(t);
    CivilText(c, FractionText(c.nanos))
  }

  /** The layout without a fraction. */
  function FormatSeconds(t: Nanos): string {
    InstantRoundTrip(t);
    CivilText(FromInstant(t), "")
  }

  /** A value read from the front of a text, and what follows it. */
  datatype Read<+T> = Read(value: T, rest: string)

  function ReadYear(s: string): Option<Read<int>> {
    if |s| < 4 || !D.AllDigits(s[..4]) then None else Some(Read(D.Value(s[..4]), s[4..]))
  }

  function ReadMark(s: string, mark: char): Option<string> {
    if s == "" || s[0] != mark then None else Some(s[1..])
  }

  /** One or two digits; a lone digit only when the field is not fixed at two. */
  function ReadField(s: string, fixed: bool, low: int, high: int): Option<Read<int>> {
    if s == "" || !D.IsDigit(s[0]) then None
    else if |s| < 2 || !D.IsDigit(s[1]) then
      var n := s[0] as int - '0' as int;
      if fixed || n < low || n > high then None else Some(Read(n, s[1..]))
    else
      var n := 10 * (s[0] as int - '0' as int) + (s[1] as int - '0' as int);
      if n < low || n > high then None else Some(Read(n, s[2..]))
  }

  function DigitRun(s: string): (n: nat)
    ensures n <= |s| && D.AllDigits(s[..n])
    ensures n < |s| ==> !D.IsDigit(s[n])
  {
    if s == "" || !D.IsDigit(s[0]) then 0
    else
      var n := DigitRun(s[1..]);
      assert s[..n + 1] == [s[0]] + s[1..][..n];
      n + 1
  }

  /** An optional fraction after a point or a comma; digits past the ninth are dropped. */
  function ReadFraction(s: string): Read<int> {
    if |s| < 2 || (s[0] != '.' && s[0] != ',') || !D.IsDigit(s[1]) then Read(0, s)
    else
      var digits := s[1..];
      var n := DigitRun(digits);
      var kept := if n > 9 then 9 else n;
      Read(D.Scale(D.Value(digits[..kept]), 9 - kept), digits[n..])
  }

  /** The zone designator as seconds east of UTC; nothing may follow it. */
  function ReadZone(s: string): Option<int> {
    if s == "Z" then Some(0)
    else if |s| != 6 || s[3] != ':' || (s[0] != '+' && s[0] != '-') then None
    else
      var hours :- ReadField(s[1..3], true, 0, 24);
      var minutes :- ReadField(s[4..6], true, 0, 60);
      var offset := (hours.value * 60 + minutes.value) * 60;
      Some(if s[0] == '-' then -offset else offset)
  }

  /** The date part, up to and including the T. */
  function ReadDate(s: string): Option<Read<(int, int, int)>> {
    var year :- ReadYear(s);
    var afterYear :- ReadMark(year.rest, '-');
    var month :- ReadField(afterYear, true, 1, 12);
    var afterMonth :- ReadMark(month.rest, '-');
    var day :- ReadField(afterMonth, true, 1, DaysIn(month.value, year.value));
    var afterDay :- ReadMark(day.rest, 'T');
    Some(Read((year.value, month.value, day.value), afterDay))
  }

  function ReadClock(s: string): Option<Read<(int, int, int)>> {
    var hour :- ReadField(s, false, 0, 23);
    var afterHour :- ReadMark(hour.rest, ':');
    var minute :- ReadField(afterHour, true, 0, 59);
    var afterMinute :- ReadMark(minute.rest, ':');
    var second :- ReadField(afterMinute, true, 0, 59);
    Some(Read((hour.value, minute.value, second.value), second.rest))
  }

  function Parse(s: string): Option<Nanos> {
    var date :- ReadDate(s);
    var clock :- ReadClock(date.rest);
    var fraction := ReadFraction(clock.rest);
    var offset :- ReadZone(fraction.rest);
    var (year, month, day) := date.value;
    var (hour, minute, second) := clock.value;
    Some(ToInstant(Civil(year, month, day, hour, minute, second, fraction.value)) - offset * SECOND)
  }

  lemma ReadYearText(year: int, rest: string)
    requires 0 <= year <= 9999
    ensures ReadYear(YearText(year) + rest) == Some(Read(year, rest))
  {
    var s := YearText(year);
    assert D.Pow10(4) == 10000;
    D.PrintedLength(year, 4);
    D.ValueOfPrint(year, 4);
    assert (s + rest)[..4] == s && (s + rest)[4..] == rest;
  }

  lemma ReadTwo(n: int, rest: string, fixed: bool, low: int, high: int)
    requires 0 <= n < 100 && low <= n <= high
    ensures ReadField(Two(n) + rest, fixed, low, high) == Some(Read(n, rest))
  {
  }

  lemma ReadMarkText(mark: char, rest: string)
    ensures ReadMark([mark] + rest, mark) == Some(rest)
  {
  }

  lemma {:induction false} DigitRunStops(digits: string, rest: string)
    requires D.AllDigits(digits) && rest != "" && !D.IsDigit(rest[0])
    ensures DigitRun(digits + rest) == |digits|
  {
    var s := digits + rest;
    if digits == "" {
      assert s == rest;
    } else {
      assert s[1..] == digits[1..] + rest;
      DigitRunStops(digits[1..], rest);
    }
  }

  lemma ReadFractionDigits(digits: string)
    requires D.AllDigits(digits) && 1 <= |digits| <= 9
    ensures ReadFraction("." + digits + "Z") == Read(D.Scale(D.Value(digits), 9 - |digits|), "Z")
  {
    SplitFraction(digits);
    DigitRunStops(digits, "Z");
    ReadShortRun("." + digits + "Z", digits);
  }

  lemma SplitFraction(digits: string)
    requires digits != ""
    ensures var s := "." + digits + "Z";
            && s[0] == '.' && s[1] == digits[0] && s[1..] == digits + "Z"
            && s[1..][..|digits|] == digits && s[1..][|digits|..] == "Z"
  {
  }

  lemma ReadShortRun(s: string, digits: string)
    requires D.AllDigits(digits) && 1 <= |digits| <= 9 && |s| >= 2
    requires s[0] == '.' && D.IsDigit(s[1]) && DigitRun(s[1..]) == |digits| && s[1..][..|digits|] == digits
    ensures ReadFraction(s) == Read(D.Scale(D.Value(digits), 9 - |digits|), s[1..][|digits|..])
  {
  }

  lemma ReadFractionText(nanos: int)
    requires 0 <= nanos < SECOND
    ensures ReadFraction(FractionText(nanos) + "Z") == Read(nanos, "Z")
  {
    if nanos > 0 {
      var printed := D.Print(nanos, 9);
      assert D.Pow10(9) == SECOND;
      D.PrintedLength(nanos, 9);
      D.ValueOfPrint(nanos, 9);
      D.TrimKeepsFraction(printed);
      if D.TrimZeros(printed) == "" {
        D.ScaleZero(9);
        assert false;
      }
      ReadFractionDigits(D.TrimZeros(printed));
    }
  }

  lemma ReadDateText(c: Civil, rest: string)
    requires Valid(c) && 0 <= c.year <= 9999
    ensures ReadDate(DateText(c, rest)) == Some(Read((c.year, c.month, c.day), rest))
  {
    var fromT := "T" + rest;
    var fromDay := Two(c.day) + fromT;
    var fromMonth := Two(c.month) + ("-" + fromDay);
    ReadYearText(c.year, "-" + fromMonth);
    ReadMarkText('-', fromMonth);
    ReadTwo(c.month, "-" + fromDay, true, 1, 12);
    ReadMarkText('-', fromDay);
    ReadTwo(c.day, fromT, true, 1, DaysIn(c.month, c.year));
    ReadMarkText('T', rest);
  }

  lemma ReadClockText(c: Civil, rest: string)
    requires Valid(c)
    ensures ReadClock(ClockText(c, rest)) == Some(Read((c.hour, c.minute, c.second), rest))
  {
  }

  lemma ParseFromParts(s: string, date: Read<(int, int, int)>, clock: Read<(int, int, int)>, nanos: int)
    requires ReadDate(s) == Some(date) && ReadClock(date.rest) == Some(clock)
    requires ReadFraction(clock.rest) == Read(nanos, "Z")
    ensures Parse(s) == Some(ToInstant(Civil(date.value.0, date.value.1, date.value.2,
                                             clock.value.0, clock.value.1, clock.value.2, nanos)))
  {
  }

  lemma ReadCivilText(c: Civil)
    requires Valid(c) && 0 <= c.year <= 9999
    ensures Parse(CivilText(c, FractionText(c.nanos))) == Some(ToInstant(c))
  {
    var tail := FractionText(c.nanos) + "Z";
    ReadDateText(c, ClockText(c, tail));
    ReadClockText(c, tail);
    ReadFractionText(c.nanos);
    ParseFromParts(CivilText(c, FractionText(c.nanos)), Read((c.year, c.month, c.day), ClockText(c, tail)),
                   Read((c.hour, c.minute, c.second), tail), c.nanos);
  }

  predicate FourDigitYear(t: Nanos) {
    0 <= FromInstant(t).year <= 9999
  }

  lemma OtherYearsUnreadable(c: Civil, fraction: string)
    requires Valid(c) && !(0 <= c.year <= 9999)
    ensures Parse(CivilText(c, fraction)) == None
  {
    var year, s := YearText(c.year), CivilText(c, fraction);
    if c.year < 0 {
      assert year[0] == '-' && s[0] == '-' && !D.IsDigit(s[0]);
      assert s[..4][0] == s[0];
      assert !D.AllDigits(s[..4]);
    } else {
      assert D.Pow10(4) == 10000;
      D.PrintedLength(c.year, 4);
      assert s[4..][0] == s[4] == year[4];
      assert D.IsDigit(year[4]);
    }
  }

  /** Reading back the printed instant gives it exactly, to the nanosecond, for years 0 to
      9999 and for no other year. */
  lemma RoundTrip(t: Nanos)
    ensures FourDigitYear(t) ==> Parse(Format(t)) == Some(t)
    ensures !FourDigitYear(t) ==> Parse(Format(t)) == None
  {
    InstantRoundTrip(t);
    var c := FromInstant(t);
    if FourDigitYear(t) {
      ReadCivilText(c);
    } else {
      OtherYearsUnreadable(c, FractionText(c.nanos));
    }
  }

  predicate TextChar(c: char) {
    '0' <= c <= '9' || c == '-' || c == ':' || c == '.' || c == 'T' || c == 'Z'
  }

  predicate AllTextChars(s: string) {
    forall i :: 0 <= i < |s| ==> TextChar(s[i])
  }

  lemma TextChars(t: Nanos)
    ensures AllTextChars(Format(t))
  {
    InstantRoundTrip(t);
    var c := FromInstant(t);
    var tail := FractionText(c.nanos) + "Z";
    assert AllTextChars(YearText(c.year));
    assert AllTextChars(tail);
    assert AllTextChars(ClockText(c, tail));
  }

  /** A second count splits into the same day and clock as the instant it is cut from. */
  lemma SecondsSplit(t: Nanos)
    ensures var s := t / SECOND;
            var clock := s % 86400;
            && t / DAY == s / 86400
            && t % DAY / HOUR == clock / 3600
            && t % DAY % HOUR / MINUTE == clock % 3600 / 60
            && t % DAY % MINUTE / SECOND == clock % 60
  {
    var s, n := t / SECOND, t % SECOND;
    var clock := s % 86400;
    assert t == s / 86400 * DAY + (clock * SECOND + n);
    ClockJoin(clock / 3600, clock % 3600 / 60, clock % 60, n);
    assert clock == clock / 3600 * 3600 + clock % 3600 / 60 * 60 + clock % 60;
    DaySplit(s / 86400, clock * SECOND + n);
  }

  lemma SameSecond(t: Nanos, u: Nanos)
    requires t / SECOND == u / SECOND
    ensures FromInstant(t) == FromInstant(u).(nanos := FromInstant(t).nanos)
  {
    SecondsSplit(t);
    SecondsSplit(u);
  }

  /** The printing without a fraction sees only the whole second of an instant. */
  lemma SecondsOnly(t: Nanos, u: Nanos)
    requires t / SECOND == u / SECOND
    ensures FormatSeconds(t) == FormatSeconds(u)
  {
    SameSecond(t, u);
  }

  lemma NanosOfInstant(t: Nanos)
    ensures FromInstant(t).nanos == t % SECOND
  {
    DayInSeconds(t / DAY, t % DAY);
  }

  lemma DayInSeconds(days: int, rest: int)
    ensures (days * DAY + rest) % SECOND == rest % SECOND
  {
    assert days * DAY + rest == (days * 86400 + rest / SECOND) * SECOND + rest % SECOND;
  }

  lemma DropNanos(c: Civil)
    requires Valid(c)
    ensures var whole := c.(nanos := 0);
            Valid(whole) && ToInstant(whole) == ToInstant(c) - c.nanos && CivilText(whole, "") == CivilText(c, "")
  {
  }

  /** The start of an instant's second. */
  function CutToSecond(t: Nanos): Nanos {
    t - t % SECOND
  }

  lemma SecondsOfReading(c: Civil, text: string, cut: Nanos)
    requires Valid(c) && text == CivilText(c, "") && cut == ToInstant(c.(nanos := 0))
    ensures Parse(text) == if 0 <= c.year <= 9999 then Some(cut) else None
  {
    DropNanos(c);
    ReadWholeSecond(c.(nanos := 0), text);
  }

  /** Reading back the printing without a fraction gives the instant cut to its second, for
      years 0 to 9999 and for no other year. */
  lemma SecondsRoundTrip(t: Nanos)
    ensures Parse(FormatSeconds(t)) == if FourDigitYear(t) then Some(CutToSecond(t)) else None
  {
    InstantRoundTrip(t);
    NanosOfInstant(t);
    SecondsOfReadingOf(FromInstant(t), t, CutToSecond(t), FormatSeconds(t));
  }

  lemma SecondsOfReadingOf(c: Civil, t: Nanos, cut: Nanos, text: string)
    requires Valid(c) && ToInstant(c) == t && c.nanos == t % SECOND && cut == CutToSecond(t) && text == CivilText(c, "")
    ensures Parse(text) == if 0 <= c.year <= 9999 then Some(cut) else None
  {
    CutReading(c);
    SecondsOfReading(c, text, cut);
  }

  lemma CutReading(c: Civil)
    requires Valid(c)
    ensures ToInstant(c.(nanos := 0)) == ToInstant(c) - c.nanos
  {
  }

  lemma ReadWholeSecond(c: Civil, text: string)
    requires Valid(c) && c.nanos == 0 && text == CivilText(c, "")
    ensures Parse(text) == if 0 <= c.year <= 9999 then Some(ToInstant(c)) else None
  {
    assert FractionText(0) == "";
    if 0 <= c.year <= 9999 {
      ReadCivilText(c);
    } else {
      OtherYearsUnreadable(c, "");
    }
  }

  /** The text reads back as the instant cut to its second; other years do not read back. */
  predicate SecondText(text: string, t: Nanos) {
    Parse(text) == if FourDigitYear(t) then Some(CutToSecond(t)) else None
  }

  lemma PrintsSecond(t: Nanos)
    ensures SecondText(FormatSeconds(t), t)
  {
    SecondsRoundTrip(t);
  }
}
