/** Exactly which timestamp texts the reader accepts, and what each of them means. */
module Layout {
  import opened Wrappers
  import opened Calendar
  import opened Timestamp
  import D = Decimal

  datatype Zone = Utc | Offset(east: bool, hours: int, minutes: int)

  /** A timestamp as somebody may have written it. */
  datatype Written = Written(civil: Civil, shortHour: bool, fraction: string, zone: Zone)

  /** No fraction, or a point or a comma and at least one digit. */
  predicate FractionForm(f: string) {
    f == "" || (|f| >= 2 && (f[0] == '.' || f[0] == ',') && D.AllDigits(f[1..]))
  }

  /** The first nine digits count. */
  function FractionNanos(f: string): nat
    requires FractionForm(f)
  {
    if f == "" then 0
    else
      var kept := if |f| > 10 then 9 else |f| - 1;
      D.Scale(D.Value(f[1..][..kept]), 9 - kept)
  }

  predicate ZoneForm(z: Zone) {
    z.Offset? ==> 0 <= z.hours <= 24 && 0 <= z.minutes <= 60
  }

  function ZoneText(z: Zone): string
    requires ZoneForm(z)
  {
    if z.Utc? then "Z" else [if z.east then '+' else '-'] + Two(z.hours) + ":" + Two(z.minutes)
  }

  function SecondsEast(z: Zone): int {
    if z.Utc? then 0
    else if z.east then (z.hours * 60 + z.minutes) * 60
    else -((z.hours * 60 + z.minutes) * 60)
  }

  /** A real date of a year from 0 to 9999 and a clock time; an hour below ten may stand alone. */
  predicate Form(w: Written) {
    && Valid(w.civil) && 0 <= w.civil.year <= 9999
    && (w.shortHour ==> w.civil.hour < 10)
    && FractionForm(w.fraction) && ZoneForm(w.zone)
    && w.civil.nanos == FractionNanos(w.fraction)
  }

  function HourText(hour: int, short: bool): string
    requires 0 <= hour < 24 && (short ==> hour < 10)
  {
    if short then [D.DigitChar(hour)] else Two(hour)
  }

  function ClockForm(w: Written): string
    requires Form(w)
  {
    HourText(w.civil.hour, w.shortHour)
    + (":" + (Two(w.civil.minute) + (":" + (Two(w.civil.second) + (w.fraction + ZoneText(w.zone))))))
  }

  function Render(w: Written): string
    requires Form(w)
  {
    DateText(w.civil, ClockForm(w))
  }

  function Meaning(w: Written): Nanos {
    ToInstant(w.civil) - SecondsEast(w.zone) * SECOND
  }

  // ---- every form is read ---------------------------------------------------------------------

  lemma ReadHourText(hour: int, short: bool, rest: string)
    requires 0 <= hour < 24 && (short ==> hour < 10) && rest != "" && rest[0] == ':'
    ensures ReadField(HourText(hour, short) + rest, false, 0, 23) == Some(Read(hour, rest))
  {
    var s := HourText(hour, short) + rest;
    if short {
      assert s[1..] == rest;
    } else {
      ReadTwo(hour, rest, false, 0, 23);
    }
  }

  lemma ReadClockForm(hour: int, short: bool, minute: int, second: int, rest: string)
    requires 0 <= hour < 24 && (short ==> hour < 10) && 0 <= minute < 60 && 0 <= second < 60
    ensures ReadClock(HourText(hour, short) + (":" + (Two(minute) + (":" + (Two(second) + rest))))) ==
            Some(Read((hour, minute, second), rest))
  {
    var fromSecond := Two(second) + rest;
    var fromMinute := Two(minute) + (":" + fromSecond);
    ReadHourText(hour, short, ":" + fromMinute);
    ReadMarkText(':', fromMinute);
    ReadTwo(minute, ":" + fromSecond, true, 0, 59);
    ReadMarkText(':', fromSecond);
    ReadTwo(second, rest, true, 0, 59);
  }

  predicate EndsFraction(rest: string) {
    rest != "" && !D.IsDigit(rest[0]) && rest[0] != '.' && rest[0] != ','
  }

  lemma ReadFractionForm(f: string, rest: string)
    requires FractionForm(f) && EndsFraction(rest)
    ensures ReadFraction(f + rest) == Read(FractionNanos(f), rest)
  {
    if f == "" {
      assert f + rest == rest;
    } else {
      var digits := f[1..];
      assert (f + rest)[1..] == digits + rest;
      DigitRunStops(digits, rest);
      ReadRun(f + rest, digits, rest);
    }
  }

  lemma ReadRun(s: string, digits: string, rest: string)
    requires D.AllDigits(digits) && digits != "" && |s| >= 2 && (s[0] == '.' || s[0] == ',')
    requires s[1..] == digits + rest && DigitRun(digits + rest) == |digits|
    ensures var kept := if |digits| > 9 then 9 else |digits|;
            ReadFraction(s) == Read(D.Scale(D.Value(digits[..kept]), 9 - kept), rest)
  {
    assert s[1] == s[1..][0] == digits[0];
    var kept := if |digits| > 9 then 9 else |digits|;
    assert (digits + rest)[..kept] == digits[..kept];
    assert (digits + rest)[|digits|..] == rest;
  }

  lemma ReadZoneText(z: Zone)
    requires ZoneForm(z)
    ensures ReadZone(ZoneText(z)) == Some(SecondsEast(z)) && EndsFraction(ZoneText(z))
  {
    if z.Offset? {
      var s := ZoneText(z);
      assert s[1..3] == Two(z.hours) + "" && s[4..6] == Two(z.minutes) + "";
      ReadTwo(z.hours, "", true, 0, 24);
      ReadTwo(z.minutes, "", true, 0, 60);
    }
  }

  lemma ReadParts(s: string, c: Civil, date: string, clock: string, zone: string, east: int)
    requires ReadDate(s) == Some(Read((c.year, c.month, c.day), date))
    requires ReadClock(date) == Some(Read((c.hour, c.minute, c.second), clock))
    requires ReadFraction(clock) == Read(c.nanos, zone) && ReadZone(zone) == Some(east)
    ensures Parse(s) == Some(ToInstant(c) - east * SECOND)
  {
  }

  lemma ReadDateAndClock(w: Written)
    requires Form(w)
    ensures var c := w.civil;
            && ReadDate(Render(w)) == Some(Read((c.year, c.month, c.day), ClockForm(w)))
            && ReadClock(ClockForm(w)) == Some(Read((c.hour, c.minute, c.second), w.fraction + ZoneText(w.zone)))
  {
    var c := w.civil;
    ReadDateText(c, ClockForm(w));
    ReadClockForm(c.hour, w.shortHour, c.minute, c.second, w.fraction + ZoneText(w.zone));
  }

  lemma ReadFractionAndZone(w: Written)
    requires Form(w)
    ensures ReadFraction(w.fraction + ZoneText(w.zone)) == Read(w.civil.nanos, ZoneText(w.zone))
    ensures ReadZone(ZoneText(w.zone)) == Some(SecondsEast(w.zone))
  {
    ReadZoneText(w.zone);
    ReadFractionForm(w.fraction, ZoneText(w.zone));
  }

  /** Every form is read as what it means: the zone shifts, a comma is a point, a lone hour
      digit is an hour, and digits past the ninth are dropped. */
  lemma ReadsEveryForm(w: Written)
    requires Form(w)
    ensures Parse(Render(w)) == Some(Meaning(w))
  {
    ReadDateAndClock(w);
    ReadFractionAndZone(w);
    ReadWritten(Render(w), ClockForm(w), w.fraction + ZoneText(w.zone), ZoneText(w.zone), w);
  }

  lemma ReadWritten(s: string, date: string, clock: string, zone: string, w: Written)
    requires ReadDate(s) == Some(Read((w.civil.year, w.civil.month, w.civil.day), date))
    requires ReadClock(date) == Some(Read((w.civil.hour, w.civil.minute, w.civil.second), clock))
    requires ReadFraction(clock) == Read(w.civil.nanos, zone) && ReadZone(zone) == Some(SecondsEast(w.zone))
    ensures Parse(s) == Some(Meaning(w))
  {
    ReadParts(s, w.civil, date, clock, zone, SecondsEast(w.zone));
  }

  // ---- nothing else is read -------------------------------------------------------------------

  lemma YearWasText(s: string)
    requires ReadYear(s).Some?
    ensures var r := ReadYear(s).value; 0 <= r.value <= 9999 && s == YearText(r.value) + r.rest
  {
    D.PrintOfValue(s[..4]);
    D.ValueBelowPow10(s[..4]);
    assert D.Pow10(4) == 10000;
    assert s == s[..4] + s[4..];
  }

  lemma FieldWasText(s: string, low: int, high: int)
    requires ReadField(s, true, low, high).Some? && low >= 0
    ensures var r := ReadField(s, true, low, high).value;
            low <= r.value <= high && r.value < 100 && s == Two(r.value) + r.rest
  {
    assert s == [s[0], s[1]] + s[2..];
  }

  lemma HourWasText(s: string) returns (short: bool)
    requires ReadField(s, false, 0, 23).Some?
    ensures var r := ReadField(s, false, 0, 23).value;
            0 <= r.value < 24 && (short ==> r.value < 10) && s == HourText(r.value, short) + r.rest
  {
    short := |s| < 2 || !D.IsDigit(s[1]);
    if short {
      assert s == [s[0]] + s[1..];
    } else {
      assert s == [s[0], s[1]] + s[2..];
    }
  }

  lemma MarkWasText(s: string, mark: char)
    requires ReadMark(s, mark).Some?
    ensures s == [mark] + ReadMark(s, mark).value
  {
  }

  lemma DateWasText(s: string)
    requires ReadDate(s).Some?
    ensures var r := ReadDate(s).value;
            && 0 <= r.value.0 <= 9999 && 1 <= r.value.1 <= 12 && 1 <= r.value.2 <= DaysIn(r.value.1, r.value.0)
            && s == YearText(r.value.0) + ("-" + (Two(r.value.1) + ("-" + (Two(r.value.2) + ("T" + r.rest)))))
  {
    var year := ReadYear(s).value;
    var afterYear := ReadMark(year.rest, '-').value;
    var month := ReadField(afterYear, true, 1, 12).value;
    var afterMonth := ReadMark(month.rest, '-').value;
    var day := ReadField(afterMonth, true, 1, DaysIn(month.value, year.value)).value;
    YearWasText(s);
    MarkWasText(year.rest, '-');
    FieldWasText(afterYear, 1, 12);
    MarkWasText(month.rest, '-');
    FieldWasText(afterMonth, 1, DaysIn(month.value, year.value));
    MarkWasText(day.rest, 'T');
  }

  lemma ClockWasText(s: string) returns (short: bool)
    requires ReadClock(s).Some?
    ensures var r := ReadClock(s).value;
            && 0 <= r.value.0 < 24 && 0 <= r.value.1 < 60 && 0 <= r.value.2 < 60 && (short ==> r.value.0 < 10)
            && s == HourText(r.value.0, short) + (":" + (Two(r.value.1) + (":" + (Two(r.value.2) + r.rest))))
  {
    var hour := ReadField(s, false, 0, 23).value;
    var afterHour := ReadMark(hour.rest, ':').value;
    var minute := ReadField(afterHour, true, 0, 59).value;
    var afterMinute := ReadMark(minute.rest, ':').value;
    short := HourWasText(s);
    MarkWasText(hour.rest, ':');
    FieldWasText(afterHour, 0, 59);
    MarkWasText(minute.rest, ':');
    FieldWasText(afterMinute, 0, 59);
  }

  lemma FractionWasText(s: string) returns (f: string)
    ensures FractionForm(f) && s == f + ReadFraction(s).rest && ReadFraction(s).value == FractionNanos(f)
  {
    if |s| < 2 || (s[0] != '.' && s[0] != ',') || !D.IsDigit(s[1]) {
      f := "";
      assert s == f + s;
    } else {
      var n := DigitRun(s[1..]);
      f := s[..n + 1];
      assert f[1..] == s[1..][..n];
      assert s == f + s[1..][n..];
      var kept := if n > 9 then 9 else n;
      assert f[1..][..kept] == s[1..][..kept];
    }
  }

  lemma ZoneWasText(s: string) returns (z: Zone)
    requires ReadZone(s).Some?
    ensures ZoneForm(z) && s == ZoneText(z) && ReadZone(s).value == SecondsEast(z)
  {
    if s == "Z" {
      z := Utc;
    } else {
      var hours := ReadField(s[1..3], true, 0, 24).value;
      var minutes := ReadField(s[4..6], true, 0, 60).value;
      FieldWasText(s[1..3], 0, 24);
      FieldWasText(s[4..6], 0, 60);
      z := Offset(s[0] == '+', hours.value, minutes.value);
      assert s[1..3] == Two(hours.value) && s[4..6] == Two(minutes.value);
      assert s == [s[0]] + s[1..3] + [s[3]] + s[4..6];
    }
  }

  lemma NanosInSecond(f: string)
    requires FractionForm(f)
    ensures 0 <= FractionNanos(f) < SECOND
  {
    if f != "" {
      var kept := if |f| > 10 then 9 else |f| - 1;
      D.ValueBelowPow10(f[1..][..kept]);
      D.ScaleBelow(D.Value(f[1..][..kept]), kept, 9 - kept);
      assert D.Pow10(9) == SECOND;
    }
  }

  /** A text that is read at all is one of the forms. */
  lemma AcceptsOnlyForms(s: string) returns (w: Written)
    requires Parse(s).Some?
    ensures Form(w) && Render(w) == s
  {
    var date := ReadDate(s).value;
    var clock := ReadClock(date.rest).value;
    var fraction := ReadFraction(clock.rest);
    DateWasText(s);
    var short := ClockWasText(date.rest);
    var f := FractionWasText(clock.rest);
    var zone := ZoneWasText(fraction.rest);
    NanosInSecond(f);
    var (year, month, day) := date.value;
    var (hour, minute, second) := clock.value;
    w := Written(Civil(year, month, day, hour, minute, second, fraction.value), short, f, zone);
  }

  /** A text is accepted as an instant if and only if it is a form with that meaning. */
  lemma AcceptedIff(s: string, t: Nanos)
    ensures Parse(s) == Some(t) <==> exists w :: Form(w) && Render(w) == s && Meaning(w) == t
  {
    if Parse(s) == Some(t) {
      var w := AcceptsOnlyForms(s);
      ReadsEveryForm(w);
    }
    forall w | Form(w) && Render(w) == s
      ensures Parse(s) == Some(Meaning(w))
    {
      ReadsEveryForm(w);
    }
  }

  // ---- what is printed where ------------------------------------------------------------------

  /** The number that two digits stand for. */
  predicate Shows(s: string, at: nat, n: int)
    requires at + 2 <= |s|
  {
    D.IsDigit(s[at]) && D.IsDigit(s[at + 1]) && n == 10 * (s[at] as int - 48) + (s[at + 1] as int - 48)
  }

  lemma YearLayout(year: int)
    requires 0 <= year <= 9999
    ensures var s := YearText(year); |s| == 4 && Shows(s, 0, year / 100) && Shows(s, 2, year % 100)
  {
    var s := YearText(year);
    assert D.Pow10(4) == 10000;
    D.PrintedLength(year, 4);
    D.ValueOfPrint(year, 4);
    assert s[..3][..2] == s[..2] && s[..2][..1] == s[..1];
    assert D.Value(s[..1]) == s[0] as int - 48 by {
      assert s[..1][..0] == "";
    }
    assert D.Value(s[..2]) == 10 * D.Value(s[..1]) + (s[1] as int - 48);
    assert D.Value(s[..3]) == 10 * D.Value(s[..2]) + (s[2] as int - 48);
    assert D.Value(s) == 10 * D.Value(s[..3]) + (s[3] as int - 48);
  }

  lemma DateLayout(c: Civil, rest: string)
    requires Valid(c) && 0 <= c.year <= 9999
    ensures var s := DateText(c, rest);
            && |s| == 11 + |rest| && s[11..] == rest
            && Shows(s, 0, c.year / 100) && Shows(s, 2, c.year % 100) && s[4] == '-'
            && Shows(s, 5, c.month) && s[7] == '-' && Shows(s, 8, c.day) && s[10] == 'T'
  {
    YearLayout(c.year);
  }

  lemma ClockLayout(c: Civil, rest: string)
    requires Valid(c)
    ensures var s := ClockText(c, rest);
            && |s| == 8 + |rest| && s[8..] == rest
            && Shows(s, 0, c.hour) && s[2] == ':' && Shows(s, 3, c.minute) && s[5] == ':' && Shows(s, 6, c.second)
  {
  }

  /** YYYY-MM-DDThh:mm:ss and the zone Z, from the reading of the instant. */
  lemma SecondsLayout(t: Nanos)
    requires FourDigitYear(t)
    ensures var s, c := FormatSeconds(t), FromInstant(t);
            && |s| == 20 && s[19] == 'Z'
            && Shows(s, 0, c.year / 100) && Shows(s, 2, c.year % 100) && s[4] == '-'
            && Shows(s, 5, c.month) && s[7] == '-' && Shows(s, 8, c.day) && s[10] == 'T'
            && Shows(s, 11, c.hour) && s[13] == ':' && Shows(s, 14, c.minute) && s[16] == ':' && Shows(s, 17, c.second)
  {
    InstantRoundTrip(t);
    var c := FromInstant(t);
    DateLayout(c, ClockText(c, "" + "Z"));
    ClockLayout(c, "" + "Z");
    ShiftedLayout(c, FormatSeconds(t), ClockText(c, "" + "Z"));
  }

  lemma ShiftedLayout(c: Civil, s: string, clock: string)
    requires |clock| == 9 && |s| == 20 && s[11..] == clock && clock[8] == 'Z'
    requires Shows(clock, 0, c.hour) && clock[2] == ':' && Shows(clock, 3, c.minute) && clock[5] == ':' && Shows(clock, 6, c.second)
    ensures Shows(s, 11, c.hour) && s[13] == ':' && Shows(s, 14, c.minute) && s[16] == ':' && Shows(s, 17, c.second) && s[19] == 'Z'
  {
    assert forall i :: 0 <= i < 9 ==> s[11 + i] == s[11..][i];
  }

  /** The nanosecond layout prints the same up to the second, then a point and what is left of
      the second without trailing zeros, or nothing. */
  lemma NanosLayout(t: Nanos)
    requires FourDigitYear(t)
    ensures var s := Format(t);
            && |s| >= 20 && s[..19] == FormatSeconds(t)[..19] && s[|s| - 1] == 'Z'
            && var f := s[19..|s| - 1];
               && FractionForm(f) && FractionNanos(f) == t % SECOND
               && (f != "" ==> f[0] == '.' && f[|f| - 1] != '0' && |f| <= 10)
  {
    InstantRoundTrip(t);
    var c := FromInstant(t);
    NanosOfInstant(t);
    var f := FractionText(c.nanos);
    SamePrefix(c, f);
    FractionLayout(c.nanos);
  }

  lemma SamePrefix(c: Civil, f: string)
    requires Valid(c) && 0 <= c.year <= 9999
    ensures var s := CivilText(c, f);
            && |s| == 20 + |f| && |CivilText(c, "")| == 20
            && s[..19] == CivilText(c, "")[..19] && s[19..|s| - 1] == f && s[|s| - 1] == 'Z'
  {
    YearLayout(c.year);
    var s, plain := CivilText(c, f), CivilText(c, "");
    assert s == plain[..19] + f + "Z";
  }

  lemma FractionLayout(nanos: int)
    requires 0 <= nanos < SECOND
    ensures var f := FractionText(nanos);
            && FractionForm(f) && FractionNanos(f) == nanos
            && (f != "" ==> f[0] == '.' && f[|f| - 1] != '0' && |f| <= 10)
  {
    if nanos > 0 {
      TrimmedFraction(nanos);
      PointAndDigits(D.TrimZeros(D.Print(nanos, 9)));
    }
  }

  lemma TrimmedFraction(nanos: int)
    requires 0 < nanos < SECOND
    ensures var digits := D.TrimZeros(D.Print(nanos, 9));
            && D.AllDigits(digits) && 1 <= |digits| <= 9 && digits[|digits| - 1] != '0'
            && D.Scale(D.Value(digits), 9 - |digits|) == nanos
  {
    var printed := D.Print(nanos, 9);
    assert D.Pow10(9) == SECOND;
    D.PrintedLength(nanos, 9);
    D.ValueOfPrint(nanos, 9);
    D.TrimKeepsFraction(printed);
    D.TrimmedEnd(printed);
    if D.TrimZeros(printed) == "" {
      D.ScaleZero(9);
      assert false;
    }
  }

  lemma PointAndDigits(digits: string)
    requires D.AllDigits(digits) && 1 <= |digits| <= 9
    ensures FractionForm("." + digits) && FractionNanos("." + digits) == D.Scale(D.Value(digits), 9 - |digits|)
  {
    assert ("." + digits)[1..] == digits && digits[..|digits|] == digits;
  }
}
