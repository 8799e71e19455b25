/**
 * Python `datetime` values as far as the program uses them: `str(dt)`,
 * `datetime.strptime(s, "%Y-%m-%d %H:%M:%S.%f")`, comparison, and the
 * `timedelta` that subtracting two of them yields.
 */
module Timestamp {
  import opened Wrappers
  import opened Text

  datatype DateTime = DateTime(year: int, month: int, day: int,
                               hour: int, minute: int, second: int, microsecond: int)

  predicate IsLeapYear(y: int)
  {
    y % 4 == 0 && (y % 100 != 0 || y % 400 == 0)
  }

  function DaysInMonth(y: int, m: int): (d: int)
    requires 1 <= m <= 12
    ensures 28 <= d <= 31
  {
    if m == 2 then (if IsLeapYear(y) then 29 else 28)
    else if m == 4 || m == 6 || m == 9 || m == 11 then 30
    else 31
  }

  /** The range checks of the `datetime` constructor (MINYEAR is 1, MAXYEAR 9999). */
  predicate Valid(dt: DateTime)
  {
    && 1 <= dt.year <= 9999
    && 1 <= dt.month <= 12
    && 1 <= dt.day <= DaysInMonth(dt.year, dt.month)
    && 0 <= dt.hour < 24
    && 0 <= dt.minute < 60
    && 0 <= dt.second < 60
    && 0 <= dt.microsecond < 1000000
  }

  /**
   * `str(dt)`: "YYYY-MM-DD HH:MM:SS", followed by ".ffffff" only when the
   * microsecond is not zero.
   */
  function Str(dt: DateTime): (s: string)
    requires Valid(dt)
    ensures |s| == if dt.microsecond == 0 then 19 else 26
    ensures '\n' !in s && '\r' !in s && ',' !in s
  {
    DatePart(dt) + " " + TimePart(dt) + FractionPart(dt)
  }

  /** The printed form starts and ends with a digit. */
  lemma StrEdges(dt: DateTime)
    requires Valid(dt)
    ensures IsDigit(Str(dt)[0]) && IsDigit(Str(dt)[|Str(dt)| - 1])
  {
    var s := Str(dt);
    StrParts(dt);
    DateFields(dt);
    assert s[0] == s[..10][0..4][0];
    if dt.microsecond == 0 {
      TimeFields(dt);
      assert s[|s| - 1] == s[11..19][6..8][1];
    } else {
      FractionLength(dt);
      assert s[|s| - 1] == FractionPart(dt)[6] == Pad(dt.microsecond, 6)[5];
    }
  }

  /** `str(dt)` is the date, a space, the time and the fraction, in that order. */
  lemma StrParts(dt: DateTime)
    requires Valid(dt)
    ensures var s := Str(dt);
      && s[..10] == DatePart(dt) && s[10] == ' '
      && s[11..19] == TimePart(dt) && s[19..] == FractionPart(dt)
  {
    var d, t, f := DatePart(dt), TimePart(dt), FractionPart(dt);
    var s := Str(dt);
    assert s == d + " " + t + f;
    assert s[..10] == d;
    assert s[11..19] == t;
    assert s[19..] == f;
  }

  function DatePart(dt: DateTime): (s: string)
    requires Valid(dt)
    ensures |s| == 10 && '\n' !in s && '\r' !in s && ',' !in s
  {
    DateLengths(dt);
    DigitsExclude(Pad(dt.year, 4));
    DigitsExclude(Pad(dt.month, 2));
    DigitsExclude(Pad(dt.day, 2));
    Pad(dt.year, 4) + "-" + Pad(dt.month, 2) + "-" + Pad(dt.day, 2)
  }

  function TimePart(dt: DateTime): (s: string)
    requires Valid(dt)
    ensures |s| == 8 && '\n' !in s && '\r' !in s && ',' !in s
  {
    TimeLengths(dt);
    DigitsExclude(Pad(dt.hour, 2));
    DigitsExclude(Pad(dt.minute, 2));
    DigitsExclude(Pad(dt.second, 2));
    Pad(dt.hour, 2) + ":" + Pad(dt.minute, 2) + ":" + Pad(dt.second, 2)
  }

  function FractionPart(dt: DateTime): (s: string)
    requires Valid(dt)
    ensures |s| == (if dt.microsecond == 0 then 0 else 7) && '\n' !in s && '\r' !in s && ',' !in s
  {
    FractionLength(dt);
    DigitsExclude(Pad(dt.microsecond, 6));
    if dt.microsecond == 0 then "" else "." + Pad(dt.microsecond, 6)
  }

  lemma DigitsExclude(s: string)
    requires AllDigits(s)
    ensures '\n' !in s && '\r' !in s && ',' !in s
  {
  }

  lemma FixedWidths(dt: DateTime)
    requires Valid(dt)
    ensures |Pad(dt.year, 4)| == 4 && DigitsValue(Pad(dt.year, 4)) == dt.year
    ensures |Pad(dt.month, 2)| == 2 && DigitsValue(Pad(dt.month, 2)) == dt.month
    ensures |Pad(dt.day, 2)| == 2 && DigitsValue(Pad(dt.day, 2)) == dt.day
    ensures |Pad(dt.hour, 2)| == 2 && DigitsValue(Pad(dt.hour, 2)) == dt.hour
    ensures |Pad(dt.minute, 2)| == 2 && DigitsValue(Pad(dt.minute, 2)) == dt.minute
    ensures |Pad(dt.second, 2)| == 2 && DigitsValue(Pad(dt.second, 2)) == dt.second
    ensures |Pad(dt.microsecond, 6)| == 6 && DigitsValue(Pad(dt.microsecond, 6)) == dt.microsecond
  {
    DateWidths(dt);
    TimeWidths(dt);
    FractionWidth(dt);
  }

  lemma DateLengths(dt: DateTime)
    requires Valid(dt)
    ensures |Pad(dt.year, 4)| == 4 && |Pad(dt.month, 2)| == 2 && |Pad(dt.day, 2)| == 2
  {
    assert Pow10(2) == 100;
    assert Pow10(4) == 10000 by { assert Pow10(3) == 1000; }
    PadLength(dt.year, 4);
    PadLength(dt.month, 2);
    PadLength(dt.day, 2);
  }

  lemma TimeLengths(dt: DateTime)
    requires Valid(dt)
    ensures |Pad(dt.hour, 2)| == 2 && |Pad(dt.minute, 2)| == 2 && |Pad(dt.second, 2)| == 2
  {
    assert Pow10(2) == 100;
    PadLength(dt.hour, 2);
    PadLength(dt.minute, 2);
    PadLength(dt.second, 2);
  }

  lemma FractionLength(dt: DateTime)
    requires Valid(dt)
    ensures |Pad(dt.microsecond, 6)| == 6
  {
    assert Pow10(6) == 1000000 by { assert Pow10(5) == 100000 by { assert Pow10(3) == 1000; } }
    PadLength(dt.microsecond, 6);
  }

  lemma DateWidths(dt: DateTime)
    requires Valid(dt)
    ensures |Pad(dt.year, 4)| == 4 && DigitsValue(Pad(dt.year, 4)) == dt.year
    ensures |Pad(dt.month, 2)| == 2 && DigitsValue(Pad(dt.month, 2)) == dt.month
    ensures |Pad(dt.day, 2)| == 2 && DigitsValue(Pad(dt.day, 2)) == dt.day
  {
    assert Pow10(2) == 100;
    assert Pow10(4) == 10000 by { assert Pow10(3) == 1000; }
    PadFixedWidth(dt.year, 4);
    PadFixedWidth(dt.month, 2);
    PadFixedWidth(dt.day, 2);
  }

  lemma TimeWidths(dt: DateTime)
    requires Valid(dt)
    ensures |Pad(dt.hour, 2)| == 2 && DigitsValue(Pad(dt.hour, 2)) == dt.hour
    ensures |Pad(dt.minute, 2)| == 2 && DigitsValue(Pad(dt.minute, 2)) == dt.minute
    ensures |Pad(dt.second, 2)| == 2 && DigitsValue(Pad(dt.second, 2)) == dt.second
  {
    assert Pow10(2) == 100;
    PadFixedWidth(dt.hour, 2);
    PadFixedWidth(dt.minute, 2);
    PadFixedWidth(dt.second, 2);
  }

  lemma FractionWidth(dt: DateTime)
    requires Valid(dt)
    ensures |Pad(dt.microsecond, 6)| == 6 && DigitsValue(Pad(dt.microsecond, 6)) == dt.microsecond
  {
    assert Pow10(6) == 1000000 by { assert Pow10(5) == 100000 by { assert Pow10(3) == 1000; } }
    PadFixedWidth(dt.microsecond, 6);
  }

  /** The digits `s[i..j]` as a number. */
  function Num(s: string, i: nat, j: nat): nat
    requires i <= j <= |s| && AllDigits(s[i..j])
  {
    DigitsValue(s[i..j])
  }

  /** `s` has the fixed layout "DDDD-DD-DD DD:DD:DD.D" with one to six fraction digits. */
  predicate Shaped(s: string)
  {
    && 21 <= |s| <= 26
    && s[4] == '-' && s[7] == '-' && s[10] == ' ' && s[13] == ':' && s[16] == ':' && s[19] == '.'
    && AllDigits(s[0..4]) && AllDigits(s[5..7]) && AllDigits(s[8..10])
    && AllDigits(s[11..13]) && AllDigits(s[14..16]) && AllDigits(s[17..19]) && AllDigits(s[20..])
  }

  /**
   * `datetime.strptime(s, "%Y-%m-%d %H:%M:%S.%f")`: None where strptime
   * raises ValueError. `%f` takes one to six digits and pads them on the
   * right ("5" is 500000 microseconds); the result must pass `Valid`.
   */
  function Parse(s: string): (r: Option<DateTime>)
    ensures r.Some? ==> Valid(r.value)
  {
    if !Shaped(s) then None
    else
      var fraction := s[20..];
      var dt := DateTime(Num(s, 0, 4), Num(s, 5, 7), Num(s, 8, 10),
                         Num(s, 11, 13), Num(s, 14, 16), Num(s, 17, 19),
                         DigitsValue(fraction) * Pow10(6 - |fraction|));
      if Valid(dt) then Some(dt) else None
  }

  /** What `str` writes, `strptime` reads back, as long as the microsecond is not zero. */
  lemma StrParsesBack(dt: DateTime)
    requires Valid(dt) && dt.microsecond != 0
    ensures Parse(Str(dt)) == Some(dt)
  {
    FixedWidths(dt);
    var s := Str(dt);
    StrFields(dt);
    assert Shaped(s);
    assert Num(s, 0, 4) == dt.year && Num(s, 5, 7) == dt.month && Num(s, 8, 10) == dt.day;
    assert Num(s, 11, 13) == dt.hour && Num(s, 14, 16) == dt.minute && Num(s, 17, 19) == dt.second;
    assert DigitsValue(s[20..]) * Pow10(6 - |s[20..]|) == dt.microsecond;
  }

  /** Where each field of `str(dt)` sits. */
  lemma StrFields(dt: DateTime)
    requires Valid(dt) && dt.microsecond != 0
    ensures var s := Str(dt);
      && s[4] == '-' && s[7] == '-' && s[10] == ' ' && s[13] == ':' && s[16] == ':' && s[19] == '.'
      && s[0..4] == Pad(dt.year, 4) && s[5..7] == Pad(dt.month, 2) && s[8..10] == Pad(dt.day, 2)
      && s[11..13] == Pad(dt.hour, 2) && s[14..16] == Pad(dt.minute, 2)
      && s[17..19] == Pad(dt.second, 2) && s[20..] == Pad(dt.microsecond, 6)
  {
    var s := Str(dt);
    StrParts(dt);
    StrDateFields(dt);
    StrTimeFields(dt);
    var fraction := FractionPart(dt);
    assert fraction == "." + Pad(dt.microsecond, 6);
    assert s[19] == fraction[0];
    assert s[20..] == fraction[1..];
  }

  lemma StrDateFields(dt: DateTime)
    requires Valid(dt)
    ensures var s := Str(dt);
      && s[4] == '-' && s[7] == '-'
      && s[0..4] == Pad(dt.year, 4) && s[5..7] == Pad(dt.month, 2) && s[8..10] == Pad(dt.day, 2)
  {
    var s := Str(dt);
    StrParts(dt);
    DateFields(dt);
    var d := s[..10];
    assert s[4] == d[4] && s[7] == d[7];
    assert s[0..4] == d[0..4];
    assert s[5..7] == d[5..7];
    assert s[8..10] == d[8..10];
  }

  lemma StrTimeFields(dt: DateTime)
    requires Valid(dt)
    ensures var s := Str(dt);
      && s[13] == ':' && s[16] == ':'
      && s[11..13] == Pad(dt.hour, 2) && s[14..16] == Pad(dt.minute, 2) && s[17..19] == Pad(dt.second, 2)
  {
    var s := Str(dt);
    StrParts(dt);
    TimeFields(dt);
    var t := s[11..19];
    assert s[13] == t[2] && s[16] == t[5];
    assert s[11..13] == t[0..2];
    assert s[14..16] == t[3..5];
    assert s[17..19] == t[6..8];
  }

  lemma DateFields(dt: DateTime)
    requires Valid(dt)
    ensures var d := DatePart(dt);
      && d[4] == '-' && d[7] == '-'
      && d[0..4] == Pad(dt.year, 4) && d[5..7] == Pad(dt.month, 2) && d[8..10] == Pad(dt.day, 2)
  {
    DateLengths(dt);
    var y, m, d := Pad(dt.year, 4), Pad(dt.month, 2), Pad(dt.day, 2);
    assert DatePart(dt) == y + ['-'] + m + ['-'] + d;
    FieldsAt(y, m, d, '-');
  }

  /** Where the three fields of a separated text sit, given their widths. */
  lemma FieldsAt(a: string, b: string, c: string, sep: char)
    ensures var s := a + [sep] + b + [sep] + c;
      && s[|a|] == sep && s[|a| + 1 + |b|] == sep
      && s[0..|a|] == a && s[|a| + 1..|a| + 1 + |b|] == b
      && s[|a| + |b| + 2..|a| + |b| + 2 + |c|] == c
  {
    Slices3(a, b, c, sep);
    var s := a + [sep] + b + [sep] + c;
    assert s[|a| + |b| + 2..] == s[|a| + |b| + 2..|a| + |b| + 2 + |c|];
  }

  lemma TimeFields(dt: DateTime)
    requires Valid(dt)
    ensures var t := TimePart(dt);
      && t[2] == ':' && t[5] == ':'
      && t[0..2] == Pad(dt.hour, 2) && t[3..5] == Pad(dt.minute, 2) && t[6..8] == Pad(dt.second, 2)
  {
    TimeLengths(dt);
    var h, m, sec := Pad(dt.hour, 2), Pad(dt.minute, 2), Pad(dt.second, 2);
    assert TimePart(dt) == h + [':'] + m + [':'] + sec;
    FieldsAt(h, m, sec, ':');
  }

  /**
   * With a zero microsecond `str` leaves the fraction out, and the `.%f`
   * directive then makes `strptime` fail.
   */
  lemma WholeSecondNotParsed(dt: DateTime)
    requires Valid(dt) && dt.microsecond == 0
    ensures Parse(Str(dt)) == None
  {
  }

  // ------------------------------------------------------------ ordering

  /** `a < b` for datetimes: field by field, most significant first. */
  predicate Before(a: DateTime, b: DateTime)
  {
    if a.year != b.year then a.year < b.year
    else if a.month != b.month then a.month < b.month
    else if a.day != b.day then a.day < b.day
    else if a.hour != b.hour then a.hour < b.hour
    else if a.minute != b.minute then a.minute < b.minute
    else if a.second != b.second then a.second < b.second
    else a.microsecond < b.microsecond
  }

  // ------------------------------------------------------------ timedelta

  /** Days from 0001-01-01 (day 1) to `dt`'s date, as `date.toordinal()` counts them. */
  function Ordinal(dt: DateTime): int
    requires Valid(dt)
  {
    var y := dt.year - 1;
    y * 365 + y / 4 - y / 100 + y / 400 + DaysBeforeMonth(dt.year, dt.month) + dt.day
  }

  function DaysBeforeMonth(y: int, m: int): int
    requires 1 <= m <= 12
    decreases m
  {
    if m == 1 then 0 else DaysBeforeMonth(y, m - 1) + DaysInMonth(y, m - 1)
  }

  /** Microseconds since the start of day 0, the scale `timedelta` works in. */
  function Micros(dt: DateTime): int
    requires Valid(dt)
  {
    ((Ordinal(dt) * 86400 + dt.hour * 3600 + dt.minute * 60 + dt.second) * 1000000)
      + dt.microsecond
  }

  /** A `timedelta` in Python's normal form. */
  datatype Timedelta = Timedelta(days: int, seconds: int, microseconds: int)

  /**
   * `end - start`: the difference is split into days, seconds within the day
   * and microseconds within the second, each remainder non-negative.
   */
  function Subtract(end: DateTime, start: DateTime): (td: Timedelta)
    requires Valid(end) && Valid(start)
    ensures 0 <= td.seconds < 86400 && 0 <= td.microseconds < 1000000
    ensures (td.days * 86400 + td.seconds) * 1000000 + td.microseconds == Micros(end) - Micros(start)
  {
    var diff := Micros(end) - Micros(start);
    var whole := diff / 1000000;
    Timedelta(whole / 86400, whole % 86400, diff % 1000000)
  }

  /** Within a day of `start`, `.seconds` is the elapsed time in whole seconds. */
  lemma SecondsWithinADay(end: DateTime, start: DateTime)
    requires Valid(end) && Valid(start)
    requires 0 <= Micros(end) - Micros(start) < 86400 * 1000000
    ensures Subtract(end, start).days == 0
    ensures Subtract(end, start).seconds == (Micros(end) - Micros(start)) / 1000000
  {
    var td := Subtract(end, start);
    var diff := Micros(end) - Micros(start);
    assert td.days == 0;
  }

  /** `.seconds` drops whole days: a session one day and k seconds long reports k. */
  lemma SecondsDropWholeDays(end: DateTime, start: DateTime, k: int)
    requires Valid(end) && Valid(start) && 0 <= k < 86400
    requires Micros(end) - Micros(start) == (86400 + k) * 1000000
    ensures Subtract(end, start).seconds == k && Subtract(end, start).days == 1
  {
    var td := Subtract(end, start);
    OneDayAndSeconds(td.days, td.seconds, td.microseconds, k);
  }

  /** The normal form of one day and `k` seconds. */
  lemma OneDayAndSeconds(days: int, seconds: int, micros: int, k: int)
    requires 0 <= seconds < 86400 && 0 <= micros < 1000000 && 0 <= k < 86400
    requires (days * 86400 + seconds) * 1000000 + micros == (86400 + k) * 1000000
    ensures days == 1 && seconds == k && micros == 0
  {
  }
}
