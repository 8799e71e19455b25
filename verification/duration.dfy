/**
 * Splitting a number of seconds into hours, minutes and seconds, and the
 * "HH:MM:SS" text the program prints for it (`time_div`, `time_format`,
 * `time_print`).
 */
module Duration {
  import opened Wrappers
  import opened Text

  datatype Hms = Hms(hours: int, minutes: int, seconds: int)

  /**
   * `time_div`: `divmod(count, 60)` and then `divmod(minutes, 60)`. Python's
   * divmod by a positive divisor rounds towards minus infinity, which is what
   * Dafny's `/` and `%` do for a positive divisor, so negative counts are
   * covered too.
   */
  function TimeDiv(count: int): (t: Hms)
    ensures t.hours * 3600 + t.minutes * 60 + t.seconds == count
    ensures 0 <= t.minutes < 60 && 0 <= t.seconds < 60
    ensures count >= 0 <==> t.hours >= 0
  {
    var minutes := count / 60;
    Hms(minutes / 60, minutes % 60, count % 60)
  }

  /** Exactly one triple with minutes and seconds below 60 adds up to `count`. */
  lemma TimeDivUnique(count: int, t: Hms)
    requires t.hours * 3600 + t.minutes * 60 + t.seconds == count
    requires 0 <= t.minutes < 60 && 0 <= t.seconds < 60
    ensures t == TimeDiv(count)
  {
    var u := TimeDiv(count);
    var a := t.hours * 60 + t.minutes;
    var b := u.hours * 60 + u.minutes;
    assert a * 60 + t.seconds == b * 60 + u.seconds;
    assert a == b;
    assert t.hours == u.hours;
  }

  /**
   * `f"{n:02}"`: at least two characters, zero-filled after the sign, so a
   * negative number keeps its '-' and is not padded further.
   */
  function Field(n: int): (s: string)
    ensures ':' !in s && '\n' !in s && '\r' !in s
    ensures n >= 0 ==> AllDigits(s) && |s| >= 2 && DigitsValue(s) == n
    ensures 0 <= n < 100 ==> |s| == 2
    ensures n >= 10 ==> s == NatStr(n)
  {
    var s := if n < 0 then "-" + NatStr(-n) else Pad(n, 2);
    assert forall k :: 0 <= k < |s| ==> IsDigit(s[k]) || s[k] == '-';
    if n >= 0 then
      PadValue(n, 2);
      if n < 100 then PadFixedWidth(n, 2); s else s
    else s
  }

  /** `time_format(hour, min, sec)`: the three fields joined by ':'. */
  function TimeFormat(t: Hms): (s: string)
    ensures Split(s, ':') == [Field(t.hours), Field(t.minutes), Field(t.seconds)]
  {
    var parts := [Field(t.hours), Field(t.minutes), Field(t.seconds)];
    JoinThree(parts[0], parts[1], parts[2], ':');
    SplitJoin(parts, ':');
    Field(t.hours) + ":" + Field(t.minutes) + ":" + Field(t.seconds)
  }

  /** `time_print(count)`: `time_format` applied to `time_div(count)`. */
  function TimePrint(count: int): (s: string)
    ensures ':' in s && '\n' !in s && '\r' !in s
  {
    var s := TimeFormat(TimeDiv(count));
    assert s[|Field(TimeDiv(count).hours)|] == ':';
    s
  }

  /** Reads "H:MM:SS" text back as a number of seconds (the inverse of `TimePrint`). */
  function ClockSeconds(s: string): Option<int>
  {
    var parts := Split(s, ':');
    if |parts| == 3 && forall k :: 0 <= k < 3 ==> parts[k] != [] && AllDigits(parts[k]) then
      Some(DigitsValue(parts[0]) * 3600 + DigitsValue(parts[1]) * 60 + DigitsValue(parts[2]))
    else None
  }

  /** The printed duration of a non-negative count determines the count. */
  lemma TimePrintReadsBack(count: int)
    requires count >= 0
    ensures ClockSeconds(TimePrint(count)) == Some(count)
  {
  }

  /** Every field of a non-negative count's text has at least two digits. */
  lemma TimePrintLayout(count: int)
    requires count >= 0
    ensures var parts := Split(TimePrint(count), ':');
      |parts| == 3 && |parts[1]| == 2 && |parts[2]| == 2 && |parts[0]| >= 2
  {
  }

  /** A one-digit field gets one leading zero. */
  lemma FieldOfDigit(d: int)
    requires 0 <= d < 10
    ensures Field(d) == ['0', DigitChar(d)]
  {
    assert NatStr(d) == [DigitChar(d)];
    assert Pad(d, 2) == Zeros(1) + [DigitChar(d)];
  }

  lemma FieldOfTwentyTwo()
    ensures Field(22) == "22"
  {
    assert NatStr(22) == NatStr(2) + [DigitChar(2)];
    assert Pad(22, 2) == NatStr(22);
  }

  /** The values pinned down by the unit tests of `time_div`, `time_format` and `time_print`. */
  lemma UnitTestValues()
    ensures TimeDiv(3600) == Hms(1, 0, 0)
    ensures TimeFormat(Hms(1, 0, 0)) == "01:00:00"
    ensures TimePrint(65) == "00:01:05"
    ensures TimePrint(202) == "00:03:22"
  {
    FormatOneHour();
    PrintSixtyFive();
    PrintTwoHundredTwo();
  }

  lemma FormatOneHour()
    ensures TimeFormat(Hms(1, 0, 0)) == "01:00:00"
  {
    FieldOfDigit(0);
    FieldOfDigit(1);
  }

  lemma PrintSixtyFive()
    ensures TimePrint(65) == "00:01:05"
  {
    FieldOfDigit(0);
    FieldOfDigit(1);
    FieldOfDigit(5);
    assert TimeDiv(65) == Hms(0, 1, 5);
  }

  lemma PrintTwoHundredTwo()
    ensures TimePrint(202) == "00:03:22"
  {
    FieldOfDigit(0);
    FieldOfDigit(3);
    FieldOfTwentyTwo();
    assert TimeDiv(202) == Hms(0, 3, 22);
  }
}
