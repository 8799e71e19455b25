/**
 * The `active_task` file: the live session that the tracking loop
 * overwrites every second and that `daemon stop` and `status` read back
 * (`_write_tmp_info` / `_read_tmp_info`).
 */
module ActiveTask {
  import opened Wrappers
  import opened Text
  import opened Timestamp
  import Duration

  /** The four values `_read_tmp_info` returns. */
  datatype Session = Session(start: DateTime, end: DateTime, duration: int, taskName: string)

  /** The outcome of reading the file back. */
  datatype ReadOutcome =
    | NotFound               // FileNotFoundError: no file
    | Malformed              // ValueError: wrong field count, bad timestamp or bad integer
    | Loaded(session: Session)

  /**
   * The text `_write_tmp_info` writes: start, end, duration, task name and
   * the printed duration, separated by '\n'.
   */
  function Serialize(taskName: string, start: DateTime, end: DateTime, duration: int): (text: string)
    requires Valid(start) && Valid(end)
  {
    Join(Fields(taskName, start, end, duration), '\n')
  }

  function Fields(taskName: string, start: DateTime, end: DateTime, duration: int): (f: seq<string>)
    requires Valid(start) && Valid(end)
    ensures |f| == 5 && f[3] == taskName
  {
    [Str(start), Str(end), IntStr(duration), taskName, Duration.TimePrint(duration)]
  }

  /** Only the task name can bring a line break into the file. */
  lemma FieldsHaveNoBreak(taskName: string, start: DateTime, end: DateTime, duration: int)
    requires Valid(start) && Valid(end)
    ensures var f := Fields(taskName, start, end, duration);
      forall k :: 0 <= k < 5 && k != 3 ==> '\n' !in f[k] && '\r' !in f[k]
  {
    IntStrHasNoBreak(duration);
    OnlyFourthMayBreak(Str(start), Str(end), IntStr(duration), taskName, Duration.TimePrint(duration));
  }

  lemma OnlyFourthMayBreak(a: string, b: string, c: string, d: string, e: string)
    requires '\n' !in a && '\r' !in a && '\n' !in b && '\r' !in b
    requires '\n' !in c && '\r' !in c && '\n' !in e && '\r' !in e
    ensures forall k :: 0 <= k < 5 && k != 3 ==> '\n' !in [a, b, c, d, e][k] && '\r' !in [a, b, c, d, e][k]
  {
  }

  lemma IntStrHasNoBreak(i: int)
    ensures '\n' !in IntStr(i) && '\r' !in IntStr(i)
  {
    var d := IntStr(i);
    forall k | 0 <= k < |d| ensures d[k] != '\n' && d[k] != '\r' {
      assert IsDigit(d[k]) || d[k] == '-';
    }
  }

  /**
   * `_read_tmp_info`: the text (after text-mode newline translation) is split
   * on '\n' and must give exactly five fields; the first two go through
   * `strptime`, the third through `int`, the fifth is ignored.
   */
  function Read(file: Option<string>): (r: ReadOutcome)
    ensures file.None? <==> r.NotFound?
    ensures r.Loaded? ==> Valid(r.session.start) && Valid(r.session.end)
    ensures r.Loaded? ==> '\n' !in r.session.taskName && '\r' !in r.session.taskName
  {
    match file
    case None => NotFound
    case Some(text) =>
      var translated := TranslateNewlines(text);
      var fields := Split(translated, '\n');
      if |fields| != 5 then Malformed
      else
        SplitExcludes(translated, '\n', '\r');
        match (Parse(fields[0]), Parse(fields[1]), ParseInt(fields[2]))
        case (Some(start), Some(end), Some(duration)) => Loaded(Session(start, end, duration, fields[3]))
        case _ => Malformed
  }

  /** The file text has no '\r' of its own when the task name has none. */
  lemma SerializeNoCarriageReturn(taskName: string, start: DateTime, end: DateTime, duration: int)
    requires Valid(start) && Valid(end) && '\r' !in taskName
    ensures '\r' !in Serialize(taskName, start, end, duration)
  {
    var f := Fields(taskName, start, end, duration);
    FieldsHaveNoBreak(taskName, start, end, duration);
    JoinExcludes(f, '\n', '\r');
  }

  /**
   * Reading back what was written gives the same session, provided the task
   * name holds no line break and neither timestamp falls on a whole second.
   */
  lemma ReadWhatWasWritten(taskName: string, start: DateTime, end: DateTime, duration: int)
    requires Valid(start) && Valid(end)
    requires start.microsecond != 0 && end.microsecond != 0
    requires '\n' !in taskName && '\r' !in taskName
    ensures Read(Some(Serialize(taskName, start, end, duration)))
            == Loaded(Session(start, end, duration, taskName))
  {
    var f := Fields(taskName, start, end, duration);
    SplitsIntoFields(taskName, start, end, duration);
    StrParsesBack(start);
    StrParsesBack(end);
    IntStrParsesBack(duration);
    ReadFiveFields(Serialize(taskName, start, end, duration), f);
  }

  /** Text that splits into five fields, the first three of which parse, loads. */
  lemma ReadFiveFields(text: string, f: seq<string>)
    requires Split(TranslateNewlines(text), '\n') == f && |f| == 5
    requires Parse(f[0]).Some? && Parse(f[1]).Some? && ParseInt(f[2]).Some?
    ensures Read(Some(text)) == Loaded(Session(Parse(f[0]).value, Parse(f[1]).value, ParseInt(f[2]).value, f[3]))
  {
  }

  /** Without line breaks in the name, the translated text splits into exactly the five fields. */
  lemma SplitsIntoFields(taskName: string, start: DateTime, end: DateTime, duration: int)
    requires Valid(start) && Valid(end)
    requires '\n' !in taskName && '\r' !in taskName
    ensures var text := Serialize(taskName, start, end, duration);
      Split(TranslateNewlines(text), '\n') == Fields(taskName, start, end, duration)
  {
    var f := Fields(taskName, start, end, duration);
    FieldsHaveNoBreak(taskName, start, end, duration);
    JoinedLinesReadBack(f);
  }

  /** A task name with a '\n' in it yields more than five fields, and reading fails. */
  lemma NewlineInNameUnreadable(taskName: string, start: DateTime, end: DateTime, duration: int)
    requires Valid(start) && Valid(end)
    requires '\n' in taskName
    ensures Read(Some(Serialize(taskName, start, end, duration))) == Malformed
  {
    var f := Fields(taskName, start, end, duration);
    var text := Serialize(taskName, start, end, duration);
    var k :| 0 <= k < |taskName| && taskName[k] == '\n';
    CountPositive(taskName, '\n', k);
    JoinCount(f, '\n', 3);
    TranslateCount(text);
    ExtraBreakUnreadable(text);
  }

  /**
   * A '\r' in the task name never survives the round trip: text-mode reading
   * turns it into a line break, so the name read back (if any) differs.
   */
  lemma CarriageReturnInNameNotReadBack(taskName: string, start: DateTime, end: DateTime, duration: int)
    requires Valid(start) && Valid(end)
    requires '\r' in taskName
    ensures Read(Some(Serialize(taskName, start, end, duration))) != Loaded(Session(start, end, duration, taskName))
  {
  }

  /**
   * A '\r' inside the task name (not its last character) adds a field, and
   * reading fails; one at the very end merges with the separator after it.
   */
  lemma CarriageReturnInNameUnreadable(taskName: string, start: DateTime, end: DateTime, duration: int, k: nat)
    requires Valid(start) && Valid(end)
    requires k + 1 < |taskName| && taskName[k] == '\r'
    ensures Read(Some(Serialize(taskName, start, end, duration))) == Malformed
  {
    if taskName[k + 1] == '\n' {
      NewlineInNameUnreadable(taskName, start, end, duration);
    } else {
      LoneReturnInFourthField(Fields(taskName, start, end, duration), k);
      ExtraBreakUnreadable(Serialize(taskName, start, end, duration));
    }
  }

  /** Text that reads back with five or more line breaks has too many fields. */
  lemma ExtraBreakUnreadable(text: string)
    requires Count(TranslateNewlines(text), '\n') >= 5
    ensures Read(Some(text)) == Malformed
  {
  }

  /** A lone '\r' inside the fourth of five joined fields reads back as a fifth line break. */
  lemma LoneReturnInFourthField(f: seq<string>, k: nat)
    requires |f| == 5 && k + 1 < |f[3]| && f[3][k] == '\r' && f[3][k + 1] != '\n'
    ensures Count(TranslateNewlines(Join(f, '\n')), '\n') >= 5
  {
    var text := Join(f, '\n');
    var p := FourthFieldOffset(f);
    assert text[p..p + |f[3]|][k] == text[p + k];
    assert text[p..p + |f[3]|][k + 1] == text[p + k + 1];
    JoinCount(f, '\n', 3);
    TranslateCountLoneReturn(text, p + k);
  }

  /** The fourth of five joined fields starts at offset `p` of the joined text. */
  lemma FourthFieldOffset(f: seq<string>) returns (p: nat)
    requires |f| == 5
    ensures var text := Join(f, '\n');
      p + |f[3]| <= |text| && text[p..p + |f[3]|] == f[3]
  {
    var t3 := f[3] + ['\n'] + f[4];
    assert f[2..] == [f[2], f[3], f[4]];
    JoinThree(f[2], f[3], f[4], '\n');
    assert f[1..][1..] == f[2..];
    var pre := f[0] + ['\n'] + f[1] + ['\n'] + f[2] + ['\n'];
    assert Join(f, '\n') == pre + t3;
    p := |pre|;
    assert (pre + t3)[p..p + |f[3]|] == t3[..|f[3]|];
  }

  /** A start time on a whole second makes the file unreadable. */
  lemma WholeSecondStartUnreadable(taskName: string, start: DateTime, end: DateTime, duration: int)
    requires Valid(start) && Valid(end)
    requires start.microsecond == 0
    requires '\n' !in taskName && '\r' !in taskName
    ensures Read(Some(Serialize(taskName, start, end, duration))) == Malformed
  {
    SplitsIntoFields(taskName, start, end, duration);
    WholeSecondNotParsed(start);
  }

  /** So does an end time on a whole second. */
  lemma WholeSecondEndUnreadable(taskName: string, start: DateTime, end: DateTime, duration: int)
    requires Valid(start) && Valid(end)
    requires end.microsecond == 0
    requires '\n' !in taskName && '\r' !in taskName
    ensures Read(Some(Serialize(taskName, start, end, duration))) == Malformed
  {
    SplitsIntoFields(taskName, start, end, duration);
    WholeSecondNotParsed(end);
  }
}
