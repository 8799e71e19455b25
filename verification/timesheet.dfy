/**
 * The CSV timesheet of the first version of the program: a header written
 * once, then one appended line per tracked session.
 */
module Timesheet {
  import opened Wrappers
  import opened Text

  /** The header line, without its newline. */
  const HEADER_LINE: string := "start,end,task,duration"

  /** What `_init_datafile` writes. */
  const HEADER: string := HEADER_LINE + "\n"

  /** The four values of one `record_task` call, already formatted as text. */
  datatype Row = Row(start: string, end: string, task: string, duration: string)

  function Fields(r: Row): seq<string>
  {
    [r.start, r.end, r.task, r.duration]
  }

  predicate NoNewline(r: Row)
  {
    '\n' !in r.start && '\n' !in r.end && '\n' !in r.task && '\n' !in r.duration
  }

  /** `f'{start},{end},{task},{duration}'`. */
  function RowLine(r: Row): (line: string)
    ensures NoNewline(r) ==> '\n' !in line
  {
    if NoNewline(r) then
      JoinExcludes(Fields(r), ',', '\n');
      Join(Fields(r), ',')
    else Join(Fields(r), ',')
  }

  /** The header names the columns in the order the rows fill them. */
  lemma HeaderNamesTheColumns()
    ensures HEADER_LINE == RowLine(Row("start", "end", "task", "duration"))
  {
    HeaderJoin();
  }

  /** The header is the four column names joined by commas. */
  lemma HeaderJoin()
    ensures Join(["start", "end", "task", "duration"], ',') == HEADER_LINE
  {
    var f := ["start", "end", "task", "duration"];
    assert f[1..] == ["end", "task", "duration"];
    JoinThree("end", "task", "duration", ',');
    assert Join(f, ',') == "start" + [','] + ("end" + [','] + "task" + [','] + "duration");
  }

  /** A line has four comma-separated fields, in order, when no field holds a comma. */
  lemma RowFieldsReadBack(r: Row)
    requires ',' !in r.start && ',' !in r.end && ',' !in r.task && ',' !in r.duration
    ensures Split(RowLine(r), ',') == [r.start, r.end, r.task, r.duration]
  {
    SplitJoin(Fields(r), ',');
  }

  /** Text made of lines, each followed by a newline. */
  function Unlines(ls: seq<string>): (s: string)
    ensures Count(s, '\n') >= |ls|
  {
    if ls == [] then ""
    else
      var rest := Unlines(ls[1..]);
      CountAppend(ls[0] + "\n", rest, '\n');
      CountAppend(ls[0], "\n", '\n');
      ls[0] + "\n" + rest
  }

  /** Appending a line adds it at the end and keeps everything before it. */
  lemma {:induction false} UnlinesAppend(ls: seq<string>, l: string)
    ensures Unlines(ls + [l]) == Unlines(ls) + l + "\n"
    decreases |ls|
  {
    if ls != [] {
      assert (ls + [l])[1..] == ls[1..] + [l];
      UnlinesAppend(ls[1..], l);
    }
  }

  /** Splitting newline-terminated lines on '\n' gives the lines and a final "". */
  lemma {:induction false} UnlinesSplit(ls: seq<string>)
    requires forall k :: 0 <= k < |ls| ==> '\n' !in ls[k]
    ensures Split(Unlines(ls), '\n') == ls + [""]
    decreases |ls|
  {
    if ls != [] {
      UnlinesSplit(ls[1..]);
      SplitAfterField(ls[0], '\n', Unlines(ls[1..]));
      assert ls[0] + "\n" + Unlines(ls[1..]) == ls[0] + ['\n'] + Unlines(ls[1..]);
      assert [ls[0]] + (ls[1..] + [""]) == ls + [""];
    }
  }

  /** A timesheet that was initialised and then given `rows`, in order. */
  function Sheet(rows: seq<Row>): string
  {
    Unlines([HEADER_LINE] + seq(|rows|, i requires 0 <= i < |rows| => RowLine(rows[i])))
  }

  /**
   * Read back line by line, such a timesheet is the header, one line per
   * row, and an empty tail, as long as no field holds a newline.
   */
  lemma SheetLines(rows: seq<Row>)
    requires forall i :: 0 <= i < |rows| ==> NoNewline(rows[i])
    ensures var lines := Split(Sheet(rows), '\n');
      && |lines| == |rows| + 2
      && lines[0] == HEADER_LINE && lines[|rows| + 1] == ""
      && forall i :: 0 <= i < |rows| ==> lines[i + 1] == RowLine(rows[i])
  {
    var ls := [HEADER_LINE] + seq(|rows|, i requires 0 <= i < |rows| => RowLine(rows[i]));
    assert '\n' !in HEADER_LINE;
    UnlinesSplit(ls);
  }

  /** The data file: `None` while it does not exist, otherwise its text. */
  class DataFile {
    var content: Option<string>

    constructor(content: Option<string>)
      ensures this.content == content
    {
      this.content := content;
    }

    /** `_init_datafile`: (re)creates the file holding just the header. */
    method Init()
      modifies this
      ensures content == Some(HEADER)
      ensures content == Some(Sheet([]))
    {
      content := Some(HEADER);
      NoRowsIsHeader();
    }

    /**
     * `_check_for_datafile`: initialises a missing file and leaves an
     * existing one as it is, so a second call changes nothing.
     */
    method CheckForDatafile()
      modifies this
      ensures content.Some?
      ensures old(content).Some? ==> content == old(content)
      ensures old(content).None? ==> content == Some(HEADER)
    {
      if content.None? {
        Init();
      }
    }

    /**
     * `record_task`: appends one line after whatever is there; append mode
     * creates a missing file, without a header.
     */
    method RecordTask(r: Row)
      modifies this
      ensures content == Some((if old(content).Some? then old(content).value else "") + RowLine(r) + "\n")
    {
      var prior := if content.Some? then content.value else "";
      content := Some(prior + RowLine(r) + "\n");
    }

    /**
     * `print_timesheet`: makes sure the file exists, then returns its text as
     * a text-mode read gives it, with every line break read as `\n`.
     */
    method PrintTimesheet() returns (text: string)
      modifies this
      ensures old(content).Some? ==> content == old(content)
      ensures old(content).None? ==> content == Some(HEADER)
      ensures content.Some? && text == TranslateNewlines(content.value)
      ensures '\r' !in content.value ==> text == content.value
      ensures '\r' in content.value ==> text != content.value
    {
      CheckForDatafile();
      text := TranslateNewlines(content.value);
      if '\r' !in content.value {
        TranslateKeeps(content.value);
      }
    }
  }

  /** A timesheet without rows is the header alone. */
  lemma NoRowsIsHeader()
    ensures Sheet([]) == HEADER
  {
    var rows: seq<Row> := [];
    var ls := [HEADER_LINE] + seq(|rows|, i requires 0 <= i < |rows| => RowLine(rows[i]));
    assert ls == [HEADER_LINE];
    assert ls[1..] == [];
    assert Unlines(ls) == HEADER_LINE + "\n" + Unlines([]);
  }

  /** Recording a row into an initialised timesheet extends it by that row. */
  lemma RecordExtendsSheet(rows: seq<Row>, r: Row)
    ensures Sheet(rows) + RowLine(r) + "\n" == Sheet(rows + [r])
  {
    var ls := [HEADER_LINE] + seq(|rows|, i requires 0 <= i < |rows| => RowLine(rows[i]));
    var ls' := [HEADER_LINE] + seq(|rows + [r]|, i requires 0 <= i < |rows + [r]| => RowLine((rows + [r])[i]));
    assert ls' == ls + [RowLine(r)];
    UnlinesAppend(ls, RowLine(r));
  }
}
