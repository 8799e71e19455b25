/**
 * `yatta edit tasks` and `yatta edit records`: which fields change, when a
 * change is refused, and what is left alone. The editor (`click.edit`) and
 * the natural-language date parser are inputs: the editor is a function from
 * the text it opens with to the text saved (None when nothing was saved),
 * the parser a function from a field to a timestamp.
 */
module EditCommands {
  import opened Wrappers
  import opened Text
  import opened Timestamp
  import opened Store

  /** The help block appended below a task's fields in the editor. */
  const TASK_MARKER: string := "\n" + "\n-----\nFORMAT: NAME,TAGS,DESCRIPTION (Separate tags with '-')\nEXAMPLE: fix bicycle,personal-hobbies-fitness,fix the flat from my last ride\n-----"

  /** The help block appended below a record's start and end in the editor. */
  const RECORD_MARKER: string := "\n" + "\n-----\nFORMAT: START,END\nEXAMPLES:\n\t2020-03-21 13:01:00,2020-03-21 14:01:00\n\tToday at noon,now\nSTART and END must be interpretable by: https://github.com/bear/parsedatetime\n-----"

  /** The text the editor opens with for a task. */
  function TaskEditorText(t: Task): string
  {
    t.name + "," + t.tags + "," + t.description + TASK_MARKER
  }

  /** The text the editor opens with for a record. */
  function RecordEditorText(r: Record): string
    requires Valid(r.start) && Valid(r.end)
  {
    Str(r.start) + "," + Str(r.end) + RECORD_MARKER
  }

  /** `updates.split(MARKER)[0].strip().split(",")`. */
  function EditedFields(updates: string, marker: string): (fields: seq<string>)
    requires |marker| >= 1
    ensures |fields| == Count(Strip(BeforeFirst(updates, marker)), ',') + 1
    ensures forall k :: 0 <= k < |fields| ==> ',' !in fields[k]
  {
    Split(Strip(BeforeFirst(updates, marker)), ',')
  }

  /** What the saved editor text asks for. */
  datatype Proposal =
    | NothingSaved                  // `if updates:` is false
    | WrongFieldCount               // the tuple unpacking raises ValueError
    | Fields(fields: seq<string>)   // exactly as many fields as the unpacking needs

  function Propose(updates: Option<string>, marker: string, arity: nat): (p: Proposal)
    requires |marker| >= 1
    ensures p == NothingSaved <==> updates.None? || updates.value == ""
    ensures p.Fields? ==> |p.fields| == arity && p.fields == EditedFields(updates.value, marker)
    ensures p == WrongFieldCount <==>
      updates.Some? && updates.value != "" && |EditedFields(updates.value, marker)| != arity
  {
    if updates.None? || updates.value == "" then NothingSaved
    else
      var fields := EditedFields(updates.value, marker);
      if |fields| == arity then Fields(fields) else WrongFieldCount
  }

  /**
   * The fields line, followed by the marker, survives the cut at the marker
   * and the strip when no field holds a line break and the line starts and
   * ends on a non-space.
   */
  lemma {:induction false} LineBeforeMarker(parts: seq<string>, marker: string)
    requires |parts| >= 2 && |marker| >= 1 && marker[0] == '\n'
    requires forall k :: 0 <= k < |parts| ==> '\n' !in parts[k]
    requires parts[0] == [] || !IsSpace(parts[0][0])
    requires parts[|parts| - 1] == [] || !IsSpace(parts[|parts| - 1][|parts[|parts| - 1]| - 1])
    ensures Strip(BeforeFirst(Join(parts, ',') + marker, marker)) == Join(parts, ',')
  {
    var line := Join(parts, ',');
    JoinExcludes(parts, ',', '\n');
    assert forall i :: 0 <= i < |line| ==> line[i] != marker[0];
    BeforeFirstOfSuffixed(line, marker);
    JoinEdges(parts, ',');
    StripKeeps(line);
  }

  /** A line of comma-free fields followed by the marker gives back exactly those fields. */
  lemma FieldLineRoundTrip(parts: seq<string>, marker: string)
    requires |parts| >= 2 && |marker| >= 1 && marker[0] == '\n'
    requires forall k :: 0 <= k < |parts| ==> ',' !in parts[k] && '\n' !in parts[k]
    requires parts[0] == [] || !IsSpace(parts[0][0])
    requires parts[|parts| - 1] == [] || !IsSpace(parts[|parts| - 1][|parts[|parts| - 1]| - 1])
    ensures EditedFields(Join(parts, ',') + marker, marker) == parts
  {
    LineBeforeMarker(parts, marker);
    SplitJoin(parts, ',');
  }

  /** The first and last characters of a join of at least two parts. */
  lemma {:induction false} JoinEdges(parts: seq<string>, sep: char)
    requires |parts| >= 2
    ensures var line := Join(parts, sep);
      && |line| >= 1
      && line[0] == (if parts[0] == [] then sep else parts[0][0])
      && line[|line| - 1] == (if parts[|parts| - 1] == [] then sep else parts[|parts| - 1][|parts[|parts| - 1]| - 1])
    decreases |parts|
  {
    var line := Join(parts, sep);
    var rest := Join(parts[1..], sep);
    assert line == parts[0] + [sep] + rest;
    if |parts| == 2 {
      assert rest == parts[1];
    } else {
      JoinEdges(parts[1..], sep);
      assert parts[1..][|parts[1..]| - 1] == parts[|parts| - 1];
    }
  }

  lemma TaskTextIsJoin(t: Task)
    ensures TaskEditorText(t) == Join([t.name, t.tags, t.description], ',') + TASK_MARKER
    ensures |TASK_MARKER| >= 1 && TASK_MARKER[0] == '\n'
  {
    JoinThree(t.name, t.tags, t.description, ',');
  }

  /**
   * Saving a task's editor text unchanged proposes the task's own fields,
   * provided no field holds a comma or a line break and the text does not
   * start or end with white space.
   */
  lemma UnchangedTaskText(t: Task)
    requires ',' !in t.name && ',' !in t.tags && ',' !in t.description
    requires '\n' !in t.name && '\n' !in t.tags && '\n' !in t.description
    requires t.name == [] || !IsSpace(t.name[0])
    requires t.description == [] || !IsSpace(t.description[|t.description| - 1])
    ensures Propose(Some(TaskEditorText(t)), TASK_MARKER, 3) == Fields([t.name, t.tags, t.description])
  {
    var parts := [t.name, t.tags, t.description];
    TaskTextIsJoin(t);
    assert forall k :: 0 <= k < |parts| ==> ',' !in parts[k] && '\n' !in parts[k] by {
      forall k | 0 <= k < |parts| ensures ',' !in parts[k] && '\n' !in parts[k] {
        assert parts[k] == t.name || parts[k] == t.tags || parts[k] == t.description;
      }
    }
    FieldLineRoundTrip(parts, TASK_MARKER);
  }

  /** A comma inside a description breaks the three-way unpacking of the unchanged text. */
  lemma CommaInDescription(t: Task)
    requires ',' in t.description
    requires ',' !in t.name && ',' !in t.tags
    requires '\n' !in t.name && '\n' !in t.tags && '\n' !in t.description
    requires t.name == [] || !IsSpace(t.name[0])
    requires !IsSpace(t.description[|t.description| - 1])
    ensures Propose(Some(TaskEditorText(t)), TASK_MARKER, 3) == WrongFieldCount
  {
    var parts := [t.name, t.tags, t.description];
    TaskTextIsJoin(t);
    assert forall k :: 0 <= k < |parts| ==> '\n' !in parts[k] by {
      forall k | 0 <= k < |parts| ensures '\n' !in parts[k] {
        assert parts[k] == t.name || parts[k] == t.tags || parts[k] == t.description;
      }
    }
    CommaInFieldAddsFields(parts, TASK_MARKER, 2);
  }

  /** A comma inside one of the fields yields more fields than were joined. */
  lemma CommaInFieldAddsFields(parts: seq<string>, marker: string, i: nat)
    requires |parts| >= 2 && |marker| >= 1 && marker[0] == '\n' && i < |parts|
    requires forall k :: 0 <= k < |parts| ==> '\n' !in parts[k]
    requires parts[0] == [] || !IsSpace(parts[0][0])
    requires parts[|parts| - 1] == [] || !IsSpace(parts[|parts| - 1][|parts[|parts| - 1]| - 1])
    requires ',' in parts[i]
    ensures |EditedFields(Join(parts, ',') + marker, marker)| > |parts|
  {
    LineBeforeMarker(parts, marker);
    var k :| 0 <= k < |parts[i]| && parts[i][k] == ',';
    CountPositive(parts[i], ',', k);
    JoinCount(parts, ',', i);
  }

  /** Two printed timestamps joined by a comma, then the marker, give back the two. */
  lemma TwoTimestampsRoundTrip(a: string, b: string)
    requires ',' !in a && '\n' !in a && ',' !in b && '\n' !in b
    requires |a| >= 1 && IsDigit(a[0]) && |b| >= 1 && IsDigit(b[|b| - 1])
    ensures EditedFields(a + "," + b + RECORD_MARKER, RECORD_MARKER) == [a, b]
  {
    var parts := [a, b];
    assert parts[1..] == [b];
    assert a + "," + b + RECORD_MARKER == Join(parts, ',') + RECORD_MARKER;
    assert RECORD_MARKER[0] == '\n';
    FieldLineRoundTrip(parts, RECORD_MARKER);
  }

  /** Saving a record's editor text unchanged proposes its printed start and end. */
  lemma UnchangedRecordText(r: Record)
    requires Valid(r.start) && Valid(r.end)
    ensures Propose(Some(RecordEditorText(r)), RECORD_MARKER, 2) == Fields([Str(r.start), Str(r.end)])
  {
    StrEdges(r.start);
    StrEdges(r.end);
    TwoTimestampsRoundTrip(Str(r.start), Str(r.end));
  }

  /** `if name or tags or description:` chooses the flag path over the editor. */
  predicate FlagsGiven(name: Option<string>, tags: string, description: string)
  {
    Given(name) || tags != "" || description != ""
  }

  /** The task after a flag edit whose rename went through: only the given fields are replaced. */
  function FlagEdit(t: Task, name: Option<string>, tags: string, description: string): (u: Task)
    ensures u.id == t.id && u.total == t.total
    ensures u.name == t.name <== !Given(name)
    ensures u.tags == t.tags <== tags == ""
    ensures u.description == t.description <== description == ""
    ensures Given(name) ==> u.name == name.value
    ensures tags != "" ==> u.tags == tags
    ensures description != "" ==> u.description == description
  {
    t.(name := if Given(name) then name.value else t.name,
       tags := if tags != "" then tags else t.tags,
       description := if description != "" then description else t.description)
  }

  datatype TaskEdit =
    | NoSuchTask       // message and return
    | NameConflict     // the commit fails: rolled back (flags) or left unsaved (editor)
    | TaskEdited
    | NoUpdates        // the editor saved nothing
    | TaskEditCrashed  // "0" as the task, or the wrong number of fields from the editor

  /**
   * The flag path of `edit tasks` on task `t` (at index `k`): the name is
   * committed first and a clash ends the command; tags and description are
   * then committed when given.
   */
  method EditWithFlags(db: Database, t: Task, name: Option<string>, tags: string, description: string)
    returns (o: TaskEdit)
    requires db.Valid() && HasTask(db.tasks, t.id) && db.tasks[TaskIndex(db.tasks, t.id)] == t
    modifies db
    ensures db.Valid() && db.records == old(db.records)
    ensures o == NameConflict <==> Given(name) && NameTakenByOther(old(db.tasks), t.id, name.value)
    ensures o != NameConflict ==> o == TaskEdited
    ensures var k := TaskIndex(old(db.tasks), t.id);
      db.tasks == if o == NameConflict then old(db.tasks) else old(db.tasks)[k := FlagEdit(t, name, tags, description)]
  {
    var k := TaskIndex(db.tasks, t.id);
    ghost var before := db.tasks;
    if Given(name) {
      var ok := db.Rename(t.id, name.value);
      if !ok {
        return NameConflict;
      }
    }
    ghost var u := t.(name := if Given(name) then name.value else t.name);
    assert db.tasks == before[k := u];
    TaskIndexAt(db.tasks, t.id, k);
    if tags != "" {
      db.SetTags(t.id, tags);
    }
    u := u.(tags := if tags != "" then tags else t.tags);
    assert db.tasks == before[k := u];
    TaskIndexAt(db.tasks, t.id, k);
    if description != "" {
      db.SetDescription(t.id, description);
    }
    u := u.(description := if description != "" then description else t.description);
    assert db.tasks == before[k := u];
    o := TaskEdited;
  }

  /**
   * The editor path of `edit tasks` on task `t`: the saved text must give
   * exactly name, tags and description, which are committed together; a
   * clash leaves the table as it was.
   */
  method EditWithEditor(db: Database, t: Task, updates: Option<string>) returns (o: TaskEdit)
    requires db.Valid() && HasTask(db.tasks, t.id) && db.tasks[TaskIndex(db.tasks, t.id)] == t
    modifies db
    ensures db.Valid() && db.records == old(db.records)
    ensures var p := Propose(updates, TASK_MARKER, 3);
      && (o == NoUpdates <==> p.NothingSaved?)
      && (o == TaskEditCrashed <==> p.WrongFieldCount?)
      && (o == NameConflict <==> p.Fields? && NameTakenByOther(old(db.tasks), t.id, p.fields[0]))
      && (o == TaskEdited <==> p.Fields? && !NameTakenByOther(old(db.tasks), t.id, p.fields[0]))
      && db.tasks == if o == TaskEdited
                     then old(db.tasks)[TaskIndex(old(db.tasks), t.id) :=
                            t.(name := p.fields[0], tags := p.fields[1], description := p.fields[2])]
                     else old(db.tasks)
  {
    var p := Propose(updates, TASK_MARKER, 3);
    match p {
      case NothingSaved =>
        return NoUpdates;
      case WrongFieldCount =>
        return TaskEditCrashed;
      case Fields(fields) =>
        var ok := db.UpdateTask(t.id, fields[0], fields[1], fields[2]);
        o := if ok then TaskEdited else NameConflict;
    }
  }

  /** The task `edit tasks` works on: the first one the lookup finds. */
  function Target(tasks: seq<Task>, taskNameOrId: string): Option<Task>
  {
    var q := TaskLookup(Some(taskNameOrId));
    var matches := SelectTasks(tasks, q);
    if q.ZeroIdAssertion? || matches == [] then None else Some(matches[0])
  }

  /**
   * `edit tasks TASK_NAME_OR_ID [-n NAME] [-t TAGS] [-d DESCRIPTION]`: with
   * any flag the flag path runs, otherwise the editor path, on the first
   * task the lookup finds; with no such task nothing changes.
   */
  method EditTask(db: Database, taskNameOrId: string, name: Option<string>, tags: string,
                  description: string, editor: string -> Option<string>) returns (o: TaskEdit)
    requires db.Valid()
    modifies db
    ensures db.Valid() && db.records == old(db.records)
    ensures o != TaskEdited ==> db.tasks == old(db.tasks)
    ensures TaskLookup(Some(taskNameOrId)).ZeroIdAssertion? ==> o == TaskEditCrashed
    ensures o == NoSuchTask <==>
      !TaskLookup(Some(taskNameOrId)).ZeroIdAssertion? && Target(old(db.tasks), taskNameOrId).None?
    ensures Target(old(db.tasks), taskNameOrId).Some? && FlagsGiven(name, tags, description) ==>
      var t := Target(old(db.tasks), taskNameOrId).value;
      && (o == NameConflict <==> Given(name) && NameTakenByOther(old(db.tasks), t.id, name.value))
      && (o != NameConflict ==> o == TaskEdited)
      && (o != NameConflict ==>
            db.tasks == old(db.tasks)[TaskIndex(old(db.tasks), t.id) := FlagEdit(t, name, tags, description)])
    ensures Target(old(db.tasks), taskNameOrId).Some? && !FlagsGiven(name, tags, description) ==>
      var t := Target(old(db.tasks), taskNameOrId).value;
      var p := Propose(editor(TaskEditorText(t)), TASK_MARKER, 3);
      && (o == NoUpdates <==> p.NothingSaved?)
      && (o == TaskEditCrashed <==> p.WrongFieldCount?)
      && (o == NameConflict <==> p.Fields? && NameTakenByOther(old(db.tasks), t.id, p.fields[0]))
      && (o == TaskEdited ==>
            db.tasks == old(db.tasks)[TaskIndex(old(db.tasks), t.id) :=
                          t.(name := p.fields[0], tags := p.fields[1], description := p.fields[2])])
  {
    var q := TaskLookup(Some(taskNameOrId));
    if q.ZeroIdAssertion? {
      return TaskEditCrashed;
    }
    var matches := SelectTasks(db.tasks, q);
    if matches == [] {
      return NoSuchTask;
    }
    var t := matches[0];
    TaskIndexOfMember(db.tasks, t);
    if FlagsGiven(name, tags, description) {
      o := EditWithFlags(db, t, name, tags, description);
    } else {
      o := EditWithEditor(db, t, editor(TaskEditorText(t)));
    }
  }

  datatype RecordEdit =
    | RecordMissing        // reported, then the missing record is dereferenced
    | NoRecordUpdates      // the editor saved nothing
    | RecordEditCrashed    // the wrong number of fields from the editor
    | EndBeforeStart       // reported; nothing changes
    | RecordEdited

  /**
   * `edit records RECORD_ID`: the first record the lookup finds has its start
   * and end offered in the editor; the saved pair, read by `parse`, replaces
   * them unless the end comes before the start. The duration is not
   * recomputed.
   */
  method EditRecord(db: Database, recordId: string, editor: string -> Option<string>,
                    parse: string -> DateTime) returns (o: RecordEdit)
    requires db.Valid()
    requires forall r :: r in db.records ==> Valid(r.start) && Valid(r.end)
    requires forall s :: Valid(parse(s)) && parse(s).microsecond == 0
    modifies db
    ensures db.Valid() && db.tasks == old(db.tasks)
    ensures forall r :: r in db.records ==> Valid(r.start) && Valid(r.end)
    ensures o != RecordEdited ==> db.records == old(db.records)
    ensures o == RecordMissing <==> SelectRecords(old(db.records), RecordLookup(Some(recordId), None)) == []
    ensures o != RecordMissing ==> (
      var r := SelectRecords(old(db.records), RecordLookup(Some(recordId), None))[0];
      var p := Propose(editor(RecordEditorText(r)), RECORD_MARKER, 2);
      && (o == NoRecordUpdates <==> p.NothingSaved?)
      && (o == RecordEditCrashed <==> p.WrongFieldCount?)
      && (o == EndBeforeStart <==> p.Fields? && Before(parse(p.fields[1]), parse(p.fields[0])))
      && (o == RecordEdited ==>
            var k := RecordIndex(old(db.records), r.id);
            && old(db.records)[k] == r
            && db.records == old(db.records)[k := r.(start := parse(p.fields[0]), end := parse(p.fields[1]))]))
  {
    var matches := SelectRecords(db.records, RecordLookup(Some(recordId), None));
    if matches == [] {
      return RecordMissing;
    }
    o := EditFoundRecord(db, matches[0], editor, parse);
  }

  /**
   * The editing step of `edit records` once the record is found: the editor
   * text is read back as a start and an end, which replace the record's own
   * unless the end comes before the start.
   */
  method EditFoundRecord(db: Database, r: Record, editor: string -> Option<string>,
                         parse: string -> DateTime) returns (o: RecordEdit)
    requires db.Valid() && r in db.records
    requires forall r :: r in db.records ==> Valid(r.start) && Valid(r.end)
    requires forall s :: Valid(parse(s)) && parse(s).microsecond == 0
    modifies db
    ensures db.Valid() && db.tasks == old(db.tasks) && o != RecordMissing
    ensures forall r :: r in db.records ==> Valid(r.start) && Valid(r.end)
    ensures o != RecordEdited ==> db.records == old(db.records)
    ensures var p := Propose(editor(RecordEditorText(r)), RECORD_MARKER, 2);
      && (o == NoRecordUpdates <==> p.NothingSaved?)
      && (o == RecordEditCrashed <==> p.WrongFieldCount?)
      && (o == EndBeforeStart <==> p.Fields? && Before(parse(p.fields[1]), parse(p.fields[0])))
      && (o == RecordEdited ==>
            var k := RecordIndex(old(db.records), r.id);
            && old(db.records)[k] == r
            && db.records == old(db.records)[k := r.(start := parse(p.fields[0]), end := parse(p.fields[1]))])
  {
    RecordIndexOfMember(db.records, r);
    var p := Propose(editor(RecordEditorText(r)), RECORD_MARKER, 2);
    match p {
      case NothingSaved =>
        return NoRecordUpdates;
      case WrongFieldCount =>
        return RecordEditCrashed;
      case Fields(fields) =>
        var start := parse(fields[0]);
        var end := parse(fields[1]);
        if Before(end, start) {
          return EndBeforeStart;
        }
        ghost var before := db.records;
        db.UpdateRecordSpan(r.id, start, end);
        SpanKeepsValid(before, RecordIndex(before, r.id), start, end);
        return RecordEdited;
    }
  }

  /** Replacing one record's span by valid timestamps keeps every stored timestamp valid. */
  lemma SpanKeepsValid(rs: seq<Record>, k: nat, start: DateTime, end: DateTime)
    requires k < |rs| && Valid(start) && Valid(end)
    requires forall r :: r in rs ==> Valid(r.start) && Valid(r.end)
    ensures forall r :: r in rs[k := rs[k].(start := start, end := end)] ==> Valid(r.start) && Valid(r.end)
  {
    var rs' := rs[k := rs[k].(start := start, end := end)];
    forall r | r in rs' ensures Valid(r.start) && Valid(r.end) {
      var i :| 0 <= i < |rs'| && rs'[i] == r;
      if i != k {
        assert rs[i] in rs;
      }
    }
  }

  /** A record id that `int()` refuses edits the first record of the table. */
  lemma NonNumericRecordIdSelectsFirst(records: seq<Record>, recordId: string)
    requires recordId != "" && ParseInt(recordId).None? && records != []
    ensures SelectRecords(records, RecordLookup(Some(recordId), None))[0] == records[0]
  {
  }
}
