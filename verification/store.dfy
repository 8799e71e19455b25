/**
 * The task/record database behind the command line, as the session the
 * program holds: two tables, the lookups that decide between "id" and
 * "name", and the operations that insert, update and delete rows.
 * Rows are kept in table order, which is the order `.first()` and `.all()`
 * see.
 */
module Store {
  import opened Wrappers
  import opened Text
  import opened Timestamp

  datatype Task = Task(id: int, name: string, tags: string, description: string, total: Option<int>)

  datatype Record = Record(id: int, taskName: string, taskId: Option<int>,
                           start: DateTime, end: DateTime, duration: int)

  // ----------------------------------------------------------- lookups

  /** Python truthiness of an optional string argument: None and "" are false. */
  predicate Given(arg: Option<string>)
  {
    arg.Some? && arg.value != ""
  }

  /** The query `get_tasks` builds. */
  datatype TaskQuery =
    | AllTasks
    | TaskWithId(id: int)
    | TaskNamed(name: string)
    | ZeroIdAssertion   // `assert int("0")` fails: AssertionError escapes to the caller

  /**
   * `get_tasks(task_name_or_id)`: no argument means every task; text that
   * `int()` accepts is an id (zero trips the assertion); anything else is a
   * name.
   */
  function TaskLookup(arg: Option<string>): (q: TaskQuery)
    ensures !Given(arg) <==> q.AllTasks?
    ensures q.TaskWithId? <==> Given(arg) && ParseInt(arg.value).Some? && ParseInt(arg.value).value != 0
    ensures q.TaskWithId? ==> ParseInt(arg.value) == Some(q.id)
    ensures q.ZeroIdAssertion? <==> Given(arg) && ParseInt(arg.value) == Some(0)
    ensures q.TaskNamed? <==> Given(arg) && ParseInt(arg.value).None?
    ensures q.TaskNamed? ==> q.name == arg.value
  {
    if !Given(arg) then AllTasks
    else match ParseInt(arg.value)
      case Some(n) => if n != 0 then TaskWithId(n) else ZeroIdAssertion
      case None => TaskNamed(arg.value)
  }

  predicate TaskMatches(q: TaskQuery, t: Task)
  {
    match q
    case AllTasks => true
    case TaskWithId(id) => t.id == id
    case TaskNamed(name) => t.name == name
    case ZeroIdAssertion => false
  }

  /** The query `get_records` builds. */
  datatype RecordQuery =
    | AllRecords
    | RecordWithId(id: int)
    | RecordsOfTaskId(taskId: int)
    | RecordsOfTaskName(taskName: string)

  /**
   * `get_records(record_id, task_name_or_id)`: a record id wins over a task;
   * a record id that `int()` rejects falls back to every record; a task
   * argument is an id when `int()` accepts it and a name otherwise.
   */
  function RecordLookup(recordId: Option<string>, taskNameOrId: Option<string>): (q: RecordQuery)
    ensures q.RecordWithId? <==> Given(recordId) && ParseInt(recordId.value).Some?
    ensures q.RecordWithId? ==> ParseInt(recordId.value) == Some(q.id)
    ensures q.RecordsOfTaskId? <==>
      !Given(recordId) && Given(taskNameOrId) && ParseInt(taskNameOrId.value).Some?
    ensures q.RecordsOfTaskId? ==> ParseInt(taskNameOrId.value) == Some(q.taskId)
    ensures q.RecordsOfTaskName? <==>
      !Given(recordId) && Given(taskNameOrId) && ParseInt(taskNameOrId.value).None?
    ensures q.RecordsOfTaskName? ==> q.taskName == taskNameOrId.value
    ensures q.AllRecords? <==>
      (Given(recordId) && ParseInt(recordId.value).None?) || (!Given(recordId) && !Given(taskNameOrId))
  {
    if Given(recordId) then
      match ParseInt(recordId.value)
      case Some(n) => RecordWithId(n)
      case None => AllRecords
    else if Given(taskNameOrId) then
      match ParseInt(taskNameOrId.value)
      case Some(n) => RecordsOfTaskId(n)
      case None => RecordsOfTaskName(taskNameOrId.value)
    else AllRecords
  }

  /** A record id decides the query on its own: the task argument is then ignored. */
  lemma RecordIdTakesPrecedence(recordId: Option<string>, a: Option<string>, b: Option<string>)
    requires Given(recordId)
    ensures RecordLookup(recordId, a) == RecordLookup(recordId, b)
  {
  }

  predicate RecordMatches(q: RecordQuery, r: Record)
  {
    match q
    case AllRecords => true
    case RecordWithId(id) => r.id == id
    case RecordsOfTaskId(taskId) => r.taskId == Some(taskId)
    case RecordsOfTaskName(name) => r.taskName == name
  }

  /** `query.all()` over the tasks table. */
  function SelectTasks(ts: seq<Task>, q: TaskQuery): (r: seq<Task>)
    ensures forall t :: t in r <==> t in ts && TaskMatches(q, t)
    ensures r != [] ==> exists i :: 0 <= i < |ts| && ts[i] == r[0] &&
                          forall j :: 0 <= j < i ==> !TaskMatches(q, ts[j])
    ensures q.AllTasks? ==> r == ts
  {
    if ts == [] then []
    else if TaskMatches(q, ts[0]) then [ts[0]] + SelectTasks(ts[1..], q)
    else
      var r := SelectTasks(ts[1..], q);
      if r != [] then
        var i :| 0 <= i < |ts[1..]| && ts[1..][i] == r[0] && forall j :: 0 <= j < i ==> !TaskMatches(q, ts[1..][j]);
        assert ts[i + 1] == r[0];
        r
      else r
  }

  /** `query.all()` over the records table. */
  function SelectRecords(rs: seq<Record>, q: RecordQuery): (r: seq<Record>)
    ensures forall x :: x in r <==> x in rs && RecordMatches(q, x)
    ensures r != [] ==> exists i :: 0 <= i < |rs| && rs[i] == r[0] &&
                          forall j :: 0 <= j < i ==> !RecordMatches(q, rs[j])
    ensures q.AllRecords? ==> r == rs
  {
    if rs == [] then []
    else if RecordMatches(q, rs[0]) then [rs[0]] + SelectRecords(rs[1..], q)
    else
      var r := SelectRecords(rs[1..], q);
      if r != [] then
        var i :| 0 <= i < |rs[1..]| && rs[1..][i] == r[0] && forall j :: 0 <= j < i ==> !RecordMatches(q, rs[1..][j]);
        assert rs[i + 1] == r[0];
        r
      else r
  }

  /**
   * With only a task argument, the records found are those linked to the
   * task id when `int()` reads the argument as a number, and those carrying
   * the argument as their task name otherwise.
   */
  lemma RecordsOfTaskArgument(rs: seq<Record>, arg: string)
    requires arg != ""
    ensures forall x :: x in SelectRecords(rs, RecordLookup(None, Some(arg))) <==>
      x in rs && match ParseInt(arg)
                 case Some(n) => x.taskId == Some(n)
                 case None => x.taskName == arg
  {
  }

  /** A selection from a table of distinct ids has distinct ids. */
  lemma {:induction false} SelectKeepsDistinct(rs: seq<Record>, q: RecordQuery)
    requires DistinctRecords(rs)
    ensures DistinctRecords(SelectRecords(rs, q))
    decreases |rs|
  {
    if rs != [] {
      var rest := SelectRecords(rs[1..], q);
      SelectKeepsDistinct(rs[1..], q);
      if RecordMatches(q, rs[0]) {
        forall k | 0 <= k < |rest| ensures rest[k].id != rs[0].id {
          assert rest[k] in rs[1..];
        }
        assert SelectRecords(rs, q) == [rs[0]] + rest;
      }
    }
  }

  /** The verdict of `validate_task`. */
  datatype Verdict = NameAccepted | NameRejected | ValidationAssertion

  /**
   * `validate_task`: a name that `int()` reads as a non-zero number is
   * rejected (it would be mistaken for an id), a name `int()` refuses is
   * accepted, and "0" (or "-0", "+00", ...) trips the bare assertion.
   */
  function ValidateTask(name: string): (v: Verdict)
    ensures v == NameAccepted <==> ParseInt(name).None?
    ensures v == NameRejected <==> ParseInt(name).Some? && ParseInt(name).value != 0
    ensures v == ValidationAssertion <==> ParseInt(name) == Some(0)
  {
    match ParseInt(name)
    case None => NameAccepted
    case Some(n) => if n != 0 then NameRejected else ValidationAssertion
  }

  /** A name `validate_task` accepts is never taken for an id by `get_tasks`. */
  lemma AcceptedNamesLookUpByName(name: string)
    requires ValidateTask(name) == NameAccepted && name != ""
    ensures TaskLookup(Some(name)) == TaskNamed(name)
  {
  }

  // ------------------------------------------------------ table invariants

  /** Primary keys are distinct, and so are task names (a UNIQUE column). */
  predicate DistinctTasks(ts: seq<Task>)
  {
    forall i, j :: 0 <= i < j < |ts| ==> ts[i].id != ts[j].id && ts[i].name != ts[j].name
  }

  predicate DistinctRecords(rs: seq<Record>)
  {
    forall i, j :: 0 <= i < j < |rs| ==> rs[i].id != rs[j].id
  }

  predicate HasTask(ts: seq<Task>, id: int)
  {
    exists i :: 0 <= i < |ts| && ts[i].id == id
  }

  predicate HasRecord(rs: seq<Record>, id: int)
  {
    exists i :: 0 <= i < |rs| && rs[i].id == id
  }

  predicate NameTaken(ts: seq<Task>, name: string)
  {
    exists i :: 0 <= i < |ts| && ts[i].name == name
  }

  /** Some task other than `id` already carries `name`. */
  predicate NameTakenByOther(ts: seq<Task>, id: int, name: string)
  {
    exists i :: 0 <= i < |ts| && ts[i].id != id && ts[i].name == name
  }

  /** Where the task with primary key `id` sits. */
  function TaskIndex(ts: seq<Task>, id: int): (k: nat)
    requires HasTask(ts, id)
    ensures k < |ts| && ts[k].id == id
  {
    if ts[0].id == id then 0 else TaskIndex(ts[1..], id) + 1
  }

  function RecordIndex(rs: seq<Record>, id: int): (k: nat)
    requires HasRecord(rs, id)
    ensures k < |rs| && rs[k].id == id
  {
    if rs[0].id == id then 0 else RecordIndex(rs[1..], id) + 1
  }

  /** A task found by a query sits at the index its id leads to. */
  lemma TaskIndexOfMember(ts: seq<Task>, t: Task)
    requires DistinctTasks(ts) && t in ts
    ensures HasTask(ts, t.id) && ts[TaskIndex(ts, t.id)] == t
  {
    var i :| 0 <= i < |ts| && ts[i] == t;
    assert HasTask(ts, t.id);
    var k := TaskIndex(ts, t.id);
    assert k == i;
  }

  /** In a table of distinct ids, the task at `i` is the one `TaskIndex` finds. */
  lemma TaskIndexAt(ts: seq<Task>, id: int, i: nat)
    requires DistinctTasks(ts) && i < |ts| && ts[i].id == id
    ensures HasTask(ts, id) && TaskIndex(ts, id) == i
  {
    TaskIndexOfMember(ts, ts[i]);
  }

  lemma RecordIndexOfMember(rs: seq<Record>, r: Record)
    requires DistinctRecords(rs) && r in rs
    ensures HasRecord(rs, r.id) && rs[RecordIndex(rs, r.id)] == r
  {
    var i :| 0 <= i < |rs| && rs[i] == r;
    assert HasRecord(rs, r.id);
    var k := RecordIndex(rs, r.id);
    assert k == i;
  }

  /** SQLite's choice of a new primary key: one more than the largest in use. */
  function NextTaskId(ts: seq<Task>): (n: int)
    ensures n >= 1 && forall i :: 0 <= i < |ts| ==> ts[i].id < n
  {
    if ts == [] then 1
    else
      var rest := NextTaskId(ts[1..]);
      if ts[0].id < rest then rest else ts[0].id + 1
  }

  function NextRecordId(rs: seq<Record>): (n: int)
    ensures n >= 1 && forall i :: 0 <= i < |rs| ==> rs[i].id < n
  {
    if rs == [] then 1
    else
      var rest := NextRecordId(rs[1..]);
      if rs[0].id < rest then rest else rs[0].id + 1
  }

  function Without<T>(s: seq<T>, k: nat): (r: seq<T>)
    requires k < |s|
    ensures |r| == |s| - 1
    ensures forall i :: 0 <= i < |r| ==> r[i] == (if i < k then s[i] else s[i + 1])
  {
    s[..k] + s[k + 1..]
  }

  lemma WithoutKeepsDistinctTasks(ts: seq<Task>, k: nat)
    requires k < |ts| && DistinctTasks(ts)
    ensures DistinctTasks(Without(ts, k))
  {
    var r := Without(ts, k);
    forall i, j | 0 <= i < j < |r| ensures r[i].id != r[j].id && r[i].name != r[j].name {
      var i', j' := if i < k then i else i + 1, if j < k then j else j + 1;
      assert r[i] == ts[i'] && r[j] == ts[j'] && i' < j';
    }
  }

  lemma WithoutKeepsDistinctRecords(rs: seq<Record>, k: nat)
    requires k < |rs| && DistinctRecords(rs)
    ensures DistinctRecords(Without(rs, k))
  {
    var r := Without(rs, k);
    forall i, j | 0 <= i < j < |r| ensures r[i].id != r[j].id {
      var i', j' := if i < k then i else i + 1, if j < k then j else j + 1;
      assert r[i] == rs[i'] && r[j] == rs[j'] && i' < j';
    }
  }

  /** The records whose primary key is not in `ids`, in table order. */
  function DropIds(rs: seq<Record>, ids: set<int>): (r: seq<Record>)
    ensures forall x :: x in r <==> x in rs && x.id !in ids
    ensures |r| <= |rs|
  {
    if rs == [] then []
    else (if rs[0].id in ids then [] else [rs[0]]) + DropIds(rs[1..], ids)
  }

  /** The primary keys of `rs`. */
  function IdsOf(rs: seq<Record>): (ids: set<int>)
    ensures forall id :: id in ids <==> exists k :: 0 <= k < |rs| && rs[k].id == id
  {
    if rs == [] then {}
    else
      var init := rs[..|rs| - 1];
      assert forall k :: 0 <= k < |init| ==> init[k] == rs[k];
      IdsOf(init) + {rs[|rs| - 1].id}
  }

  lemma {:induction false} DropIdsTwice(rs: seq<Record>, a: set<int>, b: set<int>)
    ensures DropIds(DropIds(rs, a), b) == DropIds(rs, a + b)
    decreases |rs|
  {
    if rs != [] {
      var h := rs[0];
      var d1 := DropIds(rs[1..], a);
      DropIdsTwice(rs[1..], a, b);
      if h.id in a {
        assert DropIds(rs, a) == d1;
        assert DropIds(rs, a + b) == DropIds(rs[1..], a + b);
      } else {
        assert DropIds(rs, a) == [h] + d1;
        assert ([h] + d1)[1..] == d1;
        assert DropIds([h] + d1, b) == (if h.id in b then [] else [h]) + DropIds(d1, b);
      }
    }
  }

  lemma DropNothing(rs: seq<Record>)
    ensures DropIds(rs, {}) == rs
  {
    if rs != [] {
      DropNothing(rs[1..]);
    }
  }

  lemma {:induction false} WithoutIsDrop(rs: seq<Record>, k: nat)
    requires DistinctRecords(rs) && k < |rs|
    ensures Without(rs, k) == DropIds(rs, {rs[k].id})
    decreases |rs|
  {
    TailDistinct(rs);
    if k == 0 {
      DropAbsent(rs[1..], {rs[0].id});
      assert Without(rs, 0) == rs[1..];
    } else {
      assert rs[1..][k - 1] == rs[k];
      WithoutIsDrop(rs[1..], k - 1);
      WithoutStep(rs, k);
      assert rs[0].id != rs[k].id;
      assert DropIds(rs, {rs[k].id}) == [rs[0]] + DropIds(rs[1..], {rs[k].id});
    }
  }

  lemma TailDistinct(rs: seq<Record>)
    requires DistinctRecords(rs) && rs != []
    ensures DistinctRecords(rs[1..])
    ensures forall j :: 0 <= j < |rs[1..]| ==> rs[1..][j].id != rs[0].id
  {
    var tail := rs[1..];
    forall i, j | 0 <= i < j < |tail| ensures tail[i].id != tail[j].id {
      assert tail[i] == rs[i + 1] && tail[j] == rs[j + 1];
    }
    forall j | 0 <= j < |tail| ensures tail[j].id != rs[0].id {
      assert tail[j] == rs[j + 1];
    }
  }

  lemma WithoutStep<T>(s: seq<T>, k: nat)
    requires 0 < k < |s|
    ensures Without(s, k) == [s[0]] + Without(s[1..], k - 1)
  {
    assert s[..k] == [s[0]] + s[1..][..k - 1];
    assert s[k + 1..] == s[1..][k..];
  }

  lemma {:induction false} DropAbsent(rs: seq<Record>, ids: set<int>)
    requires forall j :: 0 <= j < |rs| ==> rs[j].id !in ids
    ensures DropIds(rs, ids) == rs
    decreases |rs|
  {
    if rs != [] {
      DropAbsent(rs[1..], ids);
    }
  }

  lemma DropKeepsDistinct(rs: seq<Record>, ids: set<int>)
    requires DistinctRecords(rs)
    ensures DistinctRecords(DropIds(rs, ids))
  {
    if rs != [] {
      DropKeepsDistinct(rs[1..], ids);
      var rest := DropIds(rs[1..], ids);
      forall k | 0 <= k < |rest| ensures rest[k].id != rs[0].id {
        assert rest[k] in rs[1..];
      }
    }
  }

  /** What deleting task `id` does to its records: their foreign key becomes NULL. */
  function Detach(rs: seq<Record>, id: int): (r: seq<Record>)
    ensures |r| == |rs|
    ensures forall i :: 0 <= i < |rs| ==>
      r[i] == if rs[i].taskId == Some(id) then rs[i].(taskId := None) else rs[i]
  {
    seq(|rs|, i requires 0 <= i < |rs| =>
      if rs[i].taskId == Some(id) then rs[i].(taskId := None) else rs[i])
  }

  // ---------------------------------------------------------------- totals

  function SumDurations(rs: seq<Record>): int
  {
    if rs == [] then 0 else rs[0].duration + SumDurations(rs[1..])
  }

  function CountNamed(ts: seq<Task>, name: string): nat
  {
    if ts == [] then 0 else (if ts[0].name == name then 1 else 0) + CountNamed(ts[1..], name)
  }

  /**
   * The query of `update_task_total`: `SELECT sum(records.duration) FROM
   * records, tasks WHERE tasks.name = name`. Nothing joins the two tables,
   * so every record is paired with every task of that name; SUM over no
   * rows is NULL.
   */
  function TotalQuery(ts: seq<Task>, rs: seq<Record>, name: string): Option<int>
  {
    var n := CountNamed(ts, name);
    if rs == [] || n == 0 then None else Some(n * SumDurations(rs))
  }

  lemma {:induction false} CountNamedDistinct(ts: seq<Task>, k: nat)
    requires DistinctTasks(ts) && k < |ts|
    ensures CountNamed(ts, ts[k].name) == 1
    decreases |ts|
  {
    if k == 0 {
      CountNamedAbsent(ts[1..], ts[0].name);
    } else {
      assert ts[1..][k - 1] == ts[k];
      CountNamedDistinct(ts[1..], k - 1);
    }
  }

  lemma {:induction false} CountNamedAbsent(ts: seq<Task>, name: string)
    requires forall i :: 0 <= i < |ts| ==> ts[i].name != name
    ensures CountNamed(ts, name) == 0
    decreases |ts|
  {
    if ts != [] {
      CountNamedAbsent(ts[1..], name);
    }
  }

  /**
   * The total `update_task_total` stores for a task is the sum over the whole
   * records table, not over that task's records (NULL when there are none).
   */
  lemma TotalIsWholeTableSum(ts: seq<Task>, rs: seq<Record>, k: nat)
    requires DistinctTasks(ts) && k < |ts|
    ensures TotalQuery(ts, rs, ts[k].name) == if rs == [] then None else Some(SumDurations(rs))
  {
    CountNamedDistinct(ts, k);
  }

  /** A record of another task counts towards a task's total. */
  lemma TotalCountsOtherTasks(t: Task, u: Task, mine: Record, theirs: Record)
    requires t.name != u.name
    requires mine.taskId == Some(t.id) && theirs.taskId == Some(u.id)
    requires mine.duration == 60 && theirs.duration == 30
    ensures TotalQuery([t, u], [mine, theirs], t.name) == Some(90)
  {
    assert [t, u][1..] == [u] && [u][1..] == [];
    assert CountNamed([u], t.name) == 0;
    assert CountNamed([t, u], t.name) == 1;
    assert [mine, theirs][1..] == [theirs] && [theirs][1..] == [];
    assert SumDurations([theirs]) == 30;
    assert SumDurations([mine, theirs]) == 90;
  }

  // --------------------------------------------------------------- session

  /** The task `add_record` is handed: a row already in the table, or a new object. */
  datatype TaskRef =
    | Persisted(id: int)
    | Transient(name: string, tags: string, description: string, total: Option<int>)

  /** The values of a new `Record` object. */
  datatype RecordFields = RecordFields(taskName: string, start: DateTime, end: DateTime, duration: int)

  datatype AddOutcome =
    | Added(taskId: int, recordId: int)
    | DuplicateName   // the task insert and then the record insert fail on the UNIQUE name

  class Database {
    var tasks: seq<Task>
    var records: seq<Record>

    predicate Valid()
      reads this
    {
      DistinctTasks(tasks) && DistinctRecords(records)
    }

    constructor (tasks: seq<Task>, records: seq<Record>)
      requires DistinctTasks(tasks) && DistinctRecords(records)
      ensures Valid() && this.tasks == tasks && this.records == records
    {
      this.tasks := tasks;
      this.records := records;
    }

    /**
     * `add_record(task, record)`: insert the task if it is new, then append
     * the record to the task's records. A new task whose name is taken is
     * rolled back; adding the record then brings the same task object back
     * into the session and the second commit fails too, so nothing is stored.
     */
    method AddRecord(task: TaskRef, fields: RecordFields) returns (outcome: AddOutcome)
      requires Valid()
      requires task.Persisted? ==> HasTask(tasks, task.id)
      modifies this
      ensures Valid()
      ensures outcome.DuplicateName? <==> task.Transient? && NameTaken(old(tasks), task.name)
      ensures outcome.DuplicateName? ==> tasks == old(tasks) && records == old(records)
      ensures task.Persisted? && outcome.Added? ==> tasks == old(tasks) && outcome.taskId == task.id
      ensures task.Transient? && outcome.Added? ==>
        && !HasTask(old(tasks), outcome.taskId)
        && tasks == old(tasks) + [Task(outcome.taskId, task.name, task.tags, task.description, task.total)]
      ensures outcome.Added? ==>
        && !HasRecord(old(records), outcome.recordId)
        && records == old(records) + [Record(outcome.recordId, fields.taskName, Some(outcome.taskId),
                                             fields.start, fields.end, fields.duration)]
      ensures outcome.Added? ==> HasTask(tasks, outcome.taskId)
    {
      var taskId;
      match task {
        case Persisted(id) =>
          taskId := id;
        case Transient(name, tags, description, total) =>
          if exists i :: 0 <= i < |tasks| && tasks[i].name == name {
            return DuplicateName;
          }
          taskId := NextTaskId(tasks);
          tasks := tasks + [Task(taskId, name, tags, description, total)];
          assert tasks[|tasks| - 1].id == taskId;
      }
      var recordId := NextRecordId(records);
      records := records + [Record(recordId, fields.taskName, Some(taskId),
                                   fields.start, fields.end, fields.duration)];
      outcome := Added(taskId, recordId);
    }

    /** `update_task_total(task)`: only the task's `total` changes, to the query's value. */
    method UpdateTaskTotal(id: int)
      requires Valid() && HasTask(tasks, id)
      modifies this
      ensures Valid() && records == old(records)
      ensures var k := TaskIndex(old(tasks), id);
        tasks == old(tasks)[k := old(tasks)[k].(total := TotalQuery(old(tasks), records, old(tasks)[k].name))]
    {
      var k := TaskIndex(tasks, id);
      tasks := tasks[k := tasks[k].(total := TotalQuery(tasks, records, tasks[k].name))];
    }

    /** `delete_task(task)`: the row goes, and its remaining records lose their link to it. */
    method DeleteTask(id: int)
      requires Valid() && HasTask(tasks, id)
      modifies this
      ensures Valid()
      ensures tasks == Without(old(tasks), TaskIndex(old(tasks), id))
      ensures records == Detach(old(records), id)
      ensures !HasTask(tasks, id)
    {
      var k := TaskIndex(tasks, id);
      WithoutKeepsDistinctTasks(tasks, k);
      tasks := Without(tasks, k);
      records := Detach(records, id);
      assert DistinctRecords(records) by {
        forall i, j | 0 <= i < j < |records| ensures records[i].id != records[j].id {
          assert records[i].id == old(records)[i].id && records[j].id == old(records)[j].id;
        }
      }
      assert !HasTask(tasks, id) by {
        forall i | 0 <= i < |tasks| ensures tasks[i].id != id {
          assert tasks[i] == old(tasks)[if i < k then i else i + 1];
        }
      }
    }

    /** `delete_record(record)`: exactly that row goes. */
    method DeleteRecord(id: int)
      requires Valid() && HasRecord(records, id)
      modifies this
      ensures Valid() && tasks == old(tasks)
      ensures records == DropIds(old(records), {id})
      ensures |records| == |old(records)| - 1
      ensures !HasRecord(records, id)
    {
      var k := RecordIndex(records, id);
      WithoutKeepsDistinctRecords(records, k);
      WithoutIsDrop(records, k);
      records := Without(records, k);
      assert !HasRecord(records, id) by {
        forall i | 0 <= i < |records| ensures records[i].id != id {
          assert records[i] == old(records)[if i < k then i else i + 1];
        }
      }
    }

    /**
     * Assign new values to a task's name, tags and description and commit.
     * The commit fails, and nothing changes, when another task has the name.
     */
    method UpdateTask(id: int, name: string, tags: string, description: string) returns (ok: bool)
      requires Valid() && HasTask(tasks, id)
      modifies this
      ensures Valid() && records == old(records)
      ensures ok <==> !NameTakenByOther(old(tasks), id, name)
      ensures var k := TaskIndex(old(tasks), id);
        tasks == if ok then old(tasks)[k := old(tasks)[k].(name := name, tags := tags, description := description)]
                 else old(tasks)
    {
      var k := TaskIndex(tasks, id);
      ok := !exists i :: 0 <= i < |tasks| && tasks[i].id != id && tasks[i].name == name;
      if ok {
        tasks := tasks[k := tasks[k].(name := name, tags := tags, description := description)];
        assert DistinctTasks(tasks) by {
          forall i, j | 0 <= i < j < |tasks| ensures tasks[i].id != tasks[j].id && tasks[i].name != tasks[j].name {
            if i == k {
              assert old(tasks)[j].id != id;
            } else if j == k {
              assert old(tasks)[i].id != id;
            }
          }
        }
      }
    }

    /** Assign a new name and commit; the commit fails, and nothing changes, when another task has it. */
    method Rename(id: int, name: string) returns (ok: bool)
      requires Valid() && HasTask(tasks, id)
      modifies this
      ensures Valid() && records == old(records)
      ensures ok <==> !NameTakenByOther(old(tasks), id, name)
      ensures var k := TaskIndex(old(tasks), id);
        tasks == if ok then old(tasks)[k := old(tasks)[k].(name := name)] else old(tasks)
    {
      var k := TaskIndex(tasks, id);
      ok := UpdateTask(id, name, tasks[k].tags, tasks[k].description);
    }

    /** Assign new tags and commit. */
    method SetTags(id: int, tags: string)
      requires Valid() && HasTask(tasks, id)
      modifies this
      ensures Valid() && records == old(records)
      ensures var k := TaskIndex(old(tasks), id); tasks == old(tasks)[k := old(tasks)[k].(tags := tags)]
    {
      var k := TaskIndex(tasks, id);
      tasks := tasks[k := tasks[k].(tags := tags)];
      assert DistinctTasks(tasks) by {
        forall i, j | 0 <= i < j < |tasks| ensures tasks[i].id != tasks[j].id && tasks[i].name != tasks[j].name {
          assert tasks[i].id == old(tasks)[i].id && tasks[i].name == old(tasks)[i].name;
          assert tasks[j].id == old(tasks)[j].id && tasks[j].name == old(tasks)[j].name;
        }
      }
    }

    /** Assign a new description and commit. */
    method SetDescription(id: int, description: string)
      requires Valid() && HasTask(tasks, id)
      modifies this
      ensures Valid() && records == old(records)
      ensures var k := TaskIndex(old(tasks), id);
        tasks == old(tasks)[k := old(tasks)[k].(description := description)]
    {
      var k := TaskIndex(tasks, id);
      tasks := tasks[k := tasks[k].(description := description)];
      assert DistinctTasks(tasks) by {
        forall i, j | 0 <= i < j < |tasks| ensures tasks[i].id != tasks[j].id && tasks[i].name != tasks[j].name {
          assert tasks[i].id == old(tasks)[i].id && tasks[i].name == old(tasks)[i].name;
          assert tasks[j].id == old(tasks)[j].id && tasks[j].name == old(tasks)[j].name;
        }
      }
    }

    /** Assign a record's start and end and commit; its duration is left as it was. */
    method UpdateRecordSpan(id: int, start: DateTime, end: DateTime)
      requires Valid() && HasRecord(records, id)
      modifies this
      ensures Valid() && tasks == old(tasks)
      ensures var k := RecordIndex(old(records), id);
        records == old(records)[k := old(records)[k].(start := start, end := end)]
    {
      var k := RecordIndex(records, id);
      records := records[k := records[k].(start := start, end := end)];
      assert DistinctRecords(records) by {
        forall i, j | 0 <= i < j < |records| ensures records[i].id != records[j].id {
          assert records[i].id == old(records)[i].id && records[j].id == old(records)[j].id;
        }
      }
    }
  }
}
