/**
 * `yatta delete tasks` and `yatta delete records`: each argument is looked
 * up the way the store's lookups decide between ids and names, and the rows
 * found are deleted one commit at a time.
 */
module DeleteCommands {
  import opened Wrappers
  import opened Text
  import opened Store

  /** Both tables, as values. */
  datatype Tables = Tables(tasks: seq<Task>, records: seq<Record>)

  predicate ValidTables(tb: Tables)
  {
    DistinctTasks(tb.tasks) && DistinctRecords(tb.records)
  }

  /**
   * The tables once the records `rq` finds are deleted, then task `t`
   * (whose remaining records lose their link to it).
   */
  function Purge(tb: Tables, t: Task, rq: RecordQuery): (after: Tables)
    requires HasTask(tb.tasks, t.id)
  {
    Tables(Without(tb.tasks, TaskIndex(tb.tasks, t.id)),
           Detach(DropIds(tb.records, IdsOf(SelectRecords(tb.records, rq))), t.id))
  }

  /** What one argument of `delete tasks` does. */
  datatype TaskStep =
    | LookupCrash              // "0": the lookup's assertion fails outside the try
    | TaskMissing              // message and `return`
    | TaskDeleted(after: Tables)

  /**
   * One pass of the `delete tasks` loop: the first task the argument finds,
   * after every record `get_records(task_name_or_id=arg)` finds.
   */
  function DeleteTaskStep(tb: Tables, arg: string): (s: TaskStep)
    requires ValidTables(tb)
    ensures s == LookupCrash <==> TaskLookup(Some(arg)).ZeroIdAssertion?
    ensures s == TaskMissing <==>
      !TaskLookup(Some(arg)).ZeroIdAssertion? && SelectTasks(tb.tasks, TaskLookup(Some(arg))) == []
    ensures s.TaskDeleted? ==> ValidTables(s.after) && |s.after.tasks| == |tb.tasks| - 1
  {
    var q := TaskLookup(Some(arg));
    if q.ZeroIdAssertion? then LookupCrash
    else
      var m := SelectTasks(tb.tasks, q);
      if m == [] then TaskMissing
      else
        TaskIndexOfMember(tb.tasks, m[0]);
        var after := Purge(tb, m[0], RecordLookup(None, Some(arg)));
        WithoutKeepsDistinctTasks(tb.tasks, TaskIndex(tb.tasks, m[0].id));
        DropKeepsDistinct(tb.records, IdsOf(SelectRecords(tb.records, RecordLookup(None, Some(arg)))));
        DetachKeepsDistinct(DropIds(tb.records, IdsOf(SelectRecords(tb.records, RecordLookup(None, Some(arg))))), m[0].id);
        TaskDeleted(after)
  }

  lemma DetachKeepsDistinct(rs: seq<Record>, id: int)
    requires DistinctRecords(rs)
    ensures DistinctRecords(Detach(rs, id))
  {
    var d := Detach(rs, id);
    forall i, j | 0 <= i < j < |d| ensures d[i].id != d[j].id {
      assert d[i].id == rs[i].id && d[j].id == rs[j].id;
    }
  }

  /** Removing the task at `k` removes its id and keeps every other task. */
  lemma WithoutRemovesOnlyIt(ts: seq<Task>, k: nat)
    requires DistinctTasks(ts) && k < |ts|
    ensures !HasTask(Without(ts, k), ts[k].id)
    ensures forall u :: u in ts && u.id != ts[k].id ==> u in Without(ts, k)
  {
    var r := Without(ts, k);
    forall i | 0 <= i < |r| ensures r[i].id != ts[k].id {
      assert r[i] == ts[if i < k then i else i + 1];
    }
    forall u | u in ts && u.id != ts[k].id ensures u in r {
      var i :| 0 <= i < |ts| && ts[i] == u;
      assert r[if i < k then i else i - 1] == u;
    }
  }

  /**
   * The records left by a purge: none the query finds, none linked to the
   * deleted task, and every other record as it was.
   */
  lemma PurgedRecords(rs: seq<Record>, rq: RecordQuery, id: int)
    requires DistinctRecords(rs)
    ensures var after := Detach(DropIds(rs, IdsOf(SelectRecords(rs, rq))), id);
      && (forall x :: x in after ==> !RecordMatches(rq, x) && x.taskId != Some(id))
      && (forall x :: x in rs && !RecordMatches(rq, x) && x.taskId != Some(id) ==> x in after)
  {
    var doomed := SelectRecords(rs, rq);
    var kept := DropIds(rs, IdsOf(doomed));
    var after := Detach(kept, id);
    IdsOfMembers(doomed);
    IdsOfOthers(rs, doomed);
    forall x | x in after ensures !RecordMatches(rq, x) && x.taskId != Some(id) {
      var i :| 0 <= i < |after| && after[i] == x;
      assert kept[i] in kept;
    }
    forall x | x in rs && !RecordMatches(rq, x) && x.taskId != Some(id) ensures x in after {
      assert x in kept;
      var i :| 0 <= i < |kept| && kept[i] == x;
      assert after[i] == x;
    }
  }

  lemma IdsOfMembers(rs: seq<Record>)
    ensures forall x :: x in rs ==> x.id in IdsOf(rs)
  {
    forall x | x in rs ensures x.id in IdsOf(rs) {
      var k :| 0 <= k < |rs| && rs[k] == x;
    }
  }

  /** In a table of distinct ids, a record whose id a subset holds is in it. */
  lemma IdsOfOthers(rs: seq<Record>, sub: seq<Record>)
    requires DistinctRecords(rs) && forall x :: x in sub ==> x in rs
    ensures forall x :: x in rs && x.id in IdsOf(sub) ==> x in sub
  {
    forall x | x in rs && x.id in IdsOf(sub) ensures x in sub {
      var j :| 0 <= j < |sub| && sub[j].id == x.id;
      assert sub[j] in rs;
      var a :| 0 <= a < |rs| && rs[a] == x;
      var b :| 0 <= b < |rs| && rs[b] == sub[j];
      assert a == b;
    }
  }

  /**
   * After a task is deleted, neither it nor any record the argument finds
   * remains, no record still points at it, and every other task and every
   * other record is still there.
   */
  lemma DeletedTaskLeavesNoTrace(tb: Tables, arg: string)
    requires ValidTables(tb) && DeleteTaskStep(tb, arg).TaskDeleted?
    ensures var t := SelectTasks(tb.tasks, TaskLookup(Some(arg)))[0];
      var rq := RecordLookup(None, Some(arg));
      var after := DeleteTaskStep(tb, arg).after;
      && !HasTask(after.tasks, t.id)
      && (forall u :: u in tb.tasks && u.id != t.id ==> u in after.tasks)
      && (forall x :: x in after.records ==> !RecordMatches(rq, x) && x.taskId != Some(t.id))
      && (forall x :: x in tb.records && !RecordMatches(rq, x) && x.taskId != Some(t.id) ==> x in after.records)
  {
    var t := SelectTasks(tb.tasks, TaskLookup(Some(arg)))[0];
    var rq := RecordLookup(None, Some(arg));
    TaskIndexOfMember(tb.tasks, t);
    assert DeleteTaskStep(tb, arg).after == Purge(tb, t, rq);
    WithoutRemovesOnlyIt(tb.tasks, TaskIndex(tb.tasks, t.id));
    PurgedRecords(tb.records, rq, t.id);
  }

  /** Why the loop over the arguments ended. */
  datatype Stop = Finished | Missing(at: nat) | Crashed(at: nat)

  datatype Run = Run(tables: Tables, stop: Stop)

  /** `delete tasks` on the arguments from `i` up to (not including) `n`. */
  function DeleteTasksFrom(tb: Tables, args: seq<string>, i: nat, n: nat): (r: Run)
    requires ValidTables(tb) && i <= n <= |args|
    ensures ValidTables(r.tables)
    ensures (r.stop.Missing? || r.stop.Crashed?) ==> i <= r.stop.at < n
    decreases n - i
  {
    if i == n then Run(tb, Finished)
    else match DeleteTaskStep(tb, args[i])
      case LookupCrash => Run(tb, Crashed(i))
      case TaskMissing => Run(tb, Missing(i))
      case TaskDeleted(after) => DeleteTasksFrom(after, args, i + 1, n)
  }

  /**
   * The first argument naming no task ends the command (`return`, not
   * `continue`): the tables are those the arguments before it leave, and
   * the later arguments are never looked at.
   */
  lemma {:induction false} MissingTaskStopsTheLoop(tb: Tables, args: seq<string>, i: nat)
    requires ValidTables(tb) && i <= |args|
    requires DeleteTasksFrom(tb, args, i, |args|).stop.Missing?
    ensures var r := DeleteTasksFrom(tb, args, i, |args|);
      && DeleteTaskStep(r.tables, args[r.stop.at]) == TaskMissing
      && DeleteTasksFrom(tb, args, i, r.stop.at) == Run(r.tables, Finished)
    decreases |args| - i, 1
  {
    if DeleteTaskStep(tb, args[i]).TaskDeleted? {
      MissingLater(tb, args, i);
    } else {
      MissingHere(tb, args, i);
    }
  }

  /** The argument at `i` names no task: the loop stops there, with nothing deleted. */
  lemma MissingHere(tb: Tables, args: seq<string>, i: nat)
    requires ValidTables(tb) && i < |args| && !DeleteTaskStep(tb, args[i]).TaskDeleted?
    requires DeleteTasksFrom(tb, args, i, |args|).stop.Missing?
    ensures DeleteTaskStep(tb, args[i]) == TaskMissing
    ensures DeleteTasksFrom(tb, args, i, |args|) == Run(tb, Missing(i))
    ensures DeleteTasksFrom(tb, args, i, i) == Run(tb, Finished)
  {
  }

  /** The argument at `i` deletes a task: the loop stops where the next pass stops. */
  lemma {:induction false} MissingLater(tb: Tables, args: seq<string>, i: nat)
    requires ValidTables(tb) && i < |args| && DeleteTaskStep(tb, args[i]).TaskDeleted?
    requires DeleteTasksFrom(tb, args, i, |args|).stop.Missing?
    ensures var r := DeleteTasksFrom(tb, args, i, |args|);
      && DeleteTaskStep(r.tables, args[r.stop.at]) == TaskMissing
      && DeleteTasksFrom(tb, args, i, r.stop.at) == Run(r.tables, Finished)
    decreases |args| - i, 0
  {
    var after := DeleteTaskStep(tb, args[i]).after;
    StepOn(tb, args, i, |args|);
    MissingTaskStopsTheLoop(after, args, i + 1);
    StepOn(tb, args, i, DeleteTasksFrom(after, args, i + 1, |args|).stop.at);
  }

  /** A deleted task hands the remaining arguments on to the next pass. */
  lemma StepOn(tb: Tables, args: seq<string>, i: nat, n: nat)
    requires ValidTables(tb) && i < n <= |args| && DeleteTaskStep(tb, args[i]).TaskDeleted?
    ensures DeleteTasksFrom(tb, args, i, n) == DeleteTasksFrom(DeleteTaskStep(tb, args[i]).after, args, i + 1, n)
  {
  }

  /** The ids of a prefix grow by one record at a time. */
  lemma IdsOfPrefix(rs: seq<Record>, j: nat)
    requires j < |rs|
    ensures IdsOf(rs[..j + 1]) == IdsOf(rs[..j]) + {rs[j].id}
  {
    assert rs[..j + 1][..j] == rs[..j];
  }

  /** The next record to delete is still in the table. */
  lemma NextStillThere(r0: seq<Record>, doomed: seq<Record>, j: nat)
    requires DistinctRecords(doomed) && j < |doomed|
    requires forall x :: x in doomed ==> x in r0
    ensures HasRecord(DropIds(r0, IdsOf(doomed[..j])), doomed[j].id)
  {
    var r := doomed[j];
    assert r in r0;
    forall k | 0 <= k < j ensures doomed[..j][k].id != r.id {
      assert doomed[..j][k] == doomed[k];
    }
    var rest := DropIds(r0, IdsOf(doomed[..j]));
    assert r in rest;
    var i :| 0 <= i < |rest| && rest[i] == r;
  }

  /** Deletes the given records, one commit each. */
  method DeleteEach(db: Database, doomed: seq<Record>)
    requires db.Valid() && DistinctRecords(doomed)
    requires forall x :: x in doomed ==> x in db.records
    modifies db
    ensures db.Valid() && db.tasks == old(db.tasks)
    ensures db.records == DropIds(old(db.records), IdsOf(doomed))
  {
    ghost var r0 := db.records;
    DropNothing(r0);
    assert doomed[..0] == [];
    var j := 0;
    while j < |doomed|
      invariant 0 <= j <= |doomed| && db.Valid() && db.tasks == old(db.tasks)
      invariant db.records == DropIds(r0, IdsOf(doomed[..j]))
    {
      NextStillThere(r0, doomed, j);
      db.DeleteRecord(doomed[j].id);
      DropIdsTwice(r0, IdsOf(doomed[..j]), {doomed[j].id});
      IdsOfPrefix(doomed, j);
      j := j + 1;
    }
    assert doomed[..j] == doomed;
  }

  /**
   * Deletes the records `rq` finds, then task `t`. (The deletes cannot fail
   * here, so the `except` branch has nothing to undo.)
   */
  method DeleteTaskAndRecords(db: Database, t: Task, rq: RecordQuery)
    requires db.Valid() && HasTask(db.tasks, t.id)
    modifies db
    ensures db.Valid()
    ensures Tables(db.tasks, db.records) == Purge(Tables(old(db.tasks), old(db.records)), t, rq)
  {
    var doomed := SelectRecords(db.records, rq);
    SelectKeepsDistinct(db.records, rq);
    DeleteEach(db, doomed);
    db.DeleteTask(t.id);
  }

  /** `delete tasks NAME_OR_ID...`, argument by argument. */
  method DeleteTasks(db: Database, args: seq<string>) returns (stop: Stop)
    requires db.Valid()
    modifies db
    ensures db.Valid()
    ensures DeleteTasksFrom(Tables(old(db.tasks), old(db.records)), args, 0, |args|) == Run(Tables(db.tasks, db.records), stop)
  {
    ghost var start := Tables(db.tasks, db.records);
    var i := 0;
    while i < |args|
      invariant 0 <= i <= |args| && db.Valid()
      invariant DeleteTasksFrom(Tables(db.tasks, db.records), args, i, |args|) == DeleteTasksFrom(start, args, 0, |args|)
    {
      var q := TaskLookup(Some(args[i]));
      if q.ZeroIdAssertion? {
        return Crashed(i);
      }
      var m := SelectTasks(db.tasks, q);
      if m == [] {
        return Missing(i);
      }
      TaskIndexOfMember(db.tasks, m[0]);
      DeleteTaskAndRecords(db, m[0], RecordLookup(None, Some(args[i])));
      i := i + 1;
    }
    return Finished;
  }

  /**
   * One pass of the `delete records` loop: the first record the argument
   * finds is deleted; when there is none, deleting None raises, is rolled
   * back, and nothing changes.
   */
  function DeleteRecordStep(rs: seq<Record>, arg: string): (r: seq<Record>)
    ensures forall x :: x in r ==> x in rs
  {
    var m := SelectRecords(rs, RecordLookup(Some(arg), None));
    if m == [] then rs else DropIds(rs, {m[0].id})
  }

  /**
   * Each argument deletes exactly the first record it finds, or nothing
   * when it finds none.
   */
  lemma DeleteRecordStepRemovesOne(rs: seq<Record>, arg: string)
    requires DistinctRecords(rs)
    ensures var m := SelectRecords(rs, RecordLookup(Some(arg), None));
      var r := DeleteRecordStep(rs, arg);
      && DistinctRecords(r)
      && (m == [] ==> r == rs)
      && (m != [] ==> |r| == |rs| - 1 && m[0] !in r && forall x :: x in rs && x != m[0] ==> x in r)
  {
    var m := SelectRecords(rs, RecordLookup(Some(arg), None));
    if m != [] {
      RecordIndexOfMember(rs, m[0]);
      var k := RecordIndex(rs, m[0].id);
      WithoutIsDrop(rs, k);
      WithoutKeepsDistinctRecords(rs, k);
      forall x | x in rs && x != m[0] ensures x.id != m[0].id {
        var i :| 0 <= i < |rs| && rs[i] == x;
      }
    }
  }

  /** `delete records` over the first `|args|` arguments. */
  function DeleteRecordsRun(rs: seq<Record>, args: seq<string>): (r: seq<Record>)
    ensures forall x :: x in r ==> x in rs
  {
    if args == [] then rs
    else DeleteRecordStep(DeleteRecordsRun(rs, args[..|args| - 1]), args[|args| - 1])
  }

  /** Each argument removes at most one record, so `n` ids remove at most `n`. */
  lemma {:induction false} DeleteRecordsRunBound(rs: seq<Record>, args: seq<string>)
    requires DistinctRecords(rs)
    ensures var r := DeleteRecordsRun(rs, args);
      DistinctRecords(r) && |rs| - |args| <= |r| <= |rs|
    decreases |args|
  {
    if args != [] {
      var init := args[..|args| - 1];
      DeleteRecordsRunBound(rs, init);
      DeleteRecordStepRemovesOne(DeleteRecordsRun(rs, init), args[|args| - 1]);
    }
  }

  /** A numeric id deletes exactly the record with that id, if there is one. */
  lemma NumericIdDeletesThatRecord(rs: seq<Record>, arg: string, n: int)
    requires DistinctRecords(rs) && ParseInt(arg) == Some(n)
    ensures forall x :: x in DeleteRecordStep(rs, arg) <==> x in rs && x.id != n
  {
    var m := SelectRecords(rs, RecordLookup(Some(arg), None));
    assert RecordLookup(Some(arg), None) == RecordWithId(n);
    if m == [] {
      forall x | x in rs ensures x.id != n {
        assert x !in m;
      }
    } else {
      assert m[0] in m;
    }
  }

  /**
   * An id `int()` refuses, or an empty one, falls back to every record, so
   * the first record of the table is deleted.
   */
  lemma NonNumericIdDeletesFirstRecord(rs: seq<Record>, arg: string)
    requires rs != [] && ParseInt(arg).None?
    ensures DeleteRecordStep(rs, arg) == DropIds(rs, {rs[0].id})
  {
  }

  /** One pass of the `delete records` loop on the store. */
  method DeleteFirstMatch(db: Database, arg: string)
    requires db.Valid()
    modifies db
    ensures db.Valid() && db.tasks == old(db.tasks)
    ensures db.records == DeleteRecordStep(old(db.records), arg)
  {
    var m := SelectRecords(db.records, RecordLookup(Some(arg), None));
    if m != [] {
      RecordIndexOfMember(db.records, m[0]);
      db.DeleteRecord(m[0].id);
    }
  }

  /**
   * `delete records ID...`: each argument on its own, a missing one changing
   * nothing; the tasks, and so their totals, are left as they were.
   */
  method DeleteRecords(db: Database, args: seq<string>)
    requires db.Valid()
    modifies db
    ensures db.Valid() && db.tasks == old(db.tasks)
    ensures db.records == DeleteRecordsRun(old(db.records), args)
  {
    ghost var r0 := db.records;
    var i := 0;
    while i < |args|
      invariant 0 <= i <= |args| && db.Valid() && db.tasks == old(db.tasks)
      invariant db.records == DeleteRecordsRun(r0, args[..i])
    {
      DeleteFirstMatch(db, args[i]);
      assert args[..i + 1][..i] == args[..i];
      i := i + 1;
    }
    assert args[..i] == args;
  }
}
