/**
 * The older `yatta edit task` and `yatta edit record` commands, which look
 * tasks up by name only and change at most one field per call.
 */
module LegacyEdit {
  import opened Wrappers
  import opened Store

  /**
   * `get_tasks(task_name).first()` of the older store wrapper: a non-empty
   * name selects by name, an empty one selects every task.
   */
  function LegacyFirst(ts: seq<Task>, taskName: string): (r: Option<Task>)
    ensures r.Some? ==> r.value in ts
    ensures r.Some? && taskName != "" ==> r.value.name == taskName
    ensures r.Some? && taskName == "" ==> r.value == ts[0]
    ensures r.None? <==> (if taskName == "" then ts == [] else !NameTaken(ts, taskName))
  {
    var m := SelectTasks(ts, if taskName == "" then AllTasks else TaskNamed(taskName));
    assert forall i :: 0 <= i < |ts| ==> ts[i] in ts;
    if m == [] then None else Some(m[0])
  }

  datatype LegacyTaskEdit = NoSuchTask | TagsSet | DescriptionSet | NothingSpecified

  /**
   * `edit task NAME [-t TAGS] [-d DESCRIPTION]`: non-empty tags win over a
   * description, a description alone is applied only when no tags are
   * given, and nothing else about the task or the records changes.
   */
  method EditTask(db: Database, taskName: string, tags: string, description: string)
    returns (outcome: LegacyTaskEdit)
    requires db.Valid()
    modifies db
    ensures db.Valid() && db.records == old(db.records)
    ensures outcome == NoSuchTask <==> LegacyFirst(old(db.tasks), taskName).None?
    ensures outcome == TagsSet <==> LegacyFirst(old(db.tasks), taskName).Some? && tags != ""
    ensures outcome == DescriptionSet <==>
      LegacyFirst(old(db.tasks), taskName).Some? && tags == "" && description != ""
    ensures outcome == NothingSpecified <==>
      LegacyFirst(old(db.tasks), taskName).Some? && tags == "" && description == ""
    ensures outcome == NoSuchTask || outcome == NothingSpecified ==> db.tasks == old(db.tasks)
    ensures outcome == TagsSet ==>
      var t := LegacyFirst(old(db.tasks), taskName).value;
      HasTask(old(db.tasks), t.id) &&
      db.tasks == old(db.tasks)[TaskIndex(old(db.tasks), t.id) := t.(tags := tags)]
    ensures outcome == DescriptionSet ==>
      var t := LegacyFirst(old(db.tasks), taskName).value;
      HasTask(old(db.tasks), t.id) &&
      db.tasks == old(db.tasks)[TaskIndex(old(db.tasks), t.id) := t.(description := description)]
  {
    var found := LegacyFirst(db.tasks, taskName);
    if found.None? {
      return NoSuchTask;
    }
    var t := found.value;
    TaskIndexOfMember(db.tasks, t);
    if tags != "" {
      db.SetTags(t.id, tags);
      outcome := TagsSet;
    } else if description != "" {
      db.SetDescription(t.id, description);
      outcome := DescriptionSet;
    } else {
      outcome := NothingSpecified;
    }
  }

  /**
   * `edit record RECORD_ID` only prints the id back; the store is passed in
   * and, having no `modifies` clause, is left as it was.
   */
  method EditRecord(db: Database, recordId: string) returns (printed: string)
    ensures printed == recordId + "\n"
  {
    printed := recordId + "\n";
  }
}
