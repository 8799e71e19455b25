/** The task value of the first version of the program. */
module LegacyTask {
  import opened Wrappers
  import opened Text
  import opened Timestamp

  /** A task before it is stored: a name, its details and an unset session. */
  datatype Task = Task(
    name: string,
    tags: string,
    description: string,
    start: Option<DateTime>,
    end: Option<DateTime>,
    duration: int)

  /**
   * `Task(name, tags='', description='')`: the name is kept lower-cased, and
   * a new task has neither start nor end and a zero duration.
   */
  function NewTask(name: string, tags: string := "", description: string := ""): (t: Task)
    ensures |t.name| == |name| && forall i :: 0 <= i < |name| ==> t.name[i] == LowerChar(name[i])
    ensures forall i :: 0 <= i < |t.name| ==> !('A' <= t.name[i] <= 'Z')
    ensures t.tags == tags && t.description == description
    ensures t.start.None? && t.end.None? && t.duration == 0
  {
    Task(Lower(name), tags, description, None, None, 0)
  }

  /** The defaults are empty strings. */
  lemma DefaultDetails(name: string)
    ensures NewTask(name).tags == "" && NewTask(name).description == ""
    ensures NewTask(name) == NewTask(name, "", "")
  {
  }

  /** Building a task from an existing task's name gives back that name. */
  lemma RenameFromNameKeepsIt(name: string, tags: string, description: string)
    ensures NewTask(NewTask(name).name, tags, description).name == NewTask(name).name
  {
    LowerIdempotent(name);
  }
}
