/**
 * The tracking daemon's life cycle, seen through the two files it keeps in
 * the cache directory: the pidfile ("already running") and the
 * `active_task` file (the live session, rewritten every second). Processes,
 * signals and the clock are inputs: `os.getpid()` is a parameter, the
 * replies to successive `os.kill` calls are a sequence, and the clock
 * readings of the stopwatch are a sequence of timestamps.
 */
module Lifecycle {
  import opened Wrappers
  import opened Text
  import opened Timestamp
  import Duration
  import opened ActiveTask
  import opened Store

  /** The files `yatta.pid` and `active_task`; None when the file is absent. */
  class CacheDir {
    var pidFile: Option<string>
    var activeTask: Option<string>

    constructor (pidFile: Option<string>, activeTask: Option<string>)
      ensures this.pidFile == pidFile && this.activeTask == activeTask
    {
      this.pidFile := pidFile;
      this.activeTask := activeTask;
    }
  }

  /** What `int(pf.read().strip())` makes of the pidfile. */
  datatype PidRead =
    | NoPidFile       // IOError: pid = None
    | Pid(pid: int)
    | Garbled         // ValueError, which nothing catches

  function ReadPid(file: Option<string>): (r: PidRead)
    ensures file.None? <==> r.NoPidFile?
    ensures r.Garbled? <==> file.Some? && ParseInt(Strip(file.value)).None?
    ensures r.Pid? ==> ParseInt(Strip(file.value)) == Some(r.pid)
  {
    match file
    case None => NoPidFile
    case Some(text) =>
      match ParseInt(Strip(text))
      case Some(pid) => Pid(pid)
      case None => Garbled
  }

  /** A pidfile naming a process: the `if pid:` test in start and stop. */
  predicate Running(file: Option<string>)
  {
    ReadPid(file).Pid? && ReadPid(file).pid != 0
  }

  /** What `daemonize` writes: the daemon's own pid and a newline. */
  function PidFileText(pid: int): string
  {
    IntStr(pid) + "\n"
  }

  /** The pidfile `daemonize` writes reads back as the daemon's pid. */
  lemma PidFileReadsBack(pid: int)
    ensures ReadPid(Some(PidFileText(pid))) == Pid(pid)
  {
    var s := IntStr(pid);
    var t := s + "\n";
    assert !IsSpace(t[0]) by { assert t[0] == s[0]; }
    assert StripLeft(t) == t;
    assert t[..|t| - 1] == s;
    assert StripRight(t) == StripRight(s);
    StripKeeps(s);
    assert Strip(t) == s;
    IntStrParsesBack(pid);
  }

  /** Once a daemon with a positive pid has written its pidfile, every start is refused. */
  lemma MutualExclusion(pid: int)
    requires pid > 0
    ensures Running(Some(PidFileText(pid)))
  {
    PidFileReadsBack(pid);
  }

  datatype StartOutcome =
    | AlreadyRunning  // message and `sys.exit(1)`
    | StartCrashed    // the pidfile holds something `int()` refuses
    | Daemonized

  /**
   * `Daemon.start` up to `run()`: refuse while the pidfile names a process,
   * otherwise detach and write the pidfile.
   */
  method Start(dir: CacheDir, ownPid: int) returns (o: StartOutcome)
    modifies dir
    ensures o == AlreadyRunning <==> Running(old(dir.pidFile))
    ensures o == StartCrashed <==> ReadPid(old(dir.pidFile)).Garbled?
    ensures dir.pidFile == if o == Daemonized then Some(PidFileText(ownPid)) else old(dir.pidFile)
    ensures dir.activeTask == old(dir.activeTask)
  {
    match ReadPid(dir.pidFile) {
      case Garbled =>
        return StartCrashed;
      case Pid(pid) =>
        if pid != 0 {
          return AlreadyRunning;
        }
      case NoPidFile =>
    }
    dir.pidFile := Some(PidFileText(ownPid));
    o := Daemonized;
  }

  /** The outcome of one `os.kill(pid, SIGTERM)`. */
  datatype KillReply = Delivered | NoSuchProcess | OtherError

  /** The signalled process goes away at some point (or the kill fails otherwise). */
  predicate Ends(replies: seq<KillReply>)
  {
    exists i :: 0 <= i < |replies| && replies[i] != Delivered
  }

  /** The `os.kill` call whose OSError ends the loop. */
  function FirstFailure(replies: seq<KillReply>): (k: nat)
    requires Ends(replies)
    ensures k < |replies| && replies[k] != Delivered
    ensures forall j :: 0 <= j < k ==> replies[j] == Delivered
  {
    if replies[0] != Delivered then 0
    else
      assert replies[1..] != [] && Ends(replies[1..]) by {
        var i :| 0 <= i < |replies| && replies[i] != Delivered;
        assert replies[1..][i - 1] == replies[i];
      }
      FirstFailure(replies[1..]) + 1
  }

  datatype StopOutcome =
    | NotRunning   // message and a normal return
    | Stopped      // "No such process": the pidfile is removed
    | KillFailed   // any other OSError: `sys.exit(1)`
    | StopCrashed  // the pidfile holds something `int()` refuses

  /** What `Daemon.stop` decides, given the pidfile and the kill replies. */
  function StopVerdict(file: Option<string>, replies: seq<KillReply>): (o: StopOutcome)
    requires Running(file) ==> Ends(replies)
    ensures o == NotRunning <==> file.None? || ReadPid(file) == Pid(0)
    ensures o == StopCrashed <==> ReadPid(file).Garbled?
    ensures o == Stopped <==> Running(file) && replies[FirstFailure(replies)] == NoSuchProcess
    ensures o == KillFailed <==> Running(file) && replies[FirstFailure(replies)] == OtherError
  {
    var r := ReadPid(file);
    if r.NoPidFile? || r == Pid(0) then NotRunning
    else if r.Garbled? then StopCrashed
    else
      match replies[FirstFailure(replies)]
      case NoSuchProcess => Stopped
      case OtherError => KillFailed
  }

  /**
   * The `while 1: os.kill(pid, SIGTERM)` loop: it signals until a kill
   * fails and returns the number of signals sent.
   */
  method KillUntilGone(replies: seq<KillReply>) returns (signals: nat)
    requires Ends(replies)
    ensures signals == FirstFailure(replies) + 1
  {
    ghost var k := FirstFailure(replies);
    var i := 0;
    while replies[i] == Delivered
      invariant 0 <= i <= k
      decreases k - i
    {
      i := i + 1;
    }
    signals := i + 1;
  }

  /**
   * `Daemon.stop`: with no pid to signal it returns quietly ("not an error
   * in a restart"); otherwise it sends SIGTERM until a kill fails, and then
   * removes the pidfile if the process is gone or exits with status 1.
   * `signals` is the number of `os.kill` calls made.
   */
  method Stop(dir: CacheDir, replies: seq<KillReply>) returns (o: StopOutcome, signals: nat)
    requires Running(dir.pidFile) ==> Ends(replies)
    modifies dir
    ensures o == StopVerdict(old(dir.pidFile), replies)
    ensures signals == if Running(old(dir.pidFile)) then FirstFailure(replies) + 1 else 0
    ensures dir.pidFile == if o == Stopped then None else old(dir.pidFile)
    ensures dir.activeTask == old(dir.activeTask)
  {
    o, signals := Signal(dir.pidFile, replies);
    if o == Stopped {
      dir.pidFile := None;
    }
  }

  /** The decisions and the kill loop of `Daemon.stop`, before the pidfile is touched. */
  method Signal(file: Option<string>, replies: seq<KillReply>) returns (o: StopOutcome, signals: nat)
    requires Running(file) ==> Ends(replies)
    ensures o == StopVerdict(file, replies)
    ensures signals == if Running(file) then FirstFailure(replies) + 1 else 0
  {
    var read := ReadPid(file);
    if read.NoPidFile? || read == Pid(0) {
      return NotRunning, 0;
    } else if read.Garbled? {
      return StopCrashed, 0;
    }
    signals := KillUntilGone(replies);
    if replies[signals - 1] == NoSuchProcess {
      o := Stopped;
    } else {
      o := KillFailed;
    }
  }

  /**
   * `Daemon.restart`: `stop` then `start`. When `stop` ends the program
   * (exit or crash) `start` never runs; otherwise the new daemon always
   * starts, since stop leaves no pidfile naming a process.
   */
  method Restart(dir: CacheDir, replies: seq<KillReply>, ownPid: int)
    returns (stopped: StopOutcome, started: Option<StartOutcome>)
    requires Running(dir.pidFile) ==> Ends(replies)
    modifies dir
    ensures stopped == StopVerdict(old(dir.pidFile), replies)
    ensures started.None? <==> stopped == KillFailed || stopped == StopCrashed
    ensures started.Some? ==> started.value == Daemonized && dir.pidFile == Some(PidFileText(ownPid))
    ensures started.None? ==> dir.pidFile == old(dir.pidFile)
    ensures dir.activeTask == old(dir.activeTask)
  {
    var signals;
    stopped, signals := Stop(dir, replies);
    if stopped == KillFailed || stopped == StopCrashed {
      return stopped, None;
    }
    var o := Start(dir, ownPid);
    started := Some(o);
  }

  // ---------------------------------------------------------- stopwatch

  /** The session one stopwatch tick at clock reading `now` describes. */
  function TickSession(taskName: string, start: DateTime, now: DateTime): (s: Session)
    requires Valid(start) && Valid(now)
    ensures s.start == start && s.end == now && s.taskName == taskName
    ensures 0 <= s.duration < 86400
  {
    Session(start, now, Subtract(now, start).seconds, taskName)
  }

  /** The `active_task` text that describes session `s`. */
  function FileText(s: Session): string
    requires Valid(s.start) && Valid(s.end)
  {
    Serialize(s.taskName, s.start, s.end, s.duration)
  }

  /**
   * A tick reads back as the session it describes: from the captured start
   * to `now`, lasting the seconds part of the elapsed time.
   */
  lemma TickReadsBack(taskName: string, start: DateTime, now: DateTime)
    requires Valid(start) && Valid(now)
    requires start.microsecond != 0 && now.microsecond != 0
    requires '\n' !in taskName && '\r' !in taskName
    ensures Read(Some(FileText(TickSession(taskName, start, now)))) == Loaded(TickSession(taskName, start, now))
  {
    ReadWhatWasWritten(taskName, start, now, Subtract(now, start).seconds);
  }

  /** After a day and five seconds of tracking the file says five seconds. */
  lemma TickForgetsWholeDays(taskName: string, start: DateTime, now: DateTime)
    requires Valid(start) && Valid(now)
    requires Micros(now) - Micros(start) == (86400 + 5) * 1000000
    ensures TickSession(taskName, start, now).duration == 5
  {
    SecondsDropWholeDays(now, start, 5);
  }

  predicate AllValid(nows: seq<DateTime>)
  {
    forall k :: 0 <= k < |nows| ==> Valid(nows[k])
  }

  /** The sessions the stopwatch describes, one per clock reading, in order. */
  function Ticks(taskName: string, start: DateTime, nows: seq<DateTime>): (ticks: seq<Session>)
    requires Valid(start) && AllValid(nows)
    ensures |ticks| == |nows|
  {
    if nows == [] then []
    else Ticks(taskName, start, nows[..|nows| - 1]) + [TickSession(taskName, start, nows[|nows| - 1])]
  }

  /** Tick k runs from the one captured start to the k-th clock reading. */
  lemma {:induction false} TicksAt(taskName: string, start: DateTime, nows: seq<DateTime>, k: nat)
    requires Valid(start) && AllValid(nows) && k < |nows|
    ensures Ticks(taskName, start, nows)[k] == TickSession(taskName, start, nows[k])
    decreases |nows|
  {
    if k < |nows| - 1 {
      var prefix := nows[..|nows| - 1];
      assert prefix[k] == nows[k];
      TicksAt(taskName, start, prefix, k);
    }
  }

  lemma TicksStep(taskName: string, start: DateTime, nows: seq<DateTime>, i: nat)
    requires Valid(start) && AllValid(nows) && i < |nows|
    ensures Ticks(taskName, start, nows[..i + 1]) ==
            Ticks(taskName, start, nows[..i]) + [TickSession(taskName, start, nows[i])]
  {
    assert nows[..i + 1][..i] == nows[..i];
  }

  /** One pass of the stopwatch loop: `_write_tmp_info` with the elapsed `.seconds`. */
  method WriteTick(dir: CacheDir, taskName: string, start: DateTime, now: DateTime) returns (tick: Session)
    requires Valid(start) && Valid(now)
    modifies dir
    ensures tick == TickSession(taskName, start, now)
    ensures dir.activeTask == Some(FileText(tick)) && dir.pidFile == old(dir.pidFile)
  {
    var duration := Subtract(now, start).seconds;
    tick := Session(start, now, duration, taskName);
    dir.activeTask := Some(Serialize(taskName, start, now, duration));
  }

  /** What the active_task file holds once the ticks at `nows` have run. */
  function Written(before: Option<string>, taskName: string, start: DateTime, nows: seq<DateTime>): Option<string>
    requires Valid(start) && AllValid(nows)
  {
    if nows == [] then before else Some(FileText(TickSession(taskName, start, nows[|nows| - 1])))
  }

  /**
   * Ticks `0..i` of the stopwatch loop: the ticks so far and the file they
   * leave, extended by tick `i`.
   */
  method NextTick(dir: CacheDir, taskName: string, start: DateTime, nows: seq<DateTime>, i: nat,
                  ticks: seq<Session>, ghost before: Option<string>)
    returns (ticks': seq<Session>)
    requires Valid(start) && AllValid(nows) && i < |nows|
    requires ticks == Ticks(taskName, start, nows[..i])
    modifies dir
    ensures ticks' == Ticks(taskName, start, nows[..i + 1])
    ensures dir.activeTask == Written(before, taskName, start, nows[..i + 1])
    ensures dir.pidFile == old(dir.pidFile)
  {
    var tick := WriteTick(dir, taskName, start, nows[i]);
    ticks' := ticks + [tick];
    TicksStep(taskName, start, nows, i);
    assert nows[..i + 1][i] == nows[i];
  }

  /**
   * `stopwatch(taskname)` over the clock readings `nows` (the loop itself
   * never ends; the model runs it for as many ticks as there are readings).
   * The start is captured once, and each tick overwrites the file with the
   * text of its session, so the file holds the last tick.
   */
  method Stopwatch(dir: CacheDir, taskName: string, start: DateTime, nows: seq<DateTime>)
    returns (ticks: seq<Session>)
    requires Valid(start) && AllValid(nows)
    modifies dir
    ensures ticks == Ticks(taskName, start, nows)
    ensures dir.activeTask == Written(old(dir.activeTask), taskName, start, nows)
    ensures dir.pidFile == old(dir.pidFile)
  {
    ghost var before := dir.activeTask;
    ticks := [];
    var i := 0;
    while i < |nows|
      invariant 0 <= i <= |nows|
      invariant ticks == Ticks(taskName, start, nows[..i])
      invariant dir.activeTask == Written(before, taskName, start, nows[..i])
      invariant dir.pidFile == old(dir.pidFile)
    {
      ticks := NextTick(dir, taskName, start, nows, i, ticks, before);
      i := i + 1;
    }
    assert nows[..i] == nows;
  }

  /**
   * `daemon_start(taskname)`: `start`, whose `run()` is the stopwatch, which
   * reads the clock once for its start and once per tick.
   */
  method DaemonStart(dir: CacheDir, ownPid: int, taskName: string, start: DateTime, nows: seq<DateTime>)
    returns (o: StartOutcome)
    requires Valid(start) && AllValid(nows)
    modifies dir
    ensures o == AlreadyRunning <==> Running(old(dir.pidFile))
    ensures o == StartCrashed <==> ReadPid(old(dir.pidFile)).Garbled?
    ensures o != Daemonized ==> dir.pidFile == old(dir.pidFile) && dir.activeTask == old(dir.activeTask)
    ensures o == Daemonized ==> dir.pidFile == Some(PidFileText(ownPid))
    ensures o == Daemonized && nows != [] ==>
      dir.activeTask == Some(FileText(TickSession(taskName, start, nows[|nows| - 1])))
  {
    o := Start(dir, ownPid);
    if o == Daemonized {
      var ticks := Stopwatch(dir, taskName, start, nows);
    }
  }

  // ------------------------------------------------------------ finishing

  datatype FinishOutcome =
    | StopEnded(stop: StopOutcome)            // stop exited or crashed first
    | NothingTracked                         // no active_task file
    | FinishCrashed                          // unreadable file, or no task to attach to
    | Recorded(taskId: int, recordId: int)

  /**
   * `daemon_stop()`: stop the daemon, read the session, attach one record to
   * the task it names, refresh that task's total, and only then remove the
   * `active_task` file.
   */
  method DaemonStop(dir: CacheDir, db: Database, replies: seq<KillReply>) returns (o: FinishOutcome)
    requires db.Valid()
    requires Running(dir.pidFile) ==> Ends(replies)
    modifies dir, db
    ensures db.Valid()
    ensures o.StopEnded? <==> StopVerdict(old(dir.pidFile), replies) in {KillFailed, StopCrashed}
    ensures o.StopEnded? ==> o.stop == StopVerdict(old(dir.pidFile), replies)
    ensures dir.pidFile == if StopVerdict(old(dir.pidFile), replies) == Stopped then None else old(dir.pidFile)
    ensures o == NothingTracked <==> !o.StopEnded? && old(dir.activeTask).None?
    ensures o.Recorded? <==>
      && StopVerdict(old(dir.pidFile), replies) !in {KillFailed, StopCrashed}
      && Read(old(dir.activeTask)).Loaded?
      && SelectTasks(old(db.tasks), TaskLookup(Some(Read(old(dir.activeTask)).session.taskName))) != []
    ensures !o.Recorded? ==> dir.activeTask == old(dir.activeTask)
    ensures !o.Recorded? ==> db.tasks == old(db.tasks) && db.records == old(db.records)
    ensures o.Recorded? ==> dir.activeTask == None
    ensures o.Recorded? ==> Read(old(dir.activeTask)).Loaded?
    ensures o.Recorded? ==> (
      var s := Read(old(dir.activeTask)).session;
      && db.records == old(db.records) + [Record(o.recordId, s.taskName, Some(o.taskId), s.start, s.end, s.duration)]
      && HasTask(old(db.tasks), o.taskId)
      && TaskMatches(TaskLookup(Some(s.taskName)), old(db.tasks)[TaskIndex(old(db.tasks), o.taskId)]))
    ensures o.Recorded? ==>
      o.taskId == SelectTasks(old(db.tasks), TaskLookup(Some(Read(old(dir.activeTask)).session.taskName)))[0].id
    ensures o.Recorded? ==> (
      var k := TaskIndex(old(db.tasks), o.taskId);
      && db.tasks == old(db.tasks)[k := old(db.tasks)[k].(total := TotalQuery(old(db.tasks), db.records, old(db.tasks)[k].name))]
      && db.tasks[k].total == Some(SumDurations(db.records)))
  {
    var stopped, signals := Stop(dir, replies);
    if stopped == KillFailed || stopped == StopCrashed {
      return StopEnded(stopped);
    }
    o := Persist(dir, db);
  }

  /**
   * The part of `daemon_stop()` after the daemon is gone: the session file
   * is read, its record stored, and the file removed last.
   */
  method Persist(dir: CacheDir, db: Database) returns (o: FinishOutcome)
    requires db.Valid()
    modifies dir, db
    ensures db.Valid() && dir.pidFile == old(dir.pidFile) && !o.StopEnded?
    ensures o == NothingTracked <==> old(dir.activeTask).None?
    ensures o.Recorded? <==>
      && Read(old(dir.activeTask)).Loaded?
      && SelectTasks(old(db.tasks), TaskLookup(Some(Read(old(dir.activeTask)).session.taskName))) != []
    ensures !o.Recorded? ==> dir.activeTask == old(dir.activeTask)
    ensures !o.Recorded? ==> db.tasks == old(db.tasks) && db.records == old(db.records)
    ensures o.Recorded? ==> dir.activeTask == None
    ensures o.Recorded? ==> Read(old(dir.activeTask)).Loaded?
    ensures o.Recorded? ==> (
      var s := Read(old(dir.activeTask)).session;
      && db.records == old(db.records) + [Record(o.recordId, s.taskName, Some(o.taskId), s.start, s.end, s.duration)]
      && HasTask(old(db.tasks), o.taskId)
      && TaskMatches(TaskLookup(Some(s.taskName)), old(db.tasks)[TaskIndex(old(db.tasks), o.taskId)]))
    ensures o.Recorded? ==>
      o.taskId == SelectTasks(old(db.tasks), TaskLookup(Some(Read(old(dir.activeTask)).session.taskName)))[0].id
    ensures o.Recorded? ==> (
      var k := TaskIndex(old(db.tasks), o.taskId);
      && db.tasks == old(db.tasks)[k := old(db.tasks)[k].(total := TotalQuery(old(db.tasks), db.records, old(db.tasks)[k].name))]
      && db.tasks[k].total == Some(SumDurations(db.records)))
  {
    var read := Read(dir.activeTask);
    if read.NotFound? {
      return NothingTracked;
    }
    if read.Malformed? {
      return FinishCrashed;
    }
    var s := read.session;
    var matches := SelectTasks(db.tasks, TaskLookup(Some(s.taskName)));
    if matches == [] {
      return FinishCrashed;
    }
    var taskId, recordId := RecordSession(db, matches[0], s);
    dir.activeTask := None;
    o := Recorded(taskId, recordId);
  }

  /** `add_record(task, record)` for a stored task, then `update_task_total(task)`. */
  method RecordSession(db: Database, task: Task, s: Session) returns (taskId: int, recordId: int)
    requires db.Valid() && task in db.tasks
    modifies db
    ensures db.Valid() && taskId == task.id
    ensures HasTask(old(db.tasks), taskId) && old(db.tasks)[TaskIndex(old(db.tasks), taskId)] == task
    ensures db.records == old(db.records) + [Record(recordId, s.taskName, Some(taskId), s.start, s.end, s.duration)]
    ensures var k := TaskIndex(old(db.tasks), taskId);
      && db.tasks == old(db.tasks)[k := old(db.tasks)[k].(total := TotalQuery(old(db.tasks), db.records, old(db.tasks)[k].name))]
      && db.tasks[k].total == Some(SumDurations(db.records))
  {
    TaskIndexOfMember(db.tasks, task);
    var added := db.AddRecord(Persisted(task.id), RecordFields(s.taskName, s.start, s.end, s.duration));
    db.UpdateTaskTotal(task.id);
    TotalIsWholeTableSum(old(db.tasks), db.records, TaskIndex(old(db.tasks), task.id));
    taskId, recordId := added.taskId, added.recordId;
  }

  /** What `daemon_status()` prints, or its crash. */
  datatype Status =
    | NotTracking
    | Tracking(taskName: string, start: DateTime, current: DateTime, elapsed: string)
    | StatusCrashed   // pidfile without a readable active_task file

  /**
   * `daemon_status()`: the session is read only when the pidfile exists; a
   * pidfile left without an `active_task` file is not handled.
   */
  function DaemonStatus(pidFile: Option<string>, activeTask: Option<string>): (st: Status)
    ensures pidFile.None? <==> st.NotTracking?
    ensures st.StatusCrashed? <==> pidFile.Some? && !Read(activeTask).Loaded?
    ensures st.Tracking? ==> Read(activeTask).Loaded?
    ensures st.Tracking? ==> (
      && st.taskName == Read(activeTask).session.taskName
      && st.start == Read(activeTask).session.start
      && st.current == Read(activeTask).session.end)
    ensures st.Tracking? ==> st.elapsed == Duration.TimePrint(Read(activeTask).session.duration)
  {
    if pidFile.None? then NotTracking
    else match Read(activeTask)
      case Loaded(s) => Tracking(s.taskName, s.start, s.end, Duration.TimePrint(s.duration))
      case _ => StatusCrashed
  }

  /** While the stopwatch runs, the status shows its latest tick. */
  lemma StatusShowsLatestTick(pid: int, taskName: string, start: DateTime, now: DateTime)
    requires Valid(start) && Valid(now)
    requires start.microsecond != 0 && now.microsecond != 0
    requires '\n' !in taskName && '\r' !in taskName
    ensures DaemonStatus(Some(PidFileText(pid)), Some(FileText(TickSession(taskName, start, now)))) ==
            Tracking(taskName, start, now, Duration.TimePrint(TickSession(taskName, start, now).duration))
  {
    TickReadsBack(taskName, start, now);
  }

  /** A pidfile whose `active_task` file is gone makes the status crash. */
  lemma StalePidFileCrashesStatus(pid: int)
    ensures DaemonStatus(Some(PidFileText(pid)), None) == StatusCrashed
  {
  }

  /** A tick taken on a whole second cannot be read back, by status or by stop. */
  lemma WholeSecondTickUnreadable(taskName: string, start: DateTime, now: DateTime)
    requires Valid(start) && Valid(now) && (start.microsecond == 0 || now.microsecond == 0)
    requires '\n' !in taskName && '\r' !in taskName
    ensures Read(Some(FileText(TickSession(taskName, start, now)))) == Malformed
  {
    if start.microsecond == 0 {
      WholeSecondStartUnreadable(taskName, start, now, Subtract(now, start).seconds);
    } else {
      WholeSecondEndUnreadable(taskName, start, now, Subtract(now, start).seconds);
    }
  }
}
