# yatta, modelled in Dafny

yatta ("yet another time tracking app") is a command-line time tracker.
`yatta start TASK` launches a background daemon. The daemon writes its pid to a
pidfile and runs a stopwatch. Every second, the stopwatch overwrites an
`active_task` file with the session so far: start, current time, elapsed
seconds, task name and the elapsed time as "HH:MM:SS". `yatta stop` signals
the daemon until it is gone. It then reads the session back and stores it as
a record of its task in an SQLite database, refreshes the task's total and
removes the `active_task` file. `yatta status` reports from the same two
files. Tasks and records can be edited and deleted from the command line,
and shell completion offers task names, figlet fonts and table formats. An
older generation of the program, still in the repository, shows a curses
stopwatch that stops on `q`. It keeps a CSV timesheet and has a task value
with a lower-cased name.

The project models that core:

- `text.dfy` (module `Text`): the string primitives the program relies on:
  `str(int)`, `int()`, `strip`, `split`/`join`, `lower`, and text-mode
  newline translation.
- `timestamp.dfy` (`Timestamp`): `datetime` as a record of integer fields,
  `str(datetime)`, `strptime` with `%Y-%m-%d %H:%M:%S.%f`, comparison, and
  `timedelta` subtraction with its `.seconds` component.
- `duration.dfy` (`Duration`): `time_div`, `time_format` and `time_print`.
- `active_task.dfy` (`ActiveTask`): the `active_task` file format
  (`_write_tmp_info` / `_read_tmp_info`).
- `lifecycle.dfy` (`Lifecycle`): the pidfile and `active_task` file as a
  class with two optional fields, plus the daemon operations:
  - `Daemon.start`, `stop` and `restart`;
  - the stopwatch loop;
  - `daemon_start`, `daemon_stop` and `daemon_status`.
- `store.dfy` (`Store`): the database session as a class holding the two
  tables in table order, with these operations:
  - the lookups `get_tasks` and `get_records`;
  - `validate_task`;
  - `add_record`, `update_task_total`, `delete_task` and `delete_record`;
  - the field assignments and commits the edit commands perform.
- `edit_commands.dfy` (`EditCommands`): `yatta edit tasks` (flag path and
  editor path) and `yatta edit records`.
- `delete_commands.dfy` (`DeleteCommands`): `yatta delete tasks` and
  `yatta delete records`.
- `completion.dfy` (`Completion`): the completion filters.
- `legacy_edit.dfy`, `legacy_task.dfy`, `timesheet.dfy`,
  `curses_stopwatch.dfy`: the older generation. That covers its `edit task` /
  `edit record` commands, its `Task` value, its CSV timesheet and its curses
  stopwatch loops.

Inputs from outside the program become parameters:

- the process id;
- the replies of successive `os.kill` calls, as a sequence;
- the clock readings of the stopwatch, as a sequence of timestamps;
- the keys `getch` returns, as a sequence;
- the text saved by the external editor, as a function;
- the natural-language date parser, as a function;
- the figlet renderer, as a function;
- the list of installed fonts and of table formats.

The functions `Serialize` (`active_task.dfy`), `TaskEditorText` and
`RecordEditorText` (`edit_commands.dfy`), `RowLine` and `Sheet`
(`timesheet.dfy`) give the exact text the program writes.

## Model

| member | source | states |
|---|---|---|
| Duration.TimeDiv | src/yatta/utils.py:231-234 | hours·3600 + minutes·60 + seconds equals the count, with minutes and seconds in 0..59; hours are non-negative exactly when the count is (floor division, as Python's divmod). The same code is repeated at yatta/yatta.py:11-14, yatta.py:6-9, scripts/scratch.py:6-9. |
| Duration.TimeDivUnique | src/yatta/utils.py:231-234 | Any triple with minutes and seconds in 0..59 that adds up to the count is the one `time_div` returns. |
| Duration.Field | src/yatta/utils.py:237-238 | `f"{n:02}"` of a non-negative n is all digits, at least two of them, reading back as n; exactly two for n < 100; from 10 on it is `str(n)` with no extra zero; no ':' or line break. The same code is repeated at yatta.py:12-13. |
| Duration.TimeFormat | src/yatta/utils.py:237-238 | Splitting the formatted text at ':' gives back the three fields, in the order hours, minutes, seconds. |
| Duration.TimePrint | src/yatta/utils.py:241-243 | The printed duration contains ':' and no line break, so it occupies one line of the `active_task` file. |
| Duration.TimePrintReadsBack | src/yatta/utils.py:237-243 | Reading "H:MM:SS" back as hours·3600 + minutes·60 + seconds gives the original non-negative count, so the text determines the count. The same code is repeated at yatta/yatta.py:17-23, yatta.py:16-18. |
| Duration.TimePrintLayout | src/yatta/utils.py:237-243 | The text has three ':'-separated fields; minutes and seconds have exactly two digits, hours at least two. The same code is repeated at scripts/scratch.py:12-18. |
| Duration.UnitTestValues | tests/test_utils.py:11-31 | 3600 splits into (1, 0, 0); (1, 0, 0) formats as "01:00:00"; 65 prints as "00:01:05"; 202 as "00:03:22". |
| Timestamp.Str | src/yatta/utils.py:299-301 | `str(datetime)` has 19 characters on a whole second and 26 otherwise, and holds no line break and no comma. |
| Timestamp.StrEdges | src/yatta/commands/edit.py:95 | A printed timestamp starts and ends with a digit, so `strip()` leaves it intact. |
| Timestamp.Parse | src/yatta/utils.py:309-310 | Whatever `strptime` accepts is a valid datetime: month 1..12, the day within the month (leap years included), and time fields in range. |
| Timestamp.StrParsesBack | src/yatta/utils.py:299-310 | `strptime(str(dt), "%Y-%m-%d %H:%M:%S.%f")` gives back dt when its microsecond is not zero. |
| Timestamp.WholeSecondNotParsed | src/yatta/utils.py:309-310 | On a whole second `str` omits the fraction, and `strptime` with `.%f` rejects the text. |
| Timestamp.Subtract | src/yatta/utils.py:265 | `end - start` is days, seconds in 0..86399 and microseconds in 0..999999, which together make up exactly the elapsed microseconds. |
| Timestamp.SecondsWithinADay | src/yatta/utils.py:265 | Within one day, `.seconds` is the elapsed time in whole seconds. |
| Timestamp.SecondsDropWholeDays | src/yatta/utils.py:265 | After one day and k seconds, `.seconds` is k: whole days are dropped. |
| Text.IntStr | src/yatta/utils.py:301 | `str(i)` is a non-empty string of digits with at most a leading '-'. |
| Text.IntStrParsesBack | src/yatta/utils.py:311 | `int(str(i)) == i` for every integer. |
| Text.Strip | src/yatta/utils.py:125 | `strip()` keeps a contiguous slice of the text with only white space (as `str.isspace()` defines it) before and after it, and the slice neither starts nor ends with white space; together these fix the result. The same call is at src/yatta/commands/edit.py:68 and :99. |
| Text.Split | src/yatta/utils.py:308 | `split(sep)` gives one more part than there are separators, and no part holds the separator. |
| Text.SplitJoin | src/yatta/utils.py:301-308 | Splitting joined fields gives the fields back when none holds the separator. |
| Text.TranslateNewlines | src/yatta/utils.py:305-308 | Text read in text mode holds no '\r'. |
| Text.JoinedLinesReadBack | src/yatta/utils.py:299-308 | Lines written joined by '\n' and read back in text mode split into the same lines when none holds '\n' or '\r'. |
| Text.Lower | yatta/task.py:9 | `lower()` keeps the length, maps each character to its lower case and leaves no upper-case ASCII letter. |
| Text.LowerIdempotent | yatta/task.py:9 | Lower-casing twice is lower-casing once. |
| ActiveTask.Fields | src/yatta/utils.py:299-301 | The file holds five fields, in the order start, end, duration, task name and printed duration; the fourth is the task name. |
| ActiveTask.FieldsHaveNoBreak | src/yatta/utils.py:301 | Every field but the task name is free of line breaks. |
| ActiveTask.SerializeNoCarriageReturn | src/yatta/utils.py:299-301 | The file text holds no '\r' when the task name holds none. |
| ActiveTask.Read | src/yatta/utils.py:304-312 | A missing file raises FileNotFoundError. A loaded session has valid timestamps and a task name without line breaks. |
| ActiveTask.SplitsIntoFields | src/yatta/utils.py:299-308 | With a task name free of line breaks, the text read back splits into exactly the five fields written. |
| ActiveTask.ReadFiveFields | src/yatta/utils.py:308-312 | Text that splits into five fields, whose first two parse as timestamps and whose third parses as an integer, loads those values, with the fourth field as the task name. |
| ActiveTask.ReadWhatWasWritten | src/yatta/utils.py:299-312 | Reading gives back the session that was written, when the task name has no line break and neither timestamp falls on a whole second. |
| ActiveTask.NewlineInNameUnreadable | src/yatta/utils.py:299-308 | A task name containing '\n' yields more than five fields, and reading fails. |
| ActiveTask.CarriageReturnInNameNotReadBack | src/yatta/utils.py:299-308 | A task name containing '\r' is never read back as written, because text-mode reading turns the '\r' into a line break. |
| ActiveTask.CarriageReturnInNameUnreadable | src/yatta/utils.py:299-308 | A '\r' anywhere in the task name but its last character yields an extra field, and reading fails. |
| ActiveTask.WholeSecondStartUnreadable | src/yatta/utils.py:299-310 | A start on a whole second makes the file unreadable. |
| ActiveTask.WholeSecondEndUnreadable | src/yatta/utils.py:299-310 | An end on a whole second makes the file unreadable. |
| Lifecycle.ReadPid | src/yatta/utils.py:122-127 | A missing pidfile gives no pid. Text that `int(text.strip())` refuses is an uncaught error. Otherwise the pid is that integer. The same code is repeated at src/yatta/daemon.py:92-97. |
| Lifecycle.PidFileReadsBack | src/yatta/daemon.py:81-83 | The pidfile written by `daemonize` (the pid and "\n") reads back as that pid. The same code is repeated at src/yatta/utils.py:111-113. |
| Lifecycle.MutualExclusion | src/yatta/daemon.py:81-102 | Once a daemon with a positive pid has written its pidfile, that pidfile counts as running, so every later start is refused. |
| Lifecycle.Start | src/yatta/daemon.py:88-106 | Start is refused exactly when the pidfile names a non-zero pid, and then nothing changes. An unreadable pidfile crashes. Otherwise the pidfile afterwards holds the new daemon's pid. The `active_task` file is untouched. The same code is repeated at src/yatta/utils.py:118-136. |
| Lifecycle.FirstFailure | src/yatta/daemon.py:124-128 | The kill that ends the loop is the first that is not delivered; every earlier one was delivered. |
| Lifecycle.KillUntilGone | src/yatta/daemon.py:124-128 | The loop sends exactly one signal more than the number of delivered kills before the first failure. |
| Lifecycle.StopVerdict | src/yatta/daemon.py:108-135 | Each stop outcome holds exactly when its condition does: no pidfile or pid 0 returns normally; garbled text crashes; otherwise "No such process" means stopped and any other error means exit 1. The same code is repeated at src/yatta/utils.py:138-165. |
| Lifecycle.Signal | src/yatta/daemon.py:111-135 | Gives `StopVerdict`'s outcome. It sends no signal when there is no pid to signal, and otherwise signals until the first failure. |
| Lifecycle.Stop | src/yatta/daemon.py:108-135 | "Nothing to stop" returns with no change. The pidfile is removed only when the process is gone. The `active_task` file is untouched. The same code is repeated at src/yatta/utils.py:138-165. |
| Lifecycle.Restart | src/yatta/daemon.py:137-140 | Stop, then start. Start runs unless stop exited or crashed, and then it always succeeds and leaves the new pid in the pidfile. The same code is repeated at src/yatta/utils.py:167-170. |
| Lifecycle.TickSession | src/yatta/utils.py:261-266 | A tick keeps the captured start, ends at the clock reading, and has a duration within 0..86399. |
| Lifecycle.TickReadsBack | src/yatta/utils.py:261-266 | The file a tick writes reads back as that tick's session, given a break-free name and fractional seconds. |
| Lifecycle.TickForgetsWholeDays | src/yatta/utils.py:265 | After a day and five seconds the file says five seconds. |
| Lifecycle.WholeSecondTickUnreadable | src/yatta/utils.py:299-310 | A tick taken on a whole second cannot be read back, by status or by stop. |
| Lifecycle.Ticks | src/yatta/utils.py:261-267 | There is one session per clock reading. |
| Lifecycle.TicksAt | src/yatta/utils.py:262-266 | Tick k runs from the single captured start to the k-th clock reading. |
| Lifecycle.WriteTick | src/yatta/utils.py:264-266 | One pass overwrites the `active_task` file with the text of the current session and leaves the pidfile alone. |
| Lifecycle.Stopwatch | src/yatta/utils.py:261-267 | The loop produces the ticks in order, and the file ends up holding the last tick (or is unchanged when there were none). The pidfile is untouched. |
| Lifecycle.DaemonStart | src/yatta/daemon.py:158-161 | A refused or crashed start changes neither file. A started daemon owns the pidfile, and the `active_task` file holds its last tick. The same code is repeated at src/yatta/utils.py:188-191. |
| Lifecycle.DaemonStop | src/yatta/daemon.py:164-184 | When stop exits or crashes, nothing is persisted. With no `active_task` file nothing is persisted. A record is stored exactly when stop did not fail, the file reads back and its task name finds a task. Exactly one record is then appended, with the file's task name, start, end and duration, linked to the first task found. That task's total, and nothing else in the tasks table, is refreshed to the `update_task_total` query's value, which is the sum of every duration in the records table. The file is removed only after that; any failure leaves it and the database as they were. The same code is repeated at src/yatta/utils.py:194-213. |
| Lifecycle.Persist | src/yatta/daemon.py:167-184 | The part after the daemon is gone. A record is stored exactly when the file reads back and its task name finds a task: one record for the first task found, that task's total refreshed to the whole-table sum, the rest of the tasks table unchanged, and only then the file removed. Otherwise nothing changes. |
| Lifecycle.RecordSession | src/yatta/daemon.py:176-178 | `add_record` for the stored task, then `update_task_total`: one record with the session's fields is appended and linked to that task. Only that task's total then changes, to the query's value over the new records table, which is the sum of all their durations. |
| Lifecycle.DaemonStatus | src/yatta/daemon.py:187-199 | Without a pidfile: not tracking. With one, it shows the session in the `active_task` file (name, start, current time, and the elapsed time as `time_print` of the stored duration) or crashes when that file is missing or unreadable. The same code is repeated at src/yatta/utils.py:217-228. |
| Lifecycle.StatusShowsLatestTick | src/yatta/daemon.py:188-196 | While the stopwatch runs, the status shows the latest tick's task, start, time and printed duration. |
| Lifecycle.StalePidFileCrashesStatus | src/yatta/daemon.py:187-191 | A pidfile left without an `active_task` file makes the status crash. |
| Store.TaskLookup | src/yatta/db.py:135-145 | No argument (None or "") selects all tasks. Text that `int()` reads as non-zero selects by id. "0" trips the assertion. Text `int()` refuses selects by name. |
| Store.RecordLookup | src/yatta/db.py:114-132 | Each query kind holds exactly under its condition: a record id that `int()` reads selects that id; a task argument, without a record id, selects by task id when `int()` reads it and by task name otherwise; every record is selected when the record id is not an integer or nothing is given. |
| Store.RecordIdTakesPrecedence | src/yatta/db.py:114-123 | Given a record id, the task argument does not change the query. |
| Store.RecordsOfTaskArgument | src/yatta/db.py:123-129 | With only a task argument, the records found are exactly those linked to that task id when `int()` reads it, and those carrying it as task name otherwise. |
| Store.SelectTasks | src/yatta/db.py:140-144 | The query holds exactly the matching tasks. Its first element is the first match in table order. With no filter it is the whole table. |
| Store.SelectRecords | src/yatta/db.py:118-131 | The same for records. |
| Store.ValidateTask | src/yatta/db.py:153-163 | A name `int()` reads as non-zero is rejected. A name `int()` refuses is accepted. A name reading as zero raises the assertion. |
| Store.AcceptedNamesLookUpByName | src/yatta/db.py:135-163 | A non-empty name that validation accepts is always looked up by name, never as an id. |
| Store.NextTaskId | src/yatta/db.py:44 | A new primary key is positive and larger than every key in use. |
| Store.Detach | src/yatta/db.py:166-168 | Deleting a task sets its remaining records' task id to NULL and changes nothing else. |
| Store.TotalIsWholeTableSum | src/yatta/db.py:176-183 | For a stored task, the total query gives the sum of every record's duration in the table, or NULL when the table is empty. |
| Store.TotalCountsOtherTasks | src/yatta/db.py:176-183 | A 30-second record of another task is added into a task's own 60 seconds: the total is 90. |
| Store.Database.AddRecord | src/yatta/db.py:101-111 | A stored task is reused. A new task is inserted unless its name is taken; in that case nothing is stored. Otherwise exactly one record with a fresh id is appended, linked to the task. |
| Store.Database.UpdateTaskTotal | src/yatta/db.py:176-183 | Only that task's `total` changes, to the query's value. |
| Store.Database.DeleteTask | src/yatta/db.py:166-168 | Exactly that task goes; records that pointed at it lose the link. |
| Store.Database.DeleteRecord | src/yatta/db.py:171-173 | Exactly that record goes; the tasks are untouched. |
| Store.Database.UpdateTask | src/yatta/commands/edit.py:66-73 | The three fields are committed together, and the commit succeeds exactly when no other task has the new name. On failure nothing changes. |
| Store.Database.Rename | src/yatta/commands/edit.py:40-47 | A rename commits exactly when no other task has the name; otherwise it is rolled back. |
| Store.Database.SetTags | src/yatta/commands/edit.py:48-51 | Only the task's tags change. |
| Store.Database.SetDescription | src/yatta/commands/edit.py:52-54 | Only the task's description changes. |
| Store.Database.UpdateRecordSpan | src/yatta/commands/edit.py:106-108 | Only the record's start and end change; the duration is not recomputed. |
| EditCommands.EditedFields | src/yatta/commands/edit.py:67-69 | The text before the marker, stripped and split on ',', has one more field than it has commas, and no field holds a comma. |
| EditCommands.Propose | src/yatta/commands/edit.py:64-69 | An empty or absent editor result proposes nothing. Exactly the required number of fields is a proposal. Any other count is the unpacking error. |
| EditCommands.FieldLineRoundTrip | src/yatta/commands/edit.py:63-69 | A line of comma-free, break-free fields, followed by the marker, gives back exactly those fields. |
| EditCommands.UnchangedTaskText | src/yatta/commands/edit.py:63-69 | Saving a task's editor text unchanged proposes its own name, tags and description, when the fields allow it. |
| EditCommands.CommaInFieldAddsFields | src/yatta/commands/edit.py:67-69 | A comma inside one of the joined fields yields more fields than were joined. |
| EditCommands.CommaInDescription | src/yatta/commands/edit.py:63-69 | A description containing a comma breaks the three-way unpacking of the unchanged text. |
| EditCommands.TwoTimestampsRoundTrip | src/yatta/commands/edit.py:95-99 | Two timestamps joined by ',' and followed by the marker give back the two. |
| EditCommands.UnchangedRecordText | src/yatta/commands/edit.py:95-99 | Saving a record's editor text unchanged proposes its printed start and end. |
| EditCommands.FlagEdit | src/yatta/commands/edit.py:39-54 | Name, tags and description are each replaced only when given, and keep their old values otherwise; id and total are kept. |
| EditCommands.EditWithFlags | src/yatta/commands/edit.py:39-55 | A name clash is rolled back and ends the command with no change. Otherwise the task becomes its flag edit, and the records are untouched. |
| EditCommands.EditWithEditor | src/yatta/commands/edit.py:56-75 | No saved text: no change. Wrong field count: crash, no change. A name clash: no change. Otherwise the three saved fields replace the task's. |
| EditCommands.EditTask | src/yatta/commands/edit.py:19-75 | A missing task changes nothing, and "0" crashes. With any flag the flag path runs on the first match, otherwise the editor path. Only a successful edit changes the tasks, and the records never change. |
| EditCommands.EditRecord | src/yatta/commands/edit.py:80-111 | Without a match the record is reported missing and nothing changes. Otherwise, with end before start nothing changes; an accepted edit replaces only that record's start and end, and the duration is kept. The parser always yields a valid timestamp on a whole second, so every stored timestamp stays valid. |
| EditCommands.EditFoundRecord | src/yatta/commands/edit.py:95-111 | For the record found: nothing saved, the wrong number of fields, or end before start each leave the records unchanged; otherwise only that record's start and end are replaced by the parsed pair, and every stored timestamp stays valid. |
| EditCommands.NonNumericRecordIdSelectsFirst | src/yatta/commands/edit.py:83-84 | A record id `int()` refuses edits the first record of the table. |
| DeleteCommands.DeleteTaskStep | src/yatta/commands/delete.py:21-36 | "0" crashes the lookup. An argument naming no task is missing. Otherwise one task is deleted and the tables stay consistent. |
| DeleteCommands.DeletedTaskLeavesNoTrace | src/yatta/commands/delete.py:27-36 | Afterwards the task is gone, no record the argument finds remains, and no record points at the task. Every other task and every other record is still there. |
| DeleteCommands.DeleteTasksFrom | src/yatta/commands/delete.py:21-39 | Running the loop keeps the tables consistent; an early stop names an argument position in the range run. |
| DeleteCommands.MissingTaskStopsTheLoop | src/yatta/commands/delete.py:21-26 | The first argument naming no task ends the command (`return`, not `continue`). The tables are what the arguments before it left, and later arguments are never looked at. |
| DeleteCommands.DeleteEach | src/yatta/commands/delete.py:31-33 | Deleting the found records one commit at a time removes exactly their ids and leaves the tasks alone. |
| DeleteCommands.DeleteTaskAndRecords | src/yatta/commands/delete.py:27-36 | The records the argument finds are deleted first, then the task. |
| DeleteCommands.DeleteTasks | src/yatta/commands/delete.py:20-39 | The command's effect and where it stopped are exactly the argument-by-argument run. |
| DeleteCommands.DeleteRecordStep | src/yatta/commands/delete.py:48-58 | One pass deletes only records that were there. |
| DeleteCommands.DeleteRecordStepRemovesOne | src/yatta/commands/delete.py:48-58 | Each argument deletes exactly the first record it finds and keeps every other, or changes nothing when it finds none. |
| DeleteCommands.DeleteRecordsRun | src/yatta/commands/delete.py:47-58 | The records left are among those there before. |
| DeleteCommands.DeleteRecordsRunBound | src/yatta/commands/delete.py:47-58 | n arguments remove at most n records, and the ids stay distinct. |
| DeleteCommands.NumericIdDeletesThatRecord | src/yatta/commands/delete.py:49-54 | A numeric id deletes exactly the record with that id, if any. |
| DeleteCommands.NonNumericIdDeletesFirstRecord | src/yatta/commands/delete.py:49-54 | A non-numeric or empty id falls back to every record, so the first record of the table is deleted. |
| DeleteCommands.DeleteFirstMatch | src/yatta/commands/delete.py:49-58 | One pass on the store is `DeleteRecordStep`, and the tasks are untouched. |
| DeleteCommands.DeleteRecords | src/yatta/commands/delete.py:47-58 | The records become the argument-by-argument run. Tasks, and their totals, are untouched. |
| LegacyEdit.LegacyFirst | yatta/cli/edit.py:28-29 | A non-empty name finds a task of that name exactly when one exists. An empty name takes the first task of the table. |
| LegacyEdit.EditTask | yatta/cli/edit.py:24-44 | A missing task changes nothing. Non-empty tags set only the tags, even with a description given. Otherwise a description sets only the description. With neither, nothing changes. Records never change. |
| LegacyEdit.EditRecord | yatta/cli/edit.py:47-50 | Only echoes the id. |
| LegacyTask.NewTask | yatta/task.py:8-14 | The name is the lower-cased argument. Tags and description are as given. Start and end are unset and the duration is 0. |
| LegacyTask.DefaultDetails | yatta/task.py:8-11 | Tags and description default to "". |
| LegacyTask.RenameFromNameKeepsIt | yatta/task.py:9 | Building a task from an existing task's name keeps that name. |
| Completion.FilterContaining | src/yatta/completion_helpers.py:13 | Exactly the names containing the typed text are kept, each as often as it occurs in the input. |
| Completion.FilterKeepsOrder | src/yatta/completion_helpers.py:12-13 | The result is a subsequence of the input, in the same order. |
| Completion.EmptyPatternKeepsAll | src/yatta/completion_helpers.py:13 | An empty pattern offers every name. |
| Completion.TaskNames | src/yatta/completion_helpers.py:12 | The names of all tasks, in table order. |
| Completion.MatchingTasks | src/yatta/completion_helpers.py:11-13 | Exactly the stored task names that contain the typed text, each as often as in the table, in table order. |
| Completion.Insert | src/yatta/completion_helpers.py:18 | Inserting into a sorted list keeps it sorted and adds exactly that element. |
| Completion.Sort | src/yatta/completion_helpers.py:18 | `sorted()`: a sorted permutation of the input. |
| Completion.FilterKeepsSorted | src/yatta/completion_helpers.py:16-19 | Filtering a sorted list leaves it sorted. |
| Completion.FigletFonts | src/yatta/completion_helpers.py:16-19 | The result is sorted, and holds exactly the fonts containing the typed text, each as often as in the font list. |
| Completion.TableFormats | src/yatta/completion_helpers.py:22-23 | The result holds exactly the formats containing the typed text, each as often as in the library's list, in the library's order. |
| Timesheet.RowLine | yatta/data_utils.py:21-23 | A row whose fields have no newline is written as a single line. |
| Timesheet.HeaderNamesTheColumns | yatta/data_utils.py:14-23 | The header is the row line of the column names, so fields follow its column order. |
| Timesheet.RowFieldsReadBack | yatta/data_utils.py:21-23 | A line has four comma-separated fields, in order, when no field holds a comma. |
| Timesheet.SheetLines | yatta/data_utils.py:14-23 | An initialised sheet with rows reads back as the header, one line per row in order, and an empty tail. |
| Timesheet.NoRowsIsHeader | yatta/data_utils.py:14-18 | A sheet without rows is exactly "start,end,task,duration\n". |
| Timesheet.RecordExtendsSheet | yatta/data_utils.py:21-23 | Appending a row's line to a sheet gives the sheet with that row added. |
| Timesheet.DataFile.Init | yatta/data_utils.py:14-18 | The file holds exactly the header afterwards, i.e. the empty sheet. |
| Timesheet.DataFile.CheckForDatafile | yatta/data_utils.py:9-11 | A missing file is initialised; an existing one is left as it is, so a second call changes nothing. |
| Timesheet.DataFile.RecordTask | yatta/data_utils.py:21-23 | Exactly one line is appended after the existing content, which is kept. |
| Timesheet.DataFile.PrintTimesheet | yatta/data_utils.py:26-30 | A missing file is first created holding the header; an existing file, which lacks the header when `record_task` created it, is kept as it is; the text returned is the file's content as a text-mode read gives it: every `\r\n` and lone `\r` becomes `\n`, so it equals the content exactly when the content has no `\r`. |
| KeyStopwatch.QuitPosition | yatta/yatta.py:38-46 | The position of the first quit key; no earlier key is the quit key. |
| KeyStopwatch.DrawUntilQuit | scripts/scratch.py:32-39 | After the title, the frames for the counts 0, 1, 2, … are drawn in order, one per key read, up to and including the read of the first quit key; the returned count is that key's position plus one. |
| KeyStopwatch.Stopwatch | scripts/scratch.py:21-39 | What is drawn is the task line, then the "HH:MM:SS" frame of each count 0, 1, 2, … in order, both rendered with the font exactly when the figlet flag is set. The returned count is the first quit key's position plus one, so the flag changes only how things look. |
| KeyStopwatch.FigletStopwatch | yatta/yatta.py:31-46 | The count is at least 1, the key at count − 1 is the quit key, and no earlier key is; the task line and every frame are rendered with the font. The same code is repeated at yatta.py:26-40. |
| KeyStopwatch.ScratchMain | scripts/scratch.py:42-45 | `main` returns the stopwatch's count unchanged. |
| KeyStopwatch.FigletOnlyChangesRendering | scripts/scratch.py:12-18 | Without the font a frame is the "HH:MM:SS" text; with it, that same text rendered. |

## Left out

- Process mechanics are not modelled: `fork`, `setsid`, `umask`, `dup2`, `time.sleep` and the exit codes. `sys.exit(1)` is an outcome value. The `atexit` removal of the pidfile is not modelled either: the daemon is ended by SIGTERM, which does not run exit handlers.
- The process id, the replies of `os.kill`, the wall clock and the keyboard are parameters.
- Lifecycle.KillUntilGone: requires that some kill eventually fails. The loop in the source never ends otherwise.
- Lifecycle.StopVerdict: requires, as KillUntilGone does, that some kill eventually fails whenever the pidfile names a process.
- Lifecycle.Signal: requires, as KillUntilGone does, that some kill eventually fails whenever the pidfile names a process.
- Lifecycle.Stop: requires, as KillUntilGone does, that some kill eventually fails whenever the pidfile names a process.
- Lifecycle.Restart: requires, as KillUntilGone does, that some kill eventually fails whenever the pidfile names a process.
- Lifecycle.DaemonStop: requires, as KillUntilGone does, that some kill eventually fails whenever the pidfile names a process.
- Lifecycle.Stopwatch: the source loop never ends. The model runs it over a finite sequence of clock readings, which is every prefix of the real run.
- The stopwatch's one-second sleep is not modelled, and neither is the time between `datetime.now()` calls.
- Floating-point output is left out: the "{hours:.2f} hrs" summaries and the float `divmod` of the superseded curses example.
- Printing is left out: colours and tabulated `__str__` output.
- Curses and figlet are not modelled. The figlet font is a rendering function on strings, and the stopwatch returns the strings it draws, in drawing order, rather than placing them on a screen.
- `dummy_stopwatch` and `time_figlet_print` are not part of this model; they are terminal rendering only.
- SQLAlchemy is replaced by two in-memory tables in table order.
  - New primary keys are one more than the largest in use.
  - A name clash on the UNIQUE task name is a failed commit.
  - There is no session identity map, no lazy loading, and no partial flush.
- Store.Database.AddRecord: a new task whose name is taken stores nothing. In the source, the rolled-back task is cascaded back in with the record, so the second commit fails too.
- The `except` branch of `delete tasks`, which rolls back and continues, cannot be reached in the model. There, deleting rows that exist cannot fail.
- `delete records` with no matching record deletes `None`. The model treats that as the failing delete the source rolls back: nothing changes.
- The external editor and the natural-language date parser are function parameters.
- EditCommands.EditRecord: `yatta edit records` with no matching record goes on to dereference `None`. The model stops at that point with the `RecordMissing` outcome and no change, which is where the source crashes.
- `int()` is modelled for ASCII digits and an optional sign, surrounded by the white space `str.strip()` removes (the characters `str.isspace()` accepts, Unicode ones included). Underscore separators and non-ASCII digits are not modelled: such text is an error in the model.
- `lower()` is modelled for ASCII letters only.
- Timestamp.Parse: `strptime` is modelled for fixed-width two-digit fields, a four-digit year, ASCII digits and a single space between date and time, the only shape `str(datetime)` produces. Python's `strptime` also accepts single-digit fields, any run of white space where the format has its space, and non-ASCII decimal digits. So `ActiveTask.Read` reports a hand-edited `active_task` file in one of those shapes as malformed, where `_read_tmp_info` loads it.
- App-directory creation, `mkdir -p` and the CLI wiring (click decorators, confirmation prompts) are left out.
- The older store wrapper (`yatta/db.py`) is superseded. It is used only for the legacy name lookup (`LegacyEdit.LegacyFirst`: an empty name means all tasks).
- The report, plot, timesheet, list and config commands only print or call out to other programs, and are not modelled.
