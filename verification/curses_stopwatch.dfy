/**
 * The terminal stopwatch of the first version of the program: it shows the
 * elapsed count, reads one key per second, and stops on 'q'.
 */
module KeyStopwatch {
  import opened Duration

  /** `ord('q')`. */
  const QUIT_KEY: int := 113

  /**
   * Where the first quit key is among the values `getch` returns (a key
   * code, or -1 when a second passes without one).
   */
  function QuitPosition(keys: seq<int>): (n: nat)
    requires QUIT_KEY in keys
    ensures n < |keys| && keys[n] == QUIT_KEY
    ensures forall i :: 0 <= i < n ==> keys[i] != QUIT_KEY
  {
    if keys[0] == QUIT_KEY then 0 else 1 + QuitPosition(keys[1..])
  }

  /**
   * The text shown for `count`: "HH:MM:SS", passed through the figlet font
   * `render` when `figlet` is set.
   */
  function Frame(render: string -> string, count: int, figlet: bool): string
  {
    if figlet then render(TimePrint(count)) else TimePrint(count)
  }

  /** The task line drawn above the clock, rendered like the frames. */
  function Title(render: string -> string, task: string, figlet: bool): string
  {
    if figlet then render(task) else task
  }

  /**
   * The `while True` loop of the stopwatch: before each key read it draws
   * `frame(c)` for the current count `c`, after the title drawn first;
   * `drawn` lists what was drawn, in drawing order. It stops after the
   * first quit key.
   */
  method DrawUntilQuit(title: string, keys: seq<int>, frame: int -> string)
    returns (count: nat, drawn: seq<string>)
    requires QUIT_KEY in keys
    ensures count == QuitPosition(keys) + 1
    ensures |drawn| == count + 1 && drawn[0] == title
    ensures forall i :: 0 <= i < count ==> drawn[i + 1] == frame(i)
  {
    ghost var q := QuitPosition(keys);
    drawn := [title];
    count := 0;
    while true
      invariant count <= q
      invariant |drawn| == count + 1 && drawn[0] == title
      invariant forall i :: 0 <= i < count ==> drawn[i + 1] == frame(i)
      decreases q - count
    {
      drawn := drawn + [frame(count)];
      count := count + 1;
      var ch := keys[count - 1];
      if ch == QUIT_KEY {
        break;
      }
    }
  }

  /**
   * `_stopwatch(stdscr, task, font, figlet)`: the task line, then
   * `Frame(render, c, figlet)` for each count `c` before its key read. It
   * returns one more than the position of the first quit key, so `figlet`
   * changes how the task line and each frame look, never how many frames
   * there are.
   */
  method Stopwatch(task: string, keys: seq<int>, render: string -> string, figlet: bool)
    returns (count: nat, drawn: seq<string>)
    requires QUIT_KEY in keys
    ensures count == QuitPosition(keys) + 1
    ensures |drawn| == count + 1 && drawn[0] == Title(render, task, figlet)
    ensures forall i :: 0 <= i < count ==> drawn[i + 1] == Frame(render, i, figlet)
  {
    var frame := i => Frame(render, i, figlet);
    count, drawn := DrawUntilQuit(Title(render, task, figlet), keys, frame);
    forall i | 0 <= i < count ensures drawn[i + 1] == Frame(render, i, figlet) {
      assert drawn[i + 1] == frame(i);
    }
  }

  /**
   * `_stopwatch(stdscr, task, font)` / `stopwatch(...)`: the task line and
   * every frame are rendered with the font.
   */
  method FigletStopwatch(task: string, keys: seq<int>, render: string -> string)
    returns (count: nat, drawn: seq<string>)
    requires QUIT_KEY in keys
    ensures 1 <= count <= |keys| && keys[count - 1] == QUIT_KEY
    ensures forall i :: 0 <= i < count - 1 ==> keys[i] != QUIT_KEY
    ensures |drawn| == count + 1 && drawn[0] == render(task)
    ensures forall i :: 0 <= i < count ==> drawn[i + 1] == render(TimePrint(i))
  {
    count, drawn := Stopwatch(task, keys, render, true);
    forall i | 0 <= i < count ensures drawn[i + 1] == render(TimePrint(i)) {
      assert drawn[i + 1] == Frame(render, i, true);
    }
  }

  /** `main(stdscr, task, font, figlet)`: the stopwatch's count, unchanged. */
  method ScratchMain(task: string, keys: seq<int>, render: string -> string, figlet: bool)
    returns (count: nat)
    requires QUIT_KEY in keys
    ensures count == QuitPosition(keys) + 1
  {
    var drawn;
    count, drawn := Stopwatch(task, keys, render, figlet);
  }

  /**
   * Without the font a frame is the "HH:MM:SS" text of the count; with it,
   * that same text rendered, so the flag changes only how a frame looks.
   */
  lemma FigletOnlyChangesRendering(keys: seq<int>, render: string -> string, count: int)
    ensures Frame(render, count, false) == TimePrint(count)
    ensures Frame(render, count, true) == render(Frame(render, count, false))
  {
  }
}
