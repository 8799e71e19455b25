/**
 * Shell tab completion: task names, figlet fonts and table formats that
 * contain what has been typed so far.
 */
module Completion {
  import opened Wrappers
  import opened Text
  import opened Store

  /** `[s for s in names if incomplete in s]`. */
  function FilterContaining(names: seq<string>, incomplete: string): (r: seq<string>)
    ensures forall s :: s in r <==> s in names && Contains(s, incomplete)
    ensures forall s :: multiset(r)[s] == if Contains(s, incomplete) then multiset(names)[s] else 0
    ensures |r| <= |names|
  {
    if names == [] then []
    else
      assert names == [names[0]] + names[1..];
      if Contains(names[0], incomplete) then [names[0]] + FilterContaining(names[1..], incomplete)
      else FilterContaining(names[1..], incomplete)
  }

  /** `a` is `b` with some elements left out, the rest in the same order. */
  predicate IsSubsequence(a: seq<string>, b: seq<string>)
    decreases |b|
  {
    if a == [] then true
    else if b == [] then false
    else if a[0] == b[0] then IsSubsequence(a[1..], b[1..])
    else IsSubsequence(a, b[1..])
  }

  /** The filter keeps the order of its input. */
  lemma {:induction false} FilterKeepsOrder(names: seq<string>, incomplete: string)
    ensures IsSubsequence(FilterContaining(names, incomplete), names)
    decreases |names|
  {
    if names != [] {
      var r := FilterContaining(names, incomplete);
      FilterKeepsOrder(names[1..], incomplete);
      if Contains(names[0], incomplete) {
        assert r[0] == names[0] && r[1..] == FilterContaining(names[1..], incomplete);
      } else {
        SubsequenceWeaken(r, names);
      }
    }
  }

  /** A subsequence of `b[1..]` is a subsequence of `b`. */
  lemma {:induction false} SubsequenceWeaken(a: seq<string>, b: seq<string>)
    requires b != [] && IsSubsequence(a, b[1..])
    ensures IsSubsequence(a, b)
    decreases |b|, 0
  {
    if a != [] && a[0] == b[0] {
      SubsequenceTail(a, b[1..]);
    }
  }

  /** Dropping the head of a subsequence keeps it a subsequence. */
  lemma {:induction false} SubsequenceTail(a: seq<string>, b: seq<string>)
    requires a != [] && IsSubsequence(a, b)
    ensures IsSubsequence(a[1..], b)
    decreases |b|, 1
  {
    if a[0] == b[0] {
      SubsequenceWeaken(a[1..], b);
    } else {
      SubsequenceTail(a, b[1..]);
      SubsequenceWeaken(a[1..], b);
    }
  }

  /** An empty pattern is in every string, so everything is offered. */
  lemma {:induction false} EmptyPatternKeepsAll(names: seq<string>)
    ensures FilterContaining(names, "") == names
    decreases |names|
  {
    if names != [] {
      EmptyContained(names[0]);
      EmptyPatternKeepsAll(names[1..]);
    }
  }

  /** `[task.name for task in db.get_tasks().all()]`. */
  function TaskNames(ts: seq<Task>): (names: seq<string>)
    ensures |names| == |ts|
    ensures forall i :: 0 <= i < |ts| ==> names[i] == ts[i].name
  {
    seq(|ts|, i requires 0 <= i < |ts| => ts[i].name)
  }

  /** `get_matching_tasks`: the names of the stored tasks that contain `incomplete`. */
  function MatchingTasks(ts: seq<Task>, incomplete: string): (r: seq<string>)
    ensures forall s :: s in r <==> NameTaken(ts, s) && Contains(s, incomplete)
    ensures forall s :: multiset(r)[s] == if Contains(s, incomplete) then multiset(TaskNames(ts))[s] else 0
    ensures IsSubsequence(r, TaskNames(ts))
  {
    var names := TaskNames(SelectTasks(ts, TaskLookup(None)));
    assert forall s :: s in names <==> NameTaken(ts, s) by {
      forall s ensures s in names <==> NameTaken(ts, s) {
        if NameTaken(ts, s) {
          var i :| 0 <= i < |ts| && ts[i].name == s;
          assert names[i] == s;
        }
      }
    }
    FilterKeepsOrder(names, incomplete);
    FilterContaining(names, incomplete)
  }

  // ------------------------------------------------------------ sorting

  /** Python's `<=` on strings: lexicographic by code point. */
  predicate StrLeq(a: string, b: string)
  {
    a == [] || (b != [] && (a[0] < b[0] || (a[0] == b[0] && StrLeq(a[1..], b[1..]))))
  }

  lemma {:induction false} StrLeqTotal(a: string, b: string)
    ensures StrLeq(a, b) || StrLeq(b, a)
  {
    if a != [] && b != [] && a[0] == b[0] {
      StrLeqTotal(a[1..], b[1..]);
    }
  }

  lemma {:induction false} StrLeqTransitive(a: string, b: string, c: string)
    requires StrLeq(a, b) && StrLeq(b, c)
    ensures StrLeq(a, c)
  {
    if a != [] && a[0] == b[0] && b[0] == c[0] {
      StrLeqTransitive(a[1..], b[1..], c[1..]);
    }
  }

  predicate Sorted(s: seq<string>)
  {
    forall i, j :: 0 <= i < j < |s| ==> StrLeq(s[i], s[j])
  }

  /** Puts `x` in front of the first element it does not exceed. */
  function Insert(x: string, s: seq<string>): (r: seq<string>)
    requires Sorted(s)
    ensures multiset(r) == multiset(s) + multiset{x}
    ensures Sorted(r)
  {
    if s == [] then [x]
    else if StrLeq(x, s[0]) then
      assert forall k :: 0 <= k < |s| ==> StrLeq(x, s[k]) by {
        forall k | 0 <= k < |s| ensures StrLeq(x, s[k]) {
          if k > 0 { StrLeqTransitive(x, s[0], s[k]); }
        }
      }
      [x] + s
    else
      StrLeqTotal(x, s[0]);
      var rest := Insert(x, s[1..]);
      assert s == [s[0]] + s[1..];
      assert forall y :: y in rest ==> StrLeq(s[0], y) by {
        forall y | y in rest ensures StrLeq(s[0], y) {
          assert y in multiset(rest);
          if y != x {
            assert y in multiset(s[1..]);
            var k :| 0 <= k < |s[1..]| && s[1..][k] == y;
            assert s[k + 1] == y;
          }
        }
      }
      [s[0]] + rest
  }

  /** `sorted(fonts)`. */
  function Sort(s: seq<string>): (r: seq<string>)
    ensures multiset(r) == multiset(s)
    ensures Sorted(r)
  {
    if s == [] then []
    else
      assert s == [s[0]] + s[1..];
      Insert(s[0], Sort(s[1..]))
  }

  /** Filtering a sorted list leaves it sorted. */
  lemma {:induction false} FilterKeepsSorted(s: seq<string>, incomplete: string)
    requires Sorted(s)
    ensures Sorted(FilterContaining(s, incomplete))
    decreases |s|
  {
    if s != [] {
      FilterKeepsSorted(s[1..], incomplete);
      var tail := FilterContaining(s[1..], incomplete);
      if Contains(s[0], incomplete) {
        var r := [s[0]] + tail;
        forall i, j | 0 <= i < j < |r| ensures StrLeq(r[i], r[j]) {
          if i == 0 {
            assert r[j] in s[1..];
            var k :| 0 <= k < |s[1..]| && s[1..][k] == r[j];
            assert s[k + 1] == r[j];
          } else {
            assert r[i] == tail[i - 1] && r[j] == tail[j - 1];
          }
        }
      }
    }
  }

  /**
   * `get_figlet_fonts`: the available fonts, sorted, that contain
   * `incomplete`; the font list is an input here.
   */
  function FigletFonts(fonts: seq<string>, incomplete: string): (r: seq<string>)
    ensures Sorted(r)
    ensures forall s :: s in r <==> s in fonts && Contains(s, incomplete)
    ensures forall s :: multiset(r)[s] == if Contains(s, incomplete) then multiset(fonts)[s] else 0
  {
    var sorted := Sort(fonts);
    FilterKeepsSorted(sorted, incomplete);
    assert forall s :: s in sorted <==> s in fonts by {
      forall s ensures s in sorted <==> s in fonts {
        assert s in sorted <==> s in multiset(sorted);
        assert s in fonts <==> s in multiset(fonts);
      }
    }
    FilterContaining(sorted, incomplete)
  }

  /**
   * `get_table_formats`: the table formats of the tabulation library (an
   * input here) that contain `incomplete`, in the library's order.
   */
  function TableFormats(formats: seq<string>, incomplete: string): (r: seq<string>)
    ensures forall s :: s in r <==> s in formats && Contains(s, incomplete)
    ensures forall s :: multiset(r)[s] == if Contains(s, incomplete) then multiset(formats)[s] else 0
    ensures IsSubsequence(r, formats)
  {
    FilterKeepsOrder(formats, incomplete);
    FilterContaining(formats, incomplete)
  }
}
