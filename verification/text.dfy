/**
 * The pieces of Python's `str` and `int` behaviour the model relies on:
 * `str(n)` for integers, `int(s)` for strings, `s.split(c)`, `s.strip()`,
 * `s.lower()`, `pat in s` and text-mode newline translation.
 * Characters are Unicode code points; digits and letters are the ASCII
 * ones, and whitespace is what `str.isspace()` accepts.
 */
module Text {
  import opened Wrappers

  // ---------------------------------------------------------------- digits

  predicate IsDigit(c: char) { '0' <= c <= '9' }

  predicate AllDigits(s: string) { forall i :: 0 <= i < |s| ==> IsDigit(s[i]) }

  function DigitChar(d: nat): (c: char)
    requires d < 10
    ensures IsDigit(c)
  {
    ('0' as int + d) as char
  }

  function DigitValue(c: char): (d: nat)
    requires IsDigit(c)
    ensures d < 10 && DigitChar(d) == c
  {
    c as int - '0' as int
  }

  function Pow10(k: nat): (p: nat)
    ensures p >= 1
  {
    if k == 0 then 1 else 10 * Pow10(k - 1)
  }

  /** The value of a string of decimal digits, most significant first. */
  function DigitsValue(s: string): (v: nat)
    requires AllDigits(s)
    ensures v < Pow10(|s|)
  {
    if s == [] then 0 else DigitsValue(s[..|s| - 1]) * 10 + DigitValue(s[|s| - 1])
  }

  /** `str(n)` for a non-negative integer: no leading zero except for 0 itself. */
  function NatStr(n: nat): (s: string)
    ensures |s| >= 1 && AllDigits(s)
    ensures s[0] == '0' ==> n == 0
    decreases n
  {
    if n < 10 then [DigitChar(n)] else NatStr(n / 10) + [DigitChar(n % 10)]
  }

  lemma {:induction false} NatStrValue(n: nat)
    ensures DigitsValue(NatStr(n)) == n
    decreases n
  {
    if n >= 10 {
      NatStrValue(n / 10);
      var s := NatStr(n);
      assert s[..|s| - 1] == NatStr(n / 10);
    }
  }

  lemma {:induction false} NatStrLength(n: nat, k: nat)
    requires n < Pow10(k)
    ensures |NatStr(n)| <= k || (n == 0 && k == 0)
    decreases n
  {
    if n >= 10 {
      assert k >= 1;
      NatStrLength(n / 10, k - 1);
    }
  }

  /** Leading zeros do not change the value of a digit string. */
  lemma {:induction false} ZerosValue(z: nat, t: string)
    requires AllDigits(t)
    ensures AllDigits(Zeros(z) + t) && DigitsValue(Zeros(z) + t) == DigitsValue(t)
    decreases |t|
  {
    var s := Zeros(z) + t;
    assert AllDigits(s) by {
      forall i | 0 <= i < |s| ensures IsDigit(s[i]) {
        if i >= z { assert s[i] == t[i - z]; }
      }
    }
    if t == [] {
      assert s == Zeros(z);
      ZerosOnlyValue(z);
    } else {
      assert s[..|s| - 1] == Zeros(z) + t[..|t| - 1];
      ZerosValue(z, t[..|t| - 1]);
    }
  }

  lemma {:induction false} ZerosOnlyValue(z: nat)
    ensures DigitsValue(Zeros(z)) == 0
  {
    if z > 0 {
      assert Zeros(z)[..z - 1] == Zeros(z - 1);
      ZerosOnlyValue(z - 1);
    }
  }

  function Zeros(z: nat): (s: string)
    ensures |s| == z && AllDigits(s)
    ensures forall i :: 0 <= i < z ==> s[i] == '0'
  {
    seq(z, _ => '0')
  }

  /**
   * `"%0*d" % (width, n)` for a non-negative integer: zero-padded on the left
   * to at least `width` characters.
   */
  function Pad(n: nat, width: nat): (s: string)
    ensures AllDigits(s)
  {
    var digits := NatStr(n);
    if |digits| < width then Zeros(width - |digits|) + digits else digits
  }

  lemma PadValue(n: nat, width: nat)
    ensures DigitsValue(Pad(n, width)) == n
  {
    var digits := NatStr(n);
    var p := Pad(n, width);
    if |digits| < width {
      ZerosValue(width - |digits|, digits);
      assert p == Zeros(width - |digits|) + digits;
    }
    NatStrValue(n);
  }

  lemma PadLength(n: nat, width: nat)
    requires width >= 1 && n < Pow10(width)
    ensures |Pad(n, width)| == width
  {
    NatStrLength(n, width);
  }

  lemma PadFixedWidth(n: nat, width: nat)
    requires width >= 1 && n < Pow10(width)
    ensures |Pad(n, width)| == width && DigitsValue(Pad(n, width)) == n
  {
    PadLength(n, width);
    PadValue(n, width);
  }

  // -------------------------------------------------------------- integers

  /** `str(i)` for any integer. */
  function IntStr(i: int): (s: string)
    ensures |s| >= 1
    ensures forall k :: 0 <= k < |s| ==> IsDigit(s[k]) || (k == 0 && s[k] == '-')
  {
    if i < 0 then "-" + NatStr(-i) else NatStr(i)
  }

  /**
   * The whitespace `str.strip()` and `int()` skip: the characters for which
   * `str.isspace()` holds (the ASCII controls \t to \r and \x1c to \x1f,
   * the space, and the Unicode spaces and line separators).
   */
  predicate IsSpace(c: char)
  {
    var n := c as int;
    n == 32 || 9 <= n <= 13 || 28 <= n <= 31 || n == 0x85 || n == 0xA0 || n == 0x1680
    || 0x2000 <= n <= 0x200A || n == 0x2028 || n == 0x2029 || n == 0x202F || n == 0x205F
    || n == 0x3000
  }

  /** `s.lstrip()`: the longest suffix of `s` that does not start with whitespace. */
  function StripLeft(s: string): (r: string)
    ensures |r| <= |s| && r == s[|s| - |r|..]
    ensures r == [] || !IsSpace(r[0])
    ensures forall k :: 0 <= k < |s| - |r| ==> IsSpace(s[k])
  {
    if s != [] && IsSpace(s[0]) then StripLeft(s[1..]) else s
  }

  /** `s.rstrip()`: the longest prefix of `s` that does not end with whitespace. */
  function StripRight(s: string): (r: string)
    ensures |r| <= |s| && r == s[..|r|]
    ensures r == [] || !IsSpace(r[|r| - 1])
    ensures forall k :: |r| <= k < |s| ==> IsSpace(s[k])
  {
    if s != [] && IsSpace(s[|s| - 1]) then StripRight(s[..|s| - 1]) else s
  }

  /** `r` is the slice of `s` at `i`, with only whitespace before and after it. */
  predicate TrimmedAt(s: string, r: string, i: int)
  {
    0 <= i <= |s| - |r| && r == s[i..i + |r|]
    && (forall k :: 0 <= k < i ==> IsSpace(s[k]))
    && (forall k :: i + |r| <= k < |s| ==> IsSpace(s[k]))
  }

  /**
   * `s.strip()`: the slice of `s` left when the whitespace at both ends is
   * removed; only whitespace lies outside it, and it neither starts nor ends
   * with whitespace.
   */
  function Strip(s: string): (r: string)
    ensures r == [] || (!IsSpace(r[0]) && !IsSpace(r[|r| - 1]))
    ensures exists i :: TrimmedAt(s, r, i)
  {
    var l := StripLeft(s);
    var r := StripRight(l);
    StripBoth(s, l, r);
    r
  }

  lemma StripBoth(s: string, l: string, r: string)
    requires |l| <= |s| && l == s[|s| - |l|..] && forall k :: 0 <= k < |s| - |l| ==> IsSpace(s[k])
    requires |r| <= |l| && r == l[..|r|] && forall k :: |r| <= k < |l| ==> IsSpace(l[k])
    ensures TrimmedAt(s, r, |s| - |l|)
  {
    var i := |s| - |l|;
    assert r == s[i..i + |r|] by {
      forall k | 0 <= k < |r| ensures r[k] == s[i + k] {
        assert r[k] == l[k] && l[k] == s[i + k];
      }
    }
    forall k | i + |r| <= k < |s| ensures IsSpace(s[k]) {
      assert s[k] == l[k - i];
    }
  }

  lemma StripKeeps(s: string)
    requires s == [] || (!IsSpace(s[0]) && !IsSpace(s[|s| - 1]))
    ensures Strip(s) == s
  {
  }

  /**
   * `int(s)` for a string: surrounding whitespace is ignored, then an optional
   * sign and at least one ASCII digit; anything else raises ValueError (None).
   */
  function ParseInt(s: string): Option<int>
  {
    ParseSigned(Strip(s))
  }

  /** An optional sign followed by at least one digit, and nothing else. */
  function ParseSigned(t: string): Option<int>
  {
    if t == [] then None
    else if t[0] == '-' || t[0] == '+' then
      var body := t[1..];
      if body != [] && AllDigits(body) then
        var v: int := DigitsValue(body);
        Some(if t[0] == '-' then -v else v)
      else None
    else if AllDigits(t) then Some(DigitsValue(t))
    else None
  }

  lemma IntStrParsesBack(i: int)
    ensures ParseInt(IntStr(i)) == Some(i)
  {
    if i < 0 {
      var body := NatStr(-i);
      var s := "-" + body;
      assert IntStr(i) == s;
      assert !IsSpace(s[0]);
      assert s[|s| - 1] == body[|body| - 1];
      assert IsDigit(body[|body| - 1]);
      StripKeeps(s);
      NegativeParses(-i);
    } else {
      var s := NatStr(i);
      StripKeeps(s);
      NonNegativeParses(i);
    }
  }

  lemma NegativeParses(n: nat)
    requires n > 0
    ensures ParseSigned("-" + NatStr(n)) == Some(-(n as int))
  {
    var body := NatStr(n);
    var s := "-" + body;
    assert s[1..] == body;
    NatStrValue(n);
  }

  lemma NonNegativeParses(n: nat)
    ensures ParseSigned(NatStr(n)) == Some(n)
  {
    var s := NatStr(n);
    assert IsDigit(s[0]);
    NatStrValue(n);
  }

  // ------------------------------------------------------------- splitting

  function Count(s: string, c: char): nat
  {
    if s == [] then 0 else (if s[0] == c then 1 else 0) + Count(s[1..], c)
  }

  /** `s.split(sep)` for a one-character separator. */
  function Split(s: string, sep: char): (parts: seq<string>)
    ensures |parts| == Count(s, sep) + 1
    ensures forall k :: 0 <= k < |parts| ==> sep !in parts[k]
  {
    if s == [] then [""]
    else if s[0] == sep then [""] + Split(s[1..], sep)
    else
      var rest := Split(s[1..], sep);
      [[s[0]] + rest[0]] + rest[1..]
  }

  lemma {:induction false} SplitExcludes(s: string, sep: char, c: char)
    requires c !in s
    ensures forall k :: 0 <= k < |Split(s, sep)| ==> c !in Split(s, sep)[k]
    decreases |s|
  {
    if s != [] {
      SplitExcludes(s[1..], sep, c);
    }
  }

  /** `sep.join(parts)`. */
  function Join(parts: seq<string>, sep: char): string
    requires |parts| >= 1
  {
    if |parts| == 1 then parts[0] else parts[0] + [sep] + Join(parts[1..], sep)
  }

  lemma JoinThree(a: string, b: string, c: string, sep: char)
    ensures Join([a, b, c], sep) == a + [sep] + b + [sep] + c
  {
    assert [a, b, c][1..] == [b, c];
    assert [b, c][1..] == [c];
    assert Join([c], sep) == c;
    assert Join([b, c], sep) == b + [sep] + c;
  }

  lemma Slices3(a: string, b: string, c: string, sep: char)
    ensures var s := a + [sep] + b + [sep] + c;
      && s[..|a|] == a && s[|a|] == sep
      && s[|a| + 1..|a| + 1 + |b|] == b && s[|a| + 1 + |b|] == sep
      && s[|a| + |b| + 2..] == c
  {
  }

  lemma {:induction false} SplitNoSeparator(a: string, sep: char)
    requires sep !in a
    ensures Split(a, sep) == [a]
    decreases |a|
  {
    if a != [] {
      SplitNoSeparator(a[1..], sep);
      assert [a[0]] + a[1..] == a;
    }
  }

  lemma {:induction false} SplitAfterField(a: string, sep: char, t: string)
    requires sep !in a
    ensures Split(a + [sep] + t, sep) == [a] + Split(t, sep)
    decreases |a|
  {
    var s := a + [sep] + t;
    if a == [] {
      assert s[1..] == t;
    } else {
      assert s[1..] == a[1..] + [sep] + t;
      SplitAfterField(a[1..], sep, t);
      assert [a[0]] + a[1..] == a;
    }
  }

  /** Splitting what was joined gives the fields back, when no field holds the separator. */
  lemma {:induction false} SplitJoin(parts: seq<string>, sep: char)
    requires |parts| >= 1
    requires forall k :: 0 <= k < |parts| ==> sep !in parts[k]
    ensures Split(Join(parts, sep), sep) == parts
    decreases |parts|
  {
    if |parts| == 1 {
      SplitNoSeparator(parts[0], sep);
    } else {
      SplitJoin(parts[1..], sep);
      SplitAfterField(parts[0], sep, Join(parts[1..], sep));
      assert [parts[0]] + parts[1..] == parts;
    }
  }

  /**
   * Lines joined with '\n' and read back in text mode come apart into the
   * same lines, when no line holds a line break of its own.
   */
  lemma JoinedLinesReadBack(lines: seq<string>)
    requires |lines| >= 1
    requires forall k :: 0 <= k < |lines| ==> '\n' !in lines[k] && '\r' !in lines[k]
    ensures Split(TranslateNewlines(Join(lines, '\n')), '\n') == lines
  {
    JoinExcludes(lines, '\n', '\r');
    TranslateKeeps(Join(lines, '\n'));
    SplitJoin(lines, '\n');
  }

  /** A character that is neither in any field nor the separator is not in the joined text. */
  lemma {:induction false} JoinExcludes(parts: seq<string>, sep: char, c: char)
    requires |parts| >= 1 && c != sep
    requires forall k :: 0 <= k < |parts| ==> c !in parts[k]
    ensures c !in Join(parts, sep)
    decreases |parts|
  {
    if |parts| > 1 {
      JoinExcludes(parts[1..], sep, c);
    }
  }

  /** Every separator that a field holds adds to the separators of the joined text. */
  lemma {:induction false} JoinCount(parts: seq<string>, sep: char, k: nat)
    requires |parts| >= 1 && k < |parts|
    ensures Count(Join(parts, sep), sep) >= |parts| - 1 + Count(parts[k], sep)
    decreases |parts|
  {
    if |parts| > 1 {
      var rest := Join(parts[1..], sep);
      CountAppend(parts[0] + [sep], rest, sep);
      CountAppend(parts[0], [sep], sep);
      assert Count([sep], sep) == 1;
      if k == 0 {
        JoinCount(parts[1..], sep, 0);
      } else {
        JoinCount(parts[1..], sep, k - 1);
      }
    }
  }

  /** Newline translation never loses a '\n'. */
  lemma {:induction false} TranslateCount(s: string)
    ensures Count(TranslateNewlines(s), '\n') >= Count(s, '\n')
    decreases |s|
  {
    if s != [] {
      if s[0] == '\r' {
        if |s| >= 2 && s[1] == '\n' {
          TranslateCount(s[2..]);
          assert s[1..][1..] == s[2..];
        } else {
          TranslateCount(s[1..]);
        }
      } else {
        TranslateCount(s[1..]);
      }
    }
  }

  /** A '\r' not followed by '\n' becomes an extra '\n' when the text is read. */
  lemma {:induction false} TranslateCountLoneReturn(s: string, i: nat)
    requires i < |s| && s[i] == '\r' && (i + 1 == |s| || s[i + 1] != '\n')
    ensures Count(TranslateNewlines(s), '\n') >= Count(s, '\n') + 1
    decreases i
  {
    if s[0] == '\r' {
      if |s| >= 2 && s[1] == '\n' {
        assert i >= 2;
        assert s[1..][1..] == s[2..];
        assert s[2..][i - 2] == s[i];
        assert i - 1 == |s| - 2 || s[2..][i - 1] == s[i + 1];
        TranslateCountLoneReturn(s[2..], i - 2);
      } else {
        TranslateCount(s[1..]);
      }
    } else {
      assert s[1..][i - 1] == s[i];
      assert i == |s| - 1 || s[1..][i] == s[i + 1];
      TranslateCountLoneReturn(s[1..], i - 1);
    }
  }

  lemma {:induction false} CountAppend(a: string, b: string, c: char)
    ensures Count(a + b, c) == Count(a, c) + Count(b, c)
    decreases |a|
  {
    if a == [] {
      assert a + b == b;
    } else {
      assert (a + b)[0] == a[0] && (a + b)[1..] == a[1..] + b;
      CountAppend(a[1..], b, c);
    }
  }

  lemma {:induction false} CountPositive(s: string, c: char, k: nat)
    requires k < |s| && s[k] == c
    ensures Count(s, c) >= 1
    decreases k
  {
    if k > 0 {
      assert s[1..][k - 1] == c;
      CountPositive(s[1..], c, k - 1);
    }
  }

  // -------------------------------------------------------- substrings

  /** `pat` occurs in `s` starting at index `i`. */
  predicate OccursAt(s: string, pat: string, i: int)
  {
    0 <= i && i + |pat| <= |s| && s[i..i + |pat|] == pat
  }

  /** `pat in s` (the empty pattern is in every string). */
  predicate Contains(s: string, pat: string)
  {
    exists i :: 0 <= i <= |s| && OccursAt(s, pat, i)
  }

  lemma EmptyContained(s: string)
    ensures Contains(s, "")
  {
    assert OccursAt(s, "", 0);
  }

  /** The first index at or after `from` at which `pat` occurs in `s`, if any. */
  function Find(s: string, pat: string, from: nat): (r: Option<nat>)
    requires from <= |s|
    ensures r.Some? ==> from <= r.value && OccursAt(s, pat, r.value)
    ensures r.Some? ==> forall i :: from <= i < r.value ==> !OccursAt(s, pat, i)
    ensures r.None? ==> forall i :: from <= i ==> !OccursAt(s, pat, i)
    decreases |s| - from
  {
    if from + |pat| > |s| then None
    else if s[from..from + |pat|] == pat then Some(from)
    else Find(s, pat, from + 1)
  }

  /** `s.split(pat)[0]`: everything before the first occurrence of `pat`, or all of `s`. */
  function BeforeFirst(s: string, pat: string): (r: string)
    requires |pat| >= 1
    ensures |r| <= |s| && r == s[..|r|]
  {
    var f := Find(s, pat, 0);
    if f.Some? then s[..f.value] else s
  }

  lemma BeforeFirstOfSuffixed(x: string, pat: string)
    requires |pat| >= 1
    requires forall i :: 0 <= i < |x| ==> x[i] != pat[0]
    ensures BeforeFirst(x + pat, pat) == x
  {
    var s := x + pat;
    assert OccursAt(s, pat, |x|) by {
      assert s[|x|..|x| + |pat|] == pat;
    }
    forall i | 0 <= i < |x| ensures !OccursAt(s, pat, i) {
      assert s[i] == x[i];
    }
    var f := Find(s, pat, 0);
    assert f.Some? && f.value == |x|;
    assert s[..|x|] == x;
  }

  // ----------------------------------------------------------- newlines

  /**
   * What a file opened in text mode returns on read: `\r\n` and lone `\r`
   * both become `\n` (universal newlines).
   */
  function TranslateNewlines(s: string): (r: string)
    ensures '\r' !in r
  {
    if s == [] then []
    else if s[0] == '\r' then
      if |s| >= 2 && s[1] == '\n' then "\n" + TranslateNewlines(s[2..])
      else "\n" + TranslateNewlines(s[1..])
    else [s[0]] + TranslateNewlines(s[1..])
  }

  lemma {:induction false} TranslateKeeps(s: string)
    requires '\r' !in s
    ensures TranslateNewlines(s) == s
    decreases |s|
  {
    if s != [] {
      TranslateKeeps(s[1..]);
      assert [s[0]] + s[1..] == s;
    }
  }

  // ------------------------------------------------------------- case

  /** `c.lower()` on ASCII letters; every other character is left alone. */
  function LowerChar(c: char): (l: char)
    ensures !('A' <= l <= 'Z')
    ensures 'A' <= c <= 'Z' || l == c
  {
    if 'A' <= c <= 'Z' then (c as int + 32) as char else c
  }

  /** `s.lower()`. */
  function Lower(s: string): (r: string)
    ensures |r| == |s|
    ensures forall i :: 0 <= i < |s| ==> r[i] == LowerChar(s[i])
  {
    if s == [] then [] else [LowerChar(s[0])] + Lower(s[1..])
  }

  lemma {:induction false} LowerIdempotent(s: string)
    ensures Lower(Lower(s)) == Lower(s)
    decreases |s|
  {
    if s != [] {
      LowerIdempotent(s[1..]);
      assert Lower(s)[1..] == Lower(s[1..]);
    }
  }
}
