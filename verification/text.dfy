/** The handful of Python `str` operations the plugin relies on, written out
    over `seq<char>`: `startswith`, `endswith`, `in`, `strip()`, `split(sep)`,
    `sep.join(...)`, `splitlines()` and `replace(old, new)`. */
module Text {

  /** `s.startswith(p)`. */
  predicate StartsWith(s: string, p: string) {
    |p| <= |s| && s[..|p|] == p
  }

  /** `s.endswith(p)`. */
  predicate EndsWith(s: string, p: string) {
    |p| <= |s| && s[|s| - |p|..] == p
  }

  /** `p in s`: `p` occurs somewhere in `s` as a contiguous piece. */
  predicate Contains(s: string, p: string)
    decreases |s|
  {
    StartsWith(s, p) || (s != [] && Contains(s[1..], p))
  }

  lemma {:induction false} ContainsSuffix(a: string, b: string)
    ensures Contains(a + b, b)
    decreases |a|
  {
    if a == [] {
      assert a + b == b;
    } else {
      assert (a + b)[1..] == a[1..] + b;
      ContainsSuffix(a[1..], b);
    }
  }

  lemma {:induction false} ContainsPrefix(a: string, b: string)
    ensures Contains(a + b, a)
  {
    assert (a + b)[..|a|] == a;
  }

  /** A piece of `s` that contains `p` makes `s` contain `p` too. */
  lemma {:induction false} ContainsWithin(s: string, i: nat, j: nat, p: string)
    requires i <= j <= |s|
    requires Contains(s[i..j], p)
    ensures Contains(s, p)
    decreases j - i
  {
    if StartsWith(s[i..j], p) {
      ContainsAt(s, i, p);
    } else {
      assert s[i..j][1..] == s[i + 1..j];
      ContainsWithin(s, i + 1, j, p);
    }
  }

  lemma {:induction false} ContainsAt(s: string, i: nat, p: string)
    requires i + |p| <= |s| && s[i..i + |p|] == p
    ensures Contains(s, p)
    decreases i
  {
    if i > 0 {
      assert s[1..][i - 1..i - 1 + |p|] == s[i..i + |p|];
      ContainsAt(s[1..], i - 1, p);
    }
  }

  /** `p` occurs in `s` at index `i`. */
  predicate OccursAt(s: string, p: string, i: nat) {
    i + |p| <= |s| && s[i..i + |p|] == p
  }

  lemma OccursAtChar(s: string, p: string, i: nat, k: nat)
    requires OccursAt(s, p, i) && k < |p|
    ensures s[i + k] == p[k]
  {
    assert s[i..i + |p|][k] == s[i + k];
  }

  /** An occurrence found by `Contains` sits at some index. */
  lemma {:induction false} ContainsWitness(s: string, p: string)
    requires Contains(s, p)
    ensures exists i: nat :: OccursAt(s, p, i)
    decreases |s|
  {
    if !StartsWith(s, p) {
      ContainsWitness(s[1..], p);
      var i: nat :| OccursAt(s[1..], p, i);
      assert s[1..][i..i + |p|] == s[i + 1..i + 1 + |p|];
      assert OccursAt(s, p, i + 1);
    } else {
      assert OccursAt(s, p, 0);
    }
  }

  /** Python's `str.isspace()` for one character. */
  predicate IsSpace(c: char) {
    var n := c as int;
    (9 <= n <= 13) || (28 <= n <= 32) || n == 0x85 || n == 0xA0 || n == 0x1680
    || (0x2000 <= n <= 0x200A) || n == 0x2028 || n == 0x2029 || n == 0x202F
    || n == 0x205F || n == 0x3000
  }

  /** Index of the first non-space character of `s` at or after `i`. */
  function SkipSpaces(s: string, i: nat): (k: nat)
    requires i <= |s|
    ensures i <= k <= |s|
    ensures k < |s| ==> !IsSpace(s[k])
    decreases |s| - i
  {
    if i < |s| && IsSpace(s[i]) then SkipSpaces(s, i + 1) else i
  }

  /** One past the last non-space character of `s` before `j`, no lower than `lo`. */
  function TrimSpaces(s: string, lo: nat, j: nat): (k: nat)
    requires lo <= j <= |s|
    ensures lo <= k <= j
    ensures k > lo ==> !IsSpace(s[k - 1])
    decreases j
  {
    if j > lo && IsSpace(s[j - 1]) then TrimSpaces(s, lo, j - 1) else j
  }

  /** `s.strip()`: leading and trailing whitespace removed, nothing else. */
  function Strip(s: string): (r: string)
    ensures r == [] || (!IsSpace(r[0]) && !IsSpace(r[|r| - 1]))
    ensures |r| <= |s|
  {
    var lo := SkipSpaces(s, 0);
    s[lo..TrimSpaces(s, lo, |s|)]
  }

  /** A string with no whitespace at either end is its own stripped form. */
  lemma StripTrimmed(s: string)
    requires s == [] || (!IsSpace(s[0]) && !IsSpace(s[|s| - 1]))
    ensures Strip(s) == s
  {
  }

  /** `[sep].join(ls)` for a one-character separator. */
  function Join(ls: seq<string>, sep: char): string
    decreases |ls|
  {
    if |ls| == 0 then ""
    else if |ls| == 1 then ls[0]
    else ls[0] + [sep] + Join(ls[1..], sep)
  }

  lemma JoinCons(a: string, rest: seq<string>, sep: char)
    requires |rest| >= 1
    ensures Join([a] + rest, sep) == a + [sep] + Join(rest, sep)
  {
    assert ([a] + rest)[1..] == rest;
  }

  /** Index of the first `c` in `s`, or `|s|` when there is none. */
  function IndexOf(s: string, c: char): (i: nat)
    ensures i <= |s|
    ensures i < |s| ==> s[i] == c
    ensures c !in s[..i]
    decreases |s|
  {
    if s == [] then 0
    else if s[0] == c then 0
    else
      var k := 1 + IndexOf(s[1..], c);
      assert s[..k] == [s[0]] + s[1..][..k - 1];
      k
  }

  lemma {:induction false} IndexOfJoined(a: string, c: char, b: string)
    requires c !in a
    ensures IndexOf(a + [c] + b, c) == |a|
    decreases |a|
  {
    if a != [] {
      assert (a + [c] + b)[1..] == a[1..] + [c] + b;
      IndexOfJoined(a[1..], c, b);
    }
  }

  /** `s.split(sep)`: always at least one piece, none containing `sep`. */
  function Split(s: string, sep: char): (r: seq<string>)
    ensures |r| >= 1
    ensures forall i :: 0 <= i < |r| ==> sep !in r[i]
    decreases |s|
  {
    var i := IndexOf(s, sep);
    if i == |s| then [s] else [s[..i]] + Split(s[i + 1..], sep)
  }

  /** Joining the pieces of a split gives back the original text. */
  lemma {:induction false} JoinSplit(s: string, sep: char)
    ensures Join(Split(s, sep), sep) == s
    decreases |s|
  {
    var i := IndexOf(s, sep);
    if i < |s| {
      var head, tail := s[..i], s[i + 1..];
      var rest := Split(tail, sep);
      assert s == head + [sep] + tail by {
        assert s[i] == sep;
      }
      assert Split(s, sep) == [head] + rest;
      JoinSplit(tail, sep);
      JoinCons(head, rest, sep);
    }
  }

  /** Splitting a join of separator-free pieces gives back the pieces. */
  lemma {:induction false} SplitJoin(ls: seq<string>, sep: char)
    requires |ls| >= 1
    requires forall i :: 0 <= i < |ls| ==> sep !in ls[i]
    ensures Split(Join(ls, sep), sep) == ls
    decreases |ls|
  {
    if |ls| > 1 {
      var a, tail := ls[0], ls[1..];
      var j := Join(tail, sep);
      var s := a + [sep] + j;
      assert Join(ls, sep) == s;
      assert sep !in a;
      IndexOfJoined(a, sep, j);
      assert s[..|a|] == a;
      assert s[|a| + 1..] == j;
      forall i | 0 <= i < |tail|
        ensures sep !in tail[i]
      {
        assert tail[i] == ls[i + 1];
      }
      SplitJoin(tail, sep);
      assert Split(s, sep) == [a] + tail;
      assert ls == [a] + tail;
    }
  }

  /** The boundaries `str.splitlines()` breaks at (`\r\n` counts as one). */
  predicate IsLineBreak(c: char) {
    var n := c as int;
    (10 <= n <= 13) || (28 <= n <= 30) || n == 0x85 || n == 0x2028 || n == 0x2029
  }

  predicate NoBreak(s: string) {
    forall i :: 0 <= i < |s| ==> !IsLineBreak(s[i])
  }

  lemma NoBreakConcat(a: string, b: string)
    requires NoBreak(a) && NoBreak(b)
    ensures NoBreak(a + b)
  {
    assert forall i :: |a| <= i < |a + b| ==> (a + b)[i] == b[i - |a|];
  }

  /** Index of the first line boundary in `s`, or `|s|`. */
  function BreakIndex(s: string): (i: nat)
    ensures i <= |s|
    ensures i < |s| ==> IsLineBreak(s[i])
    ensures NoBreak(s[..i])
    decreases |s|
  {
    if s == [] then 0
    else if IsLineBreak(s[0]) then 0
    else
      var k := 1 + BreakIndex(s[1..]);
      assert s[..k] == [s[0]] + s[1..][..k - 1];
      k
  }

  lemma {:induction false} BreakIndexJoined(a: string, c: char, b: string)
    requires NoBreak(a) && IsLineBreak(c)
    ensures BreakIndex(a + [c] + b) == |a|
    decreases |a|
  {
    if a != [] {
      assert (a + [c] + b)[1..] == a[1..] + [c] + b;
      BreakIndexJoined(a[1..], c, b);
    }
  }

  /** `s.splitlines()`: the lines of `s` without their terminators; a final
      terminator does not start another line, and `""` has no lines. */
  function SplitLines(s: string): (r: seq<string>)
    ensures forall i :: 0 <= i < |r| ==> NoBreak(r[i])
    decreases |s|
  {
    if s == [] then []
    else
      var i := BreakIndex(s);
      if i == |s| then [s]
      else
        var next := if s[i] == '\r' && i + 1 < |s| && s[i + 1] == '\n' then i + 2 else i + 1;
        [s[..i]] + SplitLines(s[next..])
  }

  /** `ls` without its last element when that element is empty. */
  function DropTrailingEmpty(ls: seq<string>): seq<string> {
    if |ls| > 0 && ls[|ls| - 1] == "" then ls[..|ls| - 1] else ls
  }

  /** `"\n".join` followed by `splitlines()` gives back the lines, except
      that an empty last line disappears into the final terminator. */
  lemma {:induction false} SplitLinesJoin(ls: seq<string>)
    requires |ls| >= 1
    requires forall i :: 0 <= i < |ls| ==> NoBreak(ls[i])
    ensures SplitLines(Join(ls, '\n')) == DropTrailingEmpty(ls)
    decreases |ls|
  {
    if |ls| == 1 {
      SplitLinesOne(ls[0]);
    } else {
      var a := ls[0];
      var tail := ls[1..];
      var j := Join(tail, '\n');
      assert ls == [a] + tail;
      JoinCons(a, tail, '\n');
      forall i | 0 <= i < |tail|
        ensures NoBreak(tail[i])
      {
        assert tail[i] == ls[i + 1];
      }
      SplitLinesJoin(tail);
      SplitLinesCons(a, j);
      DropTrailingEmptyCons(a, tail);
    }
  }

  lemma DropTrailingEmptyCons(a: string, tail: seq<string>)
    requires |tail| >= 1
    ensures DropTrailingEmpty([a] + tail) == [a] + DropTrailingEmpty(tail)
  {
    var ls := [a] + tail;
    assert ls[|ls| - 1] == tail[|tail| - 1];
    if tail[|tail| - 1] == "" {
      assert ls[..|ls| - 1] == [a] + tail[..|tail| - 1];
    }
  }

  lemma SplitLinesOne(a: string)
    requires NoBreak(a)
    ensures SplitLines(a) == if a == "" then [] else [a]
  {
  }

  lemma SplitLinesCons(a: string, j: string)
    requires NoBreak(a)
    ensures SplitLines(a + ['\n'] + j) == [a] + SplitLines(j)
  {
    var s := a + ['\n'] + j;
    BreakIndexJoined(a, '\n', j);
    assert s[..|a|] == a;
    assert s[|a| + 1..] == j;
  }

  /** `s.replace(old, new)`: every non-overlapping occurrence of `pat`,
      scanning from the left, becomes `rep`. */
  function Replace(s: string, pat: string, rep: string): string
    requires pat != []
    decreases |s|
  {
    if |s| < |pat| then s
    else if s[..|pat|] == pat then rep + Replace(s[|pat|..], pat, rep)
    else [s[0]] + Replace(s[1..], pat, rep)
  }

  /** Text without an occurrence of `pat` is returned as it is. */
  lemma {:induction false} ReplaceAbsent(s: string, pat: string, rep: string)
    requires pat != []
    requires !Contains(s, pat)
    ensures Replace(s, pat, rep) == s
    decreases |s|
  {
    if |s| >= |pat| {
      ReplaceAbsent(s[1..], pat, rep);
      assert s == [s[0]] + s[1..];
    }
  }

  /** Replacing a piece by itself changes nothing. */
  lemma {:induction false} ReplaceSame(s: string, p: string)
    requires p != []
    ensures Replace(s, p, p) == s
    decreases |s|
  {
    if |s| >= |p| {
      if s[..|p|] == p {
        ReplaceSame(s[|p|..], p);
        assert s == s[..|p|] + s[|p|..];
      } else {
        ReplaceSame(s[1..], p);
        assert s == [s[0]] + s[1..];
      }
    }
  }

  /** A text that contains `p` is at least as long as `p`. */
  lemma {:induction false} ContainsLength(s: string, p: string)
    requires Contains(s, p)
    ensures |p| <= |s|
    decreases |s|
  {
    if !StartsWith(s, p) {
      ContainsLength(s[1..], p);
    }
  }

  /** Where `pat` occurs, the result shows `rep`: `s.replace` really replaces. */
  lemma {:induction false} ReplaceInserts(s: string, pat: string, rep: string)
    requires pat != [] && Contains(s, pat)
    ensures Contains(Replace(s, pat, rep), rep)
    decreases |s|
  {
    if StartsWith(s, pat) {
      ContainsPrefix(rep, Replace(s[|pat|..], pat, rep));
    } else {
      ContainsLength(s[1..], pat);
      ReplaceInserts(s[1..], pat, rep);
      var r := Replace(s[1..], pat, rep);
      assert ([s[0]] + r)[1..] == r;
    }
  }

  /** A prefix that does not hold the first character of `pat` survives the
      replacement. */
  lemma {:induction false} ReplaceKeepsPrefix(s: string, pat: string, rep: string, w: string)
    requires pat != [] && pat[0] !in w && StartsWith(s, w)
    ensures StartsWith(Replace(s, pat, rep), w)
    decreases |s|
  {
    if w != [] && |s| >= |pat| {
      assert s[0] == w[0] && s[0] != pat[0];
      assert s[..|pat|][0] == s[0];
      assert s[1..][..|w| - 1] == w[1..];
      assert forall k :: 0 <= k < |w| - 1 ==> w[1..][k] == w[k + 1];
      ReplaceKeepsPrefix(s[1..], pat, rep, w[1..]);
      var r := Replace(s[1..], pat, rep);
      assert ([s[0]] + r)[..|w|] == [s[0]] + r[..|w| - 1];
    }
  }

  /** Skipping a match of `pat` loses no occurrence of `w` when `w` does not
      start with a character of `pat`. */
  lemma {:induction false} SkipMatch(s: string, pat: string, w: string, k: nat)
    requires k <= |pat| <= |s| && s[..|pat|] == pat
    requires w != [] && w[0] !in pat && Contains(s[k..], w)
    ensures Contains(s[|pat|..], w)
    decreases |pat| - k
  {
    if k < |pat| {
      assert s[k] == pat[k];
      assert s[k..][0] == s[k] && s[k..][1..] == s[k + 1..];
      SkipMatch(s, pat, w, k + 1);
    }
  }

  /** An occurrence of `w` that no match of `pat` can overlap survives the
      replacement: `pat` does not start inside `w`, and `w` does not start
      inside `pat`. */
  lemma {:induction false} ReplaceKeeps(s: string, pat: string, rep: string, w: string)
    requires pat != [] && w != [] && pat[0] !in w && w[0] !in pat && Contains(s, w)
    ensures Contains(Replace(s, pat, rep), w)
    decreases |s|
  {
    if |s| >= |pat| {
      if s[..|pat|] == pat {
        assert s[0..] == s;
        SkipMatch(s, pat, w, 0);
        ReplaceKeeps(s[|pat|..], pat, rep, w);
        var r := Replace(s[|pat|..], pat, rep);
        assert Replace(s, pat, rep) == rep + r;
        assert (rep + r)[|rep|..|rep + r|] == r;
        ContainsWithin(rep + r, |rep|, |rep + r|, w);
      } else if StartsWith(s, w) {
        ReplaceKeepsPrefix(s, pat, rep, w);
      } else {
        ReplaceKeeps(s[1..], pat, rep, w);
        var r := Replace(s[1..], pat, rep);
        assert ([s[0]] + r)[1..] == r;
      }
    }
  }

  /** A character found neither in `s` nor in `rep` is not in the result. */
  lemma {:induction false} ReplaceAvoids(s: string, pat: string, rep: string, c: char)
    requires pat != []
    requires c !in s && c !in rep
    ensures c !in Replace(s, pat, rep)
    decreases |s|
  {
    if |s| >= |pat| {
      if s[..|pat|] == pat {
        ReplaceAvoids(s[|pat|..], pat, rep, c);
      } else {
        ReplaceAvoids(s[1..], pat, rep, c);
      }
    }
  }
}
