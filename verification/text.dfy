/** The string operations of Python's `str` that the pipeline relies on:
    whitespace classification, `strip`, `split()`, `split(sep)`, `join`,
    `lower`, `startswith`/`endswith`, `in`, `replace`, and `str(int)`. */
module Text {

  /** The code points CPython's `str.isspace()` accepts: those that
      `split()`, `strip()` and regex `\s` treat as whitespace. */
  const Whitespace: set<char> := {
    ' ', '\t', '\n', '\U{B}', '\U{C}', '\r',
    '\U{1C}', '\U{1D}', '\U{1E}', '\U{1F}',
    '\U{85}', '\U{A0}', '\U{1680}',
    '\U{2000}', '\U{2001}', '\U{2002}', '\U{2003}', '\U{2004}', '\U{2005}',
    '\U{2006}', '\U{2007}', '\U{2008}', '\U{2009}', '\U{200A}',
    '\U{2028}', '\U{2029}', '\U{202F}', '\U{205F}', '\U{3000}'
  }

  predicate IsSpace(c: char) {
    c in Whitespace
  }

  predicate NotSpace(c: char) { !IsSpace(c) }

  predicate AllSpace(s: string) {
    forall i :: 0 <= i < |s| ==> IsSpace(s[i])
  }

  predicate IsUpper(c: char) { 'A' <= c <= 'Z' }

  /** ASCII case mapping; other characters are left alone. */
  function LowerChar(c: char): (r: char)
    ensures !IsUpper(r)
    ensures !IsUpper(c) ==> r == c
  {
    if IsUpper(c) then (c as int - 'A' as int + 'a' as int) as char else c
  }

  /** `str.lower()` restricted to ASCII letters. */
  function Lower(s: string): (r: string)
    ensures |r| == |s|
    ensures forall i :: 0 <= i < |s| ==> r[i] == LowerChar(s[i])
  {
    seq(|s|, i requires 0 <= i < |s| => LowerChar(s[i]))
  }

  predicate HasNoUpper(s: string) {
    forall i :: 0 <= i < |s| ==> !IsUpper(s[i])
  }

  /** A lowered string has no upper-case letter, and lowering it again
      changes nothing. */
  lemma LowerIsLower(s: string)
    ensures HasNoUpper(Lower(s))
    ensures Lower(Lower(s)) == Lower(s)
  {
  }

  predicate StartsWith(s: string, prefix: string) {
    |prefix| <= |s| && s[..|prefix|] == prefix
  }

  predicate EndsWith(s: string, suffix: string) {
    |suffix| <= |s| && s[|s| - |suffix|..] == suffix
  }

  lemma EndsWithAppend(a: string, b: string)
    ensures EndsWith(a + b, b)
  {
    assert (a + b)[|a + b| - |b|..] == b;
  }

  lemma StartsWithAppend(a: string, b: string)
    ensures StartsWith(a + b, a)
  {
    assert (a + b)[..|a|] == a;
  }

  /** A prefix of a prefix is a prefix. */
  lemma StartsWithTrans(s: string, p: string, q: string)
    requires StartsWith(s, p) && StartsWith(p, q)
    ensures StartsWith(s, q)
  {
    assert s[..|q|] == s[..|p|][..|q|];
  }

  /** Python's `k in text` for strings: `k` occurs at some position. */
  predicate Contains(text: string, k: string)
    decreases |text|
  {
    StartsWith(text, k) || (|text| > 0 && Contains(text[1..], k))
  }

  /** `k` occurs in `text` starting at position `i`. */
  predicate OccursAt(text: string, k: string, i: int) {
    0 <= i <= |text| - |k| && text[i..i + |k|] == k
  }

  /** `Contains` agrees with the positional reading of "occurs in". */
  lemma {:induction false} ContainsAt(text: string, k: string)
    ensures Contains(text, k) <==> exists i :: OccursAt(text, k, i)
    decreases |text|
  {
    if StartsWith(text, k) {
      assert OccursAt(text, k, 0);
    } else if |text| == 0 {
    } else {
      ContainsAt(text[1..], k);
      if Contains(text[1..], k) {
        var i :| OccursAt(text[1..], k, i);
        assert text[i + 1..i + 1 + |k|] == text[1..][i..i + |k|];
        assert OccursAt(text, k, i + 1);
      } else {
        var t := text[1..];
        forall i | 0 <= i <= |text| - |k|
          ensures !OccursAt(text, k, i)
        {
          if i > 0 {
            assert t[i - 1..i - 1 + |k|] == text[i..i + |k|];
            assert !OccursAt(t, k, i - 1);
          }
        }
      }
    }
  }

  // ---------------------------------------------------------------------
  // strip()

  /** `str.strip()`: leading, then trailing whitespace removed. */
  function Strip(s: string): string
    decreases |s|
  {
    if |s| > 0 && IsSpace(s[0]) then Strip(s[1..])
    else if |s| > 0 && IsSpace(s[|s| - 1]) then Strip(s[..|s| - 1])
    else s
  }

  /** `t` is `s` with the all-whitespace prefix `s[..i]` and suffix
      `s[j..]` cut off. */
  predicate OuterTrim(s: string, t: string, i: int, j: int) {
    0 <= i <= j <= |s| && t == s[i..j] && AllSpace(s[..i]) && AllSpace(s[j..])
  }

  lemma TrimFront(s: string, t: string, i: int, j: int)
    requires |s| > 0 && IsSpace(s[0]) && OuterTrim(s[1..], t, i, j)
    ensures OuterTrim(s, t, i + 1, j + 1)
  {
    assert s[1..][i..j] == s[i + 1..j + 1];
    assert s[1..][j..] == s[j + 1..];
    var pre := s[..i + 1];
    forall k | 0 <= k < |pre| ensures IsSpace(pre[k]) {
      if k > 0 { assert pre[k] == s[1..][..i][k - 1]; }
    }
  }

  lemma TrimBack(s: string, t: string, i: int, j: int)
    requires |s| > 0 && IsSpace(s[|s| - 1]) && OuterTrim(s[..|s| - 1], t, i, j)
    ensures OuterTrim(s, t, i, j)
  {
    var u := s[..|s| - 1];
    assert u[i..j] == s[i..j];
    assert u[..i] == s[..i];
    var post := s[j..];
    forall k | 0 <= k < |post| ensures IsSpace(post[k]) {
      if j + k < |u| { assert post[k] == u[j..][k]; }
    }
  }

  /** `strip()` removes outer whitespace only: the result is the input
      with an all-whitespace prefix and suffix cut off. */
  lemma {:induction false} StripInfix(s: string)
    ensures exists i, j :: OuterTrim(s, Strip(s), i, j)
    decreases |s|
  {
    if |s| > 0 && IsSpace(s[0]) {
      StripInfix(s[1..]);
      var i, j :| OuterTrim(s[1..], Strip(s[1..]), i, j);
      TrimFront(s, Strip(s), i, j);
    } else if |s| > 0 && IsSpace(s[|s| - 1]) {
      StripInfix(s[..|s| - 1]);
      var i, j :| OuterTrim(s[..|s| - 1], Strip(s[..|s| - 1]), i, j);
      TrimBack(s, Strip(s), i, j);
    } else {
      assert OuterTrim(s, Strip(s), 0, |s|);
    }
  }

  /** What `strip()` promises: the result neither starts nor ends with
      whitespace, it is empty exactly when the input is all whitespace, an
      input without outer whitespace is returned as it is, and otherwise
      only outer whitespace is removed. */
  lemma {:induction false} StripFacts(s: string)
    ensures exists i, j :: OuterTrim(s, Strip(s), i, j)
    ensures |Strip(s)| <= |s|
    ensures Strip(s) == [] || (!IsSpace(Strip(s)[0]) && !IsSpace(Strip(s)[|Strip(s)| - 1]))
    ensures Strip(s) == [] <==> AllSpace(s)
    ensures (|s| == 0 || (!IsSpace(s[0]) && !IsSpace(s[|s| - 1]))) ==> Strip(s) == s
    decreases |s|
  {
    if |s| > 0 && IsSpace(s[0]) {
      StripFacts(s[1..]);
      assert AllSpace(s) <==> AllSpace(s[1..]) by {
        if AllSpace(s[1..]) {
          forall i | 0 <= i < |s| ensures IsSpace(s[i]) {
            if i > 0 { assert s[i] == s[1..][i - 1]; }
          }
        }
      }
    } else if |s| > 0 && IsSpace(s[|s| - 1]) {
      StripFacts(s[..|s| - 1]);
      assert !AllSpace(s) && !AllSpace(s[..|s| - 1]) by {
        assert s[..|s| - 1][0] == s[0];
      }
    } else if |s| > 0 {
      assert !AllSpace(s) by { assert !IsSpace(s[0]); }
    }
    StripInfix(s);
  }

  /** Stripping twice is stripping once. */
  lemma StripIdempotent(s: string)
    ensures Strip(Strip(s)) == Strip(s)
  {
    StripFacts(s);
    StripFacts(Strip(s));
  }

  // ---------------------------------------------------------------------
  // Maximal runs of characters of one class: `split()` (runs of
  // non-whitespace), `re.split(r"\W+")` minus empties (runs of word
  // characters), vowel groups.

  /** Length of the longest prefix of `s` whose characters all satisfy `keep`. */
  function LeadRun(s: string, keep: char -> bool): (n: nat)
    ensures n <= |s|
    ensures forall i :: 0 <= i < n ==> keep(s[i])
    ensures n < |s| ==> !keep(s[n])
  {
    if |s| > 0 && keep(s[0]) then 1 + LeadRun(s[1..], keep) else 0
  }

  /** The maximal runs of `keep` characters of `s`, left to right. */
  function Runs(s: string, keep: char -> bool): seq<string>
    decreases |s|
  {
    if |s| == 0 then []
    else if !keep(s[0]) then Runs(s[1..], keep)
    else
      var n := LeadRun(s, keep);
      [s[..n]] + Runs(s[n..], keep)
  }

  /** Runs are separated by at least one other character, so a string of
      length m holds at most (m + 1) / 2 of them. */
  lemma {:induction false} RunsBound(s: string, keep: char -> bool)
    ensures 2 * |Runs(s, keep)| <= |s| + 1
    ensures |Runs(s, keep)| <= |s|
    decreases |s|
  {
    if |s| > 0 {
      if !keep(s[0]) {
        RunsBound(s[1..], keep);
      } else {
        var n := LeadRun(s, keep);
        if n < |s| {
          RunsBound(s[n..][1..], keep);
          assert Runs(s[n..], keep) == Runs(s[n..][1..], keep);
        }
      }
    }
  }

  /** Every run is non-empty and made only of `keep` characters, and there
      are none exactly when no character of `s` satisfies `keep`. */
  lemma {:induction false} RunsShape(s: string, keep: char -> bool)
    ensures forall i :: 0 <= i < |Runs(s, keep)| ==> |Runs(s, keep)[i]| > 0
    ensures forall i, j :: 0 <= i < |Runs(s, keep)| && 0 <= j < |Runs(s, keep)[i]| ==>
              keep(Runs(s, keep)[i][j])
    ensures Runs(s, keep) == [] <==> forall i :: 0 <= i < |s| ==> !keep(s[i])
    decreases |s|
  {
    if |s| == 0 {
    } else if !keep(s[0]) {
      RunsShape(s[1..], keep);
      if Runs(s[1..], keep) == [] {
        forall i | 0 <= i < |s| ensures !keep(s[i]) {
          if i > 0 { assert s[i] == s[1..][i - 1]; }
        }
      }
    } else {
      var n := LeadRun(s, keep);
      RunsShape(s[n..], keep);
      var r := Runs(s, keep);
      assert r == [s[..n]] + Runs(s[n..], keep);
      forall i | 0 <= i < |r| ensures |r[i]| > 0 && forall j :: 0 <= j < |r[i]| ==> keep(r[i][j]) {
        if i > 0 { assert r[i] == Runs(s[n..], keep)[i - 1]; }
      }
    }
  }

  /** Python's `len(s.split())`. */
  function WordCount(s: string): nat {
    |Runs(s, NotSpace)|
  }

  /** A string has no whitespace-separated word exactly when it is blank. */
  lemma NoWordsIffBlank(s: string)
    ensures WordCount(s) == 0 <==> Strip(s) == ""
  {
    RunsShape(s, NotSpace);
    StripFacts(s);
  }

  /** Characters kept by `keep`, in order. */
  function Filter(s: string, keep: char -> bool): (r: string)
    ensures |r| <= |s|
  {
    if |s| == 0 then [] else (if keep(s[0]) then [s[0]] else []) + Filter(s[1..], keep)
  }

  function Concat(xs: seq<string>): string {
    if |xs| == 0 then [] else xs[0] + Concat(xs[1..])
  }

  lemma {:induction false} ConcatAppend(xs: seq<string>, ys: seq<string>)
    ensures Concat(xs + ys) == Concat(xs) + Concat(ys)
    decreases |xs|
  {
    if |xs| > 0 {
      assert (xs + ys)[1..] == xs[1..] + ys;
      ConcatAppend(xs[1..], ys);
    } else {
      assert xs + ys == ys;
    }
  }

  lemma {:induction false} FilterAppend(a: string, b: string, keep: char -> bool)
    ensures Filter(a + b, keep) == Filter(a, keep) + Filter(b, keep)
    decreases |a|
  {
    if |a| > 0 {
      assert (a + b)[1..] == a[1..] + b;
      FilterAppend(a[1..], b, keep);
    } else {
      assert a + b == b;
    }
  }

  /** Gluing the runs back together gives exactly the kept characters: runs
      lose only separators, never content, and never reorder it. */
  lemma {:induction false} RunsConcat(s: string, keep: char -> bool)
    ensures Concat(Runs(s, keep)) == Filter(s, keep)
    decreases |s|
  {
    if |s| == 0 {
    } else if !keep(s[0]) {
      RunsConcat(s[1..], keep);
    } else {
      var n := LeadRun(s, keep);
      RunsConcat(s[n..], keep);
      assert s == s[..n] + s[n..];
      FilterAppend(s[..n], s[n..], keep);
      FilterAllKept(s[..n], keep);
    }
  }

  /** A character outside the class ends the leading run at the seam. */
  lemma {:induction false} LeadRunAppend(a: string, b: string, keep: char -> bool)
    requires |b| > 0 && !keep(b[0])
    ensures LeadRun(a + b, keep) == LeadRun(a, keep)
    decreases |a|
  {
    if |a| == 0 {
      assert a + b == b;
    } else if keep(a[0]) {
      assert (a + b)[1..] == a[1..] + b;
      LeadRunAppend(a[1..], b, keep);
    }
  }

  /** Characters outside the class in front add no run. */
  lemma {:induction false} RunsSkip(x: string, y: string, keep: char -> bool)
    requires forall i :: 0 <= i < |x| ==> !keep(x[i])
    ensures Runs(x + y, keep) == Runs(y, keep)
    decreases |x|
  {
    if |x| == 0 {
      assert x + y == y;
    } else {
      assert (x + y)[0] == x[0];
      assert (x + y)[1..] == x[1..] + y;
      RunsSkip(x[1..], y, keep);
    }
  }

  /** Runs do not cross a character outside the class: the runs of `a + b`,
      when `b` starts with one, are those of `a` followed by those of `b`. */
  lemma {:induction false} RunsAppendSep(a: string, b: string, keep: char -> bool)
    requires |b| > 0 && !keep(b[0])
    ensures Runs(a + b, keep) == Runs(a, keep) + Runs(b, keep)
    decreases |a|
  {
    if |a| == 0 {
      assert a + b == b;
    } else if !keep(a[0]) {
      assert (a + b)[0] == a[0];
      assert (a + b)[1..] == a[1..] + b;
      RunsAppendSep(a[1..], b, keep);
    } else {
      var n := LeadRun(a, keep);
      LeadRunAppend(a, b, keep);
      assert (a + b)[0] == a[0];
      assert (a + b)[..n] == a[..n];
      assert (a + b)[n..] == a[n..] + b;
      RunsAppendSep(a[n..], b, keep);
      assert [a[..n]] + (Runs(a[n..], keep) + Runs(b, keep)) == ([a[..n]] + Runs(a[n..], keep)) + Runs(b, keep);
    }
  }

  /** `strip()` changes no run of a class without whitespace. */
  lemma RunsStrip(s: string, keep: char -> bool)
    requires forall c :: IsSpace(c) ==> !keep(c)
    ensures Runs(Strip(s), keep) == Runs(s, keep)
  {
    StripInfix(s);
    var i, j :| OuterTrim(s, Strip(s), i, j);
    var m := s[i..j];
    var post := s[j..];
    assert s == s[..i] + (m + post);
    assert forall k :: 0 <= k < |s[..i]| ==> IsSpace(s[..i][k]);
    RunsSkip(s[..i], m + post, keep);
    if |post| > 0 {
      assert forall k :: 0 <= k < |post| ==> IsSpace(post[k]);
      RunsAppendSep(m, post, keep);
      RunsSkip(post, [], keep);
      assert post + [] == post;
    } else {
      assert m + post == m;
    }
  }

  lemma {:induction false} FilterAllKept(s: string, keep: char -> bool)
    requires forall i :: 0 <= i < |s| ==> keep(s[i])
    ensures Filter(s, keep) == s
    decreases |s|
  {
    if |s| > 0 {
      FilterAllKept(s[1..], keep);
    }
  }

  lemma {:induction false} FilterNoneKept(s: string, keep: char -> bool)
    requires forall i :: 0 <= i < |s| ==> !keep(s[i])
    ensures Filter(s, keep) == ""
    decreases |s|
  {
    if |s| > 0 {
      FilterNoneKept(s[1..], keep);
    }
  }

  /** `strip()` removes only whitespace: the other characters survive, in
      order. */
  lemma {:induction false} StripKeepsNonSpace(s: string)
    ensures Filter(Strip(s), NotSpace) == Filter(s, NotSpace)
    decreases |s|
  {
    if |s| > 0 && IsSpace(s[0]) {
      StripKeepsNonSpace(s[1..]);
    } else if |s| > 0 && IsSpace(s[|s| - 1]) {
      StripKeepsNonSpace(s[..|s| - 1]);
      assert s == s[..|s| - 1] + [s[|s| - 1]];
      FilterAppend(s[..|s| - 1], [s[|s| - 1]], NotSpace);
    }
  }

  // ---------------------------------------------------------------------
  // join / split(sep)

  /** `sep.join(xs)`. */
  function Join(sep: string, xs: seq<string>): string {
    if |xs| == 0 then []
    else if |xs| == 1 then xs[0]
    else xs[0] + sep + Join(sep, xs[1..])
  }

  /** Joining two non-empty lists puts one separator between them. */
  lemma {:induction false} JoinAppend(sep: string, xs: seq<string>, ys: seq<string>)
    requires |xs| > 0 && |ys| > 0
    ensures Join(sep, xs + ys) == Join(sep, xs) + sep + Join(sep, ys)
    decreases |xs|
  {
    if |xs| > 1 {
      assert (xs + ys)[1..] == xs[1..] + ys;
      JoinAppend(sep, xs[1..], ys);
    } else {
      assert (xs + ys)[1..] == ys;
    }
  }

  function IndexOf(s: string, c: char): (i: nat)
    requires c in s
    ensures i < |s| && s[i] == c
    ensures c !in s[..i]
  {
    if s[0] == c then 0 else 1 + IndexOf(s[1..], c)
  }

  /** `IndexOf` finds the first occurrence. */
  lemma {:induction false} IndexOfFirst(s: string, c: char, k: nat)
    requires k < |s| && s[k] == c
    requires forall j :: 0 <= j < k ==> s[j] != c
    ensures IndexOf(s, c) == k
    decreases k
  {
    if k > 0 {
      IndexOfFirst(s[1..], c, k - 1);
    }
  }

  /** `s.split(sep)` for a one-character separator: always at least one
      part, no part holds the separator, and empty parts are kept. */
  function SplitOn(s: string, sep: char): (r: seq<string>)
    ensures |r| >= 1
    ensures forall i :: 0 <= i < |r| ==> sep !in r[i]
    decreases |s|
  {
    if sep !in s then [s]
    else
      var i := IndexOf(s, sep);
      [s[..i]] + SplitOn(s[i + 1..], sep)
  }

  /** Splitting on a separator and joining with it again restores the
      original string. */
  lemma {:induction false} JoinSplitOn(s: string, sep: char)
    ensures Join([sep], SplitOn(s, sep)) == s
    decreases |s|
  {
    if sep in s {
      var i := IndexOf(s, sep);
      var rest := SplitOn(s[i + 1..], sep);
      JoinSplitOn(s[i + 1..], sep);
      assert SplitOn(s, sep) == [s[..i]] + rest;
      assert s == s[..i] + [sep] + s[i + 1..];
    }
  }

  /** Splitting a string that was built by joining separator-free parts
      recovers those parts. */
  lemma {:induction false} SplitOnJoin(parts: seq<string>, sep: char)
    requires |parts| >= 1
    requires forall i :: 0 <= i < |parts| ==> sep !in parts[i]
    ensures SplitOn(Join([sep], parts), sep) == parts
    decreases |parts|
  {
    if |parts| == 1 {
    } else {
      var s := Join([sep], parts);
      var tail := Join([sep], parts[1..]);
      assert s == parts[0] + [sep] + tail;
      assert s[|parts[0]|] == sep;
      assert s[..|parts[0]|] == parts[0];
      var i := IndexOf(s, sep);
      forall j | 0 <= j < |parts[0]|
        ensures s[j] != sep
      {
        assert s[j] == parts[0][j];
      }
      IndexOfFirst(s, sep, |parts[0]|);
      assert s[i + 1..] == tail;
      SplitOnJoin(parts[1..], sep);
    }
  }

  /** The first separator of a string cuts off its first part. */
  lemma SplitAtFirst(s: string, sep: char, k: nat)
    requires k < |s| && s[k] == sep
    requires forall j :: 0 <= j < k ==> s[j] != sep
    ensures SplitOn(s, sep) == [s[..k]] + SplitOn(s[k + 1..], sep)
  {
    IndexOfFirst(s, sep, k);
  }

  /** With no separator in `a`, the separator after it cuts off `a` whole. */
  lemma SplitConcatPlain(a: string, b: string, sep: char)
    requires sep !in a
    ensures SplitOn(a + [sep] + b, sep) == [a] + SplitOn(b, sep)
  {
    var s := a + [sep] + b;
    forall j | 0 <= j < |a| ensures s[j] != sep {
      assert s[j] == a[j];
    }
    SplitAtFirst(s, sep, |a|);
    assert s[|a| + 1..] == b;
    assert s[..|a|] == a;
  }

  /** A separator inside `a` comes before the one appended after it. */
  lemma SplitConcatInner(a: string, b: string, sep: char, i: nat)
    requires sep in a && i == IndexOf(a, sep)
    ensures SplitOn(a + [sep] + b, sep) == [a[..i]] + SplitOn(a[i + 1..] + [sep] + b, sep)
  {
    var s := a + [sep] + b;
    forall j | 0 <= j < i ensures s[j] != sep {
      assert s[j] == a[j];
      assert a[j] != sep by { assert a[..i][j] == a[j]; }
    }
    SplitAtFirst(s, sep, i);
    assert s[..i] == a[..i];
    assert s[i + 1..] == a[i + 1..] + [sep] + b;
  }

  /** Splitting at a separator between two strings splits each side. */
  lemma {:induction false} SplitOnConcat(a: string, b: string, sep: char)
    ensures SplitOn(a + [sep] + b, sep) == SplitOn(a, sep) + SplitOn(b, sep)
    decreases |a|
  {
    if sep !in a {
      SplitConcatPlain(a, b, sep);
    } else {
      var i := IndexOf(a, sep);
      SplitConcatInner(a, b, sep, i);
      SplitOnConcat(a[i + 1..], b, sep);
      var x, p, q := [a[..i]], SplitOn(a[i + 1..], sep), SplitOn(b, sep);
      assert x + (p + q) == (x + p) + q;
    }
  }

  // ---------------------------------------------------------------------
  // replace

  /** The scan behind `text.replace(pat, rep)` for a non-empty `pat`:
      every occurrence, taken left to right without overlap, is replaced. */
  function ReplaceScan(text: string, pat: string, rep: string): string
    requires |pat| > 0
    decreases |text|
  {
    if |text| < |pat| then text
    else if text[..|pat|] == pat then rep + ReplaceScan(text[|pat|..], pat, rep)
    else [text[0]] + ReplaceScan(text[1..], pat, rep)
  }

  /** A text without the pattern, or a pattern replaced by itself, comes
      back unchanged. */
  lemma {:induction false} ReplaceScanUnchanged(text: string, pat: string, rep: string)
    requires |pat| > 0
    ensures !Contains(text, pat) ==> ReplaceScan(text, pat, rep) == text
    ensures pat == rep ==> ReplaceScan(text, pat, rep) == text
    decreases |text|
  {
    if |text| < |pat| {
    } else if text[..|pat|] == pat {
      ReplaceScanUnchanged(text[|pat|..], pat, rep);
      assert StartsWith(text, pat);
      assert pat + text[|pat|..] == text;
    } else {
      ReplaceScanUnchanged(text[1..], pat, rep);
      assert !Contains(text, pat) ==> !Contains(text[1..], pat);
      assert [text[0]] + text[1..] == text;
    }
  }

  /** `text.replace(pat, rep)` for a non-empty `pat`. */
  function Replace(text: string, pat: string, rep: string): (r: string)
    requires |pat| > 0
    ensures !Contains(text, pat) ==> r == text
    ensures pat == rep ==> r == text
  {
    ReplaceScanUnchanged(text, pat, rep);
    ReplaceScan(text, pat, rep)
  }

  /** An occurrence at the front is replaced. */
  lemma ReplaceHit(text: string, pat: string, rep: string)
    requires |pat| > 0 && OccursAt(text, pat, 0)
    ensures ReplaceScan(text, pat, rep) == rep + ReplaceScan(text[|pat|..], pat, rep)
  {
    assert text[..|pat|] == pat;
  }

  /** A front character that starts no occurrence is kept. */
  lemma ReplaceMiss(text: string, pat: string, rep: string)
    requires |pat| > 0 && |pat| <= |text| && !OccursAt(text, pat, 0)
    ensures ReplaceScan(text, pat, rep) == [text[0]] + ReplaceScan(text[1..], pat, rep)
  {
  }

  /** No occurrence of `pat` starts before position `i`, stated one front
      character at a time. */
  predicate NoneBefore(text: string, pat: string, i: nat)
    decreases i
  {
    i == 0 || (!OccursAt(text, pat, 0) && |text| > 0 && NoneBefore(text[1..], pat, i - 1))
  }

  lemma {:induction false} NoneBeforeOf(text: string, pat: string, i: nat)
    requires OccursAt(text, pat, i)
    requires forall j :: 0 <= j < i ==> !OccursAt(text, pat, j)
    ensures NoneBefore(text, pat, i)
    decreases i
  {
    if i > 0 {
      var t := text[1..];
      assert !OccursAt(text, pat, 0);
      assert t[i - 1..i - 1 + |pat|] == text[i..i + |pat|];
      forall j | 0 <= j < i - 1 ensures !OccursAt(t, pat, j) {
        assert !OccursAt(text, pat, j + 1);
        assert t[j..j + |pat|] == text[j + 1..j + 1 + |pat|];
      }
      NoneBeforeOf(t, pat, i - 1);
    }
  }

  lemma DropOccurs(text: string, pat: string, i: nat)
    requires 0 < i && OccursAt(text, pat, i)
    ensures OccursAt(text[1..], pat, i - 1)
  {
    assert text[1..][i - 1..i - 1 + |pat|] == text[i..i + |pat|];
  }

  /** The scan keeps `text[..i]`, replaces the occurrence at `i` and goes
      on after it. */
  predicate ReplacedAt(text: string, pat: string, rep: string, i: nat)
    requires |pat| > 0 && OccursAt(text, pat, i)
  {
    ReplaceScan(text, pat, rep) == text[..i] + rep + ReplaceScan(text[i + |pat|..], pat, rep)
  }

  lemma {:induction false} ReplaceAfterNone(text: string, pat: string, rep: string, i: nat)
    requires |pat| > 0 && OccursAt(text, pat, i) && NoneBefore(text, pat, i)
    ensures ReplacedAt(text, pat, rep, i)
    decreases i
  {
    if i == 0 {
      ReplaceHit(text, pat, rep);
      assert text[..0] == [];
    } else {
      DropOccurs(text, pat, i);
      ReplaceAfterNone(text[1..], pat, rep, i - 1);
      ReplaceKeepFront(text, pat, rep, i);
    }
  }

  /** One step of the scan before the first occurrence: the front character
      is kept in front of the rest's replacement. */
  lemma ReplaceKeepFront(text: string, pat: string, rep: string, i: nat)
    requires |pat| > 0 && 0 < i && OccursAt(text, pat, i) && !OccursAt(text, pat, 0)
    requires OccursAt(text[1..], pat, i - 1) && ReplacedAt(text[1..], pat, rep, i - 1)
    ensures ReplacedAt(text, pat, rep, i)
  {
    var t := text[1..];
    ReplaceMiss(text, pat, rep);
    DropFront(text, i, |pat|);
    ConsConcat(text[0], t[..i - 1], text[..i], rep, ReplaceScan(text[i + |pat|..], pat, rep),
      ReplaceScan(t, pat, rep), ReplaceScan(text, pat, rep));
  }

  /** The leftmost occurrence of `pat` is the one replaced: the text
      before it is kept, the occurrence becomes `rep`, and the scan resumes
      after it. */
  lemma ReplaceAtFirst(text: string, pat: string, rep: string, i: nat)
    requires |pat| > 0 && OccursAt(text, pat, i)
    requires forall j :: 0 <= j < i ==> !OccursAt(text, pat, j)
    ensures Replace(text, pat, rep) == text[..i] + rep + Replace(text[i + |pat|..], pat, rep)
  {
    NoneBeforeOf(text, pat, i);
    ReplaceAfterNone(text, pat, rep, i);
  }

  lemma DropFront(s: string, i: nat, n: nat)
    requires 0 < i && i + n <= |s|
    ensures s[1..][i - 1 + n..] == s[i + n..]
    ensures [s[0]] + s[1..][..i - 1] == s[..i]
  {
  }

  lemma ConsConcat(c: char, p: string, q: string, rep: string, x: string, rest: string, whole: string)
    requires whole == [c] + rest && rest == p + rep + x && [c] + p == q
    ensures whole == q + rep + x
  {
  }

  /** A text that is exactly the pattern is replaced whole. */
  lemma ReplaceWhole(pat: string, rep: string)
    requires |pat| > 0
    ensures Replace(pat, pat, rep) == rep
  {
    ReplaceAtFirst(pat, pat, rep, 0);
    assert pat[|pat|..] == [];
  }

  // ---------------------------------------------------------------------
  // str(n) for a natural number

  function DigitChar(d: nat): (c: char)
    requires d < 10
    ensures '0' <= c <= '9'
  {
    ('0' as int + d) as char
  }

  predicate IsDigit(c: char) { '0' <= c <= '9' }

  /** `str(n)`: decimal digits, no leading zero. */
  function NatToString(n: nat): (r: string)
    ensures |r| >= 1
    ensures forall i :: 0 <= i < |r| ==> IsDigit(r[i])
    ensures r[0] == '0' ==> n == 0
    decreases n
  {
    if n < 10 then [DigitChar(n)] else NatToString(n / 10) + [DigitChar(n % 10)]
  }

  /** The value a string of decimal digits denotes. */
  function DigitsValue(s: string): nat
    requires forall i :: 0 <= i < |s| ==> IsDigit(s[i])
  {
    if |s| == 0 then 0
    else
      assert IsDigit(s[|s| - 1]);
      10 * DigitsValue(s[..|s| - 1]) + (s[|s| - 1] as int - '0' as int)
  }

  /** Reading back the decimal rendering gives the number. */
  lemma {:induction false} NatToStringValue(n: nat)
    ensures DigitsValue(NatToString(n)) == n
    decreases n
  {
    if n >= 10 {
      NatToStringValue(n / 10);
      var s := NatToString(n);
      assert s[..|s| - 1] == NatToString(n / 10);
    }
  }

  /** Distinct numbers print differently. */
  lemma NatToStringInjective(m: nat, n: nat)
    requires NatToString(m) == NatToString(n)
    ensures m == n
  {
    NatToStringValue(m);
    NatToStringValue(n);
  }
}
