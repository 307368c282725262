/** `collections.Counter` as the report uses it: a tally of a sequence in
    first-occurrence order (the dictionary order CPython keeps), and
    `most_common(n)`, which sorts the entries by count, highest first,
    keeping entries of equal count in tally order (the sort is stable),
    then keeps the first `n`. */
module Counter {
  import opened Common

  type Entry<T> = (T, nat)

  /** The keys of a list of entries, in order. */
  function Keys<T(==)>(t: seq<Entry<T>>): seq<T> {
    Firsts(t)
  }

  predicate Distinct<T(==)>(xs: seq<T>) {
    forall i, j :: 0 <= i < j < |xs| ==> xs[i] != xs[j]
  }

  /** The count recorded for `x`, 0 when `x` is not a key. */
  function CountOf<T(==)>(t: seq<Entry<T>>, x: T): nat {
    if |t| == 0 then 0
    else if t[0].0 == x then t[0].1
    else CountOf(t[1..], x)
  }

  /** One more occurrence of `x`: its entry is incremented in place, or a
      new entry with count 1 goes at the end. */
  function Bump<T(==)>(t: seq<Entry<T>>, x: T): seq<Entry<T>> {
    if |t| == 0 then [(x, 1)]
    else if t[0].0 == x then [(x, t[0].1 + 1)] + t[1..]
    else [t[0]] + Bump(t[1..], x)
  }

  /** `Counter(xs)`. */
  function Tally<T(==)>(xs: seq<T>): seq<Entry<T>>
    decreases |xs|
  {
    if |xs| == 0 then [] else Bump(Tally(xs[..|xs| - 1]), xs[|xs| - 1])
  }

  /** The elements of `xs` without repeats, each at its first occurrence:
      the reference for the order of a tally's keys. */
  function Dedup<T(==)>(xs: seq<T>): seq<T>
    decreases |xs|
  {
    if |xs| == 0 then []
    else
      var init := xs[..|xs| - 1];
      Dedup(init) + (if xs[|xs| - 1] in init then [] else [xs[|xs| - 1]])
  }

  lemma KeysCons<T>(h: Entry<T>, t: seq<Entry<T>>)
    ensures Keys([h] + t) == [h.0] + Keys(t)
  {
  }

  lemma {:induction false} BumpKeys<T>(t: seq<Entry<T>>, x: T)
    ensures Keys(Bump(t, x)) == if x in Keys(t) then Keys(t) else Keys(t) + [x]
    decreases |t|
  {
    if |t| > 0 {
      assert t == [t[0]] + t[1..];
      KeysCons(t[0], t[1..]);
      if t[0].0 != x {
        BumpKeys(t[1..], x);
        KeysCons(t[0], Bump(t[1..], x));
      } else {
        KeysCons((x, t[0].1 + 1), t[1..]);
      }
    }
  }

  lemma {:induction false} BumpCounts<T>(t: seq<Entry<T>>, x: T)
    ensures forall y :: CountOf(Bump(t, x), y) == CountOf(t, y) + (if y == x then 1 else 0)
    decreases |t|
  {
    if |t| > 0 && t[0].0 != x {
      BumpCounts(t[1..], x);
      assert Bump(t, x)[1..] == Bump(t[1..], x);
    } else if |t| > 0 {
      assert Bump(t, x)[1..] == t[1..];
    }
  }

  lemma {:induction false} BumpPositive<T>(t: seq<Entry<T>>, x: T)
    requires forall i :: 0 <= i < |t| ==> t[i].1 > 0
    ensures forall i :: 0 <= i < |Bump(t, x)| ==> Bump(t, x)[i].1 > 0
    decreases |t|
  {
    if |t| > 0 && t[0].0 != x {
      BumpPositive(t[1..], x);
      assert Bump(t, x)[1..] == Bump(t[1..], x);
    }
  }

  /** What a tally records: its keys are the distinct elements in the
      order they first occur, each with its number of occurrences, and no
      count is 0. */
  lemma TallySpec<T>(xs: seq<T>)
    ensures Keys(Tally(xs)) == Dedup(xs)
    ensures forall x :: CountOf(Tally(xs), x) == multiset(xs)[x]
    ensures forall i :: 0 <= i < |Tally(xs)| ==> Tally(xs)[i].1 > 0
  {
    TallyKeys(xs);
    TallyCounts(xs);
    TallyPositive(xs);
  }

  lemma {:induction false} TallyKeys<T>(xs: seq<T>)
    ensures Keys(Tally(xs)) == Dedup(xs)
    decreases |xs|
  {
    if |xs| > 0 {
      var init := xs[..|xs| - 1];
      var x := xs[|xs| - 1];
      TallyKeys(init);
      BumpKeys(Tally(init), x);
      DedupMembers(init);
    }
  }

  lemma {:induction false} TallyCounts<T>(xs: seq<T>)
    ensures forall x :: CountOf(Tally(xs), x) == multiset(xs)[x]
    decreases |xs|
  {
    if |xs| > 0 {
      var init := xs[..|xs| - 1];
      var x := xs[|xs| - 1];
      TallyCounts(init);
      BumpCounts(Tally(init), x);
      assert xs == init + [x];
      assert multiset(xs) == multiset(init) + multiset{x};
    }
  }

  lemma {:induction false} TallyPositive<T>(xs: seq<T>)
    ensures forall i :: 0 <= i < |Tally(xs)| ==> Tally(xs)[i].1 > 0
    decreases |xs|
  {
    if |xs| > 0 {
      var init := xs[..|xs| - 1];
      TallyPositive(init);
      BumpPositive(Tally(init), xs[|xs| - 1]);
    }
  }

  /** `Dedup` lists each element of `xs` once and nothing else. */
  lemma {:induction false} DedupMembers<T>(xs: seq<T>)
    ensures forall x :: x in Dedup(xs) <==> x in xs
    ensures Distinct(Dedup(xs))
    decreases |xs|
  {
    if |xs| > 0 {
      var init := xs[..|xs| - 1];
      DedupMembers(init);
      assert xs == init + [xs[|xs| - 1]];
    }
  }

  /** `set(xs)`. */
  function Elements<T(==)>(xs: seq<T>): set<T> {
    set x | x in xs
  }

  lemma {:induction false} DistinctCard<T>(xs: seq<T>)
    requires Distinct(xs)
    ensures |Elements(xs)| == |xs|
    decreases |xs|
  {
    if |xs| > 0 {
      var init := xs[..|xs| - 1];
      var x := xs[|xs| - 1];
      assert Distinct(init);
      DistinctCard(init);
      assert xs == init + [x];
      assert Elements(xs) == Elements(init) + {x};
      assert x !in init by {
        forall i | 0 <= i < |init| ensures init[i] != x {
          assert xs[i] != xs[|xs| - 1];
        }
      }
    }
  }

  lemma {:induction false} DedupLength<T>(xs: seq<T>)
    ensures |Dedup(xs)| <= |xs|
    decreases |xs|
  {
    if |xs| > 0 {
      DedupLength(xs[..|xs| - 1]);
    }
  }

  /** The number of distinct elements, `len(set(xs))`, is the number of
      keys in the tally, and never exceeds `len(xs)`. */
  lemma DistinctCount<T>(xs: seq<T>)
    ensures |Elements(xs)| == |Tally(xs)| <= |xs|
  {
    TallySpec(xs);
    DedupMembers(xs);
    DedupLength(xs);
    DistinctCard(Dedup(xs));
    assert Elements(Dedup(xs)) == Elements(xs);
  }

  /** Every key's count is 1 exactly when the tallied sequence has no
      repeated element: the report's "all sentences are unique" test. */
  predicate AllOnce<T(==)>(t: seq<Entry<T>>) {
    forall i :: 0 <= i < |t| ==> t[i].1 == 1
  }

  lemma AllOnceIffDistinct<T>(xs: seq<T>)
    ensures AllOnce(Tally(xs)) <==> Distinct(xs)
  {
    TallySpec(xs);
    DedupMembers(xs);
    var t := Tally(xs);
    if AllOnce(t) {
      forall i, j | 0 <= i < j < |xs| ensures xs[i] != xs[j] {
        if xs[i] == xs[j] {
          TwoOccurrences(xs, i, j);
          var k := KeyIndex(t, xs[i]);
          CountOfAt(t, k);
        }
      }
    } else {
      var k :| 0 <= k < |t| && t[k].1 != 1;
      CountOfAt(t, k);
      assert t[k].0 in Keys(t);
      var x := t[k].0;
      assert multiset(xs)[x] >= 2;
      RepeatedElement(xs, x);
    }
  }

  lemma {:induction false} TwoOccurrences<T>(xs: seq<T>, i: nat, j: nat)
    requires i < j < |xs| && xs[i] == xs[j]
    ensures multiset(xs)[xs[i]] >= 2
  {
    assert xs == xs[..i] + [xs[i]] + xs[i + 1..j] + [xs[j]] + xs[j + 1..];
  }

  lemma {:induction false} RepeatedElement<T>(xs: seq<T>, x: T)
    requires multiset(xs)[x] >= 2
    ensures !Distinct(xs)
    decreases |xs|
  {
    var n := |xs| - 1;
    assert xs == xs[..n] + [xs[n]];
    if xs[n] == x {
      assert x in xs[..n];
      var i :| 0 <= i < n && xs[..n][i] == x;
      assert xs[i] == xs[n];
    } else {
      RepeatedElement(xs[..n], x);
      var i, j :| 0 <= i < j < n && xs[..n][i] == xs[..n][j];
      assert xs[i] == xs[j];
    }
  }

  /** The index of a key among distinct keys. */
  function KeyIndex<T(==)>(t: seq<Entry<T>>, x: T): (k: nat)
    requires x in Keys(t)
    ensures k < |t| && t[k].0 == x
  {
    if t[0].0 == x then 0
    else
      assert x in Keys(t[1..]) by {
        var i :| 0 <= i < |t| && Keys(t)[i] == x;
        assert Keys(t[1..])[i - 1] == x;
      }
      1 + KeyIndex(t[1..], x)
  }

  /** With distinct keys, `CountOf` reads the count at the key's index. */
  lemma {:induction false} CountOfAt<T>(t: seq<Entry<T>>, k: nat)
    requires k < |t| && Distinct(Keys(t))
    ensures CountOf(t, t[k].0) == t[k].1
    decreases k
  {
    if k > 0 {
      assert t[0].0 == Keys(t)[0] != Keys(t)[k] == t[k].0;
      assert t[1..][k - 1] == t[k];
      assert Distinct(Keys(t[1..])) by {
        forall i, j | 0 <= i < j < |t| - 1 ensures Keys(t[1..])[i] != Keys(t[1..])[j] {
          assert Keys(t)[i + 1] != Keys(t)[j + 1];
        }
      }
      CountOfAt(t[1..], k - 1);
    }
  }

  // -----------------------------------------------------------------------
  // Stable descending sort

  predicate SortedDesc<T(==)>(s: seq<Entry<T>>) {
    forall i, j :: 0 <= i < j < |s| ==> s[i].1 >= s[j].1
  }

  /** Places `e` after every entry whose count is at least `e`'s. */
  function InsertDesc<T(==)>(s: seq<Entry<T>>, e: Entry<T>): (r: seq<Entry<T>>)
    ensures |r| == |s| + 1
  {
    if |s| == 0 || s[0].1 < e.1 then [e] + s
    else [s[0]] + InsertDesc(s[1..], e)
  }

  /** `sorted(entries, key=count, reverse=True)`. */
  function SortDesc<T(==)>(t: seq<Entry<T>>): (r: seq<Entry<T>>)
    ensures |r| == |t|
    decreases |t|
  {
    if |t| == 0 then [] else InsertDesc(SortDesc(t[..|t| - 1]), t[|t| - 1])
  }

  /** The entries with count `c`, in order. */
  function WithCount<T(==)>(s: seq<Entry<T>>, c: nat): seq<Entry<T>> {
    if |s| == 0 then []
    else (if s[0].1 == c then [s[0]] else []) + WithCount(s[1..], c)
  }

  lemma {:induction false} WithCountAppend<T>(a: seq<Entry<T>>, b: seq<Entry<T>>, c: nat)
    ensures WithCount(a + b, c) == WithCount(a, c) + WithCount(b, c)
    decreases |a|
  {
    if |a| == 0 {
      assert a + b == b;
    } else {
      var head: seq<Entry<T>> := if a[0].1 == c then [a[0]] else [];
      assert (a + b)[0] == a[0];
      assert (a + b)[1..] == a[1..] + b;
      WithCountAppend(a[1..], b, c);
      assert WithCount(a + b, c) == head + (WithCount(a[1..], c) + WithCount(b, c));
      assert WithCount(a, c) == head + WithCount(a[1..], c);
    }
  }

  lemma {:induction false} WithCountNone<T>(s: seq<Entry<T>>, c: nat)
    requires forall i :: 0 <= i < |s| ==> s[i].1 < c
    ensures WithCount(s, c) == []
    decreases |s|
  {
    if |s| > 0 {
      WithCountNone(s[1..], c);
    }
  }

  lemma {:induction false} InsertDescPerm<T>(s: seq<Entry<T>>, e: Entry<T>)
    ensures multiset(InsertDesc(s, e)) == multiset(s) + multiset{e}
    decreases |s|
  {
    if |s| > 0 && s[0].1 >= e.1 {
      InsertDescPerm(s[1..], e);
      assert InsertDesc(s, e) == [s[0]] + InsertDesc(s[1..], e);
      assert s == [s[0]] + s[1..];
    }
  }

  lemma {:induction false} InsertDescSorted<T>(s: seq<Entry<T>>, e: Entry<T>)
    requires SortedDesc(s)
    ensures SortedDesc(InsertDesc(s, e))
    decreases |s|
  {
    if |s| > 0 && s[0].1 >= e.1 {
      var r := InsertDesc(s, e);
      var tail := InsertDesc(s[1..], e);
      InsertDescSorted(s[1..], e);
      InsertDescPerm(s[1..], e);
      assert r == [s[0]] + tail;
      forall j | 0 <= j < |tail| ensures s[0].1 >= tail[j].1 {
        assert tail[j] in multiset(tail);
        if tail[j] != e {
          assert tail[j] in multiset(s[1..]);
          var k :| 0 <= k < |s[1..]| && s[1..][k] == tail[j];
          assert s[k + 1] == tail[j];
        }
      }
    }
  }

  lemma {:induction false} InsertDescStable<T>(s: seq<Entry<T>>, e: Entry<T>, c: nat)
    requires SortedDesc(s)
    ensures WithCount(InsertDesc(s, e), c) == WithCount(s, c) + (if e.1 == c then [e] else [])
    decreases |s|
  {
    var r := InsertDesc(s, e);
    if |s| == 0 || s[0].1 < e.1 {
      assert r[1..] == s;
      if e.1 == c {
        WithCountNone(s, c);
      }
    } else {
      InsertDescStable(s[1..], e, c);
      assert r[1..] == InsertDesc(s[1..], e);
    }
  }

  /** What the sort promises: counts never increase along the result, the
      entries are those of the input, and entries of equal count keep
      their input order. */
  lemma SortDescSpec<T>(t: seq<Entry<T>>)
    ensures SortedDesc(SortDesc(t))
    ensures multiset(SortDesc(t)) == multiset(t)
    ensures forall c :: WithCount(SortDesc(t), c) == WithCount(t, c)
  {
    SortDescSorted(t);
    SortDescPerm(t);
    forall c ensures WithCount(SortDesc(t), c) == WithCount(t, c) {
      SortDescStable(t, c);
    }
  }

  lemma {:induction false} SortDescSorted<T>(t: seq<Entry<T>>)
    ensures SortedDesc(SortDesc(t))
    decreases |t|
  {
    if |t| > 0 {
      SortDescSorted(t[..|t| - 1]);
      InsertDescSorted(SortDesc(t[..|t| - 1]), t[|t| - 1]);
    }
  }

  lemma {:induction false} SortDescPerm<T>(t: seq<Entry<T>>)
    ensures multiset(SortDesc(t)) == multiset(t)
    decreases |t|
  {
    if |t| > 0 {
      var init := t[..|t| - 1];
      SortDescPerm(init);
      InsertDescPerm(SortDesc(init), t[|t| - 1]);
      assert t == init + [t[|t| - 1]];
    }
  }

  lemma {:induction false} SortDescStable<T>(t: seq<Entry<T>>, c: nat)
    ensures WithCount(SortDesc(t), c) == WithCount(t, c)
    decreases |t|
  {
    if |t| > 0 {
      var init := t[..|t| - 1];
      var e := t[|t| - 1];
      SortDescStable(init, c);
      SortDescSorted(init);
      InsertDescStable(SortDesc(init), e, c);
      assert t == init + [e];
      WithCountAppend(init, [e], c);
      var single: seq<Entry<T>> := [e];
      assert single[1..] == [];
    }
  }

  /** The first entry of the sorted list has the largest count. */
  lemma SortDescTop<T>(t: seq<Entry<T>>, k: nat)
    requires k < |t|
    ensures |SortDesc(t)| > 0 && SortDesc(t)[0].1 >= t[k].1
  {
    SortDescSorted(t);
    SortDescPerm(t);
    var s := SortDesc(t);
    assert t[k] in multiset(s);
    var j :| 0 <= j < |s| && s[j] == t[k];
  }

  /** `counter.most_common(n)`. */
  function MostCommon<T(==)>(xs: seq<T>, n: nat): (r: seq<Entry<T>>)
    ensures |r| == if n < |Tally(xs)| then n else |Tally(xs)|
  {
    var s := SortDesc(Tally(xs));
    if n < |s| then s[..n] else s
  }

  /** The first `n` entries of a sorted list dominate the rest: any entry
      left out has a count no greater than any entry listed. */
  lemma TopDominates<T>(t: seq<Entry<T>>, n: nat)
    ensures var s := SortDesc(t);
      var top := if n < |s| then s[..n] else s;
      forall e: Entry<T>, x: Entry<T> :: e in multiset(t) - multiset(top) && x in top ==> e.1 <= x.1
  {
    var s := SortDesc(t);
    SortDescSpec(t);
    var k := if n < |s| then n else |s|;
    assert s == s[..k] + s[k..];
    assert multiset(t) - multiset(s[..k]) == multiset(s[k..]);
    SplitDominates(s, k);
  }

  lemma SplitDominates<T>(s: seq<Entry<T>>, k: nat)
    requires SortedDesc(s) && k <= |s|
    ensures forall e: Entry<T>, x: Entry<T> :: e in multiset(s[k..]) && x in s[..k] ==> e.1 <= x.1
  {
    forall e: Entry<T>, x: Entry<T> | e in multiset(s[k..]) && x in s[..k] ensures e.1 <= x.1 {
      var i :| 0 <= i < k && s[..k][i] == x;
      assert e in s[k..];
      var j :| 0 <= j < |s| - k && s[k..][j] == e;
      assert s[i] == x && s[k + j] == e;
    }
  }

  /** An element occurring at most once is not repeated later. */
  lemma SingleAt<T>(s: seq<T>, i: nat, j: nat)
    requires i < j < |s| && multiset(s)[s[i]] <= 1
    ensures s[i] != s[j]
  {
    assert s == s[..j] + [s[j]] + s[j + 1..];
    assert s[..j][i] == s[i];
  }

  /** In a list without repeats each element occurs once. */
  lemma OnceAt<T>(t: seq<T>, a: nat)
    requires a < |t| && Distinct(t)
    ensures multiset(t)[t[a]] == 1
  {
    assert t == t[..a] + [t[a]] + t[a + 1..];
    assert t[a] !in t[..a];
    assert t[a] !in t[a + 1..];
  }

  /** Reordering entries with distinct keys keeps the keys distinct. */
  lemma PermKeysDistinct<T>(s: seq<Entry<T>>, t: seq<Entry<T>>)
    requires multiset(s) == multiset(t) && Distinct(Keys(t))
    ensures Distinct(Keys(s))
  {
    assert Distinct(t) by {
      forall i, j | 0 <= i < j < |t| ensures t[i] != t[j] {
        assert Keys(t)[i] != Keys(t)[j];
      }
    }
    forall i, j | 0 <= i < j < |s| ensures Keys(s)[i] != Keys(s)[j] {
      assert s[i] in multiset(t);
      var a :| 0 <= a < |t| && t[a] == s[i];
      assert s[j] in multiset(t);
      var b :| 0 <= b < |t| && t[b] == s[j];
      OnceAt(t, a);
      SingleAt(s, i, j);
      assert Keys(t)[a] != Keys(t)[b] || a == b;
    }
  }

  /** Every listed entry is a key of the tally with its true count, and the
      listing has no key twice. */
  lemma MostCommonCounts<T>(xs: seq<T>, n: nat)
    ensures forall e :: e in MostCommon(xs, n) ==> e.1 == multiset(xs)[e.0] && e.1 > 0
    ensures Distinct(Keys(MostCommon(xs, n)))
  {
    var t := Tally(xs);
    TallySpec(xs);
    DedupMembers(xs);
    SortDescSpec(t);
    PermKeysDistinct(SortDesc(t), t);
    var r := MostCommon(xs, n);
    forall i, j | 0 <= i < j < |r| ensures Keys(r)[i] != Keys(r)[j] {
      assert Keys(SortDesc(t))[i] != Keys(SortDesc(t))[j];
    }
    forall e | e in MostCommon(xs, n) ensures e.1 == multiset(xs)[e.0] && e.1 > 0 {
      assert e in SortDesc(t);
      assert e in multiset(SortDesc(t));
      assert e in multiset(t);
      var k :| 0 <= k < |t| && t[k] == e;
      CountOfAt(t, k);
    }
  }
}
