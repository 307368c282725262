/** Document discovery: which file names of a directory walk are picked up
    for processing, and the paths they are returned under. The walk itself
    is an input: one entry per directory visited, in the order it visits
    them, each with its file names in the order it lists them. */
module Files {
  import opened Text
  import opened Paths

  /** One directory of the walk: its path and the names of its files. */
  datatype Visit = Visit(root: string, files: seq<string>)

  /** Dot-files and the lock files word processors leave behind. */
  predicate Hidden(name: string) {
    StartsWith(name, ".") || StartsWith(name, "~")
  }

  /** `any(f.lower().endswith(ext) for ext in extensions)`: only the name
      is lowered, never the extensions. */
  predicate HasExtension(name: string, exts: seq<string>) {
    exists e :: e in exts && EndsWith(Lower(name), e)
  }

  /** The filter inside `find_documents`. */
  predicate Accept(name: string, exts: seq<string>) {
    !Hidden(name) && HasExtension(name, exts)
  }

  /** `os.path.join(root, name)` for two components. */
  function JoinPath(root: string, name: string): string {
    if StartsWith(name, "/") then name
    else if root == "" || EndsWith(root, "/") then root + name
    else root + "/" + name
  }

  /** The accepted files of one directory, in listing order. */
  function Picked(root: string, files: seq<string>, exts: seq<string>): seq<string>
    decreases |files|
  {
    if |files| == 0 then []
    else
      var last := files[|files| - 1];
      Picked(root, files[..|files| - 1], exts) + (if Accept(last, exts) then [JoinPath(root, last)] else [])
  }

  /** The accepted files of the whole walk, in walk order. */
  function Found(walk: seq<Visit>, exts: seq<string>): seq<string>
    decreases |walk|
  {
    if |walk| == 0 then []
    else
      var last := walk[|walk| - 1];
      Found(walk[..|walk| - 1], exts) + Picked(last.root, last.files, exts)
  }

  /** `find_documents`: the two nested loops over the walk. */
  method FindDocuments(walk: seq<Visit>, exts: seq<string>) returns (docs: seq<string>)
    ensures docs == Found(walk, exts)
  {
    docs := [];
    for i := 0 to |walk|
      invariant docs == Found(walk[..i], exts)
    {
      var picked := PickFiles(walk[i].root, walk[i].files, exts);
      docs := docs + picked;
      assert walk[..i + 1][..i] == walk[..i];
    }
    assert walk[..|walk|] == walk;
  }

  /** The inner loop of `find_documents`, over the names of one directory. */
  method PickFiles(root: string, files: seq<string>, exts: seq<string>) returns (picked: seq<string>)
    ensures picked == Picked(root, files, exts)
  {
    picked := [];
    for j := 0 to |files|
      invariant picked == Picked(root, files[..j], exts)
    {
      var f := files[j];
      assert files[..j + 1][..j] == files[..j];
      if StartsWith(f, ".") || StartsWith(f, "~") {
        continue;
      }
      if HasExtension(f, exts) {
        picked := picked + [JoinPath(root, f)];
      }
    }
    assert files[..|files|] == files;
  }

  // -----------------------------------------------------------------------
  // The filter

  /** Hidden names are never picked up, whatever the extensions. */
  lemma HiddenNeverAccepted(name: string, exts: seq<string>)
    requires StartsWith(name, ".") || StartsWith(name, "~")
    ensures !Accept(name, exts)
  {
  }

  /** An extension holding an upper-case letter matches no name at all,
      since it is compared with the lowered name as given. */
  lemma UpperExtensionNeverMatches(name: string, e: string, k: nat)
    requires k < |e| && IsUpper(e[k])
    ensures !EndsWith(Lower(name), e)
  {
  }

  /** An empty extension list accepts nothing. */
  lemma NoExtensionsAcceptNothing(name: string)
    ensures !Accept(name, [])
  {
  }

  /** A visible name is accepted exactly when its lowered form ends with
      one of the extensions; the letter case of the name does not matter. */
  lemma AcceptIgnoresNameCase(name: string, exts: seq<string>)
    requires !Hidden(name) && !Hidden(Lower(name))
    ensures Accept(name, exts) <==> Accept(Lower(name), exts)
  {
    LowerIsLower(name);
  }

  // -----------------------------------------------------------------------
  // The walk

  lemma {:induction false} PickedAppend(root: string, a: seq<string>, b: seq<string>, exts: seq<string>)
    ensures Picked(root, a + b, exts) == Picked(root, a, exts) + Picked(root, b, exts)
    decreases |b|
  {
    if |b| == 0 {
      assert a + b == a;
    } else {
      var n := |b| - 1;
      assert (a + b)[..|a + b| - 1] == a + b[..n];
      PickedAppend(root, a, b[..n], exts);
    }
  }

  /** Results for consecutive parts of the walk concatenate: the order of
      the walk is kept. */
  lemma {:induction false} FoundAppend(a: seq<Visit>, b: seq<Visit>, exts: seq<string>)
    ensures Found(a + b, exts) == Found(a, exts) + Found(b, exts)
    decreases |b|
  {
    if |b| == 0 {
      assert a + b == a;
    } else {
      var n := |b| - 1;
      assert (a + b)[..|a + b| - 1] == a + b[..n];
      FoundAppend(a, b[..n], exts);
    }
  }

  /** Every path returned for a directory joins it with one of its
      accepted names. */
  lemma {:induction false} PickedSound(root: string, files: seq<string>, exts: seq<string>, p: string)
    requires p in Picked(root, files, exts)
    ensures exists j :: 0 <= j < |files| && Accept(files[j], exts) && p == JoinPath(root, files[j])
    decreases |files|
  {
    var n := |files| - 1;
    if p in Picked(root, files[..n], exts) {
      PickedSound(root, files[..n], exts, p);
      var j :| 0 <= j < n && Accept(files[..n][j], exts) && p == JoinPath(root, files[..n][j]);
      assert files[..n][j] == files[j];
    } else {
      assert Accept(files[n], exts) && p == JoinPath(root, files[n]);
    }
  }

  /** Every accepted name of a directory is returned, joined with it. */
  lemma {:induction false} PickedComplete(root: string, files: seq<string>, exts: seq<string>, j: nat)
    requires j < |files| && Accept(files[j], exts)
    ensures JoinPath(root, files[j]) in Picked(root, files, exts)
    decreases |files|
  {
    var n := |files| - 1;
    if j < n {
      assert files[..n][j] == files[j];
      PickedComplete(root, files[..n], exts, j);
    }
  }

  /** A path returned for the walk is returned for one of its directories. */
  lemma {:induction false} FoundVisitsSound(walk: seq<Visit>, exts: seq<string>, p: string)
    requires p in Found(walk, exts)
    ensures exists i :: 0 <= i < |walk| && p in Picked(walk[i].root, walk[i].files, exts)
    decreases |walk|
  {
    var n := |walk| - 1;
    if p in Found(walk[..n], exts) {
      FoundVisitsSound(walk[..n], exts, p);
      var i :| 0 <= i < n && p in Picked(walk[..n][i].root, walk[..n][i].files, exts);
      assert walk[..n][i] == walk[i];
    } else {
      assert p in Picked(walk[n].root, walk[n].files, exts);
    }
  }

  /** A path returned for one directory is returned for the walk. */
  lemma {:induction false} FoundVisitsComplete(walk: seq<Visit>, exts: seq<string>, p: string, i: nat)
    requires i < |walk| && p in Picked(walk[i].root, walk[i].files, exts)
    ensures p in Found(walk, exts)
    decreases |walk|
  {
    var n := |walk| - 1;
    if i < n {
      assert walk[..n][i] == walk[i];
      FoundVisitsComplete(walk[..n], exts, p, i);
    }
  }

  /** A path is returned for the walk exactly when it is returned for one
      of its directories. */
  lemma FoundVisits(walk: seq<Visit>, exts: seq<string>, p: string)
    ensures p in Found(walk, exts) <==> exists i :: 0 <= i < |walk| && p in Picked(walk[i].root, walk[i].files, exts)
  {
    if p in Found(walk, exts) {
      FoundVisitsSound(walk, exts, p);
    }
    if exists i :: 0 <= i < |walk| && p in Picked(walk[i].root, walk[i].files, exts) {
      var i :| 0 <= i < |walk| && p in Picked(walk[i].root, walk[i].files, exts);
      FoundVisitsComplete(walk, exts, p, i);
    }
  }

  /** Every returned path comes from a visible name with a matching
      extension, and every such name of the walk is returned. */
  lemma FoundMembers(walk: seq<Visit>, exts: seq<string>, p: string)
    ensures p in Found(walk, exts) <==>
      exists i, j :: 0 <= i < |walk| && 0 <= j < |walk[i].files| &&
        Accept(walk[i].files[j], exts) && p == JoinPath(walk[i].root, walk[i].files[j])
  {
    FoundVisits(walk, exts, p);
    if p in Found(walk, exts) {
      var i :| 0 <= i < |walk| && p in Picked(walk[i].root, walk[i].files, exts);
      PickedSound(walk[i].root, walk[i].files, exts, p);
    }
    if exists i, j :: 0 <= i < |walk| && 0 <= j < |walk[i].files| &&
         Accept(walk[i].files[j], exts) && p == JoinPath(walk[i].root, walk[i].files[j]) {
      var i, j :| 0 <= i < |walk| && 0 <= j < |walk[i].files| &&
        Accept(walk[i].files[j], exts) && p == JoinPath(walk[i].root, walk[i].files[j]);
      PickedComplete(walk[i].root, walk[i].files, exts, j);
    }
  }

  // -----------------------------------------------------------------------
  // Each document once

  predicate Unique(s: seq<string>) {
    forall i, j :: 0 <= i < j < |s| ==> s[i] != s[j]
  }

  predicate NoSlash(name: string) {
    '/' !in name
  }

  /** The directory part `os.path.join` puts in front of a name. */
  function DirPrefix(root: string): string {
    if root == "" || EndsWith(root, "/") then root else root + "/"
  }

  /** A walk as the file system produces it: names are single path
      components, distinct within their directory, and no two directories
      are the same. */
  predicate WellFormed(walk: seq<Visit>) {
    (forall i :: 0 <= i < |walk| ==> Unique(walk[i].files)) &&
    (forall i, j :: 0 <= i < |walk| && 0 <= j < |walk[i].files| ==> NoSlash(walk[i].files[j])) &&
    (forall i, k :: 0 <= i < k < |walk| ==> DirPrefix(walk[i].root) != DirPrefix(walk[k].root))
  }

  lemma JoinPathPrefix(root: string, name: string)
    requires NoSlash(name)
    ensures JoinPath(root, name) == DirPrefix(root) + name
    ensures DirPrefix(root) == "" || DirPrefix(root)[|DirPrefix(root)| - 1] == '/'
  {
    if |name| > 0 {
      assert name[0] != '/';
    }
  }

  /** The last '/' of a joined path ends its directory part. */
  lemma LastSlash(d: string, f: string)
    requires d == "" || d[|d| - 1] == '/'
    requires NoSlash(f)
    ensures RFind(d + f, '/') == |d| - 1
  {
    var x := d + f;
    var r := RFind(x, '/');
    forall i | |d| <= i < |x| ensures x[i] != '/' {
      assert x[i] == f[i - |d|];
    }
    if d != "" {
      assert x[|d| - 1] == '/';
    }
  }

  /** A joined path determines its directory and its name. */
  lemma JoinPathInjective(r1: string, f1: string, r2: string, f2: string)
    requires NoSlash(f1) && NoSlash(f2)
    requires JoinPath(r1, f1) == JoinPath(r2, f2)
    ensures DirPrefix(r1) == DirPrefix(r2) && f1 == f2
  {
    JoinPathPrefix(r1, f1);
    JoinPathPrefix(r2, f2);
    var d1, d2 := DirPrefix(r1), DirPrefix(r2);
    LastSlash(d1, f1);
    LastSlash(d2, f2);
    var x := d1 + f1;
    assert d1 == x[..|d1|] && f1 == x[|d1|..];
    assert d2 == (d2 + f2)[..|d2|] && f2 == (d2 + f2)[|d2|..];
  }

  lemma UniqueAppend(a: seq<string>, b: seq<string>)
    requires Unique(a) && Unique(b)
    requires forall p :: p in a ==> p !in b
    ensures Unique(a + b)
  {
    forall i, j | 0 <= i < j < |a + b| ensures (a + b)[i] != (a + b)[j] {
      if j < |a| {
        assert (a + b)[i] == a[i] && (a + b)[j] == a[j];
      } else if i < |a| {
        assert (a + b)[i] == a[i] && (a + b)[j] == b[j - |a|];
        assert b[j - |a|] in b;
      } else {
        assert (a + b)[i] == b[i - |a|] && (a + b)[j] == b[j - |a|];
      }
    }
  }

  /** A directory with distinct single-component names yields each path
      once. */
  lemma {:induction false} PickedUnique(root: string, files: seq<string>, exts: seq<string>)
    requires Unique(files) && forall j :: 0 <= j < |files| ==> NoSlash(files[j])
    ensures Unique(Picked(root, files, exts))
    decreases |files|
  {
    if |files| > 0 {
      var n := |files| - 1;
      var init := files[..n];
      assert forall j :: 0 <= j < n ==> init[j] == files[j];
      PickedUnique(root, init, exts);
      if Accept(files[n], exts) {
        forall p | p in Picked(root, init, exts) ensures p !in [JoinPath(root, files[n])] {
          PickedSound(root, init, exts, p);
          var j :| 0 <= j < n && Accept(init[j], exts) && p == JoinPath(root, init[j]);
          if p == JoinPath(root, files[n]) {
            JoinPathInjective(root, init[j], root, files[n]);
          }
        }
        UniqueAppend(Picked(root, init, exts), [JoinPath(root, files[n])]);
      }
    }
  }

  /** `find_documents` returns each document once. */
  lemma {:induction false} FoundUnique(walk: seq<Visit>, exts: seq<string>)
    requires WellFormed(walk)
    ensures Unique(Found(walk, exts))
    decreases |walk|
  {
    if |walk| > 0 {
      var n := |walk| - 1;
      var init := walk[..n];
      var last := walk[n];
      assert forall i :: 0 <= i < n ==> init[i] == walk[i];
      FoundUnique(init, exts);
      PickedUnique(last.root, last.files, exts);
      forall p | p in Found(init, exts) ensures p !in Picked(last.root, last.files, exts) {
        FoundVisits(init, exts, p);
        var i :| 0 <= i < n && p in Picked(init[i].root, init[i].files, exts);
        PickedSound(init[i].root, init[i].files, exts, p);
        var j :| 0 <= j < |init[i].files| && Accept(init[i].files[j], exts) && p == JoinPath(init[i].root, init[i].files[j]);
        if p in Picked(last.root, last.files, exts) {
          PickedSound(last.root, last.files, exts, p);
          var k :| 0 <= k < |last.files| && Accept(last.files[k], exts) && p == JoinPath(last.root, last.files[k]);
          JoinPathInjective(init[i].root, init[i].files[j], last.root, last.files[k]);
        }
      }
      UniqueAppend(Found(init, exts), Picked(last.root, last.files, exts));
    }
  }
}
