/** POSIX path helpers used for naming and format dispatch:
    `os.path.splitext` and `os.path.basename`. */
module Paths {

  /** `str.rfind` for one character: the last index holding `c`, or -1. */
  function RFind(s: string, c: char): (r: int)
    ensures -1 <= r < |s|
    ensures r >= 0 ==> s[r] == c
    ensures forall i :: r < i < |s| ==> s[i] != c
  {
    if |s| == 0 then -1
    else if s[|s| - 1] == c then |s| - 1
    else RFind(s[..|s| - 1], c)
  }

  /** `os.path.splitext`: the extension starts at the last '.' of the last
      path component, provided some character of that component before the
      dot is not itself a dot (so ".bashrc" has no extension). */
  function SplitExt(p: string): (r: (string, string))
    ensures r.0 + r.1 == p
    ensures r.1 == [] || (r.1[0] == '.' && '.' !in r.1[1..] && '/' !in r.1)
  {
    var sepIndex := RFind(p, '/');
    var dotIndex := RFind(p, '.');
    if dotIndex > sepIndex &&
       exists i :: sepIndex + 1 <= i < dotIndex && p[i] != '.'
    then
      assert p[..dotIndex] + p[dotIndex..] == p;
      assert forall i :: 0 <= i < |p[dotIndex..]| ==> p[dotIndex..][i] == p[dotIndex + i];
      (p[..dotIndex], p[dotIndex..])
    else (p, [])
  }

  function Ext(p: string): string {
    SplitExt(p).1
  }

  /** `os.path.basename`: everything after the last '/'. */
  function BaseName(p: string): (r: string)
    ensures '/' !in r
    ensures |r| <= |p| && p[|p| - |r|..] == r
    ensures |r| < |p| ==> p[|p| - |r| - 1] == '/'
  {
    if |p| == 0 || p[|p| - 1] == '/' then []
    else
      var init := BaseName(p[..|p| - 1]);
      assert p == p[..|p| - 1] + [p[|p| - 1]];
      init + [p[|p| - 1]]
  }

  /** Appending an extension to a stem whose last character is neither a
      separator nor a dot makes that extension the one `splitext` finds. */
  lemma ExtOfAppended(stem: string, e: string)
    requires |stem| > 0 && stem[|stem| - 1] != '/' && stem[|stem| - 1] != '.'
    requires |e| > 0 && e[0] == '.' && '.' !in e[1..] && '/' !in e
    ensures SplitExt(stem + e) == (stem, e)
  {
    var p := stem + e;
    var dotIndex := RFind(p, '.');
    var sepIndex := RFind(p, '/');
    assert p[|stem|] == '.';
    forall i | |stem| < i < |p| ensures p[i] != '.' && p[i] != '/' {
      assert p[i] == e[1..][i - |stem| - 1];
    }
    assert dotIndex == |stem|;
    assert sepIndex < |stem| - 1 by {
      assert p[|stem| - 1] == stem[|stem| - 1];
    }
    assert p[|stem| - 1] != '.';
    assert p[..dotIndex] == stem;
  }

  /** The base name ignores every directory in front of it. */
  lemma {:induction false} BaseNameAfterSep(dir: string, name: string)
    ensures BaseName(dir + "/" + name) == BaseName(name)
    decreases |name|
  {
    var p := dir + "/" + name;
    if |name| == 0 {
      assert p[|p| - 1] == '/';
    } else {
      assert p[|p| - 1] == name[|name| - 1];
      assert p[..|p| - 1] == dir + "/" + name[..|name| - 1];
      BaseNameAfterSep(dir, name[..|name| - 1]);
    }
  }
}
