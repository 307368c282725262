/** The configuration tree: nested string-keyed dictionaries read and
    written with dotted keys such as "processing.severity". Besides
    dictionaries the tree holds the scalar and list values of the loaded
    file and of the command line: strings, integers and lists. */
module Config {
  import opened Common
  import opened Text

  datatype Node =
    | Dict(entries: map<string, Node>)
    | Str(s: string)
    | Number(n: int)
    | Items(items: seq<Node>)

  const Empty: Node := Dict(map[])

  /** `key.split(".")`. */
  function Path(key: string): (r: seq<string>)
    ensures |r| >= 1
  {
    SplitOn(key, '.')
  }

  /** The node at the end of a path, or `None` as soon as a segment is
      missing or the walk reaches a node that is not a dictionary. */
  function Walk(node: Node, path: seq<string>): Option<Node>
    decreases |path|
  {
    if |path| == 0 then Some(node)
    else if node.Dict? && path[0] in node.entries then Walk(node.entries[path[0]], path[1..])
    else None
  }

  /** `ConfigManager.get`. */
  function Get(cfg: Node, key: string, default: Option<Node>): Option<Node> {
    match Walk(cfg, Path(key))
    case Some(n) => Some(n)
    case None => default
  }

  /** The loop of `get`: one segment at a time, returning the default at the
      first missing segment or non-dictionary node. */
  method GetLoop(cfg: Node, key: string, default: Option<Node>) returns (r: Option<Node>)
    ensures r == Get(cfg, key, default)
  {
    var parts := Path(key);
    var node := cfg;
    for i := 0 to |parts|
      invariant Walk(cfg, parts) == Walk(node, parts[i..])
    {
      assert parts[i..][1..] == parts[i + 1..];
      if !node.Dict? || parts[i] !in node.entries {
        return default;
      }
      node := node.entries[parts[i]];
    }
    return Some(node);
  }

  /** Walking a path in two steps is walking it at once: `get` on a
      prefix key returns the subtree that the longer key walks into. */
  lemma {:induction false} WalkAppend(node: Node, p: seq<string>, q: seq<string>)
    ensures Walk(node, p + q) == if Walk(node, p).Some? then Walk(Walk(node, p).value, q) else None
    decreases |p|
  {
    if |p| == 0 {
      assert p + q == q;
    } else {
      assert (p + q)[0] == p[0];
      assert (p + q)[1..] == p[1..] + q;
      if node.Dict? && p[0] in node.entries {
        WalkAppend(node.entries[p[0]], p[1..], q);
      }
    }
  }

  /** The dotted form of the same fact. */
  lemma GetPrefix(cfg: Node, prefix: string, rest: string, default: Option<Node>)
    ensures Get(cfg, prefix + "." + rest, default) ==
      match Get(cfg, prefix, None)
      case Some(sub) => (match Walk(sub, Path(rest)) case Some(n) => Some(n) case None => default)
      case None => default
  {
    SplitOnConcat(prefix, rest, '.');
    assert prefix + "." + rest == prefix + ['.'] + rest;
    WalkAppend(cfg, Path(prefix), Path(rest));
  }

  /** Every node that exists along the path, and the node the final
      segment is written into, is a dictionary. */
  predicate DictsAlong(node: Node, path: seq<string>)
    requires |path| >= 1
    decreases |path|
  {
    node.Dict? &&
    (|path| == 1 || path[0] !in node.entries || DictsAlong(node.entries[path[0]], path[1..]))
  }

  /** The loop of `override` and its final assignment. A missing segment
      becomes an empty dictionary; meeting a node that is not a dictionary
      raises `TypeError`, before anything has been changed. */
  function SetPath(node: Node, path: seq<string>, value: Node): (r: Result<Node>)
    requires |path| >= 1
    decreases |path|
  {
    if !node.Dict? then Fail(TypeError("'" + path[0] + "' cannot be looked up or set in a non-dict value"))
    else if |path| == 1 then Ok(Dict(node.entries[path[0] := value]))
    else
      var child := if path[0] in node.entries then node.entries[path[0]] else Empty;
      match SetPath(child, path[1..], value)
      case Fail(e) => Fail(e)
      case Ok(c) => Ok(Dict(node.entries[path[0] := c]))
  }

  /** `ConfigManager.override` on a key already split at its dots. */
  function OverridePath(cfg: Node, path: seq<string>, value: Option<Node>): Result<Node>
    requires |path| >= 1
  {
    if value.None? then Ok(cfg) else SetPath(cfg, path, value.value)
  }

  /** `ConfigManager.override`: `None` changes nothing. */
  function Override(cfg: Node, key: string, value: Option<Node>): Result<Node> {
    OverridePath(cfg, Path(key), value)
  }

  /** The write succeeds exactly when every node it meets is a dictionary;
      otherwise it raises `TypeError`. */
  lemma {:induction false} SetPathSucceeds(node: Node, path: seq<string>, value: Node)
    requires |path| >= 1
    ensures SetPath(node, path, value).Ok? <==> DictsAlong(node, path)
    ensures SetPath(node, path, value).Fail? ==> SetPath(node, path, value).error.TypeError?
    decreases |path|
  {
    if node.Dict? && |path| > 1 {
      var child := if path[0] in node.entries then node.entries[path[0]] else Empty;
      SetPathSucceeds(child, path[1..], value);
    }
  }

  /** After a successful write the key reads back the value written. */
  lemma {:induction false} SetPathGet(node: Node, path: seq<string>, value: Node)
    requires |path| >= 1 && SetPath(node, path, value).Ok?
    ensures Walk(SetPath(node, path, value).value, path) == Some(value)
    decreases |path|
  {
    if |path| > 1 {
      var child := if path[0] in node.entries then node.entries[path[0]] else Empty;
      SetPathGet(child, path[1..], value);
    }
  }

  /** A path that parts from the written one at some segment reads the
      same before and after the write. */
  lemma {:induction false} SetPathFrame(node: Node, path: seq<string>, value: Node, q: seq<string>, j: nat)
    requires |path| >= 1 && SetPath(node, path, value).Ok?
    requires j < |path| && j < |q| && q[..j] == path[..j] && q[j] != path[j]
    ensures Walk(SetPath(node, path, value).value, q) == Walk(node, q)
    decreases |path|
  {
    var r := SetPath(node, path, value).value;
    if j == 0 {
      assert r.entries == node.entries[path[0] := r.entries[path[0]]];
    } else {
      assert q[0] == path[0] by { assert q[..j][0] == path[..j][0]; }
      var child := if path[0] in node.entries then node.entries[path[0]] else Empty;
      assert q[1..][..j - 1] == path[1..][..j - 1];
      SetPathFrame(child, path[1..], value, q[1..], j - 1);
      if path[0] !in node.entries {
        assert Walk(Empty, q[1..]) == None;
      }
    }
  }

  /** Segments that did not exist are created as dictionaries holding only
      the next segment of the path. */
  lemma {:induction false} SetPathCreates(node: Node, path: seq<string>, value: Node, i: nat)
    requires |path| >= 1 && SetPath(node, path, value).Ok?
    requires 1 <= i < |path| && Walk(node, path[..i]).None?
    ensures Walk(SetPath(node, path, value).value, path[..i]).Some?
    ensures var created := Walk(SetPath(node, path, value).value, path[..i]).value;
      created.Dict? && created.entries.Keys == {path[i]}
    decreases |path|
  {
    var r := SetPath(node, path, value).value;
    var child := if path[0] in node.entries then node.entries[path[0]] else Empty;
    var c := SetPath(child, path[1..], value).value;
    assert path[..i][0] == path[0];
    assert path[..i][1..] == path[1..][..i - 1];
    if path[0] in node.entries && i > 1 {
      SetPathCreates(child, path[1..], value, i - 1);
    } else {
      FreshWrite(path[1..], value, i - 1);
    }
  }

  /** Writing a path into an empty dictionary creates one single-key
      dictionary per segment but the last. */
  lemma {:induction false} FreshWrite(path: seq<string>, value: Node, i: nat)
    requires |path| >= 1 && i < |path|
    ensures SetPath(Empty, path, value).Ok?
    ensures Walk(SetPath(Empty, path, value).value, path[..i]).Some?
    ensures var created := Walk(SetPath(Empty, path, value).value, path[..i]).value;
      created.Dict? && created.entries.Keys == {path[i]}
    decreases |path|
  {
    var r := SetPath(Empty, path, value);
    if |path| > 1 {
      FreshWrite(path[1..], value, if i > 0 then i - 1 else 0);
    }
    assert r.value.entries.Keys == {path[0]};
    if i > 0 {
      assert path[..i][0] == path[0];
      assert path[..i][1..] == path[1..][..i - 1];
    }
  }

  /** `override` with `None` changes nothing; with a value it either
      raises `TypeError` or stores the value so that `get` returns it. */
  lemma OverrideSpec(cfg: Node, key: string, value: Option<Node>, default: Option<Node>)
    ensures value.None? ==> Override(cfg, key, value) == Ok(cfg)
    ensures value.Some? ==> (Override(cfg, key, value).Ok? <==> DictsAlong(cfg, Path(key)))
    ensures Override(cfg, key, value).Fail? ==> Override(cfg, key, value).error.TypeError?
    ensures value.Some? && Override(cfg, key, value).Ok? ==> Get(Override(cfg, key, value).value, key, default) == value
  {
    if value.Some? {
      SetPathSucceeds(cfg, Path(key), value.value);
      if Override(cfg, key, value).Ok? {
        SetPathGet(cfg, Path(key), value.value);
      }
    }
  }
}
