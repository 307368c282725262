/** Shared vocabulary of the pipeline: optional values, the exceptions the
    pipeline raises, and the records that flow between the parser, the
    processors and the archiver. */
module Common {

  /** Python's `None`-or-value. */
  datatype Option<+T> = None | Some(value: T) {
    function GetOr(default: T): T {
      match this
      case Some(v) => v
      case None => default
    }
  }

  /** The exception classes the modelled code raises. */
  datatype Error =
    | ValueError(message: string)
    | KeyError(key: string)
    | TypeError(message: string)

  /** A value, or the exception raised instead of producing it. */
  datatype Result<+T> = Ok(value: T) | Fail(error: Error) {
    predicate IsFailure() { Fail? }
    function PropagateFailure<U>(): Result<U>
      requires Fail?
    {
      Fail(error)
    }
    function Extract(): T
      requires Ok?
    {
      value
    }
  }

  /** Python truthiness of an optional string: `None` and `""` are falsy. */
  predicate Truthy(o: Option<string>) {
    o.Some? && o.value != ""
  }

  /** A section id: the processors use either a section's own "id" entry
      (a string such as "main-3") or a positional integer. */
  datatype Key = Index(n: int) | Name(s: string)

  /** A section dict: "title" and "content", and an "id" entry that only
      some producers set. */
  datatype Section = Section(id: Option<Key>, title: string, content: string)

  /** The first components of a list of pairs, in order: the keys of a
      dict's items, the first words of word pairs. */
  function Firsts<A, B>(ps: seq<(A, B)>): (r: seq<A>)
    ensures |r| == |ps|
    ensures forall i :: 0 <= i < |ps| ==> r[i] == ps[i].0
  {
    seq(|ps|, i requires 0 <= i < |ps| => ps[i].0)
  }

  /** The second components of a list of pairs, in order. */
  function Seconds<A, B>(ps: seq<(A, B)>): (r: seq<B>)
    ensures |r| == |ps|
    ensures forall i :: 0 <= i < |ps| ==> r[i] == ps[i].1
  {
    seq(|ps|, i requires 0 <= i < |ps| => ps[i].1)
  }

  /** A result dict of the id-keyed processors: {"id", "content"} and an
      optional "style_name". */
  datatype Rendered = Rendered(id: Key, content: string, styleName: Option<string>)
}
