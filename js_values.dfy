/** The handful of JavaScript value semantics the origin policy of server.js
    relies on: an optional header value, the three shapes a `String` field of
    a stored document can take, template-literal interpolation, truthiness,
    `Array.prototype.includes` and `Array.prototype.map`. */
module JsValues {

  /** A value that may be `undefined` (for instance an absent request header). */
  datatype Option<+T> = None | Some(value: T)

  /** What reading a field declared `String` in a document schema can yield:
      a string, an explicit `null`, or nothing at all when the stored document
      lacks the field. */
  datatype StringField = Text(s: string) | Null | Undefined

  /** The text a template literal `${v}` produces for the field value `v`. */
  function Interpolate(v: StringField): string
  {
    match v
    case Text(s) => s
    case Null => "null"
    case Undefined => "undefined"
  }

  /** Interpolation forgets exactly one distinction: a field holding the
      string "null" (or "undefined") reads the same as a null (or missing)
      field; all other pairs of field values stay apart. */
  lemma InterpolateCollisions(a: StringField, b: StringField)
    ensures Interpolate(a) == Interpolate(b) <==>
            a == b || {a, b} == {Text("null"), Null} || {a, b} == {Text("undefined"), Undefined}
  {
  }

  /** JavaScript's `!v` for a value that is either `undefined` or a string:
      `undefined` and the empty string are the falsy ones. */
  predicate IsFalsy(v: Option<string>)
  {
    v.None? || v.value == ""
  }

  /** `xs.includes(x)` on an array of strings: a front-to-back scan that
      compares with SameValueZero equality, which for strings is
      equality of their contents. */
  function Includes(xs: seq<string>, x: string): (r: bool)
    ensures r <==> x in xs
  {
    if xs == [] then false
    else xs[0] == x || Includes(xs[1..], x)
  }

  /** `xs.map(f)`: one result per element, in the same order. */
  function Map<A, B>(xs: seq<A>, f: A -> B): (r: seq<B>)
    ensures |r| == |xs|
    ensures forall i :: 0 <= i < |xs| ==> r[i] == f(xs[i])
  {
    if xs == [] then []
    else [f(xs[0])] + Map(xs[1..], f)
  }
}
