/** The part of io-ts that the spec discriminator is written in: `literal`,
    non-strict `type` and `union`. Only whether a decode succeeds is modelled. */
module Codec {
  import opened Json

  datatype Codec =
    | Literal(value: Json)          // `literal(v)`: the value itself, compared by `===`
    | Type(props: seq<Prop>)        // `type({k: c, ...})`: an object whose listed keys decode
    | Union(members: seq<Codec>)    // `union([c, ...])`: the first member that decodes

  datatype Prop = Prop(key: string, codec: Codec)

  /** `codec.decode(j)` is a `Right`. A `type` codec needs a non-array object
      (io-ts's record check) and never looks at keys it does not list. */
  predicate Accepts(c: Codec, j: Json)
    decreases c
  {
    match c
    case Literal(v) => j == v
    case Type(props) =>
      && j.JObject?
      && forall i :: 0 <= i < |props| ==> props[i].key in j.fields && Accepts(props[i].codec, j.fields[props[i].key])
    case Union(members) => exists i :: 0 <= i < |members| && Accepts(members[i], j)
  }

  /** Every literal in the codec is a scalar, as the literals io-ts allows are. */
  predicate ScalarLiterals(c: Codec)
    decreases c
  {
    match c
    case Literal(v) => !v.JObject? && !v.JArray?
    case Type(props) => forall i :: 0 <= i < |props| ==> ScalarLiterals(props[i].codec)
    case Union(members) => forall i :: 0 <= i < |members| ==> ScalarLiterals(members[i])
  }

  /** Non-strict decoding: adding keys to objects, at any depth and inside
      array elements too, never turns an
      accepted value into a rejected one. */
  lemma {:induction false} AcceptsExtends(c: Codec, narrow: Json, wide: Json)
    requires ScalarLiterals(c)
    requires Extends(wide, narrow)
    requires Accepts(c, narrow)
    ensures Accepts(c, wide)
    decreases c
  {
    match c
    case Literal(v) =>
      assert !narrow.JObject? && !narrow.JArray?;
    case Type(props) =>
      forall i | 0 <= i < |props|
        ensures props[i].key in wide.fields && Accepts(props[i].codec, wide.fields[props[i].key])
      {
        var k := props[i].key;
        AcceptsExtends(props[i].codec, narrow.fields[k], wide.fields[k]);
      }
    case Union(members) =>
      var i :| 0 <= i < |members| && Accepts(members[i], narrow);
      AcceptsExtends(members[i], narrow, wide);
  }
}
