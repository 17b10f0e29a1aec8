/** The serialized-parameter algebra of the TypeScript generator: the fragment a
    backend produces for one struct field or function parameter, and the struct
    monoid that merges such fragments into records and parameter lists.

    `D` is the type of the dependency collection and `deps` its monoid
    (`monoidDependencies`, whose definition is not part of this model); `R` is the
    type of a reference (`Ref`). */
module SerializedParameters {
  import opened Monoid

  /** `SerializedType`: static-type text, io-ts validator text, import
      dependencies and the references met while building them. */
  datatype SerializedType<D, R> = SerializedType(typeText: string, io: string, dependencies: D, refs: seq<R>)

  /** `SerializedParameter`: a `SerializedType` with an `isRequired` flag. Its
      constructor is the source's `serializedParameter`. */
  datatype SerializedParameter<D, R> =
    SerializedParameter(typeText: string, io: string, isRequired: bool, dependencies: D, refs: seq<R>)

  /** The `SerializedType` part of a parameter (TypeScript's structural subtyping). */
  function ToSerializedType<D, R>(p: SerializedParameter<D, R>): SerializedType<D, R> {
    SerializedType(p.typeText, p.io, p.dependencies, p.refs)
  }

  /** `fromSerializedType(isRequired)(t)`: the spread copy of `t` with the flag set. */
  function FromSerializedType<D, R>(isRequired: bool, t: SerializedType<D, R>): (p: SerializedParameter<D, R>)
    ensures ToSerializedType(p) == t
    ensures p.isRequired == isRequired
  {
    SerializedParameter(t.typeText, t.io, isRequired, t.dependencies, t.refs)
  }

  /** The neutral element of `monoidSerializedParameter`: every field's own neutral element. */
  function Empty<D, R>(deps: Monoid<D>): SerializedParameter<D, R> {
    SerializedParameter(MonoidString().empty, MonoidString().empty, MonoidAny().empty, deps.empty, ArrayMonoid<R>().empty)
  }

  /** `concat` of `monoidSerializedParameter`, built by `getStructMonoid`: each
      field is combined by its own monoid. */
  function Concat<D, R>(deps: Monoid<D>, a: SerializedParameter<D, R>, b: SerializedParameter<D, R>): SerializedParameter<D, R> {
    SerializedParameter(
      MonoidString().concat(a.typeText, b.typeText),
      MonoidString().concat(a.io, b.io),
      MonoidAny().concat(a.isRequired, b.isRequired),
      deps.concat(a.dependencies, b.dependencies),
      ArrayMonoid<R>().concat(a.refs, b.refs))
  }

  /** `monoidSerializedParameter`. */
  function MonoidSerializedParameter<D, R>(deps: Monoid<D>): Monoid<SerializedParameter<D, R>> {
    Monoid(Empty(deps), (a: SerializedParameter<D, R>, b: SerializedParameter<D, R>) => Concat(deps, a, b))
  }

  /** `intercalateSerializedParameters(sep, xs)`. */
  function IntercalateSerializedParameters<D, R>(deps: Monoid<D>, sep: SerializedParameter<D, R>, xs: seq<SerializedParameter<D, R>>): SerializedParameter<D, R> {
    Intercalate(MonoidSerializedParameter(deps), sep, xs)
  }

  /** `unless(condition, s)`: `s` when the condition is false, "" otherwise. */
  function Unless(condition: bool, s: string): string {
    if condition then "" else s
  }

  /** `getSerializedPropertyParameter(name, p)`: the field `name` of a struct type. */
  function GetSerializedPropertyParameter<D, R>(name: string, p: SerializedParameter<D, R>): SerializedParameter<D, R> {
    SerializedParameter(name + Unless(p.isRequired, "?") + ": " + p.typeText, name + ": " + p.io, p.isRequired, p.dependencies, p.refs)
  }

  // ---------------------------------------------------------------------------
  // Laws

  /** Copying a type into a parameter and projecting it back loses nothing, and
      re-flagging a parameter with its own flag gives the parameter back. */
  lemma FromSerializedTypeRoundTrip<D, R>(t: SerializedType<D, R>, p: SerializedParameter<D, R>, isRequired: bool)
    ensures ToSerializedType(FromSerializedType(isRequired, t)) == t
    ensures FromSerializedType(p.isRequired, ToSerializedType(p)) == p
  {
  }

  /** The fields combine independently: the two texts are appended in lockstep,
      the flag is a disjunction, the references are appended with order and
      duplicates kept, and the dependencies go through their own monoid. */
  lemma ConcatFields<D, R>(deps: Monoid<D>, a: SerializedParameter<D, R>, b: SerializedParameter<D, R>)
    ensures Concat(deps, a, b).typeText == a.typeText + b.typeText
    ensures Concat(deps, a, b).io == a.io + b.io
    ensures Concat(deps, a, b).isRequired == (a.isRequired || b.isRequired)
    ensures Concat(deps, a, b).refs == a.refs + b.refs
    ensures |Concat(deps, a, b).refs| == |a.refs| + |b.refs|
    ensures Concat(deps, a, b).dependencies == deps.concat(a.dependencies, b.dependencies)
  {
  }

  /** The neutral element has empty texts, is not required and has no references. */
  lemma EmptyFields<D, R>(deps: Monoid<D>)
    ensures Empty<D, R>(deps) == SerializedParameter("", "", false, deps.empty, [])
  {
  }

  lemma EmptyIsIdentity<D(!new), R>(deps: Monoid<D>, a: SerializedParameter<D, R>)
    requires HasIdentity(deps)
    ensures Concat(deps, Empty(deps), a) == a
    ensures Concat(deps, a, Empty(deps)) == a
  {
    assert "" + a.typeText == a.typeText && a.typeText + "" == a.typeText;
    assert "" + a.io == a.io && a.io + "" == a.io;
    assert [] + a.refs == a.refs && a.refs + [] == a.refs;
  }

  lemma ConcatAssociative<D(!new), R>(deps: Monoid<D>, a: SerializedParameter<D, R>, b: SerializedParameter<D, R>, c: SerializedParameter<D, R>)
    requires Associative(deps)
    ensures Concat(deps, Concat(deps, a, b), c) == Concat(deps, a, Concat(deps, b, c))
  {
    assert (a.typeText + b.typeText) + c.typeText == a.typeText + (b.typeText + c.typeText);
    assert (a.io + b.io) + c.io == a.io + (b.io + c.io);
    assert (a.refs + b.refs) + c.refs == a.refs + (b.refs + c.refs);
  }

  /** `monoidSerializedParameter` obeys the monoid laws whenever the dependency monoid does. */
  lemma MonoidSerializedParameterLawful<D(!new), R(!new)>(deps: Monoid<D>)
    requires Lawful(deps)
    ensures Lawful(MonoidSerializedParameter<D, R>(deps))
  {
    var m := MonoidSerializedParameter<D, R>(deps);
    forall a, b, c ensures m.concat(m.concat(a, b), c) == m.concat(a, m.concat(b, c)) {
      ConcatAssociative(deps, a, b, c);
    }
    forall a ensures m.concat(m.empty, a) == a && m.concat(a, m.empty) == a {
      EmptyIsIdentity(deps, a);
    }
  }

  lemma IntercalateSerializedParametersNil<D, R>(deps: Monoid<D>, sep: SerializedParameter<D, R>)
    ensures IntercalateSerializedParameters(deps, sep, []) == SerializedParameter("", "", false, deps.empty, [])
  {
    IntercalateNil(MonoidSerializedParameter(deps), sep);
  }

  lemma IntercalateSerializedParametersSingleton<D, R>(deps: Monoid<D>, sep: SerializedParameter<D, R>, x: SerializedParameter<D, R>)
    ensures IntercalateSerializedParameters(deps, sep, [x]) == x
  {
    IntercalateSingleton(MonoidSerializedParameter(deps), sep, x);
  }

  /** On `[x, y]` the result is `(x · sep) · y`, whatever the dependency monoid. */
  lemma IntercalateSerializedParametersPairLeft<D, R>(deps: Monoid<D>, sep: SerializedParameter<D, R>, x: SerializedParameter<D, R>, y: SerializedParameter<D, R>)
    ensures IntercalateSerializedParameters(deps, sep, [x, y]) == Concat(deps, Concat(deps, x, sep), y)
  {
    IntercalatePairLeft(MonoidSerializedParameter(deps), sep, x, y);
  }

  lemma IntercalateSerializedParametersPair<D(!new), R(!new)>(deps: Monoid<D>, sep: SerializedParameter<D, R>, x: SerializedParameter<D, R>, y: SerializedParameter<D, R>)
    requires Associative(deps)
    ensures IntercalateSerializedParameters(deps, sep, [x, y]) == Concat(deps, x, Concat(deps, sep, y))
  {
    var m := MonoidSerializedParameter<D, R>(deps);
    forall a, b, c ensures m.concat(m.concat(a, b), c) == m.concat(a, m.concat(b, c)) {
      ConcatAssociative(deps, a, b, c);
    }
    IntercalatePair(m, sep, x, y);
  }

  function TypeTexts<D, R>(xs: seq<SerializedParameter<D, R>>): seq<string> {
    MapSeq((p: SerializedParameter<D, R>) => p.typeText, xs)
  }

  function Ios<D, R>(xs: seq<SerializedParameter<D, R>>): seq<string> {
    MapSeq((p: SerializedParameter<D, R>) => p.io, xs)
  }

  /** The type text and the validator text of an intercalation are the elements'
      texts joined by the separator's texts: the two stay in lockstep. */
  lemma IntercalateSerializedParametersTexts<D(!new), R(!new)>(deps: Monoid<D>, sep: SerializedParameter<D, R>, xs: seq<SerializedParameter<D, R>>)
    ensures IntercalateSerializedParameters(deps, sep, xs).typeText == Join(TypeTexts(xs), sep.typeText)
    ensures IntercalateSerializedParameters(deps, sep, xs).io == Join(Ios(xs), sep.io)
  {
    var m := MonoidSerializedParameter<D, R>(deps);
    var typeText := (p: SerializedParameter<D, R>) => p.typeText;
    var io := (p: SerializedParameter<D, R>) => p.io;
    assert Homomorphism(m, MonoidString(), typeText);
    assert Homomorphism(m, MonoidString(), io);
    IntercalateMap(m, MonoidString(), typeText, sep, xs);
    IntercalateMap(m, MonoidString(), io, sep, xs);
    IntercalateAppendIsJoin(MonoidString(), sep.typeText, TypeTexts(xs));
    IntercalateAppendIsJoin(MonoidString(), sep.io, Ios(xs));
  }

  /** An intercalation is required exactly when one of its elements is, or when
      the separator is and stands between two elements. */
  lemma IntercalateSerializedParametersRequired<D(!new), R(!new)>(deps: Monoid<D>, sep: SerializedParameter<D, R>, xs: seq<SerializedParameter<D, R>>)
    ensures IntercalateSerializedParameters(deps, sep, xs).isRequired <==>
            (exists i :: 0 <= i < |xs| && xs[i].isRequired) || (|xs| > 1 && sep.isRequired)
  {
    var m := MonoidSerializedParameter<D, R>(deps);
    var flag := (p: SerializedParameter<D, R>) => p.isRequired;
    assert Homomorphism(m, MonoidAny(), flag);
    IntercalateMap(m, MonoidAny(), flag, sep, xs);
    var bs := MapSeq(flag, xs);
    IntercalateAny(sep.isRequired, bs);
    if exists i :: 0 <= i < |xs| && xs[i].isRequired {
      var i :| 0 <= i < |xs| && xs[i].isRequired;
      assert bs[i];
    }
  }

  /** The references of an intercalation are the elements' references in order,
      with the separator's references between each pair; nothing is removed. */
  lemma IntercalateSerializedParametersRefs<D(!new), R(!new)>(deps: Monoid<D>, sep: SerializedParameter<D, R>, xs: seq<SerializedParameter<D, R>>)
    ensures IntercalateSerializedParameters(deps, sep, xs).refs == Join(MapSeq((p: SerializedParameter<D, R>) => p.refs, xs), sep.refs)
  {
    var m := MonoidSerializedParameter<D, R>(deps);
    var refs := (p: SerializedParameter<D, R>) => p.refs;
    assert Homomorphism(m, ArrayMonoid<R>(), refs);
    IntercalateMap(m, ArrayMonoid<R>(), refs, sep, xs);
    IntercalateAppendIsJoin(ArrayMonoid<R>(), sep.refs, MapSeq(refs, xs));
  }

  /** The dependencies of an intercalation are the elements' dependencies
      intercalated with the separator's by the dependency monoid. */
  lemma IntercalateSerializedParametersDependencies<D(!new), R(!new)>(deps: Monoid<D>, sep: SerializedParameter<D, R>, xs: seq<SerializedParameter<D, R>>)
    ensures IntercalateSerializedParameters(deps, sep, xs).dependencies ==
            Intercalate(deps, sep.dependencies, MapSeq((p: SerializedParameter<D, R>) => p.dependencies, xs))
  {
    var m := MonoidSerializedParameter<D, R>(deps);
    var dependencies := (p: SerializedParameter<D, R>) => p.dependencies;
    assert Homomorphism(m, deps, dependencies);
    IntercalateMap(m, deps, dependencies, sep, xs);
  }

  /** The field rendering: `name: T` for a required field, `name?: T` for an
      optional one; the validator is `name: io` either way, and the flag, the
      dependencies and the references are carried over. */
  lemma PropertyParameterShape<D, R>(name: string, p: SerializedParameter<D, R>)
    ensures GetSerializedPropertyParameter(name, p).typeText ==
            if p.isRequired then name + ": " + p.typeText else name + "?: " + p.typeText
    ensures GetSerializedPropertyParameter(name, p).io == name + ": " + p.io
    ensures GetSerializedPropertyParameter(name, p).isRequired == p.isRequired
    ensures GetSerializedPropertyParameter(name, p).dependencies == p.dependencies
    ensures GetSerializedPropertyParameter(name, p).refs == p.refs
  {
  }

  /** The character after the field name is the optional marker exactly when the
      field is not required, so the rendered type text records the flag. */
  lemma PropertyParameterMarker<D, R>(name: string, p: SerializedParameter<D, R>)
    ensures |GetSerializedPropertyParameter(name, p).typeText| > |name|
    ensures GetSerializedPropertyParameter(name, p).typeText[..|name|] == name
    ensures GetSerializedPropertyParameter(name, p).typeText[|name|] == '?' <==> !p.isRequired
  {
    var r := GetSerializedPropertyParameter(name, p);
    if p.isRequired {
      assert r.typeText == name + (": " + p.typeText);
      assert r.typeText[|name|] == ':';
    } else {
      assert r.typeText == name + ("?: " + p.typeText);
      assert r.typeText[|name|] == '?';
    }
  }

  /** Rendering a field loses nothing: two parameters rendered under the same
      name are equal only if the parameters are. */
  lemma PropertyParameterInjective<D, R>(name: string, p: SerializedParameter<D, R>, q: SerializedParameter<D, R>)
    requires GetSerializedPropertyParameter(name, p) == GetSerializedPropertyParameter(name, q)
    ensures p == q
  {
    var rp := GetSerializedPropertyParameter(name, p);
    PropertyParameterMarker(name, p);
    PropertyParameterMarker(name, q);
    assert p.isRequired == q.isRequired;
    var prefix := name + Unless(p.isRequired, "?") + ": ";
    assert rp.typeText == prefix + p.typeText;
    assert rp.typeText == prefix + q.typeText;
    assert p.typeText == rp.typeText[|prefix|..];
    assert q.typeText == rp.typeText[|prefix|..];
    assert p.io == rp.io[|name| + 2..];
    assert q.io == rp.io[|name| + 2..];
  }
}
