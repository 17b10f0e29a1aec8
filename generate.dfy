/** The pure rules of `generate`: the spec discriminator, the fold that turns the
    loaded documents into the map of decoded specs, reference resolution, and the
    fail-fast sequence that hands the decoded specs to the language backend.

    Path handling is abstract: `spec` is the already resolved path of the root
    document and `relative` stands for `path.relative(cwd, ·)`. */
module Generate {
  import opened Either
  import opened Json
  import opened Codec

  const SwaggerCodec: Codec := Type([Prop("swagger", Literal(JString("2.0")))])
  const OpenapiVersionCodec: Codec := Union([Literal(JString("3.0.0")), Literal(JString("3.0.1")), Literal(JString("3.0.2"))])
  const OpenapiCodec: Codec := Type([Prop("openapi", OpenapiVersionCodec)])
  const AsyncapiCodec: Codec := Type([Prop("asyncapi", Literal(JString("2.0.0")))])
  const SketchMetaCodec: Codec := Type([Prop("version", Literal(JNumber(121.0)))])
  const SketchCodec: Codec := Type([Prop("meta", SketchMetaCodec)])

  /** `specLikeCodec`. */
  const SpecLikeCodec: Codec := Union([SwaggerCodec, OpenapiCodec, AsyncapiCodec, SketchCodec])

  /** `specLikeCodec.decode(j)` is a `Right`. */
  predicate SpecLike(j: Json) {
    Accepts(SpecLikeCodec, j)
  }

  /** Reference definition of the dialect discriminator: an object that declares
      Swagger 2.0, OpenAPI 3.0.0-3.0.2, AsyncAPI 2.0.0 or Sketch meta version 121. */
  predicate LooksLikeSpec(j: Json) {
    || HasField(j, "swagger", JString("2.0"))
    || HasField(j, "openapi", JString("3.0.0"))
    || HasField(j, "openapi", JString("3.0.1"))
    || HasField(j, "openapi", JString("3.0.2"))
    || HasField(j, "asyncapi", JString("2.0.0"))
    || (j.JObject? && "meta" in j.fields && HasField(j.fields["meta"], "version", JNumber(121.0)))
  }

  lemma AcceptsSingleProp(key: string, c: Codec, j: Json)
    ensures Accepts(Type([Prop(key, c)]), j) <==> j.JObject? && key in j.fields && Accepts(c, j.fields[key])
  {
    var props := [Prop(key, c)];
    if j.JObject? && key in j.fields && Accepts(c, j.fields[key]) {
      assert forall i :: 0 <= i < |props| ==> props[i].key in j.fields && Accepts(props[i].codec, j.fields[props[i].key]);
    }
    if Accepts(Type(props), j) {
      assert props[0].key in j.fields && Accepts(props[0].codec, j.fields[props[0].key]);
    }
  }

  lemma AcceptsLiteral(v: Json, j: Json)
    ensures Accepts(Literal(v), j) <==> j == v
  {
  }

  lemma AcceptsOpenapiVersion(j: Json)
    ensures Accepts(OpenapiVersionCodec, j) <==> j == JString("3.0.0") || j == JString("3.0.1") || j == JString("3.0.2")
  {
    var ms := OpenapiVersionCodec.members;
    if Accepts(OpenapiVersionCodec, j) {
      var i :| 0 <= i < |ms| && Accepts(ms[i], j);
      AcceptsLiteral(ms[i].value, j);
    }
    if j == JString("3.0.0") {
      assert Accepts(ms[0], j);
    } else if j == JString("3.0.1") {
      assert Accepts(ms[1], j);
    } else if j == JString("3.0.2") {
      assert Accepts(ms[2], j);
    }
  }

  lemma AcceptsUnionOfFour(a: Codec, b: Codec, c: Codec, d: Codec, j: Json)
    ensures Accepts(Union([a, b, c, d]), j) <==> Accepts(a, j) || Accepts(b, j) || Accepts(c, j) || Accepts(d, j)
  {
    var ms := [a, b, c, d];
    if Accepts(Union(ms), j) {
      var i :| 0 <= i < |ms| && Accepts(ms[i], j);
    }
    if Accepts(a, j) {
      assert Accepts(ms[0], j);
    } else if Accepts(b, j) {
      assert Accepts(ms[1], j);
    } else if Accepts(c, j) {
      assert Accepts(ms[2], j);
    } else if Accepts(d, j) {
      assert Accepts(ms[3], j);
    }
  }

  /** The discriminator accepts exactly the documents that declare a known dialect. */
  lemma SpecLikeIff(j: Json)
    ensures SpecLike(j) <==> LooksLikeSpec(j)
  {
    AcceptsUnionOfFour(SwaggerCodec, OpenapiCodec, AsyncapiCodec, SketchCodec, j);
    AcceptsSingleProp("swagger", Literal(JString("2.0")), j);
    AcceptsSingleProp("openapi", OpenapiVersionCodec, j);
    AcceptsSingleProp("asyncapi", Literal(JString("2.0.0")), j);
    AcceptsSingleProp("meta", SketchMetaCodec, j);
    if j.JObject? && "openapi" in j.fields {
      AcceptsOpenapiVersion(j.fields["openapi"]);
    }
    if j.JObject? && "meta" in j.fields {
      AcceptsSingleProp("version", Literal(JNumber(121.0)), j.fields["meta"]);
    }
  }

  /** An arbitrary JSON object is not spec-like; a bare OpenAPI 3.0.0 header is,
      as is a Sketch document, whatever else it holds. */
  lemma DiscriminatorExamples(other: map<string, Json>)
    ensures !SpecLike(JObject(map["foo" := JString("bar")]))
    ensures SpecLike(JObject(map["openapi" := JString("3.0.0")]))
    ensures SpecLike(JObject(other["meta" := JObject(map["version" := JNumber(121.0)])]))
    ensures !SpecLike(JArray([JObject(map["swagger" := JString("2.0")])]))
  {
    SpecLikeIff(JObject(map["foo" := JString("bar")]));
    SpecLikeIff(JObject(map["openapi" := JString("3.0.0")]));
    SpecLikeIff(JObject(other["meta" := JObject(map["version" := JNumber(121.0)])]));
    SpecLikeIff(JArray([JObject(map["swagger" := JString("2.0")])]));
  }

  /** A top-level key other than the four the discriminator reads never changes its answer. */
  lemma SpecLikeIgnoresOtherKeys(fields: map<string, Json>, key: string, v: Json)
    requires key != "swagger" && key != "openapi" && key != "asyncapi" && key != "meta"
    ensures SpecLike(JObject(fields[key := v])) <==> SpecLike(JObject(fields))
  {
    SpecLikeIff(JObject(fields[key := v]));
    SpecLikeIff(JObject(fields));
  }

  /** Adding keys to any object in a spec-like document, at any depth and inside
      array elements too, keeps it spec-like. */
  lemma SpecLikeExtends(narrow: Json, wide: Json)
    requires Extends(wide, narrow)
    requires SpecLike(narrow)
    ensures SpecLike(wide)
  {
    assert ScalarLiterals(OpenapiVersionCodec);
    assert ScalarLiterals(SketchMetaCodec);
    assert ScalarLiterals(SpecLikeCodec);
    AcceptsExtends(SpecLikeCodec, narrow, wide);
  }

  /** One `[fullPath, schema]` pair of `Object.entries($refs.values())`. */
  datatype Entry = Entry(fullPath: string, schema: Json)

  /** The entry is decoded: it is the root, or it passes the discriminator. */
  predicate Selected(spec: string, e: Entry) {
    e.fullPath == spec || SpecLike(e.schema)
  }

  /** The reducer of the `array.reduce` in `generate`. A non-root entry that is not
      spec-like leaves the accumulator as it is; any other entry is decoded, and a
      failed decode is thrown by `getUnsafe`. */
  function Step<E, A>(spec: string, relative: string -> string, decoder: Json -> Either<E, A>,
                      acc: map<string, A>, e: Entry): Either<E, map<string, A>>
  {
    if e.fullPath != spec && !SpecLike(e.schema) then Right(acc)
    else
      var decoded :- decoder(e.schema);
      Right(acc[relative(e.fullPath) := decoded])
  }

  /** The fold from a given accumulator; the first thrown error ends it. */
  function Collect<E, A>(spec: string, relative: string -> string, decoder: Json -> Either<E, A>,
                         acc: map<string, A>, entries: seq<Entry>): Either<E, map<string, A>>
    decreases |entries|
  {
    if |entries| == 0 then Right(acc)
    else
      var acc' :- Step(spec, relative, decoder, acc, entries[0]);
      Collect(spec, relative, decoder, acc', entries[1..])
  }

  /** `specs`: the fold from the empty record. */
  function CollectSpecs<E, A>(spec: string, relative: string -> string, decoder: Json -> Either<E, A>,
                              entries: seq<Entry>): Either<E, map<string, A>>
  {
    Collect(spec, relative, decoder, map[], entries)
  }

  /** Entry `i` writes key `k` into the accumulator. */
  predicate Writes(spec: string, relative: string -> string, entries: seq<Entry>, i: int, k: string)
    requires 0 <= i < |entries|
  {
    Selected(spec, entries[i]) && relative(entries[i].fullPath) == k
  }

  /** Entry `i` is the last entry that writes key `k`. */
  predicate LastWriter(spec: string, relative: string -> string, entries: seq<Entry>, i: int, k: string)
    requires 0 <= i < |entries|
  {
    Writes(spec, relative, entries, i, k) &&
    forall j :: i < j < |entries| ==> !Writes(spec, relative, entries, j, k)
  }

  /** The relative paths of the root and of the spec-like entries. */
  function SelectedKeys(spec: string, relative: string -> string, entries: seq<Entry>): set<string> {
    set i | 0 <= i < |entries| && Selected(spec, entries[i]) :: relative(entries[i].fullPath)
  }

  /** A non-root entry that is not spec-like can be dropped from the fold. */
  lemma {:induction false} CollectSkipsNonSpec<E, A>(spec: string, relative: string -> string, decoder: Json -> Either<E, A>,
                                                     acc: map<string, A>, before: seq<Entry>, e: Entry, after: seq<Entry>)
    requires !Selected(spec, e)
    ensures Collect(spec, relative, decoder, acc, before + [e] + after) == Collect(spec, relative, decoder, acc, before + after)
    decreases |before|
  {
    if |before| == 0 {
      assert before + [e] + after == [e] + after;
      assert ([e] + after)[1..] == after;
      assert before + after == after;
      assert Step(spec, relative, decoder, acc, e) == Right(acc);
    } else {
      var s := Step(spec, relative, decoder, acc, before[0]);
      assert (before + [e] + after)[0] == before[0] && (before + after)[0] == before[0];
      assert (before + [e] + after)[1..] == before[1..] + [e] + after;
      assert (before + after)[1..] == before[1..] + after;
      if s.Right? {
        CollectSkipsNonSpec(spec, relative, decoder, s.right, before[1..], e, after);
      }
    }
  }

  /** The fold fails exactly when some selected entry fails to decode, and then
      with the error of the first such entry. */
  lemma {:induction false} CollectFails<E, A>(spec: string, relative: string -> string, decoder: Json -> Either<E, A>,
                                              acc: map<string, A>, entries: seq<Entry>)
    ensures Collect(spec, relative, decoder, acc, entries).Left? <==>
            exists i :: 0 <= i < |entries| && Selected(spec, entries[i]) && decoder(entries[i].schema).Left?
    ensures Collect(spec, relative, decoder, acc, entries).Left? ==>
            exists i :: 0 <= i < |entries| && Selected(spec, entries[i]) &&
              decoder(entries[i].schema) == Left(Collect(spec, relative, decoder, acc, entries).left) &&
              forall j :: 0 <= j < i && Selected(spec, entries[j]) ==> decoder(entries[j].schema).Right?
    decreases |entries|
  {
    if |entries| > 0 {
      var e := entries[0];
      var rest := entries[1..];
      var s := Step(spec, relative, decoder, acc, e);
      if s.Left? {
        assert Selected(spec, e) && decoder(e.schema) == Left(s.left);
      } else {
        CollectFails(spec, relative, decoder, s.right, rest);
        var r := Collect(spec, relative, decoder, acc, entries);
        assert r == Collect(spec, relative, decoder, s.right, rest);
        if exists i :: 0 <= i < |entries| && Selected(spec, entries[i]) && decoder(entries[i].schema).Left? {
          var i :| 0 <= i < |entries| && Selected(spec, entries[i]) && decoder(entries[i].schema).Left?;
          assert i > 0 && rest[i - 1] == entries[i];
        }
        if r.Left? {
          var i :| 0 <= i < |rest| && Selected(spec, rest[i]) && decoder(rest[i].schema) == Left(r.left) &&
                   forall j :: 0 <= j < i && Selected(spec, rest[j]) ==> decoder(rest[j].schema).Right?;
          assert entries[i + 1] == rest[i];
          forall j | 0 <= j < i + 1 && Selected(spec, entries[j]) ensures decoder(entries[j].schema).Right? {
            if j > 0 {
              assert entries[j] == rest[j - 1];
            }
          }
        }
      }
    }
  }

  /** The root is decoded even when it is not spec-like, and a failure to decode
      it fails the whole collection. */
  lemma RootDecodeFailureIsFatal<E, A>(spec: string, relative: string -> string, decoder: Json -> Either<E, A>,
                                       entries: seq<Entry>, i: int)
    requires 0 <= i < |entries| && entries[i].fullPath == spec
    requires decoder(entries[i].schema).Left?
    ensures CollectSpecs(spec, relative, decoder, entries).Left?
  {
    CollectFails(spec, relative, decoder, map[], entries);
  }

  /** A spec-like entry that the decoder rejects fails the whole collection: no
      partial map is returned. */
  lemma SpecLikeDecodeFailureIsFatal<E, A>(spec: string, relative: string -> string, decoder: Json -> Either<E, A>,
                                           entries: seq<Entry>, i: int)
    requires 0 <= i < |entries| && SpecLike(entries[i].schema)
    requires decoder(entries[i].schema).Left?
    ensures CollectSpecs(spec, relative, decoder, entries).Left?
  {
    CollectFails(spec, relative, decoder, map[], entries);
  }

  lemma SelectedKeysCons(spec: string, relative: string -> string, entries: seq<Entry>)
    requires |entries| > 0
    ensures SelectedKeys(spec, relative, entries) ==
            (if Selected(spec, entries[0]) then {relative(entries[0].fullPath)} else {}) + SelectedKeys(spec, relative, entries[1..])
  {
    var rest := entries[1..];
    var here := if Selected(spec, entries[0]) then {relative(entries[0].fullPath)} else {};
    forall k | k in SelectedKeys(spec, relative, entries) ensures k in here + SelectedKeys(spec, relative, rest) {
      var i :| 0 <= i < |entries| && Selected(spec, entries[i]) && relative(entries[i].fullPath) == k;
      if i > 0 {
        assert Selected(spec, rest[i - 1]) && relative(rest[i - 1].fullPath) == k;
      }
    }
    forall k | k in SelectedKeys(spec, relative, rest) ensures k in SelectedKeys(spec, relative, entries) {
      var i :| 0 <= i < |rest| && Selected(spec, rest[i]) && relative(rest[i].fullPath) == k;
      assert entries[i + 1] == rest[i];
    }
  }

  lemma {:induction false} CollectKeys<E, A>(spec: string, relative: string -> string, decoder: Json -> Either<E, A>,
                                             acc: map<string, A>, entries: seq<Entry>)
    requires Collect(spec, relative, decoder, acc, entries).Right?
    ensures Collect(spec, relative, decoder, acc, entries).right.Keys == acc.Keys + SelectedKeys(spec, relative, entries)
    decreases |entries|
  {
    if |entries| > 0 {
      var acc' := Step(spec, relative, decoder, acc, entries[0]).right;
      CollectKeys(spec, relative, decoder, acc', entries[1..]);
      SelectedKeysCons(spec, relative, entries);
    }
  }

  /** Key `k` of the result `r` still holds its value from `acc`: no entry wrote it. */
  ghost predicate KeptFromAcc<A>(spec: string, relative: string -> string, entries: seq<Entry>, acc: map<string, A>, r: map<string, A>, k: string) {
    k in acc && k in r && r[k] == acc[k] && forall j :: 0 <= j < |entries| ==> !Writes(spec, relative, entries, j, k)
  }

  /** Key `k` of the result `r` holds the decoded value of the last entry that wrote it. */
  ghost predicate DecodedFromLastWriter<E, A>(spec: string, relative: string -> string, decoder: Json -> Either<E, A>,
                                        entries: seq<Entry>, r: map<string, A>, k: string) {
    k in r && exists i :: 0 <= i < |entries| && LastWriter(spec, relative, entries, i, k) && decoder(entries[i].schema) == Right(r[k])
  }

  lemma {:induction false} CollectValues<E, A>(spec: string, relative: string -> string, decoder: Json -> Either<E, A>,
                                               acc: map<string, A>, entries: seq<Entry>, k: string)
    requires Collect(spec, relative, decoder, acc, entries).Right?
    requires k in Collect(spec, relative, decoder, acc, entries).right
    ensures KeptFromAcc(spec, relative, entries, acc, Collect(spec, relative, decoder, acc, entries).right, k) ||
            DecodedFromLastWriter(spec, relative, decoder, entries, Collect(spec, relative, decoder, acc, entries).right, k)
    decreases |entries|
  {
    if |entries| > 0 {
      var rest := entries[1..];
      var acc' := Step(spec, relative, decoder, acc, entries[0]).right;
      var r := Collect(spec, relative, decoder, acc, entries).right;
      assert r == Collect(spec, relative, decoder, acc', rest).right;
      CollectValues(spec, relative, decoder, acc', rest, k);
      if DecodedFromLastWriter(spec, relative, decoder, rest, r, k) {
        var i :| 0 <= i < |rest| && LastWriter(spec, relative, rest, i, k) && decoder(rest[i].schema) == Right(r[k]);
        WritesShift(spec, relative, entries, i + 1, k);
        forall j | i + 1 < j < |entries| ensures !Writes(spec, relative, entries, j, k) {
          WritesShift(spec, relative, entries, j, k);
        }
        assert LastWriter(spec, relative, entries, i + 1, k);
      } else if Writes(spec, relative, entries, 0, k) {
        forall j | 0 < j < |entries| ensures !Writes(spec, relative, entries, j, k) {
          WritesShift(spec, relative, entries, j, k);
          assert !Writes(spec, relative, rest, j - 1, k);
        }
        assert LastWriter(spec, relative, entries, 0, k);
      } else {
        assert KeptFromAcc(spec, relative, rest, acc', r, k);
        forall j | 0 <= j < |entries| ensures !Writes(spec, relative, entries, j, k) {
          if j > 0 {
            WritesShift(spec, relative, entries, j, k);
            assert !Writes(spec, relative, rest, j - 1, k);
          }
        }
      }
    }
  }

  lemma WritesShift(spec: string, relative: string -> string, entries: seq<Entry>, j: int, k: string)
    requires 0 < j < |entries|
    ensures Writes(spec, relative, entries, j, k) == Writes(spec, relative, entries[1..], j - 1, k)
  {
    assert entries[1..][j - 1] == entries[j];
  }

  /** On success the decoded specs are keyed by exactly the relative paths of the
      root and the spec-like entries, and each key holds the decoded value of the
      last entry that wrote it. */
  lemma CollectSpecsResult<E, A>(spec: string, relative: string -> string, decoder: Json -> Either<E, A>, entries: seq<Entry>)
    requires CollectSpecs(spec, relative, decoder, entries).Right?
    ensures CollectSpecs(spec, relative, decoder, entries).right.Keys == SelectedKeys(spec, relative, entries)
    ensures forall k :: k in CollectSpecs(spec, relative, decoder, entries).right ==>
              exists i :: 0 <= i < |entries| && LastWriter(spec, relative, entries, i, k) &&
                decoder(entries[i].schema) == Right(CollectSpecs(spec, relative, decoder, entries).right[k])
  {
    CollectKeys(spec, relative, decoder, map[], entries);
    var r := CollectSpecs(spec, relative, decoder, entries).right;
    forall k | k in r
      ensures exists i :: 0 <= i < |entries| && LastWriter(spec, relative, entries, i, k) && decoder(entries[i].schema) == Right(r[k])
    {
      CollectValues(spec, relative, decoder, map[], entries, k);
    }
  }

  /** The document store `$refs`, keyed by full path. */
  function StoreOf(entries: seq<Entry>): map<string, Json>
    decreases |entries|
  {
    if |entries| == 0 then map[]
    else StoreOf(entries[..|entries| - 1])[entries[|entries| - 1].fullPath := entries[|entries| - 1].schema]
  }

  /** No two entries share a full path, as the keys of `$refs.values()` do not. */
  predicate DistinctPaths(entries: seq<Entry>) {
    forall i, j :: 0 <= i < j < |entries| ==> entries[i].fullPath != entries[j].fullPath
  }

  lemma {:induction false} StoreOfAt(entries: seq<Entry>, i: int)
    requires DistinctPaths(entries)
    requires 0 <= i < |entries|
    ensures entries[i].fullPath in StoreOf(entries) && StoreOf(entries)[entries[i].fullPath] == entries[i].schema
    decreases |entries|
  {
    if i < |entries| - 1 {
      var init := entries[..|entries| - 1];
      assert init[i] == entries[i];
      StoreOfAt(init, i);
    }
  }

  /** Why a reference could not be resolved. */
  datatype ResolveError<E> = LookupFailed(ref: string) | DecodeFailed(error: E)

  /** `resolveRef($ref, decoder)`: look the reference up in the store, then decode it. */
  function ResolveRef<E, B>(store: map<string, Json>, ref: string, decoder: Json -> Either<E, B>): (r: Either<ResolveError<E>, B>)
    ensures r.Left? && r.left.LookupFailed? <==> ref !in store
    ensures r.Right? <==> ref in store && decoder(store[ref]).Right?
    ensures r.Right? ==> decoder(store[ref]) == Right(r.right)
    ensures r.Left? && r.left.DecodeFailed? ==> decoder(store[ref]) == Left(r.left.error)
  {
    if ref !in store then Left(LookupFailed(ref))
    else match decoder(store[ref])
      case Left(e) => Left(DecodeFailed(e))
      case Right(v) => Right(v)
  }

  /** The context the language backend is given: `{ resolveRef }` over the store. */
  datatype ResolveRefContext = ResolveRefContext(store: map<string, Json>) {
    function Resolve<E, B>(ref: string, decoder: Json -> Either<E, B>): Either<ResolveError<E>, B> {
      ResolveRef(store, ref, decoder)
    }
  }

  /** Resolving the full path of a collected spec with the run's decoder gives the
      very value the collection holds under its relative path, when no two
      selected entries share a relative path. */
  lemma ResolveRefAgreesWithSpecs<E, A>(spec: string, relative: string -> string, decoder: Json -> Either<E, A>,
                                        entries: seq<Entry>, i: int)
    requires DistinctPaths(entries)
    requires forall a, b :: 0 <= a < b < |entries| && Selected(spec, entries[a]) && Selected(spec, entries[b]) ==>
               relative(entries[a].fullPath) != relative(entries[b].fullPath)
    requires CollectSpecs(spec, relative, decoder, entries).Right?
    requires 0 <= i < |entries| && Selected(spec, entries[i])
    ensures relative(entries[i].fullPath) in CollectSpecs(spec, relative, decoder, entries).right
    ensures ResolveRef(StoreOf(entries), entries[i].fullPath, decoder) ==
            Right(CollectSpecs(spec, relative, decoder, entries).right[relative(entries[i].fullPath)])
  {
    var specs := CollectSpecs(spec, relative, decoder, entries).right;
    var k := relative(entries[i].fullPath);
    CollectSpecsResult(spec, relative, decoder, entries);
    assert k in SelectedKeys(spec, relative, entries);
    var w :| 0 <= w < |entries| && LastWriter(spec, relative, entries, w, k) && decoder(entries[w].schema) == Right(specs[k]);
    assert Writes(spec, relative, entries, i, k);
    assert w == i;
    StoreOfAt(entries, i);
  }

  /** The body of `generate` once the documents are loaded: collect the decoded
      specs, failing fast, then run the language backend on them with a resolver
      over the same store. Whatever the backend returns is what gets written. */
  method Generate<E, A, FS>(spec: string, relative: string -> string, decoder: Json -> Either<E, A>,
                            language: (ResolveRefContext, map<string, A>) -> Either<E, FS>,
                            entries: seq<Entry>) returns (r: Either<E, FS>)
    ensures CollectSpecs(spec, relative, decoder, entries).Left? ==>
              r == Left(CollectSpecs(spec, relative, decoder, entries).left)
    ensures CollectSpecs(spec, relative, decoder, entries).Right? ==>
              r == language(ResolveRefContext(StoreOf(entries)), CollectSpecs(spec, relative, decoder, entries).right)
  {
    var specs :- CollectSpecs(spec, relative, decoder, entries);
    r := language(ResolveRefContext(StoreOf(entries)), specs);
  }
}
