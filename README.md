# swagger-codegen-ts: serialized-parameter algebra and document collection

A Dafny model of two pieces of pure logic in the TypeScript code generator
swagger-codegen-ts.

1. **The serialized-parameter algebra**
   (`src/language/typescript/common/data/serialized-parameter.ts`). A generated
   struct field or function parameter is a record of
   - static-type text,
   - io-ts validator text,
   - an `isRequired` flag,
   - import dependencies,
   - the references met while building it.

   Records are merged by a struct monoid: the two texts are concatenated, the
   flag is a disjunction (`monoidAny`) and the references are appended. Lists are
   assembled by fp-ts `intercalate`. A field is rendered by
   `getSerializedPropertyParameter`.
2. **Document collection in `generate`** (`src/index.ts`). This covers:
   - the dialect discriminator `specLikeCodec`;
   - the `array.reduce` that turns the loaded `(fullPath, schema)` entries into
     the record of decoded specs;
   - `resolveRef`;
   - the fail-fast sequence (`getUnsafe` inside `taskEither.tryCatch`) that hands
     the decoded specs to the language backend.

Files and modules:

| file | module | contents |
|---|---|---|
| `either.dfy` | `Either` | fp-ts `Either`, usable with `:-`. A `Left` propagated by `:-` is what `getUnsafe` throws and `tryCatch` catches. |
| `monoid.dfy` | `Monoid` | fp-ts `Monoid`; `monoidString`, `monoidAny` and the array monoid with their laws. Also `intercalate` as fp-ts defines it: a left `reduce` over an `{init, acc}` state. |
| `serialized_parameter.dfy` | `SerializedParameters` | `SerializedType`, `SerializedParameter`, `fromSerializedType`, `monoidSerializedParameter`, `intercalateSerializedParameters`, `getSerializedPropertyParameter`. |
| `json.dfy` | `Json` | A parsed document node. |
| `codec.dfy` | `Codec` | The io-ts combinators the discriminator uses: `literal`, non-strict `type` and `union`. Only whether a decode succeeds is modelled. |
| `generate.dfy` | `Generate` | `specLikeCodec`, the collection fold, `resolveRef` and the body of `generate`. |

The definitions that model the source, by file:
- `monoid.dfy` models fp-ts `intercalate` (used at `serialized-parameter.ts:39`) as `Monoid.IntercalateStep`, `Monoid.Reduce` and `Monoid.Intercalate`. It models `monoidString`, `monoidAny` and the array monoid (lines 33-37) as `Monoid.MonoidString`, `Monoid.MonoidAny` and `Monoid.ArrayMonoid`.
- `serialized_parameter.dfy` models the following, all in `serialized-parameter.ts`:
  - lines 9-25: the datatypes `SerializedType` and `SerializedParameter`;
  - lines 27-30: `FromSerializedType`;
  - lines 32-38: `Empty`, `Concat` and `MonoidSerializedParameter`;
  - line 39: `IntercalateSerializedParameters`;
  - lines 41-48: `GetSerializedPropertyParameter` and `Unless`.
- `codec.dfy` models io-ts `literal`, `type` and `union` (used at `index.ts:110-126`) as `Codec.Accepts`.
- `generate.dfy` models the following, all in `index.ts`:
  - lines 110-126: `Generate.SpecLikeCodec` and `Generate.SpecLike`;
  - lines 78-94: `Generate.Step`, the reducer;
  - lines 76-95: `Generate.Collect` and `Generate.CollectSpecs`, the reduce from `{}`;
  - lines 99-103: `Generate.ResolveRef`;
  - lines 76-105: `Generate.Generate`.

Type parameters stand for what the model leaves abstract:
- `D` is the dependency collection and `deps` its monoid.
- `R` is a reference.
- `A` is a decoded spec.
- `E` is an error.
- `FS` is the file tree the backend returns.

How the fields merge:
- **The `isRequired` flag.** It merges with `monoidAny`, which is OR
  (`serialized-parameter.ts:36`). So a merge is required as soon as one part is
  required (`ConcatFields`, `IntercalateSerializedParametersRequired`).
- **References.** They use the plain array monoid (`serialized-parameter.ts:37`).
  Order and duplicates are kept, and nothing is deduplicated
  (`IntercalateSerializedParametersRefs`).
- **Dependencies.** They go through `monoidDependencies`, whose definition is not
  part of this model. Nothing is claimed about deduplication. The monoid is
  supplied by the caller, and its laws are assumed where a lemma needs them
  (`requires Lawful(deps)`).

## Model

| member | source | states |
|---|---|---|
| `Monoid.AppendLawful` | src/language/typescript/common/data/serialized-parameter.ts:33-37 | A monoid whose concat is sequence append and whose empty is [] is associative and has [] as identity. |
| `Monoid.MonoidStringLawful` | src/language/typescript/common/data/serialized-parameter.ts:33-34 | `monoidString` obeys the monoid laws. |
| `Monoid.ArrayMonoidLawful` | src/language/typescript/common/data/serialized-parameter.ts:37 | The array monoid used for `refs` obeys the monoid laws. |
| `Monoid.MonoidAnyLawful` | src/language/typescript/common/data/serialized-parameter.ts:36 | `monoidAny` (false, OR) obeys the monoid laws. |
| `Monoid.IntercalateNil` | src/language/typescript/common/data/serialized-parameter.ts:39 | `intercalate` of an empty array is the monoid's empty element. |
| `Monoid.IntercalateSingleton` | src/language/typescript/common/data/serialized-parameter.ts:39 | `intercalate` of `[x]` is `x` itself, for any monoid, lawful or not. |
| `Monoid.IntercalatePairLeft` | src/language/typescript/common/data/serialized-parameter.ts:39 | For any monoid, lawful or not, `intercalate(sep, [x, y]) == concat(concat(x, sep), y)`. |
| `Monoid.IntercalatePair` | src/language/typescript/common/data/serialized-parameter.ts:39 | For an associative concat, `intercalate(sep, [x, y]) == concat(x, concat(sep, y))`. |
| `Monoid.IntercalateIsJoinRight` | src/language/typescript/common/data/serialized-parameter.ts:39 | For an associative concat, the left fold of `intercalate` on a non-empty array equals the right-nested join `x0 · sep · (x1 · sep · …)`. |
| `Monoid.IntercalateMap` | src/language/typescript/common/data/serialized-parameter.ts:39 | A monoid homomorphism commutes with `intercalate`. So each field of a struct monoid is intercalated separately, with the separator's field between elements. |
| `Monoid.IntercalateAppendIsJoin` | src/language/typescript/common/data/serialized-parameter.ts:39 | With an append monoid, `intercalate` joins the parts with the separator between each pair. |
| `Monoid.IntercalateAny` | src/language/typescript/common/data/serialized-parameter.ts:36-39 | With `monoidAny`, `intercalate` is true iff some element is true, or the separator is true and there are at least two elements. |
| `SerializedParameters.FromSerializedType` | src/language/typescript/common/data/serialized-parameter.ts:27-30 | The result's `SerializedType` part is exactly the input type, and its flag is the given one. |
| `SerializedParameters.FromSerializedTypeRoundTrip` | src/language/typescript/common/data/serialized-parameter.ts:9-30 | Projecting a `fromSerializedType` result back to a `SerializedType` gives the type back. Re-flagging a parameter with its own flag gives the parameter back. |
| `SerializedParameters.ConcatFields` | src/language/typescript/common/data/serialized-parameter.ts:32-38 | Concat acts field by field: type and io texts are appended in lockstep, `isRequired` is `a || b`, refs are `a.refs + b.refs` (lengths add), dependencies go through their own monoid. |
| `SerializedParameters.EmptyFields` | src/language/typescript/common/data/serialized-parameter.ts:32-38 | The empty element has "" texts, `isRequired == false`, no refs, and the dependency monoid's empty element. |
| `SerializedParameters.EmptyIsIdentity` | src/language/typescript/common/data/serialized-parameter.ts:32-38 | When the dependency monoid has an identity, the empty parameter is a left and right identity of concat. |
| `SerializedParameters.ConcatAssociative` | src/language/typescript/common/data/serialized-parameter.ts:32-38 | When the dependency monoid is associative, concat is associative. |
| `SerializedParameters.MonoidSerializedParameterLawful` | src/language/typescript/common/data/serialized-parameter.ts:32-38 | `monoidSerializedParameter` obeys the monoid laws whenever the dependency monoid does. |
| `SerializedParameters.IntercalateSerializedParametersNil` | src/language/typescript/common/data/serialized-parameter.ts:39 | On `[]` the result is the empty parameter. |
| `SerializedParameters.IntercalateSerializedParametersSingleton` | src/language/typescript/common/data/serialized-parameter.ts:39 | On `[x]` the result is `x`. |
| `SerializedParameters.IntercalateSerializedParametersPairLeft` | src/language/typescript/common/data/serialized-parameter.ts:39 | On `[x, y]` the result is `concat(concat(x, sep), y)`, with no assumption on the dependency monoid. |
| `SerializedParameters.IntercalateSerializedParametersPair` | src/language/typescript/common/data/serialized-parameter.ts:39 | When dependencies are associative, on `[x, y]` the result is `concat(x, concat(sep, y))`. |
| `SerializedParameters.IntercalateSerializedParametersTexts` | src/language/typescript/common/data/serialized-parameter.ts:32-39 | The result's type text is the elements' type texts joined by `sep`'s type text. Its io text is the elements' io texts joined by `sep`'s io text. |
| `SerializedParameters.IntercalateSerializedParametersRequired` | src/language/typescript/common/data/serialized-parameter.ts:36-39 | The result is required iff some element is required, or `sep` is required and there are at least two elements. |
| `SerializedParameters.IntercalateSerializedParametersRefs` | src/language/typescript/common/data/serialized-parameter.ts:37-39 | The result's refs are the elements' refs in order, with `sep`'s refs between each pair; nothing is removed. |
| `SerializedParameters.IntercalateSerializedParametersDependencies` | src/language/typescript/common/data/serialized-parameter.ts:35-39 | The result's dependencies are the elements' dependencies intercalated by the dependency monoid with `sep`'s dependencies. |
| `SerializedParameters.PropertyParameterShape` | src/language/typescript/common/data/serialized-parameter.ts:41-48 | Type text is `name: T` when required and `name?: T` otherwise. Io text is always `name: io`. Flag, dependencies and refs are unchanged. |
| `SerializedParameters.PropertyParameterMarker` | src/language/typescript/common/data/serialized-parameter.ts:43 | The type text starts with the name, and the character after the name is `?` iff the field is not required. |
| `SerializedParameters.PropertyParameterInjective` | src/language/typescript/common/data/serialized-parameter.ts:41-48 | Two parameters rendered under the same name give the same result only if the parameters are equal: rendering loses no information. |
| `Codec.AcceptsExtends` | src/index.ts:110-126 | Non-strict decoding: for a codec with scalar literals, adding object keys at any depth, including inside array elements, never turns an accepted value into a rejected one. |
| `Generate.SpecLikeIff` | src/index.ts:110-126 | `specLikeCodec` accepts a value iff it is a (non-array) object with `swagger == "2.0"`, or `openapi` in {3.0.0, 3.0.1, 3.0.2}, or `asyncapi == "2.0.0"`, or an object `meta` with `version == 121`. |
| `Generate.DiscriminatorExamples` | src/index.ts:110-126 | Examples: `{foo: "bar"}` and an array are rejected; `{openapi: "3.0.0"}` and any object whose `meta` is `{version: 121}` are accepted. |
| `Generate.SpecLikeIgnoresOtherKeys` | src/index.ts:110-126 | Setting any top-level key other than swagger, openapi, asyncapi or meta never changes the discriminator's answer. |
| `Generate.SpecLikeExtends` | src/index.ts:110-126 | A spec-like document stays spec-like when keys are added to any object in it, at any depth, including inside array elements. |
| `Generate.CollectSkipsNonSpec` | src/index.ts:81-86 | A non-root entry that fails the discriminator can be removed from the entry list without changing the fold's result. |
| `Generate.CollectFails` | src/index.ts:76-95 | The fold fails iff some root or spec-like entry fails to decode (`getUnsafe` throws). The error is then that of the first such entry in order. |
| `Generate.RootDecodeFailureIsFatal` | src/index.ts:79-88 | If the root entry fails to decode, the collection fails, whether or not the root is spec-like. |
| `Generate.SpecLikeDecodeFailureIsFatal` | src/index.ts:87-88 | If a spec-like entry fails to decode, the whole collection fails; no partial map is returned. |
| `Generate.CollectKeys` | src/index.ts:78-93 | On success, the fold's keys are the starting accumulator's keys plus the relative paths of the root and the spec-like entries. |
| `Generate.CollectValues` | src/index.ts:90-93 | On success, each key either keeps its accumulator value (no entry wrote it) or holds the decoded value of the last entry that wrote it. |
| `Generate.CollectSpecsResult` | src/index.ts:76-95 | On success, the specs' keys are exactly the relative paths of the root and the spec-like entries. Each key holds the decoded value of the last entry with that relative path. |
| `Generate.ResolveRef` | src/index.ts:99-103 | Missing key: a lookup error. Otherwise the result succeeds iff the decoder succeeds on the stored node, and carries exactly the decoder's value or error. |
| `Generate.ResolveRefAgreesWithSpecs` | src/index.ts:76-103 | Assume full paths are distinct and no two collected entries share a relative path. Then resolving a collected entry's full path with the run's decoder gives exactly the value collected under its relative path. |
| `Generate.Generate` | src/index.ts:76-105 | If collection fails, the result is that error and the backend is never run. Otherwise the result is the backend's result on the collected specs, with a resolver over the same store. |

## Left out

- Document loading (`$RefParser.resolve`, `src/index.ts:67-74`) is modelled only as its output: the sequence of `(fullPath, schema)` entries in enumeration order, and the store built from them.
- Writing the file tree (`write`, `src/index.ts:105`) is left out: it is file-system I/O. `Generate.Generate` returns the value that would be written.
- Logging (`log`, `console.log`) is left out: it is a side channel.
- The `TaskEither`/`async` wrapping is left out: the model is synchronous.
- `process.cwd()`, `path.isAbsolute` and `path.resolve` (`src/index.ts:62-64`) are left out: these are host library calls. The root's resolved path is the parameter `spec`. `path.relative(cwd, ·)` (`src/index.ts:80`) is the uninterpreted function `relative`.
- io-ts decoder internals and `reportIfFailed` are left out. The caller's decoder is an abstract function `Json -> Either<E, A>` whose `Left` is the already-reported error.
- The Sketch file parser is left out: it belongs to the loader.
- `monoidDependencies` is not part of this model. Its laws are assumed where needed (`Lawful(deps)`), and nothing is claimed about deduplication.
- `unless` is not part of this model. `SerializedParameters.Unless` takes it to be `s` when the condition is false and "" otherwise.
- The language backend is a parameter, not modelled: it is pluggable and external. Its `Reader` over `{ resolveRef }` is modelled as a function that also receives a `ResolveRefContext` holding the store.
- Generate.ResolveRef: `$refs.get` first resolves the reference against the root document's path, then strips the hash, then follows the JSON pointer inside that document. The model's store is a map keyed by the whole reference. So the lookup matches the source only for absolute full paths without a pointer; `Generate.ResolveRefAgreesWithSpecs` uses only such paths.
- Generate.ResolveRef: the source reports both kinds of failure as an `Error`. The model keeps them apart, as `LookupFailed` and `DecodeFailed`.
- Codec.Accepts: io-ts reads a missing key as `undefined`. The model instead requires a listed key to be present. The two agree here because none of the discriminator's codecs accepts `undefined`.
- Json: YAML documents can yield NaN, ±Infinity and timestamps (`Date` values), which `Json` leaves out. This does not change the discriminator's answer. None of these values is `=== 121` or equal to a string literal, and none passes io-ts's record check, so they are rejected like any other non-matching scalar. JSON numbers are modelled as `real`, since `literal(121)` compares by value.
