# nope-validator: the rule-chain validation engine in Dafny

This project models the core of nope-validator, a TypeScript library of
schema validators.

- **Validators are data.** A validator is a `Schema.Node`:
  - a primitive validator (`Leaf`, of the plain, string, number, boolean or date kind);
  - an array validator (`List`);
  - an object validator (`Record`, a map of field validators plus object-level rules).
- **Rules are data too.** Every builder method (`required`, `oneOf`, `when`, `min`, `of`, `noUnknown`, …) appends one constructor of the first-order `Schema.Rule` datatype.
- **User code is a parameter.** User callbacks are function-valued fields: `test`, the `every`/`some` predicates, a `when` predicate, and a regular expression's `test`.
- **Values.** JavaScript values are `JsValues.Value`. Arrays and objects carry an identity, so `===` (identity) and `deepEquals` (structure) can differ, as they do in JavaScript.

The engine (`Engine`) gives what one rule returns (`Eval`):

- nothing;
- a message;
- a validator to delegate to;
- a promise;
- an exception.

On top of that it gives the rule loop of primitive and array validators (`Chain`) and the typed validators' coercion before the loop (`Prepare`). It also gives the object validator: object rules first, then every field, with the string errors gathered into a map. `Run` covers both `validate` and `validateAsync`.

The library's `src/` files come from different revisions:

- **The typed validators rely on methods the `src/` primitive does not have.**
  - `src/NopeBoolean.ts`, `src/NopeDate.ts` and `src/NopeNumber.ts` call `this.isEmpty`.
  - `src/NopeArray.ts:53` calls `getType()` on the element validator.
  - The library's tests call `when` and `notOneOf` on typed validators (src/__tests__/NopePrimitive.spec.ts:99, 174, 354).
  - `src/NopePrimitive.ts` defines none of these four. The primitive with delegation (`benchmark/nopesrc/NopePrimitive.ts`) defines all of them, so the engine uses it as the base of every primitive validator.
  - `src/NopeString.ts` brings its own `isEmpty` (line 14) and `_type` (line 6), which override either base.
- **The `src/` primitive is modelled on its own as well.** It has no delegation, its `required` tests for nil only, and its `oneOf` does not exempt undefined. `SrcPrimitive` models it and relates it to the engine.
- **Array validators follow both files.** They share the engine's chain: `src/NopeArray.ts` for the rules, and `benchmark/nopesrc/NopeArray.ts` for `validateAsync`.

The library's own test (src/__tests__/utils.spec.ts:14-18) expects `resolveNopeRefsFromKeys` to yield undefined for a key missing from the context. The code yields the key itself. The model follows the code in `Utils.ResolveRefsFromKeys` and records the difference under Findings. The `when` rule resolves its keys with the corrected `Utils.ResolveKeys`: the primitive with delegation imports `benchmark/nopesrc/utils.ts`, which is not part of this model. The library's circular `when` test (src/__tests__/NopePrimitive.spec.ts:351-388) needs a missing key to read as undefined. So `Primitive.WhenPicksBranch` and the `WhenKey…` lemmas describe the corrected resolution.

## Model

| member | source | states |
|---|---|---|
| JsValues.IndexOf | src/NopePrimitive.ts:31 | `indexOf` is -1 exactly when no element is `===` to the value; otherwise it is the first position holding such an element |
| JsValues.ScalarEqualities | src/NopeArray.ts:136-142 | on strings, numbers, booleans and nil, both `===` and `deepEquals` are plain equality |
| JsValues.DeepEqualsIgnoresIdentity | src/NopeArray.ts:139 | two distinct arrays with the same elements are `deepEquals` but not `===` |
| Refs.ResolveAll | src/NopePrimitive.ts:21-29 | the resolved list has one entry per option, in order: a reference is read from the context when there is one, and any other option is kept as it is |
| Refs.IndexKeyRoundTrip | src/NopeObject.ts:41 | an array index's property key is its decimal numeral without leading zeros, and reading that numeral back gives the index |
| Refs.IndexKeysMeans | src/NopeObject.ts:41 | the keys `for … in` visits on a string or array of length n are exactly the numerals of 0 … n-1 |
| Refs.StringProps | src/NopeObject.ts:70 | `entry[key]` on a string reads `length` and the character at each index |
| Refs.StringKeys | src/NopeObject.ts:41-43 | a string reads undefined for every other own key, and `for … in` visits exactly its indices |
| Refs.LengthOfMeans | src/NopeArray.ts:94 | `entry.length` in a comparison is a string's or an array's length, an object's own `length` field read by `Number()`, and NaN on numbers, booleans and dates |
| Refs.ArrayProps | src/NopeObject.ts:70 | `entry[key]` on an array reads `length` and the element at each index, and undefined for every other own key; `for … in` visits exactly the indices |
| Refs.ListedMeans | src/NopePrimitive.ts:29-31 | `indexOf` over the resolved options finds the entry exactly when some option hits it: a literal by `===`, a reference through the context field it names |
| Utils.ResolveRefsFromKeys | src/utils.ts:3-16 | same length and order as the keys; element i is `context[k_i]` when there is a context, `k_i` is a string and the field is defined; otherwise it is the key itself |
| Utils.ResolveKeys | src/utils.ts:3-16 | corrected resolution used by `when`: with a context each key reads its field, undefined when absent; without one each key stands for itself |
| Utils.ResolutionsAgreeOnDefinedKeys | src/utils.ts:8-10 | the as-written and the corrected resolution agree on every key whose field is defined |
| Utils.MissingKeyComesBackAsItsName | src/utils.ts:13 | keys `a, b, d` against `{a: 2, b: 5}` give `[2, 5, "d"]` as written and `[2, 5, undefined]` corrected |
| Utils.Filter | src/utils.ts:19 | `filter` keeps exactly the elements that satisfy the predicate and adds nothing |
| Utils.EveryMeansAll | src/utils.ts:18-20 | `every(arr, p)` holds exactly when every element satisfies `p`, and holds on `[]` |
| Strings.TrimStartShape | src/NopeString.ts:15 | trimming the front leaves nothing exactly when the text is all white space, and otherwise leaves text starting with a non-space |
| Strings.TrimEndKeepsLeadingText | src/NopeString.ts:15 | trimming the end of text that starts with a non-space leaves something |
| Strings.TrimEmptyIffBlank | src/NopeString.ts:15 | `trim().length === 0` exactly when the text is all white space |
| Strings.IsEmptyMeansBlank | src/NopeString.ts:14-16 | the string validator's `isEmpty` holds exactly on nil or text whose string form is all white space |
| Strings.LengthRulesOnStrings | src/NopeString.ts:54-112 | on a non-blank string `greaterThan`/`lessThan` fail on length ≤ / ≥ the bound (exclusive) and `atLeast`/`atMost` on length < / > (inclusive); blank strings pass all four |
| Strings.EmptyEntriesPass | src/NopeString.ts:18-30 | undefined, null and all-white-space strings pass `regex` and all four length rules |
| Strings.CoercionShape | src/NopeString.ts:8-12 | a truthy entry becomes its string form and a falsy one is left alone; strings are unchanged, so coercing twice is coercing once |
| Numbers.ComparisonsOnNumbers | src/NopeNumber.ts:36-90 | on a number, `greaterThan` fails on ≤, `lessThan` on ≥, `atLeast` on <, `atMost` on > |
| Numbers.ZeroIsNeitherPositiveNorNegative | src/NopeNumber.ts:92-98 | zero fails both sign checks; a number passes the check against 0 exactly when it is above (below) zero |
| Numbers.IntegerRule | src/NopeNumber.ts:7-20 | `integer` fails a number exactly when it differs from its floor, fails every other non-nil value, and passes nil |
| Numbers.NilPassesComparisons | src/NopeNumber.ts:36-90 | undefined and null pass every number rule |
| Numbers.PrepareShape | src/NopeNumber.ts:100-106 | `validate` stops with the validator's message exactly on NaN or on a truthy entry that `Number()` cannot read; otherwise falsy entries go on unchanged and truthy ones as their number |
| Booleans.RawRules | src/NopeBooolean.ts:5-35 | without coercion `true()` fails every non-nil value other than `true`, `false()` every non-nil value other than `false`, and nil passes both |
| Booleans.CoercedRules | src/NopeBoolean.ts:7-33 | after coercion `true()` fails exactly the falsy non-nil entries and `false()` exactly the truthy ones |
| Dates.StrictComparisons | src/NopeDate.ts:11-46 | on valid dates `before` fails on ≥ the bound and `after` on ≤ it, so an equal date fails both |
| Dates.IncomparablePasses | src/NopeDate.ts:15-42 | nil entries, Invalid Dates and unresolvable bounds pass both rules |
| Dates.PrepareShape | src/NopeDate.ts:48-64 | nil and dates go on unchanged; `validate` stops with its message exactly on an entry that is neither numeric nor parseable; otherwise the rules see a date |
| ArrayChecks.Contains | src/NopeArray.ts:116-128 | `indexOf` on an array hits exactly when some element is `===`; a value with no `indexOf` throws |
| ArrayChecks.FindDeep | src/NopeArray.ts:139 | `find(deepEquals)` returns nothing exactly when no value is deep-equal, and otherwise returns a deep-equal member |
| ArrayChecks.StructureKeepsTruthiness | src/NopeArray.ts:139 | erasing identities keeps truthiness |
| ArrayChecks.UnmatchedMeans | src/NopeArray.ts:136-142 | an element is unmatched when it is `null`, when it is an object with no deep-equal value, or when it is a scalar with no `===` value |
| Schema.TypeTag | benchmark/nopesrc/NopePrimitive.ts:7-11 | corrected `getType()`: each typed validator reports the `typeof` of the values it accepts (numbers included, where the code inherits 'undefined'), arrays and dates 'object', the plain primitive 'undefined'; the object validator has none |
| Engine.WhenOutcome | benchmark/nopesrc/NopePrimitive.ts:47-60 | `when` always hands over, to `then` or to `otherwise` |
| Engine.Eval | benchmark/nopesrc/NopePrimitive.ts:109-119 | only `when` returns a validator, and it is one of its two branches; only `ofAsync` run synchronously returns a promise |
| Engine.ElementGate | src/NopeArray.ts:48-55 | `of` goes on to validate the elements exactly when the entry is a non-empty array whose every element has the element validator's type; a type mismatch is reported with the rule's message |
| Engine.Chain | benchmark/nopesrc/NopePrimitive.ts:109-119 | the rule loop of a primitive or array validator, delegation included, never yields a map of field errors |
| Engine.Run | benchmark/nopesrc/NopePrimitive.ts:109-134 | in both modes only an object validator yields a map of field errors; the map is non-empty, names fields of its shape, and holds non-empty messages |
| Engine.ObjectChecks | src/NopeObject.ts:27-62 | the object rules throw exactly on an empty shape; any other result they end with is the non-empty message of one of the `noUnknown` rules, on an entry with an unknown key |
| Engine.Collect | src/NopeObject.ts:64-82 | after the field loop the result is undefined, an exception or a map; the map is non-empty and holds each failing field's own message |
| Engine.ValidateRecord | src/NopeObject.ts:55-83 | an object validator never hands back a validator or promise; a string result is a `noUnknown` message on an entry with an unknown key; a map names fields of its shape with non-empty messages |
| Engine.Scan | src/NopeArray.ts:6-21 | the element scan reports all-pass only when every element's validation passes; otherwise it reports the first element whose validation is truthy or throws, and every earlier element passed |
| Engine.FieldResults | src/NopeObject.ts:67-76 | the object validator validates exactly the keys of its shape |
| Primitive.AddRule | src/NopePrimitive.ts:41-45 | `test` (and every builder) appends exactly one rule at the end and keeps the earlier rules and the validator's kind |
| Primitive.ChainUnfold | benchmark/nopesrc/NopePrimitive.ts:110-118 | a rule that returns nothing hands on to the next; any truthy result settles the verdict |
| Primitive.OneRule | benchmark/nopesrc/NopePrimitive.ts:110-118 | a single-rule validator's verdict is that rule's result settled |
| Primitive.StepAgrees | benchmark/nopesrc/NopePrimitive.ts:111 | the same rule in validators of the same kind returns the same thing |
| Primitive.QuietRulesAreSkipped | benchmark/nopesrc/NopePrimitive.ts:110-118 | rules that return nothing are stepped over |
| Primitive.FirstStopWins | benchmark/nopesrc/NopePrimitive.ts:110-118 | first error wins: the verdict is settled by the first rule whose result is truthy |
| Primitive.AllQuietIsValid | benchmark/nopesrc/NopePrimitive.ts:109-119 | with no rules, or when no rule returns anything truthy, `validate` returns undefined |
| Primitive.SameRuleSameTurn | benchmark/nopesrc/NopePrimitive.ts:110-118 | the same rule at the same position settles two chains alike or hands both on |
| Primitive.PrefixDecides | benchmark/nopesrc/NopePrimitive.ts:110-118 | validators agreeing on a prefix of rules agree wherever the prefix decides; otherwise the longer one carries on after the prefix |
| Primitive.LaterRulesIgnored | benchmark/nopesrc/NopePrimitive.ts:110-118 | once rule k ends the chain, rules after k are never consulted |
| Primitive.LastRuleSettles | benchmark/nopesrc/NopePrimitive.ts:110-118 | the last rule alone settles the end of the chain |
| Primitive.AddRuleKeepsEarlierVerdict | benchmark/nopesrc/NopePrimitive.ts:99-103 | appending a rule changes nothing when an earlier rule already ends the chain; otherwise the new rule alone settles the verdict |
| Primitive.DelegationHandsOver | benchmark/nopesrc/NopePrimitive.ts:113-114 | when the first truthy result is a primitive validator, the verdict is that validator's `validate` on the same entry and context |
| Primitive.RequiredAndNotAllowedComplementary | benchmark/nopesrc/NopePrimitive.ts:13-35 | `required` fails exactly on empty entries and `notAllowed` exactly on the others; empty is the nil test except in the string validator |
| Primitive.WhenKeyMeans | benchmark/nopesrc/NopePrimitive.ts:37-63 | `when(key, {is: v})` with a context hands over to `then` exactly when the key's field is `===` to `v`, and to `otherwise` if not |
| Primitive.WhenKeyPredicate | benchmark/nopesrc/NopePrimitive.ts:37-63 | `when(key, {is: p})` hands over to `then` exactly when `p` holds of the one-element list of the key's field |
| Primitive.WhenKeyWithoutContext | benchmark/nopesrc/NopePrimitive.ts:37-63 | without a context, `when(key, {is: v})` compares the key's own name with `v` |
| Primitive.WhenIsMeansEvery | benchmark/nopesrc/NopePrimitive.ts:57 | a literal `is` holds exactly when every key value is `===` to it, and holds vacuously for no keys |
| Primitive.WhenPicksBranch | benchmark/nopesrc/NopePrimitive.ts:47-60 | `when` picks `then` exactly when every resolved key value is `===` to a literal `is`, or exactly when the predicate holds of the values in key order; otherwise it picks `otherwise` |
| Primitive.OneOfCharacterised | benchmark/nopesrc/NopePrimitive.ts:65-85 | undefined always passes; otherwise the rule fails exactly when no resolved option is `===`; a lone reference stands for the whole list in that field, and without a context it throws |
| Primitive.NotOneOfCharacterised | benchmark/nopesrc/NopePrimitive.ts:87-97 | `notOneOf` fails exactly when some resolved option is `===` to the entry, with no exemption for undefined |
| SrcPrimitive.Returns | src/NopePrimitive.ts:55-57 | a truthy rule result is never undefined; a message comes back as itself |
| SrcPrimitive.ValidateSrc | src/NopePrimitive.ts:51-59 | undefined exactly when no rule returns anything truthy; otherwise the first truthy result, with every earlier rule quiet; without `when` rules this equals the engine's chain |
| SrcPrimitive.RequiredMeansNil | src/NopePrimitive.ts:7-17 | `required` fails exactly on undefined and null |
| SrcPrimitive.OneOfListedMeans | src/NopePrimitive.ts:19-39 | `oneOf` fails exactly when no option hits the entry; undefined is not exempt |
| Typed.NumberValidation | src/NopeNumber.ts:100-111 | NaN, and truthy entries `Number()` cannot read, give the constructor's message whatever the rules; other falsy entries reach the rules unchanged, and truthy ones as their number |
| Typed.SignRules | src/NopeNumber.ts:25-98 | `positive` fails on x ≤ 0 and `negative` on x ≥ 0, so 0 fails both; `min`/`max` behave as `greaterThan`/`lessThan` |
| Typed.NumberRulesPassNil | src/NopeNumber.ts:7-90 | undefined and null pass `greaterThan`, `lessThan`, `atLeast`, `atMost` and `integer` |
| Typed.StringValidation | src/NopeString.ts:8-12 | a truthy entry reaches the rules as its string form, a falsy one as it is |
| Typed.StringRequiredRejectsBlank | src/NopeString.ts:14-16 | the string validator's `required` fails exactly on nil or blank text; the plain primitive's passes `" "` |
| Typed.StringAliases | src/NopeString.ts:43-52 | `min`/`max` fail on non-blank strings whose length is ≤ / ≥ the bound |
| Typed.BooleanValidation | src/NopeBoolean.ts:35-39 | the rules see nil unchanged and anything else as its truthiness |
| Typed.BooleanRules | src/NopeBoolean.ts:7-33 | end to end, `true()` fails exactly the falsy non-nil entries and `false()` exactly the truthy ones |
| Typed.UncoercedBooleanValidation | src/NopeBooolean.ts:5-35 | end to end, the uncoerced `true()` fails every non-nil entry other than `true`, and `false()` every one other than `false` |
| Typed.DateValidation | src/NopeDate.ts:48-64 | nil and dates reach the rules unchanged; a numeric entry reaches them as `new Date(entry)`; an unparseable one gives the constructor's message |
| Typed.DateBoundsResolved | src/NopeDate.ts:20-23 | a reference bound is read from the context's field, and both comparisons are strict |
| Objects.Shape | src/NopeObject.ts:15-19 | `shape(s)` has the union of keys, and `s` wins on shared keys |
| Objects.Extend | src/NopeObject.ts:21-25 | `extend(base)` has the union of keys, and `base` wins on shared keys; the object rules stay |
| Objects.AddNoUnknown | src/NopeObject.ts:27-53 | `noUnknown` appends one object rule and leaves the fields untouched |
| Objects.ShapeIdempotent | src/NopeObject.ts:15-25 | applying `shape(s)` twice is applying it once, and extending by itself changes nothing |
| Objects.ObjectChecksMeans | src/NopeObject.ts:56-62 | on an empty shape the first object rule throws; otherwise the rules let the fields through exactly when no key is unknown or every remaining message is empty, and else the first non-empty message is the result |
| Objects.RecordUnfold | src/NopeObject.ts:55-83 | an object validator's `validate` is its own: object rules, then the fields |
| Objects.NoUnknownValidation | src/NopeObject.ts:27-53 | with no fields `noUnknown` throws; otherwise it fails exactly on an entry with a key that is neither in the shape nor inherited by every object (`constructor`, `toString`, …), and without one validation is as if the rule were absent |
| Objects.InheritedKeysAreKnown | src/NopeObject.ts:41-43 | `{a: 'x', constructor: 1}` against a shape of `a` with `noUnknown` validates as without the rule |
| Objects.OwnExtraKeyIsUnknown | src/NopeObject.ts:41-47 | `{a: 'x', b: 1}` against a shape of `a` with `noUnknown` gives the rule's message |
| Objects.StringEntryLength | src/NopeObject.ts:67-80 | `object().shape({length: number().atLeast(5)})` on `"abc"` reports the `length` field, which reads 3 |
| Objects.ObjectRulesFirst | src/NopeObject.ts:56-62 | an object rule that ends validation decides the verdict whatever the field validators are |
| Objects.CollectMeans | src/NopeObject.ts:72-82 | an exception from any field propagates; the error map holds exactly the fields that returned a non-empty string, with that string; the result is undefined exactly when there is no such field |
| Objects.FieldsSeeTheEntry | src/NopeObject.ts:67-70 | each field validator sees `entry[key]` with the whole entry as its context |
| Objects.RecordVerdict | src/NopeObject.ts:55-83 | on a nil entry with fields validation throws; otherwise the verdict is undefined exactly when no field returns a non-empty string or throws, and the map's keys are exactly the fields returning such strings |
| ArrayRules.LengthBounds | src/NopeArray.ts:88-114 | `minLength(n)` fails exactly on arrays of length ≤ n and `maxLength(n)` on length ≥ n; nil passes both |
| ArrayRules.LengthRulesOnObjects | src/NopeArray.ts:88-114 | on an object, `minLength(n)` and `maxLength(n)` compare its own `length` field as a number, ≤ n and ≥ n; an object whose `length` is absent or not numeric passes both |
| ArrayRules.ObjectTooShort | src/NopeArray.ts:94 | `array().minLength(5)` on `{length: 3}` fails |
| ArrayRules.ObjectOfLengthZero | src/NopeArray.ts:167 | `array().some(p)` on `{length: 0}` passes without calling `some` |
| ArrayRules.ObjectHasNoSome | src/NopeArray.ts:171 | `array().some(p)` on `{length: 1}` throws, for an object has no `some` |
| ArrayRules.ArrayRequired | src/NopeArray.ts:32-40 | `required` fails exactly on nil; an empty array passes |
| ArrayRules.IncludesDoubled | src/NopeArray.ts:122 | `indexOf` finds a value in a doubled array exactly when it finds it in the array |
| ArrayRules.MustContainMeans | src/NopeArray.ts:116-128 | `mustContain(v)` fails exactly when no element is `===` to `v` |
| ArrayRules.MustContainIgnoresRepeats | src/NopeArray.ts:116-128 | repeating the elements changes nothing; nil passes; an entry without `indexOf` throws |
| ArrayRules.HasOnlyMeans | src/NopeArray.ts:130-149 | `hasOnly` fails exactly when some element is unmatched: `null`, an object with no deep-equal value, or a scalar with no `===` value |
| ArrayRules.EveryAndSome | src/NopeArray.ts:151-177 | `every(p)` fails exactly when some element fails `p`; `some(p)` passes nil and `[]` and otherwise fails exactly when no element satisfies `p` |
| ArrayRules.OfTypeGateFirst | src/NopeArray.ts:53-55 | a single element whose `typeof` differs from the element validator's type fails `of` and `ofAsync`, whatever the validations would say |
| ArrayRules.OfMeans | src/NopeArray.ts:42-65 | corrected `of`: it passes exactly when every element passes; it fails with its message exactly when the first element not passing returns something truthy; otherwise it throws |
| ArrayRules.ScanMeans | src/NopeArray.ts:6-21 | the scan passes exactly when every element passes, and reports a failure exactly when the first element not passing returns something truthy |
| ArrayRules.OfAsyncMeans | src/NopeArray.ts:67-86 | the rule alone, its promise awaited (no array validator awaits it; see Left out): `ofAsync` passes exactly when every element's `validateAsync` passes, and fails with its message exactly when the first such result that is not passing is truthy |
| ArrayRules.OfAsyncUnawaited | src/NopeArray.ts:185-198 | run synchronously, `ofAsync` hands back a promise, which the array validator returns as `"[object Promise]"` |
| Async.EvalInEitherMode | benchmark/nopesrc/NopePrimitive.ts:125-126 | awaiting a rule that returns no promise gives what calling it gives |
| Async.StepInEitherMode | benchmark/nopesrc/NopePrimitive.ts:125-126 | in a synchronous validator every rule returns the same thing in both modes |
| Async.AsyncAgrees | benchmark/nopesrc/NopePrimitive.ts:109-134 | `validateAsync` equals `validate` when no rule returns a promise and no validator coerces its entry, delegation included |
| Async.ChainAgrees | benchmark/nopesrc/NopePrimitive.ts:125-133 | the rule loop from any position gives the same verdict in both modes |
| Findings.OfAsWrittenDiffersOnlyOnFalsyElements | src/NopeArray.ts:57-61 | for any element validator but a number one, `of` as written differs from the corrected rule exactly when the elements pass the type check and the first failing element is itself falsy |
| Findings.FalsyFailingElementMissed | src/NopeArray.ts:57-61 | `of(boolean().true())` on `[false]`: the element fails, yet `of` as written passes; the corrected rule fails |
| Findings.NumberElementsRejectedAsWritten | src/NopeArray.ts:53-55 | `of(number().atMost(3))` on `[1, 2, 3]` fails the type check as written and passes with the number validator's own tag |
| Findings.OwnValuesPassTheTypeCheck | src/NopeArray.ts:53 | with the corrected tags each validator's own kind of value passes the type check of `of`; as written every non-empty array of numbers fails it |

## Left out

- Regular-expression matching for `regex`, `url` and `email` is a predicate parameter (`Matches(test, msg)`). The patterns live in a file that is not part of this model.
- JavaScript's built-ins are fields of `Env` taken as given: `Number()` on strings, number formatting, `new Date` and `Date.parse`. Numbers are mathematical reals plus a separate NaN. IEEE rounding, infinities and -0 are not modelled.
- String lengths count characters, not UTF-16 code units.
- Promises are not scheduled. `validateAsync` is `Run` in `Async` mode, built from the same pure functions. `ofAsync`'s fold is awaited only at rule level (`Eval` in `Async` mode, ArrayRules.OfAsyncMeans).
- ArrayRules.OfAsyncMeans: the awaited fold of `ofAsync` is stated for the rule alone. `src/NopeArray.ts:200-213` (the `src/` array's `validateAsync`) relies on `runValidators`, which has no body in the repository and is not part of this model. The array validator follows `benchmark/nopesrc/NopeArray.ts:162-176` instead, which calls each rule without awaiting it. So `ofAsync` inside an array validator yields `"[object Promise]"` in both modes (ArrayRules.OfAsyncUnawaited), and no validator that can be built reaches the awaited fold.
- The `console.log` call in `integer` (src/NopeNumber.ts:9) is I/O and is dropped.
- Several helpers have no implementation in the repository: `deepEquals` (modelled as equality of identity-free structures), `isNil` (the nil test) and `resolveNopeRef` (modelled by `Refs.Resolve`). Also absent are `abortEarly`, `validateAt`, path parsing and `../` parent references; these are not modelled.
- User callbacks are total pure function parameters. A `test` callback returns a message or nothing. A callback that itself returns a validator or throws is not modelled.
- `ofShape` is stored by `of`/`ofAsync` but read by nothing shown, so it is not modelled.
- Objects.RecordVerdict: a field named after an inherited method (`constructor`, `toString`, or a string method such as `trim`) reads as undefined in the model, where JavaScript reads the inherited function. Own fields are modelled, and so are a string's or an array's `length` and indices (`Refs.Prop`).
- Objects.NoUnknownValidation: the inherited names are those of `Object.prototype` in a standard environment. Names that other code adds to `Object.prototype` are not modelled.
- Typed.StringRequiredRejectsBlank: holds on the primitive with delegation, where `required` uses the string validator's `isEmpty`. On the `src/` base, `required` tests for nil only (src/NopePrimitive.ts:7-12, SrcPrimitive.RequiredMeansNil), so `""` and `"   "` would pass `string().required()`.
- Date values carry no identity: two dates are never `===`, even the same Date object.
- A typed validator's `validate` coerces its entry, but its inherited `validateAsync` does not. The model does the same: `Run` in `Async` mode skips `Prepare`.
- The object validator has no `validateAsync`. Delegating to it asynchronously is modelled as an exception (`Thrown`).
- Repeated validation gives identical results by construction: every operation is a pure function of the validator, the entry and the context.
- Async.AsyncAgrees: stated only for validators built from plain primitives and arrays without `ofAsync`. Typed validators coerce in `validate` but not in `validateAsync`, so the two can differ there.

## Findings

| source | as written | input that shows it | evidently intended | confidence | as-written member | corrected member |
|---|---|---|---|---|---|---|
| src/utils.ts:13 | a key missing from the context comes back as the key string itself | keys `["a", "b", "d"]`, context `{a: 2, b: 5}` gives `[2, 5, "d"]` | `[2, 5, undefined]`, as the library's own test expects | not executed | Utils.MissingKeyComesBackAsItsName | Utils.ResolveKeys |
| src/NopeArray.ts:57-59 | `find` returns the failing element, and `if (error)` tests that element's truthiness | `array().of(boolean().true())` on `[false]` passes | the rule fails when any element's validation fails | not executed | Findings.FalsyFailingElementMissed | ArrayRules.OfMeans |
| src/NopeArray.ts:53 | the number validator declares no type, so `getType()` is the inherited 'undefined' | `array().of(number().atMost(3))` on `[1, 2, 3]` fails the type check | numbers pass the number validator's type check | not executed | Findings.NumberElementsRejectedAsWritten | Findings.OwnValuesPassTheTypeCheck |
