/**
 * The rules of the array validators (src/NopeArray.ts and
 * benchmark/nopesrc/NopeArray.ts), each stated against the entry it meets:
 * exclusive length bounds, `required`, `mustContain`, `hasOnly`, `every`,
 * `some`, and element validation with `of` and `ofAsync`.  An array
 * validator's rules are evaluated synchronously in both modes.
 */
module ArrayRules {
  import opened JsValues
  import opened Refs
  import opened Schema
  import opened Engine
  import opened ArrayChecks
  import Primitive

  /** `minLength(n)` fails exactly on arrays of at most `n` elements and
      `maxLength(n)` on arrays of at least `n`; undefined and null pass. */
  lemma LengthBounds(env: Env, mode: Mode, kind: LeafKind, entry: Value, n: real, msg: string, ctx: Context)
    requires msg != ""
    ensures entry.Arr? ==> (Stops(Eval(env, mode, kind, MinLength(n, msg), entry, ctx)) <==> |entry.elems| as real <= n)
    ensures entry.Arr? ==> (Stops(Eval(env, mode, kind, MaxLength(n, msg), entry, ctx)) <==> |entry.elems| as real >= n)
    ensures IsNil(entry) ==>
              !Stops(Eval(env, mode, kind, MinLength(n, msg), entry, ctx))
              && !Stops(Eval(env, mode, kind, MaxLength(n, msg), entry, ctx))
  {
  }

  /** On an object the length rules compare its own `length` field, read as
      a number: an object without one, or with one `Number()` cannot read,
      passes both. */
  lemma LengthRulesOnObjects(env: Env, mode: Mode, kind: LeafKind, id: nat, props: map<string, Value>, n: real, msg: string, ctx: Context)
    requires msg != ""
    ensures Stops(Eval(env, mode, kind, MinLength(n, msg), Obj(id, props), ctx))
            <==> ToNumber(env, Get(props, "length")).Some? && ToNumber(env, Get(props, "length")).value <= n
    ensures Stops(Eval(env, mode, kind, MaxLength(n, msg), Obj(id, props), ctx))
            <==> ToNumber(env, Get(props, "length")).Some? && ToNumber(env, Get(props, "length")).value >= n
  {
    LengthOfMeans(env, Obj(id, props));
  }

  /** `array().minLength(5)` on `{length: 3}` fails. */
  lemma ObjectTooShort(env: Env, mode: Mode, kind: LeafKind, id: nat, msg: string, ctx: Context)
    ensures Eval(env, mode, kind, MinLength(5.0, msg), Obj(id, map["length" := Num(3.0)]), ctx) == Error(msg)
  {
    LengthOfMeans(env, Obj(id, map["length" := Num(3.0)]));
  }

  /** `array().some(p)` on `{length: 0}` passes before `some` is ever called. */
  lemma ObjectOfLengthZero(env: Env, mode: Mode, kind: LeafKind, id: nat, pred: Value -> bool, msg: string, ctx: Context)
    ensures Eval(env, mode, kind, SomeElement(pred, msg), Obj(id, map["length" := Num(0.0)]), ctx) == Pass
  {
    assert Prop(Obj(id, map["length" := Num(0.0)]), "length") == Num(0.0);
  }

  /** On `{length: 1}` the call of `some` throws, for an object has no `some`. */
  lemma ObjectHasNoSome(env: Env, mode: Mode, kind: LeafKind, id: nat, pred: Value -> bool, msg: string, ctx: Context)
    ensures Eval(env, mode, kind, SomeElement(pred, msg), Obj(id, map["length" := Num(1.0)]), ctx) == Fault
  {
    assert Prop(Obj(id, map["length" := Num(1.0)]), "length") == Num(1.0);
  }

  /** The array `required` fails on undefined and null only; an empty array passes. */
  lemma ArrayRequired(env: Env, mode: Mode, kind: LeafKind, entry: Value, msg: string, ctx: Context)
    requires msg != ""
    ensures Stops(Eval(env, mode, kind, Required(msg), entry, ctx)) <==> IsNil(entry)
    ensures !Stops(Eval(env, mode, kind, Required(msg), Arr(0, []), ctx))
  {
  }

  /** `indexOf` finds a value in a doubled array exactly when it finds it in
      the array. */
  lemma {:induction false} IncludesDoubled(xs: seq<Value>, v: Value)
    ensures Includes(xs + xs, v) <==> Includes(xs, v)
  {
    if Includes(xs + xs, v) {
      var i :| 0 <= i < |xs + xs| && StrictEq((xs + xs)[i], v);
      if i >= |xs| {
        assert (xs + xs)[i] == xs[i - |xs|];
      } else {
        assert (xs + xs)[i] == xs[i];
      }
    }
    if Includes(xs, v) {
      var i :| 0 <= i < |xs| && StrictEq(xs[i], v);
      assert (xs + xs)[i] == xs[i];
    }
  }

  /** `mustContain(v)` on an array fails exactly when no element is `===`
      to `v`. */
  lemma MustContainMeans(env: Env, mode: Mode, kind: LeafKind, id: nat, elems: seq<Value>, v: Value, msg: string, ctx: Context)
    requires msg != ""
    ensures Stops(Eval(env, mode, kind, MustContain(v, msg), Arr(id, elems), ctx))
            <==> forall i | 0 <= i < |elems| :: !StrictEq(elems[i], v)
  {
    assert Contains(env, Arr(id, elems), v).Hit? <==> IndexOf(elems, v) != -1;
  }

  /** Repeating the elements does not change what `mustContain(v)` says;
      nil passes and any other entry has no `indexOf` and throws. */
  lemma MustContainIgnoresRepeats(env: Env, mode: Mode, kind: LeafKind, id: nat, elems: seq<Value>, v: Value, msg: string, ctx: Context)
    requires msg != ""
    ensures Eval(env, mode, kind, MustContain(v, msg), Arr(id, elems + elems), ctx)
            == Eval(env, mode, kind, MustContain(v, msg), Arr(id, elems), ctx)
    ensures !Stops(Eval(env, mode, kind, MustContain(v, msg), Undefined, ctx))
    ensures Eval(env, mode, kind, MustContain(v, msg), Num(1.0), ctx).Fault?
  {
    IncludesDoubled(elems, v);
  }

  /** `hasOnly(values)` on an array fails exactly when some element is
      unmatched: `null`, an object, array or date with no deep-equal value,
      or a scalar with no `===` value. */
  lemma HasOnlyMeans(env: Env, mode: Mode, kind: LeafKind, id: nat, elems: seq<Value>, values: seq<Value>, msg: string, ctx: Context)
    requires msg != ""
    ensures Stops(Eval(env, mode, kind, HasOnly(values, msg), Arr(id, elems), ctx))
            <==> exists i | 0 <= i < |elems| ::
                   || elems[i].Null?
                   || (TypeOf(elems[i]) == "object" && forall j | 0 <= j < |values| :: !DeepEquals(elems[i], values[j]))
                   || (TypeOf(elems[i]) != "object" && forall j | 0 <= j < |values| :: !StrictEq(values[j], elems[i]))
  {
    forall i | 0 <= i < |elems| {
      UnmatchedMeans(elems[i], values);
    }
  }

  /** `every(p)` fails exactly when some element fails `p`; `some(p)` lets
      nil and empty arrays through and otherwise fails exactly when no
      element satisfies `p`. */
  lemma EveryAndSome(env: Env, mode: Mode, kind: LeafKind, entry: Value, p: Value -> bool, msg: string, ctx: Context)
    requires msg != ""
    ensures entry.Arr? ==>
              (Stops(Eval(env, mode, kind, EveryElement(p, msg), entry, ctx))
               <==> exists i | 0 <= i < |entry.elems| :: !p(entry.elems[i]))
    ensures entry.Arr? && entry.elems != [] ==>
              (Stops(Eval(env, mode, kind, SomeElement(p, msg), entry, ctx))
               <==> forall i | 0 <= i < |entry.elems| :: !p(entry.elems[i]))
    ensures IsNil(entry) || (entry.Arr? && entry.elems == []) ==>
              !Stops(Eval(env, mode, kind, SomeElement(p, msg), entry, ctx))
    ensures IsNil(entry) ==> !Stops(Eval(env, mode, kind, EveryElement(p, msg), entry, ctx))
  {
    if entry.Arr? {
      ArrayProps(entry.id, entry.elems);
      assert StrictEq(Prop(entry, "length"), Num(0.0)) <==> entry.elems == [];
    }
  }

  /** `of(element)` and `ofAsync(element)` check the elements' `typeof`
      against the element validator's type before validating any element:
      a single mistyped element fails the rule whatever the validations
      would say.  Nil and empty arrays pass, non-arrays throw. */
  lemma OfTypeGateFirst(env: Env, mode: Mode, kind: LeafKind, id: nat, elems: seq<Value>, element: Node, msg: string, ctx: Context)
    requires TypeTag(element).Some? && SomeMistyped(elems, TypeTag(element).value)
    ensures Eval(env, mode, kind, Of(element, msg), Arr(id, elems), ctx) == Error(msg)
    ensures Eval(env, mode, kind, OfAsync(element, msg), Arr(id, elems), ctx) == Error(msg)
  {
  }

  /** Once the types agree, `of(element)` fails with its message exactly
      when some element's validation is truthy, throws when the first
      element that does not pass throws, and otherwise passes. */
  lemma OfMeans(env: Env, mode: Mode, kind: LeafKind, id: nat, elems: seq<Value>, element: Node, msg: string, ctx: Context)
    requires TypeTag(element).Some? && !SomeMistyped(elems, TypeTag(element).value)
    ensures Eval(env, mode, kind, Of(element, msg), Arr(id, elems), ctx).Pass?
            <==> forall j | 0 <= j < |elems| :: Passing(Run(env, Sync, element, elems[j], NoContext))
    ensures Eval(env, mode, kind, Of(element, msg), Arr(id, elems), ctx) == Error(msg)
            <==> exists k | 0 <= k < |elems| ::
                   && Fails(Run(env, Sync, element, elems[k], NoContext))
                   && forall j | 0 <= j < k :: Passing(Run(env, Sync, element, elems[j], NoContext))
    ensures Eval(env, mode, kind, Of(element, msg), Arr(id, elems), ctx).Pass?
            || Eval(env, mode, kind, Of(element, msg), Arr(id, elems), ctx) == Error(msg)
            || Eval(env, mode, kind, Of(element, msg), Arr(id, elems), ctx).Fault?
  {
    ScanMeans(env, Sync, element, elems);
    OfUnfold(env, mode, kind, id, elems, element, msg, ctx);
  }

  /** Past the type check, `of` reports what the element scan found. */
  lemma OfUnfold(env: Env, mode: Mode, kind: LeafKind, id: nat, elems: seq<Value>, element: Node, msg: string, ctx: Context)
    requires TypeTag(element).Some? && !SomeMistyped(elems, TypeTag(element).value)
    ensures Eval(env, mode, kind, Of(element, msg), Arr(id, elems), ctx)
            == (if elems == [] then Pass else FromScan(Scan(env, Sync, element, elems, 0), msg))
  {
    assert ElementGate(Arr(id, elems), element, msg) == (if elems == [] then Some(Pass) else None);
  }

  /** The element scan stops at the first element whose validation does
      not pass; which kind of result it reports is decided there. */
  lemma ScanMeans(env: Env, mode: Mode, element: Node, elems: seq<Value>)
    ensures Scan(env, mode, element, elems, 0).AllPass?
            <==> forall j | 0 <= j < |elems| :: Passing(Run(env, mode, element, elems[j], NoContext))
    ensures Scan(env, mode, element, elems, 0).FailsAt?
            <==> exists k | 0 <= k < |elems| ::
                   && Fails(Run(env, mode, element, elems[k], NoContext))
                   && forall j | 0 <= j < k :: Passing(Run(env, mode, element, elems[j], NoContext))
  {
    var r := Scan(env, mode, element, elems, 0);
    if r.ThrowsAt? {
      assert !Passing(Run(env, mode, element, elems[r.index], NoContext));
      assert !Fails(Run(env, mode, element, elems[r.index], NoContext));
    }
  }

  /** `ofAsync(element)` awaited: the elements are validated in order with
      `validateAsync` up to the first truthy result, and any such result
      becomes the rule's message. */
  lemma OfAsyncMeans(env: Env, kind: LeafKind, id: nat, elems: seq<Value>, element: Node, msg: string, ctx: Context)
    requires TypeTag(element).Some? && !SomeMistyped(elems, TypeTag(element).value) && elems != []
    ensures Eval(env, Async, kind, OfAsync(element, msg), Arr(id, elems), ctx).Pass?
            <==> forall j | 0 <= j < |elems| :: Passing(Run(env, Async, element, elems[j], NoContext))
    ensures Eval(env, Async, kind, OfAsync(element, msg), Arr(id, elems), ctx) == Error(msg)
            <==> exists k | 0 <= k < |elems| ::
                   && Fails(Run(env, Async, element, elems[k], NoContext))
                   && forall j | 0 <= j < k :: Passing(Run(env, Async, element, elems[j], NoContext))
  {
    ScanMeans(env, Async, element, elems);
    assert Eval(env, Async, kind, OfAsync(element, msg), Arr(id, elems), ctx)
        == FromScan(Scan(env, Async, element, elems, 0), msg);
  }

  /** Run synchronously, `ofAsync(element)` hands back a promise, which an
      array validator returns as its string form. */
  lemma OfAsyncUnawaited(env: Env, kind: LeafKind, id: nat, elems: seq<Value>, element: Node, msg: string, ctx: Context)
    requires TypeTag(element).Some? && !SomeMistyped(elems, TypeTag(element).value) && elems != []
    ensures Eval(env, Sync, kind, OfAsync(element, msg), Arr(id, elems), ctx) == Pending
    ensures Validate(env, List([OfAsync(element, msg)]), Arr(id, elems), ctx) == Message("[object Promise]")
  {
    var n := List([OfAsync(element, msg)]);
    Primitive.OneRule(env, Sync, n, Arr(id, elems), ctx);
    assert Step(env, Sync, n, 0, Arr(id, elems), ctx) == Pending;
  }
}
