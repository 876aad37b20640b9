/**
 * Two places where the array validator's `of` rule (src/NopeArray.ts:42-65,
 * benchmark/nopesrc/NopeArray.ts:25-48) does not do what its name and its
 * message promise, each modelled as written beside the corrected rule that
 * `Engine.Eval` uses:
 *  - `find` returns the failing ELEMENT, and `if (error)` then tests that
 *    element's truthiness, so a failing `false`, `0` or `""` is missed;
 *  - the number validator declares no type of its own and reports the
 *    primitive's 'undefined', so no non-empty array of numbers gets past
 *    the type check.
 */
module Findings {
  import opened JsValues
  import opened Refs
  import opened Schema
  import opened Engine
  import opened ArrayChecks
  import Typed
  import Primitive

  /** `getType()` as written: the number validator inherits 'undefined'. */
  function TypeTagAsWritten(n: Node): (r: Option<string>)
    ensures n.Leaf? && n.kind.NumberLeaf? ==> r == Some("undefined")
    ensures !(n.Leaf? && n.kind.NumberLeaf?) ==> r == TypeTag(n)
  {
    if n.Leaf? && n.kind.NumberLeaf? then Some("undefined") else TypeTag(n)
  }

  /** The `of` rule as written: the type check with the inherited tags,
      then `find` over the elements, whose result is tested for
      truthiness. */
  function OfAsWritten(env: Env, element: Node, msg: string, entry: Value): Outcome {
    if IsNil(entry) then Pass
    else if !entry.Arr? then Fault
    else if |entry.elems| == 0 then Pass
    else
      match TypeTagAsWritten(element)
      case None => Fault
      case Some(tag) =>
        if SomeMistyped(entry.elems, tag) then Error(msg)
        else
          match Scan(env, Sync, element, entry.elems, 0)
          case AllPass => Pass
          case FailsAt(k) => if Truthy(entry.elems[k]) then Error(msg) else Pass
          case ThrowsAt(_) => Fault
  }

  /** For any element validator but a number one, `of` as written differs
      from the corrected rule exactly where the elements get past the type
      check and the first failing element is falsy: there the corrected rule
      reports the message and the rule as written passes. */
  lemma OfAsWrittenDiffersOnlyOnFalsyElements(env: Env, element: Node, msg: string, entry: Value, ctx: Context)
    requires !(element.Leaf? && element.kind.NumberLeaf?)
    ensures Eval(env, Sync, Generic, Of(element, msg), entry, ctx) != OfAsWritten(env, element, msg, entry)
            <==> && entry.Arr? && TypeTag(element).Some? && !SomeMistyped(entry.elems, TypeTag(element).value)
                 && Scan(env, Sync, element, entry.elems, 0).FailsAt?
                 && !Truthy(entry.elems[Scan(env, Sync, element, entry.elems, 0).index])
  {
  }

  /** `array().of(boolean().true())` on `[false]`: the element fails its
      validation, but `find` hands back `false` and the rule passes.  The
      corrected rule fails. */
  lemma FalsyFailingElementMissed(env: Env, msg: string, inner: string)
    requires msg != "" && inner != ""
    ensures Validate(env, Leaf(BooleanLeaf, [IsTrue(inner)]), Bool(false), NoContext) == Message(inner)
    ensures OfAsWritten(env, Leaf(BooleanLeaf, [IsTrue(inner)]), msg, Arr(0, [Bool(false)])) == Pass
    ensures Eval(env, Sync, Generic, Of(Leaf(BooleanLeaf, [IsTrue(inner)]), msg), Arr(0, [Bool(false)]), NoContext) == Error(msg)
  {
    var element := Leaf(BooleanLeaf, [IsTrue(inner)]);
    Typed.BooleanRules(env, Bool(false), inner, NoContext);
    assert Run(env, Sync, element, [Bool(false)][0], NoContext) == Message(inner);
    assert Scan(env, Sync, element, [Bool(false)], 0) == FailsAt(0);
  }

  /** A number validator with `atMost(3)` accepts every number up to 3. */
  lemma AtMostThreeAccepts(env: Env, invalid: string, inner: string, x: real)
    requires inner != "" && x <= 3.0
    ensures Validate(env, Leaf(NumberLeaf(invalid), [AtMost(3.0, inner)]), Num(x), NoContext) == Valid
  {
    var n := Leaf(NumberLeaf(invalid), [AtMost(3.0, inner)]);
    Typed.NumberValidation(env, invalid, [AtMost(3.0, inner)], Num(x), NoContext);
    Primitive.OneRule(env, Sync, n, Num(x), NoContext);
    assert Step(env, Sync, n, 0, Num(x), NoContext) == Flag(Numbers.FailsAtMost(env, Num(x), 3.0), inner);
  }

  /** `array().of(number().atMost(3))` on `[1, 2, 3]`: as written the type
      check compares 'number' with 'undefined' and the rule fails; with the
      number validator's own tag every element is validated and passes. */
  lemma NumberElementsRejectedAsWritten(env: Env, invalid: string, inner: string, msg: string)
    requires inner != ""
    ensures OfAsWritten(env, Leaf(NumberLeaf(invalid), [AtMost(3.0, inner)]), msg, Arr(0, [Num(1.0), Num(2.0), Num(3.0)]))
            == Error(msg)
    ensures Eval(env, Sync, Generic, Of(Leaf(NumberLeaf(invalid), [AtMost(3.0, inner)]), msg),
                 Arr(0, [Num(1.0), Num(2.0), Num(3.0)]), NoContext) == Pass
  {
    var element := Leaf(NumberLeaf(invalid), [AtMost(3.0, inner)]);
    var elems := [Num(1.0), Num(2.0), Num(3.0)];
    assert TypeOf(elems[0]) != "undefined";
    AtMostThreeAccepts(env, invalid, inner, 1.0);
    AtMostThreeAccepts(env, invalid, inner, 2.0);
    AtMostThreeAccepts(env, invalid, inner, 3.0);
    assert !SomeMistyped(elems, "number");
    assert Scan(env, Sync, element, elems, 3) == AllPass;
    assert Scan(env, Sync, element, elems, 2) == AllPass;
    assert Scan(env, Sync, element, elems, 1) == AllPass;
    assert Scan(env, Sync, element, elems, 0) == AllPass;
  }

  /** With the corrected tags every validator's own kind of value gets past
      the type check of `of`: strings for the string validator, numbers for
      the number validator, booleans, dates and arrays likewise. */
  lemma OwnValuesPassTheTypeCheck(rules: seq<Rule>, invalid: string, elems: seq<Value>)
    ensures (forall i | 0 <= i < |elems| :: elems[i].Num?) ==>
              !SomeMistyped(elems, TypeTag(Leaf(NumberLeaf(invalid), rules)).value)
    ensures (forall i | 0 <= i < |elems| :: elems[i].Str?) ==>
              !SomeMistyped(elems, TypeTag(Leaf(StringLeaf, rules)).value)
    ensures (forall i | 0 <= i < |elems| :: elems[i].Bool?) ==>
              !SomeMistyped(elems, TypeTag(Leaf(BooleanLeaf, rules)).value)
    ensures (forall i | 0 <= i < |elems| :: elems[i].DateVal?) ==>
              !SomeMistyped(elems, TypeTag(Leaf(DateLeaf(invalid), rules)).value)
    ensures (forall i | 0 <= i < |elems| :: elems[i].Arr?) ==>
              !SomeMistyped(elems, TypeTag(List(rules)).value)
    ensures elems != [] && (forall i | 0 <= i < |elems| :: elems[i].Num?) ==>
              SomeMistyped(elems, TypeTagAsWritten(Leaf(NumberLeaf(invalid), rules)).value)
  {
    if elems != [] {
      assert TypeOf(elems[0]) in {"undefined", "object", "boolean", "number", "string"};
    }
  }
}
