/**
 * The typed validators end to end: what each `validate` override does to
 * the entry before the inherited rule chain runs (src/NopeString.ts,
 * src/NopeNumber.ts, src/NopeBoolean.ts, src/NopeDate.ts), the builders that
 * are aliases of others (`min`, `max`, `positive`, `negative`), and the
 * older uncoerced boolean validator (src/NopeBooolean.ts).
 */
module Typed {
  import opened JsValues
  import opened Refs
  import opened Schema
  import opened Engine
  import Strings
  import Numbers
  import Booleans
  import Dates
  import Primitive

  /** `positive(message)` is `greaterThan(0, message)`. */
  function Positive(msg: string): Rule { GreaterThan(0.0, msg) }

  /** `negative(message)` is `lessThan(0, message)`. */
  function Negative(msg: string): Rule { LessThan(0.0, msg) }

  /** The number validator's `min`/`max` aliases. */
  function NumberMin(size: real, msg: string): Rule { GreaterThan(size, msg) }
  function NumberMax(size: real, msg: string): Rule { LessThan(size, msg) }

  /** The string validator's `min`/`max` aliases. */
  function StringMin(length: real, msg: string): Rule { LongerThan(length, msg) }
  function StringMax(length: real, msg: string): Rule { ShorterThan(length, msg) }

  /** The number validator: an entry that coerces to NaN ends validation
      with the validator's own message whatever the rules are; a falsy entry
      other than NaN reaches the rules as it is, a truthy one as its number. */
  lemma NumberValidation(env: Env, invalid: string, rules: seq<Rule>, entry: Value, ctx: Context)
    ensures entry.NaN? || (Truthy(entry) && ToNumber(env, entry).None?) ==>
              Validate(env, Leaf(NumberLeaf(invalid), rules), entry, ctx) == Message(invalid)
    ensures !Truthy(entry) && !entry.NaN? ==>
              Validate(env, Leaf(NumberLeaf(invalid), rules), entry, ctx)
              == Chain(env, Sync, Leaf(NumberLeaf(invalid), rules), 0, entry, ctx)
    ensures Truthy(entry) && ToNumber(env, entry).Some? ==>
              Validate(env, Leaf(NumberLeaf(invalid), rules), entry, ctx)
              == Chain(env, Sync, Leaf(NumberLeaf(invalid), rules), 0, Num(ToNumber(env, entry).value), ctx)
  {
    Numbers.PrepareShape(env, entry, invalid);
  }

  /** `positive` fails exactly on numbers not above zero, `negative` on
      numbers not below it, so zero fails both; `min`/`max` behave as
      `greaterThan`/`lessThan`. */
  lemma SignRules(env: Env, mode: Mode, kind: LeafKind, x: real, size: real, msg: string, ctx: Context)
    requires msg != ""
    ensures Stops(Eval(env, mode, kind, Positive(msg), Num(x), ctx)) <==> x <= 0.0
    ensures Stops(Eval(env, mode, kind, Negative(msg), Num(x), ctx)) <==> x >= 0.0
    ensures Stops(Eval(env, mode, kind, Positive(msg), Num(0.0), ctx))
            && Stops(Eval(env, mode, kind, Negative(msg), Num(0.0), ctx))
    ensures Stops(Eval(env, mode, kind, NumberMin(size, msg), Num(x), ctx)) <==> x <= size
    ensures Stops(Eval(env, mode, kind, NumberMax(size, msg), Num(x), ctx)) <==> x >= size
  {
    Numbers.ComparisonsOnNumbers(env, x, 0.0);
    Numbers.ComparisonsOnNumbers(env, 0.0, 0.0);
    Numbers.ComparisonsOnNumbers(env, x, size);
  }

  /** The number rules let undefined and null through. */
  lemma NumberRulesPassNil(env: Env, mode: Mode, kind: LeafKind, entry: Value, size: real, msg: string, ctx: Context)
    requires IsNil(entry)
    ensures !Stops(Eval(env, mode, kind, GreaterThan(size, msg), entry, ctx))
    ensures !Stops(Eval(env, mode, kind, LessThan(size, msg), entry, ctx))
    ensures !Stops(Eval(env, mode, kind, AtLeast(size, msg), entry, ctx))
    ensures !Stops(Eval(env, mode, kind, AtMost(size, msg), entry, ctx))
    ensures !Stops(Eval(env, mode, kind, Integer(msg), entry, ctx))
  {
    Numbers.NilPassesComparisons(env, entry, size);
  }

  /** The string validator: a truthy entry reaches the rules as its string
      form, a falsy one as it is. */
  lemma StringValidation(env: Env, rules: seq<Rule>, entry: Value, ctx: Context)
    ensures Truthy(entry) ==>
              Validate(env, Leaf(StringLeaf, rules), entry, ctx)
              == Chain(env, Sync, Leaf(StringLeaf, rules), 0, Str(ToJsString(env, entry)), ctx)
    ensures !Truthy(entry) ==>
              Validate(env, Leaf(StringLeaf, rules), entry, ctx) == Chain(env, Sync, Leaf(StringLeaf, rules), 0, entry, ctx)
  {
    Strings.CoercionShape(env, entry);
  }

  /** The string validator's `required` rejects whitespace-only text as well
      as undefined and null; the plain primitive's accepts it. */
  lemma StringRequiredRejectsBlank(env: Env, entry: Value, msg: string, ctx: Context)
    requires msg != ""
    ensures Validate(env, Leaf(StringLeaf, [RequiredNonEmpty(msg)]), entry, ctx)
            == (if IsNil(entry) || Strings.IsBlank(ToJsString(env, entry)) then Message(msg) else Valid)
    ensures Validate(env, Leaf(Generic, [RequiredNonEmpty(msg)]), Str(" "), ctx) == Valid
  {
    var n := Leaf(StringLeaf, [RequiredNonEmpty(msg)]);
    var v := Strings.Coerce(env, entry);
    Strings.CoercionShape(env, entry);
    Strings.IsEmptyMeansBlank(env, v);
    Strings.IsEmptyMeansBlank(env, entry);
    assert Validate(env, n, entry, ctx) == Chain(env, Sync, n, 0, v, ctx);
    Primitive.OneRule(env, Sync, n, v, ctx);
    assert Step(env, Sync, n, 0, v, ctx) == Flag(Strings.IsEmpty(env, v), msg);
    var g := Leaf(Generic, [RequiredNonEmpty(msg)]);
    Primitive.OneRule(env, Sync, g, Str(" "), ctx);
    assert Step(env, Sync, g, 0, Str(" "), ctx) == Flag(IsNil(Str(" ")), msg);
  }

  /** `min`/`max` of the string validator are `greaterThan`/`lessThan`:
      lengths at most, or at least, the bound fail. */
  lemma StringAliases(env: Env, mode: Mode, s: string, n: real, msg: string, ctx: Context)
    requires msg != ""
    ensures Stops(Eval(env, mode, StringLeaf, StringMin(n, msg), Str(s), ctx)) <==> !Strings.IsBlank(s) && |s| as real <= n
    ensures Stops(Eval(env, mode, StringLeaf, StringMax(n, msg), Str(s), ctx)) <==> !Strings.IsBlank(s) && |s| as real >= n
  {
    Strings.LengthRulesOnStrings(env, s, n);
  }

  /** The boolean validator: undefined and null reach the rules unchanged,
      anything else as its truthiness. */
  lemma BooleanValidation(env: Env, rules: seq<Rule>, entry: Value, ctx: Context)
    ensures Validate(env, Leaf(BooleanLeaf, rules), entry, ctx)
            == Chain(env, Sync, Leaf(BooleanLeaf, rules), 0, if IsNil(entry) then entry else Bool(Truthy(entry)), ctx)
  {
    assert Booleans.Coerce(entry) == (if IsNil(entry) then entry else Bool(Truthy(entry)));
  }

  /** `true()` on the coerced entry. */
  lemma BooleanTrueRule(env: Env, entry: Value, msg: string, ctx: Context)
    requires msg != ""
    ensures Validate(env, Leaf(BooleanLeaf, [IsTrue(msg)]), entry, ctx)
            == (if !IsNil(entry) && !Truthy(entry) then Message(msg) else Valid)
  {
    var v := Booleans.Coerce(entry);
    Booleans.CoercedRules(entry);
    var t := Leaf(BooleanLeaf, [IsTrue(msg)]);
    BooleanValidation(env, [IsTrue(msg)], entry, ctx);
    Primitive.OneRule(env, Sync, t, v, ctx);
    assert Step(env, Sync, t, 0, v, ctx) == Flag(Booleans.FailsTrue(v), msg);
  }

  /** `false()` on the coerced entry. */
  lemma BooleanFalseRule(env: Env, entry: Value, msg: string, ctx: Context)
    requires msg != ""
    ensures Validate(env, Leaf(BooleanLeaf, [IsFalse(msg)]), entry, ctx)
            == (if Truthy(entry) then Message(msg) else Valid)
  {
    var v := Booleans.Coerce(entry);
    Booleans.CoercedRules(entry);
    var f := Leaf(BooleanLeaf, [IsFalse(msg)]);
    BooleanValidation(env, [IsFalse(msg)], entry, ctx);
    Primitive.OneRule(env, Sync, f, v, ctx);
    assert Step(env, Sync, f, 0, v, ctx) == Flag(Booleans.FailsFalse(v), msg);
  }

  /** So `true()` fails exactly the falsy non-nil entries and `false()` the
      truthy ones. */
  lemma BooleanRules(env: Env, entry: Value, msg: string, ctx: Context)
    requires msg != ""
    ensures Validate(env, Leaf(BooleanLeaf, [IsTrue(msg)]), entry, ctx)
            == (if !IsNil(entry) && !Truthy(entry) then Message(msg) else Valid)
    ensures Validate(env, Leaf(BooleanLeaf, [IsFalse(msg)]), entry, ctx)
            == (if Truthy(entry) then Message(msg) else Valid)
  {
    BooleanTrueRule(env, entry, msg, ctx);
    BooleanFalseRule(env, entry, msg, ctx);
  }

  /** The older boolean validator has no coercion: `true()` fails every
      non-nil entry other than `true` itself, `false()` every one other than
      `false`. */
  lemma UncoercedBooleanValidation(env: Env, entry: Value, msg: string, ctx: Context)
    requires msg != ""
    ensures Validate(env, Leaf(Generic, [IsTrue(msg)]), entry, ctx)
            == (if !IsNil(entry) && entry != Bool(true) then Message(msg) else Valid)
    ensures Validate(env, Leaf(Generic, [IsFalse(msg)]), entry, ctx)
            == (if !IsNil(entry) && entry != Bool(false) then Message(msg) else Valid)
  {
    Booleans.RawRules(entry);
    var t := Leaf(Generic, [IsTrue(msg)]);
    Primitive.OneRule(env, Sync, t, entry, ctx);
    assert Step(env, Sync, t, 0, entry, ctx) == Flag(Booleans.FailsTrue(entry), msg);
    var f := Leaf(Generic, [IsFalse(msg)]);
    Primitive.OneRule(env, Sync, f, entry, ctx);
    assert Step(env, Sync, f, 0, entry, ctx) == Flag(Booleans.FailsFalse(entry), msg);
  }

  /** The date validator: nil entries and dates reach the rules unchanged,
      an entry that reads as a date reaches them as that date, and one that
      does not ends validation with the validator's own message. */
  lemma DateValidation(env: Env, invalid: string, rules: seq<Rule>, entry: Value, ctx: Context)
    ensures IsNil(entry) || entry.DateVal? ==>
              Validate(env, Leaf(DateLeaf(invalid), rules), entry, ctx)
              == Chain(env, Sync, Leaf(DateLeaf(invalid), rules), 0, entry, ctx)
    ensures !IsNil(entry) && !entry.DateVal? && ToNumber(env, entry).None?
              && env.parseDate(ToJsString(env, entry)).None? ==>
              Validate(env, Leaf(DateLeaf(invalid), rules), entry, ctx) == Message(invalid)
    ensures !IsNil(entry) && !entry.DateVal? && ToNumber(env, entry).Some? ==>
              Validate(env, Leaf(DateLeaf(invalid), rules), entry, ctx)
              == Chain(env, Sync, Leaf(DateLeaf(invalid), rules), 0, DateVal(env.newDate(entry)), ctx)
  {
    Dates.PrepareShape(env, entry, invalid);
  }

  /** `before`/`after` with a reference bound compare against the context's
      field; both are strict. */
  lemma DateBoundsResolved(env: Env, mode: Mode, kind: LeafKind, t: int, key: string, fields: map<string, Value>, msg: string)
    requires msg != "" && env.newDate(Get(fields, key)).Some?
    ensures Stops(Eval(env, mode, kind, Before(Ref(key), msg), DateVal(Some(t)), Scope(fields)))
            <==> t >= env.newDate(Get(fields, key)).value
    ensures Stops(Eval(env, mode, kind, After(Ref(key), msg), DateVal(Some(t)), Scope(fields)))
            <==> t <= env.newDate(Get(fields, key)).value
  {
    Dates.StrictComparisons(env, t, Get(fields, key));
  }
}
