/**
 * The rule bodies of the boolean validators: src/NopeBoolean.ts, which
 * coerces its entry to a boolean first, and the older src/NopeBooolean.ts,
 * which does not.  Both rules let a nil entry through.
 */
module Booleans {
  import opened JsValues

  /** `entry === undefined || entry === null ? entry : !!entry` */
  function Coerce(v: Value): (r: Value)
    ensures IsNil(v) ==> r == v
    ensures !IsNil(v) ==> r.Bool? && (r.b <==> Truthy(v))
  {
    if IsNil(v) then v else Bool(Truthy(v))
  }

  /** `true()`: a non-nil entry that is not `=== true`. */
  predicate FailsTrue(v: Value) {
    !IsNil(v) && !StrictEq(v, Bool(true))
  }

  /** `false()`: a non-nil entry that is not `=== false`. */
  predicate FailsFalse(v: Value) {
    !IsNil(v) && !StrictEq(v, Bool(false))
  }

  /** Without coercion (src/NopeBooolean.ts): only the literal `true` passes
      `true()`, only `false` passes `false()`, and nil passes both. */
  lemma RawRules(v: Value)
    ensures FailsTrue(v) <==> !IsNil(v) && v != Bool(true)
    ensures FailsFalse(v) <==> !IsNil(v) && v != Bool(false)
    ensures IsNil(v) ==> !FailsTrue(v) && !FailsFalse(v)
  {
  }

  /** With coercion (src/NopeBoolean.ts): `true()` fails exactly the non-nil
      falsy entries and `false()` exactly the truthy ones. */
  lemma CoercedRules(v: Value)
    ensures FailsTrue(Coerce(v)) <==> !IsNil(v) && !Truthy(v)
    ensures FailsFalse(Coerce(v)) <==> Truthy(v)
  {
  }
}
