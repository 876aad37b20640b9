/**
 * The rule bodies of the date validator (src/NopeDate.ts): its coercion
 * with the invalid-date short-circuit, and the strict `before`/`after`
 * comparisons.  Emptiness is the nil test.  A bound is resolved before the
 * comparison; `None` stands for a reference met without a context, which
 * makes an Invalid Date.
 */
module Dates {
  import opened JsValues

  /** The first half of `validate`: nil entries and dates pass unchanged;
      entries that read as numbers become `new Date(entry)`; the rest go
      through `Date.parse`, and one it cannot read ends validation with the
      validator's own message. */
  function Prepare(env: Env, v: Value, invalid: string): Prepared {
    if IsNil(v) || v.DateVal? then Ready(v)
    else if ToNumber(env, v).Some? then Ready(DateVal(env.newDate(v)))
    else
      match env.parseDate(ToJsString(env, v))
      case None => Halt(invalid)
      case Some(ms) => Ready(DateVal(Some(ms)))
  }

  /** The time value of `new Date(resolvedBound)`. */
  function BoundTime(env: Env, bound: Option<Value>): Option<int> {
    match bound
    case Some(b) => env.newDate(b)
    case None => None
  }

  /** `before(bound)`: fails when `entry >= new Date(bound)`. */
  predicate FailsBefore(env: Env, v: Value, bound: Option<Value>) {
    && !IsNil(v)
    && ToNumber(env, v).Some? && BoundTime(env, bound).Some?
    && ToNumber(env, v).value >= BoundTime(env, bound).value as real
  }

  /** `after(bound)`: fails when `entry <= new Date(bound)`. */
  predicate FailsAfter(env: Env, v: Value, bound: Option<Value>) {
    && !IsNil(v)
    && ToNumber(env, v).Some? && BoundTime(env, bound).Some?
    && ToNumber(env, v).value <= BoundTime(env, bound).value as real
  }

  /** On two valid dates both comparisons are strict: an equal date fails both. */
  lemma StrictComparisons(env: Env, t: int, bound: Value)
    requires env.newDate(bound).Some?
    ensures FailsBefore(env, DateVal(Some(t)), Some(bound)) <==> t >= env.newDate(bound).value
    ensures FailsAfter(env, DateVal(Some(t)), Some(bound)) <==> t <= env.newDate(bound).value
    ensures t == env.newDate(bound).value ==>
              FailsBefore(env, DateVal(Some(t)), Some(bound)) && FailsAfter(env, DateVal(Some(t)), Some(bound))
  {
  }

  /** Nil entries, Invalid Dates and unresolvable bounds make both rules pass. */
  lemma IncomparablePasses(env: Env, v: Value, bound: Option<Value>)
    requires IsNil(v) || v == DateVal(None) || bound.None?
    ensures !FailsBefore(env, v, bound) && !FailsAfter(env, v, bound)
  {
  }

  /** Coercion leaves nil entries and dates alone, halts only with the
      validator's message, and otherwise always yields a date. */
  lemma PrepareShape(env: Env, v: Value, invalid: string)
    ensures IsNil(v) || v.DateVal? ==> Prepare(env, v, invalid) == Ready(v)
    ensures Prepare(env, v, invalid).Halt? <==>
              !IsNil(v) && !v.DateVal? && ToNumber(env, v).None? && env.parseDate(ToJsString(env, v)).None?
    ensures Prepare(env, v, invalid).Halt? ==> Prepare(env, v, invalid).msg == invalid
    ensures Prepare(env, v, invalid).Ready? && !IsNil(v) ==> Prepare(env, v, invalid).value.DateVal?
  {
  }
}
