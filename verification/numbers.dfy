/**
 * The rule bodies of the number validator (src/NopeNumber.ts): its coercion
 * with the not-a-number short-circuit, `integer`, and the four comparisons.
 * Emptiness is the nil test.  Each `Fails…` predicate holds exactly when the
 * rule returns its message; comparisons follow JavaScript's relational
 * operators, which are false whenever a side is NaN.
 */
module Numbers {
  import opened JsValues

  /** `!!entry ? Number(entry) : entry` */
  function Coerce(env: Env, v: Value): Value {
    if !Truthy(v) then v
    else
      match ToNumber(env, v)
      case Some(x) => Num(x)
      case None => NaN
  }

  /** The first half of `validate`: a non-empty NaN ends validation with the
      validator's own message; anything else goes on to the rules. */
  function Prepare(env: Env, v: Value, invalid: string): Prepared {
    var value := Coerce(env, v);
    if !IsNil(value) && value.NaN? then Halt(invalid) else Ready(value)
  }

  /** `Math.floor(entry)` */
  function FloorOf(env: Env, v: Value): Value {
    match ToNumber(env, v)
    case Some(x) => Num(x.Floor as real)
    case None => NaN
  }

  /** `integer()`: a non-empty entry that is not `===` to its floor. */
  predicate FailsInteger(env: Env, v: Value) {
    !IsNil(v) && !StrictEq(v, FloorOf(env, v))
  }

  /** `greaterThan(size)` (alias `min`, and `positive` with size 0): fails when `entry <= size`. */
  predicate FailsGreaterThan(env: Env, v: Value, size: real) {
    !IsNil(v) && ToNumber(env, v).Some? && ToNumber(env, v).value <= size
  }

  /** `lessThan(size)` (alias `max`, and `negative` with size 0): fails when `entry >= size`. */
  predicate FailsLessThan(env: Env, v: Value, size: real) {
    !IsNil(v) && ToNumber(env, v).Some? && ToNumber(env, v).value >= size
  }

  /** `atLeast(size)`: fails when `entry < size`. */
  predicate FailsAtLeast(env: Env, v: Value, size: real) {
    !IsNil(v) && ToNumber(env, v).Some? && ToNumber(env, v).value < size
  }

  /** `atMost(size)`: fails when `entry > size`. */
  predicate FailsAtMost(env: Env, v: Value, size: real) {
    !IsNil(v) && ToNumber(env, v).Some? && ToNumber(env, v).value > size
  }

  /** On a number the comparisons are exclusive for `greaterThan`/`lessThan`
      and inclusive for `atLeast`/`atMost`. */
  lemma ComparisonsOnNumbers(env: Env, x: real, size: real)
    ensures FailsGreaterThan(env, Num(x), size) <==> x <= size
    ensures FailsLessThan(env, Num(x), size) <==> x >= size
    ensures FailsAtLeast(env, Num(x), size) <==> x < size
    ensures FailsAtMost(env, Num(x), size) <==> x > size
  {
  }

  /** `positive()` and `negative()` are the comparisons with 0, so 0 fails both. */
  lemma ZeroIsNeitherPositiveNorNegative(env: Env)
    ensures FailsGreaterThan(env, Num(0.0), 0.0) && FailsLessThan(env, Num(0.0), 0.0)
    ensures forall x: real :: !FailsGreaterThan(env, Num(x), 0.0) <==> x > 0.0
    ensures forall x: real :: !FailsLessThan(env, Num(x), 0.0) <==> x < 0.0
  {
  }

  /** `integer()` on a number fails exactly on a fractional value; on any other
      non-empty value (false or "", which coercion leaves alone) it fails too,
      because a number is never `===` to a non-number. */
  lemma IntegerRule(env: Env, v: Value)
    ensures v.Num? ==> (FailsInteger(env, v) <==> v.x.Floor as real != v.x)
    ensures !IsNil(v) && !v.Num? ==> FailsInteger(env, v)
    ensures IsNil(v) ==> !FailsInteger(env, v)
  {
  }

  /** Nil entries pass every number rule. */
  lemma NilPassesComparisons(env: Env, v: Value, size: real)
    requires IsNil(v)
    ensures !FailsGreaterThan(env, v, size) && !FailsLessThan(env, v, size)
    ensures !FailsAtLeast(env, v, size) && !FailsAtMost(env, v, size)
    ensures !FailsInteger(env, v)
  {
  }

  /** `validate`'s short-circuit: it halts exactly on a truthy entry that does
      not convert to a number, or on NaN itself; falsy entries reach the rules
      unconverted and truthy ones as numbers. */
  lemma PrepareShape(env: Env, v: Value, invalid: string)
    ensures Prepare(env, v, invalid).Halt? <==> v.NaN? || (Truthy(v) && ToNumber(env, v).None?)
    ensures Prepare(env, v, invalid).Halt? ==> Prepare(env, v, invalid).msg == invalid
    ensures !Truthy(v) && !v.NaN? ==> Prepare(env, v, invalid) == Ready(v)
    ensures Truthy(v) && ToNumber(env, v).Some? ==> Prepare(env, v, invalid) == Ready(Num(ToNumber(env, v).value))
  {
  }
}
