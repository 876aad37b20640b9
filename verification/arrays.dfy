/**
 * The element tests behind the array rules of src/NopeArray.ts and
 * benchmark/nopesrc/NopeArray.ts: `indexOf` on an array or a string,
 * `hasOnly`'s matching, and `every`/`some` over the elements.  A rule body
 * that calls an array method on a value without it throws; `Crash` says so.
 */
module ArrayChecks {
  import opened JsValues

  datatype Check = Hit | Miss | Crash

  /** `container.indexOf(v) === -1` as a check: on an array, no element is
      `===` to `v`; on a string, `String(v)` is not a substring; any other
      container has no `indexOf`. */
  function Contains(env: Env, container: Value, v: Value): (r: Check)
    ensures r.Crash? <==> !container.Arr? && !container.Str?
    ensures container.Arr? ==> (r.Hit? <==> IndexOf(container.elems, v) != -1)
  {
    match container
    case Arr(_, elems) => if Includes(elems, v) then Hit else Miss
    case Str(s) => if HasSubstring(s, ToJsString(env, v)) then Hit else Miss
    case _ => Crash
  }

  /** `values.find(v => deepEquals(x, v))` */
  function FindDeep(x: Value, values: seq<Value>): (r: Option<Value>)
    ensures r.None? <==> forall i | 0 <= i < |values| :: !DeepEquals(x, values[i])
    ensures r.Some? ==> DeepEquals(x, r.value) && r.value in values
  {
    if |values| == 0 then None
    else if DeepEquals(x, values[0]) then Some(values[0])
    else
      assert forall i | 1 <= i < |values| :: values[i] == values[1..][i - 1];
      FindDeep(x, values[1..])
  }

  /** The `some` callback of `hasOnly`: an object-typed element is unmatched
      when `find` yields nothing truthy, any other one when `indexOf` misses. */
  predicate Unmatched(x: Value, values: seq<Value>) {
    if TypeOf(x) == "object" then
      var found := FindDeep(x, values);
      found.None? || !Truthy(found.value)
    else
      !Includes(values, x)
  }

  /** Identity erasure keeps truthiness. */
  lemma StructureKeepsTruthiness(v: Value)
    ensures Truthy(Structure(v)) <==> Truthy(v)
  {
  }

  /** `hasOnly`'s matching, stated without `find`: an object element (array,
      object or date) is matched by any deep-equal value, a scalar by a
      `===` one, and `null` is never matched, because the `null` that `find`
      returns is falsy. */
  lemma UnmatchedMeans(x: Value, values: seq<Value>)
    ensures x.Null? ==> Unmatched(x, values)
    ensures TypeOf(x) == "object" && !x.Null? ==>
              (Unmatched(x, values) <==> forall i | 0 <= i < |values| :: !DeepEquals(x, values[i]))
    ensures TypeOf(x) != "object" ==>
              (Unmatched(x, values) <==> forall i | 0 <= i < |values| :: !StrictEq(values[i], x))
  {
    var found := FindDeep(x, values);
    if found.Some? {
      StructureKeepsTruthiness(x);
      StructureKeepsTruthiness(found.value);
    }
  }

  /** The `hasOnly` test on an array entry: some element is unmatched. */
  predicate SomeUnmatched(elems: seq<Value>, values: seq<Value>) {
    exists i | 0 <= i < |elems| :: Unmatched(elems[i], values)
  }

  /** The `every(callback)` test: some element fails the callback. */
  predicate SomeViolates(elems: seq<Value>, pred: Value -> bool) {
    exists i | 0 <= i < |elems| :: !pred(elems[i])
  }

  /** The `some(callback)` test: some element satisfies the callback. */
  predicate SomeSatisfies(elems: seq<Value>, pred: Value -> bool) {
    exists i | 0 <= i < |elems| :: pred(elems[i])
  }

  /** The type-tag test of `of`/`ofAsync`: some element's `typeof` differs from the tag. */
  predicate SomeMistyped(elems: seq<Value>, tag: string) {
    exists i | 0 <= i < |elems| :: TypeOf(elems[i]) != tag
  }
}
