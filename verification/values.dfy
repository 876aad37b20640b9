/**
 * JavaScript values as the validators see them, with the handful of
 * language operations the rules rely on: truthiness, `typeof`, strict
 * equality (`===`, the comparison `indexOf` uses), structural equality
 * (`deepEquals`), `String(x)` and `Number(x)`.
 *
 * Arrays and objects carry an `id` standing for their reference identity:
 * `===` compares identities, `deepEquals` compares structures.  Built-ins
 * whose exact behaviour is not part of the validators (number formatting and
 * parsing, `new Date`, `Date.parse`) are fields of `Env` and so are
 * parameters of everything that needs them.
 */
module JsValues {

  datatype Option<+T> = None | Some(value: T)

  datatype Value =
    | Undefined
    | Null
    | Bool(b: bool)
    | Num(x: real)
    | NaN
    | Str(s: string)
      /** A Date object; `None` is an Invalid Date. */
    | DateVal(time: Option<int>)
    | Arr(id: nat, elems: seq<Value>)
    | Obj(id: nat, props: map<string, Value>)

  /** The JavaScript built-ins the model takes as given. */
  datatype Env = Env(
    formatNumber: real -> string,     // String(n) for a finite number
    formatDate: Option<int> -> string, // String(date)
    parseNumber: string -> Option<real>, // Number(s); None is NaN
    newDate: Value -> Option<int>,    // the time value of new Date(v); None is an Invalid Date
    parseDate: string -> Option<int>  // Date.parse(s); None is NaN
  )

  /** `entry === undefined || entry === null` */
  predicate IsNil(v: Value) {
    v.Undefined? || v.Null?
  }

  /** `!!v` */
  predicate Truthy(v: Value) {
    match v
    case Undefined => false
    case Null => false
    case NaN => false
    case Bool(b) => b
    case Num(x) => x != 0.0
    case Str(s) => s != ""
    case _ => true
  }

  /** `typeof v` */
  function TypeOf(v: Value): string {
    match v
    case Undefined => "undefined"
    case Bool(_) => "boolean"
    case Num(_) => "number"
    case NaN => "number"
    case Str(_) => "string"
    case _ => "object"
  }

  /** `a === b`: scalars by value (NaN equals nothing), arrays and objects by identity. */
  predicate StrictEq(a: Value, b: Value) {
    match (a, b)
    case (Undefined, Undefined) => true
    case (Null, Null) => true
    case (Bool(x), Bool(y)) => x == y
    case (Num(x), Num(y)) => x == y
    case (Str(x), Str(y)) => x == y
    case (Arr(i, _), Arr(j, _)) => i == j
    case (Obj(i, _), Obj(j, _)) => i == j
    case _ => false
  }

  /** The value with every identity erased: what `deepEquals` looks at. */
  function Structure(v: Value): (r: Value)
    ensures TypeOf(r) == TypeOf(v)
  {
    match v
    case Arr(_, elems) => Arr(0, seq(|elems|, i requires 0 <= i < |elems| => Structure(elems[i])))
    case Obj(_, props) => Obj(0, map k | k in props :: Structure(props[k]))
    case _ => v
  }

  /** `deepEquals(a, b)`: equal structure, key for key and element for element. */
  predicate DeepEquals(a: Value, b: Value) {
    Structure(a) == Structure(b)
  }

  /** On strings, numbers and booleans, `===` and `deepEquals` both coincide with equality. */
  lemma ScalarEqualities(a: Value, b: Value)
    requires a.Bool? || a.Num? || a.Str? || IsNil(a)
    ensures StrictEq(a, b) <==> a == b
    ensures DeepEquals(a, b) <==> a == b
  {
  }

  /** Two distinct arrays with the same elements: `deepEquals` holds, `===` does not. */
  lemma DeepEqualsIgnoresIdentity(i: nat, j: nat, elems: seq<Value>)
    ensures DeepEquals(Arr(i, elems), Arr(j, elems))
    ensures i != j ==> !StrictEq(Arr(i, elems), Arr(j, elems))
  {
  }

  /** `xs.indexOf(v)`: the first position holding a value `===` to `v`, or -1. */
  function IndexOf(xs: seq<Value>, v: Value): (r: int)
    ensures -1 <= r < |xs|
    ensures r == -1 <==> forall i | 0 <= i < |xs| :: !StrictEq(xs[i], v)
    ensures 0 <= r ==> StrictEq(xs[r], v) && forall i | 0 <= i < r :: !StrictEq(xs[i], v)
  {
    if |xs| == 0 then -1
    else if StrictEq(xs[0], v) then 0
    else
      var k := IndexOf(xs[1..], v);
      assert forall i | 1 <= i < |xs| :: xs[i] == xs[1..][i - 1];
      if k == -1 then -1 else k + 1
  }

  /** `xs.indexOf(v) !== -1` */
  predicate Includes(xs: seq<Value>, v: Value) {
    exists i | 0 <= i < |xs| :: StrictEq(xs[i], v)
  }

  /** `String(v)` (and the template literal `${v}`). */
  function ToJsString(env: Env, v: Value): string
    decreases v, 1
  {
    match v
    case Undefined => "undefined"
    case Null => "null"
    case Bool(b) => if b then "true" else "false"
    case Num(x) => env.formatNumber(x)
    case NaN => "NaN"
    case Str(s) => s
    case DateVal(t) => env.formatDate(t)
    case Arr(_, elems) => Join(env, v, 0)
    case Obj(_, _) => "[object Object]"
  }

  /** `elems.slice(i).join(",")`, where undefined and null elements print as "". */
  function Join(env: Env, v: Value, i: nat): string
    requires v.Arr? && i <= |v.elems|
    decreases v, 0, |v.elems| - i
  {
    if i == |v.elems| then ""
    else
      var piece := if IsNil(v.elems[i]) then "" else ToJsString(env, v.elems[i]);
      if i + 1 == |v.elems| then piece else piece + "," + Join(env, v, i + 1)
  }

  /** `Number(v)`; `None` is NaN. */
  function ToNumber(env: Env, v: Value): Option<real> {
    match v
    case Undefined => None
    case Null => Some(0.0)
    case Bool(b) => Some(if b then 1.0 else 0.0)
    case Num(x) => Some(x)
    case NaN => None
    case Str(s) => env.parseNumber(s)
    case DateVal(t) => if t.Some? then Some(t.value as real) else None
    case _ => env.parseNumber(ToJsString(env, v))
  }

  /** `s.indexOf(t) !== -1` on strings. */
  predicate HasSubstring(s: string, t: string) {
    exists i | 0 <= i <= |s| :: OccursAt(s, t, i)
  }

  predicate OccursAt(s: string, t: string, i: nat) {
    i + |t| <= |s| && s[i..i + |t|] == t
  }

  /** The value a rule sees after a leaf's coercion hook: either a value to
      run the rule chain on, or a message that ends validation at once. */
  datatype Prepared = Ready(value: Value) | Halt(msg: string)
}
