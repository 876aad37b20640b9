/**
 * Validation contexts and references (`Nope.ref(key)`).
 *
 * An object validator hands each field validator the whole object being
 * validated as its context; a rule that holds a reference reads the sibling
 * field of that name out of it.  A reference met without a context stays the
 * reference object itself, which is `===` to no value at all.
 */
module Refs {
  import opened JsValues

  /** The `context` argument of a rule: absent (undefined), or the fields of an object. */
  datatype Context = NoContext | Scope(fields: map<string, Value>)

  /** An entry of a `oneOf`/`notOneOf` list, or a date bound: a literal or a reference. */
  datatype Choice = Literal(value: Value) | Ref(key: string)

  /** `fields[key]`, undefined when absent. */
  function Get(fields: map<string, Value>, key: string): Value {
    if key in fields then fields[key] else Undefined
  }

  /** `option instanceof NopeReference && context ? context[option.key] : option`.
      `None` is the unresolved reference object. */
  function Resolve(c: Choice, ctx: Context): Option<Value> {
    match c
    case Literal(v) => Some(v)
    case Ref(key) => if ctx.Scope? then Some(Get(ctx.fields, key)) else None
  }

  /** `options.map(resolver)` */
  function ResolveAll(cs: seq<Choice>, ctx: Context): (r: seq<Option<Value>>)
    ensures |r| == |cs|
    ensures forall i | 0 <= i < |cs| :: r[i] == Resolve(cs[i], ctx)
  {
    seq(|cs|, i requires 0 <= i < |cs| => Resolve(cs[i], ctx))
  }

  /** `resolved.indexOf(entry) !== -1`: some resolved option is `===` to the entry. */
  predicate Listed(resolved: seq<Option<Value>>, entry: Value) {
    exists i | 0 <= i < |resolved| :: resolved[i].Some? && StrictEq(resolved[i].value, entry)
  }

  /** The resolved choice is `===` to the entry. */
  predicate ChoiceHits(c: Choice, ctx: Context, entry: Value) {
    Resolve(c, ctx).Some? && StrictEq(Resolve(c, ctx).value, entry)
  }

  /** `indexOf` over the resolved list finds the entry exactly when some
      choice resolves to a value `===` to it: a literal that is, or a
      reference whose field is, when there is a context. */
  lemma ListedMeans(cs: seq<Choice>, ctx: Context, entry: Value)
    ensures Listed(ResolveAll(cs, ctx), entry) <==> exists i | 0 <= i < |cs| :: ChoiceHits(cs[i], ctx, entry)
    ensures forall i | 0 <= i < |cs| :: ChoiceHits(cs[i], ctx, entry) <==>
              if cs[i].Literal? then StrictEq(cs[i].value, entry)
              else ctx.Scope? && StrictEq(Get(ctx.fields, cs[i].key), entry)
  {
    var resolved := ResolveAll(cs, ctx);
    if Listed(resolved, entry) {
      var i :| 0 <= i < |resolved| && resolved[i].Some? && StrictEq(resolved[i].value, entry);
      assert ChoiceHits(cs[i], ctx, entry);
    }
    if exists i | 0 <= i < |cs| :: ChoiceHits(cs[i], ctx, entry) {
      var i :| 0 <= i < |cs| && ChoiceHits(cs[i], ctx, entry);
      assert resolved[i] == Resolve(cs[i], ctx);
    }
  }

  /** The decimal digit `d` as a character. */
  function Digit(d: nat): (c: char)
    requires d < 10
    ensures '0' <= c <= '9' && c as int - '0' as int == d
  {
    (d + '0' as int) as char
  }

  /** `String(i)` for an array index: its decimal numeral, without leading zeros. */
  function IndexKey(i: nat): (r: string)
    ensures |r| >= 1
    decreases i
  {
    if i < 10 then [Digit(i)] else IndexKey(i / 10) + [Digit(i % 10)]
  }

  /** A property key that names an array index: a numeral with no leading zero. */
  predicate IsIndexKey(k: string) {
    |k| >= 1 && (forall j | 0 <= j < |k| :: '0' <= k[j] <= '9') && (|k| == 1 || k[0] != '0')
  }

  /** The number a string of decimal digits denotes. */
  function NumeralValue(k: string): nat
    requires |k| >= 1 && forall j | 0 <= j < |k| :: '0' <= k[j] <= '9'
    decreases |k|
  {
    var last := k[|k| - 1] as int - '0' as int;
    if |k| == 1 then last else NumeralValue(k[..|k| - 1]) * 10 + last
  }

  /** A numeral of two or more digits with no leading zero is at least ten. */
  lemma {:induction false} LongNumeralsAreLarge(k: string)
    requires IsIndexKey(k) && |k| >= 2
    ensures NumeralValue(k) >= 10
    decreases |k|
  {
    var front := k[..|k| - 1];
    assert front[0] == k[0];
    if |front| >= 2 {
      LongNumeralsAreLarge(front);
    }
  }

  /** `String(i)` is an index key, and reading it back gives `i`; every index
      key is `String` of the index it denotes. */
  lemma {:induction false} IndexKeyRoundTrip(i: nat)
    ensures IsIndexKey(IndexKey(i)) && NumeralValue(IndexKey(i)) == i
    decreases i
  {
    if i >= 10 {
      IndexKeyRoundTrip(i / 10);
      var front := IndexKey(i / 10);
      var k := IndexKey(i);
      assert k[..|k| - 1] == front;
      assert k[0] == front[0];
    }
  }

  lemma {:induction false} IndexKeyOfNumeral(k: string)
    requires IsIndexKey(k)
    ensures IndexKey(NumeralValue(k)) == k
    decreases |k|
  {
    if |k| >= 2 {
      var front := k[..|k| - 1];
      var last := k[|k| - 1] as int - '0' as int;
      assert front[0] == k[0];
      LongNumeralsAreLarge(k);
      IndexKeyOfNumeral(front);
      var v := NumeralValue(k);
      assert v == NumeralValue(front) * 10 + last;
      assert v / 10 == NumeralValue(front) && v % 10 == last;
      assert Digit(last) == k[|k| - 1];
      assert k == front + [k[|k| - 1]];
    }
  }

  /** The keys `0` … `n - 1` of an array or string of length `n`. */
  function IndexKeys(n: nat): set<string> {
    set i | 0 <= i < n :: IndexKey(i)
  }

  /** The indexed properties of a sequence of values. */
  function IndexFields(xs: seq<Value>): map<string, Value> {
    map k | k in IndexKeys(|xs|) :: ElementAt(xs, k)
  }

  /** `xs[k]` for a property key `k`. */
  function ElementAt(xs: seq<Value>, k: string): Value {
    if IsIndexKey(k) && NumeralValue(k) < |xs| then xs[NumeralValue(k)] else Undefined
  }

  /** The named properties `entry[key]` reads, other than those inherited from
      a prototype: an object's own fields; a string's characters and length;
      an array's elements and length.  Numbers, booleans and dates have none. */
  function ReadableFields(entry: Value): map<string, Value> {
    match entry
    case Obj(_, props) => props
    case Str(s) => IndexFields(seq(|s|, i requires 0 <= i < |s| => Str([s[i]])))["length" := Num(|s| as real)]
    case Arr(_, elems) => IndexFields(elems)["length" := Num(|elems| as real)]
    case _ => map[]
  }

  /** What the fields of an object see as their context: the object itself,
      when it is truthy. */
  function AsContext(entry: Value): Context {
    if !Truthy(entry) then NoContext else Scope(ReadableFields(entry))
  }

  /** `entry[key]` on a non-nil entry (on a nil one JavaScript throws). */
  function Prop(entry: Value, key: string): Value
    requires !IsNil(entry)
  {
    Get(ReadableFields(entry), key)
  }

  /** The names every object literal inherits from `Object.prototype`, so
      that `key in shape` holds for them whatever the shape declares. */
  const InheritedNames: set<string> := {
    "constructor", "hasOwnProperty", "isPrototypeOf", "propertyIsEnumerable",
    "toLocaleString", "toString", "valueOf", "__proto__",
    "__defineGetter__", "__defineSetter__", "__lookupGetter__", "__lookupSetter__"
  }

  /** The keys `for (const key in entry)` visits: an object's own fields, the
      indices of a string or an array (not `length`, which is not enumerable). */
  function OwnKeys(entry: Value): set<string> {
    match entry
    case Obj(_, props) => props.Keys
    case Str(s) => IndexKeys(|s|)
    case Arr(_, elems) => IndexKeys(|elems|)
    case _ => {}
  }

  /** `entry.length` as a comparison with a number reads it: `Number()` of
      the entry's `length` property (undefined when it has none), with
      `None` for NaN.  An object's own `length` field counts like a string's
      or an array's length. */
  function LengthOf(env: Env, entry: Value): Option<real>
    requires !IsNil(entry)
  {
    ToNumber(env, Prop(entry, "length"))
  }

  /** A string's and an array's `length` is its number of characters or
      elements; an object's is its own `length` field, read as a number. */
  lemma LengthOfMeans(env: Env, entry: Value)
    requires !IsNil(entry)
    ensures entry.Str? ==> LengthOf(env, entry) == Some(|entry.s| as real)
    ensures entry.Arr? ==> LengthOf(env, entry) == Some(|entry.elems| as real)
    ensures entry.Obj? ==> LengthOf(env, entry) == ToNumber(env, Get(entry.props, "length"))
    ensures entry.Bool? || entry.Num? || entry.NaN? || entry.DateVal? ==> LengthOf(env, entry).None?
  {
    if entry.Str? {
      StringProps(entry.s);
    } else if entry.Arr? {
      ArrayProps(entry.id, entry.elems);
    }
  }

  /** An index key names a position below `n` exactly when it is `String` of one. */
  lemma IndexKeysMeans(n: nat, k: string)
    ensures k in IndexKeys(n) <==> IsIndexKey(k) && NumeralValue(k) < n
  {
    if k in IndexKeys(n) {
      var i :| 0 <= i < n && k == IndexKey(i);
      IndexKeyRoundTrip(i);
    }
    if IsIndexKey(k) && NumeralValue(k) < n {
      IndexKeyOfNumeral(k);
      assert k == IndexKey(NumeralValue(k));
    }
  }

  /** On a string, `entry[key]` reads its length and its characters by index. */
  lemma StringProps(s: string)
    ensures Prop(Str(s), "length") == Num(|s| as real)
    ensures forall i | 0 <= i < |s| :: Prop(Str(s), IndexKey(i)) == Str([s[i]])
  {
    var chars := seq(|s|, i requires 0 <= i < |s| => Str([s[i]]));
    forall i | 0 <= i < |s|
      ensures Prop(Str(s), IndexKey(i)) == Str([s[i]])
    {
      IndexKeyRoundTrip(i);
      assert IndexKey(i) in IndexKeys(|s|);
      assert IndexKey(i) != "length" by { assert "length"[0] == 'l'; }
      assert ElementAt(chars, IndexKey(i)) == chars[i];
    }
  }

  /** A string has no other readable own property, and `for … in` visits
      exactly its indices. */
  lemma StringKeys(s: string)
    ensures forall k | k != "length" && !(IsIndexKey(k) && NumeralValue(k) < |s|) :: Prop(Str(s), k) == Undefined
    ensures forall k :: k in OwnKeys(Str(s)) <==> IsIndexKey(k) && NumeralValue(k) < |s|
  {
    forall k | k != "length" && !(IsIndexKey(k) && NumeralValue(k) < |s|)
      ensures Prop(Str(s), k) == Undefined
    {
      IndexKeysMeans(|s|, k);
    }
    forall k
      ensures k in OwnKeys(Str(s)) <==> IsIndexKey(k) && NumeralValue(k) < |s|
    {
      IndexKeysMeans(|s|, k);
    }
  }

  /** On an array, `entry[key]` reads its length and its elements by index,
      and nothing else; `for … in` visits exactly the indices. */
  lemma ArrayProps(id: nat, elems: seq<Value>)
    ensures Prop(Arr(id, elems), "length") == Num(|elems| as real)
    ensures forall i | 0 <= i < |elems| :: Prop(Arr(id, elems), IndexKey(i)) == elems[i]
    ensures forall k | k != "length" && !(IsIndexKey(k) && NumeralValue(k) < |elems|) :: Prop(Arr(id, elems), k) == Undefined
    ensures forall k :: k in OwnKeys(Arr(id, elems)) <==> IsIndexKey(k) && NumeralValue(k) < |elems|
  {
    forall i | 0 <= i < |elems|
      ensures Prop(Arr(id, elems), IndexKey(i)) == elems[i]
    {
      IndexKeyRoundTrip(i);
      assert IndexKey(i) in IndexKeys(|elems|);
      assert IndexKey(i) != "length" by { assert "length"[0] == 'l'; }
    }
    forall k | k != "length" && !(IsIndexKey(k) && NumeralValue(k) < |elems|)
      ensures Prop(Arr(id, elems), k) == Undefined
    {
      IndexKeysMeans(|elems|, k);
    }
    forall k
      ensures k in OwnKeys(Arr(id, elems)) <==> IsIndexKey(k) && NumeralValue(k) < |elems|
    {
      IndexKeysMeans(|elems|, k);
    }
  }
}
