/**
 * The helpers of src/utils.ts: resolving a list of context keys, and `every`.
 */
module Utils {
  import opened JsValues
  import opened Refs

  /** The options `resolveNopeRefsFromKeys` accepts: `string | Nil`. */
  type Key = v: Value | v.Str? || IsNil(v) witness Undefined

  /** `resolveNopeRefsFromKeys(options, context)`, as written: an option becomes
      `context[option]` only when that is not undefined, and stays the option
      itself otherwise. */
  function ResolveRefsFromKeys(options: seq<Key>, ctx: Context): (r: seq<Value>)
    ensures |r| == |options|
    ensures forall i | 0 <= i < |options| && ctx.Scope? && options[i].Str? && Get(ctx.fields, options[i].s) != Undefined ::
              r[i] == Get(ctx.fields, options[i].s)
    ensures forall i | 0 <= i < |options| && !(ctx.Scope? && options[i].Str? && Get(ctx.fields, options[i].s) != Undefined) ::
              r[i] == options[i]
  {
    if |options| == 0 then []
    else
      var o := options[0];
      var first := if ctx.Scope? && o.Str? && Get(ctx.fields, o.s) != Undefined then Get(ctx.fields, o.s) else o;
      [first] + ResolveRefsFromKeys(options[1..], ctx)
  }

  /** The resolution the `when` rule relies on: with a context, each key reads
      its field, a missing field reading as undefined; without one, each key
      stays itself. */
  function ResolveKeys(keys: seq<string>, ctx: Context): (r: seq<Value>)
    ensures |r| == |keys|
    ensures ctx.Scope? ==> forall i | 0 <= i < |keys| :: r[i] == Get(ctx.fields, keys[i])
    ensures ctx.NoContext? ==> forall i | 0 <= i < |keys| :: r[i] == Str(keys[i])
  {
    if |keys| == 0 then []
    else
      var first := if ctx.Scope? then Get(ctx.fields, keys[0]) else Str(keys[0]);
      [first] + ResolveKeys(keys[1..], ctx)
  }

  /** The two resolutions agree on every key whose field is present and
      defined; they differ exactly where the field reads as undefined. */
  lemma ResolutionsAgreeOnDefinedKeys(keys: seq<string>, fields: map<string, Value>)
    ensures forall i | 0 <= i < |keys| ::
              var asWritten := ResolveRefsFromKeys(seq(|keys|, j requires 0 <= j < |keys| => Str(keys[j])), Scope(fields));
              var intended := ResolveKeys(keys, Scope(fields));
              (Get(fields, keys[i]) != Undefined ==> asWritten[i] == intended[i]) &&
              (Get(fields, keys[i]) == Undefined ==> asWritten[i] == Str(keys[i]) && intended[i] == Undefined)
  {
  }

  /** The case src/__tests__/utils.spec.ts checks: a key missing from the
      context comes back as the key's own name, not as undefined. */
  lemma MissingKeyComesBackAsItsName()
    ensures ResolveRefsFromKeys([Str("a"), Str("b"), Str("d")], Scope(map["a" := Num(2.0), "b" := Num(5.0)]))
            == [Num(2.0), Num(5.0), Str("d")]
    ensures ResolveKeys(["a", "b", "d"], Scope(map["a" := Num(2.0), "b" := Num(5.0)]))
            == [Num(2.0), Num(5.0), Undefined]
  {
    var ctx := Scope(map["a" := Num(2.0), "b" := Num(5.0)]);
    assert Get(ctx.fields, "d") == Undefined;
  }

  /** `arr.filter(keep)` */
  function Filter(xs: seq<Value>, keep: Value -> bool): (r: seq<Value>)
    ensures |r| <= |xs|
    ensures forall i | 0 <= i < |r| :: keep(r[i]) && r[i] in xs
    ensures forall i | 0 <= i < |xs| && keep(xs[i]) :: xs[i] in r
  {
    if |xs| == 0 then []
    else
      var rest := Filter(xs[1..], keep);
      assert forall i | 1 <= i < |xs| :: xs[i] == xs[1..][i - 1];
      if keep(xs[0]) then [xs[0]] + rest else rest
  }

  /** `every(arr, predicate)`: nothing is left once the passing values are filtered out. */
  predicate Every(arr: seq<Value>, p: Value -> bool) {
    |Filter(arr, x => !p(x))| == 0
  }

  lemma EveryMeansAll(arr: seq<Value>, p: Value -> bool)
    ensures Every(arr, p) <==> forall i | 0 <= i < |arr| :: p(arr[i])
    ensures Every([], p)
  {
    var failing := Filter(arr, x => !p(x));
    if !Every(arr, p) {
      assert !p(failing[0]) && failing[0] in arr;
    }
  }
}
