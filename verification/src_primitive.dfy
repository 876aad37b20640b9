/**
 * The primitive validator without delegation (src/NopePrimitive.ts): its
 * `required` (nil test), its `oneOf` (references resolved against the
 * context, undefined not exempt) and its `validate` loop, which returns the
 * first truthy rule result as it is.
 */
module SrcPrimitive {
  import opened JsValues
  import opened Refs
  import opened Schema
  import opened Engine
  import Primitive

  /** What `if (error) return error` hands back for a truthy rule result. */
  function Returns(o: Outcome): (r: Verdict)
    requires Stops(o)
    ensures r.Valid? == false
    ensures o.Error? ==> r == Message(o.msg) && Fails(r)
  {
    match o
    case Error(msg) => Message(msg)
    case Delegate(_) => Other
    case Pending => Other
    case Fault => Thrown
  }

  /** No rule hands back a validator. */
  predicate NoWhen(rules: seq<Rule>) {
    forall k | 0 <= k < |rules| :: !rules[k].When?
  }

  /** `validate(entry, context)`: the rules in insertion order; the first
      truthy result is returned and no later rule runs. */
  method ValidateSrc(env: Env, rules: seq<Rule>, entry: Value, ctx: Context) returns (r: Verdict)
    ensures r.Valid? <==> forall k | 0 <= k < |rules| :: !Stops(Eval(env, Sync, Generic, rules[k], entry, ctx))
    ensures !r.Valid? ==>
              exists k | 0 <= k < |rules| ::
                && Stops(Eval(env, Sync, Generic, rules[k], entry, ctx))
                && (forall j | 0 <= j < k :: !Stops(Eval(env, Sync, Generic, rules[j], entry, ctx)))
                && r == Returns(Eval(env, Sync, Generic, rules[k], entry, ctx))
    ensures NoWhen(rules) ==> r == Chain(env, Sync, Leaf(Generic, rules), 0, entry, ctx)
  {
    ghost var n := Leaf(Generic, rules);
    var i := 0;
    while i < |rules|
      invariant 0 <= i <= |rules|
      invariant forall j | 0 <= j < i :: !Stops(Eval(env, Sync, Generic, rules[j], entry, ctx))
      invariant Chain(env, Sync, n, 0, entry, ctx) == Chain(env, Sync, n, i, entry, ctx)
    {
      var o := Eval(env, Sync, Generic, rules[i], entry, ctx);
      assert o == Step(env, Sync, n, i, entry, ctx);
      Primitive.ChainUnfold(env, Sync, n, i, entry, ctx);
      if Stops(o) {
        r := Returns(o);
        return;
      }
      i := i + 1;
    }
    r := Valid;
  }

  /** `required` fails exactly on undefined and null. */
  lemma RequiredMeansNil(env: Env, mode: Mode, kind: LeafKind, msg: string, entry: Value, ctx: Context)
    requires msg != ""
    ensures Stops(Eval(env, mode, kind, Required(msg), entry, ctx)) <==> IsNil(entry)
  {
  }

  /** `oneOf` fails exactly when no option, a reference read from the
      context where there is one, is `===` to the entry; a reference without
      a context matches nothing, and undefined is not exempt. */
  lemma OneOfListedMeans(env: Env, mode: Mode, kind: LeafKind, choices: seq<Choice>, msg: string, entry: Value, ctx: Context)
    requires msg != ""
    ensures Stops(Eval(env, mode, kind, OneOfListed(choices, msg), entry, ctx))
            <==> forall i | 0 <= i < |choices| :: !ChoiceHits(choices[i], ctx, entry)
    ensures Stops(Eval(env, mode, kind, OneOfListed([], msg), Undefined, ctx))
  {
    assert Eval(env, mode, kind, OneOfListed(choices, msg), entry, ctx) == Flag(!Listed(ResolveAll(choices, ctx), entry), msg);
    ListedMeans(choices, ctx, entry);
    assert Eval(env, mode, kind, OneOfListed([], msg), Undefined, ctx) == Flag(!Listed(ResolveAll([], ctx), Undefined), msg);
  }
}
