/**
 * The rule chain of the primitive validator with delegation
 * (benchmark/nopesrc/NopePrimitive.ts) and the rules it defines: rules run
 * in insertion order, the first truthy result ends the chain, and a
 * validator returned by a rule takes over the same entry and context.
 * The array validators share the chain (`Engine.Chain` serves both).
 */
module Primitive {
  import opened JsValues
  import opened Refs
  import opened Schema
  import opened Engine
  import Utils

  /** `test(rule)`, and through it every builder: the rule goes at the end
      and the validator is returned with its earlier rules untouched. */
  function AddRule(n: Node, rule: Rule): (r: Node)
    requires !n.Record?
    ensures !r.Record? && r.Leaf? == n.Leaf? && (n.Leaf? ==> r.kind == n.kind)
    ensures |r.rules| == |n.rules| + 1 && r.rules[..|n.rules|] == n.rules && r.rules[|n.rules|] == rule
  {
    if n.Leaf? then Leaf(n.kind, n.rules + [rule]) else List(n.rules + [rule])
  }

  /** The verdict the chain gives when a rule's outcome ends it. */
  function Settle(env: Env, mode: Mode, n: Node, o: Outcome, entry: Value, ctx: Context): Verdict {
    match o
    case Pass => Valid
    case Error(msg) => if msg == "" then Valid else Message(msg)
    case Delegate(target) => if target.Leaf? then Run(env, mode, target, entry, ctx) else Returned(n, "[object Object]")
    case Pending => Returned(n, "[object Promise]")
    case Fault => Thrown
  }

  /** One turn of the loop: a rule that returns nothing hands on to the
      next, any other result settles the verdict. */
  lemma ChainUnfold(env: Env, mode: Mode, n: Node, i: nat, entry: Value, ctx: Context)
    requires !n.Record? && i < |n.rules|
    ensures !Stops(Step(env, mode, n, i, entry, ctx)) ==>
              Chain(env, mode, n, i, entry, ctx) == Chain(env, mode, n, i + 1, entry, ctx)
    ensures Stops(Step(env, mode, n, i, entry, ctx)) ==>
              Chain(env, mode, n, i, entry, ctx) == Settle(env, mode, n, Step(env, mode, n, i, entry, ctx), entry, ctx)
  {
  }

  /** A validator with a single rule settles on that rule's result. */
  lemma OneRule(env: Env, mode: Mode, n: Node, entry: Value, ctx: Context)
    requires !n.Record? && |n.rules| == 1
    ensures Chain(env, mode, n, 0, entry, ctx) == Settle(env, mode, n, Step(env, mode, n, 0, entry, ctx), entry, ctx)
  {
    ChainUnfold(env, mode, n, 0, entry, ctx);
  }

  /** Rule `i` of two validators of the same kind holding the same rule there
      returns the same thing. */
  lemma StepAgrees(env: Env, mode: Mode, n: Node, m: Node, i: nat, entry: Value, ctx: Context)
    requires !n.Record? && !m.Record? && n.Leaf? == m.Leaf? && (n.Leaf? ==> n.kind == m.kind)
    requires i < |n.rules| && i < |m.rules| && n.rules[i] == m.rules[i]
    ensures Step(env, mode, n, i, entry, ctx) == Step(env, mode, m, i, entry, ctx)
  {
  }

  /** No rule in `[i, j)` ends the chain. */
  predicate Quiet(env: Env, mode: Mode, n: Node, i: nat, j: nat, entry: Value, ctx: Context)
    requires !n.Record? && i <= j <= |n.rules|
  {
    forall k | i <= k < j :: !Stops(Step(env, mode, n, k, entry, ctx))
  }

  lemma QuietSplit(env: Env, mode: Mode, n: Node, i: nat, j: nat, entry: Value, ctx: Context)
    requires !n.Record? && i < j <= |n.rules|
    ensures Quiet(env, mode, n, i, j, entry, ctx)
            <==> !Stops(Step(env, mode, n, i, entry, ctx)) && Quiet(env, mode, n, i + 1, j, entry, ctx)
  {
  }

  /** Rules that return nothing are stepped over. */
  lemma {:induction false} QuietRulesAreSkipped(env: Env, mode: Mode, n: Node, i: nat, j: nat, entry: Value, ctx: Context)
    requires !n.Record? && i <= j <= |n.rules|
    requires Quiet(env, mode, n, i, j, entry, ctx)
    ensures Chain(env, mode, n, i, entry, ctx) == Chain(env, mode, n, j, entry, ctx)
    decreases j - i
  {
    if i < j {
      QuietRulesAreSkipped(env, mode, n, i + 1, j, entry, ctx);
    }
  }

  /** First error wins: the chain's verdict is settled by the first rule
      whose result is truthy, an error message or a validator to delegate to. */
  lemma FirstStopWins(env: Env, mode: Mode, n: Node, k: nat, entry: Value, ctx: Context)
    requires !n.Record? && k < |n.rules|
    requires Quiet(env, mode, n, 0, k, entry, ctx)
    requires Stops(Step(env, mode, n, k, entry, ctx))
    ensures Chain(env, mode, n, 0, entry, ctx) == Settle(env, mode, n, Step(env, mode, n, k, entry, ctx), entry, ctx)
  {
    QuietRulesAreSkipped(env, mode, n, 0, k, entry, ctx);
  }

  /** With no rules, or when no rule returns anything truthy, the verdict is undefined. */
  lemma AllQuietIsValid(env: Env, mode: Mode, n: Node, entry: Value, ctx: Context)
    requires !n.Record?
    requires Quiet(env, mode, n, 0, |n.rules|, entry, ctx)
    ensures Chain(env, mode, n, 0, entry, ctx) == Valid
    ensures |n.rules| == 0 ==> Chain(env, mode, n, 0, entry, ctx) == Valid
  {
    QuietRulesAreSkipped(env, mode, n, 0, |n.rules|, entry, ctx);
  }

  /** Rule `i` of two validators of the same kind holding the same rule
      there either settles both chains alike or hands both on. */
  lemma SameRuleSameTurn(env: Env, mode: Mode, n: Node, m: Node, i: nat, entry: Value, ctx: Context)
    requires !n.Record? && !m.Record? && n.Leaf? == m.Leaf? && (n.Leaf? ==> n.kind == m.kind)
    requires i < |n.rules| && i < |m.rules| && n.rules[i] == m.rules[i]
    ensures Stops(Step(env, mode, n, i, entry, ctx)) ==>
              Chain(env, mode, m, i, entry, ctx) == Chain(env, mode, n, i, entry, ctx)
    ensures !Stops(Step(env, mode, n, i, entry, ctx)) ==>
              Chain(env, mode, n, i, entry, ctx) == Chain(env, mode, n, i + 1, entry, ctx) &&
              Chain(env, mode, m, i, entry, ctx) == Chain(env, mode, m, i + 1, entry, ctx)
  {
    StepAgrees(env, mode, n, m, i, entry, ctx);
    ChainUnfold(env, mode, n, i, entry, ctx);
    ChainUnfold(env, mode, m, i, entry, ctx);
    var o := Step(env, mode, n, i, entry, ctx);
    if Stops(o) {
      assert n.List? == m.List?;
      assert Settle(env, mode, n, o, entry, ctx) == Settle(env, mode, m, o, entry, ctx);
    }
  }

  /** Two validators of the same kind whose rules agree on a prefix give the
      same verdict wherever that prefix already ends the chain; otherwise the
      longer one carries on where the prefix stops. */
  lemma {:induction false} PrefixDecides(env: Env, mode: Mode, n: Node, m: Node, i: nat, entry: Value, ctx: Context)
    requires !n.Record? && !m.Record? && n.Leaf? == m.Leaf? && (n.Leaf? ==> n.kind == m.kind)
    requires |n.rules| <= |m.rules| && m.rules[..|n.rules|] == n.rules && i <= |n.rules|
    ensures !Quiet(env, mode, n, i, |n.rules|, entry, ctx) ==>
              Chain(env, mode, m, i, entry, ctx) == Chain(env, mode, n, i, entry, ctx)
    ensures Quiet(env, mode, n, i, |n.rules|, entry, ctx) ==>
              Chain(env, mode, m, i, entry, ctx) == Chain(env, mode, m, |n.rules|, entry, ctx)
    decreases |n.rules| - i
  {
    if i < |n.rules| {
      assert m.rules[i] == m.rules[..|n.rules|][i];
      SameRuleSameTurn(env, mode, n, m, i, entry, ctx);
      QuietSplit(env, mode, n, i, |n.rules|, entry, ctx);
      PrefixDecides(env, mode, n, m, i + 1, entry, ctx);
    }
  }

  /** Later rules are never consulted: once rule `k` ends the chain, any
      validator sharing the rules up to `k` gives the same verdict. */
  lemma LaterRulesIgnored(env: Env, mode: Mode, n: Node, m: Node, k: nat, entry: Value, ctx: Context)
    requires !n.Record? && !m.Record? && n.Leaf? == m.Leaf? && (n.Leaf? ==> n.kind == m.kind)
    requires k < |n.rules| && k < |m.rules| && n.rules[..k + 1] == m.rules[..k + 1]
    requires Quiet(env, mode, n, 0, k, entry, ctx) && Stops(Step(env, mode, n, k, entry, ctx))
    ensures Chain(env, mode, n, 0, entry, ctx) == Chain(env, mode, m, 0, entry, ctx)
  {
    var p := if n.Leaf? then Leaf(n.kind, n.rules[..k + 1]) else List(n.rules[..k + 1]);
    assert Step(env, mode, p, k, entry, ctx) == Step(env, mode, n, k, entry, ctx);
    assert !Quiet(env, mode, p, 0, |p.rules|, entry, ctx);
    PrefixDecides(env, mode, p, n, 0, entry, ctx);
    PrefixDecides(env, mode, p, m, 0, entry, ctx);
  }

  /** The last rule of `m` settles the rest of its chain the way it would
      settle `n`'s, `n` being of the same kind. */
  lemma LastRuleSettles(env: Env, mode: Mode, n: Node, m: Node, entry: Value, ctx: Context)
    requires !n.Record? && !m.Record? && n.Leaf? == m.Leaf? && |m.rules| == |n.rules| + 1
    ensures Chain(env, mode, m, |n.rules|, entry, ctx)
            == Settle(env, mode, n, Step(env, mode, m, |n.rules|, entry, ctx), entry, ctx)
  {
    var o := Step(env, mode, m, |n.rules|, entry, ctx);
    ChainUnfold(env, mode, m, |n.rules|, entry, ctx);
    assert Settle(env, mode, m, o, entry, ctx) == Settle(env, mode, n, o, entry, ctx);
  }

  /** Appending a rule changes nothing when an earlier rule already ends the
      chain, and otherwise the new rule alone settles the verdict. */
  lemma AddRuleKeepsEarlierVerdict(env: Env, mode: Mode, n: Node, rule: Rule, entry: Value, ctx: Context)
    requires !n.Record?
    ensures !Quiet(env, mode, n, 0, |n.rules|, entry, ctx) ==>
              Chain(env, mode, AddRule(n, rule), 0, entry, ctx) == Chain(env, mode, n, 0, entry, ctx)
    ensures Quiet(env, mode, n, 0, |n.rules|, entry, ctx) ==>
              Chain(env, mode, AddRule(n, rule), 0, entry, ctx)
              == Settle(env, mode, n, Step(env, mode, AddRule(n, rule), |n.rules|, entry, ctx), entry, ctx)
  {
    var m := AddRule(n, rule);
    PrefixDecides(env, mode, n, m, 0, entry, ctx);
    LastRuleSettles(env, mode, n, m, entry, ctx);
  }

  /** Delegation: when the first truthy result is a primitive validator, the
      verdict is that validator's own on the same entry and context. */
  lemma DelegationHandsOver(env: Env, mode: Mode, n: Node, k: nat, entry: Value, ctx: Context)
    requires !n.Record? && k < |n.rules| && Quiet(env, mode, n, 0, k, entry, ctx)
    requires Step(env, mode, n, k, entry, ctx).Delegate? && Step(env, mode, n, k, entry, ctx).target.Leaf?
    ensures Chain(env, mode, n, 0, entry, ctx) == Run(env, mode, Step(env, mode, n, k, entry, ctx).target, entry, ctx)
  {
    FirstStopWins(env, mode, n, k, entry, ctx);
  }

  /** `required` and `notAllowed` split every entry between them by the
      validator's `isEmpty`, which is the nil test everywhere but in the
      string validator. */
  lemma RequiredAndNotAllowedComplementary(env: Env, mode: Mode, kind: LeafKind, entry: Value, ctx: Context, m1: string, m2: string)
    requires m1 != "" && m2 != ""
    ensures Stops(Eval(env, mode, kind, RequiredNonEmpty(m1), entry, ctx)) <==> IsEmpty(env, kind, entry)
    ensures Stops(Eval(env, mode, kind, NotAllowed(m2), entry, ctx)) <==> !IsEmpty(env, kind, entry)
    ensures !kind.StringLeaf? ==> (IsEmpty(env, kind, entry) <==> IsNil(entry))
  {
  }

  /** `when(key, …)` with a single key is `when([key], …)`. */
  function WhenKey(key: string, cond: Condition, whenTrue: Node, whenFalse: Node): (r: Rule)
    ensures r.When? && r.keys == [key]
  {
    When([key], cond, whenTrue, whenFalse)
  }

  /** A literal `is` holds when every key value is `===` to it, vacuously so
      for no keys. */
  lemma WhenIsMeansEvery(v: Value, values: seq<Value>)
    ensures WhenHolds(Is(v), values) <==> forall i | 0 <= i < |values| :: StrictEq(values[i], v)
    ensures WhenHolds(Is(v), [])
  {
    Utils.EveryMeansAll(values, EqualTo(v));
    Utils.EveryMeansAll([], EqualTo(v));
  }

  /** `when` never reports an error of its own: it always hands over, to
      `then` when every key's value is `===` to a literal `is` (or the
      predicate holds of the values in key order), to `otherwise` if not.
      With a context the values are the context's fields. */
  lemma WhenPicksBranch(keys: seq<string>, cond: Condition, whenTrue: Node, whenFalse: Node, ctx: Context)
    ensures cond.Is? && (forall i | 0 <= i < |keys| :: StrictEq(Utils.ResolveKeys(keys, ctx)[i], cond.value)) ==>
              WhenOutcome(keys, cond, whenTrue, whenFalse, ctx).target == whenTrue
    ensures cond.Is? && !(forall i | 0 <= i < |keys| :: StrictEq(Utils.ResolveKeys(keys, ctx)[i], cond.value)) ==>
              WhenOutcome(keys, cond, whenTrue, whenFalse, ctx).target == whenFalse
    ensures cond.Holds? ==>
              WhenOutcome(keys, cond, whenTrue, whenFalse, ctx).target
              == (if cond.pred(Utils.ResolveKeys(keys, ctx)) then whenTrue else whenFalse)
  {
    var values := Utils.ResolveKeys(keys, ctx);
    assert WhenOutcome(keys, cond, whenTrue, whenFalse, ctx).target
        == (if WhenHolds(cond, values) then whenTrue else whenFalse);
    if cond.Is? {
      WhenIsMeansEvery(cond.value, values);
      assert WhenHolds(cond, values) <==> forall i | 0 <= i < |keys| :: StrictEq(values[i], cond.value);
    }
  }

  /** `when(key, {is: v, …})` on one key, with the object being validated as
      the context: it hands over to `then` exactly when that key's field is
      `===` to `v`, and to `otherwise` if not. */
  lemma WhenKeyMeans(env: Env, mode: Mode, kind: LeafKind, key: string, v: Value,
                     whenTrue: Node, whenFalse: Node, entry: Value, fields: map<string, Value>)
    ensures Eval(env, mode, kind, WhenKey(key, Is(v), whenTrue, whenFalse), entry, Scope(fields))
            == Delegate(if StrictEq(Get(fields, key), v) then whenTrue else whenFalse)
  {
    WhenPicksBranch([key], Is(v), whenTrue, whenFalse, Scope(fields));
    assert Utils.ResolveKeys([key], Scope(fields)) == [Get(fields, key)];
    assert Eval(env, mode, kind, WhenKey(key, Is(v), whenTrue, whenFalse), entry, Scope(fields))
        == WhenOutcome([key], Is(v), whenTrue, whenFalse, Scope(fields));
  }

  /** `when(key, {is: p, …})` with a predicate: it hands over to `then`
      exactly when `p` holds of the one-element list of that key's field. */
  lemma WhenKeyPredicate(env: Env, mode: Mode, kind: LeafKind, key: string, p: seq<Value> -> bool,
                         whenTrue: Node, whenFalse: Node, entry: Value, fields: map<string, Value>)
    ensures Eval(env, mode, kind, WhenKey(key, Holds(p), whenTrue, whenFalse), entry, Scope(fields))
            == Delegate(if p([Get(fields, key)]) then whenTrue else whenFalse)
  {
    var values := Utils.ResolveKeys([key], Scope(fields));
    assert values == [Get(fields, key)];
    assert WhenHolds(Holds(p), values) == p([Get(fields, key)]);
    assert Eval(env, mode, kind, WhenKey(key, Holds(p), whenTrue, whenFalse), entry, Scope(fields))
        == WhenOutcome([key], Holds(p), whenTrue, whenFalse, Scope(fields));
  }

  /** Without a context, `when(key, …)` compares the key's own name. */
  lemma WhenKeyWithoutContext(env: Env, mode: Mode, kind: LeafKind, key: string, v: Value,
                              whenTrue: Node, whenFalse: Node, entry: Value)
    ensures Eval(env, mode, kind, WhenKey(key, Is(v), whenTrue, whenFalse), entry, NoContext)
            == Delegate(if StrictEq(Str(key), v) then whenTrue else whenFalse)
  {
    WhenPicksBranch([key], Is(v), whenTrue, whenFalse, NoContext);
    assert Utils.ResolveKeys([key], NoContext) == [Str(key)];
    assert Eval(env, mode, kind, WhenKey(key, Is(v), whenTrue, whenFalse), entry, NoContext)
        == WhenOutcome([key], Is(v), whenTrue, whenFalse, NoContext);
  }

  /** `oneOf` of the primitive with delegation: undefined always passes;
      any other entry fails exactly when no resolved option is `===` to it.
      A lone reference stands for the whole list held by that field, and
      without a context it cannot be resolved at all. */
  lemma OneOfCharacterised(env: Env, options: Options, msg: string, entry: Value, ctx: Context)
    requires msg != ""
    ensures entry.Undefined? ==> OneOfOutcome(env, options, msg, entry, ctx).Pass?
    ensures !entry.Undefined? && options.OptionList? ==>
              (Stops(OneOfOutcome(env, options, msg, entry, ctx))
               <==> forall i | 0 <= i < |options.choices| :: !ChoiceHits(options.choices[i], ctx, entry))
    ensures !entry.Undefined? && options.OptionsRef? && ctx.Scope? && Get(ctx.fields, options.key).Arr? ==>
              (Stops(OneOfOutcome(env, options, msg, entry, ctx))
               <==> IndexOf(Get(ctx.fields, options.key).elems, entry) == -1)
    ensures !entry.Undefined? && options.OptionsRef? && ctx.NoContext? ==>
              OneOfOutcome(env, options, msg, entry, ctx).Fault?
  {
    if options.OptionList? {
      ListedMeans(options.choices, ctx, entry);
    }
  }

  /** `notOneOf` fails exactly when some resolved option is `===` to the
      entry, with no exemption for undefined. */
  lemma NotOneOfCharacterised(env: Env, mode: Mode, kind: LeafKind, choices: seq<Choice>, msg: string, entry: Value, ctx: Context)
    requires msg != ""
    ensures Stops(Eval(env, mode, kind, NotOneOf(choices, msg), entry, ctx))
            <==> exists i | 0 <= i < |choices| :: ChoiceHits(choices[i], ctx, entry)
    ensures Stops(Eval(env, mode, kind, NotOneOf([Literal(Undefined)], msg), Undefined, ctx))
  {
    assert Eval(env, mode, kind, NotOneOf(choices, msg), entry, ctx) == Flag(Listed(ResolveAll(choices, ctx), entry), msg);
    ListedMeans(choices, ctx, entry);
    ListedMeans([Literal(Undefined)], ctx, Undefined);
    assert ChoiceHits([Literal(Undefined)][0], ctx, Undefined);
    assert Eval(env, mode, kind, NotOneOf([Literal(Undefined)], msg), Undefined, ctx)
        == Flag(Listed(ResolveAll([Literal(Undefined)], ctx), Undefined), msg);
  }
}
