/**
 * `validateAsync` against `validate` (benchmark/nopesrc/NopePrimitive.ts
 * and benchmark/nopesrc/NopeArray.ts): when no rule hands back a promise and
 * no validator coerces its entry, awaiting the rules changes nothing,
 * delegation included.
 */
module Async {
  import opened JsValues
  import opened Refs
  import opened Schema
  import opened Engine
  import Primitive

  /** A validator whose asynchronous validation is its synchronous one:
      plain primitives and arrays, with no `ofAsync` rule and only such
      validators behind their `when` rules. */
  predicate Synchronous(n: Node)
    decreases n, 1
  {
    match n
    case Leaf(kind, rules) => kind.Generic? && forall i | 0 <= i < |rules| :: SynchronousRule(rules[i])
    case List(rules) => forall i | 0 <= i < |rules| :: SynchronousRule(rules[i])
    case Record(_, _) => false
  }

  predicate SynchronousRule(rule: Rule)
    decreases rule, 0
  {
    match rule
    case OfAsync(_, _) => false
    case When(_, _, whenTrue, whenFalse) => Synchronous(whenTrue) && Synchronous(whenFalse)
    case _ => true
  }

  /** Awaiting a rule that returns no promise gives what calling it gives. */
  lemma EvalInEitherMode(env: Env, kind: LeafKind, rule: Rule, entry: Value, ctx: Context)
    requires !rule.OfAsync?
    ensures Eval(env, Async, kind, rule, entry, ctx) == Eval(env, Sync, kind, rule, entry, ctx)
  {
  }

  /** Rule `i` returns the same thing in both modes. */
  lemma StepInEitherMode(env: Env, n: Node, i: nat, entry: Value, ctx: Context)
    requires !n.Record? && i < |n.rules| && Synchronous(n)
    ensures Step(env, Async, n, i, entry, ctx) == Step(env, Sync, n, i, entry, ctx)
  {
    if n.Leaf? {
      EvalInEitherMode(env, n.kind, n.rules[i], entry, ctx);
    }
  }

  /** `validateAsync` of a synchronous validator is its `validate`. */
  lemma {:induction false} AsyncAgrees(env: Env, n: Node, entry: Value, ctx: Context)
    requires Synchronous(n)
    ensures ValidateAsync(env, n, entry, ctx) == Validate(env, n, entry, ctx)
    decreases n, 1
  {
    ChainAgrees(env, n, 0, entry, ctx);
    assert Run(env, Async, n, entry, ctx) == Chain(env, Async, n, 0, entry, ctx);
    assert Run(env, Sync, n, entry, ctx) == Chain(env, Sync, n, 0, entry, ctx);
  }

  /** The rule loop from `i` on gives the same verdict in both modes. */
  lemma {:induction false} ChainAgrees(env: Env, n: Node, i: nat, entry: Value, ctx: Context)
    requires !n.Record? && i <= |n.rules| && Synchronous(n)
    ensures Chain(env, Async, n, i, entry, ctx) == Chain(env, Sync, n, i, entry, ctx)
    decreases n, 0, |n.rules| - i
  {
    if i < |n.rules| {
      StepInEitherMode(env, n, i, entry, ctx);
      var o := Step(env, Sync, n, i, entry, ctx);
      Primitive.ChainUnfold(env, Async, n, i, entry, ctx);
      Primitive.ChainUnfold(env, Sync, n, i, entry, ctx);
      if !Stops(o) {
        ChainAgrees(env, n, i + 1, entry, ctx);
      } else if o.Delegate? && o.target.Leaf? {
        assert SynchronousRule(n.rules[i]);
        assert Synchronous(o.target);
        AsyncAgrees(env, o.target, entry, ctx);
      }
    }
  }
}
