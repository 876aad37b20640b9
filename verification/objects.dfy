/**
 * The object validator (src/NopeObject.ts): building the shape (`shape`,
 * `extend`), the `noUnknown` object rule, and `validate`, which runs the
 * object rules before any field and then gathers the fields' string errors
 * into a map.
 */
module Objects {
  import opened JsValues
  import opened Refs
  import opened Schema
  import opened Engine
  import Primitive

  /** `shape(s)`: the keys of both, and `s`'s validator where both have one. */
  function Shape(n: Node, s: map<string, Node>): (r: Node)
    requires n.Record?
    ensures r.Record? && r.checks == n.checks
    ensures r.shape.Keys == n.shape.Keys + s.Keys
    ensures forall k | k in s :: r.shape[k] == s[k]
    ensures forall k | k in n.shape && k !in s :: r.shape[k] == n.shape[k]
  {
    Record(n.shape + s, n.checks)
  }

  /** `extend(base)`: the keys of both, and `base`'s validator where both
      have one; `base`'s object rules are not taken over. */
  function Extend(n: Node, base: Node): (r: Node)
    requires n.Record? && base.Record?
    ensures r.Record? && r.checks == n.checks
    ensures r.shape.Keys == n.shape.Keys + base.shape.Keys
    ensures forall k | k in base.shape :: r.shape[k] == base.shape[k]
    ensures forall k | k in n.shape && k !in base.shape :: r.shape[k] == n.shape[k]
  {
    Record(n.shape + base.shape, n.checks)
  }

  /** `noUnknown(message)`: one more object rule at the end, fields untouched. */
  function AddNoUnknown(n: Node, msg: string): (r: Node)
    requires n.Record?
    ensures r.Record? && r.shape == n.shape
    ensures |r.checks| == |n.checks| + 1 && r.checks[..|n.checks|] == n.checks && r.checks[|n.checks|] == NoUnknown(msg)
  {
    Record(n.shape, n.checks + [NoUnknown(msg)])
  }

  /** Extending by an object with the same shape changes nothing; applying
      `shape(s)` twice is applying it once. */
  lemma ShapeIdempotent(n: Node, s: map<string, Node>)
    requires n.Record?
    ensures Shape(Shape(n, s), s) == Shape(n, s)
    ensures Extend(n, n) == n
  {
  }

  /** The object validator runs synchronously through its own `validate`. */
  lemma RecordUnfold(env: Env, n: Node, entry: Value, ctx: Context)
    requires n.Record?
    ensures Validate(env, n, entry, ctx) == ValidateRecord(env, n, entry)
  {
  }

  /** The object rules from `i` on: on an empty shape the first of them
      throws; otherwise they let the fields through exactly when the entry
      has no unknown key or every remaining message is empty, and else the
      first non-empty message is the result. */
  lemma {:induction false} ObjectChecksMeans(shape: map<string, Node>, checks: seq<ObjectRule>, i: nat, entry: Value)
    requires i <= |checks|
    ensures shape == map[] && i < |checks| ==> ObjectChecks(shape, checks, i, entry) == Some(Thrown)
    ensures shape != map[] ==>
              (ObjectChecks(shape, checks, i, entry).None?
               <==> !HasUnknown(shape, entry) || forall j | i <= j < |checks| :: checks[j].msg == "")
    ensures shape != map[] && ObjectChecks(shape, checks, i, entry).Some? ==>
              exists j | i <= j < |checks| ::
                && checks[j].msg != ""
                && (forall l | i <= l < j :: checks[l].msg == "")
                && ObjectChecks(shape, checks, i, entry) == Some(Message(checks[j].msg))
    decreases |checks| - i
  {
    if i < |checks| && shape != map[] {
      ObjectChecksMeans(shape, checks, i + 1, entry);
      if !(HasUnknown(shape, entry) && checks[i].msg != "") {
        var r := ObjectChecks(shape, checks, i, entry);
        assert r == ObjectChecks(shape, checks, i + 1, entry);
        if r.Some? {
          var j :| i + 1 <= j < |checks| && checks[j].msg != "" && (forall l | i + 1 <= l < j :: checks[l].msg == "")
                   && r == Some(Message(checks[j].msg));
          assert forall l | i <= l < j :: checks[l].msg == "";
        }
      }
    }
  }

  /** `noUnknown` on an object validator: with no fields it is a
      configuration error that throws; otherwise it fails exactly on an
      entry with a key the shape lacks, before any field is looked at. */
  lemma NoUnknownValidation(env: Env, shape: map<string, Node>, msg: string, entry: Value)
    requires msg != ""
    ensures shape == map[] ==> Validate(env, Record(shape, [NoUnknown(msg)]), entry, NoContext) == Thrown
    ensures shape != map[] && HasUnknown(shape, entry) ==>
              Validate(env, Record(shape, [NoUnknown(msg)]), entry, NoContext) == Message(msg)
    ensures shape != map[] && !HasUnknown(shape, entry) ==>
              Validate(env, Record(shape, [NoUnknown(msg)]), entry, NoContext)
              == Validate(env, Record(shape, []), entry, NoContext)
  {
    ObjectChecksMeans(shape, [NoUnknown(msg)], 0, entry);
    RecordUnfold(env, Record(shape, [NoUnknown(msg)]), entry, NoContext);
    RecordUnfold(env, Record(shape, []), entry, NoContext);
  }

  /** An object rule that ends validation decides the verdict whatever the
      fields would say. */
  lemma ObjectRulesFirst(env: Env, n: Node, m: map<string, Node>, entry: Value, ctx: Context)
    requires n.Record? && ObjectChecks(n.shape, n.checks, 0, entry).Some?
    requires m.Keys == n.shape.Keys
    ensures Validate(env, n, entry, ctx) == Validate(env, Record(m, n.checks), entry, ctx)
    ensures Validate(env, n, entry, ctx).Message? || Validate(env, n, entry, ctx).Thrown?
  {
    ObjectChecksMeans(n.shape, n.checks, 0, entry);
    ObjectChecksMeans(m, n.checks, 0, entry);
    assert HasUnknown(n.shape, entry) == HasUnknown(m, entry);
    RecordUnfold(env, n, entry, ctx);
    RecordUnfold(env, Record(m, n.checks), entry, ctx);
  }

  /** The verdict of the field loop: an exception from any field propagates;
      otherwise the error map holds exactly the fields whose validator
      returned a non-empty string, with that string, and the verdict is
      undefined exactly when there is no such field. */
  lemma CollectMeans(results: map<string, Verdict>)
    ensures Collect(results).Thrown? <==> exists k | k in results :: results[k].Thrown?
    ensures Collect(results).Valid? <==>
              forall k | k in results :: !results[k].Thrown? && !(results[k].Message? && results[k].msg != "")
    ensures Collect(results).Fields? ==>
              && (forall k | k in Collect(results).errors :: k in results && results[k] == Message(Collect(results).errors[k]))
              && (forall k | k in results && results[k].Message? && results[k].msg != "" :: k in Collect(results).errors)
              && forall k | k in Collect(results).errors :: Collect(results).errors[k] != ""
    ensures Collect(results).Valid? || Collect(results).Thrown? || Collect(results).Fields?
  {
    if !exists k | k in results :: results[k].Thrown? {
      var e := ErrorMap(results);
      if e == map[] {
        forall k | k in results
          ensures !(results[k].Message? && results[k].msg != "")
        {
          assert k in e <==> results[k].Message? && results[k].msg != "";
        }
      } else {
        var k :| k in e;
        assert results[k].Message? && results[k].msg != "";
      }
    }
  }

  /** Each field's validator sees the field's value and the whole entry as
      its context. */
  lemma FieldsSeeTheEntry(env: Env, n: Node, id: nat, props: map<string, Value>)
    requires n.Record?
    ensures forall k | k in n.shape ::
              FieldResults(env, n, Obj(id, props))[k] == Validate(env, n.shape[k], Get(props, k), Scope(props))
  {
  }

  /** `validate` on an object whose rules let it through: a nil entry with
      fields throws (reading a property of undefined), and otherwise the
      verdict is gathered from the fields alone, so a nested object's map
      of errors or any non-string result of a field is dropped. */
  lemma RecordVerdict(env: Env, n: Node, entry: Value, ctx: Context)
    requires n.Record? && ObjectChecks(n.shape, n.checks, 0, entry).None?
    ensures n.shape != map[] && IsNil(entry) ==> Validate(env, n, entry, ctx) == Thrown
    ensures n.shape == map[] ==> Validate(env, n, entry, ctx) == Valid
    ensures !IsNil(entry) ==>
              (Validate(env, n, entry, ctx).Valid?
               <==> forall k | k in n.shape ::
                      var v := Run(env, Sync, n.shape[k], Prop(entry, k), AsContext(entry));
                      !v.Thrown? && !(v.Message? && v.msg != ""))
    ensures !IsNil(entry) && Validate(env, n, entry, ctx).Fields? ==>
              forall k | k in n.shape ::
                var v := Run(env, Sync, n.shape[k], Prop(entry, k), AsContext(entry));
                (k in Validate(env, n, entry, ctx).errors <==> v.Message? && v.msg != "")
  {
    RecordUnfold(env, n, entry, ctx);
    if n.shape == map[] {
      assert FieldResults(env, n, entry) == map[];
      assert ErrorMap(map[]) == map[];
    } else if !IsNil(entry) {
      var results := FieldResults(env, n, entry);
      CollectMeans(results);
    }
  }

  /** `key in this.objectShape` holds for the names every object inherits, so
      `noUnknown` lets `{a: 'x', constructor: 1}` through a shape of `a` alone. */
  lemma InheritedKeysAreKnown(env: Env, field: Node, msg: string, id: nat)
    requires msg != ""
    ensures Validate(env, Record(map["a" := field], [NoUnknown(msg)]), Obj(id, map["a" := Str("x"), "constructor" := Num(1.0)]), NoContext)
            == Validate(env, Record(map["a" := field], []), Obj(id, map["a" := Str("x"), "constructor" := Num(1.0)]), NoContext)
  {
    var entry := Obj(id, map["a" := Str("x"), "constructor" := Num(1.0)]);
    assert OwnKeys(entry) == {"a", "constructor"};
    assert !HasUnknown(map["a" := field], entry);
    assert "a" in map["a" := field];
    NoUnknownValidation(env, map["a" := field], msg, entry);
  }

  /** A key that is neither in the shape nor inherited is unknown:
      `{a: 'x', b: 1}` fails a shape of `a` alone with the `noUnknown` message. */
  lemma OwnExtraKeyIsUnknown(env: Env, field: Node, msg: string, id: nat)
    requires msg != ""
    ensures Validate(env, Record(map["a" := field], [NoUnknown(msg)]), Obj(id, map["a" := Str("x"), "b" := Num(1.0)]), NoContext)
            == Message(msg)
  {
    var entry := Obj(id, map["a" := Str("x"), "b" := Num(1.0)]);
    assert "b" in OwnKeys(entry) && "b" !in map["a" := field] && "b" !in InheritedNames;
    assert HasUnknown(map["a" := field], entry);
    assert "a" in map["a" := field];
    NoUnknownValidation(env, map["a" := field], msg, entry);
  }

  /** A number field below the bound of its `atLeast` reports the rule's message. */
  lemma NumberBelowBound(env: Env, invalid: string, msg: string, x: real, ctx: Context)
    requires msg != "" && x < 5.0
    ensures Run(env, Sync, Leaf(NumberLeaf(invalid), [AtLeast(5.0, msg)]), Num(x), ctx) == Message(msg)
  {
    var field := Leaf(NumberLeaf(invalid), [AtLeast(5.0, msg)]);
    assert Numbers.Prepare(env, Num(x), invalid) == Ready(Num(x));
    assert Step(env, Sync, field, 0, Num(x), ctx) == Error(msg);
    Primitive.OneRule(env, Sync, field, Num(x), ctx);
  }

  /** The one field `length` of a string entry reads the string's length. */
  lemma LengthFieldOfString(env: Env, invalid: string, msg: string)
    requires msg != ""
    ensures FieldResults(env, Record(map["length" := Leaf(NumberLeaf(invalid), [AtLeast(5.0, msg)])], []), Str("abc"))
            == map["length" := Message(msg)]
  {
    StringProps("abc");
    assert Prop(Str("abc"), "length") == Num(3.0);
    NumberBelowBound(env, invalid, msg, 3.0, AsContext(Str("abc")));
  }

  /** The fields of a string entry read its properties:
      `object().shape({length: number().atLeast(5)}).validate("abc")` reports
      the `length` field, which reads 3. */
  lemma StringEntryLength(env: Env, invalid: string, msg: string)
    requires msg != ""
    ensures Validate(env, Record(map["length" := Leaf(NumberLeaf(invalid), [AtLeast(5.0, msg)])], []), Str("abc"), NoContext)
            == Fields(map["length" := msg])
  {
    var n := Record(map["length" := Leaf(NumberLeaf(invalid), [AtLeast(5.0, msg)])], []);
    LengthFieldOfString(env, invalid, msg);
    var results := FieldResults(env, n, Str("abc"));
    assert ErrorMap(results) == map["length" := msg];
    assert !exists k | k in results :: results[k].Thrown?;
    assert "length" in ErrorMap(results);
    assert Collect(results) == Fields(map["length" := msg]);
    assert "length" in n.shape && ObjectChecks(n.shape, n.checks, 0, Str("abc")).None?;
    assert ValidateRecord(env, n, Str("abc")) == Collect(results);
    RecordUnfold(env, n, Str("abc"), NoContext);
  }
}
