/**
 * Validators as data.  Each rule a builder method appends is a `Rule`
 * constructor; a validator is a `Node` holding its rules in insertion order.
 * User callbacks (`test`, the `every`/`some` predicates, a `when` predicate,
 * a regular expression's `test`) are function-valued fields.
 */
module Schema {
  import opened JsValues
  import opened Refs

  /** The primitive validators.  `Generic` is the plain primitive (its
      `isEmpty` is the nil test, its type tag 'undefined'); the others are
      the typed validators with their coercion hooks.  The number and date
      validators carry the message their coercion returns on an unreadable
      entry. */
  datatype LeafKind =
    | Generic
    | StringLeaf
    | NumberLeaf(invalid: string)
    | BooleanLeaf
    | DateLeaf(invalid: string)

  /** The option list of the `oneOf` of the primitive with delegation: a list
      of literals and references, or one reference naming the whole list. */
  datatype Options = OptionList(choices: seq<Choice>) | OptionsRef(key: string)

  /** The `is` of `when`: a value every key must be `===` to, or a predicate
      on the key values in key order. */
  datatype Condition = Is(value: Value) | Holds(pred: seq<Value> -> bool)

  datatype Rule =
      // required/oneOf of the primitive without delegation and of the arrays
    | Required(msg: string)
    | OneOfListed(choices: seq<Choice>, msg: string)
      // the primitive with delegation
    | RequiredNonEmpty(msg: string)
    | NotAllowed(msg: string)
    | OneOf(options: Options, msg: string)
    | NotOneOf(choices: seq<Choice>, msg: string)
    | When(keys: seq<string>, cond: Condition, whenTrue: Node, whenFalse: Node)
    | Test(check: (Value, Context) -> Option<string>)
      // strings
    | Matches(test: string -> bool, msg: string)
    | LongerThan(length: real, msg: string)
    | ShorterThan(length: real, msg: string)
    | LengthAtLeast(length: real, msg: string)
    | LengthAtMost(length: real, msg: string)
      // numbers
    | Integer(msg: string)
    | GreaterThan(size: real, msg: string)
    | LessThan(size: real, msg: string)
    | AtLeast(size: real, msg: string)
    | AtMost(size: real, msg: string)
      // booleans
    | IsTrue(msg: string)
    | IsFalse(msg: string)
      // dates
    | Before(bound: Choice, msg: string)
    | After(bound: Choice, msg: string)
      // arrays
    | Of(element: Node, msg: string)
    | OfAsync(element: Node, msg: string)
    | MinLength(length: real, msg: string)
    | MaxLength(length: real, msg: string)
    | MustContain(value: Value, msg: string)
    | HasOnly(values: seq<Value>, msg: string)
    | EveryElement(pred: Value -> bool, msg: string)
    | SomeElement(pred: Value -> bool, msg: string)

  /** The object-level rules. */
  datatype ObjectRule = NoUnknown(msg: string)

  datatype Node =
    | Leaf(kind: LeafKind, rules: seq<Rule>)
    | List(rules: seq<Rule>)
    | Record(shape: map<string, Node>, checks: seq<ObjectRule>)

  /** What one rule returns: nothing, a message, a validator to delegate to,
      a promise (the `ofAsync` rule run synchronously), or an exception. */
  datatype Outcome = Pass | Error(msg: string) | Delegate(target: Node) | Pending | Fault

  /** What `validate` returns: undefined, a message, an object validator's
      map of field errors, some other truthy non-string value (a validator or
      a promise a rule handed back), or an exception. */
  datatype Verdict = Valid | Message(msg: string) | Fields(errors: map<string, string>) | Other | Thrown

  /** Whether a rule's outcome ends the chain: anything truthy. */
  predicate Stops(o: Outcome) {
    !o.Pass? && !(o.Error? && o.msg == "")
  }

  /** Whether a validation result is truthy, as `find` and `if (error)` see it. */
  predicate Fails(v: Verdict) {
    match v
    case Valid => false
    case Message(m) => m != ""
    case Fields(_) => true
    case Other => true
    case Thrown => false
  }

  /** `getType()`; `None` where the validator has no such method.  Every
      typed validator reports the `typeof` of the values it accepts (the
      number validator included, which as written inherits 'undefined');
      the plain primitive reports 'undefined'. */
  function TypeTag(n: Node): (r: Option<string>)
    ensures r.None? <==> n.Record?
    ensures n.Leaf? && n.kind.Generic? ==> r == Some(TypeOf(Undefined))
    ensures n.Leaf? && n.kind.StringLeaf? ==> forall s :: r == Some(TypeOf(Str(s)))
    ensures n.Leaf? && n.kind.NumberLeaf? ==> r == Some(TypeOf(NaN)) && forall x :: r == Some(TypeOf(Num(x)))
    ensures n.Leaf? && n.kind.BooleanLeaf? ==> forall b :: r == Some(TypeOf(Bool(b)))
    ensures n.Leaf? && n.kind.DateLeaf? ==> forall t :: r == Some(TypeOf(DateVal(t)))
    ensures n.List? ==> forall id, elems :: r == Some(TypeOf(Arr(id, elems)))
  {
    match n
    case Leaf(kind, _) =>
      Some(match kind
           case Generic => "undefined"
           case StringLeaf => "string"
           case NumberLeaf(_) => "number"
           case BooleanLeaf => "boolean"
           case DateLeaf(_) => "object")
    case List(_) => Some("object")
    case Record(_, _) => None
  }
}
