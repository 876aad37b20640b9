/**
 * The validation engine: what one rule returns (`Eval`), the rule chain of
 * a primitive or array validator (`Chain`, first truthy result wins, a
 * returned validator takes over), the object validator (object rules, then
 * every field), and the asynchronous variant (`Run` in `Async` mode).
 *
 * Sources: benchmark/nopesrc/NopePrimitive.ts (`validate`, `validateAsync`,
 * `isEmpty`, the rules with delegation), src/NopePrimitive.ts (`required`,
 * `oneOf` without delegation), src/NopeObject.ts, src/NopeArray.ts and
 * benchmark/nopesrc/NopeArray.ts, and the typed validators' `validate`
 * overrides.
 */
module Engine {
  import opened JsValues
  import opened Refs
  import opened Schema
  import opened ArrayChecks
  import Utils
  import Strings
  import Numbers
  import Booleans
  import Dates

  /** `validate` or `validateAsync`. */
  datatype Mode = Sync | Async

  /** The element validations of `of` (synchronous) and `ofAsync`'s fold
      (asynchronous), in array order, up to the first truthy result. */
  datatype ScanResult = AllPass | FailsAt(index: nat) | ThrowsAt(index: nat)

  /** A validation result that neither is truthy nor throws. */
  predicate Passing(v: Verdict) {
    !Fails(v) && !v.Thrown?
  }

  /** The coercion a typed validator's `validate` applies before the rules. */
  function Prepare(env: Env, kind: LeafKind, entry: Value): Prepared {
    match kind
    case Generic => Ready(entry)
    case StringLeaf => Ready(Strings.Coerce(env, entry))
    case NumberLeaf(invalid) => Numbers.Prepare(env, entry, invalid)
    case BooleanLeaf => Ready(Booleans.Coerce(entry))
    case DateLeaf(invalid) => Dates.Prepare(env, entry, invalid)
  }

  /** `this.isEmpty(entry)`: only the string validator overrides the nil test. */
  predicate IsEmpty(env: Env, kind: LeafKind, entry: Value) {
    if kind.StringLeaf? then Strings.IsEmpty(env, entry) else IsNil(entry)
  }

  /** `(val) => val === v` */
  function EqualTo(v: Value): Value -> bool {
    x => StrictEq(x, v)
  }

  /** Which branch `when` takes on the resolved key values. */
  predicate WhenHolds(cond: Condition, values: seq<Value>) {
    match cond
    case Is(v) => Utils.Every(values, EqualTo(v))
    case Holds(p) => p(values)
  }

  /** `when(keys, {is, then, otherwise})`: hands over to one branch. */
  function WhenOutcome(keys: seq<string>, cond: Condition, whenTrue: Node, whenFalse: Node, ctx: Context): (r: Outcome)
    ensures r.Delegate? && (r.target == whenTrue || r.target == whenFalse)
  {
    if WhenHolds(cond, Utils.ResolveKeys(keys, ctx)) then Delegate(whenTrue) else Delegate(whenFalse)
  }

  function Flag(failed: bool, msg: string): Outcome {
    if failed then Error(msg) else Pass
  }

  function FromCheck(c: Check, msg: string): Outcome {
    match c
    case Hit => Pass
    case Miss => Error(msg)
    case Crash => Fault
  }

  /** `oneOf` of the primitive with delegation: an undefined entry passes; a
      lone reference stands for the whole option list, which must then be
      something with an `indexOf`. */
  function OneOfOutcome(env: Env, options: Options, msg: string, entry: Value, ctx: Context): Outcome {
    if entry.Undefined? then Pass
    else
      match options
      case OptionList(cs) => Flag(!Listed(ResolveAll(cs, ctx), entry), msg)
      case OptionsRef(key) =>
        if ctx.NoContext? then Fault else FromCheck(Contains(env, Get(ctx.fields, key), entry), msg)
  }

  /** The checks `of` and `ofAsync` share before any element is validated:
      `None` when they let the elements through to validation. */
  function ElementGate(entry: Value, element: Node, msg: string): (r: Option<Outcome>)
    ensures r.None? <==> && entry.Arr? && |entry.elems| > 0 && TypeTag(element).Some?
                         && !SomeMistyped(entry.elems, TypeTag(element).value)
    ensures r == Some(Error(msg)) ==> entry.Arr? && TypeTag(element).Some? && SomeMistyped(entry.elems, TypeTag(element).value)
  {
    if IsNil(entry) then Some(Pass)
    else if !entry.Arr? then Some(Fault)
    else if |entry.elems| == 0 then Some(Pass)
    else
      match TypeTag(element)
      case None => Some(Fault)
      case Some(tag) => if SomeMistyped(entry.elems, tag) then Some(Error(msg)) else None
  }

  /** What `of`/`ofAsync` returns once the elements' validations have been scanned. */
  function FromScan(s: ScanResult, msg: string): Outcome {
    match s
    case AllPass => Pass
    case FailsAt(_) => Error(msg)
    case ThrowsAt(_) => Fault
  }

  /** What `rule` returns for `entry` in a validator of the given kind.  In
      `Async` mode the promise of `ofAsync` is awaited. */
  function Eval(env: Env, mode: Mode, kind: LeafKind, rule: Rule, entry: Value, ctx: Context): (r: Outcome)
    ensures r.Delegate? ==> rule.When? && (r.target == rule.whenTrue || r.target == rule.whenFalse)
    ensures r.Pending? ==> rule.OfAsync? && mode.Sync?
    decreases rule, 2
  {
    match rule
    case When(keys, cond, whenTrue, whenFalse) => WhenOutcome(keys, cond, whenTrue, whenFalse, ctx)
    case Of(element, msg) =>
      (match ElementGate(entry, element, msg)
       case Some(o) => o
       case None => FromScan(Scan(env, Sync, element, entry.elems, 0), msg))
    case OfAsync(element, msg) =>
      (match ElementGate(entry, element, msg)
       case Some(o) => o
       case None =>
         if mode.Sync? then Pending else FromScan(Scan(env, Async, element, entry.elems, 0), msg))
    case Required(msg) => Flag(IsNil(entry), msg)
    case OneOfListed(cs, msg) => Flag(!Listed(ResolveAll(cs, ctx), entry), msg)
    case RequiredNonEmpty(msg) => Flag(IsEmpty(env, kind, entry), msg)
    case NotAllowed(msg) => Flag(!IsEmpty(env, kind, entry), msg)
    case OneOf(options, msg) => OneOfOutcome(env, options, msg, entry, ctx)
    case NotOneOf(cs, msg) => Flag(Listed(ResolveAll(cs, ctx), entry), msg)
    case Test(check) =>
      (match check(entry, ctx)
       case None => Pass
       case Some(m) => Error(m))
    case Matches(test, msg) => Flag(Strings.FailsRegex(env, entry, test), msg)
    case LongerThan(length, msg) => Flag(Strings.FailsGreaterThan(env, entry, length), msg)
    case ShorterThan(length, msg) => Flag(Strings.FailsLessThan(env, entry, length), msg)
    case LengthAtLeast(length, msg) => Flag(Strings.FailsAtLeast(env, entry, length), msg)
    case LengthAtMost(length, msg) => Flag(Strings.FailsAtMost(env, entry, length), msg)
    case Integer(msg) => Flag(Numbers.FailsInteger(env, entry), msg)
    case GreaterThan(size, msg) => Flag(Numbers.FailsGreaterThan(env, entry, size), msg)
    case LessThan(size, msg) => Flag(Numbers.FailsLessThan(env, entry, size), msg)
    case AtLeast(size, msg) => Flag(Numbers.FailsAtLeast(env, entry, size), msg)
    case AtMost(size, msg) => Flag(Numbers.FailsAtMost(env, entry, size), msg)
    case IsTrue(msg) => Flag(Booleans.FailsTrue(entry), msg)
    case IsFalse(msg) => Flag(Booleans.FailsFalse(entry), msg)
    case Before(bound, msg) => Flag(Dates.FailsBefore(env, entry, Resolve(bound, ctx)), msg)
    case After(bound, msg) => Flag(Dates.FailsAfter(env, entry, Resolve(bound, ctx)), msg)
    case MinLength(length, msg) =>
      Flag(!IsNil(entry) && LengthOf(env, entry).Some? && LengthOf(env, entry).value <= length, msg)
    case MaxLength(length, msg) =>
      Flag(!IsNil(entry) && LengthOf(env, entry).Some? && LengthOf(env, entry).value >= length, msg)
    case MustContain(value, msg) =>
      if IsNil(entry) then Pass else FromCheck(Contains(env, entry, value), msg)
    case HasOnly(values, msg) =>
      if IsNil(entry) then Pass
      else if !entry.Arr? then Fault
      else Flag(SomeUnmatched(entry.elems, values), msg)
    case EveryElement(pred, msg) =>
      if IsNil(entry) then Pass
      else if !entry.Arr? then Fault
      else Flag(SomeViolates(entry.elems, pred), msg)
    case SomeElement(pred, msg) =>
      if IsNil(entry) || StrictEq(Prop(entry, "length"), Num(0.0)) then Pass
      else if !entry.Arr? then Fault
      else Flag(!SomeSatisfies(entry.elems, pred), msg)
  }

  /** Validates `elems[i..]` against `element` without a context, stopping at
      the first truthy result or exception. */
  function Scan(env: Env, mode: Mode, element: Node, elems: seq<Value>, i: nat): (r: ScanResult)
    requires i <= |elems|
    ensures r.AllPass? ==> forall j | i <= j < |elems| :: Passing(Run(env, mode, element, elems[j], NoContext))
    ensures r.FailsAt? ==> i <= r.index < |elems| && Fails(Run(env, mode, element, elems[r.index], NoContext))
    ensures r.ThrowsAt? ==> i <= r.index < |elems| && Run(env, mode, element, elems[r.index], NoContext).Thrown?
    ensures !r.AllPass? ==> forall j | i <= j < r.index :: Passing(Run(env, mode, element, elems[j], NoContext))
    decreases element, 2, |elems| - i
  {
    if i == |elems| then AllPass
    else
      var v := Run(env, mode, element, elems[i], NoContext);
      if v.Thrown? then ThrowsAt(i)
      else if Fails(v) then FailsAt(i)
      else Scan(env, mode, element, elems, i + 1)
  }

  /** The outcome of rule `i` of a primitive or array validator.  Array
      validators run their rules synchronously in both modes. */
  function Step(env: Env, mode: Mode, n: Node, i: nat, entry: Value, ctx: Context): (r: Outcome)
    requires !n.Record? && i < |n.rules|
    ensures r.Delegate? ==> r.target < n
    decreases n, 0, 0
  {
    var kind := if n.Leaf? then n.kind else Generic;
    Eval(env, if n.Leaf? then mode else Sync, kind, n.rules[i], entry, ctx)
  }

  /** A truthy non-string a rule returned: a primitive validator hands it
      back as it is, an array validator returns its string form. */
  function Returned(n: Node, text: string): Verdict {
    if n.List? then Message(text) else Other
  }

  /** The `for … of validationRules` loop from rule `i` on.  Whatever a rule
      or a validator it hands over to returns, the loop never yields a map of
      field errors. */
  function Chain(env: Env, mode: Mode, n: Node, i: nat, entry: Value, ctx: Context): (r: Verdict)
    requires !n.Record? && i <= |n.rules|
    ensures !r.Fields?
    decreases n, 0, |n.rules| - i + 1
  {
    if i == |n.rules| then Valid
    else
      match Step(env, mode, n, i, entry, ctx)
      case Pass => Chain(env, mode, n, i + 1, entry, ctx)
      case Error(msg) => if msg == "" then Chain(env, mode, n, i + 1, entry, ctx) else Message(msg)
      case Delegate(target) =>
        if target.Leaf? then Run(env, mode, target, entry, ctx) else Returned(n, "[object Object]")
      case Pending => Returned(n, "[object Promise]")
      case Fault => Thrown
  }

  /** `validate(entry, context)` (`Sync`) or `validateAsync(entry, context)`
      (`Async`).  Only an object validator yields a map of field errors, and
      such a map names fields of its shape, each with a non-empty message. */
  function Run(env: Env, mode: Mode, n: Node, entry: Value, ctx: Context): (r: Verdict)
    ensures r.Fields? ==> && n.Record? && r.errors != map[]
                          && forall k | k in r.errors :: k in n.shape && r.errors[k] != ""
    decreases n, 1
  {
    match n
    case Leaf(kind, _) =>
      if mode.Async? then Chain(env, mode, n, 0, entry, ctx)
      else
        (match Prepare(env, kind, entry)
         case Halt(msg) => Message(msg)
         case Ready(v) => Chain(env, mode, n, 0, v, ctx))
    case List(_) => Chain(env, mode, n, 0, entry, ctx)
    case Record(_, _) => if mode.Async? then Thrown else ValidateRecord(env, n, entry)
  }

  function Validate(env: Env, n: Node, entry: Value, ctx: Context): Verdict {
    Run(env, Sync, n, entry, ctx)
  }

  function ValidateAsync(env: Env, n: Node, entry: Value, ctx: Context): Verdict {
    Run(env, Async, n, entry, ctx)
  }

  /** `!(key in shape)` for some key `for (const key in entry)` visits: the
      key is neither declared by the shape nor inherited by every object. */
  predicate HasUnknown(shape: map<string, Node>, entry: Value) {
    exists k | k in OwnKeys(entry) :: k !in shape && k !in InheritedNames
  }

  /** The object-level rules from rule `i` on: `Some` result when one ends
      validation, `None` when all of them let the fields through. */
  function ObjectChecks(shape: map<string, Node>, checks: seq<ObjectRule>, i: nat, entry: Value): (r: Option<Verdict>)
    requires i <= |checks|
    ensures r == Some(Thrown) <==> shape == map[] && i < |checks|
    ensures r.Some? && !r.value.Thrown? ==>
              && r.value.Message? && r.value.msg != "" && HasUnknown(shape, entry)
              && exists j | i <= j < |checks| :: checks[j] == NoUnknown(r.value.msg)
    decreases |checks| - i
  {
    if i == |checks| then None
    else
      match checks[i]
      case NoUnknown(msg) =>
        if shape == map[] then Some(Thrown)
        else if HasUnknown(shape, entry) && msg != "" then Some(Message(msg))
        else ObjectChecks(shape, checks, i + 1, entry)
  }

  /** `rule.validate(entry[key], entry)` for every key of the shape. */
  function FieldResults(env: Env, n: Node, entry: Value): (r: map<string, Verdict>)
    requires n.Record? && (n.shape == map[] || !IsNil(entry))
    ensures r.Keys == n.shape.Keys
    decreases n, 0, 0
  {
    map k | k in n.shape :: Run(env, Sync, n.shape[k], Prop(entry, k), AsContext(entry))
  }

  /** The fields whose validator returned a non-empty string, with that string. */
  function ErrorMap(results: map<string, Verdict>): map<string, string> {
    map k | k in results && results[k].Message? && results[k].msg != "" :: results[k].msg
  }

  /** The object validator's result once every field has been validated: a
      map of errors is never empty and holds each failing field's own message. */
  function Collect(results: map<string, Verdict>): (r: Verdict)
    ensures r.Valid? || r.Thrown? || r.Fields?
    ensures r.Fields? ==> && r.errors != map[]
                          && forall k | k in r.errors :: k in results && results[k] == Message(r.errors[k]) && r.errors[k] != ""
  {
    if exists k | k in results :: results[k].Thrown? then Thrown
    else if ErrorMap(results) == map[] then Valid
    else Fields(ErrorMap(results))
  }

  /** `NopeObject.validate(entry)`: the object rules first, then the fields. */
  function ValidateRecord(env: Env, n: Node, entry: Value): (r: Verdict)
    requires n.Record?
    ensures !r.Other?
    ensures r.Message? ==> r.msg != "" && HasUnknown(n.shape, entry) && exists j | 0 <= j < |n.checks| :: n.checks[j] == NoUnknown(r.msg)
    ensures r.Fields? ==> r.errors != map[] && forall k | k in r.errors :: k in n.shape && r.errors[k] != ""
    decreases n, 0, 1
  {
    match ObjectChecks(n.shape, n.checks, 0, entry)
    case Some(v) => v
    case None =>
      if n.shape != map[] && IsNil(entry) then Thrown
      else Collect(FieldResults(env, n, entry))
  }
}
