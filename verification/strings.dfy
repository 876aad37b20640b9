/**
 * The rule bodies of the string validator (src/NopeString.ts): its coercion,
 * its emptiness test (whitespace-only counts as empty) and the regex and
 * length rules.  Each `Fails…` predicate holds exactly when the rule returns
 * its message.  Lengths count characters.
 */
module Strings {
  import opened JsValues
  import opened Refs

  /** The characters `String.prototype.trim` removes: ECMAScript white space and line terminators. */
  predicate IsWhitespace(c: char) {
    || c == '\t' || c == '\n' || c == '\U{000B}' || c == '\U{000C}' || c == '\r' || c == ' '
    || c == '\U{00A0}' || c == '\U{1680}' || ('\U{2000}' <= c <= '\U{200A}')
    || c == '\U{2028}' || c == '\U{2029}' || c == '\U{202F}' || c == '\U{205F}'
    || c == '\U{3000}' || c == '\U{FEFF}'
  }

  /** Every character is white space (the empty string included). */
  predicate IsBlank(s: string) {
    forall i | 0 <= i < |s| :: IsWhitespace(s[i])
  }

  function TrimStart(s: string): string {
    if |s| > 0 && IsWhitespace(s[0]) then TrimStart(s[1..]) else s
  }

  function TrimEnd(s: string): string {
    if |s| > 0 && IsWhitespace(s[|s| - 1]) then TrimEnd(s[..|s| - 1]) else s
  }

  /** `s.trim()` */
  function Trim(s: string): string {
    TrimEnd(TrimStart(s))
  }

  lemma {:induction false} TrimStartShape(s: string)
    ensures TrimStart(s) == "" <==> IsBlank(s)
    ensures TrimStart(s) != "" ==> !IsWhitespace(TrimStart(s)[0])
  {
    if |s| > 0 && IsWhitespace(s[0]) {
      TrimStartShape(s[1..]);
      assert forall i | 1 <= i < |s| :: s[i] == s[1..][i - 1];
    }
  }

  lemma {:induction false} TrimEndKeepsLeadingText(t: string)
    requires t != "" && !IsWhitespace(t[0])
    ensures TrimEnd(t) != ""
  {
    if IsWhitespace(t[|t| - 1]) {
      TrimEndKeepsLeadingText(t[..|t| - 1]);
    }
  }

  /** `s.trim().length === 0` exactly when `s` is all white space. */
  lemma TrimEmptyIffBlank(s: string)
    ensures |Trim(s)| == 0 <==> IsBlank(s)
  {
    TrimStartShape(s);
    if TrimStart(s) != "" {
      TrimEndKeepsLeadingText(TrimStart(s));
    }
  }

  /** `isEmpty(value)`: nil, or a string form that trims to nothing. */
  predicate IsEmpty(env: Env, v: Value) {
    IsNil(v) || |Trim(ToJsString(env, v))| == 0
  }

  lemma IsEmptyMeansBlank(env: Env, v: Value)
    ensures IsEmpty(env, v) <==> IsNil(v) || IsBlank(ToJsString(env, v))
  {
    TrimEmptyIffBlank(ToJsString(env, v));
  }

  /** `!!entry ? String(entry) : entry` */
  function Coerce(env: Env, v: Value): Value {
    if Truthy(v) then Str(ToJsString(env, v)) else v
  }

  /** `regex(re)`: a non-empty entry whose string form the pattern rejects. */
  predicate FailsRegex(env: Env, v: Value, test: string -> bool) {
    !IsEmpty(env, v) && !test(ToJsString(env, v))
  }

  /** `greaterThan(length)` (alias `min`): fails when `value.length <= length`. */
  predicate FailsGreaterThan(env: Env, v: Value, length: real) {
    !IsEmpty(env, v) && LengthOf(env, v).Some? && LengthOf(env, v).value <= length
  }

  /** `lessThan(length)` (alias `max`): fails when `value.length >= length`. */
  predicate FailsLessThan(env: Env, v: Value, length: real) {
    !IsEmpty(env, v) && LengthOf(env, v).Some? && LengthOf(env, v).value >= length
  }

  /** `atLeast(length)`: fails when `value.length < length`. */
  predicate FailsAtLeast(env: Env, v: Value, length: real) {
    !IsEmpty(env, v) && LengthOf(env, v).Some? && LengthOf(env, v).value < length
  }

  /** `atMost(length)`: fails when `value.length > length`. */
  predicate FailsAtMost(env: Env, v: Value, length: real) {
    !IsEmpty(env, v) && LengthOf(env, v).Some? && LengthOf(env, v).value > length
  }

  /** On a string entry the four length rules compare its length, exclusively
      for `greaterThan`/`lessThan` and inclusively for `atLeast`/`atMost`;
      a blank string passes them all. */
  lemma LengthRulesOnStrings(env: Env, s: string, n: real)
    ensures FailsGreaterThan(env, Str(s), n) <==> !IsBlank(s) && |s| as real <= n
    ensures FailsLessThan(env, Str(s), n) <==> !IsBlank(s) && |s| as real >= n
    ensures FailsAtLeast(env, Str(s), n) <==> !IsBlank(s) && (|s| as real) < n
    ensures FailsAtMost(env, Str(s), n) <==> !IsBlank(s) && (|s| as real) > n
  {
    IsEmptyMeansBlank(env, Str(s));
  }

  /** Undefined, null and all-white-space strings pass every length rule and every regex. */
  lemma EmptyEntriesPass(env: Env, v: Value, n: real, test: string -> bool)
    requires IsNil(v) || (v.Str? && IsBlank(v.s))
    ensures !FailsRegex(env, v, test)
    ensures !FailsGreaterThan(env, v, n) && !FailsLessThan(env, v, n)
    ensures !FailsAtLeast(env, v, n) && !FailsAtMost(env, v, n)
  {
    IsEmptyMeansBlank(env, v);
  }

  /** Coercion turns every truthy entry into its string form and leaves falsy
      entries (undefined, null, false, 0, NaN, "") alone; a string is its own
      string form. */
  lemma CoercionShape(env: Env, v: Value)
    ensures Truthy(v) ==> Coerce(env, v).Str? && Coerce(env, v).s == ToJsString(env, v)
    ensures !Truthy(v) ==> Coerce(env, v) == v
    ensures v.Str? ==> Coerce(env, v) == v
    ensures Coerce(env, Coerce(env, v)) == Coerce(env, v)
  {
  }
}
