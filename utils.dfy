/**
 * The Underscore mixins and the callback insulator of the shared utility
 * module: argument-validation predicates used by the classifier adapter and
 * the scripts, case conversion, and `safeCallback`.
 */
module Utils {
  import opened Js
  import Text

  /** `_.isNonEmptyString`: a string with at least one character. */
  predicate IsNonEmptyString(v: JsValue)
    ensures IsNonEmptyString(v) <==> v.Str? && |v.s| > 0
  {
    IsString(v) && !IsEmpty(v)
  }

  /**
   * `_.isNonEmptyObject`: an object that is not an array and has an own
   * enumerable key. Functions, Error instances and classifier instances have
   * none, so only plain objects with a property qualify.
   */
  predicate IsNonEmptyObject(v: JsValue)
    ensures IsNonEmptyObject(v) <==> v.Obj? && |v.props| > 0
    ensures IsNonEmptyObject(v) ==> IsObject(v) && !IsArray(v)
  {
    IsObject(v) && !IsArray(v) && !IsEmpty(v)
  }

  /** `_.isNonEmptyArray`: an array with at least one element. */
  predicate IsNonEmptyArray(v: JsValue)
    ensures IsNonEmptyArray(v) <==> v.Arr? && |v.items| > 0
  {
    IsArray(v) && !IsEmpty(v)
  }

  /** The four letters of "true", each in either case. */
  predicate SpellsTrue(s: string) {
    |s| == 4 && (s[0] == 't' || s[0] == 'T') && (s[1] == 'r' || s[1] == 'R')
    && (s[2] == 'u' || s[2] == 'U') && (s[3] == 'e' || s[3] == 'E')
  }

  /**
   * `_.isTrueParam`: a string is true when it reads "true" in any mix of
   * cases; any other value only when it is the boolean `true`.
   */
  predicate IsTrueParam(x: JsValue)
    ensures x.Str? ==> (IsTrueParam(x) <==> SpellsTrue(x.s))
    ensures !x.Str? ==> (IsTrueParam(x) <==> x == Bool(true))
  {
    if IsString(x) then
      LowerSpellsTrue(x.s);
      Text.Lower(x.s) == "true"
    else x == Bool(true)
  }

  lemma LowerSpellsTrue(s: string)
    ensures Text.Lower(s) == "true" <==> SpellsTrue(s)
  {
    var l := Text.Lower(s);
    if SpellsTrue(s) {
      assert l == "true";
    }
    if l == "true" {
      assert l[0] == 't' && l[1] == 'r' && l[2] == 'u' && l[3] == 'e';
    }
  }

  /** No lower-case ASCII letter in `s`. */
  predicate NoAsciiLower(s: string) {
    forall i :: 0 <= i < |s| ==> !Text.IsAsciiLower(s[i])
  }

  /** No upper-case ASCII letter in `s`. */
  predicate NoAsciiUpper(s: string) {
    forall i :: 0 <= i < |s| ==> !Text.IsAsciiUpper(s[i])
  }

  /** `s` and `t` differ at most in the case of ASCII letters. */
  predicate SameIgnoringCase(s: string, t: string) {
    |s| == |t| && forall i :: 0 <= i < |s| ==> Text.LowerChar(s[i]) == Text.LowerChar(t[i])
  }

  /**
   * `_.toUpperCase`: null unless the value is a non-empty string; otherwise a
   * string of the same length, with no lower-case ASCII letter left, equal to
   * the input up to case.
   */
  function ToUpperCase(v: JsValue): (r: JsValue)
    ensures r == Null <==> !IsNonEmptyString(v)
    ensures IsNonEmptyString(v) ==> r.Str? && NoAsciiLower(r.s) && SameIgnoringCase(r.s, v.s)
  {
    if !IsNonEmptyString(v) then Null else Str(Text.Upper(v.s))
  }

  /** `_.toLowerCase`: as `ToUpperCase`, with no upper-case ASCII letter left. */
  function ToLowerCase(v: JsValue): (r: JsValue)
    ensures r == Null <==> !IsNonEmptyString(v)
    ensures IsNonEmptyString(v) ==> r.Str? && NoAsciiUpper(r.s) && SameIgnoringCase(r.s, v.s)
  {
    if !IsNonEmptyString(v) then Null else Str(Text.Lower(v.s))
  }

  const DefaultProblem := "Ran into a problem"

  /**
   * `safeCallback(callback, errProducer)(err, res)`: the arguments the wrapped
   * callback receives. `producer` is `errProducer` when that is a function.
   * A truthy incoming error is replaced by a fresh Error whose message comes
   * from the producer (by default "Ran into a problem") and no result; on
   * success the result passes through unchanged.
   */
  function SafeCallback(producer: Option<JsValue -> string>, err: JsValue, res: JsValue): (c: Call)
    ensures Truthy(err) ==> c.err.ErrorObj? && c.res == Undefined
    ensures Truthy(err) && producer.Some? ==> c.err.message == producer.value(err)
    ensures Truthy(err) && producer.None? ==> c.err.message == DefaultProblem
    ensures !Truthy(err) ==> c == Call(Null, res)
  {
    if Truthy(err) then
      var message := if producer.Some? then producer.value(err) else DefaultProblem;
      Call(ErrorObj(message), Undefined)
    else Call(Null, res)
  }

  /**
   * Without a producer the wrapped callback never learns which error occurred:
   * any two failures look the same to it.
   */
  lemma SafeCallbackHidesErrors(err1: JsValue, err2: JsValue, res1: JsValue, res2: JsValue)
    requires Truthy(err1) && Truthy(err2)
    ensures SafeCallback(None, err1, res1) == SafeCallback(None, err2, res2)
  {
  }
}
