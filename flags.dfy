/** Privilege flags. The `isAdmin` value travels through sessions, signed
    tokens, JSON bodies and two storage back-ends, so at run time it may be a
    boolean, a string such as "true" or "FALSE", a number, null or missing.
    Every consumer funnels it through the same normaliser, modelled here once
    (server/middleware/admin.ts, server/middleware/auth.ts, server/auth.ts
    and server/routes/admin.ts each carry an identical copy). */
module Flags {
  import opened Common

  /** The run-time shapes a loosely typed JavaScript value can take. Numbers
      are integers here; `JNaN` is the one non-integral number that matters
      for truthiness. */
  datatype JsValue =
    | JBool(b: bool)
    | JStr(s: string)
    | JNum(n: int)
    | JNaN
    | JNull
    | JUndefined
    | JObject

  /** `Boolean(v)`: JavaScript truthiness. */
  predicate Truthy(v: JsValue)
  {
    match v
    case JBool(b) => b
    case JStr(s) => s != ""
    case JNum(n) => n != 0
    case JNaN => false
    case JNull => false
    case JUndefined => false
    case JObject => true
  }

  /** `normalizeBoolean`: booleans pass through, strings are true exactly
      when they spell "true" in any letter case, everything else falls back
      to truthiness. */
  function NormalizeBoolean(v: JsValue): (r: bool)
    ensures r ==> Truthy(v)
  {
    match v
    case JBool(b) => b
    case JStr(s) => ToLower(s) == "true"
    case _ => Truthy(v)
  }

  /** The string rendering of a boolean, `String(b)`. */
  function BoolToString(b: bool): (r: string)
    ensures r == "true" <==> b
    ensures !b ==> r == "false"
  {
    if b then "true" else "false"
  }

  /** Normalising an already normalised flag changes nothing, whether the
      flag is stored as a boolean or as its string rendering. */
  lemma NormalizeIdempotent(v: JsValue)
    ensures NormalizeBoolean(JBool(NormalizeBoolean(v))) == NormalizeBoolean(v)
    ensures NormalizeBoolean(JStr(BoolToString(NormalizeBoolean(v)))) == NormalizeBoolean(v)
  {
    assert ToLower("true") == "true";
    assert ToLower("false") == "false";
  }

  /** The normaliser departs from plain truthiness exactly on non-empty
      strings that do not spell "true": "false", "0", "no", "yes", ... */
  lemma NormalizeVersusTruthy(v: JsValue)
    ensures NormalizeBoolean(v) != Truthy(v)
        <==> v.JStr? && v.s != "" && ToLower(v.s) != "true"
  {
    if v.JStr? && v.s == "" {
      assert ToLower(v.s) == "";
    }
  }

  /** The string "false" is truthy but normalises to false: the reason the
      normaliser exists. */
  lemma StringFalseIsNotAdmin()
    ensures Truthy(JStr("false")) && !NormalizeBoolean(JStr("false"))
  {
    assert ToLower("false") == "false";
  }

  /** Letter case does not matter: "TRUE", "True" and "true" agree. */
  lemma NormalizeIgnoresCase(s: string, t: string)
    requires ToLower(s) == ToLower(t)
    ensures NormalizeBoolean(JStr(s)) == NormalizeBoolean(JStr(t))
  {
  }

  /** A string normalises to true only when it has exactly four letters. */
  lemma {:induction false} NormalizeTrueString(s: string)
    requires NormalizeBoolean(JStr(s))
    ensures |s| == 4
    ensures ToLowerChar(s[0]) == 't' && ToLowerChar(s[1]) == 'r'
    ensures ToLowerChar(s[2]) == 'u' && ToLowerChar(s[3]) == 'e'
  {
    var l := ToLower(s);
    assert l == "true";
    assert |s| == |l|;
    assert l[0] == 't' && l[1] == 'r' && l[2] == 'u' && l[3] == 'e';
  }

  /** `flag || false`: the value stored when a flag may be missing. */
  function OrFalse(v: JsValue): (r: JsValue)
    ensures Truthy(v) ==> r == v
    ensures !Truthy(v) ==> r == JBool(false)
  {
    if Truthy(v) then v else JBool(false)
  }

  /** Defaulting a missing flag to false never grants privileges. */
  lemma OrFalsePreservesNormalized(v: JsValue)
    ensures NormalizeBoolean(OrFalse(v)) == NormalizeBoolean(v)
  {
  }
}
