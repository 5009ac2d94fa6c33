/**
 The few JavaScript values the client inspects: the number produced by
 `Number(...)`, the loose values a JSON reply can carry in a task's `id`,
 truthiness (ToBoolean, section 7.1.2 of ECMA-262) and
 `String.prototype.trim` (section 22.1.3.32 of ECMA-262).
 */
module JsValues {

  datatype Option<+T> = None | Some(value: T)

  /** An IEEE double seen abstractly: NaN, one of the two infinities, or a
      finite value held exactly (rounding is not modelled). */
  datatype Number = NaN | Infinity(negative: bool) | Finite(x: real)

  /** `Number.isInteger(n)`: finite and without a fractional part. */
  predicate IsInteger(n: Number) {
    n.Finite? && n.x.Floor as real == n.x
  }

  /** `n < k` for a finite literal `k`; every comparison with NaN is false. */
  predicate Below(n: Number, k: real) {
    match n
    case NaN => false
    case Infinity(negative) => negative
    case Finite(x) => x < k
  }

  /** `n > k` for a finite literal `k`; every comparison with NaN is false. */
  predicate Above(n: Number, k: real) {
    match n
    case NaN => false
    case Infinity(negative) => !negative
    case Finite(x) => x > k
  }

  /** ToBoolean on a number: only NaN and (either) zero are falsy. */
  predicate NumberTruthy(n: Number) {
    !n.NaN? && n != Finite(0.0)
  }

  /** The values a task's `id` may hold once its JSON is parsed. */
  datatype Value = Undefined | Null | Bool(b: bool) | Num(n: Number) | Str(s: string)

  /** ToBoolean: `undefined`, `null`, `false`, NaN, zero and "" are falsy. */
  predicate Truthy(v: Value) {
    match v
    case Undefined => false
    case Null => false
    case Bool(b) => b
    case Num(n) => NumberTruthy(n)
    case Str(s) => s != []
  }

  /** The falsy values, listed: exactly `undefined`, `null`, `false`, NaN,
      zero and the empty string. */
  lemma FalsyValues(v: Value)
    ensures !Truthy(v) <==> v in {Undefined, Null, Bool(false), Num(NaN), Num(Finite(0.0)), Str("")}
  {
  }

  /** The code points `trim` removes: WhiteSpace and LineTerminator of
      sections 12.2 and 12.3 of ECMA-262 (space separators of category Zs
      included). */
  predicate IsJsSpace(c: char) {
    || c == '\t' || c == '\n' || c == '\U{000B}' || c == '\U{000C}' || c == '\r'
    || c == ' ' || c == '\U{00A0}' || c == '\U{1680}'
    || ('\U{2000}' <= c <= '\U{200A}')
    || c == '\U{2028}' || c == '\U{2029}' || c == '\U{202F}' || c == '\U{205F}'
    || c == '\U{3000}' || c == '\U{FEFF}'
  }

  /** Every character of `s` is white space (the empty string included). */
  ghost predicate Blank(s: string) {
    forall i :: 0 <= i < |s| ==> IsJsSpace(s[i])
  }

  /** Removes the leading white space: what remains is a suffix of `s` that
      does not start with white space, and everything dropped was white space. */
  function TrimStart(s: string): (r: string)
    ensures |r| <= |s| && r == s[|s| - |r|..]
    ensures forall i :: 0 <= i < |s| - |r| ==> IsJsSpace(s[i])
    ensures r != [] ==> !IsJsSpace(r[0])
  {
    if s != [] && IsJsSpace(s[0]) then TrimStart(s[1..]) else s
  }

  /** Removes the trailing white space: what remains is a prefix of `s` that
      does not end with white space, and everything dropped was white space. */
  function TrimEnd(s: string): (r: string)
    ensures |r| <= |s| && r == s[..|r|]
    ensures forall i :: |r| <= i < |s| ==> IsJsSpace(s[i])
    ensures r != [] ==> !IsJsSpace(r[|r| - 1])
  {
    if s != [] && IsJsSpace(s[|s| - 1]) then TrimEnd(s[..|s| - 1]) else s
  }

  /** `s.trim()`: both ends' white space removed. Characterised by
      TrimEnds and TrimEmptyIffBlank. */
  function Trim(s: string): string {
    TrimEnd(TrimStart(s))
  }

  /** What `trim` keeps neither starts nor ends with white space. */
  lemma TrimEnds(s: string)
    ensures var r := Trim(s);
      r != [] ==> !IsJsSpace(r[0]) && !IsJsSpace(r[|r| - 1])
  {
    var t := TrimStart(s);
    var r := TrimEnd(t);
    if r != [] {
      assert r[0] == t[0];
    }
  }

  /** `trim` leaves nothing exactly when every character of `s` was white
      space. */
  lemma TrimEmptyIffBlank(s: string)
    ensures Trim(s) == [] <==> Blank(s)
  {
    var t := TrimStart(s);
    var r := TrimEnd(t);
    var k := |s| - |t|;
    if r == [] {
      // a non-empty `t` would start with a character `TrimEnd` cannot drop
      assert t == [];
    } else {
      assert t != [] && t[0] == s[k];
      assert !IsJsSpace(s[k]);
    }
  }
}
