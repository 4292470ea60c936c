/** The few pieces of the JavaScript runtime that the review endpoint and the review page
    rely on: absent values, calls that may throw, String.prototype.trim and slice(0, n). */
module JsRuntime {

  /** A value that may be absent (`undefined` or `null`). */
  datatype Option<+T> = None | Some(value: T)

  /** How a JavaScript call or `await` finished: with a value, or by throwing. */
  datatype Completion<+T> = Returned(value: T) | Threw

  function Min(a: int, b: int): int {
    if a <= b then a else b
  }

  /** JavaScript truthiness of a possibly absent string: `!s` is false exactly for these. */
  predicate Truthy(s: Option<string>) {
    s.Some? && s.value != ""
  }

  /** The expression `s || ''`. */
  function OrEmpty(s: Option<string>): (r: string)
    ensures Truthy(s) ==> r == s.value
    ensures !Truthy(s) ==> r == ""
  {
    if Truthy(s) then s.value else ""
  }

  /** `xs.slice(0, n)`: the end index is clamped to the length. */
  function Take<T>(xs: seq<T>, n: nat): (r: seq<T>)
    ensures |r| == Min(n, |xs|)
    ensures forall k | 0 <= k < |r| :: r[k] == xs[k]
    ensures r == xs <==> |xs| <= n
  {
    if |xs| <= n then xs else xs[..n]
  }

  /** The characters String.prototype.trim removes: the WhiteSpace and LineTerminator
      code points of section 12.2 and 12.3 of ECMA-262 (tab, vertical tab, form feed,
      the byte order mark, the Zs space separators, and the four line terminators). */
  predicate IsWhitespace(c: char) {
    c == '\t' || c == '\n' || c == '\U{000B}' || c == '\U{000C}' || c == '\r' ||
    c == ' ' || c == '\U{00A0}' || c == '\U{1680}' ||
    ('\U{2000}' <= c <= '\U{200A}') ||
    c == '\U{2028}' || c == '\U{2029}' || c == '\U{202F}' || c == '\U{205F}' ||
    c == '\U{3000}' || c == '\U{FEFF}'
  }

  /** Drops the leading whitespace: what is dropped is all whitespace, and what is kept
      is a suffix of `s` that does not start with whitespace. */
  function TrimStart(s: string): (r: string)
    ensures |r| <= |s| && r == s[|s| - |r|..]
    ensures forall k | 0 <= k < |s| - |r| :: IsWhitespace(s[k])
    ensures r != [] ==> !IsWhitespace(r[0])
  {
    if s != [] && IsWhitespace(s[0]) then TrimStart(s[1..]) else s
  }

  /** Drops the trailing whitespace: what is dropped is all whitespace, and what is kept
      is a prefix of `s` that does not end with whitespace. */
  function TrimEnd(s: string): (r: string)
    ensures |r| <= |s| && r == s[..|r|]
    ensures forall k | |r| <= k < |s| :: IsWhitespace(s[k])
    ensures r != [] ==> !IsWhitespace(r[|r| - 1])
  {
    if s != [] && IsWhitespace(s[|s| - 1]) then TrimEnd(s[..|s| - 1]) else s
  }

  /** String.prototype.trim: the contiguous middle of `s` left once the whitespace at
      both ends is dropped. */
  function Trim(s: string): (r: string)
    ensures |r| <= |s|
    ensures r != [] ==> !IsWhitespace(r[0]) && !IsWhitespace(r[|r| - 1])
    ensures exists i, j | 0 <= i <= j <= |s| ::
      r == s[i..j] &&
      (forall k | 0 <= k < i :: IsWhitespace(s[k])) &&
      (forall k | j <= k < |s| :: IsWhitespace(s[k]))
  {
    var t := TrimStart(s);
    var i := |s| - |t|;
    var u := TrimEnd(t);
    assert u == s[i..i + |u|];
    assert forall k | i + |u| <= k < |s| :: s[k] == t[k - i];
    u
  }

  /** `s.trim()` is empty (falsy) exactly when every character of `s` is whitespace. */
  lemma TrimEmptyIff(s: string)
    ensures Trim(s) == [] <==> forall k | 0 <= k < |s| :: IsWhitespace(s[k])
  {
  }

  /** `s.trim()` leaves `s` unchanged exactly when `s` is empty or neither starts nor
      ends with whitespace. */
  lemma TrimFixedIff(s: string)
    ensures Trim(s) == s <==> s == [] || (!IsWhitespace(s[0]) && !IsWhitespace(s[|s| - 1]))
  {
  }
}
