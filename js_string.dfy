/** The part of JavaScript's String that the todo list needs: `trim()`.

    `String.prototype.trim` finds the first and the last code point that
    ECMAScript does not classify as WhiteSpace or LineTerminator and returns
    the substring between them (the empty string when there is none).
 */
module JsString {

  /** ECMAScript WhiteSpace (TAB, VT, FF, ZWNBSP and the Unicode category Zs)
      and LineTerminator (LF, CR, LS, PS). */
  predicate IsWs(c: char) {
    || c == '\t' || c == '\U{000B}' || c == '\U{000C}' || c == '\U{FEFF}'
    || c == ' ' || c == '\U{00A0}' || c == '\U{1680}'
    || ('\U{2000}' <= c <= '\U{200A}')
    || c == '\U{202F}' || c == '\U{205F}' || c == '\U{3000}'
    || c == '\n' || c == '\r' || c == '\U{2028}' || c == '\U{2029}'
  }

  /** Every character of `s` at a position in `[i, j)` is whitespace. */
  predicate WsBetween(s: string, i: nat, j: nat)
    requires i <= j <= |s|
  {
    forall k :: i <= k < j ==> IsWs(s[k])
  }

  /** Every character of `s` is whitespace (so `s` is blank; `""` is blank). */
  predicate AllWs(s: string) {
    WsBetween(s, 0, |s|)
  }

  /** `t` neither starts nor ends with whitespace. */
  predicate IsTrimmed(t: string) {
    t == [] || (!IsWs(t[0]) && !IsWs(t[|t| - 1]))
  }

  /** The position of the first non-whitespace character at or after `i`, or
      `|s|` when there is none. */
  function SkipWsForward(s: string, i: nat): (k: nat)
    requires i <= |s|
    ensures i <= k <= |s| && WsBetween(s, i, k)
    ensures k == |s| || !IsWs(s[k])
    decreases |s| - i
  {
    if i < |s| && IsWs(s[i]) then SkipWsForward(s, i + 1) else i
  }

  /** The position just after the last non-whitespace character before `j`
      and at or after `lo`, or `lo` when there is none. */
  function SkipWsBackward(s: string, lo: nat, j: nat): (e: nat)
    requires lo <= j <= |s|
    ensures lo <= e <= j && WsBetween(s, e, j)
    ensures e == lo || !IsWs(s[e - 1])
    decreases j
  {
    if lo < j && IsWs(s[j - 1]) then SkipWsBackward(s, lo, j - 1) else j
  }

  /** Where the trimmed text starts in `s`. */
  function TrimStartIndex(s: string): (i: nat)
    ensures i <= |s|
  {
    SkipWsForward(s, 0)
  }

  /** Where the trimmed text ends in `s`. */
  function TrimEndIndex(s: string): (j: nat)
    ensures TrimStartIndex(s) <= j <= |s|
  {
    SkipWsBackward(s, TrimStartIndex(s), |s|)
  }

  /** `String.prototype.trim`: the result has no whitespace at either end,
      it is no longer than `s`, and it is empty exactly when `s` is blank. */
  function Trim(s: string): (r: string)
    ensures |r| <= |s| && IsTrimmed(r)
    ensures r == [] <==> AllWs(s)
  {
    var i, j := TrimStartIndex(s), TrimEndIndex(s);
    assert WsBetween(s, 0, i) && WsBetween(s, j, |s|);
    assert i < j ==> !IsWs(s[i]) && !IsWs(s[j - 1]);
    s[i..j]
  }

  /** What `trim` promises: the result is an infix of `s` with only
      whitespace on either side, and it has no whitespace at either end. */
  lemma TrimIsInfix(s: string)
    ensures exists i, j ::
      && 0 <= i <= j <= |s| && Trim(s) == s[i..j]
      && WsBetween(s, 0, i) && WsBetween(s, j, |s|)
    ensures IsTrimmed(Trim(s))
  {
    var i, j := TrimStartIndex(s), TrimEndIndex(s);
    assert Trim(s) == s[i..j] && WsBetween(s, 0, i) && WsBetween(s, j, |s|);
  }

  /** A string without surrounding whitespace is its own trim. */
  lemma TrimOfTrimmed(t: string)
    requires IsTrimmed(t)
    ensures Trim(t) == t
  {
    if t != [] {
      var i := TrimStartIndex(t);
      assert i == 0 by {
        assert i == |t| || !IsWs(t[i]);
      }
      var j := TrimEndIndex(t);
      assert j == |t| by {
        assert j == i || !IsWs(t[j - 1]);
      }
    }
  }

  /** `trim` is idempotent, and its result is always trimmed. */
  lemma TrimIdempotent(s: string)
    ensures IsTrimmed(Trim(s))
    ensures Trim(Trim(s)) == Trim(s)
  {
    TrimIsInfix(s);
    TrimOfTrimmed(Trim(s));
  }

  /** A string is its own trim exactly when it has no surrounding whitespace. */
  lemma TrimFixedIffTrimmed(t: string)
    ensures Trim(t) == t <==> IsTrimmed(t)
  {
    TrimIdempotent(t);
    if IsTrimmed(t) {
      TrimOfTrimmed(t);
    }
  }
}
