/** The JavaScript string operations the access check relies on:
    `toLowerCase`, `trim`, `indexOf` and `includes`.
    Lower-casing is modelled on ASCII letters only; `trim` uses the exact
    set of characters ECMAScript treats as white space or line terminators. */
module JsText {
  import opened Optional

  predicate IsUpper(c: char) {
    'A' <= c <= 'Z'
  }

  /** `toLowerCase` on one character (ASCII letters only). */
  function LowerChar(c: char): (r: char)
    ensures !IsUpper(r)
    ensures IsUpper(c) ==> r as int == c as int + 32
    ensures !IsUpper(c) ==> r == c
  {
    if IsUpper(c) then (c as int + 32) as char else c
  }

  /** `toLowerCase` on a string, ASCII letters only: character by character,
      same length. */
  function Lower(s: string): (r: string)
    ensures |r| == |s|
    ensures forall i :: 0 <= i < |r| ==> !IsUpper(r[i])
    ensures forall i :: 0 <= i < |s| && IsUpper(s[i]) ==> r[i] as int == s[i] as int + 32
    ensures forall i :: 0 <= i < |s| && !IsUpper(s[i]) ==> r[i] == s[i]
  {
    seq(|s|, i requires 0 <= i < |s| => LowerChar(s[i]))
  }

  /** Lower-casing twice is the same as lower-casing once. */
  lemma LowerIdempotent(s: string)
    ensures Lower(Lower(s)) == Lower(s)
  {
    var l := Lower(s);
    assert forall i :: 0 <= i < |l| ==> LowerChar(l[i]) == l[i];
  }

  /** The characters ECMAScript's `String.prototype.trim` removes: the
      WhiteSpace production (TAB, VT, FF, SP, NBSP, ZWNBSP and the Unicode
      "Zs" category) and the LineTerminator production (LF, CR, LS, PS). */
  predicate IsJsWhitespace(c: char) {
    || c == '\t' || c == '\n' || c == '\U{000B}' || c == '\U{000C}' || c == '\r'
    || c == ' ' || c == '\U{00A0}' || c == '\U{1680}'
    || ('\U{2000}' <= c <= '\U{200A}')
    || c == '\U{2028}' || c == '\U{2029}' || c == '\U{202F}' || c == '\U{205F}'
    || c == '\U{3000}' || c == '\U{FEFF}'
  }

  ghost predicate AllWhitespace(s: string) {
    forall i :: 0 <= i < |s| ==> IsJsWhitespace(s[i])
  }

  /** Index of the first character at or after `from` that `trim` keeps. */
  function TrimStartIndex(s: string, from: nat): (a: nat)
    requires from <= |s|
    ensures from <= a <= |s|
    ensures forall k :: from <= k < a ==> IsJsWhitespace(s[k])
    ensures a == |s| || !IsJsWhitespace(s[a])
    decreases |s| - from
  {
    if from < |s| && IsJsWhitespace(s[from]) then TrimStartIndex(s, from + 1) else from
  }

  /** Index just past the last character before `hi` that `trim` keeps,
      never going below `lo`. */
  function TrimEndIndex(s: string, lo: nat, hi: nat): (b: nat)
    requires lo <= hi <= |s|
    ensures lo <= b <= hi
    ensures forall k :: b <= k < hi ==> IsJsWhitespace(s[k])
    ensures b == lo || !IsJsWhitespace(s[b - 1])
    decreases hi
  {
    if lo < hi && IsJsWhitespace(s[hi - 1]) then TrimEndIndex(s, lo, hi - 1) else hi
  }

  /** `String.prototype.trim`: the string with leading and trailing white
      space removed. */
  function Trim(s: string): (r: string)
    ensures r == [] <==> AllWhitespace(s)
    ensures exists a, b :: 0 <= a <= b <= |s| && r == s[a..b] && AllWhitespace(s[..a]) && AllWhitespace(s[b..])
    ensures r != [] ==> !IsJsWhitespace(r[0]) && !IsJsWhitespace(r[|r| - 1])
  {
    var a := TrimStartIndex(s, 0);
    var b := TrimEndIndex(s, a, |s|);
    assert AllWhitespace(s) ==> a == |s|;
    assert AllWhitespace(s[..a]) && AllWhitespace(s[b..]);
    s[a..b]
  }

  /** `needle` occurs in `s` starting at index `i`. */
  ghost predicate OccursAt(s: string, needle: string, i: int) {
    0 <= i && i + |needle| <= |s| && s[i..i + |needle|] == needle
  }

  /** `s.indexOf(needle, from)` for a start index within `s`: the leftmost
      occurrence at or after `from`. */
  function IndexOf(s: string, needle: string, from: nat): (r: Option<nat>)
    requires from <= |s|
    ensures r.Some? ==> from <= r.value && OccursAt(s, needle, r.value)
    ensures r.Some? ==> forall j :: from <= j < r.value ==> !OccursAt(s, needle, j)
    ensures r.None? ==> forall j :: from <= j ==> !OccursAt(s, needle, j)
    decreases |s| - from
  {
    if |s| < from + |needle| then None
    else if s[from..from + |needle|] == needle then Some(from)
    else IndexOf(s, needle, from + 1)
  }

  /** `s.includes(needle)`. */
  function Includes(s: string, needle: string): (r: bool)
    ensures r <==> exists i :: OccursAt(s, needle, i)
  {
    IndexOf(s, needle, 0).Some?
  }

  /** `needle` occurs in `s` at `i` when case is ignored (ASCII). */
  ghost predicate OccursAtIgnoringCase(s: string, needle: string, i: int) {
    0 <= i && i + |needle| <= |s|
    && forall k :: 0 <= k < |needle| ==> LowerChar(s[i + k]) == needle[k]
  }

  /** Searching the lower-cased string for a lower-case needle is a
      case-insensitive search of the original string. */
  lemma IncludesLowerIgnoresCase(s: string, needle: string)
    ensures Includes(Lower(s), needle) <==> exists i :: OccursAtIgnoringCase(s, needle, i)
  {
    var l := Lower(s);
    forall i | 0 <= i && i + |needle| <= |s|
      ensures OccursAt(l, needle, i) <==> OccursAtIgnoringCase(s, needle, i)
    {
      var w := l[i..i + |needle|];
      assert forall k :: 0 <= k < |needle| ==> w[k] == LowerChar(s[i + k]);
    }
  }

  /** A needle with an upper-case letter never occurs in a lower-cased string. */
  lemma LowerNeverContainsUpper(s: string, needle: string, k: nat)
    requires k < |needle| && IsUpper(needle[k])
    ensures !Includes(Lower(s), needle)
  {
    var l := Lower(s);
    forall i
      ensures !OccursAt(l, needle, i)
    {
      if 0 <= i && i + |needle| <= |l| {
        assert l[i..i + |needle|][k] == l[i + k];
        assert !IsUpper(l[i + k]);
      }
    }
  }
}
