/**
 * The two string operations the task organiser applies to user input:
 * JavaScript's `String.prototype.trim` and `toLowerCase`.
 */
module Text {

  /** The characters `trim` strips: ECMAScript WhiteSpace and LineTerminator code points. */
  function IsWhitespace(c: char): (b: bool)
    ensures c as int < 0x80 ==> (b <==> c == ' ' || '\t' <= c <= '\r')
  {
    var n := c as int;
    || 0x09 <= n <= 0x0D || n == 0x20 || n == 0xA0 || n == 0x1680 || 0x2000 <= n <= 0x200A
    || n == 0x2028 || n == 0x2029 || n == 0x202F || n == 0x205F || n == 0x3000 || n == 0xFEFF
  }

  predicate AllWhitespace(s: string) {
    forall i :: 0 <= i < |s| ==> IsWhitespace(s[i])
  }

  /** `s` neither starts nor ends with whitespace. */
  predicate IsTrimmed(s: string) {
    s == [] || (!IsWhitespace(s[0]) && !IsWhitespace(s[|s| - 1]))
  }

  /** The index of the first character at or after `i` that is not whitespace (`|s|` if none). */
  function SkipLeading(s: string, i: nat): (k: nat)
    requires i <= |s|
    ensures i <= k <= |s|
    ensures forall j :: i <= j < k ==> IsWhitespace(s[j])
    ensures k == |s| || !IsWhitespace(s[k])
    decreases |s| - i
  {
    if i < |s| && IsWhitespace(s[i]) then SkipLeading(s, i + 1) else i
  }

  /** The end of the last character before `e` and not before `lo` that is not whitespace (`lo` if none). */
  function SkipTrailing(s: string, lo: nat, e: nat): (k: nat)
    requires lo <= e <= |s|
    ensures lo <= k <= e
    ensures forall j :: k <= j < e ==> IsWhitespace(s[j])
    ensures k == lo || !IsWhitespace(s[k - 1])
    decreases e
  {
    if lo < e && IsWhitespace(s[e - 1]) then SkipTrailing(s, lo, e - 1) else e
  }

  /** `trim`: drop the leading and the trailing whitespace. */
  function Trim(s: string): (r: string)
    ensures IsTrimmed(r)
    ensures r == [] <==> AllWhitespace(s)
  {
    var a := SkipLeading(s, 0);
    var e := SkipTrailing(s, a, |s|);
    assert e == a ==> AllWhitespace(s) by {
      forall j | 0 <= j < |s| ensures e == a ==> IsWhitespace(s[j]) { }
    }
    s[a..e]
  }

  /**
   * The result of `trim` is the part of `s` between its leading and its
   * trailing whitespace.
   */
  lemma TrimIsInfix(s: string)
    ensures exists a, e ::
              && 0 <= a <= e <= |s| && Trim(s) == s[a..e]
              && (forall j :: 0 <= j < a ==> IsWhitespace(s[j]))
              && (forall j :: e <= j < |s| ==> IsWhitespace(s[j]))
  {
    var a := SkipLeading(s, 0);
    var e := SkipTrailing(s, a, |s|);
    assert Trim(s) == s[a..e];
  }

  /** Trimming twice is trimming once. */
  lemma TrimIdempotent(s: string)
    ensures Trim(Trim(s)) == Trim(s)
  {
    var t := Trim(s);
    if t != [] {
      assert SkipLeading(t, 0) == 0;
      assert SkipTrailing(t, 0, |t|) == |t|;
    }
  }

  /** `toLowerCase` on one character, for the ASCII letters. */
  function LowerChar(c: char): char {
    if 'A' <= c <= 'Z' then (c as int + 32) as char else c
  }

  /** `toLowerCase`, character by character. */
  function ToLower(s: string): (r: string)
    ensures |r| == |s|
  {
    if s == [] then [] else [LowerChar(s[0])] + ToLower(s[1..])
  }

  /**
   * Each ASCII capital becomes its small letter and every other character is
   * kept, so no ASCII capital is left.
   */
  lemma {:induction false} ToLowerChars(s: string, i: int)
    requires 0 <= i < |s|
    ensures !('A' <= ToLower(s)[i] <= 'Z')
    ensures 'A' <= s[i] <= 'Z' ==> ToLower(s)[i] as int == s[i] as int + 32
    ensures !('A' <= s[i] <= 'Z') ==> ToLower(s)[i] == s[i]
  {
    if i > 0 {
      ToLowerChars(s[1..], i - 1);
    }
  }

  /** Lower-casing twice is lower-casing once. */
  lemma {:induction false} ToLowerIdempotent(s: string)
    ensures ToLower(ToLower(s)) == ToLower(s)
  {
    if s != [] {
      ToLowerIdempotent(s[1..]);
    }
  }
}
