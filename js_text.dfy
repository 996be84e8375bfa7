/**
 * The pieces of JavaScript's string semantics that the configuration writer and the
 * admin page rely on: the character class `\s` (which `String.prototype.trim` strips
 * too), line terminators (which `.` in a regular expression does not match), `trim`
 * and `toLowerCase` for the characters whose lower case is plain ASCII.
 */
module JsText {

  /** JavaScript's `\s`: the WhiteSpace and LineTerminator characters of ECMAScript. */
  predicate IsSpace(c: char) {
    if c < '\U{0080}' then c == ' ' || '\t' <= c <= '\r'
    else (c == '\U{00A0}' || c == '\U{1680}' || '\U{2000}' <= c <= '\U{200A}' || c == '\U{2028}' ||
          c == '\U{2029}' || c == '\U{202F}' || c == '\U{205F}' || c == '\U{3000}' || c == '\U{FEFF}')
  }

  /** The characters that `.` in a regular expression refuses to match. */
  predicate IsLineTerminator(c: char) {
    if c < '\U{0080}' then c == '\n' || c == '\r' else c == '\U{2028}' || c == '\U{2029}'
  }

  predicate AllSpace(s: string) {
    forall i :: 0 <= i < |s| ==> IsSpace(s[i])
  }

  predicate NoLineTerminator(s: string) {
    forall i :: 0 <= i < |s| ==> !IsLineTerminator(s[i])
  }

  /** A string that `trim` leaves alone: it neither starts nor ends with `\s`. */
  predicate IsTrimmed(s: string) {
    s == [] || (!IsSpace(s[0]) && !IsSpace(s[|s| - 1]))
  }

  /** `s.trimStart()`: the suffix left after dropping every leading `\s`. */
  function TrimStart(s: string): (r: string)
    ensures |r| <= |s| && r == s[|s| - |r|..]
    ensures AllSpace(s[..|s| - |r|])
    ensures r == [] || !IsSpace(r[0])
  {
    if |s| > 0 && IsSpace(s[0]) then
      var r := TrimStart(s[1..]);
      assert s[..|s| - |r|] == [s[0]] + s[1..][..|s| - 1 - |r|];
      r
    else s
  }

  /** `s.trimEnd()`: the prefix left after dropping every trailing `\s`. */
  function TrimEnd(s: string): (r: string)
    ensures |r| <= |s| && r == s[..|r|]
    ensures AllSpace(s[|r|..])
    ensures r == [] || !IsSpace(r[|r| - 1])
  {
    if |s| > 0 && IsSpace(s[|s| - 1]) then
      var r := TrimEnd(s[..|s| - 1]);
      assert s[|r|..] == s[..|s| - 1][|r|..] + [s[|s| - 1]];
      r
    else s
  }

  /** `s.trim()`. Its result is trimmed, is empty exactly when `s` is all `\s`, and a trimmed string is its own trim. */
  function Trim(s: string): (r: string)
    ensures IsTrimmed(r)
    ensures r == [] <==> AllSpace(s)
    ensures IsTrimmed(s) ==> r == s
  {
    var t := TrimStart(s);
    var r := TrimEnd(t);
    assert r != [] ==> r[0] == t[0];
    assert t != [] ==> t[0] == s[|s| - |t|];
    assert r == [] ==> t == [] by { assert t[0..] == t; }
    assert t == [] ==> s[..|s|] == s;
    r
  }

  /** What `trim` yields: `s` with a leading and a trailing run of `\s` cut off. */
  lemma TrimValue(s: string)
    ensures exists a :: (0 <= a <= |s| - |Trim(s)| && Trim(s) == s[a..a + |Trim(s)|]
                         && AllSpace(s[..a]) && AllSpace(s[a + |Trim(s)|..]))
  {
    var t := TrimStart(s);
    var r := TrimEnd(t);
    var a := |s| - |t|;
    SliceOfSuffix(s, a, |r|);
    assert Trim(s) == r;
  }

  lemma SliceOfSuffix(s: string, a: int, k: int)
    requires 0 <= a && 0 <= k && a + k <= |s|
    ensures s[a..][..k] == s[a..a + k]
    ensures s[a..][k..] == s[a + k..]
  {
  }

  /** Trimming text made of a trimmed core between two runs of `\s` gives the core. */
  lemma TrimOfPadded(w1: string, t: string, w2: string)
    requires AllSpace(w1) && AllSpace(w2) && IsTrimmed(t)
    ensures Trim(w1 + t + w2) == t
  {
    if t == [] {
      assert AllSpace(w1 + t + w2) by {
        assert forall i :: 0 <= i < |w1 + t + w2| ==> (w1 + t + w2)[i] == (if i < |w1| then w1[i] else w2[i - |w1|]);
      }
    } else {
      assert w1 + t + w2 == w1 + (t + w2);
      TrimStartOfPadded(w1, t + w2);
      TrimEndOfPadded(t, w2);
    }
  }

  /** `trimStart` drops exactly a leading run of `\s`. */
  lemma {:induction false} TrimStartOfPadded(w: string, x: string)
    requires AllSpace(w) && (x == [] || !IsSpace(x[0]))
    ensures TrimStart(w + x) == x
    decreases |w|
  {
    if w != [] {
      assert (w + x)[1..] == w[1..] + x;
      TrimStartOfPadded(w[1..], x);
    } else {
      assert w + x == x;
    }
  }

  /** `trimEnd` drops exactly a trailing run of `\s`. */
  lemma {:induction false} TrimEndOfPadded(x: string, w: string)
    requires AllSpace(w) && (x == [] || !IsSpace(x[|x| - 1]))
    ensures TrimEnd(x + w) == x
    decreases |w|
  {
    if w != [] {
      var n := |x + w|;
      assert (x + w)[n - 1] == w[|w| - 1];
      assert (x + w)[..n - 1] == x + w[..|w| - 1];
      TrimEndOfPadded(x, w[..|w| - 1]);
    } else {
      assert x + w == x;
    }
  }

  /**
   * One character of `toLowerCase`, as far as it matters here: `A`-`Z` become `a`-`z` and
   * KELVIN SIGN becomes `k`. Every other character is kept: an ASCII character that is not a
   * capital is its own lower case, and what any other non-ASCII character lower-cases to
   * holds a character outside ASCII, so comparisons against lower-case ASCII words come out
   * as in JavaScript.
   */
  function LowerChar(c: char): char {
    if 'A' <= c <= 'Z' then (c as int + 32) as char
    else if c == '\U{212A}' then 'k'
    else c
  }

  function ToLower(s: string): string {
    seq(|s|, i requires 0 <= i < |s| => LowerChar(s[i]))
  }

  /** ASCII `toUpperCase`, used to state that the tab parser ignores case. */
  function UpperAscii(s: string): string {
    seq(|s|, i requires 0 <= i < |s| => if 'a' <= s[i] <= 'z' then (s[i] as int - 32) as char else s[i])
  }

  /** Lower-casing undoes ASCII upper-casing on a word of lower-case ASCII letters. */
  lemma LowerOfUpper(s: string)
    requires forall i :: 0 <= i < |s| ==> 'a' <= s[i] <= 'z'
    ensures ToLower(UpperAscii(s)) == s
  {
    assert forall i :: 0 <= i < |s| ==> ToLower(UpperAscii(s))[i] == s[i];
  }
}
