/**
 * The few Python `str` operations the modelled code relies on: `isspace`,
 * `lower`, `strip`, `startswith`, `in` and `replace`, over `seq<char>`.
 * Case mapping covers the ASCII letters only.
 */
module Text {

  /** Python's `str.isspace` for one character (the code points CPython treats as whitespace). */
  predicate IsSpace(c: char) {
    var n := c as int;
    || 9 <= n <= 13
    || 28 <= n <= 32
    || n == 0x85 || n == 0xA0 || n == 0x1680
    || 0x2000 <= n <= 0x200A
    || n == 0x2028 || n == 0x2029 || n == 0x202F || n == 0x205F || n == 0x3000
  }

  /** The regular-expression class `[A-Z]`. */
  predicate IsAsciiUpper(c: char) { 'A' <= c <= 'Z' }

  /** The regular-expression class `[a-z]`. */
  predicate IsAsciiLower(c: char) { 'a' <= c <= 'z' }

  /** The regular-expression class `[0-9]`. */
  predicate IsAsciiDigit(c: char) { '0' <= c <= '9' }

  predicate AllSpace(s: string) {
    forall i :: 0 <= i < |s| ==> IsSpace(s[i])
  }

  predicate NoAsciiUpper(s: string) {
    forall i :: 0 <= i < |s| ==> !IsAsciiUpper(s[i])
  }

  /** `c.lower()` for one character. */
  function LowerChar(c: char): (d: char)
    ensures !IsAsciiUpper(d)
    ensures IsSpace(d) <==> IsSpace(c)
    ensures IsAsciiUpper(c) ==> IsAsciiLower(d) && d as int == c as int + 32
    ensures !IsAsciiUpper(c) ==> d == c
  {
    if IsAsciiUpper(c) then (c as int + 32) as char else c
  }

  /** `s.lower()`: every character mapped on its own. */
  function Lower(s: string): (r: string)
    ensures |r| == |s| && NoAsciiUpper(r)
    ensures forall i {:trigger r[i]} :: 0 <= i < |s| ==>
      if IsAsciiUpper(s[i]) then r[i] as int == s[i] as int + 32 else r[i] == s[i]
  {
    seq(|s|, i requires 0 <= i < |s| => LowerChar(s[i]))
  }

  lemma LowerIdempotent(s: string)
    ensures Lower(Lower(s)) == Lower(s)
  {
  }

  /** How many whitespace characters open `s`. */
  function LeadingSpace(s: string): (k: nat)
    ensures k <= |s|
    ensures forall i :: 0 <= i < k ==> IsSpace(s[i])
    ensures k < |s| ==> !IsSpace(s[k])
  {
    if s != [] && IsSpace(s[0]) then 1 + LeadingSpace(s[1..]) else 0
  }

  /** How many whitespace characters close `s`. */
  function TrailingSpace(s: string): (k: nat)
    ensures k <= |s|
    ensures forall i :: |s| - k <= i < |s| ==> IsSpace(s[i])
    ensures k < |s| ==> !IsSpace(s[|s| - 1 - k])
  {
    if s != [] && IsSpace(s[|s| - 1]) then 1 + TrailingSpace(s[..|s| - 1]) else 0
  }

  /** True when `r` is `s` with some whitespace removed from each end and nothing else. */
  ghost predicate TrimmedFrom(r: string, s: string) {
    exists i, j :: 0 <= i <= j <= |s| && r == s[i..j] && AllSpace(s[..i]) && AllSpace(s[j..])
  }

  /** `s.strip()`: drop the whitespace at both ends, keep the interior as it is. */
  function Strip(s: string): (r: string)
    ensures TrimmedFrom(r, s)
    ensures r != [] ==> !IsSpace(r[0]) && !IsSpace(r[|r| - 1])
  {
    var a := LeadingSpace(s);
    var b := TrailingSpace(s[a..]);
    var j := |s| - b;
    assert AllSpace(s[..a]) by {
      forall i | 0 <= i < a ensures IsSpace(s[..a][i]) { }
    }
    assert AllSpace(s[j..]) by {
      forall i | 0 <= i < b ensures IsSpace(s[j..][i]) {
        assert s[j..][i] == s[a..][|s[a..]| - b + i];
      }
    }
    assert s[a..][..|s[a..]| - b] == s[a..j];
    s[a..j]
  }

  /** A string with no whitespace at either end is its own `strip()`. */
  lemma StripUnchanged(s: string)
    requires s != [] ==> !IsSpace(s[0]) && !IsSpace(s[|s| - 1])
    ensures Strip(s) == s
  {
  }

  /** `s.startswith(p)`. */
  predicate StartsWith(s: string, p: string) {
    |p| <= |s| && s[..|p|] == p
  }

  /** `p` occurs in `s` starting at index `i`. */
  predicate OccursAt(s: string, p: string, i: int) {
    0 <= i && i + |p| <= |s| && s[i..i + |p|] == p
  }

  /** Python's `p in s`. */
  predicate Contains(s: string, p: string) {
    exists i | 0 <= i <= |s| :: OccursAt(s, p, i)
  }

  /**
   * `s.replace(pat, rep)`: scan left to right, replace each occurrence of
   * `pat` and resume after it (occurrences never overlap). An empty `pat`
   * inserts `rep` before every character and at the end.
   */
  function ReplaceAll(s: string, pat: string, rep: string): (r: string)
    ensures |pat| > 0 && StartsWith(s, pat) ==> StartsWith(r, rep)
    decreases |s|
  {
    if |pat| == 0 then
      if s == [] then rep else rep + [s[0]] + ReplaceAll(s[1..], pat, rep)
    else if |s| < |pat| then
      s
    else if s[..|pat|] == pat then
      rep + ReplaceAll(s[|pat|..], pat, rep)
    else
      [s[0]] + ReplaceAll(s[1..], pat, rep)
  }

  /** Replacing a non-empty pattern that does not occur changes nothing. */
  lemma {:induction false} ReplaceAllAbsent(s: string, pat: string, rep: string)
    requires |pat| > 0 && !Contains(s, pat)
    ensures ReplaceAll(s, pat, rep) == s
    decreases |s|
  {
    if |s| >= |pat| {
      assert !OccursAt(s, pat, 0);
      forall i | OccursAt(s[1..], pat, i) ensures OccursAt(s, pat, i + 1) {
        assert s[1..][i..i + |pat|] == s[i + 1..i + 1 + |pat|];
      }
      ReplaceAllAbsent(s[1..], pat, rep);
    }
  }
}
