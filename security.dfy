/**
 * The credential predicates of `SecurityUtils`: the password-strength rule,
 * the timing-safe comparison and the shape of a recovery code.
 */
module Security {
  import opened Wrappers
  import opened Text

  // ---------------------------------------------------------------- password strength

  /** The minimum length, a constant of the check (not read from the settings). */
  const MinPasswordLength: nat := 8

  /** The class `[!@#$%^&*(),.?":{}|<>]`: twenty ASCII punctuation characters. */
  const SpecialChars: string := "!@#$%^&*(),.?\":{}|<>"

  /** The four character classes the strength rule searches for. */
  datatype CharClass = Uppercase | Lowercase | Digit | Special

  predicate InClass(c: char, k: CharClass) {
    match k
    case Uppercase => IsAsciiUpper(c)
    case Lowercase => IsAsciiLower(c)
    case Digit => IsAsciiDigit(c)
    case Special => c in SpecialChars
  }

  /** Some character of `s` is in class `k`. */
  ghost predicate HasClass(s: string, k: CharClass) {
    exists i :: 0 <= i < |s| && InClass(s[i], k)
  }

  /** `re.search` for a one-class pattern: scan `s` for a character of class `k`. */
  function Search(s: string, k: CharClass): (found: bool)
    ensures found <==> HasClass(s, k)
  {
    if s == [] then false
    else if InClass(s[0], k) then true
    else
      var found := Search(s[1..], k);
      assert HasClass(s[1..], k) ==> HasClass(s, k) by {
        if HasClass(s[1..], k) {
          var i :| 0 <= i < |s[1..]| && InClass(s[1..][i], k);
          assert s[i + 1] == s[1..][i];
        }
      }
      assert HasClass(s, k) && !InClass(s[0], k) ==> HasClass(s[1..], k) by {
        if HasClass(s, k) && !InClass(s[0], k) {
          var i :| 0 <= i < |s| && InClass(s[i], k);
          assert s[1..][i - 1] == s[i];
        }
      }
      found
  }

  /**
   * `is_password_strong`: at least eight characters and at least one
   * upper-case letter, one lower-case letter, one digit and one special
   * character. Any other character counts toward no class.
   */
  function IsPasswordStrong(password: string): (strong: bool)
    ensures strong <==>
      && |password| >= MinPasswordLength
      && HasClass(password, Uppercase) && HasClass(password, Lowercase)
      && HasClass(password, Digit) && HasClass(password, Special)
  {
    if |password| < MinPasswordLength then
      false
    else
      && Search(password, Uppercase)
      && Search(password, Lowercase)
      && Search(password, Digit)
      && Search(password, Special)
  }

  /** A password shorter than eight characters is weak whatever it holds. */
  lemma ShortPasswordIsWeak(password: string)
    requires |password| < 8
    ensures !IsPasswordStrong(password)
  {
  }

  /** The special class is exactly these twenty characters. */
  lemma SpecialClassExactly(c: char)
    ensures InClass(c, Special) <==>
      c in {'!', '@', '#', '$', '%', '^', '&', '*', '(', ')', ',', '.', '?', '"', ':', '{', '}', '|', '<', '>'}
  {
  }

  /** Inserting characters anywhere into a strong password keeps it strong. */
  lemma {:induction false} StrengthMonotone(password: string, k: nat, extra: string)
    requires IsPasswordStrong(password) && k <= |password|
    ensures IsPasswordStrong(password[..k] + extra + password[k..])
  {
    var longer := password[..k] + extra + password[k..];
    forall c: CharClass ensures HasClass(longer, c) {
      var i :| 0 <= i < |password| && InClass(password[i], c);
      if i < k {
        assert longer[i] == password[i];
      } else {
        assert longer[i + |extra|] == password[i];
      }
    }
  }

  /** Eight characters with all four classes pass. */
  lemma StrongExample()
    ensures IsPasswordStrong("Abcdef1!")
  {
    var p := "Abcdef1!";
    assert InClass(p[0], Uppercase) && InClass(p[1], Lowercase) && InClass(p[6], Digit) && InClass(p[7], Special);
  }

  /** Seven characters are too few, and `_` is not a special character. */
  lemma WeakExamples()
    ensures !IsPasswordStrong("short1!")
    ensures !IsPasswordStrong("Abcdefg1_")
  {
    var q := "Abcdefg1_";
    assert !Search(q, Special) by {
      assert forall i :: 0 <= i < |q| ==> q[i] !in SpecialChars;
    }
  }

  // ---------------------------------------------------------------- timing-safe comparison

  /** The text `hmac.compare_digest` accepts as `str`: ASCII only. */
  predicate IsAscii(s: string) {
    forall i :: 0 <= i < |s| ==> s[i] as int < 128
  }

  /**
   * Walk `left` and `right` together, position by position, and record
   * whether any pair differs (the `result |= l ^ r` accumulation of
   * `hmac.compare_digest`, with the accumulated bits reduced to
   * "some pair differed").
   */
  function MismatchFold(left: string, right: string, acc: bool): (r: bool)
    requires |left| == |right|
    ensures r <==> acc || left != right
    decreases |left|
  {
    if left == [] then acc
    else
      assert left == right <==> left[0] == right[0] && left[1..] == right[1..] by {
        assert left == [left[0]] + left[1..] && right == [right[0]] + right[1..];
      }
      MismatchFold(left[1..], right[1..], acc || left[0] != right[0])
  }

  /**
   * The comparison `hmac.compare_digest` performs on two ASCII strings: it
   * always walks the whole of `b` (compared with itself when the lengths
   * differ, with a non-zero starting result) and never stops early.
   */
  function CompareDigest(a: string, b: string): (equal: bool)
    requires IsAscii(a) && IsAscii(b)
    ensures equal <==> a == b
  {
    if |a| == |b| then !MismatchFold(a, b, false) else !MismatchFold(b, b, true)
  }

  /**
   * `secure_compare`: false when either side is `None`; otherwise the
   * equality of the two strings, or the `TypeError` that
   * `hmac.compare_digest` raises for non-ASCII text.
   */
  function SecureCompare(a: Option<string>, b: Option<string>): (r: Result<bool>)
    ensures a.None? || b.None? ==> r == Ok(false)
    ensures a.Some? && b.Some? ==>
      if IsAscii(a.value) && IsAscii(b.value) then r == Ok(a.value == b.value) else r.Err? && r.kind == TypeError
  {
    if a.None? || b.None? then
      Ok(false)
    else if !IsAscii(a.value) || !IsAscii(b.value) then
      Err(TypeError, "comparing strings with non-ASCII characters is not supported")
    else
      Ok(CompareDigest(a.value, b.value))
  }

  /** Comparison does not depend on the order of its arguments. */
  lemma SecureCompareSymmetric(a: Option<string>, b: Option<string>)
    ensures SecureCompare(a, b) == SecureCompare(b, a)
  {
  }

  // ---------------------------------------------------------------- recovery codes

  /** `count` consecutive characters starting at `first`. */
  function CharRange(first: char, count: nat): (r: string)
    requires first as int + count <= 128
    ensures |r| == count && forall i :: 0 <= i < count ==> r[i] as int == first as int + i
  {
    seq(count, i requires 0 <= i < count => (first as int + i) as char)
  }

  /** `string.ascii_letters + string.digits`: the 62 symbols a recovery code is drawn from. */
  const RecoveryAlphabet: string := CharRange('a', 26) + CharRange('A', 26) + CharRange('0', 10)

  const RecoveryCodeLength: nat := 10

  predicate IsAsciiAlnum(c: char) {
    IsAsciiLower(c) || IsAsciiUpper(c) || IsAsciiDigit(c)
  }

  /** The alphabet holds 62 symbols, each an ASCII letter or digit, none twice. */
  lemma RecoveryAlphabetIsAlnum()
    ensures |RecoveryAlphabet| == 62
    ensures forall i :: 0 <= i < |RecoveryAlphabet| ==> IsAsciiAlnum(RecoveryAlphabet[i])
    ensures forall i, j :: 0 <= i < j < |RecoveryAlphabet| ==> RecoveryAlphabet[i] != RecoveryAlphabet[j]
  {
  }

  /** The position of an ASCII letter or digit in the alphabet. */
  function AlphabetIndex(c: char): (i: nat)
    requires IsAsciiAlnum(c)
    ensures i < |RecoveryAlphabet| && RecoveryAlphabet[i] == c
  {
    if IsAsciiLower(c) then c as int - 'a' as int
    else if IsAsciiUpper(c) then 26 + (c as int - 'A' as int)
    else 52 + (c as int - '0' as int)
  }

  /** Every draw picks a symbol of the alphabet. */
  ghost predicate ValidDraws(draws: seq<nat>) {
    forall i :: 0 <= i < |draws| ==> draws[i] < |RecoveryAlphabet|
  }

  /** Join the drawn symbols. */
  function Spell(draws: seq<nat>): (code: string)
    requires ValidDraws(draws)
    ensures |code| == |draws|
    ensures forall i :: 0 <= i < |draws| ==> code[i] == RecoveryAlphabet[draws[i]]
  {
    if draws == [] then [] else [RecoveryAlphabet[draws[0]]] + Spell(draws[1..])
  }

  /**
   * `generate_recovery_code`: ten symbols, each chosen by `secrets.choice`;
   * the choices are given as `draws`, their indices in the alphabet.
   */
  function GenerateRecoveryCode(draws: seq<nat>): (code: string)
    requires |draws| == RecoveryCodeLength && ValidDraws(draws)
    ensures |code| == 10
    ensures forall i :: 0 <= i < |code| ==> IsAsciiAlnum(code[i])
  {
    RecoveryAlphabetIsAlnum();
    Spell(draws)
  }

  /** Different draws give different codes, and every ten-character alphanumeric string is some code. */
  lemma RecoveryCodeBijective(d1: seq<nat>, d2: seq<nat>, code: string)
    requires |d1| == |d2| == RecoveryCodeLength && ValidDraws(d1) && ValidDraws(d2)
    requires |code| == RecoveryCodeLength && forall i :: 0 <= i < |code| ==> IsAsciiAlnum(code[i])
    ensures d1 != d2 ==> GenerateRecoveryCode(d1) != GenerateRecoveryCode(d2)
    ensures exists d :: |d| == RecoveryCodeLength && ValidDraws(d) && GenerateRecoveryCode(d) == code
  {
    RecoveryAlphabetIsAlnum();
    if d1 != d2 {
      var i :| 0 <= i < |d1| && d1[i] != d2[i];
      assert GenerateRecoveryCode(d1)[i] != GenerateRecoveryCode(d2)[i];
    }
    var d := seq(|code|, i requires 0 <= i < |code| => AlphabetIndex(code[i]));
    assert GenerateRecoveryCode(d) == code;
  }
}
