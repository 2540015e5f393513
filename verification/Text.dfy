/** Characters, numbers and parts of strings, as Python sees them. */
module Text {

  // ── Characters ──────────────────────────────────────────────────────────────

  /** What Python's `strip` and `\s` take for white space. */
  predicate Space(c: char) {
    var u := c as int;
    || 9 <= u <= 13 || 28 <= u <= 32 || u == 133 || u == 160 || u == 5760
    || 8192 <= u <= 8202 || 8232 <= u <= 8233 || u == 8239 || u == 8287 || u == 12288
  }

  predicate Digit(c: char) {
    '0' <= c <= '9'
  }

  const NEWLINE := '\n'

  function DropSpaces(s: string): (r: string)
    ensures |r| <= |s|
    ensures r != "" ==> !Space(r[0])
  {
    if s != "" && Space(s[0]) then DropSpaces(s[1..]) else s
  }

  function DropSpacesBehind(s: string): (r: string)
    ensures r <= s
  {
    if s != "" && Space(s[|s| - 1]) then DropSpacesBehind(s[..|s| - 1]) else s
  }

  function Strip(s: string): string {
    DropSpacesBehind(DropSpaces(s))
  }

  /** No white space at either end. */
  predicate Trimmed(s: string) {
    s != "" ==> !Space(s[0]) && !Space(s[|s| - 1])
  }

  lemma StripOfTrimmed(s: string)
    requires Trimmed(s)
    ensures Strip(s) == s
  {
  }

  // ── Numbers ─────────────────────────────────────────────────────────────────

  predicate AllDigits(s: string) {
    forall c | c in s :: Digit(c)
  }

  function DigitValue(c: char): nat
    requires Digit(c)
  {
    c as int - '0' as int
  }

  function Value(s: string): nat
    requires AllDigits(s)
  {
    if s == "" then 0 else 10 * Value(s[..|s| - 1]) + DigitValue(s[|s| - 1])
  }

  function DigitOf(k: nat): (c: char)
    requires k < 10
    ensures Digit(c) && DigitValue(c) == k
  {
    ('0' as int + k) as char
  }

  function Digits(k: nat): (s: string)
    ensures s != "" && AllDigits(s)
  {
    if k < 10 then [DigitOf(k)] else Digits(k / 10) + [DigitOf(k % 10)]
  }

  lemma {:induction false} ValueOfDigits(k: nat)
    ensures Value(Digits(k)) == k
  {
    if k >= 10 {
      ValueOfDigits(k / 10);
      assert Digits(k)[..|Digits(k)| - 1] == Digits(k / 10);
    } else {
      assert Digits(k)[..0] == "";
    }
  }

  // ── Parts of a string ───────────────────────────────────────────────────────

  predicate Contains(s: string, part: string) {
    part <= s || (s != "" && Contains(s[1..], part))
  }

  lemma {:induction false} ContainsLater(s: string, n: nat, part: string)
    requires n <= |s| && Contains(s[n..], part)
    ensures Contains(s, part)
    decreases n
  {
    if n > 0 {
      assert s[1..][n - 1..] == s[n..];
      ContainsLater(s[1..], n - 1, part);
    } else {
      assert s[0..] == s;
    }
  }

  lemma {:induction false} NoPart(s: string, part: string)
    requires part != "" && part[0] !in s
    ensures !Contains(s, part)
  {
    if s != "" { NoPart(s[1..], part); }
  }
}
