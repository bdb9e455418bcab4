/**
 * Character classes and the small string builtins the script leans on:
 * `str.isdigit`, `str.isupper`, `str.isspace`, `str.rstrip()`, `str.strip()`
 * and `str(n)` for a natural number. The character classes are restricted
 * to ASCII.
 */
module Chars {

  /** `c.isdigit()` on ASCII. */
  predicate IsDigit(c: char) { '0' <= c <= '9' }

  /** `c.isupper()` on ASCII. */
  predicate IsUpper(c: char) { 'A' <= c <= 'Z' }

  /** `c.isspace()` on ASCII: tab, line feed, vertical tab, form feed,
      carriage return, the four separators 0x1C-0x1F and the space. */
  predicate IsSpace(c: char) {
    c == ' ' || '\t' <= c <= '\r' || 28 as char <= c <= 31 as char
  }

  /** `all(c.isdigit() for c in s)`: true for the empty string. */
  predicate AllDigits(s: string) { forall i :: 0 <= i < |s| ==> IsDigit(s[i]) }

  /** `all(c.isupper() for c in s)`: true for the empty string. */
  predicate AllUpper(s: string) { forall i :: 0 <= i < |s| ==> IsUpper(s[i]) }

  predicate AllSpace(s: string) { forall i :: 0 <= i < |s| ==> IsSpace(s[i]) }

  /** The length `s.rstrip()` keeps: up to the last non-whitespace character. */
  function KeptLength(s: string): (n: nat)
    ensures n <= |s| && (n == 0 || !IsSpace(s[n - 1]))
  {
    if s == [] || !IsSpace(s[|s| - 1]) then |s| else KeptLength(s[..|s| - 1])
  }

  /** The number of whitespace characters `s.lstrip()` drops. */
  function DroppedLength(s: string): (n: nat)
    ensures n <= |s| && (n == |s| || !IsSpace(s[n]))
  {
    if s == [] || !IsSpace(s[0]) then 0 else 1 + DroppedLength(s[1..])
  }

  /** `s.rstrip()`. */
  function RStrip(s: string): string { s[..KeptLength(s)] }

  /** `s.lstrip()`. */
  function LStrip(s: string): string { s[DroppedLength(s)..] }

  /** `s.strip()`. */
  function Strip(s: string): string { LStrip(RStrip(s)) }

  /** `rstrip` removes whitespace only. */
  lemma {:induction false} RStripRemovesSpace(s: string)
    ensures AllSpace(s[|RStrip(s)|..])
    decreases |s|
  {
    if s != [] && IsSpace(s[|s| - 1]) {
      var n := KeptLength(s[..|s| - 1]);
      RStripRemovesSpace(s[..|s| - 1]);
      assert s[n..] == s[..|s| - 1][n..] + [s[|s| - 1]];
    }
  }

  /** Appending whitespace never changes what `rstrip` keeps. */
  lemma {:induction false} RStripIgnoresTrailingSpace(s: string, w: string)
    requires AllSpace(w)
    ensures RStrip(s + w) == RStrip(s)
    decreases |w|
  {
    if w != [] {
      var w' := w[..|w| - 1];
      assert (s + w)[..|s + w| - 1] == s + w';
      RStripIgnoresTrailingSpace(s, w');
      assert KeptLength(s + w) == KeptLength(s + w');
      assert KeptLength(s) <= |s|;
      assert (s + w)[..KeptLength(s)] == s[..KeptLength(s)];
    } else {
      assert s + w == s;
    }
  }

  /** `strip` leaves neither end of its result on whitespace. */
  lemma StripTrimsBothEnds(s: string)
    ensures var r := Strip(s);
      r == [] || (!IsSpace(r[0]) && !IsSpace(r[|r| - 1]))
  {
  }

  /** The decimal digit character of `d`. */
  function DigitChar(d: nat): (c: char)
    requires d < 10
    ensures IsDigit(c)
  {
    (48 + d) as char
  }

  /** The value of a decimal digit character. */
  function DigitValue(c: char): (d: nat)
    requires IsDigit(c)
    ensures d < 10 && DigitChar(d) == c
  {
    (c as int - 48) as nat
  }

  /** `str(n)` for a natural number: its decimal form without leading zeros. */
  function NatToString(n: nat): (s: string)
    ensures |s| > 0 && AllDigits(s)
    ensures |s| > 1 ==> s[0] != '0'
  {
    if n < 10 then [DigitChar(n)]
    else NatToString(n / 10) + [DigitChar(n % 10)]
  }

  /** `int(s)` for a string of decimal digits. */
  function ParseDecimal(s: string): nat
    requires AllDigits(s)
  {
    if s == [] then 0
    else 10 * ParseDecimal(s[..|s| - 1]) + DigitValue(s[|s| - 1])
  }

  /** Reading back the decimal form of `n` gives `n`. */
  lemma {:induction false} ParseNatToString(n: nat)
    ensures ParseDecimal(NatToString(n)) == n
  {
    var s := NatToString(n);
    if n < 10 {
      assert s[..0] == [];
    } else {
      assert s[..|s| - 1] == NatToString(n / 10);
      ParseNatToString(n / 10);
    }
  }

  /** `str` is injective on natural numbers. */
  lemma NatToStringInjective(a: nat, b: nat)
    requires NatToString(a) == NatToString(b)
    ensures a == b
  {
    ParseNatToString(a);
    ParseNatToString(b);
  }
}
