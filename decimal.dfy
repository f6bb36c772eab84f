/**
 * Decimal strings of integers as Python's `str` writes them: the digits of
 * the magnitude, most significant first, with no leading zero, and a `-` in
 * front of a negative number. `DigitsValue` reads a digit string back.
 */
module Decimal {

  predicate IsDigit(ch: char) {
    '0' <= ch <= '9'
  }

  predicate AllDigits(s: string) {
    forall i :: 0 <= i < |s| ==> IsDigit(s[i])
  }

  function DigitChar(d: nat): (ch: char)
    requires d < 10
    ensures IsDigit(ch)
  {
    ('0' as int + d) as char
  }

  function DigitValue(ch: char): (d: nat)
    requires IsDigit(ch)
    ensures d < 10 && DigitChar(d) == ch
  {
    ch as int - '0' as int
  }

  /** `str(n)` for `n >= 0`. */
  function NatString(n: nat): (s: string)
    ensures |s| >= 1 && AllDigits(s)
    ensures s[0] == '0' ==> n == 0
    decreases n
  {
    if n < 10 then [DigitChar(n)] else NatString(n / 10) + [DigitChar(n % 10)]
  }

  /** `str(n)` for any integer `n`: a non-empty digit string without a
      leading zero (except for 0 itself) that reads back as the magnitude,
      after a `-` when `n` is negative. */
  function IntString(n: int): (s: string)
    ensures n >= 0 ==> |s| >= 1 && AllDigits(s) && DigitsValue(s) == n && (s[0] == '0' ==> n == 0)
    ensures n < 0 ==> |s| >= 2 && s[0] == '-' && AllDigits(s[1..]) && DigitsValue(s[1..]) == -n && s[1] != '0'
  {
    if n < 0 then
      NatStringRoundTrip(-n);
      assert ("-" + NatString(-n))[1..] == NatString(-n);
      "-" + NatString(-n)
    else
      NatStringRoundTrip(n);
      NatString(n)
  }

  /** The number a string of decimal digits denotes. */
  function DigitsValue(s: string): (v: nat)
    requires AllDigits(s)
    decreases |s|
  {
    if s == [] then 0 else 10 * DigitsValue(s[..|s| - 1]) + DigitValue(s[|s| - 1])
  }

  /** Reading back the decimal string of `n` gives `n`. */
  lemma {:induction false} NatStringRoundTrip(n: nat)
    ensures DigitsValue(NatString(n)) == n
    decreases n
  {
    var s := NatString(n);
    if n >= 10 {
      assert s[..|s| - 1] == NatString(n / 10);
      NatStringRoundTrip(n / 10);
    }
  }

  /** Different numbers have different decimal strings. */
  lemma NatStringInjective(m: nat, n: nat)
    ensures NatString(m) == NatString(n) <==> m == n
  {
    NatStringRoundTrip(m);
    NatStringRoundTrip(n);
  }

  /** The two-character string of the tens and units digits of `m < 100`. */
  function TwoDigits(m: nat): (s: string)
    requires m < 100
    ensures |s| == 2 && AllDigits(s)
  {
    [DigitChar(m / 10), DigitChar(m % 10)]
  }

  lemma TwoDigitsRoundTrip(m: nat)
    requires m < 100
    ensures AllDigits(TwoDigits(m)) && DigitsValue(TwoDigits(m)) == m
  {
    var s := TwoDigits(m);
    assert s[..1] == [DigitChar(m / 10)];
    assert s[..1][..0] == [];
    assert DigitsValue(s[..1]) == m / 10;
    assert DigitValue(s[1]) == m % 10;
  }

  lemma TensDigit(n: nat)
    ensures (n / 10) % 10 == (n % 100) / 10 && n % 10 == (n % 100) % 10
  {
    var q, r := n / 100, n % 100;
    assert n == 100 * q + r;
    assert n / 10 == 10 * q + r / 10;
    assert n % 10 == r % 10;
  }

  /** The last character of `str(n)` is the units digit of `n`. */
  lemma NatStringLast(n: nat)
    ensures NatString(n)[|NatString(n)| - 1] == DigitChar(n % 10)
  {
  }

  /** For `n >= 10`, the last two characters of `str(n)` are the tens and units
      digits of `n`. */
  lemma NatStringLastTwo(n: nat)
    requires n >= 10
    ensures |NatString(n)| >= 2
    ensures NatString(n)[|NatString(n)| - 2..] == TwoDigits(n % 100)
  {
    var q := n / 10;
    var front := NatString(q);
    NatStringStep(n);
    NatStringLast(q);
    LastTwoOfAppend(front, DigitChar(n % 10));
    TwoDigitsOfRemainder(n);
  }

  lemma NatStringStep(n: nat)
    requires n >= 10
    ensures NatString(n) == NatString(n / 10) + [DigitChar(n % 10)]
  {
  }

  lemma LastTwoOfAppend(front: string, ch: char)
    requires |front| >= 1
    ensures (front + [ch])[|front| - 1..] == [front[|front| - 1], ch]
  {
  }

  lemma TwoDigitsOfRemainder(n: nat)
    ensures TwoDigits(n % 100) == [DigitChar((n / 10) % 10), DigitChar(n % 10)]
  {
    TensDigit(n);
  }
}
