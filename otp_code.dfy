/** The one-time code of `/send-otp` (routes/auth.js:37): an integer in
    100000..999999 drawn by `Math.floor(100000 + Math.random() * 900000)`
    and stored as its decimal `toString()`. The random draw is the parameter
    `draw`, the integer part of `Math.random() * 900000`. */
module OtpCode {

  /** Number of values `Math.floor(Math.random() * 900000)` can take. */
  const DrawRange: nat := 900000
  const CodeBase: nat := 100000

  function Pow10(k: nat): nat {
    if k == 0 then 1 else 10 * Pow10(k - 1)
  }

  predicate IsDigit(c: char) {
    '0' <= c <= '9'
  }

  predicate AllDigits(s: string) {
    forall k :: 0 <= k < |s| ==> IsDigit(s[k])
  }

  function DigitChar(d: nat): (c: char)
    requires d < 10
    ensures IsDigit(c)
  {
    ('0' as int + d) as char
  }

  function DigitValue(c: char): nat
    requires IsDigit(c)
  {
    c as int - '0' as int
  }

  /** `n.toString()` for a non-negative integer: its decimal digits, most significant first. */
  function DecimalString(n: nat): (s: string)
    ensures |s| >= 1 && AllDigits(s)
    decreases n
  {
    if n < 10 then [DigitChar(n)] else DecimalString(n / 10) + [DigitChar(n % 10)]
  }

  /** The number a string of decimal digits denotes. */
  function DigitsValue(s: string): nat
    requires AllDigits(s)
  {
    if s == [] then 0 else DigitsValue(s[..|s| - 1]) * 10 + DigitValue(s[|s| - 1])
  }

  /** Reading back the decimal string gives the number. */
  lemma {:induction false} DecimalRoundTrip(n: nat)
    ensures DigitsValue(DecimalString(n)) == n
    decreases n
  {
    if n >= 10 {
      var s := DecimalString(n);
      assert s[..|s| - 1] == DecimalString(n / 10);
      DecimalRoundTrip(n / 10);
    }
  }

  /** A number with k digits prints as k characters, the first not '0'. */
  lemma {:induction false} DecimalLength(n: nat, k: nat)
    requires 1 <= k && Pow10(k - 1) <= n < Pow10(k)
    ensures |DecimalString(n)| == k
    ensures n > 0 ==> DecimalString(n)[0] != '0'
    decreases n
  {
    if n >= 10 {
      assert k >= 2;
      DecimalLength(n / 10, k - 1);
    }
  }

  /** What a stored code looks like: six decimal digits without a leading zero. */
  predicate IsOtpCode(s: string) {
    |s| == 6 && AllDigits(s) && s[0] != '0'
  }

  /** The code `/send-otp` stores for a given draw. */
  function CodeFor(draw: nat): (code: string)
    requires draw < DrawRange
    ensures IsOtpCode(code)
    ensures DigitsValue(code) == CodeBase + draw
  {
    var n := CodeBase + draw;
    assert Pow10(5) == 100000 && Pow10(6) == 1000000;
    DecimalLength(n, 6);
    DecimalRoundTrip(n);
    DecimalString(n)
  }

  /** Distinct draws give distinct codes: the 900000 codes are all different. */
  lemma CodeForInjective(d1: nat, d2: nat)
    requires d1 < DrawRange && d2 < DrawRange
    ensures CodeFor(d1) == CodeFor(d2) <==> d1 == d2
  {
  }
}
