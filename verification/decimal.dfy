/** Decimal notation of natural numbers, as produced by Rust's `Display`
    for unsigned integers: the shortest run of ASCII digits, no sign, no
    leading zero. */
module Decimal {

  predicate IsDigit(c: char) {
    '0' <= c <= '9'
  }

  /** A non-empty run of ASCII digits. */
  predicate IsNumeral(s: string) {
    |s| > 0 && forall k :: 0 <= k < |s| ==> IsDigit(s[k])
  }

  /** A numeral without a leading zero: the only numeral that starts with
      `0` is `0` itself. */
  predicate IsCanonical(s: string) {
    IsNumeral(s) && (|s| > 1 ==> s[0] != '0')
  }

  function DigitChar(d: nat): (c: char)
    requires d < 10
    ensures IsDigit(c)
  {
    ('0' as int + d) as char
  }

  function DigitValue(c: char): (d: nat)
    requires IsDigit(c)
    ensures d < 10
  {
    c as int - '0' as int
  }

  /** The decimal text of `n`. */
  function Show(n: nat): (s: string)
    ensures IsNumeral(s)
    ensures n > 0 ==> s[0] != '0'
    ensures n < 10 <==> |s| == 1
    decreases n
  {
    if n < 10 then [DigitChar(n)] else Show(n / 10) + [DigitChar(n % 10)]
  }

  /** The value of a run of decimal digits, most significant first. */
  function Parse(s: string): (n: nat)
    requires forall k :: 0 <= k < |s| ==> IsDigit(s[k])
    decreases |s|
  {
    if s == [] then 0 else Parse(s[..|s| - 1]) * 10 + DigitValue(s[|s| - 1])
  }

  /** Reading back the decimal text of `n` gives `n`. */
  lemma {:induction false} ParseShow(n: nat)
    ensures Parse(Show(n)) == n
  {
    var s := Show(n);
    if n >= 10 {
      ParseShow(n / 10);
      assert s[..|s| - 1] == Show(n / 10);
    }
  }

  /** A numeral whose first digit is not `0` has a positive value. */
  lemma {:induction false} ParsePositive(s: string)
    requires IsNumeral(s) && s[0] != '0'
    ensures Parse(s) > 0
  {
    if |s| > 1 {
      ParsePositive(s[..|s| - 1]);
    }
  }

  /** Writing the value of a canonical numeral gives the numeral back, so
      the decimal text of each number is unique. */
  lemma {:induction false} ShowParse(s: string)
    requires IsCanonical(s)
    ensures Show(Parse(s)) == s
  {
    if |s| > 1 {
      var init, last := s[..|s| - 1], s[|s| - 1];
      assert IsCanonical(init) && init[0] != '0';
      ParsePositive(init);
      ShowParse(init);
      var n := Parse(s);
      assert n / 10 == Parse(init) && n % 10 == DigitValue(last);
      assert DigitChar(DigitValue(last)) == last;
      assert s == init + [last];
    }
  }
}
