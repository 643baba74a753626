/** Decimal rendering of a sample count, as Python's `str` writes a
    non-negative integer: digits only, no sign, no leading zero. */
module Decimal {

  predicate IsDigit(c: char) {
    '0' <= c <= '9'
  }

  function DigitChar(d: nat): (c: char)
    requires d < 10
    ensures IsDigit(c) && c as int - '0' as int == d
  {
    (d + '0' as int) as char
  }

  function DigitValue(c: char): nat
    requires IsDigit(c)
  {
    c as int - '0' as int
  }

  /** A numeral as Python's `str` writes a count: one or more digits, and
      no leading zero unless the numeral is "0" itself. */
  predicate Canonical(s: string) {
    && |s| >= 1
    && (forall i :: 0 <= i < |s| ==> IsDigit(s[i]))
    && (s[0] == '0' ==> |s| == 1)
  }

  /** The decimal digits of `n`. */
  function FromNat(n: nat): (s: string)
    ensures Canonical(s)
    ensures s[0] == '0' ==> n == 0
    decreases n
  {
    if n < 10 then [DigitChar(n)] else FromNat(n / 10) + [DigitChar(n % 10)]
  }

  /** The number a string of decimal digits denotes. */
  function Value(s: string): nat
    requires forall i :: 0 <= i < |s| ==> IsDigit(s[i])
  {
    if s == [] then 0 else Value(s[..|s| - 1]) * 10 + DigitValue(s[|s| - 1])
  }

  /** Reading back the digits of `n` gives `n`. */
  lemma {:induction false} ValueFromNat(n: nat)
    ensures Value(FromNat(n)) == n
    decreases n
  {
    var s := FromNat(n);
    if n >= 10 {
      var prefix := FromNat(n / 10);
      assert s[..|s| - 1] == prefix;
      ValueFromNat(n / 10);
    }
  }

  /** A numeral with a leading digit other than zero denotes at least 1, and
      at least 10 when it has two digits or more. */
  lemma {:induction false} ValueLeadingNonZero(s: string)
    requires |s| >= 1 && s[0] != '0'
    requires forall i :: 0 <= i < |s| ==> IsDigit(s[i])
    ensures Value(s) >= 1
    ensures |s| >= 2 ==> Value(s) >= 10
  {
    if |s| >= 2 {
      ValueLeadingNonZero(s[..|s| - 1]);
    }
  }

  /** Every canonical numeral is the one `FromNat` writes for its value:
      with `ValueFromNat`, `FromNat` and `Value` are inverse bijections
      between counts and canonical numerals. */
  lemma {:induction false} FromNatValue(s: string)
    requires Canonical(s)
    ensures FromNat(Value(s)) == s
    decreases |s|
  {
    var n := Value(s);
    if |s| == 1 {
      assert s[..0] == [] && Value(s[..0]) == 0;
      assert n == Value(s[..0]) * 10 + DigitValue(s[0]);
      assert DigitChar(n) == s[0];
    } else {
      var prefix, last := s[..|s| - 1], s[|s| - 1];
      assert prefix[0] == s[0];
      ValueLeadingNonZero(prefix);
      assert n == Value(prefix) * 10 + DigitValue(last);
      assert n / 10 == Value(prefix) && n % 10 == DigitValue(last);
      FromNatValue(prefix);
      assert DigitChar(n % 10) == last;
      assert s == prefix + [last];
    }
  }

  /** Two counts are written the same way only if they are equal. */
  lemma FromNatInjective(m: nat, n: nat)
    requires FromNat(m) == FromNat(n)
    ensures m == n
  {
    ValueFromNat(m);
    ValueFromNat(n);
  }

}
