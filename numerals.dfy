/** Python's `str(n)` for a non-negative integer, used to number the
    selected slice in its title, with the decimal reading that inverts it. */
module Numerals {

  predicate IsDigit(c: char) {
    '0' <= c <= '9'
  }

  predicate AllDigits(s: string) {
    forall i :: 0 <= i < |s| ==> IsDigit(s[i])
  }

  function DigitChar(d: nat): (c: char)
    requires d < 10
    ensures IsDigit(c) && (c as int) - ('0' as int) == d
  {
    ((d + '0' as int) as char)
  }

  /** `str(n)`: the shortest decimal numeral of `n`, without leading zeros. */
  function NatToString(n: nat): (s: string)
    ensures |s| >= 1 && AllDigits(s)
    ensures |s| > 1 ==> s[0] != '0'
  {
    if n < 10 then [DigitChar(n)] else NatToString(n / 10) + [DigitChar(n % 10)]
  }

  /** The value of a string of decimal digits. */
  function DecimalValue(s: string): nat
    requires AllDigits(s)
  {
    if s == [] then 0
    else 10 * DecimalValue(s[..|s| - 1]) + ((s[|s| - 1] as int) - ('0' as int))
  }

  /** Reading back the numeral gives the number: `int(str(n)) == n`. */
  lemma {:induction false} DecimalRoundTrip(n: nat)
    ensures DecimalValue(NatToString(n)) == n
  {
    if n >= 10 {
      var s := NatToString(n);
      assert s[..|s| - 1] == NatToString(n / 10);
      DecimalRoundTrip(n / 10);
    }
  }

  /** `s` is the numeral `str(n)`: non-empty decimal digits, no leading
      zero, reading as `n`. */
  predicate IsNumeral(s: string, n: nat) {
    && s != []
    && AllDigits(s)
    && (|s| > 1 ==> s[0] != '0')
    && DecimalValue(s) == n
  }

  /** `str(n)` is a numeral of `n`. */
  lemma NatToStringIsNumeral(n: nat)
    ensures IsNumeral(NatToString(n), n)
  {
    DecimalRoundTrip(n);
  }

  /** Only one string is a numeral of `n`: the properties of IsNumeral
      determine `str(n)`. */
  lemma {:induction false} NumeralUnique(s: string, n: nat)
    requires IsNumeral(s, n)
    ensures s == NatToString(n)
  {
    var last := (s[|s| - 1] as int) - ('0' as int);
    if |s| == 1 {
      assert n == last;
      assert [DigitChar(n)] == s;
    } else {
      var p := s[..|s| - 1];
      var v := DecimalValue(p);
      assert IsNumeral(p, v) by {
        assert p[0] == s[0];
      }
      NumeralUnique(p, v);
      assert p[0] != '0';
      assert v != 0;
      assert n / 10 == v && n % 10 == last;
      assert s == p + [DigitChar(last)];
    }
  }

  /** Different numbers get different numerals. */
  lemma NatToStringInjective(m: nat, n: nat)
    requires NatToString(m) == NatToString(n)
    ensures m == n
  {
    DecimalRoundTrip(m);
    DecimalRoundTrip(n);
  }
}
