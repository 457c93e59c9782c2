/** JavaScript's conversion of a non-negative integer Number to a string, as a
    template literal `${n}` performs it: decimal digits, no sign, no leading
    zero. (Counts of array elements are far below 10^21, where JavaScript
    would switch to exponent notation.) */
module NumberFormat {

  predicate IsDigit(c: char) {
    '0' <= c <= '9'
  }

  predicate AllDigits(s: string) {
    forall i :: 0 <= i < |s| ==> IsDigit(s[i])
  }

  /** A numeral as `${n}` writes a non-negative integer: at least one digit,
      and no leading zero unless the numeral is "0" itself. */
  predicate IsNumeral(d: string) {
    |d| >= 1 && AllDigits(d) && (d[0] == '0' ==> d == "0")
  }

  /** The character for a digit value. */
  function DigitChar(d: nat): (c: char)
    requires d < 10
    ensures IsDigit(c) && c as int - '0' as int == d
  {
    "0123456789"[d]
  }

  /** The value of a digit character. */
  function DigitValue(c: char): nat
    requires IsDigit(c)
  {
    c as int - '0' as int
  }

  /** Decimal representation of `n`. */
  function NatToDecimal(n: nat): (r: string)
    ensures IsNumeral(r)
  {
    if n < 10 then [DigitChar(n)] else NatToDecimal(n / 10) + [DigitChar(n % 10)]
  }

  /** The number a digit string stands for, read most significant digit first
      (the reference reading of a decimal numeral). */
  function DecimalValue(s: string): nat
    requires AllDigits(s)
  {
    if s == [] then 0 else 10 * DecimalValue(s[..|s| - 1]) + DigitValue(s[|s| - 1])
  }

  /** Reading back the representation gives the number. */
  lemma {:induction false} DecimalRoundTrip(n: nat)
    ensures DecimalValue(NatToDecimal(n)) == n
  {
    var r := NatToDecimal(n);
    if n >= 10 {
      DecimalRoundTrip(n / 10);
      assert r[..|r| - 1] == NatToDecimal(n / 10);
    }
  }

  /** A digit string that does not start with '0' stands for a positive number. */
  lemma {:induction false} LeadingDigitPositive(s: string)
    requires |s| >= 1 && AllDigits(s) && s[0] != '0'
    ensures DecimalValue(s) >= 1
  {
    if |s| > 1 {
      LeadingDigitPositive(s[..|s| - 1]);
    }
  }

  /** Every numeral is the representation of the number it stands for, so
      the representation of `n` is the only numeral that reads back as `n`. */
  lemma {:induction false} NumeralIsDecimal(d: string)
    requires IsNumeral(d)
    ensures NatToDecimal(DecimalValue(d)) == d
  {
    var n := DecimalValue(d);
    var last := d[|d| - 1];
    if |d| == 1 {
      assert d[..0] == [] && DecimalValue(d[..0]) == 0;
      assert n == DigitValue(last) < 10;
      assert NatToDecimal(n) == [DigitChar(n)];
    } else {
      var p := d[..|d| - 1];
      assert p[0] == d[0] != '0';
      LeadingDigitPositive(p);
      NumeralIsDecimal(p);
      assert n == 10 * DecimalValue(p) + DigitValue(last);
      assert n / 10 == DecimalValue(p) && n % 10 == DigitValue(last);
      assert DigitChar(n % 10) == last;
      assert d == p + [last];
    }
  }

  /** Different numbers get different representations. */
  lemma NatToDecimalInjective(m: nat, n: nat)
    requires NatToDecimal(m) == NatToDecimal(n)
    ensures m == n
  {
    DecimalRoundTrip(m);
    DecimalRoundTrip(n);
  }

  /** A run of digits followed by a text that starts with a non-digit can be
      split off in one way only. */
  lemma {:induction false} DigitPrefixUnique(d1: string, u1: string, d2: string, u2: string)
    requires AllDigits(d1) && AllDigits(d2)
    requires u1 != [] && !IsDigit(u1[0]) && u2 != [] && !IsDigit(u2[0])
    requires d1 + u1 == d2 + u2
    ensures d1 == d2 && u1 == u2
  {
    // the common first character is a digit exactly when a numeral is non-empty
    assert IsDigit((d1 + u1)[0]) <==> d1 != [];
    assert IsDigit((d2 + u2)[0]) <==> d2 != [];
    if d1 == [] {
      assert d1 + u1 == u1 && d2 + u2 == u2;
    } else {
      assert (d1 + u1)[0] == d1[0] && (d2 + u2)[0] == d2[0];
      assert (d1 + u1)[1..] == d1[1..] + u1;
      assert (d2 + u2)[1..] == d2[1..] + u2;
      DigitPrefixUnique(d1[1..], u1, d2[1..], u2);
      assert d1 == [d1[0]] + d1[1..];
      assert d2 == [d2[0]] + d2[1..];
    }
  }

  /** In `prefix + numeral + sep + tail`, with `sep` starting with a
      non-digit, the numeral and the tail are determined by the whole. */
  lemma NumeralsSplitUnique(prefix: string, d1: string, sep: string, e1: string, d2: string, e2: string)
    requires AllDigits(d1) && AllDigits(d2)
    requires sep != [] && !IsDigit(sep[0])
    requires prefix + d1 + sep + e1 == prefix + d2 + sep + e2
    ensures d1 == d2 && e1 == e2
  {
    var w1, w2 := prefix + d1 + sep + e1, prefix + d2 + sep + e2;
    assert w1 == prefix + (d1 + (sep + e1));
    assert w2 == prefix + (d2 + (sep + e2));
    assert d1 + (sep + e1) == w1[|prefix|..];
    assert d2 + (sep + e2) == w2[|prefix|..];
    DigitPrefixUnique(d1, sep + e1, d2, sep + e2);
    assert e1 == (sep + e1)[|sep|..];
    assert e2 == (sep + e2)[|sep|..];
  }
}
