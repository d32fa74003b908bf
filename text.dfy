/**
 * Decimal digit strings: the building blocks of the fixed-point amount
 * format and of the `YYYY-MM-DD HH:MM:SS` timestamp format.
 */
module Text {

  predicate IsDigit(c: char)
  {
    '0' <= c <= '9'
  }

  predicate AllDigits(s: string)
  {
    forall i | 0 <= i < |s| :: IsDigit(s[i])
  }

  function DigitChar(d: nat): (c: char)
    requires d < 10
    ensures IsDigit(c)
  {
    ('0' as int + d) as char
  }

  function DigitValue(c: char): (d: nat)
    requires IsDigit(c)
    ensures d < 10 && DigitChar(d) == c
  {
    c as int - '0' as int
  }

  function Pow10(n: nat): (r: nat)
    ensures r >= 1
  {
    if n == 0 then 1 else 10 * Pow10(n - 1)
  }

  /** The number a string of decimal digits denotes (leading zeros allowed). */
  function ValueOf(s: string): (v: nat)
    requires AllDigits(s)
  {
    if s == [] then 0 else 10 * ValueOf(s[..|s| - 1]) + DigitValue(s[|s| - 1])
  }

  /** `n` digits denote less than 10^n. */
  lemma {:induction false} ValueBound(s: string)
    requires AllDigits(s)
    ensures ValueOf(s) < Pow10(|s|)
  {
    if s != [] {
      ValueBound(s[..|s| - 1]);
    }
  }

  /** The `width` lowest decimal digits of `n`, zero-padded on the left. */
  function Padded(n: nat, width: nat): (s: string)
    ensures |s| == width && AllDigits(s)
  {
    if width == 0 then "" else Padded(n / 10, width - 1) + [DigitChar(n % 10)]
  }

  /** The shortest numeral of `n`: no leading zeros, "0" for zero. */
  function Numeral(n: nat): (s: string)
    ensures 1 <= |s| && AllDigits(s)
  {
    if n < 10 then [DigitChar(n)] else Numeral(n / 10) + [DigitChar(n % 10)]
  }

  /** Reading back a zero-padded numeral gives the number, when it fits the width. */
  lemma {:induction false} PaddedValue(n: nat, width: nat)
    requires n < Pow10(width)
    ensures ValueOf(Padded(n, width)) == n
  {
    if width > 0 {
      var s := Padded(n, width);
      assert n / 10 < Pow10(width - 1);
      PaddedValue(n / 10, width - 1);
      assert s[..|s| - 1] == Padded(n / 10, width - 1);
      assert DigitValue(s[|s| - 1]) == n % 10;
    }
  }

  /** A digit string is the zero-padded numeral of its own value at its own width. */
  lemma {:induction false} ValuePadded(s: string)
    requires AllDigits(s)
    ensures Padded(ValueOf(s), |s|) == s
  {
    if s != [] {
      var init := s[..|s| - 1];
      var v := ValueOf(s);
      ValuePadded(init);
      assert v / 10 == ValueOf(init) && v % 10 == DigitValue(s[|s| - 1]);
      assert s == init + [s[|s| - 1]];
    }
  }

  /** Reading back the shortest numeral gives the number. */
  lemma {:induction false} NumeralValue(n: nat)
    ensures ValueOf(Numeral(n)) == n
  {
    if n >= 10 {
      var s := Numeral(n);
      NumeralValue(n / 10);
      assert s[..|s| - 1] == Numeral(n / 10);
      assert DigitValue(s[|s| - 1]) == n % 10;
    }
  }

  /** The shortest numeral starts with '0' only for zero, which it writes as "0". */
  lemma NumeralLeading(n: nat)
    ensures Numeral(n)[0] == '0' <==> n == 0
    ensures n == 0 ==> Numeral(n) == "0"
  {
    if n >= 10 {
      NumeralLeading(n / 10);
      assert Numeral(n)[0] == Numeral(n / 10)[0];
    }
  }

  /** A digit string without leading zeros is the shortest numeral of its value. */
  lemma {:induction false} ValueNumeral(s: string)
    requires AllDigits(s) && 1 <= |s| && (s[0] == '0' ==> |s| == 1)
    ensures Numeral(ValueOf(s)) == s
  {
    if |s| > 1 {
      var init := s[..|s| - 1];
      assert init[0] == s[0];
      ValueNumeral(init);
      NumeralLeading(ValueOf(init));
      var v := ValueOf(s);
      assert ValueOf(init) != 0 by {
        if ValueOf(init) == 0 { assert false; }
      }
      assert v / 10 == ValueOf(init) && v % 10 == DigitValue(s[|s| - 1]);
      assert s == init + [s[|s| - 1]];
    }
  }
}
