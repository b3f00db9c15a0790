/** Decimal text of non-negative integers, as JavaScript's
    `Number.prototype.toString` produces it for integral values, and the
    canonical-decimal characterisation of that text. */
module Decimal {

  predicate IsDigit(c: char) {
    '0' <= c <= '9'
  }

  function DigitChar(d: nat): (c: char)
    requires d < 10
    ensures IsDigit(c)
  {
    (48 + d) as char
  }

  function DigitValue(c: char): (d: nat)
    requires IsDigit(c)
    ensures d < 10
  {
    c as int - 48
  }

  predicate AllDigits(s: string) {
    forall i | 0 <= i < |s| :: IsDigit(s[i])
  }

  /** Canonical decimal text: at least one digit, only digits, and no
      leading zero unless the text is exactly "0". */
  predicate IsCanonical(s: string) {
    |s| >= 1 && AllDigits(s) && (s[0] == '0' ==> |s| == 1)
  }

  /** `n.toString()` for an integral `n >= 0`. */
  function NatToDecimal(n: nat): (s: string)
    ensures IsCanonical(s)
    ensures s[0] == '0' <==> n == 0
  {
    if n < 10 then [DigitChar(n)] else NatToDecimal(n / 10) + [DigitChar(n % 10)]
  }

  /** The number a string of digits denotes, most significant digit first. */
  function DecimalValue(s: string): nat
    requires AllDigits(s)
  {
    if |s| == 0 then 0 else DecimalValue(s[..|s| - 1]) * 10 + DigitValue(s[|s| - 1])
  }

  /** Reading back the text of `n` gives `n`. */
  lemma {:induction false} DecimalValueOfText(n: nat)
    ensures DecimalValue(NatToDecimal(n)) == n
  {
    if n >= 10 {
      var s := NatToDecimal(n);
      assert s[..|s| - 1] == NatToDecimal(n / 10);
      DecimalValueOfText(n / 10);
    }
  }

  /** Every canonical decimal string is the text of the number it denotes. */
  lemma {:induction false} TextOfDecimalValue(s: string)
    requires IsCanonical(s)
    ensures NatToDecimal(DecimalValue(s)) == s
    decreases |s|
  {
    if |s| == 1 {
      assert DecimalValue(s) == DigitValue(s[0]);
      assert [DigitChar(DigitValue(s[0]))] == s;
    } else {
      var p := s[..|s| - 1];
      assert p[0] == s[0];
      TextOfDecimalValue(p);
      var v := DecimalValue(s);
      assert DecimalValue(p) != 0;
      assert v / 10 == DecimalValue(p) && v % 10 == DigitValue(s[|s| - 1]);
      assert NatToDecimal(v) == p + [s[|s| - 1]];
    }
  }

  /** A string is the text of `n` exactly when it is canonical decimal text
      whose value is `n`: no sign, no leading zeros, no fraction. */
  lemma DecimalTextIff(s: string, n: nat)
    ensures s == NatToDecimal(n) <==> IsCanonical(s) && DecimalValue(s) == n
  {
    if s == NatToDecimal(n) {
      DecimalValueOfText(n);
    }
    if IsCanonical(s) && DecimalValue(s) == n {
      TextOfDecimalValue(s);
    }
  }

  /** Distinct numbers have distinct texts. */
  lemma TextInjective(m: nat, n: nat)
    ensures NatToDecimal(m) == NatToDecimal(n) <==> m == n
  {
    DecimalValueOfText(m);
    DecimalValueOfText(n);
  }
}
