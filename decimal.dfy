/** Decimal rendering and reading of integers: JavaScript's `String(n)` for
    integers, `padStart(3, "0")`, and `parseInt(digits, 10)`. */
module Decimal {

  /** The ASCII digits, which is what the regular-expression class `\d` matches. */
  predicate IsDigit(c: char) {
    '0' <= c <= '9'
  }

  predicate AllDigits(s: string) {
    forall i :: 0 <= i < |s| ==> IsDigit(s[i])
  }

  function DigitChar(d: nat): (c: char)
    requires d < 10
    ensures IsDigit(c)
  {
    ('0' as int + d) as char
  }

  function DigitValue(c: char): (d: nat)
    requires IsDigit(c)
    ensures d < 10 && DigitChar(d) == c
  {
    c as int - '0' as int
  }

  /** `String(n)` for a non-negative integer: its digits, most significant first. */
  function NatToString(n: nat): (s: string)
    ensures |s| >= 1 && AllDigits(s)
    ensures n < 10 <==> |s| == 1
    decreases n
  {
    if n < 10 then [DigitChar(n)] else NatToString(n / 10) + [DigitChar(n % 10)]
  }

  /** `String(i)` for an integer: a minus sign in front of a negative one. */
  function IntToString(i: int): string
  {
    if i < 0 then "-" + NatToString(-i) else NatToString(i)
  }

  /** The number a digit string denotes, as `parseInt(s, 10)` reads it. */
  function DecimalValue(s: string): nat
    requires AllDigits(s)
    decreases |s|
  {
    if s == [] then 0 else DecimalValue(s[..|s| - 1]) * 10 + DigitValue(s[|s| - 1])
  }

  function Zeros(k: nat): (z: string)
    ensures |z| == k && AllDigits(z)
  {
    seq(k, _ => '0')
  }

  /** `String(n).padStart(3, "0")`: zeros in front up to width 3; a longer
      number is left as it is, never truncated. */
  function Pad3(n: nat): (s: string)
    ensures AllDigits(s)
  {
    var d := NatToString(n);
    if |d| >= 3 then d else Zeros(3 - |d|) + d
  }

  // ---------------------------------------------------------------------

  /** Reading back what `NatToString` wrote gives the number. */
  lemma {:induction false} NatToStringValue(n: nat)
    ensures DecimalValue(NatToString(n)) == n
    decreases n
  {
    if n >= 10 {
      var s := NatToString(n);
      NatToStringValue(n / 10);
      assert s[..|s| - 1] == NatToString(n / 10);
      assert DigitValue(s[|s| - 1]) == n % 10;
    }
  }

  /** A leading zero does not change the value. */
  lemma {:induction false} LeadingZeroValue(s: string)
    requires AllDigits(s)
    ensures DecimalValue("0" + s) == DecimalValue(s)
    decreases |s|
  {
    var z := "0" + s;
    if s != [] {
      assert z[..|z| - 1] == "0" + s[..|s| - 1];
      assert z[|z| - 1] == s[|s| - 1];
      LeadingZeroValue(s[..|s| - 1]);
    } else {
      assert z[..0] == [];
    }
  }

  lemma {:induction false} ZerosValue(k: nat, s: string)
    requires AllDigits(s)
    ensures DecimalValue(Zeros(k) + s) == DecimalValue(s)
    decreases k
  {
    if k > 0 {
      assert Zeros(k) + s == "0" + (Zeros(k - 1) + s);
      ZerosValue(k - 1, s);
      LeadingZeroValue(Zeros(k - 1) + s);
    } else {
      assert Zeros(0) + s == s;
    }
  }

  /** The padded index reads back as the index: padding loses nothing. */
  lemma Pad3Value(n: nat)
    ensures DecimalValue(Pad3(n)) == n
  {
    var d := NatToString(n);
    NatToStringValue(n);
    if |d| < 3 {
      ZerosValue(3 - |d|, d);
    }
  }

  /** Distinct indices get distinct padded forms. */
  lemma Pad3Injective(j: nat, k: nat)
    requires Pad3(j) == Pad3(k)
    ensures j == k
  {
    Pad3Value(j);
    Pad3Value(k);
  }

  /** Below 1000 the padded form is exactly three digits. */
  lemma Pad3Digits(n: nat)
    requires n < 1000
    ensures Pad3(n) == [DigitChar(n / 100), DigitChar(n / 10 % 10), DigitChar(n % 10)]
  {
    if n < 10 {
      assert Zeros(2) == "00";
      assert DigitChar(0) == '0';
    } else if n < 100 {
      assert NatToString(n) == [DigitChar(n / 10)] + [DigitChar(n % 10)];
      assert Zeros(1) == "0";
      assert DigitChar(0) == '0';
    } else {
      assert NatToString(n / 10) == [DigitChar(n / 100)] + [DigitChar(n / 10 % 10)];
      assert NatToString(n) == NatToString(n / 10) + [DigitChar(n % 10)];
    }
  }

  /** From 1000 on the padded form is the plain number, longer than three. */
  lemma Pad3Long(n: nat)
    requires n >= 1000
    ensures Pad3(n) == NatToString(n) && |Pad3(n)| >= 4
  {
    var a := n / 10;
    var b := a / 10;
    assert a >= 100 && b >= 10;
    NatToStringLonger(b);
    NatToStringLonger(a);
    NatToStringLonger(n);
  }

  /** A number of two digits or more has one digit more than its tenth. */
  lemma NatToStringLonger(n: nat)
    requires n >= 10
    ensures |NatToString(n)| == |NatToString(n / 10)| + 1
  {
  }
}
