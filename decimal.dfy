/**
 * Decimal numerals as the timer reads and writes them: `std::stoi` on a run
 * of ASCII digits, and `operator<<` of a non-negative `int` under
 * `std::setfill('0') << std::setw(width)`.
 */
module Decimal {

  /** `\d` of the duration pattern: an ASCII decimal digit. */
  predicate IsDigit(c: char) {
    '0' <= c <= '9'
  }

  /** Every character is a digit (the empty string included). */
  predicate IsDigits(s: string) {
    forall i | 0 <= i < |s| :: IsDigit(s[i])
  }

  /** `\d+`: a non-empty run of digits. */
  predicate IsNumeral(s: string) {
    |s| > 0 && IsDigits(s)
  }

  function DigitValue(c: char): (d: nat)
    requires IsDigit(c)
    ensures d < 10
  {
    (c as int - '0' as int) as nat
  }

  function DigitChar(d: nat): (c: char)
    requires d < 10
    ensures IsDigit(c) && DigitValue(c) == d
  {
    ('0' as int + d) as char
  }

  /** The value `std::stoi` gives a run of digits, accumulated left to right. */
  function Value(s: string): nat
    requires IsDigits(s)
    decreases |s|
  {
    if |s| == 0 then 0 else Value(s[..|s| - 1]) * 10 + DigitValue(s[|s| - 1])
  }

  /** The shortest decimal numeral of `n`, as `operator<<` writes it. */
  function Show(n: nat): string
    decreases n
  {
    if n < 10 then [DigitChar(n)] else Show(n / 10) + [DigitChar(n % 10)]
  }

  /** `k` fill characters '0'. */
  function Zeros(k: nat): (z: string)
    ensures |z| == k
  {
    seq(k, _ => '0')
  }

  /** `std::setfill('0') << std::setw(width)`: pad on the left up to `width`. */
  function ZeroPad(s: string, width: nat): (r: string)
    ensures |r| == if |s| < width then width else |s|
  {
    if |s| < width then Zeros(width - |s|) + s else s
  }

  /**
   * What `operator<<` writes is a numeral of one digit below 10, and of at
   * most two digits below 100; it starts with '0' only when it is 0.
   */
  lemma {:induction false} ShowNumeral(n: nat)
    ensures IsNumeral(Show(n))
    ensures n < 10 <==> |Show(n)| == 1
    ensures n < 100 ==> |Show(n)| <= 2
    ensures Show(n)[0] == '0' ==> n == 0
    decreases n
  {
    if n >= 10 {
      ShowNumeral(n / 10);
      var s := Show(n);
      assert s == Show(n / 10) + [DigitChar(n % 10)];
      assert s[0] == Show(n / 10)[0];
      forall i | 0 <= i < |s| ensures IsDigit(s[i]) {
        if i < |s| - 1 { assert s[i] == Show(n / 10)[i]; }
      }
    }
  }

  /** Reading back what was written gives the number back. */
  lemma {:induction false} ValueShow(n: nat)
    ensures IsDigits(Show(n)) && Value(Show(n)) == n
    decreases n
  {
    ShowNumeral(n);
    if n >= 10 {
      var s := Show(n);
      assert s[..|s| - 1] == Show(n / 10);
      ValueShow(n / 10);
    }
  }

  lemma ZerosDigits(k: nat)
    ensures IsDigits(Zeros(k))
  {
  }

  lemma {:induction false} ValueZeros(k: nat)
    ensures IsDigits(Zeros(k)) && Value(Zeros(k)) == 0
  {
    ZerosDigits(k);
    if k > 0 {
      assert Zeros(k)[..k - 1] == Zeros(k - 1);
      ValueZeros(k - 1);
    }
  }

  /** Leading zeros do not change the value `std::stoi` reads. */
  lemma {:induction false} ValueLeadingZeros(k: nat, s: string)
    requires IsDigits(s)
    ensures IsDigits(Zeros(k) + s)
    ensures Value(Zeros(k) + s) == Value(s)
    decreases |s|
  {
    var t := Zeros(k) + s;
    ZerosDigits(k);
    assert IsDigits(t) by {
      forall i | 0 <= i < |t| ensures IsDigit(t[i]) {
        if i < k { assert t[i] == Zeros(k)[i]; } else { assert t[i] == s[i - k]; }
      }
    }
    if |s| == 0 {
      assert t == Zeros(k);
      ValueZeros(k);
    } else {
      assert t[..|t| - 1] == Zeros(k) + s[..|s| - 1];
      assert t[|t| - 1] == s[|s| - 1];
      ValueLeadingZeros(k, s[..|s| - 1]);
    }
  }

  /** Padding keeps a numeral a numeral and keeps its value. */
  lemma ZeroPadNumeral(s: string, width: nat)
    requires IsNumeral(s)
    ensures IsNumeral(ZeroPad(s, width))
    ensures Value(ZeroPad(s, width)) == Value(s)
  {
    if |s| < width {
      ValueLeadingZeros(width - |s|, s);
    }
  }
}
