/** Decimal numerals and their value. */
module Decimal {

  const DIGITS: string := "0123456789"

  function Digit(d: int): char
    requires 0 <= d < 10
  {
    DIGITS[d]
  }

  predicate IsDigit(c: char) { '0' <= c <= '9' }

  function DigitValue(c: char): int {
    c as int - '0' as int
  }

  lemma DigitReads(d: int)
    requires 0 <= d < 10
    ensures IsDigit(Digit(d)) && DigitValue(Digit(d)) == d
  {
  }

  /** The numeral of `n`, without leading zeros. */
  function Dec(n: nat): (s: string)
    ensures |s| >= 1
  {
    if n < 10 then [Digit(n)] else Dec(n / 10) + [Digit(n % 10)]
  }

  function Value(s: string): int {
    if s == [] then 0 else Value(s[..|s| - 1]) * 10 + DigitValue(s[|s| - 1])
  }

  lemma {:induction false} DecReads(n: nat)
    ensures Value(Dec(n)) == n && (n > 0 ==> Dec(n)[0] != '0') && |Dec(0)| == 1
    ensures forall i :: 0 <= i < |Dec(n)| ==> IsDigit(Dec(n)[i])
    decreases n
  {
    DigitReads(n % 10);
    if n < 10 {
      assert Dec(n)[..0] == [];
    } else {
      DecReads(n / 10);
      assert Dec(n)[..|Dec(n)| - 1] == Dec(n / 10);
    }
  }

  function Zeros(k: nat): (s: string)
    ensures |s| == k
  {
    seq(k, _ => '0')
  }

  /** The numeral padded with zeros to at least `width` digits. */
  function Padded(n: nat, width: nat): string {
    var s := Dec(n);
    if |s| >= width then s else Zeros(width - |s|) + s
  }

  lemma {:induction false} ZerosKeepValue(k: nat, s: string)
    ensures Value(Zeros(k) + s) == Value(s)
    decreases |s|, k
  {
    var t := Zeros(k) + s;
    if s != [] {
      assert t[..|t| - 1] == Zeros(k) + s[..|s| - 1];
      ZerosKeepValue(k, s[..|s| - 1]);
    } else if k > 0 {
      assert t[..|t| - 1] == Zeros(k - 1) + [];
      ZerosKeepValue(k - 1, []);
    } else {
      assert t == [];
    }
  }

  lemma PaddedReads(n: nat, width: nat)
    ensures Value(Padded(n, width)) == n && |Padded(n, width)| >= width
    ensures forall i :: 0 <= i < |Padded(n, width)| ==> IsDigit(Padded(n, width)[i])
  {
    DecReads(n);
    var s := Dec(n);
    if |s| < width {
      ZerosKeepValue(width - |s|, s);
    }
  }

  lemma TwoDigits(n: nat)
    requires n < 100
    ensures |Padded(n, 2)| == 2
  {
    assert n >= 10 ==> Dec(n) == Dec(n / 10) + [Digit(n % 10)] && |Dec(n / 10)| == 1;
  }

  lemma FourDigits(n: nat)
    ensures |Padded(n, 4)| == 4 <==> n < 10_000
  {
    DecSize(n);
    DecSize(n / 10);
    DecSize(n / 100);
    DecSize(n / 1_000);
  }

  lemma DecSize(n: nat)
    ensures |Dec(n)| == if n < 10 then 1 else |Dec(n / 10)| + 1
  {
  }
}
