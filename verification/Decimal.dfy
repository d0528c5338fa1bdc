/** Decimal digits: printing natural numbers and reading them back. */
module Decimal {

  function Pow10(k: nat): (p: nat)
    ensures p >= 1
  {
    if k == 0 then 1 else 10 * Pow10(k - 1)
  }

  function Div(n: nat, d: nat): nat
    requires d > 0
  {
    n / d
  }

  function Mod(n: nat, d: nat): nat
    requires d > 0
  {
    n % d
  }

  function Quotient(n: nat, k: nat): nat { Div(n, Pow10(k)) }

  function Remainder(n: nat, k: nat): nat { Mod(n, Pow10(k)) }

  lemma DivMod(n: nat, d: nat)
    requires d > 0
    ensures n == (n / d) * d + n % d && n % d < d
  {
  }

  lemma QuotientRemainder(n: nat, k: nat)
    ensures n == Quotient(n, k) * Pow10(k) + Remainder(n, k) && Remainder(n, k) < Pow10(k)
  {
    DivMod(n, Pow10(k));
  }

  predicate IsDigit(c: char) { '0' <= c <= '9' }

  predicate AllDigits(s: string) {
    forall i :: 0 <= i < |s| ==> IsDigit(s[i])
  }

  function DigitChar(d: nat): (c: char)
    requires d < 10
    ensures IsDigit(c) && DigitValue(c) == d
  {
    (d + '0' as int) as char
  }

  function DigitValue(c: char): (d: nat)
    ensures d < 10
  {
    if IsDigit(c) then c as int - '0' as int else 0
  }

  /** The shortest decimal numeral of n. */
  function Digits(n: nat): (s: string)
    ensures s != "" && AllDigits(s)
  {
    if n < 10 then [DigitChar(n)] else Digits(n / 10) + [DigitChar(n % 10)]
  }

  function Value(s: string): nat {
    if s == "" then 0 else 10 * Value(s[..|s| - 1]) + DigitValue(s[|s| - 1])
  }

  function Zeros(k: nat): (s: string)
    ensures |s| == k && AllDigits(s)
  {
    if k == 0 then "" else Zeros(k - 1) + ['0']
  }

  /** padStart with zeros. */
  function PadStart(s: string, width: nat): (r: string)
    ensures |r| == if |s| >= width then |s| else width
    ensures AllDigits(s) ==> AllDigits(r)
  {
    if |s| >= width then s else Zeros(width - |s|) + s
  }

  lemma {:induction false} ValueOfDigits(n: nat)
    ensures Value(Digits(n)) == n
  {
    if n >= 10 {
      ValueOfDigits(n / 10);
      assert Digits(n)[..|Digits(n)| - 1] == Digits(n / 10);
    } else {
      assert Digits(n)[..0] == "";
    }
  }

  lemma TimesTen(x: nat, p: nat, v: nat, d: nat)
    ensures 10 * (x * p + v) + d == x * (10 * p) + (10 * v + d)
  {
  }

  lemma {:induction false} ValueAppend(a: string, b: string)
    ensures Value(a + b) == Value(a) * Pow10(|b|) + Value(b)
  {
    if b == "" {
      assert a + b == a;
    } else {
      var b' := b[..|b| - 1];
      var s, d := a + b, DigitValue(b[|b| - 1]);
      assert s[..|s| - 1] == a + b' && s[|s| - 1] == b[|b| - 1];
      ValueAppend(a, b');
      TimesTen(Value(a), Pow10(|b'|), Value(b'), d);
    }
  }

  lemma {:induction false} ValueBound(s: string)
    ensures Value(s) < Pow10(|s|)
  {
    if s != "" { ValueBound(s[..|s| - 1]); }
  }

  lemma {:induction false} ValueZeros(k: nat)
    ensures Value(Zeros(k)) == 0
  {
    if k > 0 {
      ValueZeros(k - 1);
      assert Zeros(k)[..k - 1] == Zeros(k - 1);
    }
  }

  lemma {:induction false} ValueZerosAppend(k: nat, s: string)
    ensures Value(Zeros(k) + s) == Value(s)
  {
    if s == "" {
      ValueZeros(k);
      assert Zeros(k) + s == Zeros(k);
    } else {
      ValueZerosAppend(k, s[..|s| - 1]);
      assert (Zeros(k) + s)[..k + |s| - 1] == Zeros(k) + s[..|s| - 1];
    }
  }

  lemma ValuePadStart(s: string, width: nat)
    ensures Value(PadStart(s, width)) == Value(s)
  {
    if |s| < width {
      ValueZerosAppend(width - |s|, s);
    }
  }

  /** The length of a numeral brackets the number. */
  lemma {:induction false} DigitsLength(n: nat)
    ensures n < Pow10(|Digits(n)|)
    ensures n >= 10 ==> Pow10(|Digits(n)| - 1) <= n
  {
    if n >= 10 {
      DigitsLength(n / 10);
      assert |Digits(n)| == |Digits(n / 10)| + 1;
      if n / 10 < 10 {
        assert |Digits(n / 10)| == 1 && Pow10(1) == 10 * Pow10(0);
      }
    } else {
      assert Pow10(1) == 10 * Pow10(0);
    }
  }

  lemma {:induction false} Pow10Monotone(j: nat, k: nat)
    requires j <= k
    ensures Pow10(j) <= Pow10(k)
  {
    if j < k { Pow10Monotone(j, k - 1); }
  }

  /** A number below 10^k needs at most k digits. */
  lemma DigitsFit(n: nat, k: nat)
    requires k >= 1 && n < Pow10(k)
    ensures |Digits(n)| <= k
  {
    DigitsLength(n);
    var j: nat := |Digits(n)| - 1;
    if k <= j { Pow10Monotone(k, j); }
  }
}
