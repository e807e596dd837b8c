/** Numbers as text, as printf writes them with %u, %zu and %x. */
module Numerals {

  function DigitChar(d: nat): char
    requires d < 16
  {
    "0123456789abcdef"[d]
  }

  /** The value of a character as a digit; 16 when it is none. */
  function DigitValue(c: char): (d: nat)
    ensures d <= 16
  {
    if '0' <= c <= '9' then c as nat - '0' as nat
    else if 'a' <= c <= 'f' then c as nat - 'a' as nat + 10
    else if 'A' <= c <= 'F' then c as nat - 'A' as nat + 10
    else 16
  }

  predicate IsDigit(c: char, base: nat) {
    DigitValue(c) < base
  }

  /** The numeral of n, without leading zeros. */
  function Numeral(n: nat, base: nat): (s: string)
    requires 2 <= base <= 16
    ensures |s| >= 1
    decreases n
  {
    if n < base then [DigitChar(n)] else Numeral(n / base, base) + [DigitChar(n % base)]
  }

  /** What %d makes of a number. */
  function Printed(x: int): string {
    if x < 0 then "-" + Numeral(-x, 10) else Numeral(x, 10)
  }

  predicate AllDigits(s: string, base: nat) {
    forall i :: 0 <= i < |s| ==> IsDigit(s[i], base)
  }

  /** The number that a string of digits stands for. */
  function Value(s: string, base: nat): nat
    requires AllDigits(s, base)
  {
    if s == "" then 0 else Value(s[..|s| - 1], base) * base + DigitValue(s[|s| - 1])
  }

  lemma DigitOfChar(d: nat)
    requires d < 16
    ensures DigitValue(DigitChar(d)) == d
  {
  }

  lemma QuotientBelow(x: nat, y: nat, q: int, r: int)
    requires y > 0 && x == q * y + r && 0 <= r < y
    ensures 0 <= q <= x && (y >= 2 ==> 2 * q <= x) && (x >= y ==> q > 0)
  {
    NegativeProduct(q, y);
    if q >= 0 {
      assert q * (y - 1) >= 0;
      if y >= 2 {
        assert q * (y - 2) >= 0;
      }
    }
  }

  lemma NegativeProduct(q: int, y: int)
    requires y > 0
    ensures q < 0 ==> q * y <= -y
  {
    if q < 0 {
      assert q * y <= -1 * y;
    }
  }

  lemma Decreasing(n: nat, base: nat)
    requires base >= 2 && n >= base
    ensures 0 < n / base < n
  {
    QuotientBelow(n, base, n / base, n % base);
  }

  /** Reading a numeral gives the number back. */
  lemma {:induction false} ValueOfNumeral(n: nat, base: nat)
    requires 2 <= base <= 16
    ensures AllDigits(Numeral(n, base), base) && Value(Numeral(n, base), base) == n
    decreases n
  {
    hide DigitChar, DigitValue, Value, AllDigits;
    NoDigits(base);
    if n < base {
      DigitOfChar(n);
      ValueOfLast("", DigitChar(n), base);
      assert "" + [DigitChar(n)] == [DigitChar(n)];
    } else {
      Decreasing(n, base);
      ValueOfNumeral(n / base, base);
      DigitOfChar(n % base);
      ValueOfLast(Numeral(n / base, base), DigitChar(n % base), base);
    }
  }

  /** Numerals are written in decimal digits and small letters, and begin with zero only for zero. */
  lemma {:induction false} NumeralText(n: nat, base: nat)
    requires 2 <= base <= 16
    ensures forall i :: 0 <= i < |Numeral(n, base)| ==> Numeral(n, base)[i] in "0123456789abcdef"[..base]
    ensures n > 0 ==> Numeral(n, base)[0] != '0'
    decreases n
  {
    hide DigitChar;
    DigitText(n % base, base);
    if n < base {
      DigitText(n, base);
    } else {
      Decreasing(n, base);
      NumeralText(n / base, base);
    }
  }

  lemma DigitText(d: nat, base: nat)
    requires d < base <= 16
    ensures DigitChar(d) in "0123456789abcdef"[..base] && (d > 0 ==> DigitChar(d) != '0')
  {
    assert "0123456789abcdef"[..base][d] == DigitChar(d);
  }

  lemma NoDigits(base: nat)
    ensures AllDigits("", base) && Value("", base) == 0
  {
  }

  lemma ValueOfLast(s: string, c: char, base: nat)
    requires AllDigits(s, base) && IsDigit(c, base)
    ensures AllDigits(s + [c], base) && Value(s + [c], base) == Value(s, base) * base + DigitValue(c)
  {
    assert (s + [c])[..|s|] == s;
  }

  function Pow(b: nat, e: nat): nat {
    if e == 0 then 1 else b * Pow(b, e - 1)
  }

  /** A numeral has at most d digits exactly when the number is below base to the power of d. */
  lemma {:induction false} NumeralLength(n: nat, base: nat, d: nat)
    requires 2 <= base <= 16 && d >= 1
    ensures |Numeral(n, base)| <= d <==> n < Pow(base, d)
    decreases n
  {
    assert Pow(base, d) == base * Pow(base, d - 1);
    PowPositive(base, d - 1);
    if n < base {
      assert base * Pow(base, d - 1) >= base * 1;
    } else if d == 1 {
      assert Pow(base, 0) == 1;
    } else {
      Decreasing(n, base);
      NumeralLength(n / base, base, d - 1);
      DivLess(n, base, Pow(base, d - 1));
    }
  }

  lemma DivLess(n: nat, b: nat, p: nat)
    requires b > 0
    ensures n / b < p <==> n < b * p
  {
    var q, r := n / b, n % b;
    assert n == b * q + r;
    if q < p {
      assert b * (q + 1) <= b * p;
    } else {
      assert b * p <= b * q;
    }
  }

  lemma {:induction false} PowPositive(b: nat, e: nat)
    requires b >= 1
    ensures Pow(b, e) >= 1
  {
    if e > 0 {
      PowPositive(b, e - 1);
    }
  }
}
