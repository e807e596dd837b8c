/** gl/intprops.h: tests for overflow, and bounds on the length of printed integers. */
module IntProps {
  import opened MachineInts
  import opened Numerals

  /** A C integer type, by its range. */
  datatype IntType = IntType(min: int, max: int) {
    /** Unsigned, or signed with or without an extra negative value. */
    predicate Valid() { 0 <= max && (min == 0 || min == -max || min == -max - 1) }

    predicate Holds(x: int) { min <= x <= max }
  }

  // What the macros compute with: none of these operators may leave the range of the type.

  function Plus(t: IntType, x: int, y: int): int
    requires t.Holds(x + y)
  {
    x + y
  }

  function Minus(t: IntType, x: int, y: int): int
    requires t.Holds(x - y)
  {
    x - y
  }

  function Over(t: IntType, x: int, y: int): int
    requires y != 0 && t.Holds(CDiv(x, y))
  {
    CDiv(x, y)
  }

  /** INT_ADD_RANGE_OVERFLOW */
  predicate AddRangeOverflow(t: IntType, a: int, b: int)
    requires t.Valid() && t.Holds(a) && t.Holds(b)
  {
    if b < 0 then a < Minus(t, t.min, b) else Minus(t, t.max, b) < a
  }

  /** INT_SUBTRACT_RANGE_OVERFLOW */
  predicate SubtractRangeOverflow(t: IntType, a: int, b: int)
    requires t.Valid() && t.Holds(a) && t.Holds(b)
  {
    if b < 0 then Plus(t, t.max, b) < a else a < Plus(t, t.min, b)
  }

  /** INT_NEGATE_RANGE_OVERFLOW */
  predicate NegateRangeOverflow(t: IntType, a: int)
    requires t.Valid() && t.Holds(a)
  {
    if t.min < 0 then a < Minus(t, 0, t.max) else 0 < a
  }

  /** INT_MULTIPLY_RANGE_OVERFLOW */
  predicate MultiplyRangeOverflow(t: IntType, a: int, b: int)
    requires t.Valid() && t.Holds(a) && t.Holds(b)
  {
    QuotientsHold(t, b);
    if b < 0 then
      if a < 0 then a < Over(t, t.max, b)
      else if b == -1 then false
      else Over(t, t.min, b) < a
    else if b == 0 then false
    else if a < 0 then a < Over(t, t.min, b)
    else Over(t, t.max, b) < a
  }

  /** INT_DIVIDE_RANGE_OVERFLOW */
  predicate DivideRangeOverflow(t: IntType, a: int, b: int)
    requires t.Valid() && t.Holds(a) && t.Holds(b)
  {
    t.min < 0 && b == -1 && a < Minus(t, 0, t.max)
  }

  /** INT_LEFT_SHIFT_RANGE_OVERFLOW, where a shift to the right rounds down. */
  predicate LeftShiftRangeOverflow(t: IntType, a: int, b: nat)
    requires t.Valid() && t.Holds(a)
  {
    PowPositive(2, b);
    if a < 0 then a < t.min / Pow(2, b) else t.max / Pow(2, b) < a
  }

  // ----- The tests are exact -----

  lemma AddExact(t: IntType, a: int, b: int)
    requires t.Valid() && t.Holds(a) && t.Holds(b)
    ensures AddRangeOverflow(t, a, b) <==> !t.Holds(a + b)
    ensures SubtractRangeOverflow(t, a, b) <==> !t.Holds(a - b)
    ensures NegateRangeOverflow(t, a) <==> !t.Holds(-a)
  {
  }

  lemma QuotientSmall(x: nat, y: nat)
    requires y > 0
    ensures 0 <= x / y <= x && (y >= 2 ==> 2 * (x / y) <= x)
  {
    QuotientBelow(x, y, x / y, x % y);
  }

  lemma QuotientsHold(t: IntType, b: int)
    requires t.Valid() && t.Holds(b)
    ensures b != 0 ==> t.Holds(CDiv(t.max, b)) && (b != -1 ==> t.Holds(CDiv(t.min, b)))
  {
    if b != 0 {
      var y := if b < 0 then -b else b;
      QuotientSmall(t.max, y);
      QuotientSmall(-t.min, y);
    }
  }

  lemma MultiplyExact(t: IntType, a: int, b: int)
    requires t.Valid() && t.Holds(a) && t.Holds(b)
    ensures MultiplyRangeOverflow(t, a, b) <==> !t.Holds(a * b)
  {
    hide MultiplyRangeOverflow, CDiv;
    if b == 0 {
      MultiplyByZero(t, a);
    } else {
      var x: nat, y: nat := if a < 0 then -a else a, if b < 0 then -b else b;
      var p := x * y;
      DivLess(t.max, y, x);
      DivLess(-t.min, y, x);
      assert y * x == p;
      assert a * b == if (a < 0) == (b < 0) then p else -p by {
        SignedProduct(a, b);
      }
      MultiplyCases(t, a, b, x, y);
    }
  }

  lemma MultiplyByZero(t: IntType, a: int)
    requires t.Valid() && t.Holds(a) && t.Holds(0)
    ensures !MultiplyRangeOverflow(t, a, 0)
  {
  }

  lemma SignedProduct(a: int, b: int)
    ensures (-a) * b == -(a * b) && a * -b == -(a * b) && (-a) * -b == a * b
  {
  }

  /** The tests with the quotients of the absolute values. */
  lemma MultiplyCases(t: IntType, a: int, b: int, x: nat, y: nat)
    requires t.Valid() && t.Holds(a) && t.Holds(b) && b != 0
    requires x == (if a < 0 then -a else a) && y == if b < 0 then -b else b
    ensures (a < 0) == (b < 0) ==> (MultiplyRangeOverflow(t, a, b) <==> t.max / y < x)
    ensures a >= 0 && b == -1 ==> !MultiplyRangeOverflow(t, a, b)
    ensures (a < 0) != (b < 0) && b != -1 ==> (MultiplyRangeOverflow(t, a, b) <==> -t.min / y < x)
  {
    QuotientSmall(-t.min, y);
    QuotientSmall(t.max, y);
  }

  /** Only the lowest value divided by -1 leaves the range. */
  lemma DivideExact(t: IntType, a: int, b: int)
    requires t.Valid() && t.Holds(a) && t.Holds(b) && b != 0
    ensures DivideRangeOverflow(t, a, b) <==> !t.Holds(CDiv(a, b))
  {
    var x, y := if a < 0 then -a else a, if b < 0 then -b else b;
    QuotientSmall(x, y);
  }

  /** The value just below the quotient of the minimum, when that is not whole. */
  predicate Overlooked(t: IntType, a: int, b: nat)
  {
    PowPositive(2, b);
    a < 0 && t.min % Pow(2, b) != 0 && a == t.min / Pow(2, b)
  }

  /** The test for a shift is right except for one value, which it lets pass although the result is too small. */
  lemma LeftShiftAlmostExact(t: IntType, a: int, b: nat)
    requires t.Valid() && t.Holds(a)
    ensures !Overlooked(t, a, b) <==> (LeftShiftRangeOverflow(t, a, b) <==> !t.Holds(a * Pow(2, b)))
  {
    hide Pow;
    PowPositive(2, b);
    var p := Pow(2, b);
    if a < 0 {
      FloorCases(t.min, p, a);
    } else {
      DivLess(t.max, p, a);
      assert p * a == a * p >= 0;
    }
  }

  lemma FloorCases(m: int, p: int, a: int)
    requires p > 0 && a < 0
    ensures a < m / p ==> a * p < m
    ensures a > m / p ==> a * p >= m
    ensures a == m / p ==> (a * p < m <==> m % p != 0)
    ensures a * p < 0
  {
    var q := m / p;
    assert m == q * p + m % p;
    if a < q {
      assert (a + 1) * p <= q * p;
      assert (a + 1) * p == a * p + p;
    } else if a > q {
      assert a * p >= (q + 1) * p;
      assert (q + 1) * p == q * p + p;
    }
  }

  lemma {:induction false} PowDivides(b: nat, c: nat)
    requires b <= c
    ensures Pow(2, b) > 0 && Pow(2, c) % Pow(2, b) == 0
    decreases c - b
  {
    hide Pow;
    PowPositive(2, b);
    var p := Pow(2, b);
    if b < c {
      PowDivides(b, c - 1);
      PowStep(2, c - 1);
      var q := Pow(2, c - 1) / p;
      assert p * (2 * q) == 2 * (p * q);
      DivUnique(Pow(2, c), p, 2 * q, 0);
    } else {
      DivUnique(p, p, 1, 0);
    }
  }

  lemma PowStep(b: nat, e: nat)
    ensures Pow(b, e + 1) == b * Pow(b, e)
  {
  }

  /** In two's complement, and for every shift that is narrower than the type, the test is exact. */
  lemma LeftShiftExact(w: nat, t: IntType, a: int, b: nat)
    requires (t.min == 0 || t.min == -t.max - 1) && t.max + 1 == Pow(2, w) && t.Holds(a) && b <= w
    ensures t.Valid() && (LeftShiftRangeOverflow(t, a, b) <==> !t.Holds(a * Pow(2, b)))
  {
    hide Pow, LeftShiftRangeOverflow;
    PowPositive(2, w);
    PowDivides(b, w);
    var p, q := Pow(2, b), Pow(2, w) / Pow(2, b);
    assert -(t.max + 1) == p * -q;
    DivUnique(-(t.max + 1), p, -q, 0);
    DivUnique(0, p, 0, 0);
    LeftShiftAlmostExact(t, a, b);
  }

  /** Without the extra negative value it is not: the smallest type of three bits, shifted by one. */
  lemma LeftShiftOverlooks()
    ensures var t := IntType(-3, 3);
            t.Valid() && t.Holds(-2) && !LeftShiftRangeOverflow(t, -2, 1) && !t.Holds(-2 * Pow(2, 1))
  {
    assert Pow(2, 1) == 2 * Pow(2, 0);
  }

  // ----- Lengths of printed integers -----

  /** INT_BITS_STRLEN_BOUND */
  function BitsStrlenBound(b: nat): nat {
    (b * 146 + 484) / 485
  }

  lemma Associates(x: nat, y: nat, z: nat)
    ensures x * (y * z) == x * y * z
  {
  }

  lemma {:induction false} PowAdd(b: nat, m: nat, n: nat)
    ensures Pow(b, m + n) == Pow(b, m) * Pow(b, n)
    decreases m
  {
    assert Pow(b, 0) == 1;
    hide Pow;
    if m > 0 {
      PowAdd(b, m - 1, n);
      PowStep(b, m - 1);
      PowStep(b, m - 1 + n);
      Associates(b, Pow(b, m - 1), Pow(b, n));
    }
  }

  lemma {:induction false} PowMul(b: nat, m: nat, n: nat)
    ensures Pow(b, m * n) == Pow(Pow(b, m), n)
    decreases n
  {
    if n == 0 {
      assert m * n == 0;
    } else {
      PowMul(b, m, n - 1);
      assert m * n == m + m * (n - 1);
      PowAdd(b, m, m * (n - 1));
    }
  }

  lemma {:induction false} PowLess(x: nat, y: nat, n: nat)
    requires x < y
    ensures Pow(x, n) <= Pow(y, n) && (n > 0 ==> Pow(x, n) < Pow(y, n))
    decreases n
  {
    if n > 0 {
      PowLess(x, y, n - 1);
      PowPositive(y, n - 1);
      ProductsLess(x, y, Pow(x, n - 1), Pow(y, n - 1));
    }
  }

  lemma ProductsLess(x: nat, y: nat, p: nat, q: nat)
    requires x < y && p <= q && q >= 1
    ensures x * p < y * q
  {
    assert x * p <= x * q;
    assert x * q < y * q;
  }

  lemma {:induction false} PowGrows(b: nat, m: nat, n: nat)
    requires b >= 1 && m <= n
    ensures Pow(b, m) <= Pow(b, n)
  {
    PowAdd(b, m, n - m);
    PowPositive(b, m);
    PowPositive(b, n - m);
    GrowsBy(Pow(b, m), Pow(b, n - m));
  }

  lemma GrowsBy(x: nat, y: nat)
    requires y >= 1
    ensures x <= x * y
  {
  }

  /** 2^242 and 10^73 */
  const TWO_242: int := 7067388259113537318333190002971674063309935587502475832486424805170479104
  const TEN_73: int := 10000000000000000000000000000000000000000000000000000000000000000000000000

  lemma PowerOfTwo()
    ensures Pow(2, 485) == 2 * TWO_242 * TWO_242
  {
    assert Pow(2, 1) == 2 * Pow(2, 0);
    PowAdd(2, 1, 1);
    PowAdd(2, 2, 1);
    assert Pow(2, 3) == 8;
    PowAdd(2, 3, 3);
    PowAdd(2, 6, 1);
    assert Pow(2, 7) == 128;
    PowAdd(2, 7, 7);
    PowAdd(2, 14, 1);
    assert Pow(2, 15) == 32768;
    PowAdd(2, 15, 15);
    assert Pow(2, 30) == 1073741824;
    PowAdd(2, 30, 30);
    assert Pow(2, 60) == 1152921504606846976;
    PowAdd(2, 60, 60);
    PowAdd(2, 120, 1);
    assert Pow(2, 121) == 2658455991569831745807614120560689152;
    PowAdd(2, 121, 121);
    assert Pow(2, 242) == 7067388259113537318333190002971674063309935587502475832486424805170479104;
    PowAdd(2, 242, 242);
    PowAdd(2, 484, 1);
  }

  lemma PowerOfTen()
    ensures Pow(10, 146) == TEN_73 * TEN_73
  {
    assert Pow(10, 1) == 10 * Pow(10, 0);
    PowAdd(10, 1, 1);
    assert Pow(10, 2) == 100;
    PowAdd(10, 2, 2);
    assert Pow(10, 4) == 10000;
    PowAdd(10, 4, 4);
    PowAdd(10, 8, 1);
    assert Pow(10, 9) == 1000000000;
    PowAdd(10, 9, 9);
    assert Pow(10, 18) == 1000000000000000000;
    PowAdd(10, 18, 18);
    assert Pow(10, 36) == 1000000000000000000000000000000000000;
    PowAdd(10, 36, 36);
    PowAdd(10, 72, 1);
    assert Pow(10, 73) == 10000000000000000000000000000000000000000000000000000000000000000000000000;
    PowAdd(10, 73, 73);
  }

  /** 146 / 485 is above the decimal logarithm of two. */
  lemma LogarithmBound()
    ensures Pow(2, 485) < Pow(10, 146)
  {
    PowerOfTwo();
    PowerOfTen();
  }

  lemma BoundUp(b: nat)
    ensures 485 * BitsStrlenBound(b) >= 146 * b && (b >= 1 ==> BitsStrlenBound(b) >= 1)
  {
  }

  lemma BoundBelow(b: nat)
    requires b >= 1
    ensures BitsStrlenBound(b) >= 1 && Pow(2, b) < Pow(10, BitsStrlenBound(b))
  {
    hide Pow, BitsStrlenBound;
    var d := BitsStrlenBound(b);
    BoundUp(b);
    LogarithmBound();
    PowLess(Pow(2, 485), Pow(10, 146), b);
    PowMul(2, 485, b);
    PowMul(2, b, 485);
    PowMul(10, 146, b);
    PowMul(10, d, 485);
    PowGrows(10, 146 * b, 485 * d);
    assert 485 * b == b * 485 && 485 * d == d * 485;
    if Pow(10, d) < Pow(2, b) {
      PowLess(Pow(10, d), Pow(2, b), 485);
    }
  }

  /** A number below 2 to the power of b, or equal to it, has no more decimal digits than the bound says. */
  lemma BitsStrlenBoundHolds(n: nat, b: nat)
    requires b >= 1 && n <= Pow(2, b)
    ensures |Numeral(n, 10)| <= BitsStrlenBound(b)
  {
    hide BitsStrlenBound;
    BoundBelow(b);
    NumeralLength(n, 10, BitsStrlenBound(b));
  }

  /** INT_STRLEN_BOUND for a type of b bits. */
  function StrlenBound(b: nat, signed: bool): nat
    requires b >= 1
  {
    if signed then BitsStrlenBound(b - 1) + 1 else BitsStrlenBound(b)
  }

  /** Every value of a type of b bits fits, with its sign. */
  lemma StrlenBoundHolds(x: int, b: nat, signed: bool)
    requires b >= 2 && if signed then -x <= Pow(2, b - 1) && x < Pow(2, b - 1) else 0 <= x < Pow(2, b)
    ensures |Printed(x)| <= StrlenBound(b, signed)
  {
    hide BitsStrlenBound;
    if signed {
      BitsStrlenBoundHolds(if x < 0 then -x else x, b - 1);
    } else {
      BitsStrlenBoundHolds(x, b);
    }
  }
}
