/** Fixed-width C integers, as used on a platform with 32-bit `int` and 64-bit `long`, `time_t` and `size_t`. */
module MachineInts {

  const TWO_31: int := 0x8000_0000
  const TWO_32: int := 0x1_0000_0000
  const TWO_63: int := 0x8000_0000_0000_0000
  const TWO_64: int := 0x1_0000_0000_0000_0000
  const SIZE_MAX: int := 0xFFFF_FFFF_FFFF_FFFF

  type Int32 = x: int | -0x8000_0000 <= x < 0x8000_0000
  type Int64 = x: int | -0x8000_0000_0000_0000 <= x < 0x8000_0000_0000_0000
  type SizeT = x: int | 0 <= x <= 0xFFFF_FFFF_FFFF_FFFF
  /** An `unsigned char`. */
  type Octet = x: int | 0 <= x < 256
  type UInt32 = x: int | 0 <= x < 0x1_0000_0000

  datatype Option<+T> = None | Some(value: T) {
    predicate IsFailure() { None? }

    function PropagateFailure<U>(): Option<U>
      requires IsFailure()
    {
      None
    }

    function Extract(): T
      requires !IsFailure()
    {
      value
    }
  }

  /** Conversion to `int`, keeping the low 32 bits in two's complement. */
  function Wrap32(x: int): Int32 {
    (x + TWO_31) % TWO_32 - TWO_31
  }

  /** Conversion to `time_t`, keeping the low 64 bits in two's complement. */
  function Wrap64(x: int): Int64 {
    (x + TWO_63) % TWO_64 - TWO_63
  }

  /** C's integer division, which truncates toward zero. */
  function CDiv(a: int, b: int): int
    requires b != 0
  {
    if a >= 0 then (if b > 0 then a / b else -(a / -b))
    else (if b > 0 then -(-a / b) else -a / -b)
  }

  /** C's remainder: it has the sign of the dividend. */
  function CMod(a: int, b: int): int
    requires b != 0
  {
    a - b * CDiv(a, b)
  }

  // ----- Quotients and remainders -----

  lemma FloorStep(y: int, m: int)
    requires m > 0
    ensures y / m - (y - 1) / m == if y % m == 0 then 1 else 0
  {
    var q, r := y / m, y % m;
    assert y == m * q + r;
    if r == 0 {
      assert y - 1 == m * (q - 1) + (m - 1);
      DivUnique(y - 1, m, q - 1, m - 1);
    } else {
      assert y - 1 == m * q + (r - 1);
      DivUnique(y - 1, m, q, r - 1);
    }
  }

  /** Quotient and remainder are determined by their defining equation. */
  lemma DivUnique(x: int, m: int, q: int, r: int)
    requires 0 <= r < m && x == m * q + r
    ensures x / m == q && x % m == r
  {
    SmallMultiple(m, q - x / m, x % m - r);
  }

  lemma SmallMultiple(m: int, d: int, e: int)
    requires -m < e < m && m * d == e
    ensures d == 0
  {
    MultipleAtLeast(m, d);
    MultipleAtLeast(m, -d);
  }

  lemma MultipleAtLeast(m: int, d: int)
    requires m > 0
    ensures d >= 1 ==> m * d >= m
  {
    if d >= 1 {
      assert m * d == m * (d - 1) + m;
    }
  }
}
