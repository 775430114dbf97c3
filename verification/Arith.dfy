/** Absolute value, minimum, maximum and powers of two, and the few facts about division that the address and bit
    arithmetic needs. */
module Arith {
  function Abs(v: int): nat { if v >= 0 then v else -v }
  function Min(a: int, b: int): int { if a <= b then a else b }
  function Max(a: int, b: int): int { if a <= b then b else a }

  lemma MulMono(m: int, a: int, b: int)
    requires m >= 0 && a <= b
    ensures m * a <= m * b && a * m <= b * m
  {
    assert m * (b - a) >= 0;
  }

  lemma MulSmall(m: int, d: int)
    requires m > 0 && -m < m * d < m
    ensures d == 0
  {
    if d >= 1 {
      MulMono(m, 1, d);
    } else if d <= -1 {
      MulMono(m, d, -1);
    }
  }

  /** Quotient and remainder are determined by x == m*k + r with 0 <= r < m. */
  lemma DivModUnique(x: int, m: int, k: int, r: int)
    requires 0 <= r < m && x == m * k + r
    ensures x / m == k && x % m == r
  {
    var q, t := x / m, x % m;
    assert x == m * q + t && 0 <= t < m;
    Distribute(m, q, k);
    MulSmall(m, q - k);
  }

  lemma Distribute(m: int, a: int, b: int)
    ensures m * (a - b) == m * a - m * b
    ensures m * (a + b) == m * a + m * b
  {
  }

  lemma DivDouble(x: nat, m: nat)
    requires m > 0
    ensures x / m == 2 * (x / (2 * m)) + x / m % 2
  {
    var q, r := x / (2 * m), x % (2 * m);
    assert x == m * (2 * q) + r;
    if r < m {
      DivModUnique(x, m, 2 * q, r);
    } else {
      assert x == m * (2 * q + 1) + (r - m);
      DivModUnique(x, m, 2 * q + 1, r - m);
    }
  }

  /** A cell of an `h` by `row` table in row-major order. */
  lemma RowMajor(column: nat, y: nat, row: nat, h: nat)
    requires column < row && y < h
    ensures column + y * row < h * row
  {
    MulMono(row, y + 1, h);
    assert (y + 1) * row == y * row + row;
  }

  lemma DivTwice(x: nat, m: nat)
    requires m > 0
    ensures x / m / 2 == x / (2 * m)
  {
    DivDouble(x, m);
  }

  // ----- powers of two

  function Pow2(n: nat): (r: nat)
    ensures r > 0
  {
    if n == 0 then 1 else 2 * Pow2(n - 1)
  }

  lemma Pow2Of16()
    ensures Pow2(8) == 256 && Pow2(15) == 32768 && Pow2(16) == 65536
  {
    assert Pow2(2) == 4 && Pow2(4) == 16 && Pow2(6) == 64;
    assert Pow2(8) == 256;
    assert Pow2(10) == 1024 && Pow2(12) == 4096 && Pow2(14) == 16384;
  }
}
