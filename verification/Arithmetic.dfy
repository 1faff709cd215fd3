/** Maxima, powers of two, and the division facts that solvers do not find on their own. */
module Arithmetic {

  function Max(a: int, b: int): int {
    if a < b then b else a
  }

  function Pow2(n: nat): (p: nat)
    ensures p > 0
  {
    if n == 0 then 1 else 2 * Pow2(n - 1)
  }

  lemma {:induction false} Pow2Monotone(m: nat, n: nat)
    requires m <= n
    ensures Pow2(m) <= Pow2(n)
  {
    if m < n {
      Pow2Monotone(m, n - 1);
    }
  }

  lemma {:induction false} Pow2Add(m: nat, n: nat)
    ensures Pow2(m + n) == Pow2(m) * Pow2(n)
    decreases m
  {
    if m > 0 {
      Pow2Add(m - 1, n);
      assert Pow2(m + n) == 2 * Pow2(m - 1 + n);
    }
  }

  lemma SmallMultiple(x: int, m: int)
    requires -m < x * m < m
    ensures x == 0
  {
    assert x >= 1 ==> (x - 1) * m >= 0;
    assert x <= -1 ==> (-x - 1) * m >= 0;
  }

  /** Division and remainder are determined by the digits. */
  lemma Digits(a: int, b: int, m: int)
    requires 0 <= b < m
    ensures (a * m + b) / m == a && (a * m + b) % m == b
  {
    var n := a * m + b;
    DigitsUnique(a, b, n / m, n % m, m);
  }

  lemma DigitsUnique(a: int, b: int, q: int, r: int, m: int)
    requires 0 <= b < m && 0 <= r < m && a * m + b == q * m + r
    ensures a == q && b == r
  {
    assert (a - q) * m == a * m - q * m;
    SmallMultiple(a - q, m);
  }

  /** `n >> k` */
  function ShiftRight(n: nat, k: nat): (q: nat)
    ensures n == q * Pow2(k) + n % Pow2(k)
  {
    Quotient(n, Pow2(k));
    n / Pow2(k)
  }

  /** `n & ((1 << k) - 1)` */
  function Mask(n: nat, k: nat): (r: nat)
    ensures r < Pow2(k)
    ensures n == ShiftRight(n, k) * Pow2(k) + r
  {
    n % Pow2(k)
  }

  /** `n << k` */
  function ShiftLeft(n: nat, k: nat): (r: nat) {
    n * Pow2(k)
  }

  lemma Quotient(n: nat, m: nat)
    requires m > 0
    ensures n / m >= 0 && n == n / m * m + n % m
  {
    var q, r := n / m, n % m;
    NegativeMultiple(q, m);
  }

  lemma NegativeMultiple(q: int, m: int)
    requires m >= 0
    ensures q < 0 ==> q * m <= -m
  {
    assert q < 0 ==> (-q - 1) * m >= 0;
    assert (-q - 1) * m == -(q * m) - m;
  }

  lemma MulMonotone(a: int, b: int, m: int)
    requires a <= b && m >= 0
    ensures a * m <= b * m
  {
    assert (b - a) * m >= 0;
    assert (b - a) * m == b * m - a * m;
  }

  /** Different cells of equal width do not overlap. */
  lemma CellsApart(i: int, j: int, w: nat)
    ensures i < j ==> i * w + w <= j * w
    ensures j < i ==> j * w + w <= i * w
  {
    if i < j { MulMonotone(i + 1, j, w); }
    if j < i { MulMonotone(j + 1, i, w); }
  }

  lemma ShiftBound(n: nat, k: nat, m: nat)
    requires n < Pow2(k + m)
    ensures ShiftRight(n, k) < Pow2(m)
  {
    Pow2Add(k, m);
    var q := ShiftRight(n, k);
    if q >= Pow2(m) {
      MulMonotone(Pow2(m), q, Pow2(k));
    }
  }

  lemma Pow2Values()
    ensures Pow2(0) == 1 && Pow2(1) == 2 && Pow2(2) == 4 && Pow2(3) == 8 && Pow2(4) == 16
    ensures Pow2(5) == 32 && Pow2(6) == 64 && Pow2(7) == 128 && Pow2(8) == 256
    ensures Pow2(9) == 512 && Pow2(15) == 0x8000 && Pow2(16) == 0x10000 && Pow2(24) == 0x100_0000
  {
    assert Pow2(2) == 4;
    assert Pow2(4) == 16;
    assert Pow2(6) == 64;
    assert Pow2(8) == 256;
    Pow2Add(8, 1);
    Pow2Add(8, 7);
    Pow2Add(8, 8);
    Pow2Add(8, 16);
  }
}
