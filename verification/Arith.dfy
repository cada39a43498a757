/** Products, remainders and powers of two, one fact at a time. */
module Arith {
  lemma Assoc(x: int, y: int, z: int)
    ensures (x * y) * z == x * (y * z)
  {
  }

  lemma Spread(x: int, y: int, z: int)
    ensures x * (y + z) == x * y + x * z && x * (y - z) == x * y - x * z
  {
  }

  lemma MulAtLeast(m: int, t: int)
    requires m >= 0
    ensures (t >= 1 ==> m * t >= m) && (t <= -1 ==> m * t <= -m)
  {
  }

  lemma MulMonotone(p: nat, a: nat, b: nat)
    ensures a < b && p > 0 ==> p * a < p * b
    ensures a <= b ==> p * a <= p * b
  {
  }

  lemma Divided(x: nat, d: nat)
    requires d > 0
    ensures x == d * (x / d) + x % d
  {
  }

  lemma ModIs(x: nat, m: nat, q: int, r: nat)
    requires r < m && x == m * q + r
    ensures x % m == r
  {
    MulAtLeast(m, x / m - q);
    assert m * (x / m - q) == r - x % m;
  }

  lemma Nested(x: int, n: int, m: int, k: int, q: int, r: int, a: int, b: int)
    requires n == m * k && x == n * q + r && r == m * a + b
    ensures x == m * (k * q + a) + b
  {
    Assoc(m, k, q);
    Spread(m, k * q, a);
  }

  lemma ModOfMod(x: nat, m: nat, k: nat, n: nat)
    requires m > 0 && n > 0 && n == m * k
    ensures x % n % m == x % m
  {
    var q, r := x / n, x % n;
    Divided(x, n);
    Divided(r, m);
    Nested(x, n, m, k, q, r, r / m, r % m);
    ModIs(x, m, k * q + r / m, r % m);
  }

  lemma ModShift(i: nat, p: nat, m: nat)
    requires p > 0
    ensures (i + p * m) % p == i % p
  {
    Divided(i, p);
    Spread(p, i / p, m);
    MulMonotone(p, 0, m);
    ModIs(i + p * m, p, i / p + m, i % p);
  }

  function Pow2(n: nat): (p: nat)
    ensures p > 0
  {
    if n == 0 then 1 else 2 * Pow2(n - 1)
  }

  /** The least k with 2^k >= n, as `CeilLog2IsLeast` shows. */
  function CeilLog2(n: nat): nat { if n <= 1 then 0 else 1 + CeilLog2((n + 1) / 2) }

  lemma {:induction false} CeilLog2IsLeast(n: nat)
    ensures Pow2(CeilLog2(n)) >= n
    ensures CeilLog2(n) > 0 ==> Pow2(CeilLog2(n) - 1) < n
    decreases n
  {
    if n > 1 {
      CeilLog2IsLeast((n + 1) / 2);
    }
  }

  lemma {:induction false} Pow2Grows(i: nat, j: nat)
    requires i <= j
    ensures Pow2(i) <= Pow2(j)
    decreases j
  {
    if i < j {
      Pow2Grows(i, j - 1);
    }
  }

  lemma LogBetween(n: nat, j: nat)
    requires Pow2(j) < n <= Pow2(j + 1)
    ensures CeilLog2(n) == j + 1
  {
    CeilLog2IsLeast(n);
    var k := CeilLog2(n);
    if k <= j {
      Pow2Grows(k, j);
    }
    if k > j + 1 {
      Pow2Grows(j + 1, k - 1);
    }
  }
}
