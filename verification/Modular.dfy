/** Facts about Euclidean remainders for any positive modulus. */
module Modular {
  lemma ModAddMultiple(x: int, m: int, z: int)
    requires m > 0
    ensures (x + m * z) % m == x % m
  {
    var q := x / m;
    assert x + m * z == m * (q + z) + x % m;
    ModUnique(x + m * z, m, q + z, x % m);
  }

  lemma ModUnique(x: int, m: int, q: int, r: int)
    requires m > 0 && 0 <= r < m && x == m * q + r
    ensures x / m == q && x % m == r
  {
    SmallMultiple(m, x / m - q, r - x % m);
  }

  lemma SmallMultiple(m: int, z: int, d: int)
    requires -m < d < m && m * z == d
    ensures z == 0 && d == 0
  {
  }

  lemma ModOfDouble(x: int, p: int)
    requires p > 0
    ensures x % (2 * p) % p == x % p
  {
    var q, r := x / (2 * p), x % (2 * p);
    assert x == r + p * (2 * q);
    ModAddMultiple(r, p, 2 * q);
  }

  lemma LiftsOf(r: int, p: int)
    requires 0 <= r < 2 * p
    ensures r % p == if r < p then r else r - p
  {
    ModUnique(r, p, if r < p then 0 else 1, if r < p then r else r - p);
  }

  /** Reducing an argument first does not change an affine function modulo m. */
  lemma AffineMod(a: int, x: int, b: int, m: int)
    requires m > 0
    ensures (a * (x % m) + b) % m == (a * x + b) % m
  {
    var q, r := x / m, x % m;
    assert x == m * q + r;
    assert a * x + b == (a * r + b) + m * (a * q) by {
      assert a * (m * q) == m * (a * q);
      assert a * (m * q + r) == a * (m * q) + a * r;
    }
    ModAddMultiple(a * r + b, m, a * q);
  }

  lemma SameModGap(x: int, y: int, m: int)
    requires m > 0 && x % m == y % m
    ensures (x - y) % m == 0
  {
    assert x - y == 0 + m * (x / m - y / m);
    ModAddMultiple(0, m, x / m - y / m);
  }

  lemma GapSameMod(x: int, y: int, m: int)
    requires m > 0 && (x - y) % m == 0
    ensures x % m == y % m
  {
    assert x == y + m * ((x - y) / m);
    ModAddMultiple(y, m, (x - y) / m);
  }

  /** A common factor of value and modulus comes out of the remainder. */
  lemma ScaledMod(g: int, x: int, m: int)
    requires g > 0 && m > 0
    ensures g * m > 0 && (g * x) % (g * m) == g * (x % m)
  {
    var q, r := x / m, x % m;
    assert x == m * q + r;
    assert g * x == (g * m) * q + g * r by {
      assert g * (m * q) == (g * m) * q;
    }
    assert 0 <= g * r < g * m by {
      assert g * (m - r) > 0;
    }
    ModUnique(g * x, g * m, q, g * r);
  }

  lemma Reassociate(d: int, c: int, q: int)
    ensures (d * c) * q == d * (c * q)
  {
  }

  /** A divisor of the modulus sees the same remainder before and after reduction. */
  lemma ModOfMultiple(x: int, d: int, c: int, m: int)
    requires d > 0 && m > 0 && m == d * c
    ensures x % m % d == x % d
  {
    var q, r := x / m, x % m;
    Reassociate(d, c, q);
    assert x == r + d * (c * q);
    ModAddMultiple(r, d, c * q);
  }

  /** The representative of d at or after c. */
  lemma ShiftedMod(d: int, c: int, m: int)
    requires m > 0
    ensures (c + (d - c) % m) % m == d % m
  {
    var q := (d - c) / m;
    assert c + (d - c) % m == d + m * (-q);
    ModAddMultiple(d, m, -q);
  }

  lemma CloseResidues(i: int, j: int, m: int)
    requires m > 0 && -m < i - j < m && i % m == j % m
    ensures i == j
  {
    SmallMultiple(m, i / m - j / m, i - j);
  }

  lemma AddMod(x: int, y: int, c: int, m: int)
    requires m > 0 && x % m == y % m
    ensures (x + c) % m == (y + c) % m
  {
    SameModGap(x, y, m);
    GapSameMod(x + c, y + c, m);
  }

  lemma RemainderAtMost(x: nat, m: nat)
    requires m > 0
    ensures x % m <= x
  {
    if x < m {
      ModUnique(x, m, 0, x);
    }
  }

  /** What an odd factor makes even was even before. */
  lemma EvenCofactor(m: int, z: int, d: int)
    requires m % 2 == 1 && m * z == 2 * d
    ensures d == m * (z / 2)
  {
    var h, k := m / 2, z / 2;
    OddTimes(h, z);
    assert z == 2 * k;
    Reassociate(m, 2, k);
    Reassociate(2, m, k);
  }

  lemma OddTimes(h: int, z: int)
    ensures (2 * h + 1) * z == 2 * (h * z) + z
  {
  }

  lemma Cancel(g: nat, x: int, m: int)
    requires g * x < g * m
    ensures x < m
  {
  }
}
