/** The common factor of 2^e and b, and which residues modulo 2^e a counter visits that steps by b. */
module Strides {
  import opened Modular
  import opened Orbit

  predicate DividesBoth(d: nat, e: nat, b: nat) {
    d > 0 && Pow2(e) % d == 0 && b % d == 0
  }

  /** The greatest common divisor of 2^e and b; all of 2^e for b = 0. */
  function Stride(e: nat, b: nat): (g: nat)
    ensures DividesBoth(g, e, b)
  {
    if e == 0 || b % 2 == 1 then
      DividedByOne(Pow2(e));
      DividedByOne(b);
      1
    else
      var g := Stride(e - 1, b / 2);
      ScaledMod(2, Pow2(e - 1), g);
      ScaledMod(2, b / 2, g);
      2 * g
  }

  lemma DividedByOne(x: int)
    ensures x % 1 == 0
  {
  }

  lemma {:induction false} StrideIsGreatest(e: nat, b: nat, d: nat)
    requires DividesBoth(d, e, b)
    ensures d <= Stride(e, b)
  {
    if e == 0 {
      RemainderAtMost(1, d);
    } else if d % 2 == 1 {
      OddDivisor(e, d);
    } else if b % 2 == 1 {
      ModOfMultiple(b, 2, d / 2, d);
    } else {
      var h := d / 2;
      ScaledMod(2, Pow2(e - 1), h);
      ScaledMod(2, b / 2, h);
      StrideIsGreatest(e - 1, b / 2, h);
    }
  }

  /** What the stride leaves of 2^e, as an exponent. */
  function Rest(e: nat, b: nat): (w: nat)
    ensures w <= e && Pow2(e) == Stride(e, b) * Pow2(w)
  {
    if e == 0 then 0 else if b % 2 == 1 then e else Rest(e - 1, b / 2)
  }

  /** If it leaves a factor 2, then it leaves none of b. */
  lemma {:induction false} RestIsOdd(e: nat, b: nat)
    requires Rest(e, b) > 0
    ensures b / Stride(e, b) % 2 == 1
  {
    if b % 2 == 0 {
      RestIsOdd(e - 1, b / 2);
      SameQuotient(b / 2, Stride(e - 1, b / 2));
    } else {
      ModUnique(b, 1, b, 0);
    }
  }

  lemma SameQuotient(h: nat, g: nat)
    requires g > 0
    ensures 2 * h / (2 * g) == h / g
  {
    ModUnique(h, g, h / g, h % g);
    assert 2 * h == (2 * g) * (h / g) + 2 * (h % g);
    ModUnique(2 * h, 2 * g, h / g, 2 * (h % g));
  }

  lemma StrideStep(e: nat, b: nat)
    requires e > 0
    ensures Stride(e, b) == if b % 2 == 1 then 1 else 2 * Stride(e - 1, b / 2)
  {
  }

  /** The stride by the first bits of b. */
  lemma StrideByBits(e: nat, b: nat)
    requires e >= 3 && b % 8 != 0
    ensures Stride(e, b) == if b % 4 == 0 then 4 else if b % 2 == 0 then 2 else 1
  {
    var q, r := b / 8, b % 8;
    ModUnique(b, 2, 4 * q + r / 2, r % 2);
    ModUnique(b, 4, 2 * q + r / 4, r % 4);
    ModUnique(b / 2, 2, 2 * q + r / 4, r / 2 % 2);
    ModUnique(b / 2 / 2, 2, q, r / 4);
    StrideStep(e, b);
    StrideStep(e - 1, b / 2);
    StrideStep(e - 2, b / 2 / 2);
  }

  /** The only odd divisor of a power of two is 1. */
  lemma {:induction false} OddDivisor(e: nat, d: nat)
    requires d % 2 == 1 && Pow2(e) % d == 0
    ensures d == 1
  {
    if e > 0 {
      var q := Pow2(e) / d;
      assert d * q == 2 * Pow2(e - 1);
      EvenCofactor(d, q, Pow2(e - 1));
      ModUnique(Pow2(e - 1), d, q / 2, 0);
      OddDivisor(e - 1, d);
    }
  }

  lemma HalfRemainder(r: nat, p: nat, g: nat)
    requires g > 0 && r % (2 * g) == 0 && r < 2 * p
    ensures r % 2 == 0 && r / 2 % g == 0 && r / 2 < p
  {
    ModOfMultiple(r, 2, g, 2 * g);
    assert r == 2 * (r / 2);
    ScaledMod(2, r / 2, g);
  }

  lemma DoubledSteps(k: nat, h: nat, r: nat, p: nat)
    requires p > 0 && (k * h) % p == r
    ensures (k * (2 * h)) % (2 * p) == 2 * r
  {
    ScaledMod(2, k * h, p);
    assert k * (2 * h) == 2 * (k * h);
  }

  lemma OneOfTwoSteps(k: nat, b: nat, p: nat, r: nat)
    requires p > 0 && b % 2 == 1 && r < 2 * p && (k * b) % p == r % p
    ensures (k * b) % (2 * p) == r || ((k + p) * b) % (2 * p) == r
  {
    assert (k + p) * b - k * b == p * b;
    OneOfTwoLifts(k * b, (k + p) * b, p, b, r);
  }

  /** After how many steps the counter is at r. */
  function StepsTo(e: nat, b: nat, r: nat): (k: nat)
    requires r < Pow2(e) && r % Stride(e, b) == 0
    ensures (k * b) % Pow2(e) == r
  {
    if e == 0 then
      0
    else if b % 2 == 0 then
      HalfRemainder(r, Pow2(e - 1), Stride(e - 1, b / 2));
      var k := StepsTo(e - 1, b / 2, r / 2);
      DoubledSteps(k, b / 2, r / 2, Pow2(e - 1));
      k
    else
      var p := Pow2(e - 1);
      DividedByOne(r % p);
      var k := StepsTo(e - 1, b, r % p);
      OneOfTwoSteps(k, b, p, r);
      if (k * b) % (2 * p) == r then k else k + p
  }

  /** A multiple of b that is 0 modulo 2^e is one of the stride's as well: b adds only odd factors. */
  lemma {:induction false} OnlyTheStrideCounts(e: nat, b: nat, d: nat)
    requires (d * b) % Pow2(e) == 0
    ensures (d * Stride(e, b)) % Pow2(e) == 0
  {
    if e == 0 {
      DividedByOne(d * Stride(e, b));
    } else if b % 2 == 0 {
      HalvedProduct(d, b / 2, Pow2(e - 1));
      OnlyTheStrideCounts(e - 1, b / 2, d);
      DoubledSteps(d, Stride(e - 1, b / 2), 0, Pow2(e - 1));
    } else {
      var h := EvenFactor(d, b, Pow2(e - 1));
      OnlyTheStrideCounts(e - 1, b, h);
      ScaledMod(2, h, Pow2(e - 1));
    }
  }

  lemma HalvedProduct(d: nat, h: nat, p: nat)
    requires p > 0 && (d * (2 * h)) % (2 * p) == 0
    ensures (d * h) % p == 0
  {
    ScaledMod(2, d * h, p);
    assert d * (2 * h) == 2 * (d * h);
  }

  /** An odd b leaves the factor 2 to d. */
  lemma EvenFactor(d: nat, b: nat, p: nat) returns (h: nat)
    requires p > 0 && b % 2 == 1 && (d * b) % (2 * p) == 0
    ensures d == 2 * h && (h * b) % p == 0
  {
    h := d / 2;
    var q := d * b / (2 * p);
    assert b * d == 2 * (p * q);
    EvenCofactor(b, d, p * q);
    assert p * q == b * h;
    ModUnique(h * b, p, q, 0);
    OddTimes(b / 2, d);
  }
}
