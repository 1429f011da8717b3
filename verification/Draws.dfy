/** Which indices the generator can draw for a given number of files. */
module Draws {
  import opened Words
  import opened Modular
  import Orbit
  import Strides
  import opened PseudoRandom

  /** The indices below n drawn in the first k draws. */
  ghost function Drawn(n: nat, k: nat): set<int>
    requires n > 0
  {
    set j | 1 <= j <= k :: StateAfter(j) % n
  }

  lemma DrawnStep(n: nat, k: nat)
    requires n > 0
    ensures Drawn(n, k + 1) == Drawn(n, k) + {StateAfter(k + 1) % n}
  {
  }

  lemma DrawnRange(n: nat, k: nat)
    requires n > 0
    ensures forall r :: r in Drawn(n, k) ==> 0 <= r < n
  {
  }

  /** Everything that can ever be drawn is drawn within the first PERIOD draws. */
  lemma DrawnSaturates(n: nat, k: nat)
    requires n > 0
    ensures Drawn(n, k) <= Drawn(n, PERIOD)
    ensures k >= PERIOD ==> Drawn(n, k) == Drawn(n, PERIOD)
  {
    forall r | r in Drawn(n, k)
      ensures r in Drawn(n, PERIOD)
    {
      var j :| 1 <= j <= k && StateAfter(j) % n == r;
      var i := EarlierDraw(j);
    }
  }

  lemma EarlierDraw(j: nat) returns (i: nat)
    ensures 1 <= i <= PERIOD && StateAfter(i) == StateAfter(j)
  {
    StateClass(j);
    i := DrawOf(StateAfter(j));
  }

  // ---------- Indices that can be drawn ----------

  lemma SixtyFourIsPow2()
    ensures Orbit.Pow2(6) == 64
  {
    assert Orbit.Pow2(3) == 8;
  }

  /** The greatest common divisor of 64 and n. */
  function Gcd64(n: nat): (g: nat)
    ensures g > 0 && 64 % g == 0 && n % g == 0
  {
    SixtyFourIsPow2();
    Strides.Stride(6, n)
  }

  lemma Gcd64IsGreatest(n: nat, d: nat)
    requires d > 0 && 64 % d == 0 && n % d == 0
    ensures d <= Gcd64(n)
  {
    SixtyFourIsPow2();
    Strides.StrideIsGreatest(6, n, d);
  }

  lemma SmallGcd(n: nat)
    requires n % 8 != 0
    ensures Gcd64(n) == if n % 4 == 0 then 4 else if n % 2 == 0 then 2 else 1
  {
    Strides.StrideByBits(6, n);
  }

  /** g is gcd(64, n): n = g * m and 64 = g * 2^w, and m is odd unless all of 64 is used up. */
  ghost predicate Splits(n: nat, g: nat, m: nat, w: nat) {
    && g > 0 && m > 0
    && n == g * m
    && 64 == g * Orbit.Pow2(w)
    && (w == 0 || m % 2 == 1)
  }

  /** n without the factor that it shares with 64. */
  function Cofactor(n: nat): nat {
    n / Gcd64(n)
  }

  /** The w with 64 = gcd(64, n) * 2^w. */
  function Exponent(n: nat): (w: nat)
    ensures 64 == Gcd64(n) * Orbit.Pow2(w)
  {
    SixtyFourIsPow2();
    Strides.Rest(6, n)
  }

  lemma GcdSplit(n: nat)
    requires n > 0
    ensures Splits(n, Gcd64(n), Cofactor(n), Exponent(n))
  {
    var g, m := Gcd64(n), Cofactor(n);
    assert n == g * m;
    if Exponent(n) > 0 {
      Strides.RestIsOdd(6, n);
    }
  }

  /** Solves 2^w * t = r modulo an odd m by halving w times. */
  function HalveTimes(w: nat, r: nat, m: nat): (t: nat)
    requires r < m && (w == 0 || m % 2 == 1)
    ensures t < m && (Orbit.Pow2(w) * t) % m == r
  {
    if w == 0 then
      ModUnique(r, m, 0, r);
      r
    else
      var u := HalveTimes(w - 1, r, m);
      HalfOf(Orbit.Pow2(w - 1), u, m);
      if u % 2 == 0 then u / 2 else (u + m) / 2
  }

  lemma HalfOf(p: nat, u: nat, m: nat)
    requires u < m && m % 2 == 1
    ensures var t := if u % 2 == 0 then u / 2 else (u + m) / 2; (2 * p * t) % m == (p * u) % m
  {
    var t := if u % 2 == 0 then u / 2 else (u + m) / 2;
    if u % 2 == 0 {
      assert 2 * p * t == p * (2 * t) == p * u;
    } else {
      assert 2 * p * t == p * (2 * t) == p * (u + m) == p * u + m * p;
      ModAddMultiple(p * u, m, p);
    }
  }

  lemma Regroup(g: nat, p: nat, t: int)
    ensures g * (p * t) == (g * p) * t
  {
  }

  /** Every multiple of g below n is the remainder of a multiple of 64. */
  lemma ScaledSolution(n: nat, g: nat, m: nat, w: nat, r: nat)
    requires Splits(n, g, m, w) && r < n && r % g == 0
    ensures r / g < m && (64 * HalveTimes(w, r / g, m)) % n == r
  {
    var r' := r / g;
    assert r == g * r';
    Cancel(g, r', m);
    var t := HalveTimes(w, r', m);
    ScaledMod(g, Orbit.Pow2(w) * t, m);
    Regroup(g, Orbit.Pow2(w), t);
  }

  /** Which multiple of 64 leaves the remainder r. */
  function Place(n: nat, r: nat): (t: nat)
    requires n > 0 && r < n && r % Gcd64(n) == 0
    ensures t < Cofactor(n) && (64 * t) % n == r
  {
    GcdSplit(n);
    ScaledSolution(n, Gcd64(n), Cofactor(n), Exponent(n), r);
    HalveTimes(Exponent(n), r / Gcd64(n), Cofactor(n))
  }

  // ---------- When two multiples of 64 leave the same remainder ----------

  /** Multiplying by a power of two loses nothing modulo an odd m. */
  lemma {:induction false} CancelPow2(w: nat, x: int, y: int, m: nat)
    requires m > 0 && (w == 0 || m % 2 == 1)
    requires (Orbit.Pow2(w) * x) % m == (Orbit.Pow2(w) * y) % m
    ensures x % m == y % m
  {
    if w > 0 {
      var p := Orbit.Pow2(w - 1);
      assert Orbit.Pow2(w) * x == p * (2 * x);
      assert Orbit.Pow2(w) * y == p * (2 * y);
      CancelPow2(w - 1, 2 * x, 2 * y, m);
      CancelTwo(x, y, m);
    }
  }

  lemma CancelTwo(x: int, y: int, m: nat)
    requires m % 2 == 1 && (2 * x) % m == (2 * y) % m
    ensures x % m == y % m
  {
    var z := 2 * x / m - 2 * y / m;
    assert 2 * (x - y) == m * z;
    EvenCofactor(m, z, x - y);
    ModAddMultiple(y, m, z / 2);
  }

  lemma SameFactor(g: nat, x: int, y: int)
    requires g > 0 && g * x == g * y
    ensures x == y
  {
    SmallMultiple(g, x - y, 0);
  }

  lemma MultiplesDiffer(n: nat, g: nat, m: nat, w: nat, i: int, j: int)
    requires Splits(n, g, m, w) && (64 * i) % n == (64 * j) % n
    ensures i % m == j % m
  {
    var p := Orbit.Pow2(w);
    Regroup(g, p, i);
    Regroup(g, p, j);
    ScaledMod(g, p * i, m);
    ScaledMod(g, p * j, m);
    SameFactor(g, (p * i) % m, (p * j) % m);
    CancelPow2(w, i, j, m);
  }

  lemma MultiplesRepeat(n: nat, g: nat, m: nat, w: nat, i: int, j: int)
    requires Splits(n, g, m, w) && i % m == j % m
    ensures (64 * i) % n == (64 * j) % n
  {
    var p, z := Orbit.Pow2(w), i / m - j / m;
    assert i == j + m * z;
    assert 64 * i == 64 * j + n * (p * z) by {
      assert 64 * (m * z) == (g * m) * (p * z);
    }
    ModAddMultiple(64 * j, n, p * z);
  }

  /** Multiples of 64 agree modulo n exactly when their factors agree modulo n / gcd(64, n). */
  lemma SameMultipleIff(n: nat, i: int, j: int)
    requires n > 0
    ensures Cofactor(n) > 0
    ensures (64 * i) % n == (64 * j) % n <==> i % Cofactor(n) == j % Cofactor(n)
  {
    GcdSplit(n);
    var g, m, w := Gcd64(n), Cofactor(n), Exponent(n);
    if (64 * i) % n == (64 * j) % n {
      MultiplesDiffer(n, g, m, w, i, j);
    } else if i % m == j % m {
      MultiplesRepeat(n, g, m, w, i, j);
    }
  }

  /** Place gives the smallest factor, and every other one is a multiple of n / gcd(64, n) away. */
  lemma PlaceIff(n: nat, r: nat, t: int)
    requires n > 0 && r < n && r % Gcd64(n) == 0
    ensures (64 * t) % n == r <==> t % Cofactor(n) == Place(n, r)
  {
    var p := Place(n, r);
    SameMultipleIff(n, t, p);
    ModUnique(p, Cofactor(n), 0, p);
  }

  lemma PlaceAtMost(n: nat, r: nat, t: nat)
    requires n > 0 && r < n && r % Gcd64(n) == 0 && (64 * t) % n == r
    ensures Place(n, r) <= t
  {
    PlaceIff(n, r, t);
    RemainderAtMost(t, Cofactor(n));
  }

  // ---------- Which indices are drawn ----------

  /** Reduction modulo n keeps the class modulo g of a number that is d modulo 64. */
  lemma RemainderClass(s: nat, n: nat, g: nat, m: nat, w: nat, d: nat)
    requires Splits(n, g, m, w) && s % 64 == d % 64
    ensures s % n % g == d % g
  {
    ModOfMultiple(s, g, m, n);
    ModOfMultiple(s, g, Orbit.Pow2(w), 64);
    ModOfMultiple(d, g, Orbit.Pow2(w), 64);
  }

  /** Taking the 10 off again: the index of an odd draw as the remainder of a multiple of 64. */
  function Unshifted(n: nat, r: nat): (r0: nat)
    requires n > 0 && r < n && r % Gcd64(n) == 10 % Gcd64(n)
    ensures r0 < n && r0 % Gcd64(n) == 0
  {
    GcdSplit(n);
    SameModGap(r, 10, Gcd64(n));
    ModOfMultiple(r - 10, Gcd64(n), Cofactor(n), n);
    (r - 10) % n
  }

  lemma AddBack(x: int, r: nat, n: nat)
    requires r < n
    ensures x % n == (r - 10) % n <==> (x + 10) % n == r
  {
    ModUnique(r, n, 0, r);
    if x % n == (r - 10) % n {
      AddMod(x, r - 10, 10, n);
    }
    if (x + 10) % n == r {
      AddMod(x + 10, r, -10, n);
    }
  }

  /** The index r is the remainder of one of the 2^26 states that are 0 modulo 64, or of one that are 10. */
  predicate Drawable(n: nat, r: nat)
    requires n > 0 && r < n
  {
    || (r % Gcd64(n) == 0 && Place(n, r) < HALF_PERIOD)
    || (r % Gcd64(n) == 10 % Gcd64(n) && Place(n, Unshifted(n, r)) < HALF_PERIOD)
  }

  lemma StateFor(n: nat, r: nat) returns (s: u32)
    requires n > 0 && r < n && Drawable(n, r)
    ensures OnOrbit(s) && s % n == r
  {
    if r % Gcd64(n) == 0 && Place(n, r) < HALF_PERIOD {
      s := 64 * Place(n, r);
      ScaledState(Place(n, r), 0);
    } else {
      var t := Place(n, Unshifted(n, r));
      ScaledState(t, 10);
      AddBack(64 * t, r, n);
      s := 64 * t + 10;
    }
  }

  /** The state of a draw as 64 times one of 2^26 numbers, plus 0 or 10. */
  lemma StateParts(j: nat) returns (t: nat, d: nat)
    ensures t < HALF_PERIOD && (d == 0 || d == 10) && StateAfter(j) == 64 * t + d
  {
    StateClass(j);
    t, d := StateAfter(j) / 64, StateAfter(j) % 64;
  }

  lemma DrawnIsDrawable(n: nat, j: nat)
    requires n > 0
    ensures Drawable(n, StateAfter(j) % n)
  {
    var t, d := StateParts(j);
    StateIsDrawable(n, t, d);
  }

  lemma StateIsDrawable(n: nat, t: nat, d: nat)
    requires n > 0 && t < HALF_PERIOD && (d == 0 || d == 10)
    ensures Drawable(n, (64 * t + d) % n)
  {
    var r := (64 * t + d) % n;
    StateRemainderClass(n, t, d);
    if d == 0 {
      PlaceAtMost(n, r, t);
    } else {
      AddBack(64 * t, r, n);
      PlaceAtMost(n, Unshifted(n, r), t);
    }
  }

  lemma StateRemainderClass(n: nat, t: nat, d: nat)
    requires n > 0 && t < HALF_PERIOD && (d == 0 || d == 10)
    ensures (64 * t + d) % n % Gcd64(n) == if d == 0 then 0 else 10 % Gcd64(n)
  {
    GcdSplit(n);
    ScaledState(t, d);
    RemainderClass(64 * t + d, n, Gcd64(n), Cofactor(n), Exponent(n), d);
    ModUnique(0, Gcd64(n), 0, 0);
  }

  /** The drawable indices, for every number of files; each comes up in any PERIOD consecutive draws. */
  lemma DrawableIff(n: nat, r: nat, from: nat)
    requires n > 0 && r < n
    ensures Drawable(n, r) <==> exists j :: from < j <= from + PERIOD && StateAfter(j) % n == r
  {
    if Drawable(n, r) {
      var s := StateFor(n, r);
      var j := NextDrawOf(s, from);
    }
    forall j | from < j <= from + PERIOD && StateAfter(j) % n == r
      ensures Drawable(n, r)
    {
      DrawnIsDrawable(n, j);
    }
  }

  /** For up to 2^26 * gcd(64, n) files, these are exactly the indices that are 0 or 10 modulo gcd(64, n). */
  lemma DrawableByClass(n: nat, r: nat)
    requires n > 0 && r < n
    ensures Drawable(n, r) ==> r % Gcd64(n) == 0 || r % Gcd64(n) == 10 % Gcd64(n)
    ensures Cofactor(n) <= HALF_PERIOD ==>
      (Drawable(n, r) <==> r % Gcd64(n) == 0 || r % Gcd64(n) == 10 % Gcd64(n))
  {
  }
}
