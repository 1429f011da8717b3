/**
  * How many indices are drawn. The draws of each parity give the remainders of 2^26 states; the two sets
  * of remainders are disjoint, or one is the other turned by a fixed number of places.
  */
module DrawnSets {
  import opened Modular
  import opened PseudoRandom
  import opened Draws

  function Min(a: int, b: int): int {
    if a < b then a else b
  }

  function Max(a: int, b: int): int {
    if a < b then b else a
  }

  /** The remainders of 64 t + d for the factors t from low to below high. */
  ghost function Remainders(n: nat, d: nat, low: nat, high: nat): set<int>
    requires n > 0
  {
    set t | low <= t < high :: (64 * t + d) % n
  }

  /** For every n, the indices drawn are those of the two classes of states. */
  lemma DrawnIsUnion(n: nat)
    requires n > 0
    ensures Drawn(n, PERIOD) == Remainders(n, 0, 0, HALF_PERIOD) + Remainders(n, 10, 0, HALF_PERIOD)
  {
    forall r | r in Drawn(n, PERIOD)
      ensures r in Remainders(n, 0, 0, HALF_PERIOD) || r in Remainders(n, 10, 0, HALF_PERIOD)
    {
      var j :| 1 <= j <= PERIOD && StateAfter(j) % n == r;
      DrawnInClass(n, j);
    }
    ClassIsDrawn(n, 0);
    ClassIsDrawn(n, 10);
  }

  lemma DrawnInClass(n: nat, j: nat)
    requires n > 0
    ensures StateAfter(j) % n in Remainders(n, 0, 0, HALF_PERIOD)
         || StateAfter(j) % n in Remainders(n, 10, 0, HALF_PERIOD)
  {
    var t, d := StateParts(j);
    assert (64 * t + d) % n in Remainders(n, d, 0, HALF_PERIOD);
  }

  lemma ClassIsDrawn(n: nat, d: nat)
    requires n > 0 && (d == 0 || d == 10)
    ensures Remainders(n, d, 0, HALF_PERIOD) <= Drawn(n, PERIOD)
  {
    forall r | r in Remainders(n, d, 0, HALF_PERIOD)
      ensures r in Drawn(n, PERIOD)
    {
      var t :| 0 <= t < HALF_PERIOD && (64 * t + d) % n == r;
      StateIsDrawn(n, t, d);
    }
  }

  lemma StateIsDrawn(n: nat, t: nat, d: nat)
    requires n > 0 && t < HALF_PERIOD && (d == 0 || d == 10)
    ensures (64 * t + d) % n in Drawn(n, PERIOD)
  {
    ScaledState(t, d);
    var j := DrawOf(64 * t + d);
  }

  // ---------- Sizes ----------

  lemma ShiftedMultiplesDiffer(n: nat, d: nat, i: nat, j: nat, m: nat)
    requires n > 0 && m == Cofactor(n) && i < m && j < m && (64 * i + d) % n == (64 * j + d) % n
    ensures i == j
  {
    DropSummand(64 * i, 64 * j, d, n);
    MultiplesOneToOne(n, i, j, m);
  }

  lemma MultiplesOneToOne(n: nat, i: nat, j: nat, m: nat)
    requires n > 0 && m == Cofactor(n) && i < m && j < m && (64 * i) % n == (64 * j) % n
    ensures i == j
  {
    SameMultipleIff(n, i, j);
    CloseResidues(i, j, m);
  }

  lemma DropSummand(x: int, y: int, d: int, n: nat)
    requires n > 0 && (x + d) % n == (y + d) % n
    ensures x % n == y % n
  {
    AddMod(x + d, y + d, -d, n);
  }

  lemma {:induction false} RemaindersSize(n: nat, d: nat, low: nat, high: nat)
    requires n > 0 && low <= high <= Cofactor(n)
    ensures |Remainders(n, d, low, high)| == high - low
    decreases high - low
  {
    if low < high {
      RemaindersSize(n, d, low, high - 1);
      NewRemainder(n, d, low, high - 1, Cofactor(n));
    } else {
      assert Remainders(n, d, low, high) == {};
    }
  }

  lemma NewRemainder(n: nat, d: nat, low: nat, last: nat, m: nat)
    requires n > 0 && low <= last < m && m == Cofactor(n)
    ensures |Remainders(n, d, low, last + 1)| == |Remainders(n, d, low, last)| + 1
  {
    NotYetThere(n, d, low, last, m);
    NextRemainder(n, d, low, last);
  }

  lemma NextRemainder(n: nat, d: nat, low: nat, last: nat)
    requires n > 0 && low <= last
    ensures Remainders(n, d, low, last + 1) == Remainders(n, d, low, last) + {(64 * last + d) % n}
  {
  }

  lemma NotYetThere(n: nat, d: nat, low: nat, last: nat, m: nat)
    requires n > 0 && low <= last < m && m == Cofactor(n)
    ensures (64 * last + d) % n !in Remainders(n, d, low, last)
  {
    if (64 * last + d) % n in Remainders(n, d, low, last) {
      var t :| low <= t < last && (64 * t + d) % n == (64 * last + d) % n;
      ShiftedMultiplesDiffer(n, d, t, last, m);
    }
  }

  /** How many different indices the draws of one parity give. */
  function ClassCount(n: nat): nat {
    Min(HALF_PERIOD, Cofactor(n))
  }

  lemma FoldFactor(n: nat, d: nat, t: nat, m: nat)
    requires n > 0 && m == Cofactor(n)
    ensures m > 0 && (64 * (t % m) + d) % n == (64 * t + d) % n
  {
    GcdSplit(n);
    ModUnique(t % m, m, 0, t % m);
    SameMultipleIff(n, t % m, t);
    AddMod(64 * (t % m), 64 * t, d, n);
  }

  lemma FactorInClass(n: nat, d: nat, t: nat, k: nat)
    requires n > 0 && t < HALF_PERIOD && k == ClassCount(n)
    ensures (64 * t + d) % n in Remainders(n, d, 0, k)
  {
    var m := Cofactor(n);
    FoldFactor(n, d, t, m);
    RemainderAtMost(t, m);
    var t' := t % m;
    assert (64 * t' + d) % n in Remainders(n, d, 0, k);
  }

  /** Factors that differ by multiples of n / gcd(64, n) add nothing. */
  lemma FoldClass(n: nat, d: nat, k: nat)
    requires n > 0 && k == ClassCount(n)
    ensures Remainders(n, d, 0, HALF_PERIOD) == Remainders(n, d, 0, k)
  {
    forall r | r in Remainders(n, d, 0, HALF_PERIOD)
      ensures r in Remainders(n, d, 0, k)
    {
      var t :| 0 <= t < HALF_PERIOD && (64 * t + d) % n == r;
      FactorInClass(n, d, t, k);
    }
    assert k <= HALF_PERIOD;
  }

  // ---------- The two classes apart ----------

  lemma ClassesDisjoint(n: nat, k: nat)
    requires n > 0 && 10 % Gcd64(n) != 0 && k <= HALF_PERIOD
    ensures Remainders(n, 0, 0, k) !! Remainders(n, 10, 0, k)
  {
    forall r | r in Remainders(n, 0, 0, k) && r in Remainders(n, 10, 0, k)
      ensures false
    {
      var s :| 0 <= s < k && (64 * s + 0) % n == r;
      var t :| 0 <= t < k && (64 * t + 10) % n == r;
      StateRemainderClass(n, s, 0);
      StateRemainderClass(n, t, 10);
    }
  }

  lemma DisjointCount(n: nat, k: nat)
    requires n > 0 && 10 % Gcd64(n) != 0 && k == ClassCount(n)
    ensures |Drawn(n, PERIOD)| == 2 * k
  {
    DrawnIsUnion(n);
    FoldClass(n, 0, k);
    FoldClass(n, 10, k);
    ClassesDisjoint(n, k);
    RemaindersSize(n, 0, 0, k);
    RemaindersSize(n, 10, 0, k);
  }

  // ---------- One class as the other turned ----------

  /** By how many places the indices of odd draws are turned against those of even ones. */
  function Turn(n: nat): (d: nat)
    requires n > 0 && 10 % Gcd64(n) == 0
    ensures d < Cofactor(n) && (64 * d) % n == 10 % n
  {
    GcdSplit(n);
    ModOfMultiple(10, Gcd64(n), Cofactor(n), n);
    Place(n, 10 % n)
  }

  lemma TurnIs(n: nat, d: nat)
    requires n > 0 && 10 % Gcd64(n) == 0 && d < Cofactor(n) && (64 * d) % n == 10 % n
    ensures Turn(n) == d
  {
    MultiplesOneToOne(n, Turn(n), d, Cofactor(n));
  }

  lemma TurnedFactor(n: nat, t: int, d: nat)
    requires n > 0 && (64 * d) % n == 10 % n
    ensures (64 * t + 10) % n == (64 * (t + d)) % n
  {
    AddMod(10, 64 * d, 64 * t, n);
  }

  /**
    * The indices drawn when the odd draws are turned by d: those of the even draws, and those that the odd
    * ones add.
    */
  ghost function Turned(n: nat, d: nat, m: nat, k: nat): set<int>
    requires n > 0
  {
    Remainders(n, 0, 0, k) + Remainders(n, 0, Max(d, k), Max(0, Min(m, d + k)))
  }

  lemma OddIndexInTurned(n: nat, t: nat, d: nat, m: nat, k: nat)
    requires n > 0 && m == Cofactor(n) && d < m && k <= m && t < k && (64 * d) % n == 10 % n
    ensures (64 * t + 10) % n in Turned(n, d, m, k)
  {
    TurnedFactor(n, t, d);
    FoldFactor(n, 0, t + d, m);
    var u := if t + d < m then t + d else t + d - m;
    ModUnique(t + d, m, if t + d < m then 0 else 1, u);
    assert (64 * u + 0) % n == (64 * t + 10) % n;
  }

  lemma TurnedIndexIsOdd(n: nat, u: nat, d: nat, m: nat, k: nat)
    requires n > 0 && Max(d, k) <= u < Min(m, d + k) && (64 * d) % n == 10 % n
    ensures (64 * u + 0) % n in Remainders(n, 10, 0, k)
  {
    var t := u - d;
    TurnedFactor(n, t, d);
    assert (64 * t + 10) % n in Remainders(n, 10, 0, k);
  }

  lemma TurnedIs(n: nat, d: nat, m: nat, k: nat)
    requires n > 0 && m == Cofactor(n) && d < m && k <= m && (64 * d) % n == 10 % n
    ensures Remainders(n, 0, 0, k) + Remainders(n, 10, 0, k) == Turned(n, d, m, k)
  {
    forall r | r in Remainders(n, 10, 0, k)
      ensures r in Turned(n, d, m, k)
    {
      var t :| 0 <= t < k && (64 * t + 10) % n == r;
      OddIndexInTurned(n, t, d, m, k);
    }
    forall r | r in Remainders(n, 0, Max(d, k), Max(0, Min(m, d + k)))
      ensures r in Remainders(n, 10, 0, k)
    {
      var u :| Max(d, k) <= u < Min(m, d + k) && (64 * u + 0) % n == r;
      TurnedIndexIsOdd(n, u, d, m, k);
    }
  }

  lemma AddedApart(n: nat, k: nat, a: nat, b: nat, m: nat)
    requires n > 0 && m == Cofactor(n) && k <= a && k <= m && b <= m
    ensures Remainders(n, 0, 0, k) !! Remainders(n, 0, a, b)
  {
    forall r | r in Remainders(n, 0, 0, k) && r in Remainders(n, 0, a, b)
      ensures false
    {
      var s :| 0 <= s < k && (64 * s + 0) % n == r;
      var t :| a <= t < b && (64 * t + 0) % n == r;
      ShiftedMultiplesDiffer(n, 0, s, t, m);
    }
  }

  lemma TurnedSize(n: nat, d: nat, m: nat, k: nat)
    requires n > 0 && m == Cofactor(n) && d < m && k <= m
    ensures |Turned(n, d, m, k)| == k + Min(m, d + k) - Max(d, k)
  {
    var a, b := Max(d, k), Min(m, d + k);
    RemaindersSize(n, 0, 0, k);
    RemaindersSize(n, 0, a, b);
    AddedApart(n, k, a, b, m);
  }

  lemma TurnedCount(n: nat, d: nat, m: nat, k: nat)
    requires n > 0 && m == Cofactor(n) && k == ClassCount(n) && d < m && (64 * d) % n == 10 % n
    ensures |Drawn(n, PERIOD)| == k + Min(m, d + k) - Max(d, k)
  {
    DrawnIsUnion(n);
    FoldClass(n, 0, k);
    FoldClass(n, 10, k);
    TurnedIs(n, d, m, k);
    TurnedSize(n, d, m, k);
  }

  // ---------- The count ----------

  /** The number of different indices that are ever drawn. */
  function IndexCount(n: nat): (count: nat)
    requires n > 0
    ensures ClassCount(n) <= count <= 2 * ClassCount(n)
  {
    var m, k := Cofactor(n), ClassCount(n);
    if 10 % Gcd64(n) != 0 then
      2 * k
    else
      var d := Turn(n);
      k + Min(m, d + k) - Max(d, k)
  }

  lemma DrawnCountIs(n: nat)
    requires n > 0
    ensures |Drawn(n, PERIOD)| == IndexCount(n)
  {
    if 10 % Gcd64(n) != 0 {
      DisjointCount(n, ClassCount(n));
    } else {
      TurnedCount(n, Turn(n), Cofactor(n), ClassCount(n));
    }
  }
}
