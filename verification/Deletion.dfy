/**
  * The deletion loop as a matter of counting: with n small files present, it ends once a third of the
  * indices have been drawn. When does that happen?
  */
module Deletion {
  import opened Modular
  import opened PseudoRandom
  import opened Draws
  import opened DrawnSets

  ghost function DrawnCount(n: nat, k: nat): nat {
    if n == 0 then 0 else |Drawn(n, k)|
  }

  /** Some number of draws hits a third of the n indices. */
  ghost predicate Finishes(n: nat) {
    exists k: nat :: n / 3 <= DrawnCount(n, k)
  }

  lemma SubsetSize<T>(a: set<T>, b: set<T>)
    requires a <= b
    ensures |a| <= |b|
  {
    assert b == a + (b - a);
  }

  /** A run that is to finish does so within PERIOD draws; one that has not by then never will. */
  lemma FinishesWithinPeriod(n: nat)
    ensures Finishes(n) <==> n / 3 <= DrawnCount(n, PERIOD)
  {
    if n > 0 {
      forall k: nat
        ensures DrawnCount(n, k) <= DrawnCount(n, PERIOD)
      {
        DrawnSaturates(n, k);
        SubsetSize(Drawn(n, k), Drawn(n, PERIOD));
      }
    }
  }

  // ---------- Too few indices ----------

  ghost function TwoOfEight(n: nat): set<int> {
    set r | 0 <= r < n && (r % 8 == 0 || r % 8 == 2)
  }

  lemma TwoOfEightStep(q: nat)
    ensures TwoOfEight(8 * q + 8) == TwoOfEight(8 * q) + {8 * q, 8 * q + 2}
  {
    var m := 8 * q;
    forall r | m <= r < m + 8
      ensures r % 8 == r - m
    {
      ModUnique(r, 8, q, r - m);
    }
  }

  lemma {:induction false} TwoOfEightSize(q: nat)
    ensures |TwoOfEight(8 * q)| == 2 * q
  {
    if q > 0 {
      TwoOfEightSize(q - 1);
      TwoOfEightStep(q - 1);
    } else {
      assert TwoOfEight(0) == {};
    }
  }

  /** With a multiple of 8 files, the indices drawn are 0 or 2 modulo 8: at most a quarter of them. */
  lemma MultipleOfEightBound(n: nat, k: nat)
    requires n > 0 && n % 8 == 0
    ensures |Drawn(n, k)| <= n / 4
  {
    forall r | r in Drawn(n, k)
      ensures r in TwoOfEight(n)
    {
      var j :| 1 <= j <= k && StateAfter(j) % n == r;
      ClassModEight(n, j);
    }
    SubsetSize(Drawn(n, k), TwoOfEight(n));
    TwoOfEightSize(n / 8);
  }

  lemma ClassModEight(n: nat, j: nat)
    requires n > 0 && n % 8 == 0
    ensures StateAfter(j) % n % 8 == if j % 2 == 0 then 0 else 2
  {
    StateClass(j);
    RemainderModEight(StateAfter(j), n, if j % 2 == 0 then 0 else 10);
  }

  lemma RemainderModEight(s: nat, n: nat, d: nat)
    requires n > 0 && n % 8 == 0 && s % 64 == d
    ensures s % n % 8 == d % 8
  {
    ModOfMultiple(s, 8, n / 8, n);
    ModOfMultiple(s, 8, 8, 64);
  }

  /** For every multiple of 8 from 16 on, the deletion loop draws forever. */
  lemma MultipleOfEightStalls(n: nat)
    requires n % 8 == 0 && n >= 16
    ensures !Finishes(n)
  {
    forall k: nat
      ensures DrawnCount(n, k) < n / 3
    {
      MultipleOfEightBound(n, k);
    }
  }

  lemma EightFiles()
    ensures Finishes(8)
  {
    var k := 2;
    assert StateAfter(1) == 2122;
    StateClass(2);
    assert StateAfter(1) % 8 == 2 && StateAfter(2) % 8 == 0;
    assert {2, 0} <= Drawn(8, k);
    SubsetSize({2, 0}, Drawn(8, k));
    assert 8 / 3 <= DrawnCount(8, k);
  }

  // ---------- The exact condition ----------

  /** The index count decides, for every number of files. */
  lemma FinishesByCount(n: nat)
    requires n > 0
    ensures Finishes(n) <==> n / 3 <= IndexCount(n)
  {
    FinishesWithinPeriod(n);
    DrawnCountIs(n);
  }

  /**
    * How many states of the two classes leave an index that a state of the other class leaves as well, when
    * each class has 2^26 different indices: the odd draws are the even ones turned by Turn(n) among
    * n / gcd(64, n) places. With a multiple of 4 files, the classes have nothing in common.
    */
  function Overlap(n: nat): nat
    requires n % 8 != 0
  {
    SmallGcd(n);
    if n % 4 == 0 then 0
    else Max(0, HALF_PERIOD - Turn(n)) + Max(0, HALF_PERIOD - (Cofactor(n) - Turn(n)))
  }

  /**
    * What a caller can compute beforehand. No multiple of 8 but 0 and 8 can finish; up to 2^26 deletions,
    * everything else can; beyond, the two classes of 2^26 states must not overlap too much.
    */
  predicate CanFinish(n: nat) {
    if n % 8 == 0 then n == 0 || n == 8
    else n / 3 <= HALF_PERIOD || n / 3 + Overlap(n) <= PERIOD
  }

  /** Up to 2^26 deletions, both classes together have enough indices unless 8 divides n. */
  lemma EnoughForFew(n: nat)
    requires n % 8 != 0 && n / 3 <= HALF_PERIOD
    ensures n / 3 <= IndexCount(n)
  {
    SmallGcd(n);
    FewIndices(n, Gcd64(n), Cofactor(n));
  }

  lemma FewIndices(n: nat, g: nat, m: nat)
    requires n > 0 && g == Gcd64(n) && m == Cofactor(n) && g in {1, 2, 4} && n / 3 <= HALF_PERIOD
    ensures n / 3 <= IndexCount(n)
  {
    assert 10 % 4 == 2;
    assert m == n / g;
  }

  /** Beyond, each class has 2^26 indices if 4 does not divide n... */
  lemma CountOfMany(n: nat)
    requires n % 4 != 0 && n / 3 > HALF_PERIOD
    ensures n % 8 != 0 && IndexCount(n) == PERIOD - Overlap(n)
  {
    ManyIndices(n);
    var m, d := Cofactor(n), Turn(n);
    CountByTurn(n, m, HALF_PERIOD, d);
    OverlapByTurn(n, m, d);
    Lost(m, HALF_PERIOD, d);
  }

  lemma ManyIndices(n: nat)
    requires n % 4 != 0 && n / 3 > HALF_PERIOD
    ensures n % 8 != 0 && 10 % Gcd64(n) == 0 && ClassCount(n) == HALF_PERIOD <= Cofactor(n)
  {
    SmallGcd(n);
  }

  lemma CountByTurn(n: nat, m: nat, k: nat, d: nat)
    requires n > 0 && 10 % Gcd64(n) == 0 && m == Cofactor(n) && k == ClassCount(n) && d == Turn(n)
    ensures IndexCount(n) == k + Min(m, d + k) - Max(d, k)
  {
  }

  lemma OverlapByTurn(n: nat, m: nat, d: nat)
    requires n % 4 != 0 && n % 8 != 0 && 10 % Gcd64(n) == 0 && m == Cofactor(n) && d == Turn(n)
    ensures Overlap(n) == Max(0, HALF_PERIOD - d) + Max(0, HALF_PERIOD - (m - d))
  {
  }

  /** What two runs of k among m places, one turned by d, have in common. */
  lemma Lost(m: nat, k: nat, d: nat)
    requires k <= m && d < m
    ensures k + Min(m, d + k) - Max(d, k) == 2 * k - Max(0, k - d) - Max(0, k - (m - d))
  {
  }

  /** ... and otherwise the two classes together have 2^27 or half of all indices. */
  lemma CountOfFours(n: nat)
    requires n % 4 == 0 && n % 8 != 0
    ensures IndexCount(n) == 2 * Min(HALF_PERIOD, n / 4)
  {
    SmallGcd(n);
    assert 10 % 4 == 2;
  }

  /** The exact condition under which a third of n files can be deleted, for every n. */
  lemma FinishesIff(n: nat)
    ensures Finishes(n) <==> CanFinish(n)
  {
    if n == 0 {
      assert n / 3 <= DrawnCount(n, 0);
    } else if n == 8 {
      EightFiles();
    } else if n % 8 == 0 {
      MultipleOfEightStalls(n);
    } else {
      FinishesByCount(n);
      if n / 3 <= HALF_PERIOD {
        EnoughForFew(n);
      } else if n % 4 == 0 {
        CountOfFours(n);
      } else {
        CountOfMany(n);
      }
    }
  }

  /** No run can delete more files than there are states: beyond that the loop draws forever. */
  lemma TooManyFilesStall(n: nat)
    requires n / 3 > PERIOD
    ensures !Finishes(n)
  {
    FinishesIff(n);
  }

  /** A number of files at which the odd draws are turned by so much that the deletion never ends. */
  lemma OverlapStalls()
    ensures 230000005 % 8 != 0 && 230000005 / 3 <= PERIOD && !Finishes(230000005)
  {
    OverlapOfExample();
    FinishesIff(230000005);
  }

  lemma OverlapOfExample()
    ensures Overlap(230000005) == 59921364
  {
    var n := 230000005;
    TurnOfExample(n);
    assert HALF_PERIOD - (n - 222812505) == 59921364;
  }

  lemma TurnOfExample(n: nat)
    requires n == 230000005
    ensures Gcd64(n) == 1 && Cofactor(n) == n && Turn(n) == 222812505
  {
    SmallGcd(n);
    ModUnique(64 * 222812505, n, 62, 10);
    ModUnique(10, n, 0, 10);
    TurnIs(n, 222812505);
  }

  /** A multiple of 4 but not of 8 finishes up to the 2^27 deletions that there are states for. */
  lemma FoursFinish(n: nat)
    requires n % 8 == 4
    ensures Finishes(n) <==> n / 3 <= PERIOD
  {
    FinishesIff(n);
    NoOverlap(n);
  }

  lemma NoOverlap(n: nat)
    requires n % 8 == 4
    ensures Overlap(n) == 0
  {
    ModUnique(n, 4, 2 * (n / 8) + 1, 0);
  }
}
