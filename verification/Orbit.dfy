/**
  * Affine orbits x -> MULTIPLIER * x + increment over the integers, read modulo powers of two.
  * A multiplier that is 1 modulo 4 and an odd increment give the full period 2^e modulo 2^e,
  * whatever the start.
  */
module Orbit {
  import opened Modular

  /** The square of the generator's multiplier: what two generator steps multiply by. */
  const MULTIPLIER: int := 98225522552641

  function Pow2(e: nat): (p: nat)
    ensures p > 0
  {
    if e == 0 then 1 else 2 * Pow2(e - 1)
  }

  function At(start: int, increment: int, k: nat): int {
    if k == 0 then start else MULTIPLIER * At(start, increment, k - 1) + increment
  }

  function Gap(start: int, increment: int, k: nat, m: nat): int {
    At(start, increment, k + m) - At(start, increment, k)
  }

  lemma GapStep(start: int, increment: int, k: nat, m: nat)
    ensures Gap(start, increment, k + 1, m) == MULTIPLIER * Gap(start, increment, k, m)
  {
    assert k + 1 + m == (k + m) + 1;
  }

  lemma MultiplyCofactor(p: int, o: int) returns (o': int)
    ensures MULTIPLIER * (p * o) == p * o' && o' % 4 == o % 4
  {
    o' := MULTIPLIER * o;
    assert o' == 4 * (24556380638160 * o) + o;
  }

  /**
    * Moving along the orbit multiplies a gap p * o by powers of MULTIPLIER, so the cofactor keeps its
    * class modulo 4.
    */
  lemma {:induction false} GapMoves(start: int, increment: int, k: nat, m: nat, j: nat, p: int,
                                    o: int) returns (o': int)
    requires Gap(start, increment, k, m) == p * o
    ensures Gap(start, increment, k + j, m) == p * o'
    ensures o' % 4 == o % 4
  {
    if j == 0 {
      o' := o;
    } else {
      var q := GapMoves(start, increment, k, m, j - 1, p, o);
      GapStep(start, increment, k + (j - 1), m);
      o' := MultiplyCofactor(p, q);
    }
  }

  lemma GapOfOne(start: int, increment: int, k: nat)
    requires increment % 2 == 1
    ensures Gap(start, increment, k, 1) % 2 == 1
  {
    assert Gap(start, increment, k, 1) == 2 * (49112761276320 * At(start, increment, k)) + increment;
  }

  /** Two odd numbers of the same class modulo 4 have an odd mean. */
  lemma OddMean(p: int, o1: int, o2: int) returns (o: int)
    requires o1 % 2 == 1 && o1 % 4 == o2 % 4
    ensures o % 2 == 1 && p * o1 + p * o2 == 2 * p * o
  {
    o := o1 + 2 * (o2 / 4 - o1 / 4);
    assert o1 + o2 == 2 * o;
    assert p * o1 + p * o2 == p * (o1 + o2) == p * (2 * o) == 2 * p * o;
  }

  /** Moving 2^e places along the orbit adds an odd multiple of 2^e. */
  lemma {:induction false} GapOfPow2(start: int, increment: int, e: nat, k: nat) returns (o: int)
    requires increment % 2 == 1
    ensures Gap(start, increment, k, Pow2(e)) == Pow2(e) * o
    ensures o % 2 == 1
  {
    if e == 0 {
      o := Gap(start, increment, k, 1);
      GapOfOne(start, increment, k);
    } else {
      var p := Pow2(e - 1);
      var o1 := GapOfPow2(start, increment, e - 1, k);
      var o2 := GapMoves(start, increment, k, p, p, p, o1);
      o := OddMean(p, o1, o2);
      assert k + Pow2(e) == (k + p) + p;
    }
  }

  /** An odd multiple of p exchanges the two residues modulo 2p that agree modulo p. */
  lemma HalfStep(x: int, y: int, p: int, o: int)
    requires p > 0 && o % 2 == 1 && y - x == p * o
    ensures y % (2 * p) != x % (2 * p)
    ensures y % p == x % p
  {
    var q, r := x / (2 * p), x % (2 * p);
    var h := o / 2;
    var s := if r < p then r + p else r - p;
    var t := if r < p then q + h else q + h + 1;
    assert p * o == (2 * p) * h + p;
    assert (2 * p) * (q + h + 1) == (2 * p) * q + (2 * p) * h + 2 * p;
    assert (2 * p) * (q + h) == (2 * p) * q + (2 * p) * h;
    ModUnique(y, 2 * p, t, s);
    ModAddMultiple(x, p, o);
  }

  /** Those two residues are all there are. */
  lemma OneOfTwoLifts(x: int, y: int, p: int, o: int, r: int)
    requires p > 0 && o % 2 == 1 && y - x == p * o
    requires 0 <= r < 2 * p && r % p == x % p
    ensures r == x % (2 * p) || r == y % (2 * p)
  {
    HalfStep(x, y, p, o);
    ModOfDouble(x, p);
    ModOfDouble(y, p);
    LiftsOf(r, p);
    LiftsOf(x % (2 * p), p);
    LiftsOf(y % (2 * p), p);
  }

  lemma OneOfTwoPlaces(start: int, increment: int, e: nat, r: nat, k: nat)
    requires increment % 2 == 1 && e > 0 && r < Pow2(e)
    requires At(start, increment, k) % Pow2(e - 1) == r % Pow2(e - 1)
    ensures r == At(start, increment, k) % Pow2(e) || r == At(start, increment, k + Pow2(e - 1)) % Pow2(e)
  {
    var o := GapOfPow2(start, increment, e - 1, k);
    OneOfTwoLifts(At(start, increment, k), At(start, increment, k + Pow2(e - 1)), Pow2(e - 1), o, r);
  }

  /** Where in the first 2^e places of the orbit the residue r occurs: an inverse of the generator. */
  function PlaceOf(start: int, increment: int, e: nat, r: nat): (k: nat)
    requires increment % 2 == 1 && r < Pow2(e)
    ensures k < Pow2(e) && At(start, increment, k) % Pow2(e) == r
  {
    if e == 0 then
      0
    else
      var p := Pow2(e - 1);
      var k := PlaceOf(start, increment, e - 1, r % p);
      OneOfTwoPlaces(start, increment, e, r, k);
      if At(start, increment, k) % Pow2(e) == r then k else k + p
  }

  /** The residues modulo 2^e repeat after 2^e places... */
  lemma Repeats(start: int, increment: int, e: nat, k: nat)
    requires increment % 2 == 1
    ensures At(start, increment, k + Pow2(e)) % Pow2(e) == At(start, increment, k) % Pow2(e)
  {
    var o := GapOfPow2(start, increment, e, k);
    ModAddMultiple(At(start, increment, k), Pow2(e), o);
  }

  /** ... and not before: 2^e consecutive places from the start carry different residues. */
  lemma {:induction false} NoEarlyRepeat(start: int, increment: int, e: nat, i: nat, j: nat)
    requires increment % 2 == 1
    requires i < Pow2(e) && j < Pow2(e)
    requires At(start, increment, i) % Pow2(e) == At(start, increment, j) % Pow2(e)
    ensures i == j
  {
    if e > 0 {
      FoldResidue(start, increment, e, i);
      FoldResidue(start, increment, e, j);
      var p := Pow2(e - 1);
      var i', j' := if i < p then i else i - p, if j < p then j else j - p;
      NoEarlyRepeat(start, increment, e - 1, i', j');
      HalvesDiffer(start, increment, e, i');
    }
  }

  lemma HalvesDiffer(start: int, increment: int, e: nat, k: nat)
    requires increment % 2 == 1 && e > 0
    ensures At(start, increment, k + Pow2(e - 1)) % Pow2(e) != At(start, increment, k) % Pow2(e)
  {
    var o := GapOfPow2(start, increment, e - 1, k);
    HalfStep(At(start, increment, k), At(start, increment, k + Pow2(e - 1)), Pow2(e - 1), o);
  }

  lemma FoldResidue(start: int, increment: int, e: nat, i: nat)
    requires increment % 2 == 1 && e > 0 && i < Pow2(e)
    ensures var p := Pow2(e - 1);
      At(start, increment, i) % Pow2(e) % p == At(start, increment, if i < p then i else i - p) % p
  {
    var p := Pow2(e - 1);
    ModOfDouble(At(start, increment, i), p);
    if i >= p {
      Repeats(start, increment, e - 1, i - p);
    }
  }
}
