/**
  * The block schedule that filling and checking share: the loop over `current` with its unsigned 32-bit
  * arithmetic, as functions of the number of blocks done.
  */
module Schedule {
  import opened Blocks
  import opened Words
  import opened Modular
  import Orbit
  import Strides
  import opened Stamps

  datatype Params = Params(start: u32, size: u32, blockSize: u32)

  /** `current` after i blocks. */
  function Current(p: Params, i: nat): u32 {
    if i == 0 then p.start else Wrap(Current(p, i - 1) + p.blockSize)
  }

  /** The unsigned sum of start and size that `current` is compared with. */
  function Bound(p: Params): u32 {
    Wrap(p.start + p.size)
  }

  /** The loop goes on while `current` is below the bound. */
  predicate More(p: Params, i: nat) {
    Current(p, i) < Bound(p)
  }

  /** The length of the block at `current`; the difference wraps when `current` is beyond the size. */
  function Length(p: Params, current: u32): (n: u32)
    ensures n <= p.blockSize
  {
    var rest := Wrap(p.size - current);
    if p.blockSize < rest then p.blockSize else rest
  }

  /** The loop runs exactly k times. */
  ghost predicate Ends(p: Params, k: nat) {
    !More(p, k) && forall i: nat :: i < k ==> More(p, i)
  }

  lemma EndsOnce(p: Params, j: nat, k: nat)
    requires Ends(p, j) && Ends(p, k)
    ensures j == k
  {
    assert j < k ==> More(p, j);
    assert k < j ==> More(p, k);
  }

  // ---------- Positions ----------

  /** The positions visited by the first k blocks, in the order in which their bytes pass through the file. */
  function Visited(p: Params, k: nat): seq<u32> {
    if k == 0 then [] else Visited(p, k - 1) + Run(Current(p, k - 1), Length(p, Current(p, k - 1)))
  }

  /** The bytes of the first k blocks. */
  function Content(p: Params, k: nat): seq<byte> {
    if k == 0 then [] else Content(p, k - 1) + Stamped(Current(p, k - 1), Length(p, Current(p, k - 1)))
  }

  lemma {:induction false} ContentIsStamps(p: Params, k: nat)
    ensures Content(p, k) == StampsOf(Visited(p, k))
  {
    if k > 0 {
      ContentIsStamps(p, k - 1);
      var current := Current(p, k - 1);
      StampsOfSplit(Visited(p, k - 1), Run(current, Length(p, current)));
      StampsOfRun(current, Length(p, current));
    }
  }

  lemma {:induction false} ContentPrefix(p: Params, i: nat, k: nat)
    requires i <= k
    ensures Content(p, i) <= Content(p, k)
  {
    if i < k {
      ContentPrefix(p, i, k - 1);
    }
  }

  // ---------- How often the loop runs ----------

  /** No position is wrapped up to block i. */
  lemma {:induction false} CurrentUnwrapped(p: Params, i: nat)
    requires p.start + Span(i, p.blockSize) < MODULUS
    ensures Current(p, i) == p.start + Span(i, p.blockSize)
  {
    if i > 0 {
      CurrentUnwrapped(p, i - 1);
    }
  }

  /** The unsigned arithmetic of the loop does not wrap. */
  predicate Fits(p: Params) {
    p.blockSize > 0 && p.start + p.size < MODULUS
    && p.start + Span(BlockCount(p.size, p.blockSize), p.blockSize) < MODULUS
  }

  lemma MoreBeforeCount(p: Params, i: nat)
    requires p.blockSize > 0 && p.start + p.size < MODULUS && i < BlockCount(p.size, p.blockSize)
    ensures Span(i, p.blockSize) < p.size && Current(p, i) == p.start + Span(i, p.blockSize) && More(p, i)
  {
    BlockCountBounds(p.size, p.blockSize);
    SpanMonotone(i, BlockCount(p.size, p.blockSize) - 1, p.blockSize);
    CurrentUnwrapped(p, i);
  }

  lemma CurrentAtCount(p: Params, n: nat)
    requires p.size > 0 && p.blockSize > 0 && p.start + p.size < MODULUS && n == BlockCount(p.size, p.blockSize)
    ensures n > 0 && p.size <= Span(n, p.blockSize) < p.size + p.blockSize
    ensures Current(p, n) == Wrap(p.start + Span(n, p.blockSize))
  {
    BlockCountBounds(p.size, p.blockSize);
    MoreBeforeCount(p, n - 1);
  }

  lemma MoreAtCount(p: Params, n: nat)
    requires p.size > 0 && p.blockSize > 0 && p.start + p.size < MODULUS && n == BlockCount(p.size, p.blockSize)
    ensures More(p, n) <==> p.start + Span(n, p.blockSize) >= MODULUS
  {
    CurrentAtCount(p, n);
  }

  /** The loop runs once for every block exactly if nothing wraps. */
  lemma EndsAfterBlockCountIff(p: Params)
    requires p.size > 0 && p.blockSize > 0
    ensures Ends(p, BlockCount(p.size, p.blockSize)) <==> Fits(p)
  {
    var n := BlockCount(p.size, p.blockSize);
    if p.start + p.size >= MODULUS {
      assert n > 0 && !More(p, 0);
    } else {
      forall i: nat | i < n
        ensures More(p, i)
      {
        MoreBeforeCount(p, i);
      }
      MoreAtCount(p, n);
    }
  }

  /** With nothing to do, or a sum that wraps, the loop does not run at all. */
  lemma NeverStarts(p: Params)
    requires p.size == 0 || p.start + p.size >= MODULUS
    ensures Ends(p, 0)
  {
  }

  // ---------- Whether the loop ends ----------

  lemma ModulusIsPow2()
    ensures Orbit.Pow2(32) == MODULUS
  {
    assert Orbit.Pow2(13) == 8192;
    assert Orbit.Pow2(20) == 1048576;
    assert Orbit.Pow2(26) == 0x400_0000;
  }

  /** The greatest power of two that divides the block size and 2^32; 2^32 for block size 0. */
  function Stride(p: Params): (g: nat)
    ensures g > 0 && MODULUS % g == 0 && p.blockSize % g == 0
  {
    ModulusIsPow2();
    Strides.Stride(32, p.blockSize)
  }

  lemma StrideIsGreatest(p: Params, d: nat)
    requires d > 0 && MODULUS % d == 0 && p.blockSize % d == 0
    ensures d <= Stride(p)
  {
    ModulusIsPow2();
    Strides.StrideIsGreatest(32, p.blockSize, d);
  }

  lemma {:induction false} CurrentSpan(p: Params, i: nat)
    ensures Current(p, i) == Wrap(p.start + Span(i, p.blockSize))
  {
    if i > 0 {
      CurrentSpan(p, i - 1);
      WrapInner(p.start + Span(i - 1, p.blockSize), p.blockSize);
    }
  }

  /** `current` in closed form. */
  lemma CurrentIs(p: Params, i: nat)
    ensures Current(p, i) == Wrap(p.start + i * p.blockSize)
  {
    CurrentSpan(p, i);
    SpanIsProduct(i, p.blockSize);
  }

  /** The last position of the start's class modulo the stride. */
  function LastOfClass(p: Params): u32 {
    LastBelow(p.start, Stride(p));
    MODULUS - Stride(p) + p.start % Stride(p)
  }

  lemma LastBelow(x: u32, g: nat)
    requires g > 0 && MODULUS % g == 0
    ensures 0 <= MODULUS - g + x % g < MODULUS
    ensures x <= MODULUS - g + x % g && (MODULUS - g + x % g) % g == x % g
  {
    var c, q := MODULUS / g, x / g;
    Cancel(g, q, c);
    Cancel(g, 0, c);
    assert g * (c - 1 - q) >= 0;
    assert g * (c - 1) == MODULUS - g;
    ModUnique(MODULUS - g + x % g, g, c - 1, x % g);
  }

  lemma WrapKeepsClass(x: int, g: nat)
    requires g > 0 && MODULUS % g == 0
    ensures Wrap(x) % g == x % g
  {
    ModOfMultiple(x, g, MODULUS / g, MODULUS);
  }

  lemma SteppedClass(start: int, b: nat, i: nat, g: nat)
    requires g > 0 && b % g == 0
    ensures (start + i * b) % g == start % g
  {
    var c := b / g;
    assert i * (g * c) == g * (i * c);
    ModAddMultiple(start, g, i * c);
  }

  /** `current` stays in its class... */
  lemma ClassKept(p: Params, i: nat)
    ensures Current(p, i) % Stride(p) == p.start % Stride(p)
  {
    CurrentIs(p, i);
    SteppedClass(p.start, p.blockSize, i, Stride(p));
    WrapKeepsClass(p.start + i * p.blockSize, Stride(p));
  }

  lemma CurrentAtMostLast(p: Params, i: nat)
    ensures Current(p, i) <= LastOfClass(p)
  {
    ClassKept(p, i);
    LastBelow(Current(p, i), Stride(p));
  }

  lemma DistanceInClass(x: int, y: int, g: nat)
    requires g > 0 && MODULUS % g == 0 && x % g == y % g
    ensures Wrap(y - x) % g == 0
  {
    SameModGap(y, x, g);
    WrapKeepsClass(y - x, g);
  }

  lemma DistanceLeadsTo(from: u32, last: u32, x: int)
    requires x % MODULUS == Wrap(last - from)
    ensures Wrap(from + x) == last
  {
    AddMod(x, last - from, from, MODULUS);
  }

  lemma StepsBetween(from: u32, last: u32, b: u32, e: nat) returns (i: nat)
    requires Orbit.Pow2(e) == MODULUS && from % Strides.Stride(e, b) == last % Strides.Stride(e, b)
    ensures Wrap(from + i * b) == last
  {
    DistanceInClass(from, last, Strides.Stride(e, b));
    i := Strides.StepsTo(e, b, Wrap(last - from));
    DistanceLeadsTo(from, last, i * b);
  }

  /** ... and comes to the end of it. */
  lemma LastIsReached(p: Params) returns (i: nat)
    ensures Current(p, i) == LastOfClass(p)
  {
    LastBelow(p.start, Stride(p));
    ModulusIsPow2();
    i := StepsBetween(p.start, LastOfClass(p), p.blockSize, 32);
    CurrentIs(p, i);
  }

  /** After how many blocks `current` is at the start again. */
  function Period(p: Params): (n: nat)
    ensures n > 0 && MODULUS == Stride(p) * n
  {
    MODULUS / Stride(p)
  }

  lemma ZeroMultipleIff(d: nat, e: nat, b: nat, g: nat, n: nat)
    requires g == Strides.Stride(e, b) && n > 0 && Orbit.Pow2(e) == g * n
    ensures (d * b) % (g * n) == 0 <==> d % n == 0
  {
    ScaledMod(g, d, n);
    if (d * b) % (g * n) == 0 {
      Strides.OnlyTheStrideCounts(e, b, d);
      if g * (d % n) == 0 {
        SmallMultiple(g, d % n, 0);
      }
    } else if d % n == 0 {
      MultipleOfBoth(d, n, b, g);
    }
  }

  lemma MultipleOfBoth(d: nat, n: nat, b: nat, g: nat)
    requires n > 0 && d % n == 0 && g > 0 && b % g == 0
    ensures g * n > 0 && (d * b) % (g * n) == 0
  {
    var q, c := d / n, b / g;
    assert d == n * q && b == g * c;
    assert (n * q) * (g * c) == (g * n) * (q * c);
    assert g * n > 0;
    ModUnique(d * b, g * n, q * c, 0);
  }

  lemma SameWrapIff(start: int, x: int, y: int)
    ensures Wrap(start + x) == Wrap(start + y) <==> Wrap(y - x) == 0
  {
    if Wrap(start + x) == Wrap(start + y) {
      SameModGap(start + y, start + x, MODULUS);
    } else if Wrap(y - x) == 0 {
      GapSameMod(start + y, start + x, MODULUS);
    }
  }

  lemma SameStepsIff(start: int, b: nat, i: nat, j: nat)
    requires i <= j
    ensures Wrap(start + i * b) == Wrap(start + j * b) <==> Wrap((j - i) * b) == 0
  {
    SameWrapIff(start, i * b, j * b);
    assert j * b - i * b == (j - i) * b;
  }

  lemma BackAtStartIff(p: Params, d: nat)
    ensures Wrap(d * p.blockSize) == 0 <==> d % Period(p) == 0
  {
    ModulusIsPow2();
    ZeroMultipleIff(d, 32, p.blockSize, Stride(p), Period(p));
  }

  /** Two blocks start at the same position exactly when their numbers differ by a multiple of the period. */
  lemma SameCurrentIff(p: Params, i: nat, j: nat)
    requires i <= j
    ensures Current(p, i) == Current(p, j) <==> (j - i) % Period(p) == 0
  {
    CurrentIs(p, i);
    CurrentIs(p, j);
    SameStepsIff(p.start, p.blockSize, i, j);
    BackAtStartIff(p, j - i);
  }

  lemma {:induction false} FirstEnd(p: Params, k: nat) returns (j: nat)
    requires !More(p, k)
    ensures Ends(p, j)
  {
    if i: nat :| i < k && !More(p, i) {
      j := FirstEnd(p, i);
    } else {
      j := k;
    }
  }

  /** What a caller can compute beforehand: the sum wraps, or it is not beyond the last position of the class. */
  predicate CanEnd(p: Params) {
    p.start + p.size >= MODULUS || p.start + p.size <= LastOfClass(p)
  }

  lemma BoundUnwrapped(p: Params)
    requires p.start + p.size < MODULUS
    ensures Bound(p) == p.start + p.size
  {
  }

  lemma EndsIf(p: Params) returns (k: nat)
    requires CanEnd(p)
    ensures Ends(p, k)
  {
    if p.start + p.size >= MODULUS {
      NeverStarts(p);
      k := 0;
    } else {
      var i := LastIsReached(p);
      BoundUnwrapped(p);
      k := FirstEnd(p, i);
    }
  }

  /** A loop that cannot end goes on after any number of blocks. */
  lemma NeverEnds(p: Params, k: nat)
    requires !CanEnd(p)
    ensures More(p, k)
  {
    BoundUnwrapped(p);
    CurrentAtMostLast(p, k);
  }

  /** The exact condition under which the loop ends at all, for all parameters. */
  lemma EndsIff(p: Params)
    ensures CanEnd(p) <==> exists k: nat :: Ends(p, k)
  {
    if CanEnd(p) {
      var k := EndsIf(p);
    }
    forall k: nat | Ends(p, k)
      ensures CanEnd(p)
    {
      if !CanEnd(p) {
        NeverEnds(p, k);
      }
    }
  }

  /** A positive block size with which the loop never ends although the sum of start and size does not wrap. */
  lemma WrapsForever(k: nat)
    ensures More(Params(0, 0xFFFF_FFFF, 512), k)
  {
    var p := Params(0, 0xFFFF_FFFF, 512);
    StrideIsGreatest(p, 512);
    NeverEnds(p, k);
  }

  /**
    * With block size 0 a loop that starts never ends, and moves no byte. The program comes to the loop only if
    * `malloc(0)` gives it a pointer that is not null.
    */
  lemma {:induction false} ZeroBlockSizeLoops(p: Params, k: nat)
    requires p.blockSize == 0 && p.size > 0 && p.start + p.size < MODULUS
    ensures More(p, k) && Content(p, k) == []
  {
    if k > 0 {
      ZeroBlockSizeLoops(p, k - 1);
      ZeroBlockCurrent(p, k);
    }
  }

  lemma {:induction false} ZeroBlockCurrent(p: Params, k: nat)
    requires p.blockSize == 0
    ensures Current(p, k) == p.start
  {
    if k > 0 {
      ZeroBlockCurrent(p, k - 1);
    }
  }
}
