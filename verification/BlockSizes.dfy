/** What two fills of the same start and size, with different block sizes, write alike. */
module BlockSizes {
  import opened Blocks
  import opened Words
  import opened Stamps
  import opened StampIdentity
  import opened Schedule
  import opened Contiguity

  /** The bytes of the whole schedule. */
  function FullContent(p: Params): seq<byte>
    requires p.blockSize > 0
  {
    Content(p, BlockCount(p.size, p.blockSize))
  }

  /** How many they are: more than the size where the start is beyond it and the last block is whole. */
  function FullLength(p: Params): nat
    requires p.blockSize > 0
  {
    if p.start == 0 then p.size
    else if p.start > p.size then Span(BlockCount(p.size, p.blockSize), p.blockSize)
    else p.size - p.start + AfterGap(p)
  }

  lemma FullUnbroken(p: Params)
    requires Fits(p) && (p.start == 0 || p.start > p.size)
    ensures FullContent(p) == Stamped(p.start, FullLength(p))
  {
    var n := BlockCount(p.size, p.blockSize);
    ContentIsStamps(p, n);
    if p.size == 0 {
    } else if p.start == 0 {
      VisitedInOrder(p);
      StampsOfRun(p.start, p.size);
    } else {
      WholeBlocksVisited(p, n);
      StampsOfRun(p.start, Span(n, p.blockSize));
    }
  }

  lemma FullBroken(p: Params)
    requires Fits(p) && 0 < p.start <= p.size
    ensures FullContent(p) == Stamped(p.start, p.size - p.start) + Stamped(Resume(p), AfterGap(p))
  {
    ContentIsStamps(p, BlockCount(p.size, p.blockSize));
    BrokenSchedule(p);
    StampsOfSplit(Run(p.start, p.size - p.start), Run(Resume(p), AfterGap(p)));
    StampsOfRun(p.start, p.size - p.start);
    StampsOfRun(Resume(p), AfterGap(p));
  }

  lemma FullLengthIs(p: Params)
    requires Fits(p)
    ensures |FullContent(p)| == FullLength(p)
  {
    if p.start == 0 || p.start > p.size {
      FullUnbroken(p);
    } else {
      FullBroken(p);
    }
  }

  /** The stretch of length n after the gap is the same: at the same place, or short and by coincidence. */
  predicate SameAfterGap(resume: nat, resume': nat, n: nat) {
    n == 0 || resume == resume' || (n < 7 && Stamped(resume, n) == Stamped(resume', n))
  }

  /**
    * For the same start and size, q writes the beginning of what p writes: it writes no more, and if there is
    * a gap it goes on in the same way.
    */
  predicate Begins(q: Params, p: Params)
    requires p.blockSize > 0 && q.blockSize > 0 && p.start == q.start && p.size == q.size
  {
    && FullLength(q) <= FullLength(p)
    && (0 < p.start <= p.size ==> SameAfterGap(Resume(q), Resume(p), AfterGap(q)))
  }

  lemma StampedPrefix(start: int, m: nat, n: nat)
    ensures Stamped(start, m) <= Stamped(start, n) <==> m <= n
  {
    if m <= n {
      StampedSplit(start, m, n - m);
    }
  }

  lemma SameAfterGapIff(resume: u32, resume': u32, m: nat, n: nat)
    ensures Stamped(resume, m) <= Stamped(resume', n) <==> m <= n && SameAfterGap(resume, resume', m)
  {
    if m <= n {
      StampedSplit(resume', m, n - m);
      if m >= 7 && Stamped(resume, m) == Stamped(resume', m) {
        StampsDiffer(resume, resume', m);
      }
    }
  }

  lemma PrefixOfTails(a: seq<byte>, b: seq<byte>, c: seq<byte>)
    ensures a + b <= a + c <==> b <= c
  {
    if a + b <= a + c {
      assert b == (a + b)[|a|..] && c == (a + c)[|a|..];
      assert (a + c)[..|a + b|] == a + b;
      assert c[..|b|] == (a + c)[..|a + b|][|a|..];
    }
  }

  /** The exact condition on two block sizes. */
  lemma BeginsIff(q: Params, p: Params)
    requires Fits(p) && Fits(q) && p.start == q.start && p.size == q.size
    ensures FullContent(q) <= FullContent(p) <==> Begins(q, p)
  {
    if p.start == 0 || p.start > p.size {
      FullUnbroken(p);
      FullUnbroken(q);
      StampedPrefix(p.start, FullLength(q), FullLength(p));
    } else {
      BeginsBroken(q, p);
    }
  }

  lemma BeginsBroken(q: Params, p: Params)
    requires Fits(p) && Fits(q) && p.start == q.start && p.size == q.size && 0 < p.start <= p.size
    ensures FullContent(q) <= FullContent(p)
      <==> AfterGap(q) <= AfterGap(p) && SameAfterGap(Resume(q), Resume(p), AfterGap(q))
  {
    BrokenSchedule(p);
    BrokenSchedule(q);
    FullBroken(p);
    FullBroken(q);
    PrefixOfTails(Stamped(p.start, p.size - p.start),
                  Stamped(Resume(q), AfterGap(q)), Stamped(Resume(p), AfterGap(p)));
    SameAfterGapIff(Resume(q), Resume(p), AfterGap(q), AfterGap(p));
  }

  /** Stretches at different places can only be the same for block sizes up to 6 and starts up to 12. */
  lemma CoincidingTailsAreShort(q: Params, p: Params)
    requires Fits(p) && Fits(q) && p.start == q.start && p.size == q.size && 0 < p.start <= p.size
    requires Begins(q, p) && AfterGap(q) > 0 && Resume(q) != Resume(p)
    ensures q.blockSize <= AfterGap(q) <= 6 && p.start <= 12
  {
    TailBounds(q);
  }

  lemma TailBounds(q: Params)
    requires q.blockSize > 0 && 0 < q.start <= q.size
    ensures Resume(q) <= q.size + q.blockSize && q.start + q.size <= Resume(q) + AfterGap(q)
    ensures AfterGap(q) > 0 ==> q.blockSize <= AfterGap(q)
  {
    var b, m, n := q.blockSize, WholeBlocks(q.size - q.start, q.blockSize), BlockCount(q.size, q.blockSize);
    GapBeforeEnd(q.start, q.size, b);
    WholeBlocksBounds(q.size - q.start, b);
    BlockCountBounds(q.size, b);
    var more := n - m - 1;
    SpanAdds(m + 1, more, b);
    if more > 0 {
      SpanMonotone(1, more, b);
    }
  }

  /** Start 100, size 10: filled with block size 5, a check with block size 4 wants two bytes more. */
  lemma BlockSizesDiffer()
    ensures var p, q := Params(100, 10, 5), Params(100, 10, 4);
      Fits(p) && Fits(q) && !(FullContent(q) <= FullContent(p)) && FullContent(p) <= FullContent(q)
  {
    var p, q := Params(100, 10, 5), Params(100, 10, 4);
    BeginsIff(q, p);
    BeginsIff(p, q);
  }
}
