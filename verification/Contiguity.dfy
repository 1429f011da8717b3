/**
  * Where the schedule leaves the intended pattern. The pattern asked for is the stamps of the positions
  * start to start+size-1; the loop computes block lengths from size-current, which is the distance to the
  * end only if start is 0.
  */
module Contiguity {
  import opened Blocks
  import opened Words
  import opened Modular
  import opened Stamps
  import opened StampIdentity
  import opened Schedule

  lemma SpanRemainder(size: nat, blockSize: nat, a: nat, rest: nat)
    requires size == Span(a, blockSize) + rest && rest < blockSize
    ensures size % blockSize == rest
  {
    SpanIsProduct(a, blockSize);
    ModUnique(size, blockSize, a, rest);
  }

  lemma DividedSpan(size: nat, blockSize: nat) returns (a: nat)
    requires blockSize > 0 && size % blockSize == 0
    ensures size == Span(a, blockSize)
  {
    a := size / blockSize;
    SpanIsProduct(a, blockSize);
  }

  // ---------- The shape of the schedule ----------

  /** While the position is at most the size, a block ends at the size; beyond it every block is whole. */
  lemma BlockLength(p: Params, i: nat)
    requires Fits(p) && i < BlockCount(p.size, p.blockSize)
    ensures var current := p.start + Span(i, p.blockSize);
      Current(p, i) == current < MODULUS
      && Length(p, current)
         == if current > p.size || p.size - current > p.blockSize then p.blockSize else p.size - current
  {
    MoreBeforeCount(p, i);
    SpanMonotone(i + 1, BlockCount(p.size, p.blockSize), p.blockSize);
    var current := p.start + Span(i, p.blockSize);
    if current > p.size {
      ModUnique(p.size - current, MODULUS, -1, p.size - current + MODULUS);
    } else {
      ModUnique(p.size - current, MODULUS, 0, p.size - current);
    }
  }

  /** Block i + j is whole and lies j whole blocks after a position. */
  ghost predicate WholeAt(p: Params, i: nat, from: nat, j: nat) {
    Current(p, i + j) == from + Span(j, p.blockSize) && Length(p, Current(p, i + j)) == p.blockSize
  }

  /** From block i on, whole blocks follow each other from a position. */
  ghost predicate WholeFrom(p: Params, i: nat, from: nat, more: nat) {
    forall j: nat :: j < more ==> WholeAt(p, i, from, j)
  }

  lemma VisitedNext(p: Params, i: nat, current: u32, length: nat)
    requires Current(p, i) == current && Length(p, current) == length
    ensures Visited(p, i + 1) == Visited(p, i) + Run(current, length)
  {
  }

  lemma Appended<T>(v: seq<T>, v': seq<T>, v'': seq<T>, r: seq<T>, r': seq<T>, s: seq<T>)
    requires v' == v + r && v'' == v' + r' && s == r + r'
    ensures v'' == v + s
  {
  }

  /** One whole block more goes on with the run. */
  lemma WholeAtVisited(p: Params, i: nat, from: nat, j: nat)
    requires WholeAt(p, i, from, j)
    requires Visited(p, i + j) == Visited(p, i) + Run(from, Span(j, p.blockSize))
    ensures Visited(p, i + (j + 1)) == Visited(p, i) + Run(from, Span(j + 1, p.blockSize))
  {
    var done := Span(j, p.blockSize);
    VisitedNext(p, i + j, from + done, p.blockSize);
    RunSplit(from, done, p.blockSize);
    Appended(Visited(p, i), Visited(p, i + j), Visited(p, i + j + 1),
             Run(from, done), Run(from + done, p.blockSize), Run(from, done + p.blockSize));
  }

  /** They visit one run without gap or overlap. */
  lemma {:induction false} WholeFromVisited(p: Params, i: nat, from: nat, more: nat)
    requires WholeFrom(p, i, from, more)
    ensures Visited(p, i + more) == Visited(p, i) + Run(from, Span(more, p.blockSize))
  {
    if more > 0 {
      WholeFromVisited(p, i, from, more - 1);
      WholeAtVisited(p, i, from, more - 1);
    }
  }

  lemma BlocksWhole(p: Params, i: nat)
    requires Fits(p) && i <= BlockCount(p.size, p.blockSize)
    requires p.start > p.size || p.start + Span(i, p.blockSize) <= p.size
    ensures WholeFrom(p, 0, p.start, i)
  {
    forall j: nat | j < i
      ensures WholeAt(p, 0, p.start, j)
    {
      BlockLength(p, j);
      SpanMonotone(j + 1, i, p.blockSize);
    }
  }

  /** Whole blocks up to the size, or all blocks if the start is beyond it. */
  lemma WholeBlocksVisited(p: Params, i: nat)
    requires Fits(p) && i <= BlockCount(p.size, p.blockSize)
    requires p.start > p.size || p.start + Span(i, p.blockSize) <= p.size
    ensures Visited(p, i) == Run(p.start, Span(i, p.blockSize))
  {
    BlocksWhole(p, i);
    WholeFromVisited(p, 0, p.start, i);
  }

  /** A block that goes on with a run. */
  lemma RunExtended(p: Params, i: nat, start: int, before: nat, n: nat)
    requires before <= n && Visited(p, i) == Run(start, before)
    requires Visited(p, i + 1) == Visited(p, i) + Run(start + before, n - before)
    ensures Visited(p, i + 1) == Run(start, n)
  {
    RunSplit(start, before, n - before);
  }

  /** A block that ends at the size. */
  lemma ShortBlock(p: Params, i: nat)
    requires Fits(p) && i < BlockCount(p.size, p.blockSize)
    requires p.start + Span(i, p.blockSize) <= p.size <= p.start + Span(i, p.blockSize) + p.blockSize
    ensures Visited(p, i + 1) == Run(p.start, p.size - p.start)
  {
    var before := Span(i, p.blockSize);
    WholeBlocksVisited(p, i);
    ShortBlockNext(p, i);
    RunExtended(p, i, p.start, before, p.size - p.start);
  }

  lemma ShortBlockNext(p: Params, i: nat)
    requires Fits(p) && i < BlockCount(p.size, p.blockSize)
    requires p.start + Span(i, p.blockSize) <= p.size <= p.start + Span(i, p.blockSize) + p.blockSize
    ensures var before := Span(i, p.blockSize);
      Visited(p, i + 1) == Visited(p, i) + Run(p.start + before, p.size - p.start - before)
  {
    var current := p.start + Span(i, p.blockSize);
    BlockLength(p, i);
    assert Length(p, current) == p.size - current;
    VisitedNext(p, i, current, p.size - current);
  }

  /**
    * With a start of at most the size, one block ends at the size, and the next ones are whole, from a
    * whole block later on.
    */
  lemma BrokenVisited(p: Params, m: nat, more: nat)
    requires Fits(p) && 0 < p.start <= p.size && m == WholeBlocks(p.size - p.start, p.blockSize)
    requires m + 1 + more == BlockCount(p.size, p.blockSize)
    ensures Visited(p, m + 1 + more)
         == Run(p.start, p.size - p.start) + Run(p.start + Span(m + 1, p.blockSize), Span(more, p.blockSize))
  {
    var resume := p.start + Span(m + 1, p.blockSize);
    WholeBlocksBounds(p.size - p.start, p.blockSize);
    ShortBlock(p, m);
    var i := m + 1;
    forall j: nat | j < more
      ensures WholeAt(p, i, resume, j)
    {
      SpanAdds(i, j, p.blockSize);
      BlockLength(p, i + j);
    }
    WholeFromVisited(p, i, resume, more);
  }

  /**
    * How many positions are left for after the gap is what start measures only for a start of whole
    * blocks and a size that is none.
    */
  lemma LeftAfterGap(start: nat, size: nat, blockSize: nat, m: nat, more: nat)
    requires blockSize > 0 && start <= size && m == WholeBlocks(size - start, blockSize)
    requires m + 1 + more == BlockCount(size, blockSize)
    ensures Span(more, blockSize) == start <==> start % blockSize == 0 && size % blockSize != 0
    ensures Span(more, blockSize) == start ==> start + Span(m + 1, blockSize) == size + blockSize - size % blockSize
  {
    BlockCountBounds(size, blockSize);
    WholeBlocksBounds(size - start, blockSize);
    var rest := size - start - Span(m, blockSize);
    if Span(more, blockSize) == start {
      SpanAdds(more, m, blockSize);
      SpanRemainder(start, blockSize, more, 0);
      SpanRemainder(size, blockSize, more + m, rest);
    }
    if start % blockSize == 0 && size % blockSize != 0 {
      var c := DividedSpan(start, blockSize);
      SpanAdds(c, m, blockSize);
      SpanRemainder(size, blockSize, c + m, rest);
      CountUnique(size, blockSize, c + m + 1);
    }
  }

  lemma GapBeforeEnd(start: nat, size: nat, blockSize: nat)
    requires blockSize > 0 && 0 < start <= size
    ensures WholeBlocks(size - start, blockSize) < BlockCount(size, blockSize)
  {
    var m, n := WholeBlocks(size - start, blockSize), BlockCount(size, blockSize);
    BlockCountBounds(size, blockSize);
    WholeBlocksBounds(size - start, blockSize);
    if m >= n {
      SpanMonotone(n, m, blockSize);
    }
  }

  /** Where the schedule goes on after the gap... */
  function Resume(p: Params): nat
    requires p.blockSize > 0 && 0 < p.start <= p.size
  {
    p.start + Span(WholeBlocks(p.size - p.start, p.blockSize) + 1, p.blockSize)
  }

  /** ... and for how many positions. */
  function AfterGap(p: Params): nat
    requires p.blockSize > 0 && 0 < p.start <= p.size
  {
    GapBeforeEnd(p.start, p.size, p.blockSize);
    Span(BlockCount(p.size, p.blockSize) - WholeBlocks(p.size - p.start, p.blockSize) - 1, p.blockSize)
  }

  /** The gap leaves exactly as many positions as are missing. */
  predicate Candidate(p: Params)
    requires p.blockSize > 0
  {
    0 < p.start <= p.size && p.start % p.blockSize == 0 && p.size % p.blockSize != 0
  }

  /** How far from the size the schedule then goes on. */
  function Skip(p: Params): nat
    requires p.blockSize > 0
  {
    p.blockSize - p.size % p.blockSize
  }

  lemma BrokenSchedule(p: Params)
    requires Fits(p) && 0 < p.start <= p.size
    ensures p.size < Resume(p) && Resume(p) + AfterGap(p) < MODULUS
    ensures Visited(p, BlockCount(p.size, p.blockSize)) == Run(p.start, p.size - p.start) + Run(Resume(p), AfterGap(p))
    ensures AfterGap(p) == p.start <==> Candidate(p)
    ensures AfterGap(p) == p.start ==> Resume(p) == p.size + Skip(p)
  {
    var n := BlockCount(p.size, p.blockSize);
    var m := WholeBlocks(p.size - p.start, p.blockSize);
    GapBeforeEnd(p.start, p.size, p.blockSize);
    WholeBlocksBounds(p.size - p.start, p.blockSize);
    var more := n - m - 1;
    BrokenVisited(p, m, more);
    SpanAdds(m + 1, more, p.blockSize);
    LeftAfterGap(p.start, p.size, p.blockSize, m, more);
  }

  lemma WholeMultiple(p: Params)
    requires Fits(p) && p.size > 0
    ensures Span(BlockCount(p.size, p.blockSize), p.blockSize) == p.size <==> p.size % p.blockSize == 0
  {
    if p.size % p.blockSize == 0 {
      var a := DividedSpan(p.size, p.blockSize);
      CountUnique(p.size, p.blockSize, a);
    }
    var n := BlockCount(p.size, p.blockSize);
    if Span(n, p.blockSize) == p.size {
      SpanRemainder(p.size, p.blockSize, n, 0);
    }
  }

  // ---------- When it is the intended pattern ----------

  /** The parameters for which the loop visits the intended positions. */
  predicate InOrder(p: Params)
    requires p.blockSize > 0
  {
    p.start == 0 || (p.start > p.size && p.size % p.blockSize == 0)
  }

  lemma VisitedInOrder(p: Params)
    requires Fits(p) && p.size > 0 && InOrder(p)
    ensures Visited(p, BlockCount(p.size, p.blockSize)) == Run(p.start, p.size)
  {
    var n := BlockCount(p.size, p.blockSize);
    BlockCountBounds(p.size, p.blockSize);
    if p.start == 0 {
      ShortBlock(p, n - 1);
    } else {
      WholeBlocksVisited(p, n);
      WholeMultiple(p);
    }
  }

  lemma VisitedTooLong(p: Params)
    requires Fits(p) && p.size > 0 && p.start > p.size && p.size % p.blockSize != 0
    ensures |Visited(p, BlockCount(p.size, p.blockSize))| > p.size
  {
    var n := BlockCount(p.size, p.blockSize);
    BlockCountBounds(p.size, p.blockSize);
    WholeBlocksVisited(p, n);
    WholeMultiple(p);
  }

  /** The positions visited are the intended ones exactly under InOrder. */
  lemma ContiguousIff(p: Params)
    requires Fits(p) && p.size > 0
    ensures Visited(p, BlockCount(p.size, p.blockSize)) == Run(p.start, p.size) <==> InOrder(p)
  {
    if InOrder(p) {
      VisitedInOrder(p);
    } else if p.start > p.size {
      VisitedTooLong(p);
    } else {
      BrokenOutOfOrder(p);
    }
  }

  lemma BrokenOutOfOrder(p: Params)
    requires Fits(p) && 0 < p.start <= p.size
    ensures Visited(p, BlockCount(p.size, p.blockSize)) != Run(p.start, p.size)
  {
    BrokenSchedule(p);
    GapShows(p.start, p.size, Resume(p), AfterGap(p));
  }

  lemma GapShows(start: u32, size: u32, resume: u32, length: nat)
    requires 0 < start <= size < resume
    ensures Run(start, size - start) + Run(resume, length) != Run(start, size)
  {
    var before := size - start;
    if length > 0 {
      RunAt(resume, length, 0);
      RunAt(start, size, before);
      assert (Run(start, before) + Run(resume, length))[before] == Run(resume, length)[0];
      UnwrappedBelow(resume);
      UnwrappedBelow(size);
    }
  }

  lemma UnwrappedBelow(x: u32)
    ensures Wrap(x) == x
  {
  }

  /**
    * The bytes can agree although the positions do not: only where the misplaced stretch is short and its
    * stamps happen to be equal.
    */
  predicate Coincides(p: Params)
    requires p.blockSize > 0
  {
    Candidate(p) && Stamped(p.size + Skip(p), p.start) == Stamped(p.size, p.start)
  }

  /** The bytes written are the intended pattern exactly in order or by such a coincidence. */
  lemma IntendedBytesIff(p: Params)
    requires Fits(p) && p.size > 0
    ensures Content(p, BlockCount(p.size, p.blockSize)) == Stamped(p.start, p.size) <==> InOrder(p) || Coincides(p)
  {
    var n := BlockCount(p.size, p.blockSize);
    ContentIsStamps(p, n);
    if InOrder(p) {
      VisitedInOrder(p);
      StampsOfRun(p.start, p.size);
    } else if p.start > p.size {
      VisitedTooLong(p);
    } else {
      BrokenBytes(p);
    }
  }

  lemma BrokenBytes(p: Params)
    requires Fits(p) && 0 < p.start <= p.size
    ensures StampsOf(Visited(p, BlockCount(p.size, p.blockSize))) == Stamped(p.start, p.size) <==> Coincides(p)
  {
    BrokenSchedule(p);
    BrokenStamps(p.start, p.size, Resume(p), AfterGap(p), Visited(p, BlockCount(p.size, p.blockSize)));
    SameLength(Resume(p), AfterGap(p), p.size, p.start);
  }

  lemma SameLength(a: int, m: nat, b: int, n: nat)
    ensures Stamped(a, m) == Stamped(b, n) ==> m == n
  {
    assert |Stamped(a, m)| == m && |Stamped(b, n)| == n;
  }

  lemma BrokenStamps(start: u32, size: u32, resume: nat, length: nat, visited: seq<u32>)
    requires start <= size && visited == Run(start, size - start) + Run(resume, length)
    ensures StampsOf(visited) == Stamped(start, size) <==> Stamped(resume, length) == Stamped(size, start)
  {
    var before := size - start;
    StampsOfSplit(Run(start, before), Run(resume, length));
    StampsOfRun(start, before);
    StampsOfRun(resume, length);
    StampedSplit(start, before, start);
    SameTail(Stamped(start, before), Stamped(resume, length), Stamped(size, start));
  }

  lemma SameTail(a: seq<byte>, b: seq<byte>, c: seq<byte>)
    ensures a + b == a + c <==> b == c
  {
    if a + b == a + c {
      assert b == (a + b)[|a|..];
      assert c == (a + c)[|a|..];
    }
  }

  /** A coincidence needs a start below seven: from there on the bytes are right only in order. */
  lemma CoincidenceIsShort(p: Params)
    requires Fits(p) && Coincides(p)
    ensures 2 <= p.start <= 6
  {
    if p.start == 1 {
      ModUnique(1, p.blockSize, if p.blockSize == 1 then 1 else 0, if p.blockSize == 1 then 0 else 1);
      ModUnique(p.size, 1, p.size, 0);
      assert false;
    }
    if p.start >= 7 {
      BrokenSchedule(p);
      StampsDiffer(Resume(p), p.size, p.start);
    }
  }

  /** From start 7 on the bytes written are the intended pattern exactly in order. */
  lemma IntendedBytesFromSeven(p: Params)
    requires Fits(p) && p.size > 0 && p.start >= 7
    ensures Content(p, BlockCount(p.size, p.blockSize)) == Stamped(p.start, p.size)
      <==> p.start > p.size && p.size % p.blockSize == 0
  {
    IntendedBytesIff(p);
    if Coincides(p) {
      CoincidenceIsShort(p);
    }
  }

  lemma FirstStampsAreZero()
    ensures Stamped(4, 2) == Stamped(3, 2) == [0, 0]
  {
    FirstStamps(3);
    FirstStamps(4);
    FirstStamps(5);
  }

  /** An input on which the positions are wrong and the bytes right. */
  lemma CoincidenceExists()
    ensures var p := Params(2, 3, 2);
      Fits(p) && !InOrder(p) && Coincides(p)
      && Content(p, BlockCount(p.size, p.blockSize)) == Stamped(p.start, p.size)
  {
    var p := Params(2, 3, 2);
    FirstStampsAreZero();
    IntendedBytesIff(p);
  }
}
