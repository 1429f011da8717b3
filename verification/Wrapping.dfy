/**
  * Schedules that end although a sum of the loop wraps: together with the others, the exact condition for
  * the intended pattern for every loop that ends.
  */
module Wrapping {
  import opened Words
  import opened Modular
  import opened Blocks
  import opened Stamps
  import opened StampIdentity
  import opened Schedule
  import opened Contiguity
  import opened Coincidences

  /** The loop begins, and its last addition of a block size wraps. */
  predicate Wraps(p: Params) {
    && p.size > 0 && p.blockSize > 0 && p.start + p.size < MODULUS
    && p.start + Span(BlockCount(p.size, p.blockSize), p.blockSize) >= MODULUS
  }

  lemma LengthAt(p: Params, c: u32)
    ensures var rest := if c <= p.size then p.size - c else MODULUS + p.size - c;
      Length(p, c) == if p.blockSize < rest then p.blockSize else rest
  {
    var wraps := c > p.size;
    ModUnique(p.size - c, MODULUS, if wraps then -1 else 0, if wraps then MODULUS + p.size - c else p.size - c);
  }

  // ---------- What the bytes so far say ----------

  /** The loop ends after k blocks, and has then written the intended pattern. */
  ghost predicate Intended(p: Params, k: nat) {
    Ends(p, k) && Content(p, k) == Stamped(p.start, p.size)
  }

  /** A turn that the loop comes to is one of the k. */
  lemma Comes(p: Params, k: nat, i: nat)
    requires Ends(p, k) && forall j: nat :: j < i ==> More(p, j)
    ensures i <= k
  {
    assert k < i ==> More(p, k);
  }

  /** The content after i of the k blocks is the beginning of the intended pattern. */
  lemma BeginningIntended(p: Params, k: nat, i: nat)
    requires Intended(p, k) && i <= k
    ensures |Content(p, i)| <= p.size && Content(p, i) == Stamped(p.start, |Content(p, i)|)
  {
    ContentPrefix(p, i, k);
    var n := |Content(p, i)|;
    StampedSplit(p.start, n, p.size - n);
    assert Content(p, k)[..n] == Content(p, i);
    assert (Stamped(p.start, n) + Stamped(p.start + n, p.size - n))[..n] == Stamped(p.start, n);
  }

  /** Where a run of stamps follows the first i blocks, it is as short as the pattern requires... */
  lemma RunIntended(p: Params, k: nat, i: nat, i': nat, c: u32, n: nat)
    requires Intended(p, k) && i <= i' <= k && Content(p, i') == Content(p, i) + Stamped(c, n)
    ensures |Content(p, i)| + n <= p.size && Stamped(c, n) == Stamped(p.start + |Content(p, i)|, n)
  {
    BeginningIntended(p, k, i);
    BeginningIntended(p, k, i');
    var l := |Content(p, i)|;
    StampedSplit(p.start, l, n);
    SameTail(Content(p, i), Stamped(c, n), Stamped(p.start + l, n));
  }

  /** ... and from seven bytes on it is at the right place. */
  lemma LongRunInPlace(p: Params, k: nat, i: nat, i': nat, c: u32, n: nat)
    requires Intended(p, k) && i <= i' <= k && Content(p, i') == Content(p, i) + Stamped(c, n)
    requires n >= 7 && p.start + p.size < MODULUS
    ensures c == p.start + |Content(p, i)|
  {
    RunIntended(p, k, i, i', c, n);
    StampsDiffer(c, p.start + |Content(p, i)|, n);
  }

  lemma NextContent(p: Params, i: nat, c: u32)
    requires Current(p, i) == c
    ensures Content(p, i + 1) == Content(p, i) + Stamped(c, Length(p, c))
    ensures |Content(p, i + 1)| == |Content(p, i)| + Length(p, c)
  {
  }

  // ---------- Whole blocks up to the size ----------

  /** One block more goes on with a run. */
  lemma RunGoesOn(p: Params, i: nat, j: nat, c: int, done: nat, n: nat)
    requires 0 <= c && c + done < MODULUS && Current(p, j) == c + done && Length(p, c + done) == n
    requires Content(p, j) == Content(p, i) + Stamped(c, done)
    ensures Content(p, j + 1) == Content(p, i) + Stamped(c, done + n)
  {
    NextContent(p, j, c + done);
    StampedSplit(c, done, n);
    Appended(Content(p, i), Content(p, j), Content(p, j + 1), Stamped(c, done), Stamped(c + done, n),
             Stamped(c, done + n));
  }

  lemma WholeBlock(p: Params, j: nat, x: int)
    requires p.blockSize > 0 && 0 <= x && x + p.blockSize <= p.size && Current(p, j) == x
    ensures Length(p, x) == p.blockSize && Current(p, j + 1) == x + p.blockSize
  {
    LengthAt(p, x);
    ModUnique(x + p.blockSize, MODULUS, 0, x + p.blockSize);
  }

  /** From block i to block j the loop runs through the positions from c on, as many as done. */
  ghost predicate RunTo(p: Params, i: nat, j: nat, c: u32, done: nat) {
    Current(p, j) == c + done && Content(p, j) == Content(p, i) + Stamped(c, done)
  }

  lemma WholeRunStart(p: Params, i: nat, c: u32)
    requires Current(p, i) == c
    ensures RunTo(p, i, i, c, 0)
  {
  }

  lemma WholeRunNext(p: Params, i: nat, j: nat, c: u32, done: nat)
    requires p.blockSize > 0 && c + done + p.blockSize <= p.size && RunTo(p, i, j, c, done)
    ensures RunTo(p, i, j + 1, c, done + p.blockSize)
  {
    WholeBlock(p, j, c + done);
    RunGoesOn(p, i, j, c, done, p.blockSize);
  }

  lemma {:induction false} WholeRun(p: Params, i: nat, c: u32, t: nat, j: nat)
    requires p.blockSize > 0 && Current(p, i) == c && c + Span(t, p.blockSize) <= p.size && j == i + t
    ensures RunTo(p, i, j, c, Span(t, p.blockSize))
    decreases t
  {
    if t == 0 {
      WholeRunStart(p, i, c);
    } else {
      WholeRun(p, i, c, t - 1, j - 1);
      WholeRunNext(p, i, j - 1, c, Span(t - 1, p.blockSize));
    }
  }

  /** The loop does not end on the way. */
  lemma WholeRunMore(p: Params, i: nat, c: u32, t: nat)
    requires p.blockSize > 0 && 0 < p.start && p.start + p.size < MODULUS
    requires Current(p, i) == c && c + Span(t, p.blockSize) <= p.size
    ensures forall j: nat :: i <= j <= i + t ==> More(p, j)
  {
    BoundUnwrapped(p);
    forall j: nat | i <= j <= i + t
      ensures More(p, j)
    {
      SpanMonotone(j - i, t, p.blockSize);
      WholeRun(p, i, c, j - i, j);
    }
  }

  /** From a position up to the size, a last block, which may be empty, ends there. */
  lemma UpToSize(p: Params, i: nat, c: u32, m: nat, j: nat)
    requires p.blockSize > 0 && 0 < p.start && p.start + p.size < MODULUS
    requires Current(p, i) == c <= p.size && m == WholeBlocks(p.size - c, p.blockSize) && j == i + m
    ensures Current(p, j) == c + Span(m, p.blockSize) <= p.size < c + Span(m, p.blockSize) + p.blockSize
    ensures Content(p, j + 1) == Content(p, i) + Stamped(c, p.size - c)
    ensures |Content(p, j + 1)| == |Content(p, i)| + p.size - c
    ensures forall l: nat :: i <= l <= j ==> More(p, l)
  {
    WholeBlocksBounds(p.size - c, p.blockSize);
    var done := Span(m, p.blockSize);
    WholeRun(p, i, c, m, j);
    WholeRunMore(p, i, c, m);
    LengthAt(p, c + done);
    RunGoesOn(p, i, j, c, done, p.size - c - done);
  }

  // ---------- Starts at 0 and beyond the size ----------

  lemma {:induction false} WholeLengths(p: Params, i: nat)
    requires Wraps(p) && (p.start == 0 || p.start > p.size) && i < BlockCount(p.size, p.blockSize)
    ensures |Content(p, i)| == Span(i, p.blockSize)
  {
    if i > 0 {
      WholeLengths(p, i - 1);
      MoreBeforeCount(p, i - 1);
      MoreBeforeCount(p, i);
      NextContent(p, i - 1, p.start + Span(i - 1, p.blockSize));
      LengthAt(p, p.start + Span(i - 1, p.blockSize));
    }
  }

  lemma NextLength(p: Params, i: nat, done: nat)
    requires Wraps(p) && (p.start == 0 || p.start > p.size) && i < BlockCount(p.size, p.blockSize)
    requires done == Span(i, p.blockSize)
    ensures p.start + done < MODULUS && |Content(p, i + 1)| == done + Length(p, p.start + done)
  {
    WholeLengths(p, i);
    MoreBeforeCount(p, i);
    NextContent(p, i, p.start + done);
  }

  /** The blocks counted cover the size, from a start beyond it with bytes to spare. */
  lemma CountCovers(p: Params, n: nat)
    requires Wraps(p) && (p.start == 0 || p.start > p.size) && n == BlockCount(p.size, p.blockSize)
    ensures |Content(p, n)| >= p.size && (p.start > p.size ==> |Content(p, n)| > p.size)
  {
    BlockCountBounds(p.size, p.blockSize);
    var last := Span(n - 1, p.blockSize);
    NextLength(p, n - 1, last);
    LengthAt(p, p.start + last);
  }

  /** From start 0 the loop goes on with a block that is not empty. */
  lemma OneBlockMore(p: Params, n: nat)
    requires Wraps(p) && p.start == 0 && n == BlockCount(p.size, p.blockSize)
    ensures |Content(p, n + 1)| > |Content(p, n)|
  {
    CurrentAtCount(p, n);
    WrapOnce(Span(n, p.blockSize));
    var c := Current(p, n);
    NextContent(p, n, c);
    LengthAt(p, c);
  }

  lemma WrapOnce(x: nat)
    requires MODULUS <= x < 2 * MODULUS
    ensures Wrap(x) == x - MODULUS
  {
  }

  lemma ComesBeyondCount(p: Params, k: nat, n: nat)
    requires Wraps(p) && Ends(p, k) && n == BlockCount(p.size, p.blockSize)
    ensures n + 1 <= k
  {
    forall j: nat | j < n + 1
      ensures More(p, j)
    {
      if j < n {
        MoreBeforeCount(p, j);
      } else {
        MoreAtCount(p, n);
      }
    }
    Comes(p, k, n + 1);
  }

  lemma StartIsInside(p: Params, k: nat)
    requires Wraps(p) && Intended(p, k)
    ensures 0 < p.start <= p.size
  {
    if p.start == 0 || p.start > p.size {
      var n := BlockCount(p.size, p.blockSize);
      ComesBeyondCount(p, k, n);
      CountCovers(p, n);
      BeginningIntended(p, k, n);
      if p.start == 0 {
        OneBlockMore(p, n);
        BeginningIntended(p, k, n + 1);
      }
    }
  }

  // ---------- Starts up to the size ----------

  lemma ComesOn(p: Params, k: nat, i: nat, t: nat)
    requires Ends(p, k) && i <= k && forall j: nat :: i <= j < i + t ==> More(p, j)
    ensures i + t <= k
  {
    assert i <= k < i + t ==> More(p, k);
  }

  /** The blocks up to the size leave something to do, and the addition that follows goes beyond the size. */
  lemma AfterSize(p: Params, k: nat, m: nat, resume: nat)
    requires Wraps(p) && Intended(p, k) && 0 < p.start <= p.size
    requires m == WholeBlocks(p.size - p.start, p.blockSize) && resume == p.start + Span(m, p.blockSize) + p.blockSize
    ensures p.size < resume <= p.size + p.blockSize && Current(p, m + 1) == Wrap(resume)
    ensures |Content(p, m + 1)| == p.size - p.start && m + 1 < k
  {
    UpToSize(p, 0, p.start, m, m);
    ComesOn(p, k, 0, m + 1);
    NotYetAll(p, k, m + 1);
    NextIs(p, m, p.start + Span(m, p.blockSize));
  }

  lemma NotYetAll(p: Params, k: nat, i: nat)
    requires Intended(p, k) && |Content(p, i)| < p.size
    ensures i != k
  {
  }

  lemma NextIs(p: Params, i: nat, c: nat)
    requires Current(p, i) == c
    ensures Current(p, i + 1) == Wrap(c + p.blockSize)
  {
  }

  /** If it does not wrap there, the blocks are short... */
  lemma ShortBlocks(p: Params, k: nat, m: nat, resume: u32)
    requires Wraps(p) && Intended(p, k) && 0 < p.start <= p.size < resume
    requires Current(p, m + 1) == resume && |Content(p, m + 1)| == p.size - p.start && m + 1 < k
    ensures p.blockSize <= 6
  {
    assert More(p, m + 1);
    BoundUnwrapped(p);
    NextContent(p, m + 1, resume);
    LengthAt(p, resume);
    RunIntended(p, k, m + 1, m + 2, resume, Length(p, resume));
    if p.blockSize > 6 {
      LongRunInPlace(p, k, m + 1, m + 2, resume, Length(p, resume));
    }
  }

  /** ... and where the loop wraps later, they run through far too small positions. */
  lemma ShortBlocksGoWrong(p: Params, k: nat, i: nat, n: nat)
    requires Wraps(p) && Ends(p, k) && 0 < p.start <= p.size && p.blockSize <= 6
    requires i <= n == BlockCount(p.size, p.blockSize) && |Content(p, i)| == p.size - p.start
    ensures !Intended(p, k)
  {
    CurrentAtCount(p, n);
    WrapOnce(p.start + Span(n, p.blockSize));
    var c := Current(p, n);
    ComesBeyondCount(p, k, n);
    SpanIsProduct(7, p.blockSize);
    WholeRun(p, n, c, 7, n + 7);
    WholeRunMore(p, n, c, 7);
    ComesOn(p, k, n, 7);
    ContentPrefix(p, i, n);
    if Intended(p, k) {
      LongRunInPlace(p, k, n, n + 7, c, Span(7, p.blockSize));
    }
  }

  lemma ResumeWraps(p: Params, k: nat, m: nat, resume: nat)
    requires Wraps(p) && Intended(p, k) && 0 < p.start <= p.size
    requires m == WholeBlocks(p.size - p.start, p.blockSize) && p.size < resume && Current(p, m + 1) == Wrap(resume)
    requires |Content(p, m + 1)| == p.size - p.start && m + 1 < k
    ensures resume >= MODULUS
  {
    if resume < MODULUS {
      UnwrappedBelow(resume);
      ShortBlocks(p, k, m, resume);
      GapBeforeEnd(p.start, p.size, p.blockSize);
      ShortBlocksGoWrong(p, k, m + 1, BlockCount(p.size, p.blockSize));
    }
  }

  // ---------- What is left: a step back ----------

  lemma SecondRunComes(p: Params, k: nat, i: nat, c: u32, j: nat)
    requires Wraps(p) && Ends(p, k) && 0 < p.start && i <= k && Current(p, i) == c <= p.size
    requires j == i + WholeBlocks(p.size - c, p.blockSize)
    ensures j + 1 <= k && Content(p, j + 1) == Content(p, i) + Stamped(c, p.size - c)
  {
    UpToSize(p, i, c, j - i, j);
    ComesOn(p, k, i, j - i + 1);
  }

  /** The loop steps back below the size, and from there its blocks run up to the size once more. */
  lemma SecondRun(p: Params, k: nat, i: nat, c: u32, j: nat, n: nat)
    requires Wraps(p) && Intended(p, k) && 0 < p.start <= p.size && i < k
    requires Current(p, i) == c < p.size && |Content(p, i)| == p.size - p.start
    requires j == i + WholeBlocks(p.size - c, p.blockSize) && n == p.size - c
    ensures n <= 6 && n <= p.start && Stamped(c, n) == Stamped(p.size, n)
    ensures j + 1 <= k && Content(p, j + 1) == Content(p, i) + Stamped(c, n)
  {
    SecondRunComes(p, k, i, c, j);
    RunAfterSize(p, k, i, j + 1, c, n);
    if n >= 7 {
      StampsDiffer(c, p.size, n);
    }
  }

  lemma RunAfterSize(p: Params, k: nat, i: nat, i': nat, c: u32, n: nat)
    requires Intended(p, k) && i <= i' <= k && p.start <= p.size && |Content(p, i)| == p.size - p.start
    requires Content(p, i') == Content(p, i) + Stamped(c, n)
    ensures n <= p.start && Stamped(c, n) == Stamped(p.size, n)
  {
    RunIntended(p, k, i, i', c, n);
  }

  lemma SpanAtLeast(m: nat, b: nat)
    ensures m >= 1 ==> Span(m, b) >= b
    ensures m >= 2 ==> Span(m, b) >= 2 * b
    ensures Span(0, b) == 0 && Span(1, b) == b
  {
    if m > 2 {
      SpanAtLeast(m - 1, b);
    }
  }

  /** That takes a block size close to 2^32, of which none fits before the size. */
  lemma HugeBlock(start: nat, size: nat, b: nat, m: nat, c: nat)
    requires 0 < start <= size && start + size < MODULUS && b < MODULUS
    requires Span(m, b) <= size - start < Span(m, b) + b
    requires start + Span(m, b) + b == MODULUS + c && size - c <= 6 && size - c <= start
    ensures m == 0 && b >= MODULUS - 6
  {
    SpanAtLeast(m, b);
  }

  /**
    * The only shape that is left: a first block up to the size, and a second one that begins t positions
    * before the start.
    */
  ghost predicate StepsBack(p: Params, k: nat, t: nat, c: u32) {
    && t == MODULUS - p.blockSize && 0 < t <= 6
    && p.start == c + t <= p.size && p.size - c <= 6
    && 2 <= k && Current(p, 1) == c
    && Content(p, 2) == Stamped(p.start, p.size - p.start) + Stamped(c, p.size - c)
    && Stamped(c, p.size - c) == Stamped(p.size, p.size - c)
  }

  lemma MustStepBack(p: Params, k: nat) returns (t: nat, c: u32)
    requires Wraps(p) && Intended(p, k)
    ensures StepsBack(p, k, t, c)
  {
    StartIsInside(p, k);
    var m := WholeBlocks(p.size - p.start, p.blockSize);
    var resume := p.start + Span(m, p.blockSize) + p.blockSize;
    AfterSize(p, k, m, resume);
    ResumeWraps(p, k, m, resume);
    WrapOnce(resume);
    c := resume - MODULUS;
    var n := p.size - c;
    var j := m + 1 + WholeBlocks(n, p.blockSize);
    SecondRun(p, k, m + 1, c, j, n);
    WholeBlocksBounds(p.size - p.start, p.blockSize);
    HugeBlock(p.start, p.size, p.blockSize, m, c);
    t := MODULUS - p.blockSize;
    FirstBlocks(p, n, j);
  }

  lemma FirstBlocks(p: Params, n: nat, j: nat)
    requires 0 < p.start <= p.size && p.blockSize >= MODULUS - 6 && p.size < p.start + p.blockSize && n <= 6
    requires j == 1 + WholeBlocks(n, p.blockSize)
    ensures j == 1 && Content(p, 1) == Stamped(p.start, p.size - p.start)
  {
    LengthAt(p, p.start);
    NextContent(p, 0, p.start);
  }

  /** A further step back would need yet another one, without end. */
  lemma NoFurtherStep(p: Params, k: nat, i: nat, c: u32, t: nat)
    requires Wraps(p) && Intended(p, k) && 0 < p.start <= p.size < p.blockSize && t == MODULUS - p.blockSize
    requires i <= k && Current(p, i) == c <= p.size && |Content(p, i)| >= t
    ensures false
    decreases c
  {
    BoundUnwrapped(p);
    assert i == k ==> More(p, k);
    NextContent(p, i, c);
    LengthAt(p, c);
    BeginningIntended(p, k, i + 1);
    NextIs(p, i, c);
    WrapOnce(c + p.blockSize);
    NoFurtherStep(p, k, i + 1, c - t, t);
  }

  lemma SecondIsLast(p: Params, k: nat, t: nat, c: u32)
    requires Wraps(p) && Intended(p, k) && StepsBack(p, k, t, c)
    ensures c < t && k == 2 && p.size == p.start + c
  {
    BoundUnwrapped(p);
    NextIs(p, 1, c);
    if c >= t {
      WrapOnce(c + p.blockSize);
      NoFurtherStep(p, k, 2, c - t, t);
    } else {
      ModUnique(c + p.blockSize, MODULUS, 0, c + p.blockSize);
      assert 2 < k ==> More(p, 2);
    }
  }

  lemma FirstStampsNotZero()
    ensures Wrap(7) == 7 && StampByte(7) == 4 && Wrap(11) == 11 && StampByte(11) == 8
  {
  }

  /** The bytes after such a step are the intended ones only where no byte but 0 comes in. */
  lemma StepShows(c: nat, t: nat)
    requires c < t && c + t <= 6 && Stamped(c, c + t) == Stamped(2 * c + t, c + t)
    ensures 3 * c + 2 * t <= 7
  {
    var n, from := c + t, 2 * c + t;
    FirstStampsNotZero();
    if 3 * c + 2 * t >= 8 {
      var at := if from <= 7 then 7 else 11;
      StampedAt(from, n, at - from);
      StampedAt(c, n, at - from);
      FirstStamps(c + at - from);
    }
  }

  /** The parameters whose loop wraps, ends, and has nevertheless written the intended bytes, all of them 0. */
  predicate ZerosByWrapping(p: Params) {
    p in {Params(1, 1, 0xFFFF_FFFF), Params(2, 2, 0xFFFF_FFFE), Params(3, 3, 0xFFFF_FFFD), Params(3, 4, 0xFFFF_FFFE)}
  }

  lemma MustBeZeros(p: Params, k: nat)
    requires Wraps(p) && Intended(p, k)
    ensures ZerosByWrapping(p)
  {
    var t, c := MustStepBack(p, k);
    SecondIsLast(p, k, t, c);
    StepShows(c, t);
  }

  lemma {:induction false} ZeroStamps(x: nat, y: nat, n: nat)
    requires x + n <= 7 && y + n <= 7
    ensures Stamped(x, n) == Stamped(y, n)
  {
    if n > 0 {
      ZeroStamps(x, y, n - 1);
      FirstStamps(x + n - 1);
      FirstStamps(y + n - 1);
    }
  }

  lemma StepWraps(p: Params, t: nat, c: nat)
    requires c < t <= 3 && p == Params(c + t, 2 * c + t, MODULUS - t)
    ensures Wraps(p)
  {
    SpanAtLeast(1, p.blockSize);
  }

  lemma StepCurrents(p: Params, t: nat, c: nat)
    requires c < t <= 3 && p == Params(c + t, 2 * c + t, MODULUS - t)
    ensures Current(p, 0) == p.start && Current(p, 1) == c && Current(p, 2) == MODULUS + c - t
  {
    NextIs(p, 0, p.start);
    WrapOnce(p.start + p.blockSize);
    NextIs(p, 1, c);
  }

  lemma StepSchedule(p: Params, t: nat, c: nat)
    requires c < t <= 3 && p == Params(c + t, 2 * c + t, MODULUS - t)
    ensures Ends(p, 2) && Current(p, 1) == c
    ensures Length(p, p.start) == c && Length(p, c) == c + t
  {
    StepCurrents(p, t, c);
    BoundUnwrapped(p);
    LengthAt(p, p.start);
    LengthAt(p, c);
  }

  lemma StepVisits(p: Params, t: nat, c: nat)
    requires c < t <= 3 && p == Params(c + t, 2 * c + t, MODULUS - t)
    ensures Visited(p, 2) == Run(p.start, c) + Run(c, c + t)
  {
    StepSchedule(p, t, c);
    VisitedNext(p, 0, p.start, c);
    VisitedNext(p, 1, c, c + t);
  }

  lemma StepWrites(p: Params, t: nat, c: nat)
    requires c < t <= 3 && p == Params(c + t, 2 * c + t, MODULUS - t)
    ensures Content(p, 2) == Stamped(p.start, c) + Stamped(c, c + t)
  {
    StepSchedule(p, t, c);
    NextContent(p, 0, p.start);
    NextContent(p, 1, c);
    assert Content(p, 0) == [];
  }

  lemma StepBytes(c: nat, t: nat)
    requires 3 * c + 2 * t <= 7
    ensures Stamped(c + t, c) + Stamped(c, c + t) == Stamped(c + t, 2 * c + t)
  {
    StampedSplit(c + t, c, c + t);
    ZeroStamps(c, 2 * c + t, c + t);
  }

  lemma StepWorks(p: Params, t: nat, c: nat)
    requires c < t <= 3 && 3 * c + 2 * t <= 7 && p == Params(c + t, 2 * c + t, MODULUS - t)
    ensures Wraps(p) && Intended(p, 2)
  {
    StepWraps(p, t, c);
    StepSchedule(p, t, c);
    StepWrites(p, t, c);
    StepBytes(c, t);
  }

  lemma ZerosAreIntended(p: Params)
    requires ZerosByWrapping(p)
    ensures Wraps(p) && Intended(p, 2)
  {
    var c, t := p.size - p.start, 2 * p.start - p.size;
    StepWorks(p, t, c);
  }

  /** A run that starts again before the size is not the intended one. */
  lemma SteppedRunShows(start: u32, size: u32, c: u32, n: nat)
    requires 0 < start <= size && c < size && n > 0
    ensures Run(start, size - start) + Run(c, n) != Run(start, size)
  {
    var before := size - start;
    RunAt(c, n, 0);
    RunAt(start, size, before);
    assert (Run(start, before) + Run(c, n))[before] == Run(c, n)[0];
    UnwrappedBelow(c);
    UnwrappedBelow(size);
  }

  // ---------- Every loop that ends ----------

  lemma EndsByKind(p: Params, k: nat)
    requires p.size > 0 && Ends(p, k)
    ensures p.start + p.size >= MODULUS ==> k == 0
    ensures Fits(p) ==> k == BlockCount(p.size, p.blockSize)
    ensures p.start + p.size >= MODULUS || Fits(p) || Wraps(p)
  {
    if p.start + p.size >= MODULUS {
      NeverStarts(p);
      EndsOnce(p, k, 0);
    } else if p.blockSize == 0 {
      ZeroBlockSizeLoops(p, k);
    } else if Fits(p) {
      EndsAfterBlockCountIff(p);
      EndsOnce(p, k, BlockCount(p.size, p.blockSize));
    }
  }

  /** For every loop that ends: the exact condition for the intended bytes. */
  lemma IntendedIff(p: Params, k: nat)
    requires p.size > 0 && Ends(p, k)
    ensures Content(p, k) == Stamped(p.start, p.size)
      <==> (Fits(p) && (InOrder(p) || CoincidesByWord(p))) || ZerosByWrapping(p)
  {
    EndsByKind(p, k);
    if ZerosByWrapping(p) {
      ZerosAreIntended(p);
      EndsOnce(p, k, 2);
    } else if Fits(p) {
      IntendedBytesByWord(p);
    } else if Wraps(p) {
      if Intended(p, k) {
        MustBeZeros(p, k);
      }
    }
  }

  /** From start 7 on nothing coincides, whether a sum wraps or not. */
  lemma IntendedFromSevenIff(p: Params, k: nat)
    requires p.size > 0 && p.start >= 7 && Ends(p, k)
    ensures Content(p, k) == Stamped(p.start, p.size)
      <==> Fits(p) && p.start > p.size && p.size % p.blockSize == 0
  {
    EndsByKind(p, k);
    IntendedIff(p, k);
    if Fits(p) {
      IntendedBytesFromSeven(p);
    }
  }

  /** For every loop that ends: the positions are the intended ones exactly in order, where no sum wraps. */
  lemma PositionsIff(p: Params, k: nat)
    requires p.size > 0 && Ends(p, k)
    ensures Visited(p, k) == Run(p.start, p.size) <==> Fits(p) && InOrder(p)
  {
    EndsByKind(p, k);
    ContentIsStamps(p, k);
    StampsOfRun(p.start, p.size);
    IntendedIff(p, k);
    if Fits(p) {
      ContiguousIff(p);
    } else if ZerosByWrapping(p) {
      ZerosMisplaced(p, k);
    }
  }

  lemma ZerosMisplaced(p: Params, k: nat)
    requires ZerosByWrapping(p) && Ends(p, k)
    ensures !Fits(p) && Visited(p, k) != Run(p.start, p.size)
  {
    var c, t := p.size - p.start, 2 * p.start - p.size;
    StepWraps(p, t, c);
    StepSchedule(p, t, c);
    EndsOnce(p, k, 2);
    StepVisits(p, t, c);
    SteppedRunShows(p.start, p.size, c, c + t);
  }
}
