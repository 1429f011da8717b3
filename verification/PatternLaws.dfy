/** What filling and checking promise each other, and what the checker's output says about the file. */
module PatternLaws {
  import opened Blocks
  import opened Words
  import opened Stamps
  import opened StampIdentity
  import opened Schedule
  import opened Contiguity
  import opened BlockSizes
  import opened ErrorReport
  import opened PatternFiles

  // ---------- Round trip ----------

  /** The data begins with the first k blocks. */
  ghost predicate Holds(data: seq<byte>, p: Params, k: nat) {
    Content(p, k) <= data
  }

  lemma HoldsNext(data: seq<byte>, p: Params, k: nat)
    requires |Content(p, k + 1)| <= |data|
    ensures Holds(data, p, k + 1) <==> Holds(data, p, k) && Got(data, p, k) == Expected(p, k)
  {
    var before, block := Content(p, k), Expected(p, k);
    assert Content(p, k + 1) == before + block;
    if Holds(data, p, k + 1) {
      assert data[..|before + block|] == before + block;
    }
  }

  lemma {:induction false} BadBlockAt(data: seq<byte>, p: Params, k: nat, i: nat)
    requires i < k && |Content(p, k)| <= |data|
    ensures |Content(p, i + 1)| <= |data| && BadBlocks(data, p, k)[i] == (Got(data, p, i) != Expected(p, i))
  {
    ContentPrefix(p, i + 1, k);
    if i < k - 1 {
      ContentPrefix(p, k - 1, k);
      BadBlockAt(data, p, k - 1, i);
    }
  }

  predicate NoneBad(bads: seq<bool>) {
    forall i :: 0 <= i < |bads| ==> !bads[i]
  }

  lemma NextBad(bads: seq<bool>, b: bool)
    ensures NoneBad(bads + [b]) <==> NoneBad(bads) && !b
  {
    var all := bads + [b];
    assert all[|bads|] == b;
    assert forall i :: 0 <= i < |bads| ==> all[i] == bads[i];
  }

  lemma {:induction false} NothingPrintedIff(p: Params, bads: seq<bool>)
    ensures Printed(p, bads) == [] <==> NoneBad(bads)
    ensures NoneBad(bads) ==> !LastBad(bads)
  {
    if bads != [] {
      var n := |bads| - 1;
      NothingPrintedIff(p, bads[..n]);
      NextBad(bads[..n], bads[n]);
      assert bads == bads[..n] + [bads[n]];
    }
  }

  /** The first k blocks of the data are good exactly if none is bad. */
  lemma {:induction false} NoBadBlocksIff(data: seq<byte>, p: Params, k: nat)
    requires |Content(p, k)| <= |data|
    ensures Holds(data, p, k) <==> NoneBad(BadBlocks(data, p, k))
  {
    if k > 0 {
      HoldsNext(data, p, k - 1);
      NoBadBlocksIff(data, p, k - 1);
      NextBad(BadBlocks(data, p, k - 1), Got(data, p, k - 1) != Expected(p, k - 1));
    }
  }

  lemma {:induction false} NothingReportedIff(data: seq<byte>, p: Params, k: nat)
    requires |Content(p, k)| <= |data|
    ensures Holds(data, p, k) <==> Reports(data, p, k) == []
  {
    if k > 0 {
      HoldsNext(data, p, k - 1);
      NothingReportedIff(data, p, k - 1);
    }
  }

  /** In either form of output, nothing is said exactly if the data begins with the blocks. */
  lemma NothingLoggedIff(data: seq<byte>, p: Params, k: nat, output: Output, log: Log)
    requires Logged(data, p, k, output, log.printed, log.reports)
    ensures Clean(log) <==> Holds(data, p, k)
  {
    NoBadBlocksIff(data, p, k);
    NothingPrintedIff(p, BadBlocks(data, p, k));
    NothingReportedIff(data, p, k);
  }

  /** Nothing has been said. */
  predicate Clean(log: Log) {
    log.printed == [] && log.reports == []
  }

  lemma HoldsPrefix(data: seq<byte>, p: Params, i: nat, k: nat)
    requires Holds(data, p, k) && i <= k
    ensures Holds(data, p, i)
  {
    ContentPrefix(p, i, k);
  }

  /** Turns before the end of the loop: no run can have come further. */
  lemma NotBeyond(p: Params, k: nat, i: nat)
    requires !More(p, k) && RanFor(p, i)
    ensures i <= k
  {
    assert k < i ==> More(p, k);
  }

  /**
    * Checking a file: where the loop ends after `whole` blocks, we watch that long and no read fails, the
    * check is complete and says nothing exactly if the file begins with those blocks.
    */
  method CheckFile(file: DataFile, p: Params, output: Output, horizon: nat, ghost whole: nat)
      returns (checked: End, log: Log)
    requires file.Valid() && file.position == 0
    requires output.Long? ==> output.maxErrors >= 1
    modifies file`position
    ensures Ends(p, whole) && whole <= horizon && !file.faults ==>
      (checked == Completed && Clean(log) <==> Holds(file.data, p, whole))
    ensures Ends(p, whole) && whole <= horizon && Holds(file.data, p, whole) ==>
      Clean(log) && (checked == Completed || (checked == TransferFailed && file.faults))
  {
    var read;
    checked, read, log := PatternCheck(file, p, output, horizon);
    if Ends(p, whole) && whole <= horizon {
      NotBeyond(p, whole, read);
      NothingLoggedIff(file.data, p, read, output, log);
      if Holds(file.data, p, whole) {
        GoodFileChecked(file.data, p, read, whole);
      }
    }
  }

  lemma GoodFileChecked(data: seq<byte>, p: Params, read: nat, whole: nat)
    requires Holds(data, p, whole) && read <= whole
    ensures Holds(data, p, read)
    ensures !LastBad(BadBlocks(data, p, read)) && Reports(data, p, read) == []
    ensures read < whole ==> |Content(p, read + 1)| <= |data|
  {
    HoldsPrefix(data, p, read, whole);
    NoBadBlocksIff(data, p, read);
    NothingReportedIff(data, p, read);
    if read < whole {
      HoldsPrefix(data, p, read + 1, whole);
    }
  }

  /** A fill of n blocks that fit the file is complete unless a write fails. */
  lemma FillIsComplete(p: Params, end: End, blocks: nat, horizon: nat, capacity: nat, n: nat)
    requires RanFor(p, blocks) && end != TooManyErrors
    requires end == Completed <==> !More(p, blocks)
    requires end == StillRunning ==> blocks == horizon
    requires end == TransferFailed ==> |Content(p, blocks + 1)| > capacity
    requires Ends(p, n) && n <= horizon && |Content(p, n)| <= capacity
    ensures end == Completed && blocks == n
  {
    NotBeyond(p, n, blocks);
    if blocks < n {
      assert More(p, blocks);
      ContentPrefix(p, blocks + 1, n);
    }
  }

  /** With no faults, a fill of n blocks that fit writes them all. */
  ghost predicate Fillable(file: DataFile, p: Params, horizon: nat, n: nat)
    reads file
  {
    !file.faults && Ends(p, n) && n <= horizon && |Content(p, n)| <= file.capacity
  }

  /**
    * A complete fill and then a check with the same parameters: nothing is reported and, unless a read
    * fails, the check is complete as well. Nothing is asked of the parameters: it holds where positions
    * wrap, and where the blocks do not follow each other. Both are complete if the loop runs n times, we
    * watch that long, the file can hold the blocks and nothing fails.
    */
  method FillThenCheck(file: DataFile, p: Params, output: Output, horizon: nat, ghost n: nat)
      returns (filled: End, checked: End, log: Log)
    requires file.Valid() && file.position == 0
    requires output.Long? ==> output.maxErrors >= 1
    modifies file
    ensures filled == Completed ==> Clean(log) && (checked == Completed || (checked == TransferFailed && file.faults))
    ensures old(Fillable(file, p, horizon, n)) ==> filled == Completed && checked == Completed
  {
    var blocks;
    ghost var part;
    ghost var fillable := Fillable(file, p, horizon, n);
    filled, blocks, part := PatternFill(file, p, horizon);
    if fillable {
      FillIsComplete(p, filled, blocks, horizon, file.capacity, n);
    }
    file.Reopen();
    checked, log := CheckFile(file, p, output, horizon, blocks);
  }

  // ---------- Block sizes ----------

  lemma EndsAt(p: Params)
    requires Fits(p)
    ensures Ends(p, BlockCount(p.size, p.blockSize))
  {
    if p.size == 0 {
      NeverStarts(p);
    } else {
      EndsAfterBlockCountIff(p);
    }
  }

  /** The same positions are asked for, and no sum of the loops wraps. */
  predicate SameTask(p: Params, q: Params) {
    Fits(p) && Fits(q) && p.start == q.start && p.size == q.size
  }

  /**
    * What p wrote over the original data begins with what q expects: q expects the beginning of it, or it
    * expects more, and the original data happens to have that.
    */
  predicate AgreeOver(original: seq<byte>, p: Params, q: Params)
    requires SameTask(p, q)
  {
    var l, m := FullLength(p), FullLength(q);
    if m <= l then Begins(q, p)
    else Begins(p, q) && m <= |original| && EndOf(q, l) == original[l..m]
  }

  function EndOf(q: Params, l: nat): seq<byte>
    requires Fits(q) && l <= FullLength(q)
  {
    FullLengthIs(q);
    FullContent(q)[l..]
  }

  lemma OverwrittenBegins(original: seq<byte>, a: seq<byte>, c: seq<byte>)
    ensures c <= Overwrite(original, 0, a)
      <==> if |c| <= |a| then c <= a else a <= c && |c| <= |original| && c[|a|..] == original[|a|..|c|]
  {
    var data := Overwrite(original, 0, a);
    assert a <= data;
    if |c| <= |a| {
      assert data[..|c|] == a[..|c|];
    } else if |c| <= |data| {
      assert data[..|c|] == a + original[|a|..|c|];
      assert a <= c ==> c == a + c[|a|..];
    }
  }

  /** The exact condition, computed from the parameters, under which q finds its blocks after a fill with p. */
  lemma HoldsAfterFillIff(original: seq<byte>, p: Params, q: Params)
    requires SameTask(p, q)
    ensures Holds(Overwrite(original, 0, FullContent(p)), q, BlockCount(q.size, q.blockSize))
      <==> AgreeOver(original, p, q)
  {
    FullLengthIs(p);
    FullLengthIs(q);
    OverwrittenBegins(original, FullContent(p), FullContent(q));
    BeginsIff(q, p);
    BeginsIff(p, q);
  }

  /** In order, above all from start 0, every block size writes the same. */
  lemma AgreeInOrder(original: seq<byte>, p: Params, q: Params)
    requires SameTask(p, q) && InOrder(p) && InOrder(q)
    ensures AgreeOver(original, p, q) && FullContent(p) == Stamped(p.start, p.size)
  {
    if p.size > 0 {
      WholeMultiple(p);
      WholeMultiple(q);
    }
    FullUnbroken(p);
  }

  /**
    * Filling with p and checking with q, for all parameters: a fill of n blocks that fit and do not fail is
    * complete, and after it a check of `whole` blocks is complete and says nothing exactly if the file then
    * begins with the blocks of q.
    */
  method FillThenCheckWith(file: DataFile, p: Params, q: Params, output: Output, horizon: nat,
                           ghost n: nat, ghost whole: nat)
      returns (filled: End, checked: End, log: Log)
    requires file.Valid() && file.position == 0
    requires output.Long? ==> output.maxErrors >= 1
    modifies file
    ensures old(Fillable(file, p, horizon, n)) ==> filled == Completed
    ensures filled == Completed && Ends(p, n) ==> file.data == Overwrite(old(file.data), 0, Content(p, n))
    ensures filled == Completed && Ends(q, whole) && whole <= horizon && !file.faults ==>
      (checked == Completed && Clean(log) <==> Holds(file.data, q, whole))
    ensures filled == Completed && Ends(q, whole) && whole <= horizon && Holds(file.data, q, whole) ==>
      Clean(log) && (checked == Completed || (checked == TransferFailed && file.faults))
  {
    var blocks;
    ghost var part;
    ghost var fillable := Fillable(file, p, horizon, n);
    filled, blocks, part := PatternFill(file, p, horizon);
    if fillable {
      FillIsComplete(p, filled, blocks, horizon, file.capacity, n);
    }
    if filled == Completed && Ends(p, n) {
      EndsOnce(p, blocks, n);
    }
    file.Reopen();
    checked, log := CheckFile(file, q, output, horizon, whole);
  }

  /**
    * Block size independence: with the same start and size, a fill with one block size that fits the file and
    * a check with another one succeed on a file without faults exactly under AgreeOver, and under InOrder
    * the file then has the intended pattern at its beginning and is otherwise as before.
    */
  method FillThenCheckOtherBlockSize(file: DataFile, p: Params, q: Params, output: Output, horizon: nat)
      returns (filled: End, checked: End, log: Log)
    requires file.Valid() && file.position == 0
    requires output.Long? ==> output.maxErrors >= 1
    requires SameTask(p, q)
    requires BlockCount(p.size, p.blockSize) <= horizon && BlockCount(q.size, q.blockSize) <= horizon
    modifies file
    ensures !file.faults && FullLength(p) <= file.capacity ==> filled == Completed
    ensures filled == Completed && !file.faults ==>
      (checked == Completed && Clean(log) <==> AgreeOver(old(file.data), p, q))
    ensures filled == Completed && InOrder(p) && InOrder(q) ==>
      && file.data == Overwrite(old(file.data), 0, Stamped(p.start, p.size))
      && Clean(log) && (checked == Completed || (checked == TransferFailed && file.faults))
  {
    ghost var n, whole := BlockCount(p.size, p.blockSize), BlockCount(q.size, q.blockSize);
    EndsAt(p);
    EndsAt(q);
    FullLengthIs(p);
    HoldsAfterFillIff(file.data, p, q);
    if InOrder(p) && InOrder(q) {
      AgreeInOrder(file.data, p, q);
    }
    filled, checked, log := FillThenCheckWith(file, p, q, output, horizon, n, whole);
  }

  // ---------- What the checker sees and says ----------

  /** A block of seven bytes or more that belongs elsewhere is always seen. */
  lemma MisplacedBlockIsSeen(data: seq<byte>, p: Params, i: nat, elsewhere: u32)
    requires |Content(p, i + 1)| <= |data| && Length(p, Current(p, i)) >= 7
    requires Got(data, p, i) == Stamped(elsewhere, Length(p, Current(p, i)))
    ensures Got(data, p, i) == Expected(p, i) <==> elsewhere == Current(p, i)
  {
    if Got(data, p, i) == Expected(p, i) {
      StampsDiffer(elsewhere, Current(p, i), Length(p, Current(p, i)));
    }
  }

  lemma {:induction false} BadBlocksTake(data: seq<byte>, p: Params, k: nat, n: nat)
    requires k <= n && |Content(p, n)| <= |data|
    ensures |Content(p, k)| <= |data| && BadBlocks(data, p, n)[..k] == BadBlocks(data, p, k)
  {
    ContentPrefix(p, k, n);
    if k < n {
      ContentPrefix(p, n - 1, n);
      BadBlocksTake(data, p, k, n - 1);
      BadBlocksPrefix(data, p, n);
      assert BadBlocks(data, p, n)[..n - 1][..k] == BadBlocks(data, p, n)[..k];
    }
  }

  /**
    * From the lines of the short output one can read off which of the compared blocks differ, as long as
    * they are no more than the period; by LosslessIff there is no way to tell beyond it.
    */
  lemma ShortOutputTellsAll(data: seq<byte>, p: Params, k: nat, log: Log, i: nat)
    requires Records(data, p, k, Short, log) && i < k <= Period(p)
    ensures |Content(p, i + 1)| <= |data|
    ensures ReadStatus(p, log.printed, i) == (Got(data, p, i) != Expected(p, i))
  {
    DistinctIff(p, k);
    ShortOutputIsLossless(p, BadBlocks(data, p, k), i);
    BadBlockAt(data, p, k, i);
  }

  /** That covers every check of a loop that ends. */
  lemma ShortOutputTellsAllOfEnding(data: seq<byte>, p: Params, k: nat, end: nat, log: Log, i: nat)
    requires Records(data, p, k, Short, log) && Ends(p, end) && i < k <= end
    ensures |Content(p, i + 1)| <= |data|
    ensures ReadStatus(p, log.printed, i) == (Got(data, p, i) != Expected(p, i))
  {
    EndingRunWithinPeriod(p, k, end);
    ShortOutputTellsAll(data, p, k, log, i);
  }

  /** How many differing blocks the long output reports, when there are so many. */
  function Reportable(maxErrors: nat, count: nat): nat {
    if maxErrors < count then maxErrors else count
  }

  /**
    * The long output of a check that has not failed to read, on a file of n blocks: the first differing
    * blocks, in order, as many as there are up to the limit, each with its position, pattern and data. A
    * check that stops early stops at the last block it may report.
    */
  lemma LongOutputTellsFirst(data: seq<byte>, p: Params, k: nat, n: nat, output: Output, log: Log)
    requires output.Long? && output.maxErrors >= 1 && k <= n && |Content(p, n)| <= |data|
    requires LimitReached(data, p, k, output, log) || (k == n && Records(data, p, n, output, log))
    ensures var bad := BadIndices(BadBlocks(data, p, n));
      && ReportsMatch(data, p, log.reports, bad[..Reportable(output.maxErrors, |bad|)])
      && (LimitReached(data, p, k, output, log) ==> output.maxErrors <= |bad| && bad[output.maxErrors - 1] == k - 1)
  {
    var all := BadBlocks(data, p, n);
    BadBlocksTake(data, p, k, n);
    ReportsAre(data, p, k);
    LongOutputIsFirst(all, k, output.maxErrors);
    if LimitReached(data, p, k, output, log) {
      LastBadIndex(BadBlocks(data, p, k));
      BadIndicesPrefix(all, k);
    }
  }

  lemma LastBadIndex(bads: seq<bool>)
    requires LastBad(bads)
    ensures var s := BadIndices(bads); |s| > 0 && s[|s| - 1] == |bads| - 1
  {
  }
}
