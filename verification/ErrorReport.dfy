/**
  * What the checker prints about the blocks it compared. `bads` says of each block, in order, whether it
  * differed from the expected pattern.
  */
module ErrorReport {
  import opened Words
  import opened Modular
  import opened Schedule

  /** A line of the short output: ERR or OK, and the position of the block. */
  datatype Entry = Entry(isError: bool, at: u32)

  predicate LastBad(bads: seq<bool>) {
    |bads| > 0 && bads[|bads| - 1]
  }

  /** The short output: a line where the status changes, with no error before the first block. */
  function Printed(p: Params, bads: seq<bool>): seq<Entry> {
    if bads == [] then []
    else
      var n := |bads| - 1;
      Printed(p, bads[..n])
      + if bads[n] != LastBad(bads[..n]) then [Entry(bads[n], Current(p, n))] else []
  }

  /** How a reader of the short output gets the status of block i. */
  predicate ReadStatus(p: Params, printed: seq<Entry>, i: nat) {
    if Entry(true, Current(p, i)) in printed then true
    else if Entry(false, Current(p, i)) in printed then false
    else i > 0 && ReadStatus(p, printed, i - 1)
  }

  /** No two of the first k blocks start at the same position. */
  ghost predicate Distinct(p: Params, k: nat) {
    forall i: nat, j: nat :: i < j < k ==> Current(p, i) != Current(p, j)
  }

  lemma {:induction false} SameFromThenOn(p: Params, i: nat, j: nat, t: nat)
    requires Current(p, i) == Current(p, j)
    ensures Current(p, i + t) == Current(p, j + t)
  {
    if t > 0 {
      SameFromThenOn(p, i, j, t - 1);
    }
  }

  /** In a run that comes to an end no position is met twice, even if positions wrap. */
  lemma EndingRunIsDistinct(p: Params, k: nat, end: nat)
    requires Ends(p, end) && k <= end
    ensures Distinct(p, k)
  {
    forall i: nat, j: nat | i < j < k
      ensures Current(p, i) != Current(p, j)
    {
      assert More(p, i + (end - j));
      if Current(p, i) == Current(p, j) {
        SameFromThenOn(p, i, j, end - j);
      }
    }
  }

  /** Exactly as many blocks as the period has start at different positions, whether the loop ends or not. */
  lemma DistinctIff(p: Params, k: nat)
    ensures Distinct(p, k) <==> k <= Period(p)
  {
    if k <= Period(p) {
      forall i: nat, j: nat | i < j < k
        ensures Current(p, i) != Current(p, j)
      {
        SameCurrentIff(p, i, j);
        ModUnique(j - i, Period(p), 0, j - i);
      }
    } else {
      SameCurrentIff(p, 0, Period(p));
      ModUnique(Period(p), Period(p), 1, 0);
      assert Current(p, 0) == Current(p, Period(p));
    }
  }

  /** A run that comes to an end has no more blocks than that. */
  lemma EndingRunWithinPeriod(p: Params, k: nat, end: nat)
    requires Ends(p, end) && k <= end
    ensures k <= Period(p)
  {
    EndingRunIsDistinct(p, k, end);
    DistinctIff(p, k);
  }

  /** A line is printed for exactly the blocks whose status differs from the one before. */
  lemma {:induction false} PrintedIff(p: Params, bads: seq<bool>, i: nat, b: bool)
    requires i < |bads| && Distinct(p, |bads|)
    ensures Entry(b, Current(p, i)) in Printed(p, bads) <==> bads[i] == b && b != (i > 0 && bads[i - 1])
  {
    var n := |bads| - 1;
    if i < n {
      PrintedIff(p, bads[..n], i, b);
    } else {
      NotYetPrinted(p, bads[..n], i, b);
    }
  }

  lemma {:induction false} NotYetPrinted(p: Params, bads: seq<bool>, i: nat, b: bool)
    requires |bads| <= i && Distinct(p, i + 1)
    ensures Entry(b, Current(p, i)) !in Printed(p, bads)
  {
    if bads != [] {
      NotYetPrinted(p, bads[..|bads| - 1], i, b);
    }
  }

  /** The short output loses nothing: it gives back the status of every block compared. */
  lemma {:induction false} ShortOutputIsLossless(p: Params, bads: seq<bool>, i: nat)
    requires i < |bads| && Distinct(p, |bads|)
    ensures ReadStatus(p, Printed(p, bads), i) == bads[i]
  {
    PrintedIff(p, bads, i, true);
    PrintedIff(p, bads, i, false);
    if i > 0 {
      ShortOutputIsLossless(p, bads, i - 1);
    }
  }

  /** The printed lines tell the statuses of k blocks apart, whatever they are. */
  ghost predicate Lossless(p: Params, k: nat) {
    forall a: seq<bool>, b: seq<bool> :: |a| == k && |b| == k && Printed(p, a) == Printed(p, b) ==> a == b
  }

  /** z good blocks, and bad ones from there on. */
  function BadFrom(z: nat, k: nat): (bads: seq<bool>)
    ensures |bads| == k
  {
    if k == 0 then [] else BadFrom(z, k - 1) + [z <= k - 1]
  }

  lemma {:induction false} BadFromAt(z: nat, k: nat, i: nat)
    requires i < k
    ensures BadFrom(z, k)[i] == (z <= i)
  {
    if i < k - 1 {
      BadFromAt(z, k - 1, i);
    }
  }

  /** That is one line, with the position of the first bad block. */
  lemma {:induction false} BadFromPrinted(p: Params, z: nat, k: nat)
    ensures Printed(p, BadFrom(z, k)) == if k <= z then [] else [Entry(true, Current(p, z))]
  {
    if k > 0 {
      BadFromPrinted(p, z, k - 1);
      PrintedNext(p, BadFrom(z, k - 1), z <= k - 1);
      if k > 1 {
        BadFromAt(z, k - 1, k - 2);
      }
    }
  }

  lemma PrintedNext(p: Params, bads: seq<bool>, b: bool)
    ensures Printed(p, bads + [b])
         == Printed(p, bads) + if b != LastBad(bads) then [Entry(b, Current(p, |bads|))] else []
  {
    assert (bads + [b])[..|bads|] == bads;
  }

  /** Beyond the period, only the blocks from the second round on being bad looks like all of them being bad. */
  lemma SecondRoundLooksLikeFirst(p: Params, k: nat)
    requires k > Period(p)
    ensures BadFrom(Period(p), k) != BadFrom(0, k)
    ensures Printed(p, BadFrom(Period(p), k)) == Printed(p, BadFrom(0, k)) == [Entry(true, p.start)]
  {
    var n := Period(p);
    BadFromPrinted(p, n, k);
    BadFromPrinted(p, 0, k);
    SameCurrentIff(p, 0, n);
    ModUnique(n, n, 1, 0);
    BadFromAt(n, k, 0);
    BadFromAt(0, k, 0);
  }

  lemma LosslessWithinPeriod(p: Params, a: seq<bool>, b: seq<bool>)
    requires |a| == |b| <= Period(p) && Printed(p, a) == Printed(p, b)
    ensures a == b
  {
    DistinctIff(p, |a|);
    forall i | 0 <= i < |a|
      ensures a[i] == b[i]
    {
      ShortOutputIsLossless(p, a, i);
      ShortOutputIsLossless(p, b, i);
    }
  }

  /** The exact number of blocks up to which the short output tells the status of every one of them. */
  lemma LosslessIff(p: Params, k: nat)
    ensures Lossless(p, k) <==> k <= Period(p)
  {
    if k <= Period(p) {
      forall a: seq<bool>, b: seq<bool> | |a| == k && |b| == k && Printed(p, a) == Printed(p, b)
        ensures a == b
      {
        LosslessWithinPeriod(p, a, b);
      }
    } else {
      SecondRoundLooksLikeFirst(p, k);
    }
  }

  /** Start 0, size 2^32-1, block size 512: after 2^23 blocks the positions come again, and the loop goes on. */
  lemma ShortOutputLoses()
    ensures var p, k := Params(0, 0xFFFF_FFFF, 512), 0x80_0000;
      && Period(p) == k && (forall i: nat :: More(p, i))
      && BadFrom(k, k + 1) != BadFrom(0, k + 1)
      && Printed(p, BadFrom(k, k + 1)) == Printed(p, BadFrom(0, k + 1)) == [Entry(true, 0)]
  {
    var p := Params(0, 0xFFFF_FFFF, 512);
    StrideOf512(p);
    SecondRoundLooksLikeFirst(p, Period(p) + 1);
    forall i: nat
      ensures More(p, i)
    {
      WrapsForever(i);
    }
  }

  lemma StrideOf512(p: Params)
    requires p.blockSize == 512
    ensures Stride(p) == 512 && Period(p) == 0x80_0000
  {
    StrideIsGreatest(p, 512);
    RemainderAtMost(512, Stride(p));
    if Stride(p) > 512 {
      ModUnique(512, Stride(p), 0, 512);
    }
  }

  /** ERR and OK alternate, beginning with ERR; the last line tells the status of the last block. */
  lemma {:induction false} ShortOutputAlternates(p: Params, bads: seq<bool>)
    ensures var s := Printed(p, bads);
      && (|s| > 0 ==> s[0].isError)
      && (forall k :: 0 < k < |s| ==> s[k].isError != s[k - 1].isError)
      && LastBad(bads) == (|s| > 0 && s[|s| - 1].isError)
  {
    if bads != [] {
      ShortOutputAlternates(p, bads[..|bads| - 1]);
    }
  }

  // ---------- The long output ----------

  /** The numbers of the differing blocks, in order. */
  function BadIndices(bads: seq<bool>): seq<nat> {
    if bads == [] then []
    else
      var n := |bads| - 1;
      BadIndices(bads[..n]) + if bads[n] then [n] else []
  }

  lemma {:induction false} BadIndicesAre(bads: seq<bool>)
    ensures var s := BadIndices(bads);
      && (forall k :: 0 <= k < |s| ==> s[k] < |bads| && bads[s[k]])
      && (forall i :: 0 <= i < |bads| && bads[i] ==> i in s)
      && (forall k, l :: 0 <= k < l < |s| ==> s[k] < s[l])
  {
    if bads != [] {
      BadIndicesAre(bads[..|bads| - 1]);
    }
  }

  lemma {:induction false} BadIndicesPrefix(all: seq<bool>, k: nat)
    requires k <= |all|
    ensures BadIndices(all[..k]) <= BadIndices(all)
  {
    if k == |all| {
      assert all[..k] == all;
    } else {
      var n := |all| - 1;
      assert all[..n][..k] == all[..k];
      BadIndicesPrefix(all[..n], k);
    }
  }

  /**
    * The long output after k of all blocks, where an early end means that the limit is reached: as many
    * differing blocks as there are, but no more than the limit, and the first ones. If the last block
    * compared differs, it is the last one the limit allows.
    */
  lemma LongOutputIsFirst(all: seq<bool>, k: nat, maxErrors: nat)
    requires k <= |all| && |BadIndices(all[..k])| <= maxErrors
    requires k < |all| ==> |BadIndices(all[..k])| == maxErrors
    ensures var bad := BadIndices(all);
      && BadIndices(all[..k]) == bad[..if maxErrors < |bad| then maxErrors else |bad|]
      && (k < |all| && LastBad(all[..k]) ==> 0 < maxErrors <= |bad| && bad[maxErrors - 1] == k - 1)
  {
    BadIndicesPrefix(all, k);
    if k == |all| {
      assert all[..k] == all;
    } else if LastBad(all[..k]) {
      assert all[..k][..k - 1] == all[..k - 1];
    }
  }
}
