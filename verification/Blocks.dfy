/** Lengths counted in blocks of a fixed size: the blocks of a transfer, or the allocation units of a file. */
module Blocks {
  /** The number of blocks of blockSize that cover size. */
  function BlockCount(size: nat, blockSize: nat): nat
    requires blockSize > 0
  {
    if size == 0 then 0 else if size <= blockSize then 1 else 1 + BlockCount(size - blockSize, blockSize)
  }

  /** The positions that i whole blocks span. */
  function Span(i: nat, blockSize: nat): nat {
    if i == 0 then 0 else Span(i - 1, blockSize) + blockSize
  }

  lemma {:induction false} SpanIsProduct(i: nat, blockSize: nat)
    ensures Span(i, blockSize) == i * blockSize
  {
    if i > 0 {
      SpanIsProduct(i - 1, blockSize);
      assert i * blockSize == (i - 1) * blockSize + blockSize;
    }
  }

  lemma {:induction false} SpanFront(i: nat, blockSize: nat)
    ensures Span(i + 1, blockSize) == blockSize + Span(i, blockSize)
  {
    if i > 0 {
      SpanFront(i - 1, blockSize);
    }
  }

  lemma {:induction false} SpanMonotone(i: nat, j: nat, blockSize: nat)
    requires i <= j
    ensures Span(i, blockSize) <= Span(j, blockSize)
  {
    if i < j {
      SpanMonotone(i, j - 1, blockSize);
    }
  }

  lemma {:induction false} BlockCountBounds(size: nat, blockSize: nat)
    requires blockSize > 0
    ensures var n := BlockCount(size, blockSize);
      size <= Span(n, blockSize) && (size > 0 ==> n > 0 && Span(n - 1, blockSize) < size)
  {
    if size > blockSize {
      var n := BlockCount(size - blockSize, blockSize);
      BlockCountBounds(size - blockSize, blockSize);
      SpanFront(n, blockSize);
      SpanFront(n - 1, blockSize);
    }
  }

  lemma {:induction false} SpanAdds(a: nat, b: nat, blockSize: nat)
    ensures Span(a + b, blockSize) == Span(a, blockSize) + Span(b, blockSize)
  {
    if b > 0 {
      SpanAdds(a, b - 1, blockSize);
    }
  }

  lemma {:induction false} SpanGrows(k: nat, more: nat, blockSize: nat)
    requires blockSize > 0
    ensures Span(k + more, blockSize) >= Span(k, blockSize) + more
  {
    if more > 0 {
      SpanGrows(k, more - 1, blockSize);
    }
  }

  lemma CountUnique(size: nat, blockSize: nat, n: nat)
    requires blockSize > 0 && n > 0 && Span(n - 1, blockSize) < size <= Span(n, blockSize)
    ensures BlockCount(size, blockSize) == n
  {
    var m := BlockCount(size, blockSize);
    BlockCountBounds(size, blockSize);
    if m < n {
      SpanMonotone(m, n - 1, blockSize);
    } else if n < m {
      SpanMonotone(n, m - 1, blockSize);
    }
  }

  /** The whole blocks that end at or before a length. */
  function WholeBlocks(length: nat, blockSize: nat): nat
    requires blockSize > 0
  {
    if length < blockSize then 0 else 1 + WholeBlocks(length - blockSize, blockSize)
  }

  lemma {:induction false} WholeBlocksBounds(length: nat, blockSize: nat)
    requires blockSize > 0
    ensures var m := WholeBlocks(length, blockSize); Span(m, blockSize) <= length < Span(m, blockSize) + blockSize
  {
    if length >= blockSize {
      WholeBlocksBounds(length - blockSize, blockSize);
      SpanFront(WholeBlocks(length - blockSize, blockSize), blockSize);
    }
  }
}
