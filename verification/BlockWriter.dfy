/** `fill_block`: the fast form that writes whole words, with a head and a tail where the block is not aligned. */
module BlockWriter {
  import opened Words
  import opened Modular
  import opened Stamps

  method CopyBytes(block: array<byte>, at: nat, bytes: seq<byte>)
    requires at + |bytes| <= block.Length
    modifies block
    ensures block[..] == old(block[..at]) + bytes + old(block[at + |bytes|..])
  {
    forall k | 0 <= k < |bytes| {
      block[at + k] := bytes[k];
    }
  }

  /** `value_n`, the word value_h in network order, as it lies in memory. */
  method NetworkBytes(valueH: u32) returns (bytes: seq<byte>)
    ensures |bytes| == WORD && forall j: nat :: j < WORD ==> bytes[j] == ByteOf(valueH, j)
  {
    var valueN := Htonl(valueH);
    bytes := Stored(valueN);
    forall j: nat | j < WORD
      ensures bytes[j] == ByteOf(valueH, j)
    {
      HtonlStoresBigEndian(valueH, j);
    }
  }

  /** A part of those bytes is what belongs at the positions of that part. */
  lemma {:induction false} WordPart(bytes: seq<byte>, valueH: u32, from: nat, n: nat)
    requires |bytes| == WORD && valueH % WORD == 0 && from + n <= WORD
    requires forall j: nat :: j < WORD ==> bytes[j] == ByteOf(valueH, j)
    ensures bytes[from..from + n] == Stamped(valueH + from, n)
  {
    if n > 0 {
      var last := from + (n - 1);
      WordPart(bytes, valueH, from, n - 1);
      StampInWord(valueH, last);
      ModUnique(valueH + last, MODULUS, 0, valueH + last);
      assert bytes[from..from + n] == bytes[from..last] + [bytes[last]];
    }
  }

  lemma NextWord(start: u32, at: nat, valueH: u32, from: nat)
    requires valueH % WORD == 0 && from < WORD && Wrap(start + at) == valueH + from
    ensures Wrap(start + (at + (WORD - from))) == Wrap(valueH + WORD) && Wrap(valueH + WORD) % WORD == 0
  {
    WrapInner(start + at, WORD - from);
  }

  lemma Continued(start: u32, at: nat, next: u32, n: nat)
    requires Wrap(start + at) == next
    ensures Stamped(start, at + n) == Stamped(start, at) + Stamped(next, n)
  {
    StampedSplit(start, at, n);
    StampedWrapped(start + at, n);
  }

  /** Copies n bytes of the word value_h to the block, continuing the stamps already there. */
  method WritePart(block: array<byte>, at: nat, valueH: u32, from: nat, n: nat, ghost start: u32,
                   ghost before: seq<byte>)
      returns (end: nat)
    requires at + n <= block.Length == |before| && from < WORD && from + n <= WORD
    requires valueH % WORD == 0 && Wrap(start + at) == valueH + from
    requires block[..] == Stamped(start, at) + before[at..]
    modifies block
    ensures end == at + n && block[..] == Stamped(start, end) + before[end..]
  {
    var bytes := NetworkBytes(valueH);
    WordPart(bytes, valueH, from, n);
    Continued(start, at, valueH + from, n);
    CopyBytes(block, at, bytes[from..from + n]);
    end := at + n;
  }

  /** Writes the stamps of `size` positions from start on: a head up to the word boundary, whole words, a tail. */
  method FillBlock(block: array<byte>, size: nat, start: u32)
    requires size <= block.Length
    modifies block
    ensures block[..] == Stamped(start, size) + old(block[size..])
  {
    ghost var before := block[..];
    var startOffset := start % WORD;
    var valueH: u32 := start - startOffset;
    var at: nat, left: nat := 0, size;

    if startOffset != 0 {
      var toWrite := if WORD - startOffset < left then WORD - startOffset else left;
      NextWord(start, at, valueH, startOffset);
      at := WritePart(block, at, valueH, startOffset, toWrite, start, before);
      left := left - toWrite;
      valueH := Wrap(valueH + WORD);
    }

    while left >= WORD
      invariant at + left == size
      invariant block[..] == Stamped(start, at) + before[at..]
      invariant valueH % WORD == 0 && (left > 0 ==> valueH == Wrap(start + at))
    {
      NextWord(start, at, valueH, 0);
      at := WritePart(block, at, valueH, 0, WORD, start, before);
      valueH := Wrap(valueH + WORD);
      left := left - WORD;
    }

    if left > 0 {
      at := WritePart(block, at, valueH, 0, left, start, before);
    }
  }
}
