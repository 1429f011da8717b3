/**
  * The position stamp: the byte at a 32-bit position is taken from the big-endian encoding of the
  * position's word address, so that a block of data shows where it belongs.
  */
module Stamps {
  import opened Words
  import opened Modular

  type byte = x: int | 0 <= x < 256

  const WORD: nat := 4

  /** Byte j of the big-endian encoding of a word. */
  function ByteOf(w: u32, j: nat): byte {
    if j == 0 then w / 0x100_0000
    else if j == 1 then w / 0x1_0000 % 256
    else if j == 2 then w / 0x100 % 256
    else w % 256
  }

  /** The bytes of a word in the memory of the little-endian target. */
  function Stored(w: u32): (s: seq<byte>)
    ensures |s| == WORD
  {
    [ByteOf(w, 3), ByteOf(w, 2), ByteOf(w, 1), ByteOf(w, 0)]
  }

  function FromBytes(b0: byte, b1: byte, b2: byte, b3: byte): u32 {
    b0 as int * 0x100_0000 + b1 as int * 0x1_0000 + b2 as int * 0x100 + b3 as int
  }

  /** The byte swap that `htonl` is on this target. */
  function Htonl(w: u32): u32 {
    FromBytes(ByteOf(w, 3), ByteOf(w, 2), ByteOf(w, 1), ByteOf(w, 0))
  }

  lemma BytesOfFromBytes(b0: byte, b1: byte, b2: byte, b3: byte)
    ensures var w := FromBytes(b0, b1, b2, b3);
      ByteOf(w, 0) == b0 && ByteOf(w, 1) == b1 && ByteOf(w, 2) == b2 && ByteOf(w, 3) == b3
  {
    var w := FromBytes(b0, b1, b2, b3);
    var q2 := b0 as int * 0x100 + b1 as int;
    var q1 := q2 * 0x100 + b2 as int;
    ModUnique(w, 0x100, q1, b3);
    ModUnique(w, 0x1_0000, q2, b2 as int * 0x100 + b3 as int);
    ModUnique(w, 0x100_0000, b0, b1 as int * 0x1_0000 + b2 as int * 0x100 + b3 as int);
    ModUnique(q1, 0x100, q2, b2);
    ModUnique(q2, 0x100, b0, b1);
  }

  lemma FromBytesOf(w: u32)
    ensures FromBytes(ByteOf(w, 0), ByteOf(w, 1), ByteOf(w, 2), ByteOf(w, 3)) == w
  {
    var q1, q2, q3 := w / 0x100, w / 0x1_0000, w / 0x100_0000;
    assert w == q1 * 256 + ByteOf(w, 3) as int;
    assert q1 == q2 * 256 + ByteOf(w, 2) as int;
    assert q2 == q3 * 256 + ByteOf(w, 1) as int;
    assert q3 == ByteOf(w, 0) as int;
  }

  /** In memory, `htonl` of a word is its big-endian encoding. */
  lemma HtonlStoresBigEndian(w: u32, j: nat)
    requires j < WORD
    ensures Stored(Htonl(w))[j] == ByteOf(w, j)
  {
    BytesOfFromBytes(ByteOf(w, 3), ByteOf(w, 2), ByteOf(w, 1), ByteOf(w, 0));
  }

  /** The specification: what belongs at a position. */
  function StampByte(p: u32): byte {
    ByteOf(p - p % WORD, p % WORD)
  }

  /** n positions from start on, wrapping. */
  function Run(start: int, n: nat): (s: seq<u32>)
    ensures |s| == n
  {
    if n == 0 then [] else Run(start, n - 1) + [Wrap(start + (n - 1))]
  }

  lemma {:induction false} RunAt(start: int, n: nat, k: nat)
    requires k < n
    ensures Run(start, n)[k] == Wrap(start + k)
  {
    if k < n - 1 {
      RunAt(start, n - 1, k);
    }
  }

  lemma {:induction false} RunSplit(start: int, n: nat, m: nat)
    ensures Run(start, n + m) == Run(start, n) + Run(start + n, m)
  {
    if m > 0 {
      RunSplit(start, n, m - 1);
      var last: u32 := Wrap(start + n + (m - 1));
      assert Run(start, n + m) == Run(start, n + (m - 1)) + [last];
    }
  }

  function StampsOf(positions: seq<u32>): (s: seq<byte>)
    ensures |s| == |positions|
  {
    if positions == [] then []
    else StampsOf(positions[..|positions| - 1]) + [StampByte(positions[|positions| - 1])]
  }

  lemma {:induction false} StampsOfSplit(a: seq<u32>, b: seq<u32>)
    ensures StampsOf(a + b) == StampsOf(a) + StampsOf(b)
  {
    if b == [] {
      assert a + b == a;
    } else {
      var last := |b| - 1;
      assert (a + b)[..|a + b| - 1] == a + b[..last];
      StampsOfSplit(a, b[..last]);
    }
  }

  /** The stamps of n positions from start on. */
  function Stamped(start: int, n: nat): (s: seq<byte>)
    ensures |s| == n
  {
    if n == 0 then [] else Stamped(start, n - 1) + [StampByte(Wrap(start + (n - 1)))]
  }

  lemma {:induction false} StampedAt(start: int, n: nat, k: nat)
    requires k < n
    ensures Stamped(start, n)[k] == StampByte(Wrap(start + k))
  {
    if k < n - 1 {
      StampedAt(start, n - 1, k);
    }
  }

  lemma {:induction false} StampsOfRun(start: int, n: nat)
    ensures StampsOf(Run(start, n)) == Stamped(start, n)
  {
    if n > 0 {
      StampsOfRun(start, n - 1);
      assert Run(start, n)[..n - 1] == Run(start, n - 1);
    }
  }

  /** A run of stamps can be cut anywhere, aligned or not... */
  lemma {:induction false} StampedSplit(start: int, n: nat, m: nat)
    ensures Stamped(start, n + m) == Stamped(start, n) + Stamped(start + n, m)
  {
    if m > 0 {
      StampedSplit(start, n, m - 1);
      assert start + (n + m - 1) == start + n + (m - 1);
    }
  }

  /** ... and where the position wraps, it goes on from 0. */
  lemma {:induction false} StampedWrapped(start: int, n: nat)
    ensures Stamped(Wrap(start), n) == Stamped(start, n)
  {
    if n > 0 {
      StampedWrapped(start, n - 1);
      WrapInner(start, n - 1);
    }
  }

  /** Within a word the stamps are bytes of that one word. */
  lemma StampInWord(w: u32, j: nat)
    requires w % WORD == 0 && j < WORD
    ensures w + j < MODULUS && StampByte(w + j) == ByteOf(w, j)
  {
    assert w <= MODULUS - WORD;
    assert (w + j) % WORD == j;
  }
}
