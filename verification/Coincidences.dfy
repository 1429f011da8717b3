/**
  * Which coincidences there are: the sizes at which a schedule with a gap nevertheless writes the intended
  * bytes.
  */
module Coincidences {
  import opened Blocks
  import opened Words
  import opened Modular
  import opened Stamps
  import opened StampIdentity
  import opened Schedule
  import opened Contiguity

  // ---------- The bytes of a word and the next ----------

  lemma AddCarry(q: nat)
    ensures (q + 1) / 256 == if q % 256 == 255 then q / 256 + 1 else q / 256
    ensures (q + 1) % 256 == if q % 256 == 255 then 0 else q % 256 + 1
  {
    var c := q % 256 == 255;
    ModUnique(q + 1, 256, if c then q / 256 + 1 else q / 256, if c then 0 else q % 256 + 1);
  }

  lemma BytesAreRemainders(w: u32)
    ensures ByteOf(w, 3) == w % 256 && ByteOf(w, 2) == w / 256 % 256
    ensures ByteOf(w, 1) == w / 256 / 256 % 256 && ByteOf(w, 0) == w / 256 / 256 / 256
  {
  }

  lemma QuotientOfNext(w: nat)
    requires w % WORD == 0
    ensures w % 256 <= 252 && (w + WORD) % 256 == (w % 256 + 4) % 256
    ensures (w + WORD) / 256 == if w % 256 == 252 then w / 256 + 1 else w / 256
  {
    ModOfMultiple(w, WORD, 64, 256);
    var r := w % 256;
    ModUnique(w + WORD, 256, if r == 252 then w / 256 + 1 else w / 256, if r == 252 then 0 else r + WORD);
  }

  /** The bytes of a word b and of the next word c: the sum with 4 carries where the bytes are at their largest. */
  predicate CarryRule(b0: byte, b1: byte, b2: byte, b3: byte, c0: byte, c1: byte, c2: byte, c3: byte) {
    && b3 <= 252 && c3 == (b3 + 4) % 256
    && c2 == (if b3 == 252 then (b2 + 1) % 256 else b2)
    && c1 == (if b3 == 252 && b2 == 255 then (b1 + 1) % 256 else b1)
    && c0 == (if b3 == 252 && b2 == 255 && b1 == 255 then (b0 + 1) % 256 else b0)
  }

  ghost predicate Carries(w: u32, w': u32) {
    CarryRule(ByteOf(w, 0), ByteOf(w, 1), ByteOf(w, 2), ByteOf(w, 3),
              ByteOf(w', 0), ByteOf(w', 1), ByteOf(w', 2), ByteOf(w', 3))
  }

  lemma NextCarries(w: u32)
    requires w % WORD == 0 && w + WORD < MODULUS
    ensures Carries(w, w + WORD)
  {
    BytesAreRemainders(w);
    BytesAreRemainders(w + WORD);
    NextQuotients(w, w + WORD, w / 256, w / 256 / 256);
    FirstByteNext(w);
  }

  /** The quotients by powers of 256 from a word to the next. */
  lemma NextQuotients(w: nat, w': nat, q: nat, q2: nat)
    requires w % WORD == 0 && w' == w + WORD && q == w / 256 && q2 == q / 256
    ensures w % 256 <= 252 && w' % 256 == (w % 256 + 4) % 256
    ensures w' / 256 % 256 == if w % 256 == 252 then (q % 256 + 1) % 256 else q % 256
    ensures w' / 256 / 256 == if w % 256 == 252 && q % 256 == 255 then q2 + 1 else q2
    ensures (q2 + 1) % 256 == (q2 % 256 + 1) % 256
    ensures (q2 + 1) / 256 == if q2 % 256 == 255 then q2 / 256 + 1 else q2 / 256
  {
    QuotientOfNext(w);
    AddCarry(q);
    AddCarry(q2);
  }

  lemma FirstByteNext(w: u32)
    requires w % WORD == 0 && w + WORD < MODULUS
    ensures ByteOf(w + WORD, 0) < 256 && (ByteOf(w, 0) == 255 || (ByteOf(w, 0) + 1) % 256 == ByteOf(w, 0) + 1)
  {
  }

  lemma LastCarries()
    ensures Carries(0xFFFF_FFFC, 0)
  {
    BytesAreRemainders(0xFFFF_FFFC);
  }

  lemma WrapCarries(w: u32)
    requires w % WORD == 0
    ensures Carries(w, Wrap(w + WORD))
  {
    if w + WORD < MODULUS {
      assert Wrap(w + WORD) == w + WORD;
      NextCarries(w);
    } else {
      assert w == 0xFFFF_FFFC && Wrap(w + WORD) == 0;
      LastCarries();
    }
  }

  // ---------- The stamps around a word ----------

  /** The stamps of a word and of the three words after it. */
  const AROUND: nat := 16

  ghost predicate IsAround(x: seq<byte>, w: u32) {
    |x| == AROUND && x == Stamped(w, |x|)
  }

  function Around(w: u32): (x: seq<byte>)
    ensures IsAround(x, w)
  {
    var x := seq<byte>(AROUND, i requires 0 <= i < AROUND => StampByte(Wrap(w + i)));
    StampedBySeq(x, w, |x|);
    x
  }

  lemma StampedBySeq(x: seq<byte>, w: u32, n: nat)
    requires n == |x| && forall i :: 0 <= i < n ==> x[i] == StampByte(Wrap(w + i))
    ensures x == Stamped(w, n)
  {
    forall i | 0 <= i < n
      ensures x[i] == Stamped(w, n)[i]
    {
      StampedAt(w, n, i);
    }
  }

  /** The stamps of two consecutive words, from index i on. */
  predicate CarriesAt(x: seq<byte>, i: nat)
    requires i + 2 * WORD <= |x|
  {
    CarryRule(x[i], x[i + 1], x[i + 2], x[i + 3], x[i + 4], x[i + 5], x[i + 6], x[i + 7])
  }

  predicate Consecutive(x: seq<byte>)
    requires |x| == AROUND
  {
    CarriesAt(x, 0) && CarriesAt(x, 4) && CarriesAt(x, 8)
  }

  /** The word v is at index k. */
  predicate HasWord(x: seq<byte>, k: nat, v: u32)
    requires k + WORD <= |x|
  {
    x[k] == ByteOf(v, 0) && x[k + 1] == ByteOf(v, 1) && x[k + 2] == ByteOf(v, 2) && x[k + 3] == ByteOf(v, 3)
  }

  lemma WholeWordAt(x: seq<byte>, w: u32, k: nat)
    requires IsAround(x, w) && (w + k) % WORD == 0 && k + WORD <= AROUND
    ensures Wrap(w + k) % WORD == 0 && HasWord(x, k, Wrap(w + k))
  {
    WordInBlock(w, |x|, k, 0);
    WordInBlock(w, |x|, k, 1);
    WordInBlock(w, |x|, k, 2);
    WordInBlock(w, |x|, k, 3);
  }

  lemma CarriesBetween(x: seq<byte>, k: nat, v: u32, v': u32)
    requires k + 2 * WORD <= |x| && HasWord(x, k, v) && HasWord(x, k + WORD, v') && Carries(v, v')
    ensures CarriesAt(x, k)
  {
  }

  lemma WordsCarry(x: seq<byte>, w: u32, k: nat)
    requires IsAround(x, w) && (w + k) % WORD == 0 && k + 2 * WORD <= AROUND
    ensures CarriesAt(x, k)
  {
    var v, v' := Wrap(w + k), Wrap(w + (k + WORD));
    WholeWordAt(x, w, k);
    NextAligned(w + k);
    WholeWordAt(x, w, k + WORD);
    WrapInner(w + k, WORD);
    WrapCarries(v);
    CarriesBetween(x, k, v, v');
  }

  lemma NextAligned(x: int)
    requires x % WORD == 0
    ensures (x + WORD) % WORD == 0 && (x + 2 * WORD) % WORD == 0
  {
  }

  lemma AroundIsConsecutive(x: seq<byte>, w: u32)
    requires IsAround(x, w) && w % WORD == 0
    ensures Consecutive(x)
  {
    NextAligned(w);
    WordsCarry(x, w, 0);
    WordsCarry(x, w, 4);
    WordsCarry(x, w, 8);
  }

  /** n stamps from offset o on are those d positions later. */
  predicate Repeats(x: seq<byte>, o: nat, d: nat, n: nat)
    requires o + d + n <= |x|
  {
    n > 0 ==> x[o + n - 1] == x[o + d + n - 1] && Repeats(x, o, d, n - 1)
  }

  lemma SameAppended(a: seq<byte>, y: byte, b: seq<byte>, z: byte)
    requires |a| == |b|
    ensures a + [y] == b + [z] <==> a == b && y == z
  {
    if a + [y] == b + [z] {
      assert a == (a + [y])[..|a|] && b == (b + [z])[..|a|];
      assert (a + [y])[|a|] == y && (b + [z])[|a|] == z;
    }
  }

  lemma {:induction false} SlicesRepeat(x: seq<byte>, o: nat, d: nat, n: nat)
    requires o + d + n <= |x|
    ensures x[o + d..o + d + n] == x[o..o + n] <==> Repeats(x, o, d, n)
  {
    if n > 0 {
      var m := n - 1;
      SlicesRepeat(x, o, d, m);
      assert x[o..o + n] == x[o..o + m] + [x[o + m]];
      assert x[o + d..o + d + n] == x[o + d..o + d + m] + [x[o + d + m]];
      SameAppended(x[o + d..o + d + m], x[o + d + m], x[o..o + m], x[o + m]);
    }
  }

  lemma Stretch(x: seq<byte>, w: int, o: nat, n: nat)
    requires o + n <= |x| && x == Stamped(w, |x|)
    ensures Stamped(w + o, n) == x[o..o + n]
  {
    StampedSplit(w, o, n);
    StampedSplit(w, o + n, |x| - o - n);
  }

  /** Two stretches of stamps, as slices of what is around the word. */
  lemma StampsRepeatIff(x: seq<byte>, w: int, o: nat, d: nat, n: nat)
    requires o + d + n <= |x| && x == Stamped(w, |x|)
    ensures Stamped(w + (o + d), n) == Stamped(w + o, n) <==> Repeats(x, o, d, n)
  {
    Stretch(x, w, o, n);
    Stretch(x, w, o + d, n);
    SlicesRepeat(x, o, d, n);
  }

  // ---------- Which bytes of the size's word must agree ----------

  /** The four bytes of the first word are equal... */
  predicate Alike(x: seq<byte>)
    requires |x| == AROUND
  {
    x[0] == x[1] == x[2] == x[3]
  }

  /** ... or every second one is. */
  predicate Alternate(x: seq<byte>)
    requires |x| == AROUND
  {
    x[0] == x[2] && x[1] == x[3]
  }

  /**
    * For a start, the offset o of the size in its word and the distance d that the schedule skips: what must
    * hold of the bytes of that word. Where the size is the last position of the word, the next word counts.
    */
  predicate WordAgrees(start: nat, x: seq<byte>, o: nat, d: nat)
    requires |x| == AROUND
  {
    if start == 2 then
      if o == 1 then x[1] == x[2] == x[3] else x[3] == x[4] == x[5]
    else if start == 3 && d == 1 then
      if o < 3 then Alike(x) else x[3] == x[4] == x[5] == x[6]
    else if start == 3 then
      o < 3 && Alternate(x) && (o == 0 || x[3] != 252 || (o == 1 && x[2] != 255))
    else if start == 4 then
      d == 1 && o == 1 && Alike(x)
    else if start == 5 then
      || (d == 1 && Alike(x) && (o == 0 || (o == 1 && x[3] != 252)))
      || (d == 2 && o == 0 && Alternate(x) && x[3] != 252)
    else
      start == 6 && d == 1 && o == 0 && Alike(x) && x[3] != 252
  }

  lemma RepeatsUpToSix(x: seq<byte>, o: nat, d: nat, n: nat)
    requires o + d + n <= |x| && n <= 6
    ensures Repeats(x, o, d, n)
      <==> && (n > 0 ==> x[o] == x[o + d]) && (n > 1 ==> x[o + 1] == x[o + d + 1])
           && (n > 2 ==> x[o + 2] == x[o + d + 2]) && (n > 3 ==> x[o + 3] == x[o + d + 3])
           && (n > 4 ==> x[o + 4] == x[o + d + 4]) && (n > 5 ==> x[o + 5] == x[o + d + 5])
  {
    if n > 0 {
      RepeatsUpToSix(x, o, d, n - 1);
    }
  }

  lemma StartTwo(x: seq<byte>, o: nat)
    requires |x| == AROUND && (o == 1 || o == 3)
    ensures Repeats(x, o, 1, 2) <==> WordAgrees(2, x, o, 1)
  {
    RepeatsUpToSix(x, o, 1, 2);
  }

  lemma StartThree(x: seq<byte>, o: nat, d: nat)
    requires |x| == AROUND && Consecutive(x) && o < WORD && (d == 1 || d == 2)
    ensures Repeats(x, o, d, 3) <==> WordAgrees(3, x, o, d)
  {
    RepeatsUpToSix(x, o, d, 3);
  }

  lemma StartFour(x: seq<byte>, o: nat, d: nat)
    requires |x| == AROUND && Consecutive(x) && o < WORD
    requires (d == 1 && o % 2 == 1) || (d == WORD - o < WORD)
    ensures Repeats(x, o, d, 4) <==> WordAgrees(4, x, o, d)
  {
    RepeatsUpToSix(x, o, d, 4);
  }

  lemma StartFive(x: seq<byte>, o: nat, d: nat)
    requires |x| == AROUND && Consecutive(x) && o < WORD && 0 < d < 5
    ensures Repeats(x, o, d, 5) <==> WordAgrees(5, x, o, d)
  {
    if d == 1 {
      StartFiveNext(x, o);
    } else if d == 2 {
      StartFiveSecond(x, o);
    } else if d == 3 {
      StartFiveThird(x, o);
    } else {
      RepeatsUpToSix(x, o, 4, 5);
    }
  }

  lemma StartFiveNext(x: seq<byte>, o: nat)
    requires |x| == AROUND && Consecutive(x) && o < WORD
    ensures Repeats(x, o, 1, 5) <==> WordAgrees(5, x, o, 1)
  {
    RepeatsUpToSix(x, o, 1, 5);
  }

  lemma StartFiveSecond(x: seq<byte>, o: nat)
    requires |x| == AROUND && Consecutive(x) && o < WORD
    ensures Repeats(x, o, 2, 5) <==> WordAgrees(5, x, o, 2)
  {
    RepeatsUpToSix(x, o, 2, 5);
  }

  lemma StartFiveThird(x: seq<byte>, o: nat)
    requires |x| == AROUND && Consecutive(x) && o < WORD
    ensures !Repeats(x, o, 3, 5)
  {
    RepeatsUpToSix(x, o, 3, 5);
  }

  lemma StartSix(x: seq<byte>, o: nat, d: nat)
    requires |x| == AROUND && Consecutive(x) && o < WORD && 0 < d < 6
    requires d % 2 == 1 && d != 1 ==> o % 2 == 1
    ensures Repeats(x, o, d, 6) <==> WordAgrees(6, x, o, d)
  {
    if d == 1 {
      RepeatsUpToSix(x, o, 1, 6);
    } else {
      StartSixFar(x, o, d);
    }
  }

  lemma StartSixFar(x: seq<byte>, o: nat, d: nat)
    requires |x| == AROUND && Consecutive(x) && o < WORD && 1 < d < 6 && (d % 2 == 1 ==> o % 2 == 1)
    ensures !Repeats(x, o, d, 6)
  {
    if d == 2 {
      RepeatsUpToSix(x, o, 2, 6);
    } else if d == 3 {
      StartSixThird(x, o);
    } else if d == 4 {
      RepeatsUpToSix(x, o, 4, 6);
    } else {
      StartSixFifth(x, o);
    }
  }

  lemma StartSixThird(x: seq<byte>, o: nat)
    requires |x| == AROUND && Consecutive(x) && (o == 1 || o == 3)
    ensures !Repeats(x, o, 3, 6)
  {
    RepeatsUpToSix(x, o, 3, 6);
  }

  lemma StartSixFifth(x: seq<byte>, o: nat)
    requires |x| == AROUND && Consecutive(x) && (o == 1 || o == 3)
    ensures !Repeats(x, o, 5, 6)
  {
    RepeatsUpToSix(x, o, 5, 6);
  }

  /** The exact condition for a coincidence in terms of the bytes of the word that the size is in. */
  predicate CoincidesByWord(p: Params)
    requires p.blockSize > 0
  {
    && Candidate(p) && 2 <= p.start <= 6
    && WordAgrees(p.start, Around(p.size - p.size % WORD), p.size % WORD, Skip(p))
  }

  /** Which block sizes divide the start, and what that says about the skip and the size's offset. */
  lemma Skips(p: Params)
    requires p.blockSize > 0 && Candidate(p)
    ensures p.blockSize <= p.start && 0 < Skip(p) < p.blockSize && (p.size + Skip(p)) % p.blockSize == 0
  {
    var q := p.size / p.blockSize;
    ModUnique(p.size + Skip(p), p.blockSize, q + 1, 0);
    var c := p.start / p.blockSize;
    assert p.start == p.blockSize * c;
  }

  lemma SkipParity(p: Params)
    requires p.blockSize > 0 && Candidate(p) && p.blockSize % 2 == 0
    ensures Skip(p) % 2 == p.size % WORD % 2
  {
    ModOfMultiple(p.size, 2, 2, WORD);
    EvenRemainder(p.size, p.blockSize);
  }

  lemma EvenRemainder(x: nat, b: nat)
    requires b > 0 && b % 2 == 0
    ensures (b - x % b) % 2 == x % 2
  {
    ModOfMultiple(x, 2, b / 2, b);
  }

  lemma WordAgreesIff(p: Params, x: seq<byte>, o: nat)
    requires p.blockSize > 0 && Candidate(p) && 2 <= p.start <= 6
    requires |x| == AROUND && Consecutive(x) && o == p.size % WORD
    ensures Skip(p) < p.start && (Repeats(x, o, Skip(p), p.start) <==> WordAgrees(p.start, x, o, Skip(p)))
  {
    Skips(p);
    var b := p.blockSize;
    if b % 2 == 0 {
      SkipParity(p);
    }
    assert p.start % 4 == 0 || p.start % 3 == 0 || p.start == 2 || p.start == 5;
    if p.start == 2 {
      StartTwo(x, o);
    } else if p.start == 3 {
      assert 3 % 2 == 1;
      StartThree(x, o, Skip(p));
    } else if p.start == 4 {
      assert 4 % 3 == 1;
      StartFour(x, o, Skip(p));
    } else if p.start == 5 {
      StartFive(x, o, Skip(p));
    } else {
      assert 6 % 4 == 2 && 6 % 5 == 1;
      StartSix(x, o, Skip(p));
    }
  }

  lemma ShortCoincidence(p: Params, x: seq<byte>, w: u32, o: nat, d: nat)
    requires p.blockSize > 0 && Candidate(p) && 2 <= p.start <= 6
    requires IsAround(x, w) && w + o == p.size && o == p.size % WORD && d == Skip(p)
    ensures Stamped(p.size + d, p.start) == Stamped(p.size, p.start) <==> WordAgrees(p.start, x, o, d)
  {
    ModUnique(w, WORD, p.size / WORD, 0);
    AroundIsConsecutive(x, w);
    WordAgreesIff(p, x, o);
    SizeStretch(p.size, p.start, x, w, o, d);
  }

  lemma SizeStretch(size: nat, n: nat, x: seq<byte>, w: int, o: nat, d: nat)
    requires o + d + n <= |x| && x == Stamped(w, |x|) && w + o == size
    ensures Stamped(size + d, n) == Stamped(size, n) <==> Repeats(x, o, d, n)
  {
    StampsRepeatIff(x, w, o, d, n);
    assert w + (o + d) == size + d;
  }

  /** The exact condition for a coincidence. */
  lemma CoincidesIff(p: Params)
    requires Fits(p)
    ensures Coincides(p) <==> CoincidesByWord(p)
  {
    if Coincides(p) {
      CoincidenceIsShort(p);
    }
    if Candidate(p) && 2 <= p.start <= 6 {
      var o := p.size % WORD;
      ShortCoincidence(p, Around(p.size - o), p.size - o, o, Skip(p));
    }
  }

  /** The bytes written are the intended pattern exactly in order, or if those bytes agree. */
  lemma IntendedBytesByWord(p: Params)
    requires Fits(p) && p.size > 0
    ensures Content(p, BlockCount(p.size, p.blockSize)) == Stamped(p.start, p.size)
      <==> InOrder(p) || CoincidesByWord(p)
  {
    IntendedBytesIff(p);
    CoincidesIff(p);
  }

  lemma DivisorsUpToSix(s: nat, b: nat)
    requires 2 <= s <= 6 && 2 <= b <= s && s % b == 0
    ensures (s, b) in {(2, 2), (3, 3), (4, 2), (4, 4), (5, 5), (6, 2), (6, 3), (6, 6)}
  {
    if b == 2 {
    } else if b == 3 {
    } else if b == 4 {
    } else {
      assert b == 5 || b == 6;
    }
  }

  /** Only five of the eight pairs of a start from 2 to 6 and a block size that divides it can coincide at all. */
  lemma CoincidingPairs(p: Params)
    requires Fits(p) && Coincides(p)
    ensures (p.start, p.blockSize) in {(2, 2), (3, 3), (4, 2), (5, 5), (6, 3)}
  {
    CoincidesIff(p);
    Skips(p);
    DivisorsUpToSix(p.start, p.blockSize);
    if p.blockSize % 2 == 0 {
      SkipParity(p);
    }
  }
}
