/** What a block of stamps tells about its position. */
module StampIdentity {
  import opened Words
  import opened Modular
  import opened Stamps

  /** From one word to the next the last byte grows by 4 and every other byte by 0 or 1, modulo 256. */
  predicate Grows(j: nat, b: byte, b': byte) {
    var d := (b' as int - b as int) % 256;
    if j == WORD - 1 then d == 4 else d == 0 || d == 1
  }

  lemma NextQuotient(w: nat, d: nat)
    requires w % WORD == 0 && d >= WORD
    ensures (w + WORD) / d == w / d || (w + WORD) / d == w / d + 1
  {
    if w % d + WORD < d {
      ModUnique(w + WORD, d, w / d, w % d + WORD);
    } else {
      ModUnique(w + WORD, d, w / d + 1, w % d + WORD - d);
    }
  }

  lemma SuccessorGrows(j: nat, q: nat, q': nat)
    requires if j == WORD - 1 then q' == q + WORD else q' == q || q' == q + 1
    ensures Grows(j, q % 256, q' % 256)
  {
  }

  lemma QuotientGrows(w: nat, d: nat, j: nat)
    requires w % WORD == 0 && d >= WORD && j < WORD - 1
    requires 0 <= w / d && 0 <= (w + WORD) / d
    ensures Grows(j, w / d % 256, (w + WORD) / d % 256)
  {
    NextQuotient(w, d);
    SuccessorGrows(j, w / d, (w + WORD) / d);
  }

  lemma FirstByteGrows(w: u32)
    requires w % WORD == 0 && w + WORD < MODULUS
    ensures Grows(0, ByteOf(w, 0), ByteOf(w + WORD, 0))
  {
    NextQuotient(w, 0x100_0000);
  }

  lemma InnerByteGrows(w: u32)
    requires w % WORD == 0 && w + WORD < MODULUS
    ensures Grows(1, ByteOf(w, 1), ByteOf(w + WORD, 1))
    ensures Grows(2, ByteOf(w, 2), ByteOf(w + WORD, 2))
  {
    QuotientGrows(w, 0x1_0000, 1);
    QuotientGrows(w, 0x100, 2);
  }

  lemma NextWordByte(w: u32, j: nat)
    requires w % WORD == 0 && j < WORD
    ensures Grows(j, ByteOf(w, j), ByteOf(Wrap(w + WORD), j))
  {
    if w + WORD >= MODULUS {
      LastWord(w, j);
    } else {
      var w' := w + WORD;
      assert Wrap(w') == w';
      if j == 0 {
        FirstByteGrows(w);
      } else if j == 3 {
        SuccessorGrows(3, w, w');
      } else {
        InnerByteGrows(w);
      }
    }
  }

  lemma LastWord(w: u32, j: nat)
    requires w % WORD == 0 && w + WORD >= MODULUS && j < WORD
    ensures Grows(j, ByteOf(w, j), ByteOf(Wrap(w + WORD), j))
  {
    assert w == 0xFFFF_FFFC && Wrap(w + WORD) == 0;
    if j == 0 {
      assert ByteOf(0xFFFF_FFFC, 0) == 255;
    } else if j == 1 {
      assert ByteOf(0xFFFF_FFFC, 1) == 255;
    } else if j == 2 {
      assert ByteOf(0xFFFF_FFFC, 2) == 255;
    } else {
      assert ByteOf(0xFFFF_FFFC, 3) == 252;
    }
  }

  lemma AlignedWrap(w: u32, j: nat)
    requires w % WORD == 0 && j < WORD
    ensures Wrap(w + WORD) % WORD == 0 && Wrap(w + j + WORD) == Wrap(w + WORD) + j
  {
  }

  lemma NextStamp(p: u32)
    ensures Grows(p % WORD, StampByte(p), StampByte(Wrap(p + WORD)))
  {
    var w: u32, j := p - p % WORD, p % WORD;
    NextWordByte(w, j);
    StampInWord(w, j);
    AlignedWrap(w, j);
    StampInWord(Wrap(w + WORD), j);
  }

  lemma TwoStamps(s: u32, n: nat, k: nat)
    requires k + WORD < n
    ensures Grows((s + k) % WORD, Stamped(s, n)[k], Stamped(s, n)[k + WORD])
  {
    StampedAt(s, n, k);
    StampedAt(s, n, k + WORD);
    NextStamp(Wrap(s + k));
    WrapInner(s + k, WORD);
    ModOfMultiple(s + k, WORD, MODULUS / WORD, MODULUS);
  }

  lemma Aligned(s1: u32, s2: u32, k: nat)
    requires k == WORD - 1 - s1 % WORD
    ensures (s1 + k) % WORD == WORD - 1
    ensures (s2 + k) % WORD == WORD - 1 <==> s1 % WORD == s2 % WORD
  {
  }

  lemma AlignedUp(s1: u32, s2: u32) returns (k: nat)
    requires s1 % WORD == s2 % WORD
    ensures k < WORD && (s1 + k) % WORD == 0 && (s2 + k) % WORD == 0
  {
    k := if s1 % WORD == 0 then 0 else WORD - s1 % WORD;
  }

  /** The last byte of a word in one block meets another byte in the other: they cannot both go on alike. */
  lemma DifferentAlignment(s1: u32, s2: u32, n: nat)
    requires n >= 7 && s1 % WORD != s2 % WORD && s1 % WORD != 0
    ensures Stamped(s1, n) != Stamped(s2, n)
  {
    var k := WORD - 1 - s1 % WORD;
    Aligned(s1, s2, k);
    TwoStamps(s1, n, k);
    TwoStamps(s2, n, k);
  }

  lemma WordInBlock(s: u32, n: nat, k: nat, j: nat)
    requires (s + k) % WORD == 0 && k + WORD <= n && j < WORD
    ensures Wrap(s + k) % WORD == 0 && Stamped(s, n)[k + j] == ByteOf(Wrap(s + k), j)
  {
    ModOfMultiple(s + k, WORD, MODULUS / WORD, MODULUS);
    StampInWord(Wrap(s + k), j);
    StampedAt(s, n, k + j);
    WrapInner(s + k, j);
    ModUnique(Wrap(s + k) + j, MODULUS, 0, Wrap(s + k) + j);
  }

  lemma WholeWord(s: u32, n: nat, k: nat)
    requires (s + k) % WORD == 0 && k + WORD <= n
    ensures var b := Stamped(s, n); Wrap(s + k) == FromBytes(b[k], b[k + 1], b[k + 2], b[k + 3])
  {
    WordInBlock(s, n, k, 0);
    WordInBlock(s, n, k, 1);
    WordInBlock(s, n, k, 2);
    WordInBlock(s, n, k, 3);
    FromBytesOf(Wrap(s + k));
  }

  lemma SameStart(s1: u32, s2: u32, k: nat)
    requires Wrap(s1 + k) == Wrap(s2 + k)
    ensures s1 == s2
  {
    CloseResidues(s1 + k, s2 + k, MODULUS);
  }

  /** Equally aligned blocks share a whole word, which gives the position away. */
  lemma SameAlignment(s1: u32, s2: u32, n: nat)
    requires n >= 7 && s1 % WORD == s2 % WORD && Stamped(s1, n) == Stamped(s2, n)
    ensures s1 == s2
  {
    var k := AlignedUp(s1, s2);
    WholeWord(s1, n, k);
    WholeWord(s2, n, k);
    SameStart(s1, s2, k);
  }

  /** Blocks of seven bytes or more with different starts differ, whatever their alignment. */
  lemma StampsDiffer(s1: u32, s2: u32, n: nat)
    requires n >= 7 && Stamped(s1, n) == Stamped(s2, n)
    ensures s1 == s2
  {
    if s1 % WORD == s2 % WORD {
      SameAlignment(s1, s2, n);
    } else if s1 % WORD != 0 {
      DifferentAlignment(s1, s2, n);
    } else {
      DifferentAlignment(s2, s1, n);
    }
  }

  ghost predicate Identifies(n: nat) {
    forall s1: u32, s2: u32 :: Stamped(s1, n) == Stamped(s2, n) ==> s1 == s2
  }

  lemma {:induction false} ZeroAndOneAgree(n: nat)
    requires n <= 6
    ensures Stamped(0, n) == Stamped(1, n)
  {
    if n > 0 {
      ZeroAndOneAgree(n - 1);
      FirstStamps(n - 1);
      FirstStamps(n);
    }
  }

  lemma FirstStamps(p: nat)
    requires p <= 6
    ensures Wrap(p) == p && StampByte(p) == 0
  {
  }

  /** Seven bytes is the exact size from which a block identifies its position. */
  lemma IdentifiesIff(n: nat)
    ensures Identifies(n) <==> n >= 7
  {
    if n >= 7 {
      forall s1: u32, s2: u32 | Stamped(s1, n) == Stamped(s2, n)
        ensures s1 == s2
      {
        StampsDiffer(s1, s2, n);
      }
    } else {
      ZeroAndOneAgree(n);
    }
  }
}
