/** Counting small files while a sequence of draws removes those it hits. */
module Thinning {
  import opened Blocks
  import opened Volumes

  /** The small files of now are those of before with the same content, without exactly the drawn ones. */
  ghost predicate Thinned(before: map<FileName, nat>, now: map<FileName, nat>, drawn: set<int>, deleted: nat) {
    && (forall f :: f in now && f != Big ==> f in before && now[f] == before[f])
    && SmallFiles(now) == SmallFiles(before) - drawn
    && deleted == |SmallFiles(before) * drawn|
  }

  lemma ThinnedStart(files: map<FileName, nat>)
    ensures Thinned(files, files, {}, 0)
  {
    assert SmallFiles(files) * {} == {};
  }

  lemma ThinnedHit(before: map<FileName, nat>, now: map<FileName, nat>, drawn: set<int>, deleted: nat, i: nat)
    requires Thinned(before, now, drawn, deleted) && Small(i) in now
    ensures Thinned(before, now - {Small(i)}, drawn + {i}, deleted + 1)
  {
    assert i in SmallFiles(now);
    assert SmallFiles(now - {Small(i)}) == SmallFiles(now) - {i};
    assert SmallFiles(before) * (drawn + {i}) == SmallFiles(before) * drawn + {i};
  }

  lemma ThinnedMiss(before: map<FileName, nat>, now: map<FileName, nat>, drawn: set<int>, deleted: nat, i: nat)
    requires Thinned(before, now, drawn, deleted) && Small(i) !in now
    ensures Thinned(before, now, drawn + {i}, deleted)
  {
    assert i !in SmallFiles(now);
    assert SmallFiles(before) * (drawn + {i}) == SmallFiles(before) * drawn;
  }

  lemma ThinnedSame(before: map<FileName, nat>, now: map<FileName, nat>, now': map<FileName, nat>,
                    drawn: set<int>, deleted: nat)
    requires Thinned(before, now, drawn, deleted) && SameSmallFiles(now, now')
    ensures Thinned(before, now', drawn, deleted)
  {
    forall i | i in SmallFiles(now) || i in SmallFiles(now')
      ensures i in SmallFiles(now) && i in SmallFiles(now')
    {
      assert i >= 0 && Small(i) in now && Small(i) in now';
    }
    assert SmallFiles(now) == SmallFiles(now');
  }

  ghost predicate SameSmallFiles(a: map<FileName, nat>, b: map<FileName, nat>) {
    && (forall f :: f != Big ==> (f in a <==> f in b))
    && (forall f :: f in a && f != Big ==> b[f] == a[f])
  }

  /** What was deleted and what is left add up to what there was. */
  lemma ThinnedCount(before: map<FileName, nat>, now: map<FileName, nat>, drawn: set<int>, deleted: nat)
    requires Thinned(before, now, drawn, deleted)
    ensures deleted + |SmallFiles(now)| == |SmallFiles(before)|
  {
    assert SmallFiles(before) == SmallFiles(before) * drawn + SmallFiles(now);
  }

  /** The small files that are gone. */
  ghost function Gone(before: map<FileName, nat>, now: map<FileName, nat>): map<FileName, nat> {
    map f | f in before && f != Big && f !in now :: before[f]
  }

  lemma {:induction false} GoneUnits(before: map<FileName, nat>, now: map<FileName, nat>, unit: nat, limit: nat)
    requires unit > 0
    requires forall f :: f in now && f != Big ==> f in before && now[f] == before[f]
    ensures SmallUnits(before, unit, limit) == SmallUnits(now, unit, limit) + SmallUnits(Gone(before, now), unit, limit)
  {
    if limit > 0 {
      GoneUnits(before, now, unit, limit - 1);
    }
  }

  /** What the volume looks like when the open big file has drained it, counted against all its units. */
  ghost predicate BigTookAll(files: map<FileName, nat>, free: nat, unit: nat, limit: nat, total: nat)
    requires unit > 0
  {
    && Big in files && free == 0
    && files[Big] == Span(UnitsOf(files, Big, unit), unit)
    && UnitTotal(files, free, unit, limit) == total
  }

  /** The big file has then grown by exactly the units that were free and those of the small files that are gone. */
  lemma BigFileGrowth(before: map<FileName, nat>, free: nat, now: map<FileName, nat>, drawn: set<int>, deleted: nat,
                      unit: nat, limit: nat)
    requires unit > 0 && Thinned(before, now, drawn, deleted)
    requires BigTookAll(now, 0, unit, limit, UnitTotal(before, free, unit, limit))
    ensures now[Big] == (UnitsOf(before, Big, unit) + free + SmallUnits(Gone(before, now), unit, limit)) * unit
  {
    GoneUnits(before, now, unit, limit);
    SpanIsProduct(UnitsOf(now, Big, unit), unit);
  }
}
