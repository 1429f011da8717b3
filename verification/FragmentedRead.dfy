/**
  * The fragmented read test: fill the volume with small files, delete a third of them pseudo-randomly
  * while a big file takes over the space, read it, clean up.
  *
  * Two loops of the program need not end. Their models take a horizon, the number of iterations after
  * which we stop watching; the program has no such limit. An outcome StillRunning says that the program
  * is still in the loop after that many iterations.
  */
module FragmentedRead {
  import opened Blocks
  import opened Words
  import opened PseudoRandom
  import opened Draws
  import opened Deletion
  import opened Volumes
  import opened Calls
  import opened Thinning

  const SMALL_SIZE: nat := 17
  const BIG_CHUNK: nat := 1024

  datatype Outcome = Returned(rv: int) | StillRunning

  ghost function FirstFiles(n: nat): set<FileName> {
    set i: nat | i < n :: Small(i)
  }

  // ---------- Drawing and deleting ----------

  /** Removes a small file; a file that does not exist is told apart from an error. */
  method RemoveSmallFile(volume: Volume, file: u32) returns (errno: Errno)
    requires volume.Valid()
    modifies volume`files, volume`free, volume`calls
    ensures volume.Valid() && volume.Total() == old(volume.Total())
    ensures volume.calls == Then(old(volume.calls), Unlinked(Small(file), errno))
    ensures errno == NoError ==> Small(file) in old(volume.files) && volume.files == old(volume.files) - {Small(file)}
    ensures errno == ENOENT ==> Small(file) !in old(volume.files)
    ensures errno != NoError ==> volume.files == old(volume.files) && volume.free == old(volume.free)
    ensures !volume.faults ==> errno == if Small(file) in old(volume.files) then NoError else ENOENT
  {
    errno := volume.Unlink(Small(file));
  }

  /** Writes to the big file from position at on until a write returns 0 or less. */
  method Drain(volume: Volume, at: nat) returns (end: nat)
    requires volume.Valid() && Big in volume.files && at <= volume.files[Big]
    modifies volume`files, volume`free, volume`calls
    ensures volume.Valid() && volume.Total() == old(volume.Total())
    ensures Drains(old(volume.calls), volume.calls, at, end)
    ensures volume.files.Keys == old(volume.files.Keys)
    ensures forall f :: f in volume.files && f != Big ==> volume.files[f] == old(volume.files)[f]
    ensures at <= end <= volume.files[Big]
    ensures volume.Room(Big, end) + (end - at) == old(volume.Room(Big, at))
    ensures !volume.faults ==> volume.Room(Big, end) == 0
  {
    end := at;
    while true
      invariant volume.Valid() && volume.Total() == old(volume.Total())
      invariant Writes(old(volume.calls), volume.calls, at, end)
      invariant volume.files.Keys == old(volume.files.Keys)
      invariant forall f :: f in volume.files && f != Big ==> volume.files[f] == old(volume.files)[f]
      invariant at <= end <= volume.files[Big]
      invariant volume.Room(Big, end) + (end - at) == old(volume.Room(Big, at))
      decreases volume.Room(Big, end)
    {
      var written := volume.Write(Big, end, BIG_CHUNK);
      if written <= 0 {
        break;
      }
      end := end + written;
    }
  }

  /** A position with no room after it is at the end of a file that fills its units, on a volume with no free units. */
  lemma NoRoom(volume: Volume, at: nat)
    requires volume.Valid() && Big in volume.files && at <= volume.files[Big] && volume.Room(Big, at) == 0
    ensures volume.free == 0
    ensures at == volume.files[Big] == Span(UnitsOf(volume.files, Big, volume.unit), volume.unit)
  {
    var u := BlockCount(volume.files[Big], volume.unit);
    UnitsAtMost(volume.files[Big], volume.unit, u);
    SpanGrows(u, volume.free, volume.unit);
  }

  ghost function DrawnSoFar(n: nat, draws: nat): set<int> {
    if n == 0 then {} else Drawn(n, draws)
  }

  /** The big file is open at position at and has drained the volume, as far as the volume lets it. */
  ghost predicate Drained(volume: Volume, at: nat)
    requires volume.Valid()
    reads volume
  {
    Big in volume.files && at <= volume.files[Big] && (!volume.faults ==> volume.Room(Big, at) == 0)
  }

  /** The draws after from, up to and including to, name files that do not exist. */
  ghost predicate AllMiss(files: map<FileName, nat>, n: nat, from: nat, to: nat)
    requires n > 0
  {
    forall j :: from < j <= to ==> Small(StateAfter(j) % n) !in files
  }

  /**
    * From any number of draws on, the inner loop comes to a file if a file with a drawable index is left,
    * within PERIOD draws; otherwise never.
    */
  lemma InnerLoopHitsIff(files: map<FileName, nat>, n: nat, from: nat, to: nat)
    requires n > 0 && to >= from + PERIOD
    ensures !AllMiss(files, n, from, to) <==> exists r: nat :: r < n && Drawable(n, r) && Small(r) in files
  {
    forall r: nat | r < n && Drawable(n, r) && Small(r) in files
      ensures !AllMiss(files, n, from, to)
    {
      DrawableIff(n, r, from);
    }
    forall j: nat | from < j <= to && Small(StateAfter(j) % n) in files
      ensures exists r: nat :: r < n && Drawable(n, r) && Small(r) in files
    {
      DrawnIsDrawable(n, j);
    }
  }

  /** The calls of the inner loop, by the way it ends. */
  ghost predicate Searches(t0: Trace, t: Trace, n: nat, drawn: nat, draws: nat, result: Outcome)
    requires n > 0
  {
    if result == StillRunning then Misses(t0, t, n, drawn, draws)
    else if result == Returned(0) then Finds(t0, t, n, drawn, draws)
    else FailsToFind(t0, t, n, drawn, draws)
  }

  /** The inner loop: draws until a draw hits a file that exists, and removes that file. */
  method DrawUntilHit(volume: Volume, generator: Generator, nrFiles: u32, drawn: nat, horizon: nat)
      returns (result: Outcome, draws: nat)
    requires volume.Valid() && nrFiles > 0 && drawn <= horizon
    requires generator.state == StateAfter(drawn)
    modifies volume`files, volume`free, volume`calls, generator
    ensures volume.Valid() && volume.Total() == old(volume.Total())
    ensures Searches(old(volume.calls), volume.calls, nrFiles, drawn, draws, result)
    ensures result == Returned(0) || result == StillRunning || (result == Returned(-1) && volume.faults)
    ensures result != Returned(0) ==>
      && drawn <= draws <= horizon
      && AllMiss(old(volume.files), nrFiles, drawn, draws)
      && volume.files == old(volume.files) && volume.free == old(volume.free)
    ensures result == StillRunning ==> draws == horizon
    ensures result == Returned(0) ==>
      && volume.directory
      && drawn < draws <= horizon && generator.state == StateAfter(draws)
      && AllMiss(old(volume.files), nrFiles, drawn, draws - 1)
      && Small(StateAfter(draws) % nrFiles) in old(volume.files)
      && volume.files == old(volume.files) - {Small(StateAfter(draws) % nrFiles)}
  {
    draws := drawn;
    while draws < horizon
      invariant volume.Valid() && volume.files == old(volume.files) && volume.free == old(volume.free)
      invariant Misses(old(volume.calls), volume.calls, nrFiles, drawn, draws)
      invariant drawn <= draws <= horizon
      invariant generator.state == StateAfter(draws)
      invariant AllMiss(volume.files, nrFiles, drawn, draws)
    {
      var i := generator.Draw(nrFiles);
      var errno := RemoveSmallFile(volume, i);
      if errno != NoError && errno != ENOENT {
        return Returned(-1), draws;
      }
      draws := draws + 1;
      if errno == NoError {
        return Returned(0), draws;
      }
    }
    result := StillRunning;
  }

  lemma ThinnedByMiss(before: map<FileName, nat>, now: map<FileName, nat>, n: nat, draws: nat, deleted: nat)
    requires n > 0 && draws > 0 && Thinned(before, now, DrawnSoFar(n, draws - 1), deleted)
    requires Small(StateAfter(draws) % n) !in now
    ensures Thinned(before, now, DrawnSoFar(n, draws), deleted)
  {
    ThinnedMiss(before, now, DrawnSoFar(n, draws - 1), deleted, StateAfter(draws) % n);
    DrawnStep(n, draws - 1);
  }

  /** Draws that hit no file change neither the files nor the count... */
  lemma {:induction false} ThinnedMisses(before: map<FileName, nat>, now: map<FileName, nat>, n: nat,
                                         from: nat, to: nat, deleted: nat)
    requires n > 0 && from <= to && Thinned(before, now, DrawnSoFar(n, from), deleted)
    requires AllMiss(now, n, from, to)
    ensures Thinned(before, now, DrawnSoFar(n, to), deleted)
  {
    if from < to {
      ThinnedMisses(before, now, n, from, to - 1, deleted);
      ThinnedByMiss(before, now, n, to, deleted);
    }
  }

  /** ... and a draw that hits one removes it. */
  lemma ThinnedByHit(before: map<FileName, nat>, now: map<FileName, nat>, n: nat, draws: nat, deleted: nat)
    requires n > 0 && draws > 0 && Thinned(before, now, DrawnSoFar(n, draws - 1), deleted)
    requires Small(StateAfter(draws) % n) in now
    ensures Thinned(before, now - {Small(StateAfter(draws) % n)}, DrawnSoFar(n, draws), deleted + 1)
  {
    ThinnedHit(before, now, DrawnSoFar(n, draws - 1), deleted, StateAfter(draws) % n);
    DrawnStep(n, draws - 1);
  }

  /** The calls that take the space of a deleted file: the big file is opened unless it is, and written. */
  ghost predicate TakesSpace(t0: Trace, t: Trace, fd: int, at: nat, fd': int, at': nat) {
    if fd >= 0 then fd' >= 0 && Drains(t0, t, at, at') else OpensAndDrains(t0, t, fd' >= 0, at')
  }

  /** Opens the big file if that has not happened yet, and drains the volume into it. */
  method OpenAndDrain(volume: Volume, fd: int, at: nat) returns (fd': int, at': nat)
    requires volume.Valid() && volume.directory
    requires fd >= 0 ==> Big in volume.files && at <= volume.files[Big]
    requires fd < 0 ==> at == 0
    modifies volume`files, volume`free, volume`calls
    ensures volume.Valid() && volume.Total() == old(volume.Total())
    ensures TakesSpace(old(volume.calls), volume.calls, fd, at, fd', at')
    ensures SameSmallFiles(old(volume.files), volume.files)
    ensures fd' >= 0 ==> Drained(volume, at')
    ensures fd' < 0 ==> fd < 0 && volume.faults
  {
    fd', at' := fd, at;
    if fd' < 0 {
      var ok := volume.Open(Big);
      if !ok {
        // The caller then returns the 0 left over from the last deletion.
        return;
      }
      fd' := 0;
    }
    at' := Drain(volume, at);
  }

  /** The calls of a turn of the deletion loop: a search, and then the space is taken if a file was found. */
  ghost predicate TurnMade(t0: Trace, t1: Trace, t: Trace, n: nat, drawn: nat, draws: nat, result: Outcome,
                           fd: int, at: nat, fd': int, at': nat)
    requires n > 0
  {
    && Searches(t0, t1, n, drawn, draws, result)
    && if result == Returned(0) then TakesSpace(t1, t, fd, at, fd', at') else t == t1
  }

  /** What they come to, after the turns before. */
  lemma AfterTurn(t: Trace, t0: Trace, t1: Trace, t2: Trace, n: nat, drawn: nat, draws: nat, result: Outcome,
                  fd: int, at: nat, fd': int, at': nat)
    requires n > 0 && Between(t, t0, n, drawn, if fd >= 0 then at else -1)
    requires TurnMade(t0, t1, t2, n, drawn, draws, result, fd, at, fd', at')
    ensures Deletes(t, t2, n)
    ensures result == StillRunning ==> Between(t, t2, n, draws, if fd >= 0 then at else -1)
    ensures result == Returned(0) ==> if fd' >= 0 then Between(t, t2, n, draws, at') else t2 != t && OpenFailed(t2)
    ensures result.Returned? && result.rv != 0 ==> t2 != t && UnlinkFailed(t2)
  {
    var position := if fd >= 0 then at else -1;
    if result == StillRunning {
      AfterMisses(t, t0, t1, n, drawn, draws, position);
    } else if result == Returned(0) {
      AfterFind(t, t0, t1, n, drawn, draws, position);
      if fd >= 0 {
        AfterDrain(t, t1, t2, n, at, at');
      } else {
        AfterFirstDrain(t, t1, t2, n, fd' >= 0, at');
      }
    } else {
      AfterFailure(t, t0, t1, n, drawn, draws, position);
    }
  }

  /** The search of a turn, with the account of the files: before are those at the start of the loop. */
  method DeleteNext(volume: Volume, generator: Generator, nrFiles: u32, horizon: nat, drawn: nat,
                    ghost before: map<FileName, nat>, ghost deleted: nat)
      returns (result: Outcome, draws: nat)
    requires volume.Valid() && nrFiles > 0 && drawn <= horizon
    requires generator.state == StateAfter(drawn)
    requires Thinned(before, volume.files, DrawnSoFar(nrFiles, drawn), deleted)
    modifies volume`files, volume`free, volume`calls, generator
    ensures volume.Valid() && volume.Total() == old(volume.Total())
    ensures Searches(old(volume.calls), volume.calls, nrFiles, drawn, draws, result)
    ensures result == Returned(0) || result == StillRunning || (result == Returned(-1) && volume.faults)
    ensures draws <= horizon && (result == StillRunning ==> draws == horizon)
    ensures result == Returned(0) ==>
      && volume.directory && generator.state == StateAfter(draws)
      && Thinned(before, volume.files, DrawnSoFar(nrFiles, draws), deleted + 1)
      && (Big in old(volume.files) ==> Big in volume.files && volume.files[Big] == old(volume.files)[Big])
    ensures result != Returned(0) ==>
      && Thinned(before, volume.files, DrawnSoFar(nrFiles, draws), deleted)
      && volume.files == old(volume.files) && volume.free == old(volume.free)
  {
    ghost var files := volume.files;
    result, draws := DrawUntilHit(volume, generator, nrFiles, drawn, horizon);
    if result != Returned(0) {
      ThinnedMisses(before, files, nrFiles, drawn, draws, deleted);
    } else {
      ThinnedMisses(before, files, nrFiles, drawn, draws - 1, deleted);
      ThinnedByHit(before, files, nrFiles, draws, deleted);
    }
  }

  /** One turn of the deletion loop; before are the files at its start, of which deleted are gone so far. */
  method DeleteOne(volume: Volume, generator: Generator, nrFiles: u32, horizon: nat, fd: int, at: nat, drawn: nat,
                   ghost before: map<FileName, nat>, ghost deleted: nat)
      returns (result: Outcome, fd': int, at': nat, draws: nat, ghost found: Trace)
    requires volume.Valid() && nrFiles > 0 && drawn <= horizon
    requires generator.state == StateAfter(drawn)
    requires Thinned(before, volume.files, DrawnSoFar(nrFiles, drawn), deleted)
    requires if fd >= 0 then Drained(volume, at) else at == 0
    modifies volume`files, volume`free, volume`calls, generator
    ensures volume.Valid() && volume.Total() == old(volume.Total())
    ensures TurnMade(old(volume.calls), found, volume.calls, nrFiles, drawn, draws, result, fd, at, fd', at')
    ensures result == Returned(0) || result == StillRunning || (result == Returned(-1) && volume.faults)
    ensures draws <= horizon && (result == StillRunning ==> draws == horizon)
    ensures result == Returned(0) ==>
      && generator.state == StateAfter(draws)
      && Thinned(before, volume.files, DrawnSoFar(nrFiles, draws), deleted + 1)
      && (if fd' >= 0 then Drained(volume, at') else fd < 0 && volume.faults)
    ensures result != Returned(0) ==>
      && Thinned(before, volume.files, DrawnSoFar(nrFiles, draws), deleted)
      && fd' == fd && at' == at && (fd >= 0 ==> Drained(volume, at))
      && volume.files == old(volume.files) && volume.free == old(volume.free)
  {
    fd', at' := fd, at;
    result, draws := DeleteNext(volume, generator, nrFiles, horizon, drawn, before, deleted);
    found := volume.calls;
    if result == Returned(0) {
      ghost var files := volume.files;
      fd', at' := OpenAndDrain(volume, fd, at);
      ThinnedSame(before, files, volume.files, DrawnSoFar(nrFiles, draws), deleted + 1);
    }
  }

  /**
    * The calls of the whole deletion, and what they say about its end: it is an error exactly if a removal
    * failed, and otherwise it ends when a third of the files are deleted, or after the first of them if the big
    * file could not be opened. That is reported as success.
    */
  ghost predicate DeletionMade(t0: Trace, t: Trace, n: nat, deleted: nat, outcome: Outcome) {
    && Deletes(t0, t, n)
    && (outcome == Returned(-1) <==> t != t0 && UnlinkFailed(t))
    && (outcome == Returned(0) <==> deleted == n / 3 || (t != t0 && OpenFailed(t)))
    && (t != t0 && OpenFailed(t) ==> deleted == 1)
  }

  lemma DeletionEnds(t: Trace, t0: Trace, t1: Trace, t2: Trace, n: nat, drawn: nat, draws: nat, result: Outcome,
                     fd: int, at: nat, fd': int, at': nat, deleted: nat)
    requires n > 0 && Between(t, t0, n, drawn, if fd >= 0 then at else -1)
    requires TurnMade(t0, t1, t2, n, drawn, draws, result, fd, at, fd', at')
    requires result == StillRunning || result == Returned(-1) || (result == Returned(0) && fd' < 0 && deleted == 0)
    requires deleted < n / 3
    ensures DeletionMade(t, t2, n, if result == Returned(0) then 1 else deleted, result)
    ensures result == Returned(0) ==> OpenFailed(t2)
  {
    AfterTurn(t, t0, t1, t2, n, drawn, draws, result, fd, at, fd', at');
  }

  lemma DeletionComplete(t: Trace, t0: Trace, n: nat, draws: nat, position: int)
    requires Between(t, t0, n, draws, position)
    ensures DeletionMade(t, t0, n, n / 3, Returned(0))
  {
  }

  /** The deletion loop. At its end the big file is open unless nothing was deleted or it could not be opened. */
  method DeletionLoop(volume: Volume, nrFiles: u32, horizon: nat)
      returns (outcome: Outcome, draws: nat, deleted: nat, ghost fd: int, ghost end: nat)
    requires volume.Valid()
    modifies volume`files, volume`free, volume`calls
    ensures volume.Valid() && volume.Total() == old(volume.Total())
    ensures DeletionMade(old(volume.calls), volume.calls, nrFiles, deleted, outcome)
    ensures fd < 0 && deleted > 0 ==> outcome == Returned(0) && deleted == 1 && OpenFailed(volume.calls)
    ensures Thinned(old(volume.files), volume.files, DrawnSoFar(nrFiles, draws), deleted)
    ensures deleted <= nrFiles / 3 && draws <= horizon
    ensures outcome == StillRunning ==> draws == horizon && deleted < nrFiles / 3
    ensures outcome == Returned(0) ==> deleted == nrFiles / 3 || (volume.faults && deleted == 1)
    ensures outcome == Returned(0) || outcome == StillRunning || (outcome == Returned(-1) && volume.faults)
    ensures if fd >= 0 then Drained(volume, end) else deleted == 0 || volume.faults
    ensures deleted == 0 ==> volume.files == old(volume.files) && volume.free == old(volume.free)
  {
    var toDelete := nrFiles / 3;
    var generator := new Generator();
    var bigFile, at := -1, 0;
    fd, end := bigFile, at;
    outcome, draws, deleted := Returned(0), 0, 0;
    ThinnedStart(volume.files);
    assert DrawnSoFar(nrFiles, 0) == {};

    while deleted < toDelete
      invariant volume.Valid() && volume.Total() == old(volume.Total())
      invariant Between(old(volume.calls), volume.calls, nrFiles, draws, if bigFile >= 0 then at else -1)
      invariant draws <= horizon && deleted <= toDelete
      invariant generator.state == StateAfter(draws) && outcome == Returned(0)
      invariant Thinned(old(volume.files), volume.files, DrawnSoFar(nrFiles, draws), deleted)
      invariant fd == bigFile && end == at
      invariant if bigFile >= 0 then deleted > 0 && Drained(volume, at) else deleted == 0 && at == 0
      invariant deleted == 0 ==> volume.files == old(volume.files) && volume.free == old(volume.free)
    {
      ghost var found, calls, drawn := volume.calls, volume.calls, draws;
      outcome, bigFile, at, draws, found :=
        DeleteOne(volume, generator, nrFiles, horizon, bigFile, at, draws, old(volume.files), deleted);
      if outcome != Returned(0) || bigFile < 0 {
        DeletionEnds(old(volume.calls), calls, found, volume.calls, nrFiles, drawn, draws, outcome, fd, end,
                     bigFile, at, deleted);
      } else {
        AfterTurn(old(volume.calls), calls, found, volume.calls, nrFiles, drawn, draws, outcome, fd, end,
                  bigFile, at);
      }
      if outcome != Returned(0) {
        return;
      }
      deleted := deleted + 1;
      fd, end := bigFile, at;
      if bigFile < 0 {
        return;
      }
    }
    DeletionComplete(old(volume.calls), volume.calls, nrFiles, draws, if bigFile >= 0 then at else -1);
  }

  method RemoveSomeSmallFilesAndCreateBigFile(volume: Volume, nrFiles: u32, horizon: nat)
      returns (outcome: Outcome, draws: nat, deleted: nat)
    requires volume.Valid()
    modifies volume`files, volume`free, volume`calls
    ensures volume.Valid() && volume.Total() == old(volume.Total())
    // The calls in order, and how the last of them decides the result.
    ensures DeletionMade(old(volume.calls), volume.calls, nrFiles, deleted, outcome)
    // Exactly the files drawn are gone, and retries are not counted.
    ensures Thinned(old(volume.files), volume.files, DrawnSoFar(nrFiles, draws), deleted)
    ensures deleted <= nrFiles / 3 && draws <= horizon
    ensures outcome == StillRunning ==> draws == horizon && deleted < nrFiles / 3
    ensures outcome == Returned(0) ==> deleted == nrFiles / 3 || (volume.faults && deleted == 1)
    ensures outcome == Returned(0) || outcome == StillRunning || (outcome == Returned(-1) && volume.faults)
    // Once something has been deleted, the big file has taken all the space.
    ensures !volume.faults && deleted > 0 ==>
      BigTookAll(volume.files, volume.free, volume.unit, volume.limit, old(volume.Total()))
    ensures deleted == 0 ==> volume.files == old(volume.files) && volume.free == old(volume.free)
    // With all the files present, PERIOD draws tell whether the loop ends at all.
    ensures !volume.faults && horizon >= PERIOD && FirstFiles(nrFiles) <= old(volume.files).Keys ==>
      (outcome == Returned(0) <==> Finishes(nrFiles))
  {
    ghost var fd, end;
    outcome, draws, deleted, fd, end := DeletionLoop(volume, nrFiles, horizon);
    DrainedTakesAll(volume, fd, end);
    EndsOrNever(old(volume.files), volume.files, nrFiles, draws, deleted);
  }

  /** With all files present, the deleted count decides whether the run finishes, at the latest after PERIOD draws. */
  lemma EndsOrNever(before: map<FileName, nat>, now: map<FileName, nat>, n: nat, draws: nat, deleted: nat)
    requires Thinned(before, now, DrawnSoFar(n, draws), deleted)
    ensures FirstFiles(n) <= before.Keys && deleted >= n / 3 ==> Finishes(n)
    ensures FirstFiles(n) <= before.Keys && deleted < n / 3 && draws >= PERIOD ==> !Finishes(n)
  {
    if FirstFiles(n) <= before.Keys && n > 0 {
      forall i | i in Drawn(n, draws)
        ensures i in SmallFiles(before)
      {
        DrawnRange(n, draws);
        assert Small(i) in FirstFiles(n);
      }
      assert SmallFiles(before) * Drawn(n, draws) == Drawn(n, draws);
      assert deleted == DrawnCount(n, draws);
      DrawnSaturates(n, draws);
      FinishesWithinPeriod(n);
    } else if n == 0 {
      FinishesWithinPeriod(n);
    }
  }

  lemma DrainedTakesAll(volume: Volume, fd: int, at: nat)
    requires volume.Valid() && (fd >= 0 ==> Drained(volume, at))
    ensures fd >= 0 && !volume.faults ==>
      BigTookAll(volume.files, volume.free, volume.unit, volume.limit, volume.Total())
  {
    if fd >= 0 && !volume.faults {
      NoRoom(volume, at);
    }
  }
}
