/** The stages around the deletion, and the command that runs them in order. */
module ReadTestCommand {
  import opened Blocks
  import opened Words
  import opened Modular
  import opened PseudoRandom
  import opened Draws
  import opened Deletion
  import opened Volumes
  import opened Calls
  import opened Thinning
  import opened FragmentedRead

  /** A new file on an otherwise unconstrained volume: when its content fits, and what is left if it does not. */
  lemma FreshFile(free: nat, unit: nat)
    requires unit > 0
    ensures SMALL_SIZE <= Span(free, unit) <==> BlockCount(SMALL_SIZE, unit) <= free
    ensures BlockCount(Span(free, unit), unit) == free
  {
    UnitsAtMost(SMALL_SIZE, unit, free);
    UnitsAtMost(Span(free, unit), unit, free);
    if free > 0 {
      UnitsAtMost(Span(free, unit), unit, free - 1);
    }
  }

  /** What opening small file i and writing its content leaves. */
  ghost predicate WroteSmall(before: map<FileName, nat>, now: map<FileName, nat>, i: nat, written: int) {
    && written <= SMALL_SIZE && Small(i) in now
    && now == before[Small(i) := now[Small(i)]]
    && (written == SMALL_SIZE ==> now[Small(i)] >= SMALL_SIZE)
    && (Small(i) !in before ==> now[Small(i)] == if written > 0 then written else 0)
  }

  /** Opens the next small file and writes its content. */
  method WriteSmallFile(volume: Volume, i: u32) returns (ok: bool, written: int)
    requires volume.Valid()
    modifies volume`files, volume`free, volume`calls
    ensures volume.Valid() && volume.Total() == old(volume.Total())
    ensures CreatesSmall(old(volume.calls), volume.calls, i, ok, written)
    ensures ok || volume.faults || !volume.directory
    ensures !ok ==> volume.files == old(volume.files)
    ensures ok ==> WroteSmall(old(volume.files), volume.files, i, written)
    ensures ok && Small(i) !in old(volume.files) && !volume.faults && !volume.partial ==>
      var u := BlockCount(SMALL_SIZE, volume.unit);
      if u <= old(volume.free) then written == SMALL_SIZE && volume.free == old(volume.free) - u
      else written != SMALL_SIZE && volume.free == 0
  {
    FreshFile(volume.free, volume.unit);
    ok := volume.Open(Small(i));
    written := 0;
    if ok {
      written := volume.Write(Small(i), 0, SMALL_SIZE);
    }
  }

  /** The first i small files are there and complete, except that the last need not be. */
  ghost predicate Filling(before: map<FileName, nat>, now: map<FileName, nat>, i: nat, complete: bool) {
    && (complete || i > 0)
    && (forall j: nat :: j < i ==> Small(j) in now)
    && (forall j: nat :: j < (if complete then i else i - 1) ==> now[Small(j)] >= SMALL_SIZE)
    && (before == map[] ==> OnlyFilled(now, i, complete))
  }

  /** There is nothing else, no file is too long, and an incomplete last file is short. */
  ghost predicate OnlyFilled(now: map<FileName, nat>, i: nat, complete: bool) {
    && (forall f :: f in now ==> f.Small? && f.index < i && now[f] <= SMALL_SIZE)
    && (!complete && i > 0 && Small(i - 1) in now ==> now[Small(i - 1)] < SMALL_SIZE)
  }

  lemma FillingStep(before: map<FileName, nat>, now: map<FileName, nat>, now': map<FileName, nat>, i: nat, written: int)
    requires Filling(before, now, i, true) && WroteSmall(now, now', i, written)
    ensures Filling(before, now', i + 1, written == SMALL_SIZE)
  {
  }

  /** What the free space says about the number of files when no write is short: u units a file. */
  ghost predicate SpaceFilled(free: nat, now: nat, u: nat, i: nat, complete: bool, left: nat) {
    if complete then now == left && Spent(free, u, i, left)
    else now == 0 && left < u && i > 0 && Spent(free, u, i - 1, left)
  }

  /** One turn of the filling loop. */
  method FillOne(volume: Volume, i: u32, ghost before: map<FileName, nat>, ghost free: nat, ghost left: nat,
                 ghost exact: bool)
      returns (ok: bool, written: int, ghost left': nat)
    requires volume.Valid() && Filling(before, volume.files, i, true)
    requires exact ==> before == map[] && volume.directory && !volume.faults && !volume.partial
    requires exact ==> SpaceFilled(free, volume.free, BlockCount(SMALL_SIZE, volume.unit), i, true, left)
    modifies volume`files, volume`free, volume`calls
    ensures volume.Valid() && volume.Total() == old(volume.Total())
    ensures CreatesSmall(old(volume.calls), volume.calls, i, ok, written)
    ensures ok || volume.faults || !volume.directory
    ensures ok ==> Filling(before, volume.files, i + 1, written == SMALL_SIZE)
    ensures ok && exact ==>
      SpaceFilled(free, volume.free, BlockCount(SMALL_SIZE, volume.unit), i + 1, written == SMALL_SIZE, left')
  {
    ghost var files := volume.files;
    ghost var u := BlockCount(SMALL_SIZE, volume.unit);
    ok, written := WriteSmallFile(volume, i);
    left' := left;
    if ok {
      FillingStep(before, files, volume.files, i, written);
      if exact && u <= left {
        SpentStep(free, u, i, left);
        left' := left - u;
      }
    }
  }

  /** The calls of the filling: complete files, and then one that cannot be opened or gets another number of bytes. */
  ghost predicate FillingMade(t0: Trace, t: Trace, full: nat, horizon: nat, outcome: Outcome) {
    match outcome
    case StillRunning => full == horizon && Fills(t0, t, full)
    case Returned(rv) =>
      if rv < 0 then rv == -1 && FillsUntilUnopened(t0, t, full) else rv == full + 1 && FillsUntilShort(t0, t, full)
  }

  /**
    * Writes small files until one cannot be written completely. The counter's `int` value is exact below
    * 2^31, which is as far as the model watches.
    */
  method FillDiskWithSmallFiles(volume: Volume, horizon: nat)
      returns (outcome: Outcome, ghost left: nat, ghost full: nat)
    requires volume.Valid() && horizon < 0x8000_0000
    modifies volume`files, volume`free, volume`calls
    ensures volume.Valid() && volume.Total() == old(volume.Total())
    // The calls in order, after how many complete files they end, and what that says about the result.
    ensures FillingMade(old(volume.calls), volume.calls, full, horizon, outcome)
    // All the files up to the returned number are there; all but the last are complete, and the last is not.
    ensures outcome.Returned? && outcome.rv >= 0 ==>
      1 <= outcome.rv <= horizon && Filling(old(volume.files), volume.files, outcome.rv, false)
    ensures outcome.Returned? && outcome.rv < 0 ==> outcome.rv == -1 && (volume.faults || !volume.directory)
    ensures outcome.Returned? && outcome.rv > 0 && old(volume.files) == map[] ==>
      forall j: nat :: j < outcome.rv - 1 ==> Small(j) in volume.files && volume.files[Small(j)] == 17
    // Without short writes the number of files follows from the free space, and none is left.
    ensures !volume.faults && !volume.partial && old(volume.files) == map[] && volume.directory ==>
      var u := BlockCount(SMALL_SIZE, volume.unit);
      if outcome == StillRunning then SpaceFilled(old(volume.free), volume.free, u, horizon, true, left)
      else outcome.rv > 0 && SpaceFilled(old(volume.free), volume.free, u, outcome.rv, false, left)
  {
    var i: u32 := 0;
    var written := SMALL_SIZE;
    left, full := volume.free, 0;
    ghost var exact := !volume.faults && !volume.partial && volume.files == map[] && volume.directory;
    while written == SMALL_SIZE
      invariant volume.Valid() && volume.Total() == old(volume.Total())
      invariant i <= horizon
      invariant FillsSoFar(old(volume.calls), volume.calls, i, full, written == SMALL_SIZE)
      invariant Filling(old(volume.files), volume.files, i, written == SMALL_SIZE)
      invariant exact ==> SpaceFilled(old(volume.free), volume.free, BlockCount(SMALL_SIZE, volume.unit), i,
        written == SMALL_SIZE, left)
      decreases horizon - i, written == SMALL_SIZE
    {
      if i == horizon {
        return StillRunning, left, full;
      }
      var ok;
      ghost var calls := volume.calls;
      ok, written, left := FillOne(volume, i, old(volume.files), old(volume.free), left, exact);
      AfterSmall(old(volume.calls), calls, volume.calls, i, full, ok, written);
      if !ok {
        return Returned(-1), left, full;
      }
      i := i + 1;
      full := if written == SMALL_SIZE then i else i - 1;
    }
    outcome := Returned(i);
  }

  /** n complete files of u units each have left this much of the free space. */
  ghost predicate Spent(free: nat, u: nat, n: nat, left: nat) {
    if n == 0 then free == left else free >= u && Spent(free - u, u, n - 1, left)
  }

  lemma {:induction false} SpentStep(free: nat, u: nat, n: nat, left: nat)
    requires Spent(free, u, n, left) && u <= left
    ensures Spent(free, u, n + 1, left - u)
  {
    if n > 0 {
      SpentStep(free - u, u, n - 1, left);
    }
  }

  /** Opening an existing or new big file at its start and filling it as far as the volume goes. */
  method CreateBigFile(volume: Volume) returns (rv: int, ghost end: nat)
    requires volume.Valid()
    modifies volume`files, volume`free, volume`calls
    ensures volume.Valid() && volume.Total() == old(volume.Total())
    ensures rv >= 0 && OpensAndDrains(old(volume.calls), volume.calls, rv == 0, end)
    ensures SameSmallFiles(old(volume.files), volume.files)
    ensures !volume.faults && old(volume.directory) ==>
      rv == 0 && BigTookAll(volume.files, volume.free, volume.unit, volume.limit, old(volume.Total()))
  {
    var ok := volume.Open(Big);
    end := 0;
    if !ok {
      // The function then returns the length of the path, which its caller takes for success.
      rv :| rv > 0;
      return;
    }
    end := Drain(volume, 0);
    if !volume.faults {
      NoRoom(volume, end);
    }
    rv := 0;
  }

  method CreateTestDir(volume: Volume) returns (rv: int)
    requires volume.Valid()
    modifies volume`directory, volume`calls
    ensures volume.Valid() && MakesDir(old(volume.calls), volume.calls, rv)
    ensures rv == 0 || (rv == -1 && volume.faults && volume.directory == old(volume.directory))
    ensures rv == 0 ==> volume.directory
  {
    var errno := volume.MakeDirectory();
    rv := if errno != NoError && errno != EEXIST then -1 else 0;
  }

  const TRIES: nat := 6
  const READ_BLOCK: nat := 8192

  /** Six tries, and the same number of bytes in each. */
  predicate SixTimes(totals: seq<nat>, bytes: int) {
    |totals| == 6 && forall t :: 0 <= t < 6 ==> totals[t] == bytes
  }

  /** A read has given nothing, and that ends a try. */
  predicate TryEnded(t: Trace) {
    t.Then? && t.last.Got? && t.last.result <= 0
  }

  /** Within a try: the big file is read on from this position. */
  predicate ReadsOn(t: Trace, at: nat) {
    && t.Then?
    && if t.last == OpenedToRead(Big, true) then at == 0
       else t.last.Got? && t.last.result > 0 && t.last.at + t.last.result == at
  }

  /** The rest of a try after the file has been opened. */
  method ReadToEnd(volume: Volume, ghost start: Trace) returns (totalFile: nat)
    requires volume.Valid() && Big in volume.files
    requires Reads(start, volume.calls) && volume.calls != start && ReadsOn(volume.calls, 0)
    modifies volume`calls
    ensures volume.Valid() && volume.Total() == old(volume.Total())
    ensures Reads(start, volume.calls) && volume.calls != start && TryEnded(volume.calls)
    ensures Totals(start, volume.calls) == Totals(start, old(volume.calls)) + [totalFile]
    ensures totalFile <= volume.files[Big] && (!volume.faults ==> totalFile == volume.files[Big])
  {
    totalFile := 0;
    while true
      invariant volume.Valid() && totalFile <= volume.files[Big]
      invariant Reads(start, volume.calls) && volume.calls != start && ReadsOn(volume.calls, totalFile)
      invariant Totals(start, volume.calls) == Totals(start, old(volume.calls))
      decreases volume.files[Big] - totalFile
    {
      ghost var before := volume.calls;
      var rd := volume.Read(Big, totalFile, READ_BLOCK);
      NextRead(start, before, Got(Big, totalFile, READ_BLOCK, rd));
      if rd <= 0 {
        break;
      }
      totalFile := totalFile + rd;
    }
  }

  /** One try: opens the big file, if that succeeds, and reads it to its end. */
  method ReadOnce(volume: Volume, ghost start: Trace) returns (ok: bool, totalFile: nat)
    requires volume.Valid()
    requires Reads(start, volume.calls) && (volume.calls == start || TryEnded(volume.calls))
    modifies volume`calls
    ensures volume.Valid() && volume.Total() == old(volume.Total())
    ensures Reads(start, volume.calls) && volume.calls != start
    ensures if ok then Big in volume.files else volume.faults || Big !in volume.files
    ensures !ok ==>
      && volume.calls == Then(old(volume.calls), OpenedToRead(Big, false))
      && Totals(start, volume.calls) == Totals(start, old(volume.calls))
    ensures ok ==>
      && TryEnded(volume.calls) && Totals(start, volume.calls) == Totals(start, old(volume.calls)) + [totalFile]
      && totalFile <= volume.files[Big] && (!volume.faults ==> totalFile == volume.files[Big])
  {
    ok := volume.OpenForReading(Big);
    NextRead(start, old(volume.calls), OpenedToRead(Big, ok));
    totalFile := 0;
    if ok {
      totalFile := ReadToEnd(volume, start);
    }
  }

  /**
    * Reads the big file six times, if there is memory for the blocks; returns how many bytes each try has read.
    * A read error ends its try like the end of the file.
    */
  method CheckReadSpeedOfBigFile(volume: Volume, memory: bool) returns (rv: int, totals: seq<nat>)
    requires volume.Valid()
    modifies volume`calls
    ensures volume.Valid() && volume.Total() == old(volume.Total())
    ensures rv >= -1 && (rv == -1 <==> !memory)
    ensures !memory ==> totals == [] && volume.calls == old(volume.calls)
    ensures memory ==> ReadsBig(old(volume.calls), volume.calls, totals) && (rv == 0 <==> |totals| == 6)
    // A try reads no more than there is, and without faults all of it.
    ensures rv == 0 ==> Big in volume.files
    ensures rv > 0 ==> volume.faults || Big !in volume.files
    ensures totals != [] ==> Big in volume.files
    ensures forall t :: 0 <= t < |totals| ==> totals[t] <= volume.files[Big]
    ensures !volume.faults ==> forall t :: 0 <= t < |totals| ==> totals[t] == volume.files[Big]
    ensures !volume.faults && Big !in volume.files ==> totals == []
  {
    totals := [];
    if !memory {
      return -1, totals;
    }
    ghost var start := volume.calls;
    for try := 0 to TRIES
      invariant volume.Valid() && volume.Total() == old(volume.Total())
      invariant Totals(start, volume.calls) == totals && Reads(start, volume.calls)
      invariant |totals| == try
      invariant if try == 0 then volume.calls == start else volume.calls != start && TryEnded(volume.calls)
      invariant try > 0 ==> Big in volume.files
      invariant forall t :: 0 <= t < try ==> totals[t] <= volume.files[Big]
      invariant !volume.faults ==> forall t :: 0 <= t < try ==> totals[t] == volume.files[Big]
    {
      var ok, totalFile := ReadOnce(volume, start);
      if !ok {
        // The function then returns the length of the path, which its caller takes for success.
        rv :| rv > 0;
        return;
      }
      totals := totals + [totalFile];
    }
    rv := 0;
  }

  /** The files without the small ones numbered below n. */
  ghost function From(files: map<FileName, nat>, n: nat): map<FileName, nat> {
    map f | f in files && (f == Big || f.index >= n) :: files[f]
  }

  lemma FromStep(files: map<FileName, nat>, n: nat)
    ensures From(files, n + 1) == From(files, n) - {Small(n)}
    ensures From(files, 0) == files
  {
  }

  /** The files that a cleanup for n small files leaves behind. */
  ghost function Leftover(files: map<FileName, nat>, n: nat): map<FileName, nat> {
    From(files, n) - {Big}
  }

  /** What is left when the removal of some files has failed: those as well. */
  ghost function Kept(files: map<FileName, nat>, n: nat, failed: set<FileName>): map<FileName, nat> {
    map f | f in files && (f in Leftover(files, n) || f in failed) :: files[f]
  }

  /** After the first n small files: those numbered from n on, the big file, and those whose removal failed. */
  ghost predicate Swept(before: map<FileName, nat>, now: map<FileName, nat>, n: nat, failed: set<FileName>) {
    now == map f | f in before && (f in From(before, n) || f in failed) :: before[f]
  }

  lemma SweptNext(before: map<FileName, nat>, now: map<FileName, nat>, now': map<FileName, nat>, i: nat,
                  failed: set<FileName>, errno: Errno)
    requires Swept(before, now, i, failed) && Small(i) !in failed
    requires if errno == NoError then Small(i) in now && now' == now - {Small(i)} else now' == now
    requires errno == ENOENT ==> Small(i) !in now
    ensures Swept(before, now', i + 1, failed + if errno != NoError && errno != ENOENT then {Small(i)} else {})
  {
  }

  lemma SweptAll(before: map<FileName, nat>, now: map<FileName, nat>, now': map<FileName, nat>, n: nat,
                 failed: set<FileName>, errno: Errno)
    requires Swept(before, now, n, failed) && Big !in failed
    requires if errno == NoError then Big in now && now' == now - {Big} else now' == now
    requires errno == ENOENT ==> Big !in now
    ensures now' == Kept(before, n, failed + if errno != NoError && errno != ENOENT then {Big} else {})
  {
  }

  lemma KeptWithoutFailures(files: map<FileName, nat>, n: nat)
    ensures Kept(files, n, {}) == Leftover(files, n)
  {
  }

  ghost predicate NamesBelow(names: set<FileName>, i: nat) {
    forall f :: f in names ==> f.Small? && f.index < i
  }

  lemma NextName(names: set<FileName>, i: nat, failed: bool)
    requires NamesBelow(names, i)
    ensures Small(i) !in names && Big !in names && NamesBelow(names + if failed then {Small(i)} else {}, i + 1)
  {
  }

  /** The loop of the cleanup over the small files. */
  method RemoveSmallFiles(volume: Volume, nrFiles: u32) returns (error: int)
    requires volume.Valid()
    modifies volume`files, volume`free, volume`calls
    ensures volume.Valid() && volume.Total() == old(volume.Total())
    ensures Removes(old(volume.calls), volume.calls, nrFiles)
    ensures error == if SomethingFailed(old(volume.calls), volume.calls) then -1 else 0
    ensures Swept(old(volume.files), volume.files, nrFiles, FailedNames(old(volume.calls), volume.calls))
    ensures Big !in FailedNames(old(volume.calls), volume.calls)
    ensures !volume.faults ==> error == 0 && FailedNames(old(volume.calls), volume.calls) == {}
  {
    error := 0;
    ghost var start := volume.calls;
    FromStep(volume.files, 0);
    for i := 0 to nrFiles
      invariant volume.Valid() && volume.Total() == old(volume.Total())
      invariant Removes(start, volume.calls, i) && error == if SomethingFailed(start, volume.calls) then -1 else 0
      invariant Swept(old(volume.files), volume.files, i, FailedNames(start, volume.calls))
      invariant NamesBelow(FailedNames(start, volume.calls), i)
      invariant !volume.faults ==> error == 0 && FailedNames(start, volume.calls) == {}
    {
      ghost var before, files := volume.calls, volume.files;
      var errno := RemoveSmallFile(volume, i);
      RemovesExtends(start, before, i);
      NextCleanup(start, before, Unlinked(Small(i), errno));
      NextName(FailedNames(start, before), i, errno != NoError && errno != ENOENT);
      SweptNext(old(volume.files), files, volume.files, i, FailedNames(start, before), errno);
      if errno != NoError && errno != ENOENT {
        error := -1;
      }
    }
  }

  method DoCleanup(volume: Volume, nrFiles: u32) returns (error: int)
    requires volume.Valid()
    modifies volume
    ensures volume.Valid() && volume.Total() == old(volume.Total())
    ensures error == 0 || error == -1
    // Everything is tried, whatever fails.
    ensures CleansUp(old(volume.calls), volume.calls, nrFiles, error)
    // Left are the files that are not meant and those whose removal failed.
    ensures volume.files == Kept(old(volume.files), nrFiles, FailedNames(old(volume.calls), volume.calls))
    // Success means that nothing is left, whatever failed or was there before.
    ensures error == 0 ==> !volume.directory && volume.files == map[]
    ensures !volume.faults ==>
      && volume.files == Leftover(old(volume.files), nrFiles)
      && (error == 0 <==> old(volume.directory) && Leftover(old(volume.files), nrFiles) == map[])
  {
    ghost var start := volume.calls;
    error := RemoveSmallFiles(volume, nrFiles);
    ghost var before, files := volume.calls, volume.files;
    RemovesExtends(start, before, nrFiles);
    var errno := volume.Unlink(Big);
    NextCleanup(start, before, Unlinked(Big, errno));
    SweptAll(old(volume.files), files, volume.files, nrFiles, FailedNames(start, before), errno);
    KeptWithoutFailures(old(volume.files), nrFiles);
    before := volume.calls;
    if errno != NoError && errno != ENOENT {
      error := -1;
    }
    errno := volume.RemoveDirectory();
    NextCleanup(start, before, Rmdir(errno));
    if errno != NoError {
      error := -1;
    }
  }

  /** How many small files the program creates on a volume with this many free units: the complete ones and one more. */
  function FileCount(free: nat, u: nat): nat
    requires u > 0
  {
    WholeBlocks(free, u) + 1
  }

  lemma FileCountIsQuotient(free: nat, u: nat)
    requires u > 0
    ensures FileCount(free, u) == free / u + 1
  {
    var q := WholeBlocks(free, u);
    WholeBlocksBounds(free, u);
    SpanIsProduct(q, u);
    ModUnique(free, u, q, free - q * u);
  }

  lemma {:induction false} SpentCount(free: nat, u: nat, n: nat, left: nat)
    requires u > 0 && Spent(free, u, n, left)
    ensures FileCount(free, u) == n + FileCount(left, u)
  {
    if n > 0 {
      SpentCount(free - u, u, n - 1, left);
    }
  }

  lemma EmptyTotal(volume: Volume)
    requires volume.Valid() && volume.files == map[]
    ensures volume.Total() == volume.free
  {
    NoSmallUnits(volume.files, volume.unit, volume.limit);
  }

  /** The big file takes what it had and what is free. */
  lemma TakesFree(before: map<FileName, nat>, now: map<FileName, nat>, free: nat, unit: nat, limit: nat, total: nat)
    requires unit > 0 && SameSmallFiles(before, now) && total == UnitTotal(before, free, unit, limit)
    requires BigTookAll(now, 0, unit, limit, total)
    ensures now[Big] == (UnitsOf(before, Big, unit) + free) * unit
  {
    OneFileChanged(before, now, Big, unit, limit);
    SpanIsProduct(UnitsOf(now, Big, unit), unit);
  }

  lemma SameLeftover(before: map<FileName, nat>, now: map<FileName, nat>, n: nat)
    requires SameSmallFiles(before, now)
    ensures Leftover(before, n) == Leftover(now, n)
  {
  }

  /** The traces between the stages of the first half, where the big file's writing ended, and the result. */
  datatype FirstHalf = FirstHalf(dir: Trace, big: Trace, end: nat, read: Trace, rv: int)

  /** Its calls: each stage runs unless one before it has returned a negative number. */
  ghost predicate FirstHalfMade(t0: Trace, t: Trace, h: FirstHalf, memory: bool, totals: seq<nat>) {
    if MakesDir(t0, h.dir, 0) then
      && (exists ok :: OpensAndDrains(h.dir, h.big, ok, h.end))
      && if memory then ReadsBig(h.big, h.read, totals) && CleansUp(h.read, t, 0, h.rv)
         else t == h.big && h.rv == -1 && totals == []
    else
      MakesDir(t0, t, -1) && h.rv == -1 && totals == []
  }

  /** The first half: a big file on the otherwise empty volume, read and removed again. */
  method TestNonFragmented(volume: Volume, memory: bool) returns (rv: int, totals: seq<nat>, ghost half: FirstHalf)
    requires volume.Valid()
    modifies volume
    ensures volume.Valid() && volume.Total() == old(volume.Total())
    ensures rv == half.rv && FirstHalfMade(old(volume.calls), volume.calls, half, memory, totals)
    ensures rv == 0 || rv == -1
    ensures rv == 0 ==> !volume.directory && volume.files == map[]
    // Without faults, the big file has all the free space in every try, and only it is removed; the result tells
    // whether it was alone.
    ensures !volume.faults && memory ==>
      && SixTimes(totals, (UnitsOf(old(volume.files), Big, volume.unit) + old(volume.free)) * volume.unit)
      && volume.files == Leftover(old(volume.files), 0)
      && (rv == 0 <==> Leftover(old(volume.files), 0) == map[])
    // Without memory for the blocks, it stays.
    ensures !volume.faults && !memory ==>
      rv == -1 && Big in volume.files && Leftover(volume.files, 0) == Leftover(old(volume.files), 0)
    ensures !volume.faults && memory && old(volume.files) == map[] ==> volume.free == old(volume.free)
  {
    totals := [];
    ghost var files, free := volume.files, volume.free;
    if files == map[] {
      EmptyTotal(volume);
    }
    half := FirstHalf(volume.calls, volume.calls, 0, volume.calls, -1);
    rv := CreateTestDir(volume);
    half := half.(dir := volume.calls);
    if rv < 0 {
      return;
    }
    ghost var end;
    rv, end := CreateBigFile(volume);
    half := half.(big := volume.calls, end := end);
    assert OpensAndDrains(half.dir, half.big, rv == 0, half.end);
    SameLeftover(files, volume.files, 0);
    if rv < 0 {
      return;
    }
    if !volume.faults {
      TakesFree(files, volume.files, free, volume.unit, volume.limit, volume.Total());
    }
    rv, totals := CheckReadSpeedOfBigFile(volume, memory);
    half := half.(read := volume.calls);
    if rv < 0 {
      return;
    }
    rv := DoCleanup(volume, 0);
    half := half.(rv := rv);
    if rv == 0 {
      EmptyTotal(volume);
    }
  }

  /** The fragmented volume: a third of n files gone, the big file in all the space they left. */
  ghost predicate Fragmented(volume: Volume, before: map<FileName, nat>, total: nat, n: nat, draws: nat, deleted: nat)
    requires volume.Valid()
    reads volume
  {
    && Thinned(before, volume.files, DrawnSoFar(n, draws), deleted)
    && (!volume.faults ==> deleted == n / 3)
    && (!volume.faults && deleted > 0 ==> BigTookAll(volume.files, volume.free, volume.unit, volume.limit, total))
    && (deleted == 0 ==> volume.files == before)
  }

  /** The deletion of the second half: its trace and result, how many are deleted, the files then, and the reading. */
  datatype Fragmentation =
    Fragmentation(trace: Trace, result: Outcome, deleted: nat, files: map<FileName, nat>, read: Trace)

  /** The calls after the deletion. Without memory there are none. */
  ghost predicate ReadingAndCleanup(t0: Trace, t: Trace, read: Trace, n: nat, cleanup: bool, memory: bool,
                                    totals: seq<nat>, rv: int) {
    if !memory then t == t0 && rv == -1 && totals == []
    else ReadsBig(t0, read, totals) && if cleanup then CleansUp(read, t, n, rv) else t == read && rv == 0
  }

  /** The calls from the deletion on: the rest follows only a deletion that returns 0. */
  ghost predicate DeletionAndReading(t0: Trace, t: Trace, d: Fragmentation, n: nat, cleanup: bool, memory: bool,
                                     totals: seq<nat>, outcome: Outcome) {
    && DeletionMade(t0, d.trace, n, d.deleted, d.result)
    && if d.result != Returned(0) then t == d.trace && outcome == d.result && totals == []
       else outcome.Returned? && ReadingAndCleanup(d.trace, t, d.read, n, cleanup, memory, totals, outcome.rv)
  }

  /** What each try reads: the big file, with all units that were its own or free and those of the deleted files. */
  ghost predicate ReadsTheGaps(before: map<FileName, nat>, free: nat, now: map<FileName, nat>, totals: seq<nat>,
                               unit: nat, limit: nat)
    requires unit > 0
  {
    SixTimes(totals, (UnitsOf(before, Big, unit) + free + SmallUnits(Gone(before, now), unit, limit)) * unit)
  }

  /** After the deletion: reads the big file, cleans up. */
  method ReadAndCleanUp(volume: Volume, nrFiles: u32, cleanup: bool, memory: bool)
      returns (rv: int, totals: seq<nat>, ghost read: Trace)
    requires volume.Valid()
    modifies volume
    ensures volume.Valid() && volume.Total() == old(volume.Total())
    ensures ReadingAndCleanup(old(volume.calls), volume.calls, read, nrFiles, cleanup, memory, totals, rv)
    ensures rv == 0 || rv == -1
    ensures cleanup && rv == 0 ==> !volume.directory && volume.files == map[]
    ensures !cleanup || !memory ==> volume.files == old(volume.files) && volume.free == old(volume.free)
    ensures !volume.faults && memory && Big in old(volume.files) ==>
      SixTimes(totals, old(volume.files)[Big])
    ensures !volume.faults && memory && old(volume.directory) && Leftover(old(volume.files), nrFiles) == map[] ==>
      rv == 0
  {
    rv, totals := CheckReadSpeedOfBigFile(volume, memory);
    read := volume.calls;
    if rv < 0 {
      return;
    }
    rv := 0;
    if cleanup {
      rv := DoCleanup(volume, nrFiles);
    }
  }

  lemma GapsRead(before: map<FileName, nat>, free: nat, now: map<FileName, nat>, drawn: set<int>, deleted: nat,
                 unit: nat, limit: nat, totals: seq<nat>)
    requires unit > 0 && Thinned(before, now, drawn, deleted)
    requires BigTookAll(now, 0, unit, limit, UnitTotal(before, free, unit, limit))
    requires SixTimes(totals, now[Big])
    ensures ReadsTheGaps(before, free, now, totals, unit, limit)
  {
    BigFileGrowth(before, free, now, drawn, deleted, unit, limit);
  }

  /** After the filling: deletes, reads the big file, cleans up. */
  method FragmentAndRead(volume: Volume, nrFiles: u32, cleanup: bool, memory: bool, drawHorizon: nat)
      returns (outcome: Outcome, totals: seq<nat>, ghost draws: nat, ghost d: Fragmentation)
    requires volume.Valid()
    modifies volume
    ensures volume.Valid() && volume.Total() == old(volume.Total())
    ensures DeletionAndReading(old(volume.calls), volume.calls, d, nrFiles, cleanup, memory, totals, outcome)
    ensures Thinned(old(volume.files), d.files, DrawnSoFar(nrFiles, draws), d.deleted)
    ensures !volume.faults ==> d.result == StillRunning || (d.result == Returned(0) && d.deleted == nrFiles / 3)
    // The fragmented file is read, unless there is no memory; then nothing is cleaned up either.
    ensures !volume.faults && d.result == Returned(0) && memory && d.deleted > 0 ==>
      ReadsTheGaps(old(volume.files), old(volume.free), d.files, totals, volume.unit, volume.limit)
    ensures !cleanup || !memory ==> volume.files == d.files
    ensures (!cleanup || !memory) && d.result == Returned(0) ==>
      && Fragmented(volume, old(volume.files), volume.Total(), nrFiles, draws, d.deleted)
      && (d.deleted == 0 ==> volume.free == old(volume.free))
    ensures cleanup && outcome == Returned(0) ==> !volume.directory && volume.files == map[]
    ensures outcome.Returned? ==> outcome.rv == 0 || outcome.rv == -1
    ensures !volume.faults && old(volume.directory) && drawHorizon >= PERIOD
            && FirstFiles(nrFiles) <= old(volume.files).Keys && Leftover(old(volume.files), nrFiles) == map[] ==>
      outcome == if !Finishes(nrFiles) then StillRunning else if memory then Returned(0) else Returned(-1)
  {
    totals := [];
    ghost var deleted;
    outcome, draws, deleted := RemoveSomeSmallFilesAndCreateBigFile(volume, nrFiles, drawHorizon);
    d := Fragmentation(volume.calls, outcome, deleted, volume.files, volume.calls);
    if outcome != Returned(0) {
      return;
    }
    NothingNewLeft(old(volume.files), volume.files, nrFiles);
    var rv;
    ghost var read;
    rv, totals, read := ReadAndCleanUp(volume, nrFiles, cleanup, memory);
    d := d.(read := read);
    if !volume.faults && memory && deleted > 0 {
      GapsRead(old(volume.files), old(volume.free), d.files, DrawnSoFar(nrFiles, draws), deleted, volume.unit,
               volume.limit, totals);
    }
    outcome := Returned(rv);
  }

  lemma NothingNewLeft(before: map<FileName, nat>, now: map<FileName, nat>, n: nat)
    requires forall f :: f in now && f != Big ==> f in before
    ensures Leftover(before, n) == map[] ==> Leftover(now, n) == map[]
  {
    assert Leftover(now, n).Keys <= Leftover(before, n).Keys;
  }

  lemma {:induction false} FirstIndices(files: map<FileName, nat>, n: nat)
    requires forall i: nat :: i < n <==> Small(i) in files
    ensures |SmallFiles(files)| == n
    decreases n
  {
    if n == 0 {
      assert SmallFiles(files) == {};
    } else {
      var fewer := files - {Small(n - 1)};
      FirstIndices(fewer, n - 1);
      assert (n - 1) in SmallFiles(files);
      assert SmallFiles(files) == SmallFiles(fewer) + {n - 1};
    }
  }

  lemma FilledFiles(files: map<FileName, nat>, i: nat)
    requires Filling(map[], files, i, false)
    ensures FirstFiles(i) <= files.Keys && Leftover(files, i) == map[]
  {
  }

  /** Of n files, two thirds are left, rounded up. */
  lemma FilesLeft(files: map<FileName, nat>, now: map<FileName, nat>, n: nat, draws: nat)
    requires Filling(map[], files, n, false) && Thinned(files, now, DrawnSoFar(n, draws), n / 3)
    ensures |SmallFiles(now)| == n - n / 3
  {
    FirstIndices(files, n);
    ThinnedCount(files, now, DrawnSoFar(n, draws), n / 3);
  }

  // ---------- How much the fragmented file holds ----------

  /** How many of the numbers below i are drawn. */
  ghost function DrawnBelow(drawn: set<int>, i: nat): nat {
    if i == 0 then 0 else DrawnBelow(drawn, i - 1) + if i - 1 in drawn then 1 else 0
  }

  ghost function Below(drawn: set<int>, i: nat): set<int> {
    set j | j in drawn && 0 <= j < i
  }

  lemma BelowNext(drawn: set<int>, i: nat)
    ensures Below(drawn, i + 1) == Below(drawn, i) + if i in drawn then {i} else {}
  {
  }

  lemma {:induction false} DrawnBelowIs(drawn: set<int>, i: nat)
    ensures DrawnBelow(drawn, i) == |Below(drawn, i)|
  {
    if i == 0 {
      assert Below(drawn, 0) == {};
    } else {
      DrawnBelowIs(drawn, i - 1);
      BelowNext(drawn, i - 1);
    }
  }

  /** All of the first n files are of u units, but the last may have less. */
  ghost predicate Sized(files: map<FileName, nat>, n: nat, u: nat, unit: nat, last: nat)
    requires unit > 0
  {
    && n > 0 && (forall j: nat :: Small(j) in files <==> j < n)
    && (forall j: nat :: j < n - 1 ==> BlockCount(files[Small(j)], unit) == u)
    && BlockCount(files[Small(n - 1)], unit) == last
  }

  /** The units of those that are drawn. */
  lemma {:induction false} DrawnUnits(files: map<FileName, nat>, now: map<FileName, nat>, drawn: set<int>, n: nat,
                                      u: nat, unit: nat, last: nat, i: nat)
    requires unit > 0 && Sized(files, n, u, unit, last) && i < n
    requires forall j: nat :: Small(j) in now <==> Small(j) in files && j !in drawn
    ensures SmallUnits(Gone(files, now), unit, i) == Span(DrawnBelow(drawn, i), u)
  {
    if i > 0 {
      DrawnUnits(files, now, drawn, n, u, unit, last, i - 1);
    }
  }

  lemma {:induction false} NothingBeyond(files: map<FileName, nat>, unit: nat, n: nat, limit: nat)
    requires unit > 0 && n <= limit && forall j: nat :: Small(j) in files ==> j < n
    ensures SmallUnits(files, unit, limit) == SmallUnits(files, unit, n)
  {
    if n < limit {
      NothingBeyond(files, unit, n, limit - 1);
    }
  }

  /** How many units the deleted third of n files of u units had; the last file had less. */
  function GapUnits(n: nat, u: nat, last: nat, lastDrawn: bool): nat
    requires n >= 3
  {
    if lastDrawn then Span(n / 3 - 1, u) + last else Span(n / 3, u)
  }

  lemma StillThere(files: map<FileName, nat>, now: map<FileName, nat>, drawn: set<int>, deleted: nat, j: nat)
    requires Thinned(files, now, drawn, deleted)
    ensures Small(j) in now <==> Small(j) in files && j !in drawn
  {
    assert j in SmallFiles(now) <==> Small(j) in now;
    assert j in SmallFiles(files) <==> Small(j) in files;
  }

  /** All that is drawn is deleted. */
  lemma AllDrawn(files: map<FileName, nat>, drawn: set<int>, n: nat)
    requires (forall j: nat :: j < n ==> Small(j) in files) && forall j :: j in drawn ==> 0 <= j < n
    ensures DrawnBelow(drawn, n) == |SmallFiles(files) * drawn|
  {
    DrawnBelowIs(drawn, n);
    forall j | j in drawn
      ensures j in SmallFiles(files)
    {
      assert Small(j) in files;
    }
    assert Below(drawn, n) == SmallFiles(files) * drawn;
  }

  lemma CompleteGone(files: map<FileName, nat>, now: map<FileName, nat>, drawn: set<int>, n: nat, u: nat, unit: nat,
                     last: nat, deleted: nat)
    requires unit > 0 && Sized(files, n, u, unit, last) && Thinned(files, now, drawn, deleted)
    ensures SmallUnits(Gone(files, now), unit, n - 1) == Span(DrawnBelow(drawn, n - 1), u)
  {
    forall j: nat
      ensures Small(j) in now <==> Small(j) in files && j !in drawn
    {
      StillThere(files, now, drawn, deleted, j);
    }
    DrawnUnits(files, now, drawn, n, u, unit, last, n - 1);
  }

  lemma GapsOfSized(files: map<FileName, nat>, now: map<FileName, nat>, drawn: set<int>, n: nat, u: nat, unit: nat,
                    last: nat, limit: nat)
    requires unit > 0 && Sized(files, n, u, unit, last) && n >= 3 && n <= limit
    requires Thinned(files, now, drawn, n / 3) && forall j :: j in drawn ==> 0 <= j < n
    ensures SmallUnits(Gone(files, now), unit, limit) == GapUnits(n, u, last, n - 1 in drawn)
  {
    var k := DrawnBelow(drawn, n - 1);
    CompleteGone(files, now, drawn, n, u, unit, last, n / 3);
    GoneBeyond(files, now, unit, n, limit);
    AllDrawn(files, drawn, n);
    LastOfGone(files, now, unit, n - 1);
    StillThere(files, now, drawn, n / 3, n - 1);
    GapSum(n, u, last, k, n - 1 in drawn);
  }

  lemma GapSum(n: nat, u: nat, last: nat, k: nat, lastDrawn: bool)
    requires n >= 3 && n / 3 == k + if lastDrawn then 1 else 0
    ensures Span(k, u) + (if lastDrawn then last else 0) == GapUnits(n, u, last, lastDrawn)
  {
  }

  lemma GoneBeyond(files: map<FileName, nat>, now: map<FileName, nat>, unit: nat, n: nat, limit: nat)
    requires unit > 0 && n <= limit && forall j: nat :: Small(j) in files ==> j < n
    ensures SmallUnits(Gone(files, now), unit, limit) == SmallUnits(Gone(files, now), unit, n)
  {
    NothingBeyond(Gone(files, now), unit, n, limit);
  }

  lemma LastOfGone(files: map<FileName, nat>, now: map<FileName, nat>, unit: nat, i: nat)
    requires unit > 0 && Small(i) in files
    ensures SmallUnits(Gone(files, now), unit, i + 1)
         == SmallUnits(Gone(files, now), unit, i) + if Small(i) in now then 0 else BlockCount(files[Small(i)], unit)
  {
  }

  lemma {:induction false} SpentSpan(free: nat, u: nat, n: nat, left: nat)
    requires Spent(free, u, n, left)
    ensures free == Span(n, u) + left
  {
    if n > 0 {
      SpentSpan(free - u, u, n - 1, left);
      SpanFront(n - 1, u);
    }
  }

  lemma {:induction false} CompleteUnits(files: map<FileName, nat>, unit: nat, i: nat)
    requires unit > 0 && forall j: nat :: j < i ==> Small(j) in files && files[Small(j)] == SMALL_SIZE
    ensures SmallUnits(files, unit, i) == Span(i, BlockCount(SMALL_SIZE, unit))
  {
    if i > 0 {
      CompleteUnits(files, unit, i - 1);
    }
  }

  /** Filled without short writes, the last file has the units that are too few for a complete one. */
  lemma FilledIsSized(files: map<FileName, nat>, n: nat, free: nat, unit: nat, limit: nat, left: nat)
    requires unit > 0 && n <= limit && Filling(map[], files, n, false)
    requires Spent(free, BlockCount(SMALL_SIZE, unit), n - 1, left)
    requires UnitTotal(files, 0, unit, limit) == free
    ensures Sized(files, n, BlockCount(SMALL_SIZE, unit), unit, left)
  {
    CompleteUnits(files, unit, n - 1);
    NothingBeyond(files, unit, n, limit);
    SpentSpan(free, BlockCount(SMALL_SIZE, unit), n - 1, left);
    assert Small(n - 1) in files && Big !in files;
    assert SmallUnits(files, unit, n) == SmallUnits(files, unit, n - 1) + BlockCount(files[Small(n - 1)], unit);
  }

  lemma LeftIsRemainder(free: nat, u: nat, n: nat, left: nat)
    requires Spent(free, u, n, left) && left < u
    ensures left == free % u
  {
    SpentSpan(free, u, n, left);
    SpanIsProduct(n, u);
    ModUnique(free, u, n, left);
  }

  /** What the deletion of a third leaves and frees. */
  lemma AfterFilling(files: map<FileName, nat>, now: map<FileName, nat>, n: nat, draws: nat, u: nat, unit: nat,
                     left: nat, limit: nat, totals: seq<nat>)
    requires unit > 0 && n <= limit && Sized(files, n, u, unit, left) && Filling(map[], files, n, false)
    requires Thinned(files, now, DrawnSoFar(n, draws), n / 3)
    ensures |SmallFiles(now)| == n - n / 3
    ensures n >= 3 && ReadsTheGaps(files, 0, now, totals, unit, limit) ==>
      SixTimes(totals, GapUnits(n, u, left, n - 1 in DrawnSoFar(n, draws)) * unit)
  {
    FilesLeft(files, now, n, draws);
    if n >= 3 {
      DrawnRange(n, draws);
      GapsOfSized(files, now, DrawnSoFar(n, draws), n, u, unit, left, limit);
    }
  }

  // ---------- The second half and the whole command ----------

  /** The traces and results between the stages of the second half. */
  datatype SecondHalf = SecondHalf(dir: Trace, filled: Trace, full: nat, filling: Outcome, d: Fragmentation)

  /** Its calls: each stage runs only if those before it have come to an end without a negative result. */
  ghost predicate SecondHalfMade(t0: Trace, t: Trace, h: SecondHalf, fillHorizon: nat, cleanup: bool, memory: bool,
                                 totals: seq<nat>, outcome: Outcome) {
    if MakesDir(t0, h.dir, 0) then
      && FillingMade(h.dir, h.filled, h.full, fillHorizon, h.filling)
      && if h.filling == StillRunning || h.filling.rv < 0 then t == h.filled && outcome == h.filling && totals == []
         else DeletionAndReading(h.filled, t, h.d, h.filling.rv, cleanup, memory, totals, outcome)
    else
      MakesDir(t0, t, -1) && outcome == Returned(-1) && totals == []
  }

  /** An empty volume without faults and short writes, watched long enough for n files. */
  ghost predicate Exact(volume: Volume, n: nat, fillHorizon: nat)
    reads volume
  {
    !volume.faults && !volume.partial && volume.files == map[] && n <= fillHorizon
  }

  /** What the filling then leaves: n files, the last one of the units that are too few for another complete one. */
  ghost predicate ExactlyFilled(volume: Volume, n: nat, u: nat, left: nat)
    requires volume.unit > 0
    reads volume
  {
    && volume.directory && volume.free == 0 && Filling(map[], volume.files, n, false)
    && Sized(volume.files, n, u, volume.unit, left)
  }

  /** The first stages of the second half. */
  method MakeAndFill(volume: Volume, fillHorizon: nat)
      returns (filled: Outcome, ghost dir: Trace, ghost filling: Outcome, ghost full: nat)
    requires volume.Valid() && fillHorizon < 0x8000_0000
    modifies volume
    ensures volume.Valid() && volume.Total() == old(volume.Total())
    ensures filled == StillRunning || filled == Returned(-1) || (filled.Returned? && 1 <= filled.rv <= fillHorizon)
    ensures if MakesDir(old(volume.calls), dir, 0)
            then filling == filled && FillingMade(dir, volume.calls, full, fillHorizon, filled)
            else MakesDir(old(volume.calls), volume.calls, -1) && filled == Returned(-1)
    ensures var u := BlockCount(SMALL_SIZE, volume.unit); var n := FileCount(old(volume.free), u);
      old(Exact(volume, n, fillHorizon)) ==>
        filled == Returned(n) && ExactlyFilled(volume, n, u, old(volume.free) % u)
  {
    filling, full := StillRunning, 0;
    ghost var u, free := BlockCount(SMALL_SIZE, volume.unit), volume.free;
    ghost var exact := !volume.faults && !volume.partial && volume.files == map[];
    if exact {
      EmptyTotal(volume);
    }
    var rv := CreateTestDir(volume);
    dir := volume.calls;
    if rv < 0 {
      return Returned(rv), dir, filling, full;
    }
    ghost var left;
    filled, left, full := FillDiskWithSmallFiles(volume, fillHorizon);
    filling := filled;
    if exact {
      if filled == StillRunning {
        SpentCount(free, u, fillHorizon, left);
      } else {
        SpentCount(free, u, filled.rv - 1, left);
        LeftIsRemainder(free, u, filled.rv - 1, left);
        FilledIsSized(volume.files, filled.rv, free, volume.unit, volume.limit, left);
      }
    }
  }

  /** The result of the second half on such a volume. */
  function ExactOutcome(finishes: bool, memory: bool): Outcome {
    if !finishes then StillRunning else if memory then Returned(0) else Returned(-1)
  }

  /** The second half: fragment the volume, read the big file, clean up. */
  method TestFragmented(volume: Volume, cleanup: bool, memory: bool, fillHorizon: nat, drawHorizon: nat)
      returns (outcome: Outcome, totals: seq<nat>, ghost draws: nat, ghost half: SecondHalf)
    requires volume.Valid() && fillHorizon < 0x8000_0000
    modifies volume
    ensures volume.Valid() && volume.Total() == old(volume.Total())
    ensures SecondHalfMade(old(volume.calls), volume.calls, half, fillHorizon, cleanup, memory, totals, outcome)
    ensures cleanup && outcome == Returned(0) ==> !volume.directory && volume.files == map[]
    ensures outcome.Returned? ==> outcome.rv == 0 || outcome.rv == -1
    // On an empty volume: the result, what each try reads, and what is left without cleanup.
    ensures var u := BlockCount(SMALL_SIZE, volume.unit); var n := FileCount(old(volume.free), u);
      old(Exact(volume, n, fillHorizon)) && drawHorizon >= PERIOD ==>
        && outcome == ExactOutcome(Finishes(n), memory)
        && (Finishes(n) && memory && n >= 3 ==>
             SixTimes(totals, GapUnits(n, u, old(volume.free) % u, n - 1 in DrawnSoFar(n, draws)) * volume.unit))
        && (Finishes(n) && (!cleanup || !memory) ==>
             volume.free == 0 && |SmallFiles(volume.files)| == n - n / 3)
  {
    totals, draws := [], 0;
    ghost var u := BlockCount(SMALL_SIZE, volume.unit);
    ghost var n, left := FileCount(volume.free, u), volume.free % u;
    ghost var d := Fragmentation(volume.calls, StillRunning, 0, volume.files, volume.calls);
    var filled;
    ghost var dir, filling, full;
    filled, dir, filling, full := MakeAndFill(volume, fillHorizon);
    half := SecondHalf(dir, volume.calls, full, filling, d);
    if filled == StillRunning || filled.rv < 0 {
      return filled, totals, draws, half;
    }
    var nrFiles := filled.rv;
    ghost var files := volume.files;
    ghost var exact := old(!volume.faults && !volume.partial && volume.files == map[]) && nrFiles == n;
    if exact {
      FilledFiles(files, nrFiles);
    }
    outcome, totals, draws, d := FragmentAndRead(volume, nrFiles, cleanup, memory, drawHorizon);
    half := half.(d := d);
    if exact && d.deleted == nrFiles / 3 {
      AfterFilling(files, d.files, nrFiles, draws, u, volume.unit, left, volume.limit, totals);
    }
  }

  /** The calls of the command: the second half follows only a first half that returns 0. */
  ghost predicate CommandMade(t0: Trace, t1: Trace, t: Trace, first: FirstHalf, second: SecondHalf, fillHorizon: nat,
                              cleanup: bool, memory: bool, memoryLater: bool, totals: seq<nat>, totalsLater: seq<nat>,
                              outcome: Outcome) {
    && FirstHalfMade(t0, t1, first, memory, totals)
    && if first.rv < 0 then t == t1 && outcome == Returned(first.rv) && totalsLater == []
       else SecondHalfMade(t1, t, second, fillHorizon, cleanup, memoryLater, totalsLater, outcome)
  }

  /**
    * The whole command on a valid volume; the flags say whether there is memory for the blocks in its halves. If it
    * succeeds with cleanup it leaves nothing behind, whatever went wrong on the way; and on an empty volume
    * where nothing goes wrong it comes to an end exactly if the deletion loop does for the number of small
    * files that fit.
    */
  method CommandFragmentedReadTest(volume: Volume, cleanup: bool, memory: bool, memoryLater: bool, fillHorizon: nat,
                                   drawHorizon: nat)
      returns (outcome: Outcome, totals: seq<nat>, totalsLater: seq<nat>, ghost draws: nat, ghost middle: Trace,
               ghost first: FirstHalf, ghost second: SecondHalf)
    requires volume.Valid() && fillHorizon < 0x8000_0000
    modifies volume
    ensures volume.Valid() && volume.Total() == old(volume.Total())
    // The calls of the stages in order, and which of them are left out after an error.
    ensures CommandMade(old(volume.calls), middle, volume.calls, first, second, fillHorizon, cleanup,
                        memory, memoryLater, totals, totalsLater, outcome)
    ensures cleanup && outcome == Returned(0) ==>
      !volume.directory && volume.files == map[] && volume.free == old(volume.Total())
    ensures outcome.Returned? ==> outcome.rv == 0 || outcome.rv == -1
    // On a volume with small files the first half is all, and leaves them as they were.
    ensures !volume.faults && memory && Leftover(old(volume.files), 0) != map[] ==>
      outcome == Returned(-1) && volume.files == Leftover(old(volume.files), 0)
    // On an empty volume: the result, what each try reads in either half, and what is left without cleanup.
    ensures var u := BlockCount(SMALL_SIZE, volume.unit); var n := FileCount(old(volume.free), u);
      old(Exact(volume, n, fillHorizon)) && drawHorizon >= PERIOD && memory ==>
        && outcome == ExactOutcome(Finishes(n), memoryLater)
        && SixTimes(totals, old(volume.free) * volume.unit)
        && (Finishes(n) && memoryLater && n >= 3 ==>
             SixTimes(totalsLater, GapUnits(n, u, old(volume.free) % u, n - 1 in DrawnSoFar(n, draws)) * volume.unit))
        && (Finishes(n) && (!cleanup || !memoryLater) ==>
             volume.free == 0 && |SmallFiles(volume.files)| == n - n / 3)
  {
    totalsLater, draws := [], 0;
    var rv;
    rv, totals, first := TestNonFragmented(volume, memory);
    middle := volume.calls;
    if rv < 0 {
      ghost var none := Fragmentation(middle, StillRunning, 0, map[], middle);
      second := SecondHalf(middle, middle, 0, StillRunning, none);
      return Returned(rv), totals, totalsLater, draws, middle, first, second;
    }
    outcome, totalsLater, draws, second := TestFragmented(volume, cleanup, memoryLater, fillHorizon, drawHorizon);
    if cleanup && outcome == Returned(0) {
      EmptyTotal(volume);
    }
  }

  lemma MultipleOfEightNext(q: nat)
    ensures (q + 1) % 8 == 0 <==> q % 8 == 7
  {
  }

  /**
    * On which volumes the command hangs, for every free space and unit size: those where CanFinish fails for
    * the number of complete small files that fit, plus one. With up to 2^26 deletions that is one number in
    * eight.
    */
  lemma HangsIff(free: nat, u: nat)
    requires u > 0
    ensures Finishes(FileCount(free, u)) <==> CanFinish(free / u + 1)
    ensures (free / u + 1) / 3 <= HALF_PERIOD ==>
      (!Finishes(FileCount(free, u)) <==> free / u % 8 == 7 && free / u > 7)
  {
    var q := free / u;
    FileCountIsQuotient(free, u);
    FinishesIff(q + 1);
    MultipleOfEightNext(q);
  }
}
