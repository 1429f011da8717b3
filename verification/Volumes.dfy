/**
  * The file system as the read test sees it: one directory that holds numbered small files and one
  * big file, on a volume that hands out space in whole allocation units.
  */
module Volumes {
  import opened Blocks
  import opened Words

  datatype FileName = Small(index: nat) | Big

  /** Failure of a system call, with the values of `errno` that the program tells apart. */
  datatype Errno = NoError | ENOENT | EEXIST | OTHER

  /** A system call with its result; a transfer with the position and the length asked for. */
  datatype Call =
    | Mkdir(errno: Errno)
    | Opened(file: FileName, ok: bool)
    | Wrote(file: FileName, at: nat, n: nat, result: int)
    | OpenedToRead(file: FileName, ok: bool)
    | Got(file: FileName, at: nat, n: nat, result: int)
    | Unlinked(file: FileName, errno: Errno)
    | Rmdir(errno: Errno)

  /** Calls in their order, the last one outermost. */
  datatype Trace = Start | Then(before: Trace, last: Call)

  /** A file of this length takes BlockCount(length, unit) units: it fits in k exactly when it is not longer. */
  lemma {:induction false} UnitsAtMost(length: nat, unit: nat, k: nat)
    requires unit > 0
    ensures BlockCount(length, unit) <= k <==> length <= Span(k, unit)
  {
    if length > unit && k > 0 {
      UnitsAtMost(length - unit, unit, k - 1);
    }
  }

  /** Growing a file within the free space takes no more units than are free. */
  lemma GrowthFits(length: nat, length': nat, free: nat, unit: nat)
    requires unit > 0 && length <= length'
    requires length' == length || length' <= Span(BlockCount(length, unit) + free, unit)
    ensures BlockCount(length, unit) <= BlockCount(length', unit) <= BlockCount(length, unit) + free
  {
    UnitsAtMost(length', unit, BlockCount(length, unit) + free);
    UnitsAtMost(length', unit, BlockCount(length', unit));
    UnitsAtMost(length, unit, BlockCount(length', unit));
  }

  ghost function UnitsOf(files: map<FileName, nat>, f: FileName, unit: nat): nat
    requires unit > 0
  {
    if f in files then BlockCount(files[f], unit) else 0
  }

  /** Units taken by the small files with an index below limit. */
  ghost function SmallUnits(files: map<FileName, nat>, unit: nat, limit: nat): nat
    requires unit > 0
  {
    if limit == 0 then 0
    else SmallUnits(files, unit, limit - 1) + UnitsOf(files, Small(limit - 1), unit)
  }

  /** Changing one file changes the sum by the change of that file. */
  lemma {:induction false} OneFileChanged(a: map<FileName, nat>, b: map<FileName, nat>, f: FileName, unit: nat,
                                          limit: nat)
    requires unit > 0
    requires forall g :: g != f ==> UnitsOf(a, g, unit) == UnitsOf(b, g, unit)
    ensures SmallUnits(b, unit, limit)
         == SmallUnits(a, unit, limit)
            + if f.Small? && f.index < limit then UnitsOf(b, f, unit) - UnitsOf(a, f, unit) else 0
  {
    if limit > 0 {
      OneFileChanged(a, b, f, unit, limit - 1);
    }
  }

  lemma {:induction false} NoSmallUnits(files: map<FileName, nat>, unit: nat, limit: nat)
    requires unit > 0
    requires forall i :: 0 <= i < limit ==> Small(i) !in files
    ensures SmallUnits(files, unit, limit) == 0
  {
    if limit > 0 {
      NoSmallUnits(files, unit, limit - 1);
    }
  }

  /** The numbers of the small files that exist. */
  ghost function SmallFiles(files: map<FileName, nat>): set<int> {
    set f | f in files && f.Small? :: f.index
  }

  /** All units of a volume, free or taken. */
  ghost function UnitTotal(files: map<FileName, nat>, free: nat, unit: nat, limit: nat): nat
    requires unit > 0
  {
    free + SmallUnits(files, unit, limit) + UnitsOf(files, Big, unit)
  }

  /** Moving units between one file and the free space keeps the total. */
  lemma Rebalanced(a: map<FileName, nat>, b: map<FileName, nat>, f: FileName, freeA: nat, freeB: nat,
                   unit: nat, limit: nat)
    requires unit > 0 && (f.Small? ==> f.index < limit)
    requires forall g :: g != f ==> UnitsOf(a, g, unit) == UnitsOf(b, g, unit)
    requires freeA + UnitsOf(a, f, unit) == freeB + UnitsOf(b, f, unit)
    ensures UnitTotal(a, freeA, unit, limit) == UnitTotal(b, freeB, unit, limit)
  {
    OneFileChanged(a, b, f, unit, limit);
  }

  class Volume {
    /** Bytes in an allocation unit. */
    const unit: nat
    /** Calls may fail, and writes may transfer less than fits or nothing. */
    const faults: bool
    /** Writes may transfer less than fits, but not nothing. */
    const partial: bool
    /** Small files have numbers below this. */
    const limit: nat
    var free: nat
    var directory: bool
    var files: map<FileName, nat>
    /** The calls so far. */
    var calls: Trace

    constructor (unit: nat, faults: bool, partial: bool, limit: nat, free: nat, directory: bool)
      requires unit > 0 && limit >= MODULUS
      ensures Valid() && this.unit == unit && this.faults == faults && this.partial == partial
      ensures this.limit == limit && this.free == free && this.directory == directory && files == map[]
      ensures calls == Start
    {
      this.unit, this.faults, this.partial, this.limit := unit, faults, partial, limit;
      this.free, this.directory, this.files, this.calls := free, directory, map[], Start;
    }

    ghost predicate Valid()
      reads this
    {
      && unit > 0
      && limit >= MODULUS
      && (files != map[] ==> directory)
      && (forall i: nat :: Small(i) in files ==> i < limit)
    }

    ghost function Total(): nat
      requires Valid()
      reads this
    {
      UnitTotal(files, free, unit, limit)
    }

    /** Bytes that can still be written to file f from position at on. */
    function Room(f: FileName, at: nat): (room: nat)
      requires Valid() && f in files && at <= files[f]
      reads this
    {
      UnitsAtMost(files[f], unit, BlockCount(files[f], unit));
      SpanGrows(BlockCount(files[f], unit), free, unit);
      Span(BlockCount(files[f], unit) + free, unit) - at
    }

    method MakeDirectory() returns (errno: Errno)
      requires Valid()
      modifies this`directory, this`calls
      ensures Valid() && calls == Then(old(calls), Mkdir(errno))
      ensures errno == NoError ==> !old(directory) && directory
      ensures errno != NoError ==> directory == old(directory)
      ensures errno == EEXIST ==> directory
      ensures !faults ==> errno == if old(directory) then EEXIST else NoError
    {
      var fault: bool := *;
      if faults && fault {
        errno := OTHER;
      } else if directory {
        errno := EEXIST;
      } else {
        directory := true;
        errno := NoError;
      }
      calls := Then(calls, Mkdir(errno));
    }

    /** Removes the directory; only an empty one can be removed. */
    method RemoveDirectory() returns (errno: Errno)
      requires Valid()
      modifies this`directory, this`calls
      ensures Valid() && calls == Then(old(calls), Rmdir(errno))
      ensures errno == NoError ==> old(directory) && !directory && files == map[]
      ensures errno != NoError ==> directory == old(directory)
      ensures !faults ==> (errno == NoError <==> old(directory) && files == map[])
    {
      var fault: bool := *;
      if (faults && fault) || files != map[] {
        errno := OTHER;
      } else if !directory {
        errno := ENOENT;
      } else {
        directory := false;
        errno := NoError;
      }
      calls := Then(calls, Rmdir(errno));
    }

    /** Opens a file for writing at position 0, creating it if need be; an existing file keeps its content. */
    method Open(f: FileName) returns (ok: bool)
      requires Valid() && (f.Small? ==> f.index < limit)
      modifies this`files, this`calls
      ensures Valid() && calls == Then(old(calls), Opened(f, ok))
      ensures files == if ok && f !in old(files) then old(files)[f := 0] else old(files)
      ensures ok ==> directory && f in files
      ensures !faults ==> ok == directory
      ensures Total() == old(Total())
    {
      var fault: bool := *;
      ok := directory && !(faults && fault);
      if ok && f !in files {
        ghost var before := files;
        files := files[f := 0];
        Rebalanced(before, files, f, free, free, unit, limit);
      }
      calls := Then(calls, Opened(f, ok));
    }

    method OpenForReading(f: FileName) returns (ok: bool)
      requires Valid()
      modifies this`calls
      ensures Valid() && calls == Then(old(calls), OpenedToRead(f, ok))
      ensures ok ==> f in files
      ensures !faults ==> ok == (f in files)
    {
      var fault: bool := *;
      ok := f in files && !(faults && fault);
      calls := Then(calls, OpenedToRead(f, ok));
    }

    /** Reads up to n bytes from position at on; returns how many, or a negative number. */
    method Read(f: FileName, at: nat, n: nat) returns (received: int)
      requires Valid() && f in files && at <= files[f]
      modifies this`calls
      ensures Valid() && calls == Then(old(calls), Got(f, at, n, received))
      ensures received <= n && at + received <= files[f]
      ensures !faults ==> received == if n < files[f] - at then n else files[f] - at
    {
      var most := if n < files[f] - at then n else files[f] - at;
      received :| (if faults then -1 else most) <= received <= most;
      calls := Then(calls, Got(f, at, n, received));
    }

    /** Writes n bytes at position at; returns how many were written, or a negative number. */
    method Write(f: FileName, at: nat, n: nat) returns (written: int)
      requires Valid() && f in files && at <= files[f] && n > 0
      modifies this`files, this`free, this`calls
      ensures Valid() && calls == Then(old(calls), Wrote(f, at, n, written))
      ensures written <= n && written <= old(Room(f, at))
      ensures written <= 0 ==> files == old(files) && free == old(free)
      ensures written > 0 ==>
        files == old(files)[f := if at + written > old(files)[f] then at + written else old(files)[f]]
      ensures written > 0 ==> free == old(free) + BlockCount(old(files)[f], unit) - BlockCount(files[f], unit)
      ensures written > 0 ==> Room(f, at + written) == old(Room(f, at)) - written
      ensures !faults ==> (written > 0 <==> old(Room(f, at)) > 0)
      ensures !faults && !partial ==> written == if n < old(Room(f, at)) then n else old(Room(f, at))
      ensures Total() == old(Total())
    {
      var room := Room(f, at);
      var most := if n < room then n else room;
      var least := if faults then -1 else if partial && most > 0 then 1 else most;
      written :| least <= written <= most;
      if written > 0 {
        ghost var before, freeBefore := files, free;
        var length := files[f];
        var length' := if at + written > length then at + written else length;
        GrowthFits(length, length', free, unit);
        free := free + BlockCount(length, unit) - BlockCount(length', unit);
        files := files[f := length'];
        Rebalanced(before, files, f, freeBefore, free, unit, limit);
      }
      calls := Then(calls, Wrote(f, at, n, written));
    }

    method Unlink(f: FileName) returns (errno: Errno)
      requires Valid()
      modifies this`files, this`free, this`calls
      ensures Valid() && calls == Then(old(calls), Unlinked(f, errno))
      ensures errno == NoError ==> f in old(files) && files == old(files) - {f}
      ensures errno != NoError ==> files == old(files) && free == old(free)
      ensures errno == ENOENT ==> f !in files
      ensures !faults ==> errno == if f in old(files) then NoError else ENOENT
      ensures Total() == old(Total())
    {
      var fault: bool := *;
      if faults && fault {
        errno := OTHER;
      } else if f !in files {
        errno := ENOENT;
      } else {
        ghost var before, freeBefore := files, free;
        free := free + BlockCount(files[f], unit);
        files := files - {f};
        Rebalanced(before, files, f, freeBefore, free, unit, limit);
        errno := NoError;
      }
      calls := Then(calls, Unlinked(f, errno));
    }
  }
}
