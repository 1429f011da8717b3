/** `pattern-fill` and `pattern-check`: the two loops that run the schedule against a file. */
module PatternFiles {
  import opened Words
  import opened Stamps
  import opened BlockWriter
  import opened Schedule
  import opened ErrorReport

  /** The bytes of a file after writing some at a position, without truncation. */
  function Overwrite(data: seq<byte>, at: nat, bytes: seq<byte>): (s: seq<byte>)
    requires at <= |data|
    ensures |s| >= at + |bytes|
  {
    data[..at] + bytes + if at + |bytes| <= |data| then data[at + |bytes|..] else []
  }

  lemma OverwriteTwice(data: seq<byte>, a: seq<byte>, b: seq<byte>)
    ensures Overwrite(Overwrite(data, 0, a), |a|, b) == Overwrite(data, 0, a + b)
  {
  }

  /** An open file: its data and the position of the next transfer. */
  class DataFile {
    var data: seq<byte>
    var position: nat
    /** The file cannot grow beyond this. */
    const capacity: nat
    /** Transfers may fail or be shorter than possible. */
    const faults: bool

    constructor (data: seq<byte>, capacity: nat, faults: bool)
      ensures Valid() && this.data == data && position == 0 && this.capacity == capacity && this.faults == faults
    {
      this.data, position, this.capacity, this.faults := data, 0, capacity, faults;
    }

    ghost predicate Valid()
      reads this
    {
      position <= |data|
    }

    /** What `open` does to the position; the data stays as it is. */
    method Reopen()
      modifies this`position
      ensures Valid() && position == 0
    {
      position := 0;
    }

    method Write(bytes: seq<byte>) returns (written: int)
      requires Valid()
      modifies this
      ensures Valid() && written <= |bytes|
      ensures var w := if written > 0 then written else 0;
        data == Overwrite(old(data), old(position), bytes[..w]) && position == old(position) + w
      ensures !faults && old(position) + |bytes| <= capacity ==> written == |bytes|
      ensures written == |bytes| > 0 ==> old(position) + |bytes| <= capacity
    {
      var room := if capacity < position then 0 else capacity - position;
      var most := if |bytes| <= room then |bytes| else room;
      written :| (if faults then -1 else most) <= written <= most;
      var w := if written > 0 then written else 0;
      data := Overwrite(data, position, bytes[..w]);
      position := position + w;
    }

    method Read(n: nat) returns (received: int, bytes: seq<byte>)
      requires Valid()
      modifies this`position
      ensures Valid() && received <= n
      ensures |bytes| == if received > 0 then received else 0
      ensures position == old(position) + |bytes| && bytes == data[old(position)..position]
      ensures !faults && old(position) + n <= |data| ==> received == n
    {
      var most := if n <= |data| - position then n else |data| - position;
      received :| (if faults then -1 else most) <= received <= most;
      bytes := data[position..position + if received > 0 then received else 0];
      position := position + |bytes|;
    }
  }

  /** How a loop came to its end; StillRunning if it had not after the blocks that we watch. */
  datatype End = Completed | TransferFailed | TooManyErrors | StillRunning

  // ---------- Filling ----------

  /** The loop has come to its k-th turn. */
  ghost predicate RanFor(p: Params, k: nat) {
    forall i: nat :: i < k ==> More(p, i)
  }

  /** `current += block_size` at the end of a turn. */
  method NextCurrent(p: Params, current: u32, ghost k: nat) returns (next: u32)
    requires RanFor(p, k) && More(p, k) && current == Current(p, k)
    ensures RanFor(p, k + 1) && next == Current(p, k + 1)
  {
    next := Wrap(current + p.blockSize);
  }

  /** The first k blocks have been written over the start of the original data. */
  ghost predicate Written(file: DataFile, original: seq<byte>, p: Params, k: nat)
    reads file
  {
    file.position == |Content(p, k)| && file.data == Overwrite(original, 0, Content(p, k))
  }

  /** Part of a block has been written after the first k blocks. */
  ghost predicate PartWritten(data: seq<byte>, original: seq<byte>, p: Params, k: nat, n: nat) {
    n <= Length(p, Current(p, k))
    && data == Overwrite(original, 0, Content(p, k) + Stamped(Current(p, k), Length(p, Current(p, k)))[..n])
  }

  /** Fills a block and writes it. */
  method WriteBlock(file: DataFile, block: array<byte>, p: Params, current: u32, ghost original: seq<byte>,
                    ghost k: nat)
      returns (ok: bool, ghost n: nat)
    requires file.Valid() && block.Length == p.blockSize && current == Current(p, k)
    requires Written(file, original, p, k)
    modifies file, block
    ensures file.Valid()
    ensures if ok then Written(file, original, p, k + 1) else PartWritten(file.data, original, p, k, n)
    ensures !ok && !file.faults ==> |Content(p, k + 1)| > file.capacity
  {
    var writeSize := Length(p, current);
    FillBlock(block, writeSize, current);
    assert block[..writeSize] == Stamped(current, writeSize);
    var written := file.Write(block[..writeSize]);
    n := if written > 0 then written else 0;
    OverwriteTwice(original, Content(p, k), Stamped(current, writeSize)[..n]);
    ok := written == writeSize;
    if ok {
      assert Stamped(current, writeSize)[..n] == Stamped(current, writeSize);
    }
  }

  method PatternFill(file: DataFile, p: Params, horizon: nat) returns (end: End, blocks: nat, ghost n: nat)
    requires file.Valid() && file.position == 0
    modifies file
    ensures file.Valid()
    ensures end != TooManyErrors && blocks <= horizon && RanFor(p, blocks)
    ensures if end == TransferFailed then PartWritten(file.data, old(file.data), p, blocks, n)
            else file.data == Overwrite(old(file.data), 0, Content(p, blocks))
    ensures end == Completed <==> !More(p, blocks)
    ensures end == StillRunning ==> blocks == horizon
    ensures end == TransferFailed && !file.faults ==> |Content(p, blocks + 1)| > file.capacity
  {
    var block := new byte[p.blockSize];
    var current: u32 := p.start;
    end, blocks, n := Completed, 0, 0;
    while current < Bound(p)
      invariant file.Valid() && blocks <= horizon && end == Completed
      invariant current == Current(p, blocks) && RanFor(p, blocks)
      invariant Written(file, old(file.data), p, blocks)
      decreases horizon - blocks
    {
      if blocks == horizon {
        end := StillRunning;
        break;
      }
      var ok;
      ok, n := WriteBlock(file, block, p, current, old(file.data), blocks);
      if !ok {
        end := TransferFailed;
        break;
      }
      current := NextCurrent(p, current, blocks);
      blocks := blocks + 1;
    }
  }

  // ---------- Checking ----------

  /** The output chosen on the command line: ERR/OK lines, or the first so many errors in full. */
  datatype Output = Short | Long(maxErrors: int)
  datatype OutputArgument = Absent | IsShort | Number(value: int)
  datatype Selection = Selected(output: Output) | Refused

  function SelectOutput(argument: OutputArgument): (s: Selection)
    ensures s.Selected? && s.output.Long? ==> s.output.maxErrors >= 1
    ensures s == Refused <==> argument.Number? && argument.value <= 0
    ensures s == Selected(Short) <==> argument == IsShort
    ensures argument.Number? && s != Refused ==> s.output.maxErrors == argument.value
    ensures argument == Absent ==> s == Selected(Long(1))
  {
    match argument
    case Absent => Selected(Long(1))
    case IsShort => Selected(Short)
    case Number(value) => if value <= 0 then Refused else Selected(Long(value))
  }

  /** A report of the long output: where, what was expected, what was read. */
  datatype Mismatch = Mismatch(at: u32, expected: seq<byte>, got: seq<byte>)

  /** The bytes of the file that block i is compared with. */
  function Got(data: seq<byte>, p: Params, i: nat): seq<byte>
    requires |Content(p, i + 1)| <= |data|
  {
    data[|Content(p, i)|..|Content(p, i + 1)|]
  }

  function Expected(p: Params, i: nat): seq<byte> {
    Stamped(Current(p, i), Length(p, Current(p, i)))
  }

  /** Which of the first k blocks differ from the pattern. */
  function BadBlocks(data: seq<byte>, p: Params, k: nat): (bads: seq<bool>)
    requires |Content(p, k)| <= |data|
    ensures |bads| == k
  {
    if k == 0 then [] else BadBlocks(data, p, k - 1) + [Got(data, p, k - 1) != Expected(p, k - 1)]
  }

  /** The reports of the long output. */
  function Reports(data: seq<byte>, p: Params, k: nat): (reports: seq<Mismatch>)
    requires |Content(p, k)| <= |data|
  {
    if k == 0 then []
    else
      Reports(data, p, k - 1)
      + if Got(data, p, k - 1) != Expected(p, k - 1)
        then [Mismatch(Current(p, k - 1), Expected(p, k - 1), Got(data, p, k - 1))] else []
  }

  ghost predicate Reported(data: seq<byte>, p: Params, m: Mismatch, i: nat) {
    |Content(p, i + 1)| <= |data| && m == Mismatch(Current(p, i), Expected(p, i), Got(data, p, i))
  }

  lemma BadBlocksPrefix(data: seq<byte>, p: Params, k: nat)
    requires k > 0 && |Content(p, k)| <= |data|
    ensures BadBlocks(data, p, k)[..k - 1] == BadBlocks(data, p, k - 1)
  {
  }

  lemma LastReport(data: seq<byte>, p: Params, n: nat)
    requires |Content(p, n + 1)| <= |data|
    ensures var differs := Got(data, p, n) != Expected(p, n);
      && BadIndices(BadBlocks(data, p, n + 1)) == BadIndices(BadBlocks(data, p, n)) + (if differs then [n] else [])
      && Reports(data, p, n + 1)
         == Reports(data, p, n) + (if differs then [Mismatch(Current(p, n), Expected(p, n), Got(data, p, n))] else [])
  {
    BadBlocksPrefix(data, p, n + 1);
  }

  ghost predicate ReportsMatch(data: seq<byte>, p: Params, reports: seq<Mismatch>, indices: seq<nat>) {
    |reports| == |indices| && forall l :: 0 <= l < |indices| ==> Reported(data, p, reports[l], indices[l])
  }

  lemma ReportsMatchNext(data: seq<byte>, p: Params, reports: seq<Mismatch>, indices: seq<nat>, m: Mismatch, i: nat)
    requires ReportsMatch(data, p, reports, indices) && Reported(data, p, m, i)
    ensures ReportsMatch(data, p, reports + [m], indices + [i])
  {
  }

  /** There is one for each differing block, in order, with that block's position, pattern and data. */
  lemma {:induction false} ReportsAre(data: seq<byte>, p: Params, k: nat)
    requires |Content(p, k)| <= |data|
    ensures ReportsMatch(data, p, Reports(data, p, k), BadIndices(BadBlocks(data, p, k)))
  {
    if k > 0 {
      var n := k - 1;
      ReportsAre(data, p, n);
      LastReport(data, p, n);
      ReportsMatchNextIf(data, p, n);
    }
  }

  lemma ReportsMatchNextIf(data: seq<byte>, p: Params, n: nat)
    requires |Content(p, n + 1)| <= |data|
    requires ReportsMatch(data, p, Reports(data, p, n), BadIndices(BadBlocks(data, p, n)))
    ensures Got(data, p, n) != Expected(p, n) ==>
      ReportsMatch(data, p, Reports(data, p, n) + [Mismatch(Current(p, n), Expected(p, n), Got(data, p, n))],
                   BadIndices(BadBlocks(data, p, n)) + [n])
  {
    ReportsMatchNext(data, p, Reports(data, p, n), BadIndices(BadBlocks(data, p, n)),
                     Mismatch(Current(p, n), Expected(p, n), Got(data, p, n)), n);
  }

  /** What has been printed after k blocks. */
  ghost predicate Logged(data: seq<byte>, p: Params, k: nat, output: Output, printed: seq<Entry>,
                         reports: seq<Mismatch>) {
    |Content(p, k)| <= |data|
    && if output.Short? then printed == Printed(p, BadBlocks(data, p, k)) && reports == []
       else printed == [] && reports == Reports(data, p, k)
  }

  lemma LoggedShort(data: seq<byte>, p: Params, k: nat, printed: seq<Entry>)
    requires Logged(data, p, k, Short, printed, []) && |Content(p, k + 1)| <= |data|
    ensures var differs := Got(data, p, k) != Expected(p, k);
      && LastBad(BadBlocks(data, p, k + 1)) == differs
      && Logged(data, p, k + 1, Short,
                printed + if differs != LastBad(BadBlocks(data, p, k)) then [Entry(differs, Current(p, k))] else [], [])
  {
    BadBlocksPrefix(data, p, k + 1);
  }

  lemma LoggedLong(data: seq<byte>, p: Params, k: nat, output: Output, reports: seq<Mismatch>)
    requires output.Long? && Logged(data, p, k, output, [], reports) && |Content(p, k + 1)| <= |data|
    ensures var expected, got := Expected(p, k), Got(data, p, k);
      && LastBad(BadBlocks(data, p, k + 1)) == (got != expected)
      && Logged(data, p, k + 1, output, [],
                reports + if got != expected then [Mismatch(Current(p, k), expected, got)] else [])
  {
  }

  /** Whether the last of the first k blocks differs. */
  ghost predicate EndsBad(data: seq<byte>, p: Params, k: nat)
    requires |Content(p, k)| <= |data|
  {
    LastBad(BadBlocks(data, p, k))
  }

  /** The variables of the checking loop that record what was found. */
  datatype Log = Log(errors: int, lastWasError: bool, printed: seq<Entry>, reports: seq<Mismatch>)

  /** They record the first k blocks, and the limit of the long output is not reached. */
  ghost predicate Records(data: seq<byte>, p: Params, k: nat, output: Output, log: Log) {
    && Logged(data, p, k, output, log.printed, log.reports)
    && match output
       case Short => log.lastWasError == EndsBad(data, p, k)
       case Long(maxErrors) => log.errors == |log.reports| < maxErrors
  }

  /** The limit of the long output has been reached with the last of k blocks. */
  ghost predicate LimitReached(data: seq<byte>, p: Params, k: nat, output: Output, log: Log) {
    && Logged(data, p, k, output, log.printed, log.reports)
    && output.Long? && |log.reports| == output.maxErrors && EndsBad(data, p, k)
  }

  /** Records a block; in the long output, says whether the limit is reached. */
  method Report(output: Output, log: Log, current: u32, differs: bool, expected: seq<byte>, got: seq<byte>,
                ghost data: seq<byte>, ghost p: Params, ghost k: nat)
      returns (log': Log, stop: bool)
    requires Records(data, p, k, output, log) && |Content(p, k + 1)| <= |data|
    requires current == Current(p, k) && expected == Expected(p, k) && got == Got(data, p, k)
      && differs == (got != expected)
    ensures if stop then LimitReached(data, p, k + 1, output, log') else Records(data, p, k + 1, output, log')
  {
    log', stop := log, false;
    if output.Short? {
      LoggedShort(data, p, k, log.printed);
      if log.lastWasError != differs {
        log' := log'.(printed := log.printed + [Entry(differs, current)]);
      }
      log' := log'.(lastWasError := differs);
    } else {
      LoggedLong(data, p, k, output, log.reports);
      if differs {
        log' := log'.(reports := log.reports + [Mismatch(current, expected, got)], errors := log.errors + 1);
        stop := log'.errors >= output.maxErrors;
      }
    }
  }

  /** Makes the expected block, reads the next one from the file, compares them and records the result. */
  method CheckBlock(file: DataFile, block: array<byte>, p: Params, output: Output, current: u32, log: Log, ghost k: nat)
      returns (ok: bool, log': Log, stop: bool)
    requires file.Valid() && block.Length == p.blockSize && current == Current(p, k)
    requires file.position == |Content(p, k)| && Records(file.data, p, k, output, log)
    modifies file`position, block
    ensures file.Valid()
    ensures !ok ==> log' == log && !stop
    ensures ok ==> file.position == |Content(p, k + 1)|
    ensures ok ==>
      if stop then LimitReached(file.data, p, k + 1, output, log') else Records(file.data, p, k + 1, output, log')
    ensures !ok && !file.faults ==> |Content(p, k + 1)| > |file.data|
  {
    var readSize := Length(p, current);
    FillBlock(block, readSize, current);
    var expected := block[..readSize];
    assert expected == Expected(p, k);
    var received, readBlock := file.Read(readSize);
    ok, log', stop := received == readSize, log, false;
    if ok {
      var differs := expected != readBlock;
      log', stop := Report(output, log, current, differs, expected, readBlock, file.data, p, k);
    }
  }

  lemma NothingRecorded(data: seq<byte>, p: Params, output: Output)
    requires output.Long? ==> output.maxErrors >= 1
    ensures Records(data, p, 0, output, Log(0, false, [], [])) && Current(p, 0) == p.start && Content(p, 0) == []
  {
  }

  method PatternCheck(file: DataFile, p: Params, output: Output, horizon: nat) returns (end: End, blocks: nat, log: Log)
    requires file.Valid() && file.position == 0
    requires output.Long? ==> output.maxErrors >= 1
    modifies file`position
    ensures file.Valid()
    ensures blocks <= horizon && RanFor(p, blocks)
    ensures if end == TooManyErrors then LimitReached(file.data, p, blocks, output, log)
            else Records(file.data, p, blocks, output, log)
    ensures end == Completed ==> !More(p, blocks)
    ensures end == StillRunning ==> blocks == horizon && More(p, blocks)
    ensures end == TransferFailed ==>
      More(p, blocks) && (file.faults || |Content(p, blocks + 1)| > |file.data|)
  {
    var block := new byte[p.blockSize];
    var current: u32 := p.start;
    end, blocks, log := Completed, 0, Log(0, false, [], []);
    NothingRecorded(file.data, p, output);
    while current < Bound(p)
      invariant file.Valid() && blocks <= horizon && end == Completed
      invariant current == Current(p, blocks) && RanFor(p, blocks)
      invariant file.position == |Content(p, blocks)| && Records(file.data, p, blocks, output, log)
      decreases horizon - blocks
    {
      if blocks == horizon {
        end := StillRunning;
        break;
      }
      var ok, stop;
      ok, log, stop := CheckBlock(file, block, p, output, current, log, blocks);
      if !ok {
        end := TransferFailed;
        break;
      }
      current := NextCurrent(p, current, blocks);
      blocks := blocks + 1;
      if stop {
        end := TooManyErrors;
        break;
      }
    }
  }
}
