/**
  * Which system calls the stages of the read test make, in which order and with which arguments, whatever
  * their results. A stage is described by the traces t that it can leave when it finds the trace t0.
  */
module Calls {
  import opened PseudoRandom
  import opened Volumes

  /** t comes from t0 by further calls. */
  predicate Extends(t0: Trace, t: Trace)
    decreases t
  {
    t == t0 || (t.Then? && Extends(t0, t.before))
  }

  function Length(t: Trace): nat {
    if t.Start? then 0 else Length(t.before) + 1
  }

  lemma {:induction false} ExtendsLength(t0: Trace, t: Trace)
    requires Extends(t0, t)
    ensures Length(t0) <= Length(t)
    decreases t
  {
    if t != t0 {
      ExtendsLength(t0, t.before);
    }
  }

  /** A further call never leads back. */
  lemma NeverBack(t0: Trace, t: Trace, c: Call)
    requires Extends(t0, t)
    ensures Then(t, c) != t0 && Extends(t0, Then(t, c))
  {
    ExtendsLength(t0, t);
  }

  /** One call has been made. */
  predicate Made(t0: Trace, t: Trace, c: Call) {
    t == Then(t0, c)
  }

  // ---------- Making the directory ----------

  /** One call; an existing directory is no error. */
  predicate MakesDir(t0: Trace, t: Trace, rv: int) {
    && t.Then? && t.before == t0 && t.last.Mkdir?
    && rv == if t.last.errno == NoError || t.last.errno == EEXIST then 0 else -1
  }

  // ---------- Writing the big file ----------

  /** Writes of 1024 bytes to the big file that take it from one position to another. */
  predicate Writes(t0: Trace, t: Trace, at: nat, end: nat)
    decreases t
  {
    || (t == t0 && at == end)
    || (&& t.Then? && t.last.Wrote? && t.last.file == Big && t.last.n == 1024
        && t.last.result > 0 && t.last.at + t.last.result == end
        && Writes(t0, t.before, at, t.last.at))
  }

  /** The same until a write transfers nothing. */
  predicate Drains(t0: Trace, t: Trace, at: nat, end: nat) {
    && t.Then? && t.last.Wrote? && t.last == Wrote(Big, end, 1024, t.last.result) && t.last.result <= 0
    && Writes(t0, t.before, at, end)
  }

  /** The big file is opened, and written from its start to a position if that succeeds. */
  predicate OpensAndDrains(t0: Trace, t: Trace, ok: bool, end: nat) {
    if ok then Drains(Then(t0, Opened(Big, true)), t, 0, end) else Made(t0, t, Opened(Big, false))
  }

  // ---------- Filling ----------

  /** A small file is opened, and written if that succeeds. */
  predicate CreatesSmall(t0: Trace, t: Trace, i: nat, ok: bool, written: int) {
    if ok then Made(Then(t0, Opened(Small(i), true)), t, Wrote(Small(i), 0, 17, written))
    else Made(t0, t, Opened(Small(i), false))
  }

  /** The first i small files are created, and 17 bytes are written to each. */
  predicate Fills(t0: Trace, t: Trace, i: nat) {
    if i == 0 then t == t0
    else
      && t.Then? && t.last == Wrote(Small(i - 1), 0, 17, 17)
      && t.before.Then? && t.before.last == Opened(Small(i - 1), true)
      && Fills(t0, t.before.before, i - 1)
  }

  /** The file after the first i could not be opened. */
  predicate FillsUntilUnopened(t0: Trace, t: Trace, i: nat) {
    t.Then? && t.last == Opened(Small(i), false) && Fills(t0, t.before, i)
  }

  /** The file after the first i got another number of bytes. */
  predicate FillsUntilShort(t0: Trace, t: Trace, i: nat) {
    && t.Then? && t.last.Wrote? && t.last == Wrote(Small(i), 0, 17, t.last.result) && t.last.result != 17
    && t.before.Then? && t.before.last == Opened(Small(i), true)
    && Fills(t0, t.before.before, i)
  }

  /** While the filling goes on, or after a file that ended it. */
  predicate FillsSoFar(t0: Trace, t: Trace, i: nat, full: nat, complete: bool) {
    if complete then i == full && Fills(t0, t, full) else i == full + 1 && FillsUntilShort(t0, t, full)
  }

  lemma AfterSmall(t0: Trace, t1: Trace, t: Trace, i: nat, full: nat, ok: bool, written: int)
    requires FillsSoFar(t0, t1, i, full, true) && CreatesSmall(t1, t, i, ok, written)
    ensures if ok then FillsSoFar(t0, t, i + 1, if written == 17 then i + 1 else i, written == 17)
            else FillsUntilUnopened(t0, t, full)
  {
  }

  // ---------- Deleting ----------

  /** An error in removing a file; that there is no such file is none. */
  predicate UnlinkFailed(t: Trace) {
    t.Then? && t.last.Unlinked? && t.last.errno != NoError && t.last.errno != ENOENT
  }

  predicate OpenFailed(t: Trace) {
    t.Then? && t.last == Opened(Big, false)
  }

  /** A small file has just been removed. */
  predicate Hit(t: Trace) {
    t.Then? && t.last.Unlinked? && t.last.errno == NoError
  }

  /** How many files have been named for removal since t0. */
  function DrawCount(t0: Trace, t: Trace): nat
    decreases t
  {
    if t == t0 || t.Start? then 0 else DrawCount(t0, t.before) + if t.last.Unlinked? then 1 else 0
  }

  /** Where the big file is written next; negative if it has not been opened since t0. */
  function Position(t0: Trace, t: Trace): int
    decreases t
  {
    if t == t0 || t.Start? then -1
    else
      match t.last
      case Opened(_, ok) => if ok then 0 else -1
      case Wrote(_, at, _, result) => if result > 0 then at + result else at
      case _ => Position(t0, t.before)
  }

  /** A file is drawn next: at the start, after a miss, and when the big file has taken all there was. */
  predicate DrawsNext(t0: Trace, t: Trace) {
    || t == t0
    || (t.Then? && t.last.Unlinked? && t.last.errno == ENOENT)
    || (t.Then? && t.last.Wrote? && t.last.result <= 0)
  }

  /**
    * The next call of the deletion: a draw names the file to be removed; after a removal the big file is
    * opened, unless it is open, and written on from where it was, until a write transfers nothing. After an
    * error there is no next call.
    */
  predicate DeletionStep(t0: Trace, t: Trace, n: nat, c: Call)
    requires n > 0
  {
    if DrawsNext(t0, t) then c.Unlinked? && c.file == Small(StateAfter(DrawCount(t0, t) + 1) % n)
    else if UnlinkFailed(t) || OpenFailed(t) then false
    else if Position(t0, t) < 0 then c.Opened? && c.file == Big
    else c.Wrote? && c.file == Big && c.at == Position(t0, t) && c.n == 1024
  }

  predicate Deletes(t0: Trace, t: Trace, n: nat)
    decreases t
  {
    t == t0 || (t.Then? && n > 0 && Deletes(t0, t.before, n) && DeletionStep(t0, t.before, n, t.last))
  }

  /** Draws after the first `drawn` ones, of files that do not exist. */
  predicate Misses(t0: Trace, t: Trace, n: nat, drawn: nat, draws: nat)
    requires n > 0
    decreases draws
  {
    if draws <= drawn then t == t0 && draws == drawn
    else
      && t.Then? && t.last == Unlinked(Small(StateAfter(draws) % n), ENOENT)
      && Misses(t0, t.before, n, drawn, draws - 1)
  }

  /** A draw after them that meets a file. */
  predicate Finds(t0: Trace, t: Trace, n: nat, drawn: nat, draws: nat)
    requires n > 0
  {
    && draws > drawn && Hit(t) && t.last.file == Small(StateAfter(draws) % n)
    && Misses(t0, t.before, n, drawn, draws - 1)
  }

  /** A draw after them that fails. */
  predicate FailsToFind(t0: Trace, t: Trace, n: nat, drawn: nat, draws: nat)
    requires n > 0
  {
    UnlinkFailed(t) && t.last.file == Small(StateAfter(draws + 1) % n) && Misses(t0, t.before, n, drawn, draws)
  }

  /** The state of the deletion between two turns of its loop. */
  predicate Between(t0: Trace, t: Trace, n: nat, draws: nat, position: int) {
    Deletes(t0, t, n) && DrawsNext(t0, t) && DrawCount(t0, t) == draws && Position(t0, t) == position
  }

  /** The big file is to be written next, and from here. */
  predicate WritesNext(t0: Trace, t: Trace, at: nat) {
    && t != t0 && Position(t0, t) == at
    && (Hit(t) || (t.Then? && (t.last == Opened(Big, true) || (t.last.Wrote? && t.last.result > 0))))
  }

  lemma {:induction false} DeletesExtends(t0: Trace, t: Trace, n: nat)
    requires Deletes(t0, t, n)
    ensures Extends(t0, t)
    decreases t
  {
    if t != t0 {
      DeletesExtends(t0, t.before, n);
    }
  }

  lemma Next(t0: Trace, t: Trace, n: nat, c: Call)
    requires n > 0 && Deletes(t0, t, n) && DeletionStep(t0, t, n, c)
    ensures Then(t, c) != t0 && Deletes(t0, Then(t, c), n)
    ensures DrawCount(t0, Then(t, c)) == DrawCount(t0, t) + if c.Unlinked? then 1 else 0
    ensures c.Unlinked? ==> Position(t0, Then(t, c)) == Position(t0, t)
  {
    DeletesExtends(t0, t, n);
    NeverBack(t0, t, c);
  }

  lemma {:induction false} AfterMisses(t0: Trace, t1: Trace, t: Trace, n: nat, drawn: nat, draws: nat, position: int)
    requires n > 0 && Between(t0, t1, n, drawn, position) && Misses(t1, t, n, drawn, draws)
    ensures Between(t0, t, n, draws, position)
    decreases draws
  {
    if draws > drawn {
      AfterMisses(t0, t1, t.before, n, drawn, draws - 1, position);
      Next(t0, t.before, n, t.last);
    }
  }

  lemma AfterFind(t0: Trace, t1: Trace, t: Trace, n: nat, drawn: nat, draws: nat, position: int)
    requires n > 0 && Between(t0, t1, n, drawn, position) && Finds(t1, t, n, drawn, draws)
    ensures Deletes(t0, t, n) && t != t0 && DrawCount(t0, t) == draws && Position(t0, t) == position
  {
    AfterMisses(t0, t1, t.before, n, drawn, draws - 1, position);
    Next(t0, t.before, n, t.last);
  }

  lemma AfterFailure(t0: Trace, t1: Trace, t: Trace, n: nat, drawn: nat, draws: nat, position: int)
    requires n > 0 && Between(t0, t1, n, drawn, position) && FailsToFind(t1, t, n, drawn, draws)
    ensures Deletes(t0, t, n) && t != t0
  {
    AfterMisses(t0, t1, t.before, n, drawn, draws, position);
    Next(t0, t.before, n, t.last);
  }

  lemma {:induction false} AfterWrites(t0: Trace, t1: Trace, t: Trace, n: nat, at: nat, end: nat)
    requires n > 0 && Deletes(t0, t1, n) && WritesNext(t0, t1, at) && Writes(t1, t, at, end)
    ensures Deletes(t0, t, n) && WritesNext(t0, t, end) && DrawCount(t0, t) == DrawCount(t0, t1)
    decreases t
  {
    if t != t1 || at != end {
      AfterWrites(t0, t1, t.before, n, at, t.last.at);
      Next(t0, t.before, n, t.last);
    }
  }

  lemma AfterDrain(t0: Trace, t1: Trace, t: Trace, n: nat, at: nat, end: nat)
    requires n > 0 && Deletes(t0, t1, n) && WritesNext(t0, t1, at) && Drains(t1, t, at, end)
    ensures Between(t0, t, n, DrawCount(t0, t1), end)
  {
    AfterWrites(t0, t1, t.before, n, at, end);
    Next(t0, t.before, n, t.last);
  }

  /** The big file is opened for the first deletion. */
  lemma AfterFirstDrain(t0: Trace, t1: Trace, t: Trace, n: nat, ok: bool, end: nat)
    requires n > 0 && Deletes(t0, t1, n) && t1 != t0 && Hit(t1) && Position(t0, t1) < 0
    requires OpensAndDrains(t1, t, ok, end)
    ensures if ok then Between(t0, t, n, DrawCount(t0, t1), end) else Deletes(t0, t, n) && t != t0 && OpenFailed(t)
  {
    Next(t0, t1, n, Opened(Big, ok));
    if ok {
      AfterDrain(t0, Then(t1, Opened(Big, true)), t, n, 0, end);
    }
  }

  // ---------- Reading ----------

  /** The next call of the reading: a try opens the file and reads blocks of 8192 bytes until a read gives none. */
  predicate ReadStep(t0: Trace, t: Trace, c: Call) {
    if t == t0 then c.OpenedToRead? && c.file == Big
    else
      && t.Then?
      && match t.last
         case OpenedToRead(_, ok) => ok && c.Got? && c.file == Big && c.at == 0 && c.n == 8192
         case Got(_, at, _, result) =>
           if result > 0 then c.Got? && c.file == Big && c.at == at + result && c.n == 8192
           else c.OpenedToRead? && c.file == Big
         case _ => false
  }

  predicate Reads(t0: Trace, t: Trace)
    decreases t
  {
    t == t0 || (t.Then? && Reads(t0, t.before) && ReadStep(t0, t.before, t.last))
  }

  /** How many bytes the tries that came to their end have read, a read error being such an end as well. */
  function Totals(t0: Trace, t: Trace): seq<nat>
    decreases t
  {
    if t == t0 || t.Start? then []
    else Totals(t0, t.before) + if t.last.Got? && t.last.result <= 0 then [t.last.at] else []
  }

  /** Six tries, or as many as there are until the file cannot be opened. */
  predicate ReadsBig(t0: Trace, t: Trace, totals: seq<nat>) {
    && t != t0 && t.Then? && Reads(t0, t) && totals == Totals(t0, t)
    && if |totals| == 6 then t.last.Got? && t.last.result <= 0
       else |totals| < 6 && t.last == OpenedToRead(Big, false)
  }

  lemma {:induction false} ReadsExtends(t0: Trace, t: Trace)
    requires Reads(t0, t)
    ensures Extends(t0, t)
    decreases t
  {
    if t != t0 {
      ReadsExtends(t0, t.before);
    }
  }

  lemma NextRead(t0: Trace, t: Trace, c: Call)
    requires Reads(t0, t) && ReadStep(t0, t, c)
    ensures Then(t, c) != t0 && Reads(t0, Then(t, c))
    ensures Totals(t0, Then(t, c)) == Totals(t0, t) + if c.Got? && c.result <= 0 then [c.at] else []
  {
    ReadsExtends(t0, t);
    NeverBack(t0, t, c);
  }

  // ---------- Cleaning up ----------

  predicate Failed(c: Call) {
    || (c.Unlinked? && c.errno != NoError && c.errno != ENOENT)
    || (c.Rmdir? && c.errno != NoError)
  }

  /** The first i small files are to be removed, whatever happens. */
  predicate Removes(t0: Trace, t: Trace, i: nat) {
    if i == 0 then t == t0
    else t.Then? && t.last.Unlinked? && t.last.file == Small(i - 1) && Removes(t0, t.before, i - 1)
  }

  predicate SomethingFailed(t0: Trace, t: Trace)
    decreases t
  {
    t != t0 && t.Then? && (Failed(t.last) || SomethingFailed(t0, t.before))
  }

  /** The files whose removal failed. */
  function FailedNames(t0: Trace, t: Trace): set<FileName>
    decreases t
  {
    if t == t0 || t.Start? then {}
    else FailedNames(t0, t.before) + if t.last.Unlinked? && Failed(t.last) then {t.last.file} else {}
  }

  /** Everything is tried, and the result is -1 exactly if something failed. */
  predicate CleansUp(t0: Trace, t: Trace, n: nat, error: int) {
    && t.Then? && t.last.Rmdir? && t.before.Then? && t.before.last.Unlinked? && t.before.last.file == Big
    && Removes(t0, t.before.before, n)
    && error == if SomethingFailed(t0, t) then -1 else 0
  }

  lemma {:induction false} RemovesExtends(t0: Trace, t: Trace, i: nat)
    requires Removes(t0, t, i)
    ensures Extends(t0, t)
  {
    if i > 0 {
      RemovesExtends(t0, t.before, i - 1);
    }
  }

  lemma NextCleanup(t0: Trace, t: Trace, c: Call)
    requires Extends(t0, t)
    ensures Extends(t0, Then(t, c))
    ensures SomethingFailed(t0, Then(t, c)) <==> SomethingFailed(t0, t) || Failed(c)
    ensures FailedNames(t0, Then(t, c)) == FailedNames(t0, t) + if c.Unlinked? && Failed(c) then {c.file} else {}
  {
    NeverBack(t0, t, c);
  }
}
