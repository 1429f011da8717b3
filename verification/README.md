# SD card tests of the GRiSP 2 toolchain: a Dafny model

The repository's demo application has two test programs for SD cards. This project models both and proves
what they do, for all inputs and all runs.

**The fragmented read test** (`demo/fragmented-read-test.c`) fills a volume with small files, deletes a third
of them while a big file takes over the space, reads the big file and cleans up. Which files go is decided by
a linear congruential generator modulo 2^32, with rejection of numbers whose file is already gone.

- `Orbit.dfy` and `PseudoRandom.dfy` prove the generator's orbit from state 0: exactly the states that are 0
  or 10 modulo 64, each once in 2^27 draws, the two classes alternating. Every second state, divided by 64,
  runs through an affine orbit with full period modulo 2^26; the proof works by 2-adic induction and gives
  the place of every state.
- `Draws.dfy` derives which indices can be drawn for n files, `DrawnSets.dfy` how many, and `Deletion.dfy` when the
  deletion ends, for every n: within 2^27 draws or never. With up to 2^26 files to delete (201326594 files), never
  exactly when n is a multiple of 8 other than 0 and 8. With more, the indices of the odd draws are those of the even
  draws turned by a number of places that depends on n, and the deletion also never ends when the two overlap too much
  (230000005 files are an example), or when more than 2^27 files are to go.
- `Volumes.dfy` is the file system as the test sees it: named files, allocation units, calls that may fail, and a
  record of the calls made. `Calls.dfy` describes the calls of every stage: their order and arguments after any results,
  among them errors and short transfers. `Thinning.dfy`, `FragmentedRead.dfy` and `ReadTestCommand.dfy` are the program
  over it, proved to make exactly such calls and to return what the last of them demands.
- The model follows the code where the code's comment or intent says otherwise: a failed `open` of the big file is
  reported as success, because the variable that is returned then holds the 0 of the last deletion (lines 239-243) or
  the length of the path (lines 174-178); and a read error only ends its try (lines 298-306).

  The last lemma of `ReadTestCommand.dfy` puts this together for an empty, faultless volume with room for q complete
  small files: the command ends exactly if `CanFinish(q + 1)`. As long as q is at most 201326593, it hangs exactly if q
  is 7 modulo 8 and more than 7.

**The pattern test** (`demo/sd-card-test.c`) writes to each position of a file a byte that depends on the
position, and later compares.

- `Stamps.dfy` defines what belongs at a position. `BlockWriter.dfy` is `fill_block`, in its three phases,
  proved equal to that definition. `StampIdentity.dfy` proves the exact size from which a block identifies its
  position: seven bytes. Six are not enough, the blocks at 0 and 1 agree in them.
- `Schedule.dfy` is the loop over `current`, with the wrapping `size-current`, and the exact condition under which it
  ends: the sum of start and size wraps, or it is at most 2^32 - g + start % g, where g is the greatest power of two
  that divides the block size and 2^32 (`Strides.dfy`). Start 0, size 2^32-1 and block size 512 never end.
- `Contiguity.dfy` proves, where no sum of the loop wraps (`Fits`), when the loop visits the positions it is meant to:
  the start is 0, or the start is greater than the size and the block size divides the size. The bytes can be right
  although the positions are wrong, but only for starts 2 to 6; start 2, size 3, block size 2 is an example.
  `Coincidences.dfy` says for each of these starts which bytes of the word that the size lies in must agree.
- `Wrapping.dfy` completes this for every loop that ends. Where a sum wraps, the positions are never the intended ones,
  and the bytes are for exactly four sets of parameters, with starts 1 to 3, sizes 1 to 4 and a block size of 2^32 less
  1 to 3.
- `PatternFiles.dfy` has the filling and the checking loop over a file, `BlockSizes.dfy` says what two block sizes write
  alike where no sum wraps, and `PatternLaws.dfy` what the two commands promise each other.
- `ErrorReport.dfy` is what the checker prints. The lines of the short output tell the status of every block compared
  exactly as long as there are no more blocks than 2^32 / g, the period of the positions; a loop that ends has no more.
  With start 0, size 2^32-1 and block size 512 the period is 2^23 blocks, that is 4 GiB. A check that comes further
  prints the same line whether all blocks differ or only those of the second round.

Where a comparison of `&size` and `&block_size` with 0 was meant to refuse a zero block size (lines 94-104), the
code compares pointers; the model follows the code, and a zero block size loops forever, provided that `malloc(0)`
returns a pointer that is not null: with a null pointer the command refuses (lines 106-123).

Integers are mathematical; every unsigned 32-bit operation of the source that can wrap is written with `Wrap`.
`u32` is `unsigned`, `uint32_t` and `size_t` of the 32-bit target.

Loops that need not end are modelled with a *horizon*, the number of turns after which we stop watching. It is
not a limit of the program: the outcome `StillRunning` says that the program is still in the loop, and the
lemmas beside the methods say for which inputs it stays there. Failing calls are chosen freely; the constant
`faults` of a volume or file says whether there can be any, and `partial` whether a write may transfer less
than fits. Whether `malloc` gives the blocks for reading is a parameter.

Modules `Words` and `Modular` hold the wrap and facts about remainders, `Blocks` counts lengths in blocks or allocation
units, and `Strides` has the common factor of a number and a power of two, for the generator and for the schedule.

## Model

| member | source | states |
|---|---|---|
| Orbit.GapOfPow2 | demo/fragmented-read-test.c:193-202 | Moving 2^e places along an affine orbit with the generator's squared multiplier and an odd increment adds an odd multiple of 2^e |
| Orbit.PlaceOf | demo/fragmented-read-test.c:193-202 | Every residue modulo 2^e occurs among the first 2^e places of the orbit; the function finds where |
| Orbit.Repeats | demo/fragmented-read-test.c:193-202 | The residues modulo 2^e repeat after 2^e places |
| Orbit.NoEarlyRepeat | demo/fragmented-read-test.c:193-202 | They do not repeat earlier |
| PseudoRandom.Generator.constructor | demo/fragmented-read-test.c:210 | The generator of a deletion starts in state 0 |
| PseudoRandom.Generator.Draw | demo/fragmented-read-test.c:193-202 | A draw updates the state in place by the wrapping recurrence and returns its remainder by max |
| PseudoRandom.StateForm | demo/fragmented-read-test.c:193-202 | Closed form of every state: 64 times an orbit element modulo 2^26, plus 0 or 10 by the parity of the draw count |
| PseudoRandom.StateClass | demo/fragmented-read-test.c:193-202 | The states alternate between 0 and 10 modulo 64 |
| PseudoRandom.SameStateIff | demo/fragmented-read-test.c:193-202 | Two draws give the same state if and only if their numbers agree modulo 2^27 |
| PseudoRandom.StatesReached | demo/fragmented-read-test.c:193-202 | From state 0 exactly the 32-bit values that are 0 or 10 modulo 64 are reached, each within the first 2^27 draws |
| PseudoRandom.OncePerPeriod | demo/fragmented-read-test.c:193-202 | Any 2^27 consecutive draws visit each of them exactly once |
| Draws.Gcd64IsGreatest | demo/fragmented-read-test.c:201 | Gcd64 is the greatest common divisor of 64 and max |
| Draws.HalveTimes | demo/fragmented-read-test.c:201 | Solves 2^w t = r modulo an odd number, the step from states to remainders |
| Draws.Place | demo/fragmented-read-test.c:201 | For every max and every multiple r of gcd(64, max): the factor below max / gcd(64, max) whose 64-fold leaves the remainder r |
| Draws.SameMultipleIff | demo/fragmented-read-test.c:201 | Multiples of 64 leave the same remainder by n if and only if their factors agree modulo n / gcd(64, n) |
| Draws.DrawableIff | demo/fragmented-read-test.c:201-227 | For every max, the exact condition, computed by Place, under which an index is drawn; it is then drawn in any 2^27 consecutive draws |
| Draws.DrawableByClass | demo/fragmented-read-test.c:201-227 | Only indices that are 0 or 10 modulo gcd(64, n) are ever drawn, and with n / gcd(64, n) at most 2^26 (every n up to 2^26) all of them |
| Draws.DrawnSaturates | demo/fragmented-read-test.c:225-233 | Whatever can be drawn at all is drawn in the first 2^27 draws |
| Deletion.FinishesWithinPeriod | demo/fragmented-read-test.c:204-253 | For every n: a third of n files can be deleted if and only if the first 2^27 draws suffice |
| Deletion.MultipleOfEightBound | demo/fragmented-read-test.c:201-227 | For every multiple of 8, at most a quarter of the indices is ever drawn |
| Deletion.MultipleOfEightStalls | demo/fragmented-read-test.c:204-253 | For every multiple of 8 from 16 on the deletion never ends |
| DrawnSets.DrawnIsUnion | demo/fragmented-read-test.c:193-227 | For every n, the indices drawn are the remainders of 64 t and of 64 t + 10 for the t below 2^26 |
| DrawnSets.Turn | demo/fragmented-read-test.c:193-227 | If gcd(64, n) is 1 or 2, by how many places the indices of the odd draws are turned against those of the even ones |
| DrawnSets.DrawnCountIs | demo/fragmented-read-test.c:193-233 | For every n, how many different indices are ever drawn, in closed form |
| Deletion.EnoughForFew | demo/fragmented-read-test.c:201-227 | With up to 2^26 files to delete, enough indices are drawn unless 8 divides n |
| Deletion.CountOfMany | demo/fragmented-read-test.c:201-227 | With more to delete and n no multiple of 4, the number of indices drawn is 2^27 less the overlap of the two classes |
| Deletion.CountOfFours | demo/fragmented-read-test.c:201-227 | With n a multiple of 4 but not of 8, it is 2^27 or half of n, whichever is less |
| Deletion.TooManyFilesStall | demo/fragmented-read-test.c:204-253 | With a third of more than 2^27 files to delete, the deletion never ends |
| Deletion.FinishesIff | demo/fragmented-read-test.c:204-253 | For every n, the exact condition of termination: n is 0 or 8 if it is a multiple of 8; otherwise at most 2^26 files are to go, or at most 2^27 less the overlap |
| Deletion.OverlapStalls | demo/fragmented-read-test.c:204-253 | 230000005 files, no multiple of 8: the deletion never ends |
| Deletion.FoursFinish | demo/fragmented-read-test.c:204-253 | With n a multiple of 4 but not of 8, the deletion ends if and only if at most 2^27 files are to go |
| Volumes.UnitsAtMost | demo/fragmented-read-test.c:125-182 | A file fits in k allocation units if and only if it is not longer than they are |
| Volumes.Volume.Open | demo/fragmented-read-test.c:120-124 | `open` with O_CREAT and without O_TRUNC: a new file is empty, an old one keeps its content; fails without the directory |
| Volumes.Volume.Write | demo/fragmented-read-test.c:125-182 | `write`: transfers no more than fits, returns 0 or less without faults only if nothing fits, and keeps the total of units |
| Volumes.Volume.OpenForReading | demo/fragmented-read-test.c:292-296 | `open` for reading succeeds without faults exactly if the file exists |
| Volumes.Volume.Read | demo/fragmented-read-test.c:299 | `read` returns what is left, up to the block size |
| Volumes.Volume.Unlink | demo/fragmented-read-test.c:148-155 | `unlink`: frees the file's units, or ENOENT if there is no file |
| Volumes.Volume.MakeDirectory | demo/fragmented-read-test.c:94-98 | `mkdir`, with EEXIST told apart |
| Volumes.Volume.RemoveDirectory | demo/fragmented-read-test.c:360-364 | `rmdir` of an empty directory only |
| Thinning.ThinnedCount | demo/fragmented-read-test.c:225-249 | Deleted files and files left add up to the files there were |
| Thinning.BigFileGrowth | demo/fragmented-read-test.c:225-249 | After a drain the length of the big file is the unit size times the units it had, those that were free and those of the deleted files |
| FragmentedRead.RemoveSmallFile | demo/fragmented-read-test.c:135-157 | One call of `unlink`, which removes that file and nothing else; ENOENT is no error and changes nothing |
| FragmentedRead.Drain | demo/fragmented-read-test.c:246-248 | Writes of 1024 bytes, each where the one before ended, until one transfers nothing; without faults no room is left, and only the big file has changed |
| FragmentedRead.InnerLoopHitsIff | demo/fragmented-read-test.c:226-233 | For every number of files and from any point, the inner loop meets a file if and only if one with a drawable index is left, and then within 2^27 draws |
| FragmentedRead.DrawUntilHit | demo/fragmented-read-test.c:226-233 | The calls name the files drawn, in order; the loop goes on after ENOENT only, stops at the first file that exists and removes just that one, and returns -1 after any other error |
| FragmentedRead.OpenAndDrain | demo/fragmented-read-test.c:237-248 | Opens the big file once and writes on from where it was, until nothing is transferred |
| FragmentedRead.DeleteNext | demo/fragmented-read-test.c:225-235 | A search keeps the account: the files left are those of the beginning without those drawn |
| FragmentedRead.DeleteOne | demo/fragmented-read-test.c:225-249 | A turn of the deletion loop is a search and, after a hit, the taking of the space; it keeps the account |
| FragmentedRead.AfterTurn | demo/fragmented-read-test.c:207-252 | The calls of the turns so far and of one more are the calls of a deletion: each draw follows a drain or a miss, each drain a removal, and nothing follows an error |
| FragmentedRead.DeletionLoop | demo/fragmented-read-test.c:207-252 | The account and the calls over the whole loop, and its result by the last call: -1 exactly after a failed removal; 0 when a third is deleted, or after the first deletion if the big file could not be opened |
| FragmentedRead.RemoveSomeSmallFilesAndCreateBigFile | demo/fragmented-read-test.c:204-253 | The same for the function: exactly the drawn files are gone, a third of them on success unless the big file could not be opened; the big file has all the space; with all files present, success within any horizon of 2^27 draws or more if and only if Finishes |
| ReadTestCommand.WriteSmallFile | demo/fragmented-read-test.c:120-126 | One small file is opened, and 17 bytes are written if that succeeds; without short writes it is complete exactly if its units are free |
| ReadTestCommand.FillOne | demo/fragmented-read-test.c:114-128 | A turn of the filling loop keeps that the files so far are there and complete, and what they have cost |
| ReadTestCommand.FillDiskWithSmallFiles | demo/fragmented-read-test.c:103-133 | Complete files of 17 bytes are written in order until one cannot be opened, which gives -1, or gets another number of bytes, which gives the number r of files; then files 0 to r-1 exist and all but the last are complete, on an empty volume there is nothing else; without faults the free space determines r and none is left |
| ReadTestCommand.CreateBigFile | demo/fragmented-read-test.c:159-187 | The big file is opened and written until nothing is transferred, and takes all the space; never a negative result, even if it could not be opened |
| ReadTestCommand.CreateTestDir | demo/fragmented-read-test.c:82-101 | One call of `mkdir`; the directory exists on success, an existing one is no error and any other error is |
| ReadTestCommand.RemoveSmallFiles | demo/fragmented-read-test.c:336-342 | The removal of every small file is tried, whatever fails, and failures are remembered |
| ReadTestCommand.DoCleanup | demo/fragmented-read-test.c:326-367 | All the removals are tried; the result is -1 exactly if one failed; what is left are the files not meant and those whose removal failed; result 0 means that no file and no directory is left |
| ReadTestCommand.ReadOnce | demo/fragmented-read-test.c:294-307 | A try opens the file and reads blocks of 8192 bytes, each where the one before ended, until a read gives nothing or fails |
| ReadTestCommand.CheckReadSpeedOfBigFile | demo/fragmented-read-test.c:255-324 | -1 exactly if there is no memory; six tries and result 0 unless the file cannot be opened, whatever the reads do; a byte count for each try, none more than the big file has and without faults each of them all of it; a big file that cannot be opened is no negative result |
| ReadTestCommand.TestNonFragmented | demo/fragmented-read-test.c:400-409 | Which stages run and with which result; without faults each try reads all the space that was free or the big file's, other files are kept, and the result is 0 exactly if there were none |
| ReadTestCommand.ReadAndCleanUp | demo/fragmented-read-test.c:420-425 | The big file is read six times before the cleanup; without memory neither happens |
| ReadTestCommand.FragmentAndRead | demo/fragmented-read-test.c:416-427 | Reading and cleanup follow exactly a deletion that returns 0; each try reads the units that were free and those of the deleted files; the stages succeed if Finishes holds for the number of files, and hang otherwise |
| ReadTestCommand.MakeAndFill | demo/fragmented-read-test.c:411-415 | On an empty faultless volume the filling leaves the files that fit, the last one of the units too few for a complete one |
| ReadTestCommand.GapsOfSized | demo/fragmented-read-test.c:204-253 | How many units the deleted third had: those of complete files, but for the last file if it is among them |
| ReadTestCommand.TestFragmented | demo/fragmented-read-test.c:411-427 | Which stages run and with which result; from an empty faultless volume it ends if and only if Finishes holds for the files that fit, each try reads exactly the space of the deleted files, and without cleanup the volume is full with two thirds of the files |
| ReadTestCommand.CommandFragmentedReadTest | demo/fragmented-read-test.c:369-428 | The second half runs exactly if the first returns 0; on a volume with small files and no faults the result is -1 and they are as before; success with cleanup leaves nothing behind and all units free, whatever went wrong; on an empty faultless volume the command succeeds if Finishes holds for the files that fit and hangs otherwise, and the bytes read in each try of either half are given |
| ReadTestCommand.FileCountIsQuotient | demo/fragmented-read-test.c:114-132 | The number of small files is the number of complete ones that fit, plus one |
| ReadTestCommand.HangsIff | demo/fragmented-read-test.c:369-428 | For every free space and unit size, the exact condition under which the command ends, computed from the number of small files that fit; up to 201326593 of them it hangs for one number in eight |
| Stamps.HtonlStoresBigEndian | demo/sd-card-test.c:149-151 | The bytes of a `htonl` value in little-endian memory are the big-endian encoding |
| Stamps.StampInWord | demo/sd-card-test.c:143-173 | The stamps of a word's positions are the bytes of that word |
| Stamps.StampedSplit | demo/sd-card-test.c:143-173 | Splitting law: the stamps of n+m positions are those of n and then those of the m after them, for every start and alignment |
| Stamps.StampedWrapped | demo/sd-card-test.c:143-173 | Positions go on from 0 after 2^32-1 |
| BlockWriter.CopyBytes | demo/sd-card-test.c:155-171 | `memcpy` into the block at a position, and nothing else changed |
| BlockWriter.NetworkBytes | demo/sd-card-test.c:149-151 | The bytes of `value_n` in memory are those of `value_h`, the most significant first |
| BlockWriter.WritePart | demo/sd-card-test.c:153-172 | Copying a part of a word continues the stamps already written |
| BlockWriter.FillBlock | demo/sd-card-test.c:143-173 | Head, words and tail write the stamp of every position and nothing beyond the size, for every size and start |
| StampIdentity.NextWordByte | demo/sd-card-test.c:164 | From a word to the next its last byte grows by 4 and the others by 0 or 1, modulo 256 |
| StampIdentity.StampsDiffer | demo/sd-card-test.c:143-173 | Blocks of seven or more bytes with equal stamps have the same start, whatever the alignment |
| StampIdentity.IdentifiesIff | demo/sd-card-test.c:143-173 | A size identifies the start of its blocks if and only if it is at least 7 |
| Schedule.Length | demo/sd-card-test.c:195 | No transfer is longer than the block buffer, also where the difference wraps |
| Schedule.EndsAfterBlockCountIff | demo/sd-card-test.c:192-203 | The loop runs once for every block that the size needs if and only if no sum of the loop wraps |
| Schedule.NeverStarts | demo/sd-card-test.c:192-203 | With size 0 or a sum of start and size that wraps, the loop does not run |
| Strides.StrideIsGreatest | demo/sd-card-test.c:192-194 | The stride is the greatest common divisor of the block size and 2^32 |
| Strides.StepsTo | demo/sd-card-test.c:192-194 | A counter that steps by the block size modulo a power of two comes to every multiple of the stride; the function finds after how many steps |
| Schedule.ClassKept | demo/sd-card-test.c:192-194 | `current` stays in the class of the start modulo the stride |
| Schedule.LastIsReached | demo/sd-card-test.c:192-194 | For all parameters, `current` comes to the last position of the class of the start modulo the stride |
| Schedule.SameCurrentIff | demo/sd-card-test.c:192-203 | Two blocks start at the same position if and only if their numbers differ by a multiple of 2^32 divided by the stride |
| Schedule.EndsIff | demo/sd-card-test.c:192-203 | For all parameters, the loop ends if and only if the sum of start and size wraps or is at most the last position of the class of start, which is 2^32 - g + start % g for the stride g |
| Schedule.NeverEnds | demo/sd-card-test.c:192-203 | A loop for which that condition fails goes on after any number of blocks |
| Schedule.WrapsForever | demo/sd-card-test.c:192-203 | Start 0, size 2^32-1, block size 512: the loop never ends although no block size is 0 and no sum of start and size wraps |
| Schedule.ZeroBlockSizeLoops | demo/sd-card-test.c:94-203 | With block size 0, and a pointer from `malloc(0)` that is not null, a loop that starts never ends and moves no byte |
| Contiguity.ContiguousIff | demo/sd-card-test.c:192-203 | Where no sum of the loop wraps, it visits the positions start to start+size-1 in order if and only if start is 0, or start is greater than size and the block size divides size |
| Contiguity.BrokenSchedule | demo/sd-card-test.c:192-203 | Where no sum wraps, with a start from 1 to the size: where the schedule leaves the intended positions, where it goes on and for how long |
| Contiguity.IntendedBytesIff | demo/sd-card-test.c:192-203 | Where no sum wraps, the bytes written are the intended pattern if and only if the positions are, or the few bytes after the gap coincide |
| Contiguity.IntendedBytesFromSeven | demo/sd-card-test.c:192-203 | Where no sum wraps, from start 7 on, if and only if start is greater than size and the block size divides size |
| Contiguity.CoincidenceIsShort | demo/sd-card-test.c:192-203 | A coincidence needs a start of 2 to 6 |
| Contiguity.CoincidenceExists | demo/sd-card-test.c:192-203 | Start 2, size 3, block size 2: wrong positions, right bytes |
| Coincidences.CoincidesIff | demo/sd-card-test.c:192-203 | For each start from 2 to 6, which bytes of the word that the size lies in must agree for a coincidence |
| Coincidences.CoincidingPairs | demo/sd-card-test.c:192-203 | Only five of the eight pairs of such a start and a block size that divides it can coincide |
| Coincidences.IntendedBytesByWord | demo/sd-card-test.c:143-203 | Where no sum wraps, the bytes written are the intended pattern if and only if the positions are in order or those bytes agree |
| Wrapping.PositionsIff | demo/sd-card-test.c:192-203 | For every loop that ends, whether a sum wraps or not, the positions visited are the intended ones if and only if no sum wraps and start and block size are in order |
| Wrapping.IntendedIff | demo/sd-card-test.c:143-203 | For every loop that ends, the exact condition for the intended bytes: no sum wraps and the positions are in order or the bytes of the word of the size agree, or it is one of four sets of parameters |
| Wrapping.IntendedFromSevenIff | demo/sd-card-test.c:192-203 | For every loop that ends, from start 7 on: no sum wraps, start is greater than size, and the block size divides size |
| Wrapping.StepWorks | demo/sd-card-test.c:192-203 | Where the block size is 2^32 less 1 to 3, the loop can step back below the start and still write the intended bytes |
| PatternFiles.DataFile.Write | demo/sd-card-test.c:198 | `write` overwrites without truncating and moves the position |
| PatternFiles.DataFile.Read | demo/sd-card-test.c:252 | `read` returns what is there from the position on and moves it |
| PatternFiles.NextCurrent | demo/sd-card-test.c:194 | The unsigned addition that leads to the next block |
| PatternFiles.WriteBlock | demo/sd-card-test.c:195-202 | One block is filled and written behind the others, or a part of it |
| PatternFiles.PatternFill | demo/sd-card-test.c:175-209 | The file begins with the bytes of the blocks done and is as before after them; the ways the loop ends |
| PatternFiles.SelectOutput | demo/sd-card-test.c:77-92 | The output argument gives the short form, a positive limit, or is refused |
| PatternFiles.ReportsAre | demo/sd-card-test.c:266-271 | The long output has one report for each differing block, in order, with its position, pattern and data |
| PatternFiles.Report | demo/sd-card-test.c:258-277 | One block is recorded; in the long output the loop is to stop exactly when the limit is reached |
| PatternFiles.CheckBlock | demo/sd-card-test.c:249-277 | One block is read, compared and recorded, unless it cannot be read in full |
| PatternFiles.PatternCheck | demo/sd-card-test.c:223-285 | What has been printed is what the differing blocks demand; the limit of the long output is reached exactly when the loop stops for it |
| ErrorReport.EndingRunIsDistinct | demo/sd-card-test.c:246-248 | In a loop that ends no position is met twice |
| ErrorReport.DistinctIff | demo/sd-card-test.c:246-248 | For every schedule, the first k blocks start at different positions if and only if k is at most the period |
| ErrorReport.ShortOutputIsLossless | demo/sd-card-test.c:258-265 | Where no position is met twice, the printed ERR and OK lines give back the status of every block compared |
| ErrorReport.LosslessIff | demo/sd-card-test.c:258-265 | For every schedule and number of blocks k: the lines tell all statuses of k blocks apart if and only if k is at most the period |
| ErrorReport.SecondRoundLooksLikeFirst | demo/sd-card-test.c:258-265 | With more blocks than the period, one line is printed alike whether all blocks differ or only those from the second round on |
| ErrorReport.ShortOutputLoses | demo/sd-card-test.c:246-265 | Start 0, size 2^32-1, block size 512: after 2^23 blocks the loop goes on and the lines are ambiguous |
| ErrorReport.ShortOutputAlternates | demo/sd-card-test.c:258-265 | ERR and OK alternate, beginning with ERR |
| ErrorReport.BadIndicesAre | demo/sd-card-test.c:266-272 | The numbers of the differing blocks: all of them, only them, in order |
| ErrorReport.LongOutputIsFirst | demo/sd-card-test.c:266-277 | An early end reports the first differing blocks up to the limit, the last of them being the last block compared |
| PatternLaws.FillThenCheck | demo/sd-card-test.c:175-285 | Round trip with the same parameters: after a complete fill a check reports nothing and is complete, for all parameters |
| BlockSizes.BeginsIff | demo/sd-card-test.c:192-203 | For the same start and size, where no sum wraps, one block size writes the beginning of what another writes if and only if it writes no more and goes on after the gap at the same place, or for fewer than seven bytes by coincidence |
| BlockSizes.CoincidingTailsAreShort | demo/sd-card-test.c:192-203 | Such a coincidence needs a block size of at most 6 and a start of at most 12 |
| BlockSizes.BlockSizesDiffer | demo/sd-card-test.c:192-203 | Start 100, size 10: block size 4 writes more than block size 5 |
| PatternLaws.HoldsAfterFillIff | demo/sd-card-test.c:175-285 | Where no sum wraps, the exact condition on start, size, the two block sizes and the data before, under which the file holds after a fill what a check with another block size expects |
| PatternLaws.CheckFile | demo/sd-card-test.c:223-285 | Without faults a check is complete and says nothing if and only if the file begins with the blocks of the schedule |
| PatternLaws.FillThenCheckWith | demo/sd-card-test.c:175-285 | For any two sets of parameters: a fill that fits is complete without faults, and a check after it is complete and says nothing if and only if the file then begins with the blocks that the check expects |
| PatternLaws.FillThenCheckOtherBlockSize | demo/sd-card-test.c:175-285 | Block size independence where no sum wraps: for the same start and size, the exact condition under which a check with another block size says nothing; where both are in order it always does, and the file begins with the intended pattern and is otherwise as before |
| PatternLaws.FillIsComplete | demo/sd-card-test.c:192-203 | A fill whose blocks fit the file is complete unless a write fails |
| PatternLaws.MisplacedBlockIsSeen | demo/sd-card-test.c:251-257 | A block of seven or more bytes that belongs elsewhere never compares equal |
| PatternLaws.ShortOutputTellsAll | demo/sd-card-test.c:246-278 | From the short output of a check of at most as many blocks as the period, whether the loop ends or not, one can read off which of the compared blocks differ from the pattern |
| PatternLaws.ShortOutputTellsAllOfEnding | demo/sd-card-test.c:246-278 | That covers every check of a loop that ends |
| PatternLaws.LongOutputTellsFirst | demo/sd-card-test.c:246-278 | The long output reports the first differing blocks of the file, as many as there are up to the limit, and an early stop is at the last one allowed |

## Left out

- FillDiskWithSmallFiles: the model watches fewer than 2^31 files, so that the counter does not wrap and its
  `int` value is not negative; a FAT32 volume has fewer allocation units than that.
- CheckReadSpeedOfBigFile: the bytes of a try are counted mathematically; the source adds them in a signed 32-bit
  variable (demo/fragmented-read-test.c:264, 303), which overflows for a big file of 2 GiB or more.
- BeginsIff: where a sum of a loop wraps, there is no condition on the two block sizes; FillThenCheckWith covers that
  case by comparing what the blocks contain.
- HoldsAfterFillIff: the same, where a sum of a loop wraps.
- FillThenCheckOtherBlockSize: the same, where a sum of a loop wraps.
- Volume: a file can take all the units there are, without a maximal size; directory entries take no space, and the
  file system is one directory with small files and one big file.
- DataFile: a transfer of 2 GiB or more, whose size changes sign in the comparison with the result, compares as
  the mathematical number here.
- Clocks, floating point and the report of check_read_speed_of_big_file (demo/fragmented-read-test.c:255-324).
- PatternFill: the command's own result is 0 however the loop ends, and so is that of PatternCheck; `End` tells
  the ways apart that only the printed warnings tell.
- Building path names, printing, `sync`, `close`, and the parsing of command lines, except for the choice of the output.
- Allocation of the block buffers of the pattern test always succeeds, also for block size 0.
- demo/1wire.c, demo/pmod_rfid.c and demo/init.c, and the device tree headers under external/.
