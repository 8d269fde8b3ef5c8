# A verified model of stressapptest's core

stressapptest hands fixed-size blocks of memory ("pages") between concurrent workers that fill,
copy, invert and check them. This project models the parts on which its verdicts depend and
proves, in Dafny 4.11, what they promise. `dafny verify dfyconfig.toml` checks everything.

How the files build on each other:

- **The page queue.** `Common`, `NumberTheory`, `Pigeonhole`, `HullDobell`, `Proth`, `PrimeChain` and `Sums`
  hold the mathematics. `Generator` is the constructor's search for a linear congruential
  generator, `FineLockQueue` its probe path, `PageQueue` the queue object.
- **The phases.** `PageSweep` is fill and final drain; `QueueSplit` the pass that marks pages
  empty and tags them; `Runtime` every worker's loop over the page table and its memory, with
  peek, try-lock, re-check, entry write and unlock as separate steps, as in `PageSweep`;
  `Availability` the same machine with undisturbed scans; `Phases` joins them into one run;
  `PauseProtocol` is the worker barrier.
- **The data.** `Adler` and `AdlerCopy` are the checksum and its copying forms, `Patterns` the
  pattern generator, `CheckRegion` word comparison, repair and block-error classification,
  `PageMemory` whole-page operations.
- **The structures.** `PageRing` is the coarse queue, `DiskBlocks` the disk block table,
  `LoggerQueue` the logger, `Bits` and `Sm8975` the address and packet mapping.

## Reading notes

- Memory is an array of 32-bit words; 64-bit word i is words 2i (low) and 2i+1 (high), as on a
  little-endian machine. Checksum registers are unbounded numbers with explicit reduction modulo
  2^64. Masking with a table's mask is reduction modulo its size, all sizes being powers of two.
- `random()`, the clock, error stops and physical regions are parameters or arbitrary choices of
  a step, so every theorem holds for all of them.
- getC returns the largest prime not above 3m/4+1. Whether it divides the modulus decides whether
  the path is full, for every m (`ChooseGenerator`, `IncrementDecides`, `NeedsCoprimeIncrement`);
  up to 2^32 a chain of certified primes shows that it never does, so the queue object assumes a
  size of at most 2^32 - 8, where the 64-bit product of the path does not wrap either.
- Where code and documentation disagree the code is followed. The checksum's size guard counts
  8-byte words although the stated limit is in bytes (src/adler32memcpy.cc:54-57, 90-95), so the
  scalar forms accept data that wraps a register; `WrapLimit` gives the exact size from which
  such data exists, and `ChecksumDistance` holds for every accepted size all the same.
  src/logger.h:101-104 says a producer blocks if its line would exceed kMaxQueueSize; the wait
  is an `if`, so with n producers the queue reaches kMaxQueueSize + n - 1 (`BoundIsAttained`) and
  the documented limit holds exactly for one producer (`LimitHoldsForOne`). The disk writer calls the accessor `initialized()`
  where it means to set the flag (src/worker.cc:3848), so setting it is its own operation here:
  `GetUnusedBlock` creates blocks that `GetRandomBlock` refuses until `SetInitialized`.
- The untagged mark 0xf001 and the tag of region 0 share a bit, so the split may fetch a page
  twice and leave another untagged (`OnePageMissed`); `TaggingCondition` says exactly when it
  cannot.
- status_rwlock_ prefers writers where the platform allows it (src/worker.cc:243-249). The pause
  protocol's safety holds for every step a plain lock would allow; freedom from deadlock and
  progress are proved for the lock that holds back new readers while a writer waits.

## Model

| member | source | states |
|---|---|---|
| HullDobell.GeoDivisible | src/finelock_queue.cc:99-101 | m divides 1 + a + ... + a^(n-1) exactly when it divides n, if a - 1 is divisible by m's primes, and by 4 when m is |
| HullDobell.FullPeriod | src/finelock_queue.cc:66-71 | two points of the path coincide exactly when the modulus divides their distance (Hull-Dobell) |
| HullDobell.VisitsAll | src/finelock_queue.cc:66-71 | the first m points of the path are the m residues, each once |
| HullDobell.NeedsCoprimeIncrement | src/finelock_queue.cc:124-127 | with an increment that shares a prime with m the path never reaches a neighbour of its start |
| Proth.ProthPrime | src/finelock_queue.cc:127-146 | a squaring certificate proves primality; the tool behind the bound on getC |
| PrimeChain.Bracket | src/finelock_queue.cc:127-146 | for every m from 5 to 2^32 there is a prime between m/2 and 3m/4+1 |
| Generator.GetA | src/finelock_queue.cc:102-122 | the result is the product of m's primes (doubled when 4 divides m) plus one, reduced; a - 1 is divisible by all of them; it is not 1 when 8 divides m |
| Generator.GetAIsLeast | src/finelock_queue.cc:102-122 | the result is the least multiplier other than 1 that meets the conditions, and 1 exactly when there is none below m |
| Generator.DivideAll | src/finelock_queue.cc:111-116 | dividing a factor out completely leaves a number it does not divide, with the same other prime factors |
| Generator.GetC | src/finelock_queue.cc:127-146 | the largest prime not above 3m/4+1, or 1 if there is none |
| Generator.IncrementIsCoprime | src/finelock_queue.cc:127-146 | the increment is coprime to every modulus from 5 to 2^32 |
| Generator.IncrementDecides | src/finelock_queue.cc:127-146 | for a modulus of any size the increment is coprime to it exactly when it does not divide it |
| Generator.NontrivialModulus | src/finelock_queue.cc:85-91 | moduli 3 and 4 never end the search |
| Generator.ChooseGenerator | src/finelock_queue.cc:72-96 | for every size from 3 the modulus is the least one from the size on that has a multiplier other than 1, at most seven larger, with its least such multiplier and the largest prime in range; the path is full exactly when the increment does not divide the modulus, hence always up to 2^32 - 8 |
| FineLockQueue.ProbePermutation | src/finelock_queue.cc:346-371 | one scan examines every index exactly once, for every start |
| FineLockQueue.ProbeCount | src/finelock_queue.cc:357-371 | after k probes the path has met exactly k values inside the queue |
| FineLockQueue.SkipsAreShort | src/finelock_queue.cc:364-371 | the discard loop skips at most seven values in a row |
| PageQueue.NoWrap | src/finelock_queue.cc:365-371 | the 64-bit product of the path never wraps below the size bound |
| PageQueue.PathCloses | src/finelock_queue.cc:365-371 | after modlength steps the path is back at its first value |
| PageQueue.MatchLaws | src/finelock_queue.cc:373-380 | a page is wanted as Valid or as Empty, never both, and without a tag any page will do |
| PageQueue.TagLaws | src/finelock_queue.cc:377-379 | asking for two tags finds what either finds; a tagged page is found by its own tag, an untagged one by none |
| PageQueue.TouchCounts | src/finelock_queue.cc:386-395 | the touch counter counts the reads of a Valid page in 32 bits and nothing else of the record changes |
| PageQueue.FineLockPEQueue.constructor | src/finelock_queue.cc:37-97 | a queue with every page locked and exactly the generator the search finds, so a full path |
| PageQueue.FineLockPEQueue.NextTry | src/finelock_queue.cc:364-371 | advancing past out-of-range values lands on the next probe and terminates |
| PageQueue.FineLockPEQueue.GetRandomWithPredicateTag | src/finelock_queue.cc:346-403 | on a quiescent queue a page is found if and only if a matching unlocked one exists; it is the first in probe order, and only its lock changes |
| PageQueue.FineLockPEQueue.CanBeTaken | src/finelock_queue.cc:353-371 | for every available page there is a start from which a scan takes it first |
| PageQueue.FineLockPEQueue.PutEmpty | src/finelock_queue.cc:439-452 | exactly the page's slot is overwritten without a pattern and unlocked; refused exactly for an index outside the queue |
| PageQueue.FineLockPEQueue.PutValid | src/finelock_queue.cc:458-468 | exactly the page's slot is overwritten and unlocked; refused exactly without a pattern or for an index outside |
| PageSweep.ProbesAreScanOrder | src/finelock_queue.cc:357-371 | every real scan is one of the orders the concurrent model ranges over |
| PageSweep.StepInv | src/finelock_queue.cc:373-399 | peek, try-lock, re-check, entry write and unlock keep: a lock has one owner, a page a scan has passed is out of its reach for good, a page was handled exactly if its kind changed |
| PageSweep.RunInv | src/finelock_queue.cc:357-403 | that invariant in every state of every interleaving |
| PageSweep.RunIsBounded | src/worker.cc:2043-2115 | every run of fill or drain ends, within a bound computed from its first state |
| PageSweep.StuckIsDone | src/worker.cc:2043-2115 | a run that cannot go on has no unfinished worker |
| PageSweep.DrainIsComplete | src/worker.cc:2043-2115 | when the final-check workers have stopped no page is Valid or locked, and each page that was Valid was checked exactly once |
| PageSweep.QuotasAddUp | src/sat.cc:576-586 | the fill quotas add up to the number of pages |
| PageSweep.QuotasAreEven | src/sat.cc:580-583 | all workers but the last get the same quota, the last at least that and less than one page per worker more |
| PageSweep.QuotaIsNatural | src/sat.cc:576-586 | no quota is negative |
| PageSweep.FillNeverStarves | src/worker.cc:863-880 | no fill worker's scan ever fails, in any interleaving |
| PageSweep.FillIsComplete | src/worker.cc:863-922 | when the fill ends every page is Valid, unlocked and was filled exactly once |
| QueueSplit.FreePages | src/sat.cc:645-677 | two fifths of the pages, or one in a hundred plus twice the need, between the workers' need and half of all pages; for each queue exactly when it is refused |
| QueueSplit.History | src/sat.cc:823-843 | a record is untouched until it is fetched and tagged from then on; its pattern and write frequency are gone exactly if one of the first freepages rounds fetched it |
| QueueSplit.EmptyCount | src/sat.cc:837-843 | after the pass exactly freepages records are empty |
| QueueSplit.SomeUntagged | src/sat.cc:823-826 | while fewer rounds were made than there are pages, one page still carries the untagged mark |
| QueueSplit.EveryPageTagged | src/sat.cc:823-843 | if no region tag shares a bit with the untagged mark, every page is fetched exactly once and ends with its region tag |
| QueueSplit.TaggingCondition | src/sat.cc:823-848 | whatever the scans choose every page is fetched once, exactly when no region tag shares a bit with the mark or at most one round puts a page back Valid |
| QueueSplit.RegionsThatShare | src/queue.h:35 | only the tags of regions 0 and 12 to 15 share a bit with the mark |
| QueueSplit.OnePageMissed | src/sat.cc:823-848 | two pages of region 0: both rounds may fetch the first, and the second stays untagged |
| QueueSplit.SplitPages | src/sat.cc:821-849 | the split always completes, by legal fetches only, with exactly freepages Empty pages and the others Valid with their patterns, unlocked; with its region tag on every page if no tag shares a bit with the mark |
| Runtime.StepInv | src/worker.cc:2043-2389 | every peek, try-lock, re-check, entry write, unlock and page operation of a fill, copy, invert or check worker keeps: a lock has one holder, unlocked Valid pages hold their pattern, no error was reported |
| Runtime.HeldOnce | src/finelock_queue.cc:373-399 | no page is held by two workers, during a scan or after it |
| Runtime.NoFalseAlarms | src/worker.cc:2043-2389 | in every state of every interleaving on fault-free memory, drain and overtaken scans included, each unlocked Valid page is exactly its pattern's image and no check or copy has returned an error |
| Runtime.CheckAlarms | src/worker.cc:1365-1426 | in any state, checking a page corrupted in at most two words of each lane of a block raises the error count and repairs the page |
| Runtime.CopyAlarms | src/worker.cc:1717-1844 | a checking copy of such a page does the same and the copy is good |
| Runtime.EntryStep | src/worker.cc:863-2389 | what every step of every worker does to every table entry: only fill, copy-destination, copy-source and drain puts touch one, with the pattern written, the source's or none |
| Runtime.EntriesStep | src/worker.cc:863-2389 | a page becomes Valid exactly at a fill put or a copy's destination put, and Empty exactly at a copy's source put or a drain put |
| Runtime.ValidCount | src/worker.cc:863-2389 | in every state of every run the Valid entries are those at the start plus pages filled and copied to, minus pages copied from and drained |
| Runtime.FillRound | src/worker.cc:863-922 | a fill worker's undisturbed round turns an Empty page into a Valid one holding the pattern it wrote |
| Runtime.CopyRound | src/worker.cc:2208-2298 | a copy worker's undisturbed round gives the destination the source's pattern and contents and leaves the source Empty |
| Runtime.InvertRound | src/worker.cc:2316-2382 | an invert worker's undisturbed round, with both its checks, changes nothing |
| Runtime.CheckRound | src/worker.cc:2053-2115 | a check worker's undisturbed round changes nothing, or empties the page when it drains |
| Runtime.EveryCheckPasses | src/worker.cc:2273-2281 | wherever a worker may check the page it holds, on fault-free memory it finds and changes nothing |
| Availability.TakeIsThreeSteps | src/finelock_queue.cc:373-399 | an undisturbed scan is peek, try-lock and re-check of the fine-grained machine in a row |
| Availability.PutsStep | src/worker.cc:2283-2286 | in the runtime phase entries change kind only at a copy worker's two puts |
| Availability.ConservedStep | src/worker.cc:2208-2298 | Empty entries plus copy workers between their puts stay equal to freepages |
| Availability.NoScanFails | src/worker.cc:2208-2227 | with workers <= freepages <= pages/2 no undisturbed scan can fail |
| Availability.NeverStarves | src/worker.cc:2197-2389 | conservation and availability in every state of every run after the split |
| Phases.WholeTest | src/sat.cc:642-860 | fill, split, runtime and final check as one run: no fill or runtime scan fails, no error is reported, and the final check checks exactly the pages that are not free, once each, and leaves none Valid |
| Phases.SplitHandsOver | src/sat.cc:645-677 | what the split leaves is a state from which the runtime never starves |
| PauseProtocol.WorkerStepInv | src/worker.cc:283-346 | a worker's step keeps: capacity is live workers plus one, waiting threads are counted, nobody is on the wrong side of the barrier |
| PauseProtocol.ControlStepInv | src/worker.cc:268-281 | the same for the control thread's steps |
| PauseProtocol.RunInv | src/worker.h:112-228 | that invariant for any number of workers, any early exits and any interleaving |
| PauseProtocol.PausedMeansParked | src/worker.cc:268-271 | when PauseWorkers has returned every live worker is between its two waits |
| PauseProtocol.RebuiltOnlyUnused | src/worker.cc:315-346 | the barrier is rebuilt only while nobody waits on it |
| PauseProtocol.NoDeadlock | src/worker.cc:239-346 | although a waiting writer holds back new readers, a call of the control thread can always go on, and outside a pause a live worker can |
| PauseProtocol.WaitingEnds | src/worker.cc:243-309 | from the request for the write lock on, every step of anybody brings the return of the pause, resume or stop call nearer |
| PauseProtocol.CallsAchieve | src/worker.cc:268-281 | over runs PauseWorkers returns with status PAUSE, ResumeWorkers with RUN, StopWorkers with STOP, before or after a pause |
| PauseProtocol.Answers | src/worker.cc:283-309 | ContinueRunning answers true exactly under RUN and false exactly under STOP |
| PauseProtocol.OnlyWhenAsked | src/worker.cc:283-346 | a worker is told to go on or to stop only when it asks, under that status, and one that leaves never comes back |
| PauseProtocol.ToldMeansStopped | src/worker.cc:283-309 | a worker has been told to stop only after StopWorkers has returned |
| PauseProtocol.StopIsFinal | src/worker.cc:278-346 | after StopWorkers every step takes a worker nearer to leaving, so all leave |
| Adler.RegistersHoldSums | src/adler32memcpy.cc:86-121 | the loop's registers are the two prefix sums of each lane, modulo 2^64 |
| Adler.NoOverflow | src/adler32memcpy.cc:54-62 | no register wraps below the stated 2^19 bytes, nor up to 741440 |
| Adler.WrapLimit | src/adler32memcpy.cc:54-62 | no data of a size wraps a register exactly when a lane has at most 92681 words |
| Adler.LaneDistance | src/adler32memcpy.cc:96-117 | a lane with equal registers that differs in at most two words does not differ, wrapped or not |
| Adler.ChecksumDistance | src/adler32memcpy.cc:65-121 | buffers of any accepted size that differ in at most two words of each lane have equal checksums exactly when they are equal |
| Adler.OneWordDetected | src/adler32memcpy.cc:65-121 | any corruption of one 64-bit word changes the checksum |
| Adler.SumBClosedForm | src/adler32memcpy.cc:96-117 | the second sum is n plus every word times the number of prefixes that hold it |
| Adler.CollisionCondition | src/adler32memcpy.cc:96-117 | two lanes collide exactly when the plain and the position-weighted sum of their differences vanish |
| Adler.ThreePositionsCollide | src/adler32memcpy.cc:96-117 | any three positions of any lane can be changed around a lever without changing the sums |
| Adler.ThreeWordsCollide | src/adler32memcpy.cc:65-121 | two concrete buffers that differ in three words of a lane have the same checksum |
| AdlerCopy.CalculateAdlerChecksum | src/adler32memcpy.cc:86-121 | the lane sums of the buffer modulo 2^64; refused exactly above the code's guard |
| AdlerCopy.AdlerMemcpyC | src/adler32memcpy.cc:124-161 | the same sums, and exactly the destination range becomes the source |
| AdlerCopy.CopyLoads | src/adler32memcpy.cc:276-391 | rounds of vector loads keep registers and copied prefix equal to the scalar loop's |
| AdlerCopy.AdlerMemcpyNeon | src/adler32memcpy.cc:425-526 | on the whole 64-byte blocks the same sums and destination as the scalar copy, without wrapping; with less than one block nothing is copied and stale registers are reported |
| AdlerCopy.AdlerMemcpySse | src/adler32memcpy.cc:263-391 | from 48 bytes the same sums and destination as the scalar copy on all whole groups of 16 bytes, without wrapping; below, nothing is copied and stale registers are reported |
| Patterns.RepeatsEveryBlock | src/pattern.h:63-83 | every pattern at every width, inversion and offset repeats after 1024 words, also across 32-bit index wrap-around |
| Patterns.PlainValue | src/pattern.h:63-69 | a plain pattern holds element j of its table, counted around, in exactly the 2^busshift words of the j-th transfer |
| Patterns.InverseComplements | src/pattern.h:63-83 | an inverted pattern is the complement of the plain one, word by word and bit by bit |
| Patterns.OffsetShifts | src/pattern.h:75-83 | a word offset shifts the pattern |
| Patterns.CalculateCrc | src/pattern.cc:253-287 | the stored checksum is the lane sums of the pattern's first 4 KiB |
| Patterns.SliceHasStoredCrc | src/pattern.cc:253-299 | every 4 KiB slice of a filled page has exactly the stored checksum |
| Patterns.ListIsWellFormed | src/pattern.cc:348-397 | every listed pattern meets the conditions of the above |
| Patterns.ListCovers | src/pattern.cc:348-390 | entry 8t + 4v + w is table t at width 32 * 2^w, inverted exactly if v is 1 |
| Patterns.ListPairs | src/pattern.cc:348-390 | entries 8t + 4 to 8t + 7 are the complements of entries 8t to 8t + 3 |
| Patterns.WalkingTables | src/pattern.cc:31-120 | the walking tables hold one set bit going up and down, its complement, and the two in turn |
| Patterns.SolidTables | src/pattern.cc:122-218 | the short tables hold solid words, or words with their complements |
| Patterns.WeightedChoice | src/pattern.cc:502-517 | pattern i is chosen exactly for the weight(i) residues that belong to it; the search never runs off the list |
| Patterns.TotalWeight | src/pattern.cc:352-392 | the sum of all weights |
| CheckRegion.MismatchesAre | src/worker.cc:1168-1186 | the list holds exactly the mismatching words, ascending |
| CheckRegion.NoMismatches | src/worker.cc:1168-1186 | it is empty exactly when the region holds the pattern |
| CheckRegion.OffsetMoves | src/worker.cc:1176-1180 | a pattern offset moves the expected contents along |
| CheckRegion.FirstPass | src/worker.cc:1165-1215 | the first pass records exactly the mismatches before it stops, and stops early only at the mismatch after the 128th |
| CheckRegion.ProcessQueue | src/worker.cc:1300-1306 | processing the records repairs exactly the words before the stop |
| CheckRegion.Check | src/worker.cc:1145-1357 | for every length and contents: the number of mismatching words, each processed once and in order, and the region left equal to the pattern |
| CheckRegion.Classify | src/worker.cc:1218-1296 | an alternate pattern is reported if and only if some interval holds it with the expected pattern elsewhere and a mismatch exists; the reported interval is one |
| PageMemory.FillPage | src/worker.cc:722-787 | both directions and both index calculations leave the page equal to the pattern's image |
| PageMemory.DetectedHasMismatch | src/worker.cc:1390-1410 | on stable memory a checksum mismatch always comes with a mismatching word |
| PageMemory.CrcCheckPage | src/worker.cc:1365-1426 | the errors are the mismatches of the blocks whose checksum is wrong and of the tail; those parts are repaired and nothing else changes |
| PageMemory.CleanPage | src/worker.cc:1365-1426 | a page that holds its pattern is reported clean and left alone |
| PageMemory.NoErrorsUnchanged | src/worker.cc:1365-1426 | a check that reports nothing changes nothing |
| PageMemory.RepairIsComplete | src/worker.cc:1365-1426 | corruption of at most two words in each lane of each block is counted completely and undone |
| PageMemory.CorruptionIsReported | src/worker.cc:1365-1426 | such corruption never goes unreported |
| PageMemory.CrcCopyPage | src/worker.cc:1717-1844 | errors and source as for the check; the destination is the source's old contents, or a fresh image when there was any error |
| PageMemory.InvertWordsUp | src/invert_workload.h:15-34 | exactly the first words are complemented; refused exactly for bad sizes |
| PageMemory.InvertWordsDown | src/invert_workload.h:38-56 | the same from the high end |
| PageMemory.InvertFlips | src/invert_workload.h:25-31 | exactly the bits of the words in front are flipped |
| PageMemory.InvertFourPasses | src/worker.cc:2341-2348 | up, down, down, up restores every word |
| PageRing.PopConserves | src/queue.cc:96-110 | exchanging with the oldest entry and dropping it loses exactly the entry returned |
| PageRing.PageEntryQueue.constructor | src/queue.cc:28-38 | an empty queue with one spare slot |
| PageRing.PageEntryQueue.Push | src/queue.cc:45-67 | appends, and fails exactly at the declared capacity |
| PageRing.PageEntryQueue.ChooseSlot | src/queue.cc:92-98 | the ring arithmetic names the slot of the drawn queue position |
| PageRing.PageEntryQueue.PopRandom | src/queue.cc:70-118 | fails exactly when empty, conserves the multiset for every random value, and never returns the newest entry while another is present |
| PageRing.HoldOne | src/worker.cc:2139-2171 | a page moves from the valid to the holding queue, or everything is as before |
| PageRing.RestoreInitializationPages | src/sat.cc:470-481 | held pages return to the valid queue; it reports failure exactly when there are fewer than asked for or no room, and one entry is lost exactly when there is no room |
| PageRing.PostFillCheck | src/worker.cc:2128-2185 | every page is checked at most once, all of them when the pass completes, and the valid queue ends with the same multiset, also after an early stop or failure |
| DiskBlocks.IndexedSize | src/disk_blocks.cc:81-130 | position vector and address map have the same number of entries |
| DiskBlocks.IndexedInsert | src/disk_blocks.cc:88-94 | insertion keeps the two mutually inverse |
| DiskBlocks.IndexedRemove | src/disk_blocks.cc:105-119 | swap-removal keeps them mutually inverse |
| DiskBlocks.PlacedDisjoint | src/disk_blocks.cc:230-233 | allocated extents that start at different sectors never overlap, also across segments |
| DiskBlocks.DiskBlockTable.constructor | src/disk_blocks.cc:48-54 | an empty valid table |
| DiskBlocks.DiskBlockTable.SetParameters | src/disk_blocks.cc:180-193 | parameters change only on an empty table, which stays valid |
| DiskBlocks.DiskBlockTable.Disjoint | src/disk_blocks.cc:230-233 | blocks in the table lie inside the device and are pairwise disjoint |
| DiskBlocks.DiskBlockTable.HoldersAreSafe | src/disk_blocks.h:90-107 | whoever holds or finds a block holds a live object |
| DiskBlocks.DiskBlockTable.FindExtent | src/disk_blocks.cc:205-239 | the first of 100 draws that is in range and free, or nothing exactly when all are refused |
| DiskBlocks.DiskBlockTable.CandidateInside | src/disk_blocks.cc:210-229 | a proposed extent lies inside its segment, at a whole block of it |
| DiskBlocks.DiskBlockTable.EveryExtentDrawn | src/disk_blocks.cc:212-220 | every whole block of the segment can be proposed |
| DiskBlocks.DiskBlockTable.GetUnusedBlock | src/disk_blocks.cc:195-256 | a fresh block at that extent, referenced once and not readable, with the table otherwise unchanged |
| DiskBlocks.DiskBlockTable.InsertOnStructure | src/disk_blocks.cc:81-97 | the block is the last entry of the index |
| DiskBlocks.DiskBlockTable.SetInitialized | src/disk_blocks.cc:34-38 | only the flag changes |
| DiskBlocks.DiskBlockTable.GetRandomBlock | src/disk_blocks.cc:147-178 | the listed block at the drawn position with one more reference, exactly if it is initialized and the wait did not time out |
| DiskBlocks.DiskBlockTable.ReleaseBlock | src/disk_blocks.cc:132-145 | the object is freed exactly when the caller was its last holder |
| DiskBlocks.DiskBlockTable.RemoveBlock | src/disk_blocks.cc:99-130 | the entry at the block's address leaves the table and nothing else does; the object is freed exactly with its last reference; refused exactly when the address is not listed; the table stays valid exactly when the entry was the block's own |
| LoggerQueue.StepInv | src/logger.cc:290-358 | every step keeps order, marker position, no lost wake-up and the bound |
| LoggerQueue.RunInv | src/logger.cc:290-358 | in every state of every run: written, then local queue, then shared queue are the accepted lines in order; nobody waits without a pending wake-up; the queue exceeds kMaxQueueSize by at most one line per producer but one, and one per spurious wake-up |
| LoggerQueue.BoundIsAttained | src/logger.cc:294-301 | for every number of producers a run without spurious wake-ups reaches that bound |
| LoggerQueue.LimitHoldsForOne | src/logger.cc:294-301 | the documented limit holds on all such runs exactly when at most one thread logs |
| LoggerQueue.NoLineLost | src/logger.cc:290-306 | over runs every line handed to the logger is accepted once or still with the call that waits to queue it |
| LoggerQueue.LoggerSettles | src/logger.cc:326-358 | without new lines every step of the logger brings it nearer to sleep or to its end |
| LoggerQueue.EndIsLast | src/logger.cc:348-352 | the end marker is the last thing queued anywhere |
| LoggerQueue.StopWritesAll | src/logger.cc:254-271 | when StopThread returns every accepted line has been written |
| LoggerQueue.NotStuck | src/logger.cc:290-358 | unless everything is quiet some thread can move |
| LoggerQueue.StopReturns | src/logger.cc:254-271 | every step after the stop request brings StopThread nearer to its return |
| LoggerQueue.WaitersAreWoken | src/logger.cc:294-297 | a waiting producer is woken after a number of logger steps that others cannot lengthen |
| Sm8975.NormalizeWindows | src/sm8975_mapping.h:40-47 | each base is subtracted modulo 2^36, without wrap inside its window; addresses of one window collide exactly modulo 2^36 |
| Sm8975.EncodeDecode | src/sm8975_mapping.h:72-124 | bits 5 to 33 of every normalised address are recovered from the topology |
| Sm8975.DecodeEncode | src/sm8975_mapping.h:72-124 | every topology occurs: decoding inverts encoding |
| Sm8975.DecoderIsLinear | src/sm8975_mapping.h:102-124 | the decoder is linear over exclusive or |
| Sm8975.SingleBit | src/sm8975_mapping.h:102-124 | the topology of every single-bit address, from the list of address bits that enter each output bit; with linearity this determines the decoder |
| Sm8975.TopBits | src/sm8975_mapping.h:102-124 | bit 31 alone gives row 0x2000 and bank 1, bit 32 row 0x4000, bank 2 and chip select 1 |
| Sm8975.OneMat | src/sm8975_mapping.h:50-59 | a row lies in at most one mat |
| Sm8975.MatSizes | src/sm8975_mapping.h:50-59 | six mats every 0x2000 rows, of 0x560 rows each but the fourth, which has 0x520 |
| Sm8975.MatForRow | src/sm8975_mapping.h:49-65 | every 15-bit row gets a mat from 0 to 23 that contains it, others none |
| Sm8975.DecodeAddress | src/sm8975_mapping.h:67-129 | the row loop yields address bits 18 to 32, all fields are in range and the mat is always 0 to 23 |
| Sm8975.CellOfDataBit | src/sm8975_mapping.h:157-177 | the closed form finds every data cell again from its bit number |
| Sm8975.DataBitOfCell | src/sm8975_mapping.h:157-177 | and every bit number from its cell: data bits and data cells correspond one to one |
| Sm8975.HexIsByte | src/sm8975_mapping.h:133-145 | the hex table is the byte index in the packet, and -1 exactly at the holes |
| Sm8975.DataBitToCoordinate | src/sm8975_mapping.h:149-179 | the hole-skipping enumeration equals the closed form; nothing exactly from 256 |
| Sm8975.MapMismatchWord32 | src/sm8975_mapping.h:183-214 | exactly the differing bits of the word are listed, ascending, at the word's place in its packet, and the list is a faithful report |
| Sm8975.MapMismatchBits | src/sm8975_mapping.h:219-249 | the halves' lists joined are the list of the 64-bit word and a faithful report of it |
| Sm8975.ReportIsFaithful | src/sm8975_mapping.h:183-249 | popcount(expected xor actual) entries with distinct (dq, bl) and the right byte, which rebuild the exclusive or and so the actual word |

## Left out

- OS layer, argument parsing, log formatting, statistics, DDR frequency control and error reporting to the device tree: system calls and text.
- File, network and raw-disk I/O workers, CPU stress and cache-coherency threads: foreign I/O or hardware.
- Error injection, tag mode, unstable-memory retries and warm copy: they break or repeat the stable-memory paths modelled here.
- The preset fill, which writes constants before the fill proper, and workers that fail to start.
- GetValidByOffset reads one record under its lock for the initial check in address order, GetPageFromPhysical finds the record of a physical address for the error log, and a -P list makes the pattern choice cycle through it: nothing modelled here depends on them.
- The queue's four random generators: the start of a scan is an arbitrary number.
- PageQueue.FineLockPEQueue.GetRandomWithPredicateTag: other workers' moves during a scan are modelled in PageSweep and Runtime, not in the object, where the re-check after the lock cannot fail.
- Availability.NeverStarves: scans are undisturbed and take pages of any tag, because a scan that others overtake may miss pages that become available behind it; a scan that fails then is part of Runtime.
- PauseProtocol.RunInv: pause_rwlock_ is only ever read-locked in the modelled calls and blocks nobody.
- LoggerQueue.RunInv: StartThread and StopThread are called only while no other thread logs, as src/logger.h:113-120 demands.
- DiskBlocks.DiskBlockTable.RemoveBlock: operations are atomic, as with one writer per table.
