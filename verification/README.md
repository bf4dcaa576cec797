# A verified model of the AFL core

This project models the parts of AFL (`docker/AFL`) and of its FairFuzz fork (`docker/afl-rb`) in which state is hard to
keep right, and proves what those parts promise for every input, every target and every run. Check it with
`dafny verify dfyconfig.toml`.

The target program is a deterministic function from test cases to a trace and a status; `hash32` is an uninterpreted
function of the trace; `UR(n)` is any number below `n`. The size of the coverage map is a parameter (a multiple of 8).
Bytes of test cases are numbers 0..255, cells of coverage maps and masks are bit-vectors. File data that the source edits
in place is an `array`; tables and lists that it reassigns are fields of type `seq`.

| file | component |
|---|---|
| `Bytes.dfy` | buffers, block arithmetic, `next_p2` |
| `Coverage.dfy`, `Triage.dfy` | virgin maps, trace simplification, what is saved as new, crash or hang |
| `Sync.dfy`, `SyncRounds.dfy` | any number of fuzzers exchanging queue entries |
| `Corpus.dfy`, `QueueLinks.dfy` | the winner table, culling, the counters; the linked queue with its skip pointers |
| `Tmin.dfy`, `Trim.dfy` | afl-tmin's `minimize`, afl-fuzz's `trim_case` |
| `ForkServer.dfy`, `EdgeLogger.dfy` | the pipe protocol; the two instruction sequences that log edges |
| `Rarity.dfy`, `MaskedHavoc.dfy` | FairFuzz: rare branches, masks, the masked havoc stage |
| `Mutators.dfy`, `PlainHavoc.dfy` | numbers in buffers, block lengths; scores, havoc and splicing |
| `Arith.dfy`, `Interest.dfy`, `Flips.dfy`, `Stages.dfy`, `AutoExtras.dfy` | the deterministic stages and their filters |
| `BitRuns.dfy`, `LostSteps.dfy` | numbers and buffers bit by bit: what the flip stages reach, and which arithmetic steps they do not |

## Main results

- **Sync converges** (`Sync.EveryRunConverges`): over every run of every number of fuzzers, a fuzzer's cleared virgin bits
  are the union of the traces in its own queue, no peer entry is executed twice, and once all marks have caught up all
  virgin maps are equal if and only if every entry that a mark has passed unseen is covered all the same. A session skips
  nothing exactly if its directory scan had no gap (`Sync.SkipsNothingIffGapFree`), a skipped entry is never executed
  later (`Sync.SkippedForGood`), and `Sync.ScanWithGapDiverges` is a run in which a gap leaves the maps different.
- **Fuzzers catch up** (`SyncRounds.FuzzersCatchUp`): every addition to a queue costs a virgin bit, so among more full
  rounds of syncing than there are bits left, one ends with all marks at the ends of the queues.
- **`minimize` makes exactly the passes it promises and is 1-minimal** (`Tmin.Minimizer.Minimize`, `Tmin.RunTmin`): every
  stage of every pass is decided greedily by the target on what the stage before left, although blocks equal to their
  predecessor are skipped (`Tmin.SkippedBlockIsNeeded`).
- **`trim_case` makes exactly the rounds of its schedule** (`Trim.Trimmer.TrimCase`), each with at most 1023 runs; if it
  removes nothing, nothing of any size of the schedule can be removed.
- **The corpus invariant** (`Corpus.Campaign`): `Valid` says that reference counts count slots, compacted traces exist
  exactly while referenced and are right, every slot is held by the best entry that hits it, the three counters count what
  they are named for, and, unless scores have changed since, the favored entries are the greedy picks over the slots in
  ascending order (`Corpus.PicksAreGreedy`, `Corpus.Scheduler.CullQueue`), which cover every slot that has a winner. An
  interrupted trim keeps all of it but the ratings, and those exactly if the winners are still good enough.
- **Word code is byte code** (`Coverage.HasNewBits`, `Coverage.NoveltyAgainstHistory`), and **crash uniqueness is a
  statement about outcomes** (`Coverage.UniqueMeansNewOutcome`, `Triage.Fuzzer.KeepAsCrash`).
- **Replies belong to requests and nobody hangs** (`ForkServer.RepliesMatchRequests`, `NeverStuck`, `ExchangeEnds`).
- **Masked bytes survive** any stack of masked tweaks except the bit flip (`MaskedHavoc.Havoc.Stack`); the flip keeps them
  exactly for the masks that `MaskedHavoc.FlipKeepsIffSafe` describes.
- **A deterministic pass restores its buffer and runs exactly what its stages list**, or, if it is given up, the first
  runs of that list up to the one that asked for it (`Stages.Fuzzer.Deterministic`). It loses no arithmetic step to its
  guards (`Arith.GuardIsExact`, `Stages.NoStepIsLost`), and to its flip filter **exactly the steps by 32 that carry or
  borrow one bit** between the low two bytes of a little-endian number (`Stages.PassCoversSteps`): `could_be_bitflip`
  takes them for flips of four bits, but the walk, which counts bits from the top of each byte, never flips four
  neighbouring bits of a number across a byte boundary (`Stages.FlipLikeIsRun`, `LostSteps.CrossingIsOneCarry`).
  `Stages.CarryIsLost` is an instance. Here the comment on `could_be_bitflip` promises more than the code does, and the
  model follows the code.
- **Havoc makes the planned runs**, doubled by its finds, ends, and stays within the file limit
  (`PlainHavoc.Fuzzer.HavocStage`, `PlainHavoc.Fuzzer.HavocAndSplice`, `PlainHavoc.Fuzzer.Run`).

## Model

| member | source | states |
|---|---|---|
| Bytes.NextP2 | docker/AFL/afl-tmin.c:412-417 | the result is the least power of two that is at least the argument, and less than twice a positive argument |
| Bytes.MoveDown | docker/AFL/afl-fuzz.c:4586-4592 | `memmove` towards the front: the moved bytes arrive even where source and target overlap, everything else stays |
| CellWords.Clear64 | docker/AFL/afl-fuzz.c:907-974 | and-not on a 64-bit word clears each of its eight cells by itself |
| CellWords.Clear32 | docker/AFL/afl-fuzz.c:907-974 | and-not on a 32-bit word clears each of its four cells by itself |
| CellWords.Test64 | docker/AFL/afl-fuzz.c:907-974 | the 64-bit guard holds iff one of the eight cells shares a bit with the map |
| CellWords.Test32 | docker/AFL/afl-fuzz.c:907-974 | the 32-bit guard holds iff one of the four cells shares a bit with the map |
| Coverage.HasNewBits | docker/AFL/afl-fuzz.c:907-974 | both word forms clear exactly the bits of the trace and return the bytewise verdict 0, 1 or 2 |
| Coverage.VirginIsComplement | docker/AFL/afl-fuzz.c:907-974 | after any traces the map is the complement of their OR |
| Coverage.PristineMeansNeverHit | docker/AFL/afl-fuzz.c:907-974 | a cell is still 0xff iff no trace ever hit it |
| Coverage.NoveltyAgainstHistory | docker/AFL/afl-fuzz.c:907-974 | the verdict is 2 iff some cell is hit for the first time ever, and positive iff some count bit is new |
| Coverage.NotNovelIsNoChange | docker/AFL/afl-fuzz.c:907-974 | the verdict is 0 iff the map does not change |
| Coverage.SimplifyTrace | docker/AFL/afl-fuzz.c:1072-1137 | both word forms turn every cell into 1 if it was not hit and 128 if it was |
| Coverage.SimplifiedUnion | docker/AFL/afl-fuzz.c:1072-1137 | in the OR of simplified traces, bit 0 records a miss by some trace and bit 7 a hit by some trace |
| Coverage.UniqueMeansNewOutcome | docker/AFL/afl-fuzz.c:3282-3304 | a simplified trace is new iff it hits a tuple no earlier checked one hit, or misses one that all of them hit |
| Triage.CheckUnique | docker/AFL/afl-fuzz.c:3282-3304 | the check answers that question about all crashes (or hangs) checked before, and records this one |
| Triage.Fuzzer.KeepAsCrash | docker/AFL/afl-fuzz.c:3282-3340 | below the cap a crash is saved iff it is unique; at the cap nothing is saved or recorded; in dumb mode all are saved |
| Triage.Fuzzer.KeepAsHang | docker/AFL/afl-fuzz.c:3219-3280 | a hang is saved iff it is unique and the rerun with the longer timeout confirms it; a rerun that crashes is handled as a crash |
| Triage.Fuzzer.SaveIfInteresting | docker/AFL/afl-fuzz.c:3163-3340 | the queue grows iff the outcome is the explored one and the trace is new to all traces checked before; a timeout is counted, checked and saved as a hang, and a crash as a crash, as above, and nothing else changes those records |
| Sync.StepKeepsInv | docker/AFL/afl-fuzz.c:6709-6824 | every step (a find, a trim, opening a peer with whatever the scan returns, running one of its files, storing the mark) keeps the invariant: below a mark every entry is covered or was skipped |
| Sync.RunKeepsInv | docker/AFL/afl-fuzz.c:6709-6824 | so does every run, and what was skipped stays skipped |
| Sync.CaughtUpCovers | docker/AFL/afl-fuzz.c:6709-6824 | a fuzzer whose mark has reached the end of a peer's queue has cleared all that the peer has, iff it has covered the entries it skipped |
| Sync.EveryRunConverges | docker/AFL/afl-fuzz.c:6709-6824 | from own seeds, over every run and any scans: virgin bits are the complement of the own queue's traces, no peer entry runs twice, and caught-up fuzzers have equal maps iff every entry that a fuzzer skipped is covered by that fuzzer |
| Sync.SkippedForGood | docker/AFL/afl-fuzz.c:6756-6812 | an entry that a mark has passed unseen is never executed, however the run goes on |
| Sync.SkipsNothingIffGapFree | docker/AFL/afl-fuzz.c:6756-6812 | in every reachable state, a session about to end skips nothing iff its scan had no gap |
| Sync.GapFreeRunsConverge | docker/AFL/afl-fuzz.c:6709-6824 | hence over every run whose scans have no gaps, caught-up fuzzers have equal maps |
| Sync.ScanWithGapDiverges | docker/AFL/afl-fuzz.c:6756-6812 | a concrete run with a gap ends caught up with a skipped entry and different maps |
| SyncRounds.RunBudget | docker/AFL/afl-fuzz.c:3163-3215 | over any run, finds included, the entries added to all queues together number at most the virgin bits that were left |
| SyncRounds.FullSyncReaches | docker/AFL/afl-fuzz.c:6709-6824 | a session over the whole queue of a peer, among any other steps, moves the mark at least to where that queue ended before |
| SyncRounds.QuietRoundCatchesUp | docker/AFL/afl-fuzz.c:6709-6824 | after a round in which every fuzzer syncs with every other one and no queue grows, all have caught up |
| SyncRounds.FuzzersCatchUp | docker/AFL/afl-fuzz.c:6709-6824 | among more rounds than there are virgin bits left there is one after which all have caught up, and there the maps are equal iff the skipped entries are covered |
| Corpus.MinimizeBits | docker/AFL/afl-fuzz.c:1241-1252 | bit i of the compacted trace is set iff cell i was hit |
| Corpus.MaskedIsCompact | docker/AFL/afl-fuzz.c:1343-1350 | removing a compacted trace from the bitmap is set difference |
| Corpus.SlotWon | docker/AFL/afl-fuzz.c:1265-1307 | handing a slot over keeps reference counts equal to slots held and compacted traces present iff referenced; the decrement never underflows |
| Corpus.ScoringWins | docker/AFL/afl-fuzz.c:1265-1307 | taking a slot keeps all slots held by entries that are as good as any scored entry hitting them |
| Corpus.Scheduler.UpdateBitmapScore | docker/AFL/afl-fuzz.c:1265-1307 | the entry ends with exactly the hit slots that were free or held by an entry with no smaller time x size; references and ratings stay right |
| Corpus.Scheduler.AddToQueue | docker/AFL/afl-fuzz.c:804-837 | the new entry joins at the end, unfuzzed, unfavored, never calibrated and without a trace, and nothing else changes; the pending count follows |
| Corpus.Scheduler.FinishCalibration | docker/AFL/afl-fuzz.c:2673-2685 | the entry gets its speed and the set of tuples it hits, and competes: it ends with exactly the hit slots that were free or held by an entry with no smaller factor; other entries change at most in their references; the whole invariant holds again |
| Corpus.Scheduler.Calibrate | docker/AFL/afl-fuzz.c:2571-2720 | a failed calibration counts one more failure and changes nothing else; a successful one enters the speed and makes the entry compete, as above |
| Corpus.Scheduler.ApplyTrim | docker/AFL/afl-fuzz.c:4620-4636 | the trimmed entry takes exactly the slots on its tuples that were free or held by an entry with no smaller factor, given its new length; the invariant is kept |
| Corpus.UnscoredTrim | docker/AFL/afl-fuzz.c:4574-4592 | an entry that becomes shorter without competing again keeps references in order, and the ratings iff each winner on its tuples is at most the new factor |
| Corpus.UnscoredTrimCanBreakRatings | docker/AFL/afl-fuzz.c:4574-4592 | two entries for which such a trim breaks the least-factor property |
| Corpus.Scheduler.InterruptTrim | docker/AFL/afl-fuzz.c:4574-4643 | an interrupted trim keeps references, counters and cover, and the whole invariant iff the winners are still good enough |
| Corpus.PickIsNew | docker/AFL/afl-fuzz.c:1338-1357 | the winner of a tuple still open is not favored yet, so no entry is counted twice, and its compacted trace exists |
| Corpus.CullPick | docker/AFL/afl-fuzz.c:1338-1357 | favoring it moves the open tuples, `queued_favored` and `pending_favored` exactly as the code does |
| Corpus.PicksAreGreedy | docker/AFL/afl-fuzz.c:1316-1366 | there is exactly such a set of slots: a slot is picked iff it has a winner and no slot picked before it has a winner that hits it |
| Corpus.CullEnd | docker/AFL/afl-fuzz.c:1316-1366 | at the end the favored entries are the greedy ones, and references and winners are as before |
| Corpus.Scheduler.CullQueue | docker/AFL/afl-fuzz.c:1316-1366 | outside dumb mode an entry is favored iff it wins a picked slot, where a slot is picked iff it has a winner and no slot picked before it has a winner that hits it; hence the favored entries cover every slot that has a winner. Only favored flags and the two counters change, and the counters count what they are named for; in dumb mode nothing changes |
| Corpus.Scheduler.AbandonEntry | docker/AFL/afl-fuzz.c:6670-6678 | exactly the calibrated entry of an uninterrupted run becomes fuzzed; the two pending counters follow without underflow |
| Corpus.Scheduler.QueueCase | docker/AFL/afl-fuzz.c:3185-3213 | the find joins the queue and is calibrated: a failure is counted, a success makes it compete; the invariant is kept |
| Corpus.Scheduler.FuzzOne | docker/AFL/afl-fuzz.c:5087-5135 | an entry whose calibration has failed once or twice is calibrated again; the trim is applied iff no calibration had failed, or that retry succeeds, shows new bits and is not interrupted; the entry then counts as fuzzed iff it did before or the session goes on and no failure is left. Other entries change at most in their references and compacted traces. References, counters and favored entries stay in order; the ratings too, unless a trim was interrupted, and then iff the winners on the tuples of the entry are still good enough |
| Corpus.RunOps | docker/AFL/afl-fuzz.c:8091-8144 | the main loop performs the operations up to the first interruption, each with exactly the effect stated for it, from one snapshot of the scheduler to the next |
| Corpus.Campaign | docker/AFL/afl-fuzz.c:1241-1366 | any sequence of new cases, fuzzings and culls, up to the first interruption, goes from the empty scheduler through such snapshots, and ends with references, counters and favored entries in order, and in a valid state unless that interruption hit a trim, when each entry's set of hit tuples is stable |
| QueueLinks.Queue.AddToQueue | docker/AFL/afl-fuzz.c:804-837 | the entry is appended to the linked list; `next` and `next_100` links stay right |
| QueueLinks.Queue.Seek | docker/AFL/afl-fuzz.c:6603-6608 | following `next_100`, then `next`, lands on exactly entry `tid` |
| QueueLinks.Queue.PickSpliceTarget | docker/AFL/afl-fuzz.c:6601-6620 | after skipping, `splicing_with` is still the index of the target, which is the first suitable entry from `tid` on |
| QueueLinks.BuildAndSeek | docker/AFL/afl-fuzz.c:804-837 | after any additions, seeking finds the very entry that was added as number `tid`; the added entries are distinct and have the given lengths |
| Tmin.KeepMeansSameBehaviour | docker/AFL/afl-tmin.c:355-408 | a candidate is kept iff it behaves like the input: no timeout, a crash iff the input crashes, and the same checksum unless crashes are compared loosely |
| Tmin.OrdinaryExitKeepsTrace | docker/AFL/afl-tmin.c:355-408 | for an input that exits with a code other than 86, where exits do not count as crashes, a kept candidate has its checksum and exits in the same way |
| Tmin.EqualNeighboursDropAlike | docker/AFL/afl-tmin.c:507-521 | dropping either of two equal neighbouring blocks gives the same file |
| Tmin.SkippedBlockIsNeeded | docker/AFL/afl-tmin.c:507-521 | hence the skip after a rejected equal block omits only a rejected candidate, at any position |
| Tmin.Minimizer.TryBlock | docker/AFL/afl-tmin.c:434-473 | a block becomes '0' bytes iff the target accepts that |
| Tmin.Minimizer.NormalizeBlocks | docker/AFL/afl-tmin.c:434-477 | blocks of the least power of two at or above 1/128 of the length, at least 4 bytes, are decided greedily from left to right |
| Tmin.Minimizer.TryDrop | docker/AFL/afl-tmin.c:523-541 | a block is dropped iff the target accepts the rest |
| Tmin.Minimizer.RoundStep | docker/AFL/afl-tmin.c:502-541 | one step of the deletion loop shortens the file or establishes that the block is needed |
| Tmin.Minimizer.DeleteRound | docker/AFL/afl-tmin.c:493-543 | the round leaves the file from which each block was dropped iff the target accepted that, from the front on; a round that drops nothing has shown every block of its size to be needed |
| Tmin.Minimizer.DeleteBlocks | docker/AFL/afl-tmin.c:484-550 | such rounds follow each other, from the least power of two at or above 1/16 of the length down by halves to one byte; if nothing is dropped, no single byte can be |
| Tmin.Minimizer.CountSymbols | docker/AFL/afl-tmin.c:563-572 | a symbol is counted iff it occurs |
| Tmin.Minimizer.MinimizeAlphabet | docker/AFL/afl-tmin.c:559-606 | exactly the symbols whose replacement the target accepts on top of earlier ones are replaced by '0' |
| Tmin.Minimizer.MinimizeCharacters | docker/AFL/afl-tmin.c:608-640 | every byte is decided greedily from left to right |
| Tmin.GreedyBytes | docker/AFL/afl-tmin.c:608-640 | in a greedily zeroed file each byte is '0' iff the target accepted that with the earlier bytes final and the later ones untouched |
| Tmin.Minimizer.Minimize | docker/AFL/afl-tmin.c:423-644 | the result is what one normalization and then the passes make of the input, and nothing else: in each pass the deletion rounds, the greedy replacement of symbols in ascending order, and the greedy replacement of bytes, each from what the one before left. It ends after the first pass that changes nothing, or the first deletion stage after pass one that does not, within length plus non-'0' count plus one passes; the result is accepted, is a subsequence up to '0' replacement, and loses acceptance when any single byte is deleted |
| Tmin.RunTmin | docker/AFL/afl-tmin.c:1135-1159 | for every target and input: no result iff the input times out, or does not crash and leaves an empty trace; otherwise the above for the behaviour of the input, and removing any byte of the result changes that behaviour |
| Trim.RoundIsShort | docker/AFL/afl-fuzz.c:4547-4554 | a block size of at least 1/1024 of the rounded length covers the case with 1024 blocks |
| Trim.RunsBound | docker/AFL/afl-fuzz.c:4554-4611 | hence a round makes at most 1023 runs |
| Trim.Trimmer.CloseGap | docker/AFL/afl-fuzz.c:4584-4592 | the tail moves over the removed block, which is what was run |
| Trim.Trimmer.TryRemove | docker/AFL/afl-fuzz.c:4565-4603 | one candidate is run; a block goes iff the run did not ask to give up and kept the checksum; `aborted` tells whether it asked |
| Trim.Trimmer.TrimRound | docker/AFL/afl-fuzz.c:4554-4611 | the round leaves the case from which each block after the first was removed iff that kept the checksum, and its runs are exactly the candidates on the way; if it is given up, iff its last run, and none before it, asked for that (an interruption or an error), the runs are the first ones of that list; one that removes nothing has shown every block after the first to be needed |
| Trim.Trimmer.TrimCase | docker/AFL/afl-fuzz.c:4526-4643 | the rounds made are exactly those of the schedule: from 1/16 of the rounded length down by halves as long as the size is at least 1/1024 of the rounded current length, both at least 4, each from what the one before left and of at most 1023 runs. It is given up iff the last run it made, and none before it, asked for that; otherwise the file follows. Checksum and first four bytes are kept; if nothing goes, no block of any size Max(p2 / 16, 4) / 2^k that is at least Max(p2 / 1024, 4) can go |
| ForkServer.RunKeepsInv | docker/AFL/afl-as.h:541-601 | every interleaving of fuzzer, server and children, with a server that ends when a read, a write or the wait for its child fails, keeps the protocol invariant |
| ForkServer.RepliesMatchRequests | docker/AFL/afl-fuzz.c:2397-2441 | the k-th pid and status read belong to the child of the k-th request; at most one request and two replies are in flight, never both kinds |
| ForkServer.StepToTake | docker/AFL/afl-as.h:541-601 | unless a child has to end first, a step can be taken |
| ForkServer.NeverStuck | docker/AFL/afl-as.h:541-601 | in every reachable state the fuzzer has given up, a running child is awaited, or a side can move: never do both wait on empty pipes |
| ForkServer.ExchangeEnds | docker/AFL/afl-as.h:541-601 | every step other than a new request or the end of a child brings the exchange closer to its end, which is at most seven steps away |
| Words.Registers32 | docker/AFL/afl-as.h:187-200 | the 32-bit sequence computes the xor of locations and stores half the location |
| Words.Registers64 | docker/AFL/afl-as.h:418-428 | the double-xor 64-bit sequence computes the same |
| Words.EdgeBelow | docker/AFL/afl-as.h:418-428 | locations below a power of two give indices and halves below it |
| EdgeLogger.BumpLogs | docker/AFL/afl-as.h:196-200 | one increment keeps every cell equal to the occurrences of its edge modulo 256 |
| EdgeLogger.Payload32.Run | docker/AFL/afl-as.h:187-200 | after any locations the 32-bit map counts every edge modulo 256 |
| EdgeLogger.Payload64.Run | docker/AFL/afl-as.h:418-428 | after any locations the 64-bit map does |
| EdgeLogger.WalkEmbeds | docker/AFL/afl-as.h:187-200 | widening locations widens all indices and the previous location |
| EdgeLogger.CountEmbeds | docker/AFL/afl-as.h:187-200 | widening keeps how often each edge occurs |
| EdgeLogger.PayloadsAgree | docker/AFL/afl-as.h:418-428 | for any locations both loggers end with the same map and the same previous location |
| EdgeLogger.WalkStaysBelow | docker/AFL/afl-as.h:418-428 | every index of a walk over locations below the map size lies inside the map |
| EdgeLogger.OnlyMapIsTouched | docker/AFL/afl-as.h:418-428 | no cell outside the map is ever written |
| Rarity.HighestOrderBit | docker/afl-rb/afl-fuzz.c:895-899 | the loop computes the floor of the binary logarithm |
| Rarity.Blacklist.Contains | docker/afl-rb/afl-fuzz.c:877-883 | the search up to the sentinel finds exactly the listed ids |
| Rarity.Blacklist.Add | docker/afl-rb/afl-fuzz.c:6005-6016 | appending keeps the list, its sentinel and room for both by doubling |
| Rarity.AtLevelIsExact | docker/afl-rb/afl-fuzz.c:886-929 | the list of a level holds exactly the hit, non-blacklisted branches of that level, ascending |
| Rarity.ScanResult | docker/afl-rb/afl-fuzz.c:886-929 | a scan returns something iff some branch lies below the incoming exponent, which then ends one above the least level |
| Rarity.RareBranches.Scan | docker/afl-rb/afl-fuzz.c:890-916 | one scan, whatever the incoming exponent, keeps the branches at the least level seen below it |
| Rarity.RareBranches.GetLowestHitBranchIds | docker/afl-rb/afl-fuzz.c:886-929 | returns exactly the branches of the least level among those scanned and leaves the exponent one above it; recurses at most once |
| Rarity.ExactIffNothingMissed | docker/afl-rb/afl-fuzz.c:886-929 | the list is exactly the rarest branches of the whole map iff the part left unscanned at the cap of 255 has none as rare; below the cap it always is |
| Mutators.ChooseBlockLen | docker/AFL/afl-fuzz.c:4702-4739 | a block length of at most the limit within the ranges open by now: 1 to 32 always; after ten minutes also 32 to 128 from the second cycle on, and 128 to 1500 or 1500 to 32768 from the third on |
| Mutators.BlocksStartShort | docker/AFL/afl-fuzz.c:4702-4739 | hence blocks have at most 32 bytes in the first cycle or the first ten minutes, and at most 128 in the second cycle |
| Mutators.EncDec | docker/AFL/afl-fuzz.c:5581-5642 | reading a number from a buffer and writing it back changes nothing, at any width |
| Mutators.DecEnc | docker/AFL/afl-fuzz.c:5581-5642 | writing a number and reading it back keeps its low bytes |
| Mutators.ShiftedBack | docker/AFL/afl-fuzz.c:6211-6330 | a step up and the same step down cancel, with wrap-around, at any width and in either byte order |
| Mutators.TweakNumber | docker/AFL/afl-fuzz.c:6172-6338 | cases 1 to 10 give an interesting value, a step by 1..35 down or up, or another byte |
| Mutators.PickToken | docker/AFL/afl-fuzz.c:6444-6475 | a token of one of the non-empty dictionaries |
| Mutators.FlipBit | docker/AFL/afl-fuzz.c:5164-5168 | exactly bit k of the byte, counted from the top, changes |
| Mutators.FlipTwice | docker/AFL/afl-fuzz.c:5164-5168 | flipping a bit twice restores the byte |
| MaskedHavoc.StartsAreExact | docker/afl-rb/afl-fuzz.c:1003-1050 | the candidate list holds exactly the starts of windows inside the map whose cells all allow the change |
| MaskedHavoc.RunAddsWindows | docker/afl-rb/afl-fuzz.c:1010-1037 | closing a run of allowed cells contributes exactly the windows that end in it |
| MaskedHavoc.CollectPositions | docker/afl-rb/afl-fuzz.c:1003-1037 | the loop over runs of allowed cells fills the position map with that list |
| MaskedHavoc.GetRandomModifiablePosn | docker/afl-rb/afl-fuzz.c:1003-1050 | a start of an allowed window, or the sentinel iff there is none |
| MaskedHavoc.GetRandomInsertPosn | docker/afl-rb/afl-fuzz.c:1054-1070 | a place that allows insertion, or the end iff none does |
| MaskedHavoc.OverwriteKeeps | docker/afl-rb/afl-fuzz.c:7252-7282 | overwriting an allowed window keeps all protected bytes in order |
| MaskedHavoc.DeleteKeeps | docker/afl-rb/afl-fuzz.c:7162-7190 | deleting an allowed window from buffer and mask keeps the mask one longer and all protected bytes |
| MaskedHavoc.InsertKeeps | docker/afl-rb/afl-fuzz.c:7192-7250 | inserting into buffer and mask keeps all protected bytes |
| MaskedHavoc.Havoc.TweakSomeNumber | docker/afl-rb/afl-fuzz.c:6992-7160 | a number under an allowed window is tweaked as its case says, nothing else changes; nothing happens iff there is no window |
| MaskedHavoc.Havoc.DeleteBlock | docker/afl-rb/afl-fuzz.c:7162-7190 | one allowed block is cut from buffer and mask alike, or nothing happens because there is a block length for which the mask has no window; the protected bytes survive |
| MaskedHavoc.Havoc.InsertBlock | docker/afl-rb/afl-fuzz.c:7205-7248 | the block is inserted and the mask grows with it, by cells that allow overwriting, deleting and inserting |
| MaskedHavoc.Havoc.CloneBlock | docker/afl-rb/afl-fuzz.c:7192-7250 | unless the file would get too large, a part of the buffer or a constant block is inserted where the mask allows it, or at the end if nowhere; the mask grows alike, and the protected bytes survive |
| MaskedHavoc.Havoc.OverwriteBlock | docker/afl-rb/afl-fuzz.c:7252-7282 | an allowed window is overwritten with a part of the buffer or a constant block, or nothing happens because there is a block length for which the mask has no window; the protected bytes survive |
| MaskedHavoc.Havoc.OverwriteToken | docker/afl-rb/afl-fuzz.c:7284-7324 | a token overwrites an allowed window, or nothing happens because some token has none; the protected bytes survive |
| MaskedHavoc.Havoc.InsertToken | docker/afl-rb/afl-fuzz.c:7326-7398 | a token goes where the mask allows insertion, or at the end if nowhere, unless the file would get too large; the protected bytes survive |
| MaskedHavoc.Havoc.Tweak | docker/afl-rb/afl-fuzz.c:6979-7398 | every case has the effect its number says and keeps the mask `temp_len` + 1 long; every case but the bit flip keeps the protected bytes in order, and so does the flip if the mask is safe for flips |
| MaskedHavoc.Havoc.Stack | docker/afl-rb/afl-fuzz.c:6979-7398 | a stack of any cases, each with the effect its number says, keeps the mask one longer than the buffer; it keeps the protected bytes if every bit flip meets a buffer and mask that are safe for flips |
| MaskedHavoc.Havoc.FlipSomeBit | docker/afl-rb/afl-fuzz.c:6983-6990 | a byte position is used as a bit index: any bit that can be drawn is flipped, or nothing iff none can; the protected bytes survive if the mask is safe for flips |
| MaskedHavoc.FlipKeepsIffSafe | docker/afl-rb/afl-fuzz.c:6983-6990 | every possible draw keeps the protected bytes iff the mask is safe: no bit number j..j+7, for a byte j that may be overwritten, falls into a protected byte |
| MaskedHavoc.FlipCanHitProtected | docker/afl-rb/afl-fuzz.c:6983-6990 | a mask that is not safe, with a draw that changes the protected bytes of every buffer |
| PlainHavoc.CalculateScore | docker/AFL/afl-fuzz.c:4746-4810 | the comparisons on exact fractions give the score of the ranges of speed, coverage, handicap and depth, cut off at 1600; it lies in 2..1600; the handicap is used up by four or by one |
| PlainHavoc.ScoreIsMonotone | docker/AFL/afl-fuzz.c:4746-4810 | an entry that is no slower, hits no fewer cells, is no less deep and no less of a latecomer never scores less |
| PlainHavoc.LocateDiffs | docker/AFL/afl-fuzz.c:541-563 | the first and last differing positions, -1 iff the buffers agree |
| PlainHavoc.Fuzzer.Tweak | docker/AFL/afl-fuzz.c:6165-6535 | every havoc case has the effect its number says, stays in bounds and within 1..MAX_FILE bytes; only the delete, clone and insert cases change the length, each in its direction |
| PlainHavoc.Fuzzer.CloneBlock | docker/AFL/afl-fuzz.c:6365-6413 | unless the file would get too large, a part of the buffer or a constant block is inserted |
| PlainHavoc.Fuzzer.CopyBlock | docker/AFL/afl-fuzz.c:6415-6440 | a part of a buffer of at least two bytes is overwritten with another part or a constant block |
| PlainHavoc.Fuzzer.StackTweaks | docker/AFL/afl-fuzz.c:6155-6536 | a stack of 2 to 128 tweaks, a power of two, each with the effect its number says, stays within the limits |
| PlainHavoc.StageIsBounded | docker/AFL/afl-fuzz.c:6126-6146 | with any divisor, the stage is set to at most 10.24 runs per point of score |
| PlainHavoc.Fuzzer.HavocStage | docker/AFL/afl-fuzz.c:6126-6561 | unless abandoned, the stage makes the planned runs, the larger of 16 and B x score / havocDiv / 100 with B 32 for splices, 1024 after the deterministic stages and 256 otherwise, times two for each run that queued something while score times the doublings so far was at most 1600; without finds, exactly the planned ones. Every buffer run is a stack of 2 to 128 tweaks of the input; the stage is abandoned iff the last run, and none before it, asked for it; everything run and everything queued stays within 1..MAX_FILE |
| PlainHavoc.Fuzzer.Splice | docker/AFL/afl-fuzz.c:6638-6655 | the result is a head of the input and the tail of the target, cut no earlier than the first and before the last position in which they differ within the length of the shorter; none iff no two differing positions reach position 2 |
| PlainHavoc.Fuzzer.PickTarget | docker/AFL/afl-fuzz.c:6601-6622 | from an entry drawn among the others, the first one on that has at least two bytes and is not the current one; none iff there is none from there on |
| PlainHavoc.Fuzzer.HavocAndSplice | docker/AFL/afl-fuzz.c:6118-6660 | a havoc stage on the entry and then, if splicing is on and it was not abandoned, up to 15 attempts in a row, each with no partner, a partner that cannot be spliced, or a havoc stage of the planned length on a splice with a suitable partner; fewer than 15 only if abandoned, or if there is no other entry or just one byte; at most 16 x 32768 runs in all; abandoned iff the last run asked for it |
| PlainHavoc.Fuzzer.Perform | docker/AFL/afl-fuzz.c:6009-6051 | one event of a run (random stages, a deterministic run, an insertion, a trim, an import) changes the queue and the runs as that event does and keeps everything within 1..MAX_FILE |
| PlainHavoc.Fuzzer.Run | docker/AFL/afl-fuzz.c:6118-6660 | any sequence of random and deterministic stages, trims and imports goes through states that differ as each event says; everything queued and everything run has 1..MAX_FILE bytes |
| Arith.ShiftedIsModular | docker/AFL/afl-fuzz.c:4850-4922 | a step by delta leads from one number to another iff they differ by it modulo the width |
| Arith.StepTest | docker/AFL/afl-fuzz.c:4868-4918 | the unsigned distance tests hold, in either byte order, iff a step by 1..35 at that place links the values |
| Arith.FindDiffs | docker/AFL/afl-fuzz.c:4858-4866 | the loops find the one chunk in which the values differ, iff there is exactly one |
| Arith.CouldBeArith | docker/AFL/afl-fuzz.c:4850-4922 | true iff the values are equal or one step by 1..35 on a byte, an aligned half or the whole, in either byte order, links them |
| Arith.GuardIsExact | docker/AFL/afl-fuzz.c:5585-5734 | the carry or borrow guard rejects a step iff the buffer is exactly what the half-width stage makes at i (little endian) or at the upper half (big endian) |
| Arith.CouldBeBitflip | docker/AFL/afl-fuzz.c:4820-4843 | true iff the difference is empty, or one run of 1, 2 or 4 bits anywhere, or of 8, 16 or 32 bits at a byte boundary |
| Interest.CouldBeInterest | docker/AFL/afl-fuzz.c:4931-4996 | true iff the values are equal or differ by one interesting byte, or half in the byte orders already tried, or, for the big-endian attempt, whole |
| Interest.CheckTried | docker/AFL/afl-fuzz.c:5779-5784 | the three filters together skip a value iff its change looks like a flip, an arithmetic step or a narrower interesting value |
| Flips.FlipRunBit | docker/AFL/afl-fuzz.c:5160-5325 | flipping a run of bits changes exactly those bits |
| Flips.FlipRunTwice | docker/AFL/afl-fuzz.c:5300-5325 | flipping the same bits again in the same order restores the buffer |
| Flips.WalkNeverRepeats | docker/AFL/afl-fuzz.c:5174-5325 | different positions of a walk give different buffers, never the input |
| Flips.WalkIsDistinct | docker/AFL/afl-fuzz.c:5174-5325 | so no buffer is run twice by a walk |
| Stages.Fuzzer.WalkBits | docker/AFL/afl-fuzz.c:5170-5325 | the walk runs one buffer per position, restores the input, and `stage_max` is the number of runs; like every stage, it is abandoned iff the last run, and none before it, asked for it, and then its runs are the first ones of the list |
| Stages.Fuzzer.WalkBytes | docker/AFL/afl-fuzz.c:5327-5412 | every byte is run inverted; the effector map marks exactly the first and last block and those with a byte whose inversion changes the checksum, or all blocks if more than 90 percent are marked |
| Stages.Fuzzer.WindowTouches | docker/AFL/afl-fuzz.c:5431-5433 | so do the tests on single blocks of the map for windows of up to four bytes |
| Stages.Fuzzer.SpanTouches | docker/AFL/afl-fuzz.c:5981-5985 | the search of the effector map finds something iff some byte of the window lies in a marked block of eight |
| Stages.Fuzzer.WalkWords | docker/AFL/afl-fuzz.c:5414-5486 | runs exactly the windows with a byte k such that block k / 8 is marked; restored, and counted although skipped ones are subtracted |
| Stages.InvertedRunsAreExact | docker/AFL/afl-fuzz.c:5414-5486 | a buffer is run iff it is the input with a window inverted that has a byte k such that block k / 8 is marked |
| Stages.FlipRunsAreExact | docker/AFL/afl-fuzz.c:5170-5486 | the flip stages together run a buffer iff it differs from the input in 1, 2 or 4 bits that are neighbours in the order of the walk, in a byte, or in a window of 2 or 4 bytes that touches an effective block |
| Stages.FlipLikeIsRun | docker/AFL/afl-fuzz.c:4820-4843 | a change that `could_be_bitflip` takes for a flip is run by the flip stages iff its bits lie in one byte, or it is a window of 2 or 4 bytes that touches an effective block; runs of 2 or 4 bits in two bytes are not |
| LostSteps.CrossingIsOneCarry | docker/AFL/afl-fuzz.c:5495-5739 | a step by 1..35 changes 2 or 4 neighbouring bits of a number in two bytes iff it is the step by +32 or -32 on a little-endian number whose low byte wraps and whose next byte changes its lowest bit only |
| Stages.CrossingIsNotRun | docker/AFL/afl-fuzz.c:5170-5939 | no flip, arithmetic or interesting-value stage runs a buffer with such a change |
| Stages.CarryIsLost | docker/AFL/afl-fuzz.c:4820-4843 | the step from 0x00e0 to 0x0100 is one of them, although its bytes are effective |
| Stages.Fuzzer.ArithStage | docker/AFL/afl-fuzz.c:5495-5739 | runs exactly the list of wanted steps, restores the input, `stage_max` ends equal to the runs |
| Stages.ArithRunsAreExact | docker/AFL/afl-fuzz.c:5495-5739 | a buffer is in that list iff it is a step by 1..35 that touches an effective block, passes its guard and does not look like a flip |
| Stages.NoStepIsLost | docker/AFL/afl-fuzz.c:5495-5739 | every step on effective bytes is run by its own stage or a narrower one, or looks like a flip there |
| Stages.PassCoversSteps | docker/AFL/afl-fuzz.c:5495-5739 | once the runs of the flip stages and of all three widths are made, every step by 1..35 on effective bytes was run, except exactly those that carry or borrow one bit as above, which no stage without tokens runs |
| Stages.Fuzzer.InterestStage | docker/AFL/afl-fuzz.c:5750-5939 | runs exactly the list of untried values, restores the input, and `stage_max` ends equal to the runs |
| Stages.InterestRunsAreExact | docker/AFL/afl-fuzz.c:5750-5939 | for any filter, a buffer is run iff it is the input with an interesting value over a window that touches an effective block, in a byte order that matters, and is not filtered out |
| Stages.UntriedValuesAreRun | docker/AFL/afl-fuzz.c:5750-5939 | with the real filters: iff the change looks neither like a flip nor like an arithmetic step nor like a narrower interesting value |
| Stages.Fuzzer.TryToken | docker/AFL/afl-fuzz.c:5975-5995 | a token is run over the input alone, or skipped; comparing with `out_buf` skips only what was just run or is the input |
| Stages.Fuzzer.OverwriteStage | docker/AFL/afl-fuzz.c:5951-6003 | each run is the input with only token j at offset i; unless tokens are dropped at random, the runs are exactly the list (its first ones if abandoned), and every fitting, effective, different placement is in it; restored and counted |
| Stages.UnsortedTokensMix | docker/AFL/afl-fuzz.c:5965-5968 | the loop over the tokens, given a longer token before a shorter one, runs a buffer that is not the input with only one token in it |
| Stages.Fuzzer.InsertStage | docker/AFL/afl-fuzz.c:6009-6051 | the runs are the input with each token inserted at each of its len + 1 offsets, within the file limit; counted |
| Stages.InsertRunsAreExact | docker/AFL/afl-fuzz.c:6009-6051 | a buffer is run iff it is the input with a token inserted at some offset, within the file limit |
| Stages.Fuzzer.Deterministic | docker/AFL/afl-fuzz.c:5160-6105 | a pass is abandoned iff the last run, and none before it, asked for it, and its runs are then the first ones of a pass; otherwise `out_buf` equals `in_buf`, the effector map is the exact one (or full, when dense), the runs are exactly those of all stages in order and as many as the stages count, and every arithmetic step on effective bytes was run, except exactly those that carry or borrow one bit by 32 |
| AutoExtras.AutoTokens | docker/AFL/afl-fuzz.c:5219-5259 | the tokens offered are exactly the maximal runs of 3 to 32 bytes whose flips give one and the same checksum, other than the input's |

## Left out

- Processes, signals, timers, shared memory, files and directories, option parsing and the status screen: input, output and user interface. Directories are sequences of test cases; timeouts and interruptions are parameters.
- `hash32`: uninterpreted; where the source compares checksums the models of trimming, minimizing and the stages do, and equal checksums are not claimed to mean equal traces. The sync model is the exception: its trim step requires the trimmed entry to have the same trace, not only the same checksum.
- `classify_counts`: traces are modelled after classification.
- Steps and values on bytes that the effector map excludes: they are left out by design, and nothing is claimed about them.
- 32-bit overflow of counters, lengths and products such as `exec_us * len`: these are unbounded numbers here. Wrap-around of numbers inside test cases, of map cells and of location words is modelled.
- Rounding of doubles in `calculate_score`: its comparisons and products are made on exact fractions, which are cut off as the conversion does.
- The queue in `Corpus`: entries are rows of a table that `top_rated` addresses by index, so aliasing of entries is not modelled there; `QueueLinks` has the real links. The marking of redundant entries on disk is left out.
- `calibrate_case`: its outcome is a parameter; the repeated runs and the marking of variable paths are left out.
- The insertion stage reads `out_buf[len]`, one byte past the end, after its last offset, into a byte that nothing uses; the model does not read it.
- `trim_case` aborted midway leaves `q->len` shortened and the file as it was; `Trim` and `Corpus` show both, and no claim is made about what a later session reads from that file.
- The sync model is a state machine over atomic steps, not the loop over directory entries; unreadable files and a preloaded bitmap are left out.
- Corpus.Campaign: needs each entry's set of hit tuples to be stable, because scores and compacted traces are about those sets.
- MaskedHavoc.GetRandomModifiablePosn: for widths that fit the map; narrower maps are filtered by the callers.
- PlainHavoc.Fuzzer.PickTarget: the repeated draw until the number differs from the current entry is one draw among the others.
- `afl-rb`: the ordering in `is_rb_hit_mini` (its loop does not do what its comment says), its skip pointers, its insertion-stage count, shadow mode and `re_run`.
- `afl-as.c`, `afl-gcc.c`, `afl-gotcpu.c`, `afl-showmap.c`, `afl-analyze.c`, the `aflfast` copies, `src/legion/mab.h`, honggfuzz and Angora: plumbing, simpler variants, or no bodies to model.
