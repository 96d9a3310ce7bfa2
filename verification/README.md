# KamadoPool: a verified model of its long-lived state and proof-of-work arithmetic

KamadoPool's middleware watches a `ckpool` mining pool and a Bitcoin node. It keeps state that must
survive pool restarts, API restarts, log growth and network switches, and its dashboard re-computes
proofs of work in the browser. This Dafny project models that state and arithmetic and proves what
the program is relied on for, over every run rather than for single calls.

`dafny verify dfyconfig.toml` checks everything.

| part | modules | what is proved |
|---|---|---|
| Block reconciliation | `BlockStore`, `SweepPolicy`, `SweepRowLaws`, `Reconcile`, `BlockRuns` | A four-pass sweep over a stored table, asking a node that may fail at every call. Safety holds under all failures, convergence in two sweeps under a reliable node. The shown history follows the store. |
| SHA-256 and targets | `Bits`, `Sha256Spec`, `Sha256`, `Hex`, `Merkle`, `Target` | The typed-array program in JavaScript number semantics refines FIPS 180-4. Two differently written Merkle folds compute the root of the tree. Target arithmetic is exact from a stated bound up. |
| Shares | `ShareLog`, `PowRecords`, `SharePipeline`, `ShareStats`, `Counters` | Live ingest agrees with batch scans of the log. Histograms conserve counts. Counters never overcount. The stored share total shrinks only under a stated condition. |
| Log tailer | `Bufio`, `Tailer` | Byte-exact delivery over a growing file and any number of restarts. Line scanning is complete for every content and buffer size. |
| WebSocket | `WsFrames`, `WsHub` | Frame round trips after RFC 6455. Fan-out through bounded queues is safe in every interleaving. |
| Estimate and watchdog | `Retarget`, `KillSwitch` | The caches of the difficulty estimate are right. The pool is killed only after three failed polls in a row with no submission outstanding. |

## How to read it

Code that changes state step by step is a class or a loop here too, and each such method is proved
equal to a function of the old state (`Next`, `Apply`, `SweptRow`, `Hash`, ...). The lemmas about runs
are then about those functions. Faults, clocks, node answers and scheduling are inputs, so a statement
over all inputs covers every pattern of failures and every interleaving.

Those functions are pinned in turn by laws that do not use them: what a row becomes in terms of the
node's answers, what a hash is bit by bit and round by round, what a tally is in terms of the lines, what
a Merkle root is in terms of the whole list, and what is read back of what was saved.

Where a property of the code needs an assumption, the project states the exact condition as a guard on
inputs and prior state, with a concrete run that breaks it:

| property | exact condition | concrete failure |
|---|---|---|
| a real reorg is found after faults | `SweepTurnsAwayIff`, `StampIsLastAttribution`, `FaultsThenTwoSweepsDecide` | `FailedLookupHidesReorg` |
| one sweep is enough | `OneSweepSufficesIff` | `OneSweepIsNotEnough` |
| the history follows the store | `HistoryFollowsStoreIff`, `SweepStaysCoherentIff`, `AppendStaysCoherentIff` | `FailedReadLeavesHistoryStale` |
| the stored share count is kept | `StoreIsKeptIff`, `ShrinksIff`, `RestoreIsSafeIff` | `FailedReadShrinksStore`, `EarlyRebuildShrinksStore` |
| the confirmed counter is exact | `ConfirmedCountsNewHeights` | a failed insert |
| lines are followed as they are scanned | `ChunksAreLinesIff`, `HandedLinesIff` | `LineWrittenInTwoIsTorn` |
| stored rejection counts are kept | `ReasonsAreKeptIff` | `RebuildLosesReasons` |
| the stored best record is kept | `BestIsKeptIff` | `FailedReadLosesBest` |
| work counters are exact | `PollGainsIff`, `TotalIsExactIff` | `UnnoticedRestartUndercounts` |
| a frame header is read or refused | `PanicsIff` | the input its condition names |
| targets are exact and fall | `TargetDenotesIff`, `LaterTargetsAreLowerIff` | `TinyDifficultyLosesDigit` |
| byte reversal undoes itself | `RevHexTwice` | `OddTextLosesDigit` |
| cached header times are current | `StartIsRightIff`, `TipIsRightIff` | `SwitchKeepsStart`, `FailedLookupKeepsTip` |

The code is followed where its comments say something else:

- The comment on the sweep says all its checks are bounded by the lookback window. The last pass
  (`api/internal/state/blocks.go:459-486`) is not, and passes two to four look only at the newest 64 rows.
- A row lacking only its miner is also selected for enrichment (`api/internal/store/blocks.go:252-277`).
- Any failure of the block lookup, a time-out included, is read as "not a block of this network"
  (`api/internal/state/blocks.go:365`, `420`, `465`). `FailedLookupHidesReorg` shows the consequence.
- The forced cursor save on shutdown (`api/internal/logmon/tailer.go:304-343`) can lead the delivered
  bytes by what the read buffer holds, not by a span of time.
- `scanLines` cuts a long line one byte short of the buffer when the cut would end in a carriage return.

## Model

| member | source | states |
|---|---|---|
| BlockRuns.OrphansHaveEvidence | api/internal/state/blocks.go:339-389 | In every run of solves, sweeps and chain changes, with node and database failing arbitrarily: a row that became orphaned was unorphaned before and orphaned after one identifiable sweep, in which the node named another canonical hash and also returned the block with the very hash the row still carries, the row then being recent, in the window and stamped empty or current. |
| BlockRuns.ClearedMarksHaveEvidence | api/internal/state/blocks.go:398-451 | In every such run a row that lost its mark was orphaned before and unorphaned after one identifiable sweep, in which it was recent and in the window and carried another network's stamp, or the node did not return its block, or the node named the very hash it still carries as canonical; a failed lookup of the canonical hash never clears a mark. |
| BlockRuns.RecordsAreWriteOnce | api/internal/state/blocks.go:255-486 | In every run no height disappears, found time, source and share difficulty never change, and a recorded hash, reward or miner is never changed. |
| BlockRuns.TwoSweepsConverge | api/internal/state/blocks.go:255-486 | Whatever the table held, two sweeps answered faithfully by an unchanging node, each with its own clock reading not before the last and its own workers, reach a fixpoint: a third changes nothing, and every hash-bearing row in the window and among the newest 64 has a stamp and is orphaned exactly when it is stamped with the current chain, the node knows its hash and the canonical hash differs. |
| BlockRuns.TwoSweepsConvergeAmongSolves | api/internal/state/blocks.go:255-486 | The same when blocks are found between the sweeps: on every row the first sweep met a third faithful sweep changes nothing, and those still among the newest 64 at the second are settled by it. |
| BlockRuns.SweepsStayConverged | api/internal/state/blocks.go:255-486 | Any number of further faithful sweeps, none with a window that starts before the second one's, leaves the table where the second one left it. |
| BlockRuns.HeightsComeFromSolves | api/internal/store/blocks.go:139-150 | After any run, failures included, the stored heights are the earlier ones plus those solved whose insert succeeded, no more and no fewer. |
| BlockRuns.ConfirmedCountsNewHeights | api/internal/state/blocks.go:144-229 | With replays of any kind, the confirmed counter grows by the number of heights newly stored plus one for every failed insert; it is exact if and only if no insert failed. |
| BlockRuns.SolveIsRecorded | api/internal/state/blocks.go:157-207 | A solve at a new height is stored unorphaned with the current chain, whole seconds, the hash the node named, and reward and miner of that hash's block, each empty if its lookup failed; no other row changes. |
| BlockRuns.SolveIsShown | api/internal/state/blocks.go:186-229 | The history's last entry then shows the same, also when the insert failed, and the counter rises by one; a replayed height changes nothing. |
| BlockRuns.EntryShowsRow | api/internal/state/blocks.go:549-594 | A history entry read back from the store holds the row's own fields, and its mark only if orphaned. |
| BlockRuns.ShownIffNewest | api/internal/store/blocks.go:216-246 | After a reload a row is in the history exactly if fewer than 256 heights lie above it. |
| BlockRuns.FailedWritesChangeNothing | api/internal/state/blocks.go:488-496 | A sweep whose writes all fail leaves table and history alone, entry for entry. |
| BlockRuns.UnreachableNodeStopsSweeps | api/internal/state/blocks.go:257-273 | While the node is unreachable sweeps do nothing. |
| BlockRuns.HistoryFollowsStoreIff | api/internal/state/blocks.go:533-594 | The shown history is at every point of a run the newest 256 rows, newest last (times cut to whole seconds), if and only if every step is orderly: each new solve is stored and tops all stored heights, and no sweep with a failed read or reload changes what is shown of one of those rows. |
| BlockRuns.AppendStaysCoherentIff | api/internal/state/blocks.go:533-544 | A solve that appends keeps history and store equal if and only if its insert succeeds and its height is above every stored one, whether or not the history is full. |
| BlockRuns.SweepStaysCoherentIff | api/internal/state/blocks.go:488-496 | With both reads succeeding a sweep always keeps history and store equal. If the second read or the reload fails, it does if and only if no row among the newest 256 is enriched by a successful write or gets a written verdict that shows: an orphan mark, a cleared mark, or another stamp. |
| BlockRuns.VerdictsShow | api/internal/state/blocks.go:339-486 | The three later passes never undo each other: what the history shows of a row changes exactly if one of their verdicts changes it. |
| BlockRuns.ViewChangesIff | api/internal/state/blocks.go:255-486 | A sweep changes the 256-row view exactly if it enriches one of its rows or writes a verdict that shows on one. |
| BlockRuns.QuietSweepChangesNothing | api/internal/state/blocks.go:488-496 | A sweep whose reads succeed and which decides not to reload has changed no row at all. |
| BlockRuns.ViewAfterInsert | api/internal/store/blocks.go:216-246 | Storing a new top height moves the 256-row view by exactly one entry. |
| BlockRuns.FailedReadLeavesHistoryStale | api/internal/state/blocks.go:317-321 | Concrete run: an enrichment followed by a failed second read returns early and leaves the history out of step with the store. |
| SweepRowLaws.TwoSweepsDecide | api/internal/state/blocks.go:255-486 | What two faithful sweeps conclude, in terms of the original stamp and the node alone: a stamp naming a third network is kept, any other becomes the current chain when the node knows the hash, and the row ends up orphaned exactly when it was not attributed elsewhere, is known and is not canonical. |
| SweepRowLaws.TwoSweepsReachFixpoint | api/internal/state/blocks.go:255-486 | For any row, recent or not, in or out of the window, a third faithful sweep changes nothing. |
| SweepRowLaws.FixpointThoughLeavingRecent | api/internal/state/blocks.go:255-486 | Likewise for a row that drops out of the newest 64 before any of the three sweeps. |
| SweepRowLaws.OneSweepSettlesStamp | api/internal/state/blocks.go:398-486 | One faithful sweep already gives a row its final chain stamp. |
| SweepRowLaws.OneSweepSufficesIff | api/internal/state/blocks.go:255-486 | One faithful sweep is already a fixpoint for a row, except exactly for a recent one with an obsolete stamp whose hash the node knows, and which either is in the second sweep's window and not canonical or still lacks a reward or miner the node and the second sweep's workers can give. |
| SweepRowLaws.OneSweepIsNotEnough | api/internal/state/blocks.go:255-486 | Concrete row stamped with an obsolete value that is orphaned only by the second sweep, so the bound of two is tight. |
| SweepRowLaws.OrphaningNeedsEvidence | api/internal/state/blocks.go:339-389 | One sweep, any faults: an unmarked row turns orphaned if and only if it is recent, in the window, not stamped with another network and has a hash, the node named another canonical hash and returned our block, and the reads and the write succeed; the mark is the clock reading. |
| SweepRowLaws.ClearingNeedsEvidence | api/internal/state/blocks.go:398-451 | One sweep, any faults: a mark goes if and only if the row is recent, in the window and has a hash, the reads and the write succeed, and it carries another network's stamp, or the node did not return its block, or named its own hash as canonical. |
| SweepRowLaws.SweepIsWriteOnce | api/internal/state/blocks.go:279-313 | One sweep, any faults: filled fields keep their value and found data never changes. |
| SweepRowLaws.SettledStampsStay | api/internal/state/blocks.go:398-486 | A sweep restamps only a recent row that is unstamped, carries an obsolete stamp, or is a current-chain orphan whose block the node did not return. |
| SweepRowLaws.EnrichmentCompletes | api/internal/state/blocks.go:277-315 | With a reliable node one sweep fills a missing hash with the canonical one and missing reward and miner from that block, and leaves filled fields alone. |
| SweepRowLaws.EnrichmentFills | api/internal/state/blocks.go:275-315 | One sweep, any faults: exactly what hash, reward and miner a row has afterwards, from its stamp, its age, its missing fields, the node's two answers and the write. |
| SweepRowLaws.ForeignStampIsForever | api/internal/state/blocks.go:346-350 | A row stamped with a network other than the current one, the obsolete stamps "other" and "test" excepted, keeps that stamp and is never newly orphaned, whatever the node says. |
| SweepRowLaws.ForeignStampGoesIff | api/internal/state/blocks.go:346-486 | With the obsolete stamps included: no foreign row is newly orphaned in a sweep, and its stamp changes exactly if it is recent, obsolete, has a hash, and the last pass succeeds in writing another one. |
| SweepRowLaws.SweepAttributes | api/internal/state/blocks.go:365-486 | Whatever fails in a sweep, the stamp a row is left with depends only on which passes got a block for it and could write: none got, the counterpart of the current chain; the last pass got one, the current chain; otherwise the one it had. |
| SweepRowLaws.SweepTurnsAwayIff | api/internal/state/blocks.go:365-486 | In particular a sweep attributes a row of the current chain to another network exactly when the last pass would stamp it and gets no block, or, where that pass has nothing to write or cannot write, an earlier one restamps it for want of a block. |
| SweepRowLaws.StampIsLastAttribution | api/internal/state/blocks.go:365-486 | Through any sequence of faulty sweeps and network switches, a row's network is the one the last attributing sweep gave it, or the one it came with. |
| SweepRowLaws.TurnedAwayIff | api/internal/state/blocks.go:365-486 | So a row counts as another network's exactly if that last attribution was to another network. |
| SweepRowLaws.FaultsThenTwoSweepsDecide | api/internal/state/blocks.go:255-486 | After any faulty sweeps on any networks, two faithful ones orphan a row in the window exactly if its last attribution is not to another network, the node knows its hash, and the canonical hash differs: the exact condition for convergence under faults. |
| SweepRowLaws.FailedLookupHidesReorg | api/internal/state/blocks.go:459-486 | Concrete row whose one failed lookup in the last pass, during a real reorg, makes that pass stamp the other network, after which a reliable sweep does not orphan it. |
| SweepPolicy.InferOtherChain | api/internal/state/blocks.go:43-52 | Never the current chain (unless that is itself called "other") and never empty. |
| SweepPolicy.CounterpartsPair | api/internal/state/blocks.go:43-52 | The two supported networks are each other's counterpart; any other one gets "other". |
| SweepPolicy.MinerIsFirstMatch | api/internal/state/blocks.go:504-523 | The miner is the first worker paid at the coinbase address, otherwise the address itself. |
| SweepPolicy.AddressIsPrefix | api/internal/state/blocks.go:504-523 | A worker's address is the longest dot-free prefix of its user name. |
| Reconcile.Aggregator.ReconcileOnce | api/internal/state/blocks.go:255-496 | The four-pass loop over store and flags changes table and history exactly as one decision per row does, including what each pass decides on the copies read before any of them wrote, every early return, and when the history is reloaded. |
| Reconcile.PassesCompose | api/internal/state/blocks.go:321-486 | Three loops that judge old copies while writing the live table amount to one function of each row. |
| Reconcile.Aggregator.EnrichPass | api/internal/state/blocks.go:275-315 | Every row needing enrichment, and no other, is enriched in place; the flag says whether some write succeeded. |
| Reconcile.Aggregator.EnrichOne | api/internal/state/blocks.go:279-313 | One row: foreign rows skipped, an unavailable hash gives up, a failed block lookup still records the hash, and nothing is written when nothing changed. |
| Reconcile.Aggregator.ReorgPass | api/internal/state/blocks.go:339-389 | Each of the newest rows once gets the reorg decision taken on its copy. |
| Reconcile.Aggregator.ReorgOne | api/internal/state/blocks.go:339-389 | Guards, canonical comparison, restamping when the node does not return our block, orphaning when it does. |
| Reconcile.Aggregator.RepairPass | api/internal/state/blocks.go:398-451 | Each of the newest rows once gets the repair decision taken on its copy. |
| Reconcile.Aggregator.RepairOne | api/internal/state/blocks.go:398-451 | Clears marks on foreign rows, on rows the node does not return (with a new stamp), and on rows that are canonical again; keeps them otherwise. |
| Reconcile.Aggregator.StampPass | api/internal/state/blocks.go:459-486 | Rows with an empty or obsolete stamp and a hash get the current chain if the node returns the block and the inferred other one if not. |
| Reconcile.Aggregator.StampOne | api/internal/state/blocks.go:459-486 | The same for one row, with the write that may fail. |
| Reconcile.Aggregator.IngestBlock | api/internal/state/blocks.go:144-229 | A solve is stored, counted and appended unless its height is already stored; a failed insert still counts and appends. |
| Reconcile.Aggregator.LoadPersistedBlocks | api/internal/state/blocks.go:549-594 | The history becomes the newest 256 stored rows, oldest first; on a failed read it stays. |
| Reconcile.Aggregator.AppendBlock | api/internal/state/blocks.go:533-544 | The record goes last and the oldest beyond 256 goes. |
| BlockStore.Blocks.InsertBlock | api/internal/store/blocks.go:139-150 | An existing height is left untouched and reported; a new one is stored unorphaned. |
| BlockStore.Blocks.Recent | api/internal/store/blocks.go:216-246 | Exactly the greatest heights up to the limit (256 when not positive), greatest first, as copies. |
| BlockStore.Blocks.BlocksNeedingEnrichment | api/internal/store/blocks.go:252-277 | Exactly the rows in the window missing hash, reward or miner, lowest height first. |
| BlockStore.Blocks.UpdateEnrichment | api/internal/store/blocks.go:282-288 | Changes hash, reward and miner of that height only. |
| BlockStore.Blocks.MarkOrphaned | api/internal/store/blocks.go:293-299 | Changes the orphan time of that height only. |
| BlockStore.Blocks.UnmarkOrphaned | api/internal/store/blocks.go:306-312 | Clears the orphan time of that height only. |
| BlockStore.Blocks.UnmarkOrphanedStampChain | api/internal/store/blocks.go:319-325 | Clears the orphan time and sets the stamp of that height only. |
| BlockStore.Blocks.StampChain | api/internal/store/blocks.go:331-337 | Sets the stamp of that height only. |
| Common.NewestIffFewAbove | api/internal/store/blocks.go:216-246 | Descending order with a limit: a height is among the newest n if and only if fewer than n heights lie above it. |
| Sha256.Sha256 | ui/src/lib/sha256.ts:48-97 | The typed-array program in JavaScript number semantics computes the FIPS 180-4 function of every message of at most 2^31 - 73 bytes. |
| Sha256.Sha256d | ui/src/lib/sha256.ts:99-101 | The double hash. |
| Sha256Spec.ConstantsAreCubeRoots | ui/src/lib/sha256.ts:11-20 | Every round constant is the first 32 fractional bits of the cube root of its prime, so no digit of the table is taken on trust. |
| Sha256Spec.InitialStateIsSquareRoots | ui/src/lib/sha256.ts:61-63 | The initial state is the first 32 fractional bits of the square roots of the first eight primes. |
| Sha256Spec.ChBit | ui/src/lib/sha256.ts:78 | Bit by bit the first word chooses between the other two. |
| Sha256Spec.MajBit | ui/src/lib/sha256.ts:83 | Bit by bit the majority of the three words. |
| Sha256Spec.RotrBit | ui/src/lib/sha256.ts:27-29 | Bit i of a rotation by n is bit i + n of the word, around the end. |
| Sha256Spec.BigSigmaBits | ui/src/lib/sha256.ts:77-82 | Each bit is the parity of the three bits the rotations name. |
| Sha256Spec.SmallSigmaBits | ui/src/lib/sha256.ts:69-70 | Likewise, with zeros shifted in from above. |
| Sha256Spec.PadLayout | ui/src/lib/sha256.ts:48-57 | The padding is message, 0x80, zeros, and eight bytes that read as the bit length. |
| Sha256Spec.ScheduleAt | ui/src/lib/sha256.ts:67-72 | Each schedule word is four message bytes read big-endian, or the sum of words 16, 15, 7 and 2 back with their sigmas, reduced once. |
| Sha256Spec.RoundsAreTwoSequences | ui/src/lib/sha256.ts:74-86 | After any number of rounds the eight registers are the last four values of two sequences, each defined by one sum reduced once: the shuffling of registers loses and mixes nothing. |
| Sha256Spec.ChainAddsRounds | ui/src/lib/sha256.ts:87-91 | A block adds its rounds to the chaining value word by word, from the initial state on. |
| Sha256Spec.DigestWords | ui/src/lib/sha256.ts:93-97 | Word i of the final state can be read at byte 4 i of the digest. |
| Sha256Spec.HashUsesAllBlocks | ui/src/lib/sha256.ts:64-92 | The hash covers every block of the padded message. |
| Sha256Spec.SecondHashIsOneBlock | ui/src/lib/sha256.ts:99-101 | The double hash is the hash of one more block, the padded first digest. |
| Sha256Spec.PadIsLeast | ui/src/lib/sha256.ts:48-57 | No shorter multiple of 64 leaves room for the marker byte and the length. |
| Sha256Spec.PadInjective | ui/src/lib/sha256.ts:48-57 | Different messages have different paddings. |
| Sha256.PadMessage | ui/src/lib/sha256.ts:48-57 | Buffer, marker, and the two 32-bit halves of the bit length are the padding of section 5.1.1. |
| Sha256.BlockRound | ui/src/lib/sha256.ts:50 | The shift expression for the total rounds up to whole blocks without leaving signed 32-bit range. |
| Sha256.RotrIsRotr | ui/src/lib/sha256.ts:27-29 | Shifts, signed or and final unsigned shift are the 32-bit rotation. |
| Sha256.T1Reduces | ui/src/lib/sha256.ts:78-82 | The five-term sum of signed and unsigned terms, reduced once, is the sum reduced at every addition. |
| Sha256.T2Reduces | ui/src/lib/sha256.ts:83-85 | Likewise for the second temporary word. |
| Sha256.ExtendReduces | ui/src/lib/sha256.ts:68-72 | Likewise for the message schedule, with its terms in another order. |
| Sha256.ExpandSchedule | ui/src/lib/sha256.ts:66-73 | The word array holds the message schedule of the block at the offset. |
| Sha256.RunRounds | ui/src/lib/sha256.ts:74-91 | The eight registers after the loop are the 64 rounds of section 6.2.2. |
| Sha256.Compress | ui/src/lib/sha256.ts:74-92 | The state array takes the compressed state added word by word. |
| Sha256.HashBlocks | ui/src/lib/sha256.ts:65-92 | Over all blocks the state array is the chaining value of section 6.2.2. |
| Sha256.WriteDigest | ui/src/lib/sha256.ts:93-97 | The output is the state in big-endian words. |
| Hex.HexToBytes | ui/src/lib/sha256.ts:103-107 | Two characters per byte, as parseInt with radix 16 reads them and a byte array stores them, for any text; an odd last character is ignored. |
| Hex.ParseTwoDigits | ui/src/lib/sha256.ts:105 | On two hex digits that is the byte they write. |
| Hex.PairMeaning | ui/src/lib/sha256.ts:103-107 | What any two characters are stored as: spaces, signs, single digits and other characters included. |
| Hex.DigitsAre | ui/src/lib/sha256.ts:103-107 | The digits are 22 characters, with the values of their places. |
| Hex.BytesOfHex | ui/src/lib/sha256.ts:103-111 | Decoding undoes encoding for every byte string. |
| Hex.HexOfBytes | ui/src/lib/sha256.ts:103-111 | Encoding undoes decoding for every even-length hex text, up to letter case. |
| Hex.RevHex | ui/src/lib/sha256.ts:114-118 | The loop takes pairs from the end. |
| Hex.RevHexTwice | ui/src/lib/sha256.ts:114-118 | Reversing twice gives the text back if and only if its length is even. |
| Hex.OddTextLosesDigit | ui/src/lib/sha256.ts:114-118 | Concrete text of odd length that loses its first digit. |
| Hex.RevHexReversesBytes | ui/src/lib/sha256.ts:113-118 | On even-length hex text it reverses the bytes. |
| Merkle.FoldHex | ui/src/lib/PowVerifyOverlay.svelte:265-288 | For every list of transactions whose first one is the coinbase and whose siblings the branches write, the fold that keeps the node as hex gives the Merkle root of the list; on any input it fails exactly on a branch of more than 32 bytes. |
| Merkle.FoldBytes | ui/src/lib/PowVerifyOverlay.svelte:317-327 | The same for the fold over bytes. |
| Merkle.FoldGivesRoot | ui/src/lib/PowVerifyOverlay.svelte:271-288 | Folding the first transaction with its siblings, node before branch, gives the root computed level by level over the whole list, whatever its length. |
| Merkle.JoinedAt | ui/src/lib/PowVerifyOverlay.svelte:323-324 | The hashed 64 bytes are the node, the branch behind it, and zeros where it is short; a longer one throws. |
| Merkle.FoldsAgree | ui/src/lib/PowVerifyOverlay.svelte:265-327 | Both folds give the same root, and fail on the same inputs, for every coinbase hash and branch list. |
| Merkle.PadBlocks | ui/src/lib/PowVerifyOverlay.svelte:246-263 | The two drawn blocks hold 128 digits each and join to header, marker, zeros and length, whatever segment straddles the border. |
| Merkle.DrawnBlocksArePaddedMessage | ui/src/lib/PowVerifyOverlay.svelte:246-263 | Those digits are exactly the bytes of the padded message the hash builds, for every 160-digit header. |
| Target.TargetHex | ui/src/lib/sha256.ts:126-134 | The loop and slice compute the padded and cut text of the quotient. |
| Target.TargetDenotesIff | ui/src/lib/sha256.ts:126-134 | The text always has 64 digits, and denotes floor(DIFF1 * 2^48 / D) if and only if the scaled difficulty D is at least 2^16. |
| Target.TinyDifficultyLosesDigit | ui/src/lib/sha256.ts:126-134 | Below that bound a lower difficulty can get a smaller target: at D = 65535 the last digit is cut off. |
| Target.TargetAntitone | ui/src/lib/sha256.ts:126-134 | From the bound up, a greater difficulty never has a greater target. |
| Target.CutTargetValue | ui/src/lib/sha256.ts:126-134 | Below the bound the text denotes the quotient divided once more by the power of sixteen that the cut digits stand for. |
| Target.LaterTargetsAreLowerIff | ui/src/lib/sha256.ts:126-134 | No greater difficulty has a greater target if and only if D is at least 2^16 or is 1, 16, 256 or 4096. |
| Target.MeetsTargetIff | ui/src/lib/sha256.ts:120-142 | A hash is at most the integer target exactly when hash times difficulty stays within the numerator: the rounding of the division loses nothing. |
| Target.NoDifficultyIsTop | ui/src/lib/sha256.ts:126-134 | Without a difficulty the target is the greatest 256-bit number and no zero bits are required. |
| Target.MicroDifficultyIsGreatest | ui/src/lib/sha256.ts:137-142 | The difficulty shown for a hash is the greatest number of millionths whose product with it stays within the numerator. |
| Target.HashAboveTargetHasLess | ui/src/lib/sha256.ts:126-142 | A hash above the target of D shows less than D. |
| Target.HashBelowTargetHasDifficulty | ui/src/lib/sha256.ts:126-142 | A non-zero hash at most the target of D has at least difficulty D, to the millionth. |
| Target.LeadingZeroBits | ui/src/lib/BestSharePage.svelte:92-103 | The counting loop with its early exit computes the zero bits in front, for any text; a character that is no digit ends it. |
| Target.ZeroBitsLocate | ui/src/lib/BestSharePage.svelte:92-103 | Those bits are the binary logarithm of the value: it lies between the two powers of two they name. |
| Target.SmallerHasMoreZeroBits | ui/src/lib/BestSharePage.svelte:92-108 | Among texts of equal length a smaller value never has fewer leading zero bits. |
| Target.WinningHashHasRequiredZeroBits | ui/src/lib/BestSharePage.svelte:92-108 | A 64-digit hash that reaches the difficulty has at least the leading zero bits required of it. |
| Target.RequiredZeroBitsAreMost | ui/src/lib/BestSharePage.svelte:105-108 | And no more could be required: the target itself wins with exactly that many. |
| Target.NonDigitEnds | ui/src/lib/BestSharePage.svelte:92-103 | Counting stops at the first character that is no digit. |
| ShareLog.LiveEqualsScan | api/internal/state/aggregator.go:928-954 | For every log, live ingest of its events from zero yields the same counts, difficulty sum, six buckets and rejection reasons, session and all-time, as a recount of the log. |
| ShareLog.ScanShareStats | api/internal/logmon/tailer.go:589-631 | The batch scan, with the difficulties it collects bucketed, is the tally of the log. |
| ShareLog.ScanConserves | api/internal/state/aggregator.go:1025-1041 | The buckets of a recount add up to its accepted count. |
| ShareLog.ReasonsCountLines | api/internal/logmon/tailer.go:589-631 | A reason's count is the number of lines rejected for it, keywords compared without case, and no other reason is listed. |
| ShareLog.TallyCountsDiffs | api/internal/logmon/tailer.go:589-631 | Count, sum and the six buckets are those of the accepted difficulties in the log. |
| ShareLog.TalliesAdd | api/internal/state/aggregator.go:940-954 | Counting on from a tally gives, figure by figure, that tally and the one of the new events together. |
| ShareLog.Bucket | api/internal/state/aggregator.go:894-908 | The six intervals, with their exact bounds. |
| SharePipeline.Tailer.HandleLine | api/internal/logmon/tailer.go:346-434 | Each line sends at most its one event on its own channel, a full channel loses it, a solve carries the remembered difficulty, and nothing else changes. |
| SharePipeline.SolveTakesLastAttempt | api/internal/logmon/tailer.go:400-433 | That difficulty is the one of the last possible solve logged since the solve before it, and 0 without one. |
| SharePipeline.RunsAccount | api/internal/state/aggregator.go:919-980 | Under every schedule of reading and ingesting: at most 64 events wait, ingest saw exactly the events taken, events taken and waiting are those of the log in order with some left out, and accepted shares taken, waiting and lost add up to those in the log. |
| SharePipeline.ReadLosesIff | api/internal/logmon/tailer.go:346-395 | An event is lost exactly when 64 are waiting already. |
| SharePipeline.DrainedPipelineEqualsLog | api/internal/state/aggregator.go:919-980 | Once drained with nothing lost, the live statistics and best record are those of the log. |
| SharePipeline.LiveCountShortfall | api/internal/state/aggregator.go:940-954 | Otherwise the live count is short by exactly what waits plus what was lost. |
| PowRecords.FindBestPowData | api/internal/logmon/tailer.go:523-571 | The batch scan with its bounded map returns the best of the pairing defined line by line, and a record implies a parsed line. |
| PowRecords.LivePairingEqualsScan | api/internal/state/aggregator.go:928-973 | The live path ends with the same parked records and the same best record as the batch scan. |
| PowRecords.PendingIff | api/internal/state/aggregator.go:928-939 | At most 16 records are parked, and a record is parked if and only if some line carried it and no later line cleared, replaced or accepted it. |
| PowRecords.BestIsGreatestConfirmed | api/internal/logmon/tailer.go:523-571 | The best record is the one of greatest difficulty among all records accepted while parked, the earliest on ties, and there is none exactly when none was so accepted. |
| ShareStats.ShareStatistics.IngestShareEvent | api/internal/state/aggregator.go:928-973 | One event updates session and all-time tallies, the parked records, and the best record in memory and, unless that write fails, in the store. |
| ShareStats.ShareStatistics.ResetSessionShareStats | api/internal/state/aggregator.go:1053-1058 | Only the session tally becomes empty. |
| ShareStats.ShareStatistics.LoadPersisted | api/internal/state/aggregator.go:1166-1304 | Restores once per process, key by key, keeping the memory value of a key that is missing or unreadable; without a best record it takes and stores the best of the log; then it allows saving. |
| ShareStats.ShareStatistics.PersistShareStats | api/internal/state/aggregator.go:1060-1094 | Writes nothing before the restore; afterwards both keys become the all-time tally. |
| ShareStats.ShareStatistics.RebuildShareStatsFromLog | api/internal/state/aggregator.go:1012-1049 | Adopts and saves the recount exactly when it counts strictly more shares. |
| ShareStats.RunsConserve | api/internal/state/aggregator.go:940-954 | In every run of ingest, reset, load, save, restart and rebuild, the buckets of session, all-time and stored tallies add up to their accepted counts. |
| ShareStats.RestoreReadsBack | api/internal/state/aggregator.go:1276-1304 | After an allowed save, a restart and a restore that can read, reasons, buckets, count and sum are those saved and the best record is back; saving or restoring again changes nothing. |
| ShareStats.EachKeyAlone | api/internal/state/aggregator.go:1276-1304 | Each key is restored on its own: one that cannot be read or was never written leaves its figures alone. |
| ShareStats.ProcessAddsIngested | api/internal/state/aggregator.go:928-973 | Once restored, a process adds exactly what it ingests to the all-time tally, whatever saves, resets and repeated restores lie between. |
| ShareStats.SessionCountsSinceReset | api/internal/state/aggregator.go:1053-1058 | The session tally counts exactly what was ingested since the last reset or restart, and a reset touches nothing else. |
| ShareStats.RebuildTakesLogOrNothing | api/internal/state/aggregator.go:1012-1049 | A rebuild takes over and stores every figure of the log, or changes nothing. |
| ShareStats.ReasonsAreKeptIff | api/internal/state/aggregator.go:1060-1094 | In every run no stored rejection count falls if and only if every restore can read the reasons or has nothing to lose, and every adopted rebuild knows each stored reason as often. |
| ShareStats.RebuildLosesReasons | api/internal/state/aggregator.go:1025-1041 | Concrete run: a rebuild from a longer log that knows nothing of a stored reason erases it. |
| ShareStats.StoreIsKeptIff | api/internal/state/aggregator.go:1060-1094 | In every run of ingest, resets, loads, saves, restarts and rebuilds, memory goes on covering the store and the stored count never shrinks if and only if every step is careful: a restore can read the histogram or finds as many shares in memory, and no rebuild counts more than memory and fewer than the store. |
| ShareStats.StoredCountNeverShrinks | api/internal/state/aggregator.go:1060-1094 | Hence the stored all-time count after a careful run is at least the one before. |
| ShareStats.StepKeepsStoreIff | api/internal/state/aggregator.go:1012-1094 | The same for one step, both directions. |
| ShareStats.RestoreIsSafeIff | api/internal/state/aggregator.go:1284-1304 | A restore followed by a save keeps the stored count if and only if the restore was careful. |
| ShareStats.ShrinksIff | api/internal/state/aggregator.go:1012-1094 | In any state whatsoever a step shrinks the stored count if and only if it is an allowed save of fewer shares than stored, or a rebuild from a log with more shares than memory and fewer than the store. |
| ShareStats.EarlyRebuildShrinksStore | api/cmd/kamado-api/main.go:104-109 | Concrete run: a rebuild right after a restart replaces a longer history by any shorter log, so the start-up order matters. |
| ShareStats.FailedReadShrinksStore | api/internal/state/aggregator.go:1284-1304 | Concrete run: after a restore whose histogram read fails, one share and a save leave a stored count of one. |
| ShareStats.BestIsKeptIff | api/internal/state/aggregator.go:957-973 | In every run, restarts and backfills included, memory goes on covering the stored best record and that record never gets worse if and only if every step is careful of it: a restore can read it or finds one as good, and nothing worse is promoted before the restore. |
| ShareStats.FailedReadLosesBest | api/internal/state/aggregator.go:957-973 | Concrete run: after a restore that cannot read the stored record, any lesser record that is then confirmed replaces it. |
| ShareStats.StepKeepsBestIff | api/internal/state/aggregator.go:1166-1235 | The same for one step, both directions. |
| Counters.PoolCounters.Refresh | api/internal/state/aggregator.go:667-717 | One poll moves all three integrators, reports a session reset exactly when the raw share count fell, and saves what it says. |
| Counters.PoolCounters.RefreshWork | api/internal/state/aggregator.go:667-684 | The work integrator alone. |
| Counters.PoolCounters.RefreshCounts | api/internal/state/aggregator.go:689-717 | The accepted and rejected integrators, which share one baseline flag. |
| Counters.TotalIsLoadedPlusRises | api/internal/state/aggregator.go:667-684 | From a fresh baseline the total is the loaded value plus the sum of positive differences between adjacent polls. |
| Counters.SteadyCounterIsExact | api/internal/state/aggregator.go:667-684 | Without a pool restart those differences telescope: nothing is missed or counted twice. |
| Counters.ProcessTotal | api/internal/state/aggregator.go:667-717 | The same inside every interleaving of work, pool restarts, polls and saves within one process. |
| Counters.TotalNeverDecreases | api/internal/state/aggregator.go:667-717 | Within one process the total never decreases. |
| Counters.NeverOvercounts | api/internal/state/aggregator.go:1104-1144 | Across every interleaving with pool restarts, failed polls, saves and reloads, total and stored copy never exceed the work done, nor does the total with the counter still to be polled. |
| Counters.UnnoticedRestartUndercounts | api/internal/state/aggregator.go:673-682 | If the counter overtakes its old value between polls the restart is not seen, and the exact shortfall is the work before it plus the old counter. |
| Counters.PollGainsIff | api/internal/state/aggregator.go:667-717 | Between two successful polls, with any work and pool restarts, the total gains the work done less the work before the last restart and less the old counter as far as the new one reaches, noticed or not; it is exact if and only if that cost is 0. |
| Counters.ShortfallIsSumOfCosts | api/internal/state/aggregator.go:667-717 | Over every run of work, pool restarts, failed and successful polls, saves and API restarts, the work missing from the total is the sum of what each step lost, the restart cost at a poll and the unpolled and unsaved work at an API restart, and what is still unpolled. |
| Counters.TotalIsExactIff | api/internal/state/aggregator.go:667-717 | So from an exact start the total is exact if and only if no step lost work and none is unpolled. |
| Tailer.Run | api/internal/logmon/tailer.go:204-343 | Turn by turn, over every growth pattern, short read and cancellation point: the start is the saved offset if inode and size fit, else the end of the file; each uncancelled turn hands on a line ending at its only newline, or meets end of file with the buffer empty; the bytes handed on are always those of the file from the start; a cursor is saved exactly at an unthrottled end of file, at a cancellation and at one while asleep, and leads the bytes handed on until then by the buffered ones, at most 4096; end of file before the end is met no oftener than the file runs dry. |
| Tailer.TurnMeaning | api/internal/logmon/tailer.go:276-343 | At every turn of such a run, delivered bytes and saved cursors are what the row above says, in terms of the chunks handed on. |
| Tailer.SavesExactly | api/internal/logmon/tailer.go:276-343 | How often each turn saves and when the run ends. |
| Tailer.FirstRunSkipsOldLines | api/internal/logmon/tailer.go:252-257 | A run without a fitting cursor hands on exactly bytes appended after the first open, in order and without a gap. |
| Tailer.SavedCursorFits | api/internal/logmon/tailer.go:243-248 | A saved cursor fits the same file again unless it was truncated. |
| Tailer.EnoughTurnsDeliverAll | api/internal/logmon/tailer.go:304-343 | An uncancelled run with more turns than bytes left and dry reads hands on the file to its end. |
| Tailer.ResumeContinues | api/internal/logmon/tailer.go:237-285 | The chunks of a run up to any of its saves, the bytes buffered at that save, and the chunks of a run resumed from it are together the file from the first start; after a save at end of file nothing lies between. |
| Tailer.RestartsDeliverOnce | api/internal/logmon/tailer.go:204-343 | However many processes follow each other, each resuming from an end-of-file save of its predecessor, the chunks of all of them are the file, every byte once. |
| Tailer.ChunksAreLinesIff | api/internal/logmon/tailer.go:309-312 | Chunks are the lines a scan of the same bytes finds if and only if none of them continues a line torn by an end of file; else there are fewer lines than chunks. |
| Tailer.HandedLinesIff | api/internal/logmon/tailer.go:304-343 | Over any number of processes the line handler is handed exactly the lines of the file if and only if no line was torn, by a pause of the writer or by a restart. |
| Tailer.LineWrittenInTwoIsTorn | api/internal/logmon/tailer.go:309-312 | Concrete run: a line met half written is handed on as two chunks where a scan finds one line. |
| Tailer.ScanLines | api/internal/logmon/tailer.go:489-505 | For every content, buffer size and read pattern, the callback gets exactly the non-empty lines in order, each cut to the buffer, and the loop ends. |
| Tailer.RawLinesJoin | api/internal/logmon/tailer.go:483-505 | The lines counted are a partition of the file: joined, they give it back. |
| Tailer.RawLinesShape | api/internal/logmon/tailer.go:483-505 | Each has no newline but its last byte, and all but the last end in one. |
| Tailer.CutShowsLine | api/internal/logmon/tailer.go:483-505 | A shown line is a prefix of its text, whole if it fits; cut to the buffer otherwise, one byte shorter when the cut would end in a carriage return; only an empty line is not shown. |
| Tailer.StripMeaning | api/internal/logmon/tailer.go:489-505 | The text of a line is what stands before its terminator, a newline with or without a carriage return. |
| Tailer.CallsJoin | api/internal/logmon/tailer.go:489-505 | The calls for a list of lines are those of its parts in order, one for each line that shows something. |
| Bufio.Reader.ReadString | api/internal/logmon/tailer.go:271-290 | Reading through the next newline, or to end of file with the buffer empty, loses no byte. |
| Bufio.Reader.ReadLine | api/internal/logmon/tailer.go:490-503 | One buffered line or buffer-full, with the carriage return held back from a full buffer. |
| WsFrames.StreamRoundTrip | api/internal/httpapi/ws.go:270-312 | Any list of masked client frames in the minimal length form is read back in order with opcodes and payloads intact and every byte consumed. |
| WsFrames.DecodeInvertsEncode | api/internal/httpapi/ws.go:270-312 | One frame is recovered from the front of any stream and reading stops right behind it. |
| WsFrames.TruncatedFrameIsNotRead | api/internal/httpapi/ws.go:270-312 | No proper prefix of a frame is taken for a frame. |
| WsFrames.PanicsIff | api/internal/httpapi/ws.go:282-304 | The reader fails at run time, by allocating a negative length, if and only if the masked 64-bit form carries a length with its top bit set and header and mask are complete. |
| WsFrames.RefusedIff | api/internal/httpapi/ws.go:270-304 | When frames are refused for a missing mask bit, a length over 2^20, or missing bytes, in terms of the bytes. |
| WsFrames.UpperNibbleIgnored | api/internal/httpapi/ws.go:275 | Final-fragment and reserved bits make no difference. |
| WsFrames.Conn.ReadFrame | api/internal/httpapi/ws.go:270-312 | The sequence of exact reads, checks in their order, and in-place unmasking is the decoding of the bytes to come, failures included, and a frame moves the position by its size. |
| WsFrames.Conn.Unmask | api/internal/httpapi/ws.go:308-310 | The in-place loop applies the mask byte at its index modulo four. |
| WsFrames.MaskTwice | api/internal/httpapi/ws.go:308-310 | Unmasking is an involution. |
| WsFrames.MaskBit | api/internal/httpapi/ws.go:308-310 | Each bit of each byte is added to the bit of the mask byte at its index modulo four. |
| WsFrames.HeaderInverts | api/internal/httpapi/ws.go:239-300 | All three length forms are inverted, masked or not, up to the largest signed 64-bit length. |
| WsFrames.LengthFieldBytes | api/internal/httpapi/ws.go:243-258 | The bytes of the three length forms, most significant first. |
| WsFrames.LengthFieldIsMinimal | api/internal/httpapi/ws.go:243-258 | No field that is read as the same length is shorter. |
| WsFrames.WriteFrame | api/internal/httpapi/ws.go:239-265 | The header array and payload make the unmasked minimal-length frame. |
| WsFrames.ServerFrameInverts | api/internal/httpapi/ws.go:239-265 | Opcode, length and payload of a server frame can be read back by the layout of sections 5.2 and 5.3 of RFC 6455. |
| WsHub.RunsStayGood | api/internal/httpapi/ws.go:75-227 | In every interleaving of connecting, initial push, broadcasts, writer, and reader, for every client: its queue is closed at most once and exactly when it has left the hub, nothing is sent on a closed queue, at most 8 frames wait, taken plus waiting frames are the queued ones in order and a subsequence of those offered, and the hub has force-closed it if and only if six consecutive broadcasts found the queue full. |
| WsHub.StarvedStep | api/internal/httpapi/ws.go:95-119 | The running miss counter detects six misses in a row exactly when the last broadcast completes them. |
| WsHub.QueuedIffRoom | api/internal/httpapi/ws.go:95-119 | Initial push and broadcasts to a client of the hub are queued exactly when fewer than 8 frames wait. |
| WsHub.Hub.Broadcast | api/internal/httpapi/ws.go:95-119 | Every registered client sees exactly one non-blocking offer, its counter reset or raised, and is disconnected at the sixth miss. |
| WsHub.Hub.OfferAll | api/internal/httpapi/ws.go:95-111 | The part under the lock collects exactly the clients to disconnect. |
| WsHub.Hub.Add | api/internal/httpapi/ws.go:75-79 | Registers an open client. |
| WsHub.Hub.Remove | api/internal/httpapi/ws.go:81-88 | Closes the queue exactly if the client was still registered, so that a second removal does nothing. |
| WsHub.WsClient.TrySend | api/internal/httpapi/ws.go:100-108 | Sends if and only if there is room, never blocking. |
| Retarget.EstimateInConsensusRange | api/internal/state/aggregator.go:870-888 | The estimate lies in [-75, 300]. |
| Retarget.EstimateIs | api/internal/state/aggregator.go:870-888 | The whole estimate: +300 from four times too fast, -75 from four times too slow, the plain ratio of allowed and elapsed time between, and 0 without blocks or time. |
| Retarget.EstimateDependsOnMean | api/internal/state/aggregator.go:870-888 | Only the mean time of a block matters. |
| Retarget.EstimateAntitone | api/internal/state/aggregator.go:870-888 | It never rises with positive elapsed time. |
| Retarget.OnTargetPaceIsZero | api/internal/state/aggregator.go:870-888 | It is 0 at on-target pace for every positive number of intervals. |
| Retarget.FullEpochIsConsensus | api/internal/state/aggregator.go:870-888 | At 2015 intervals it is the clamped consensus ratio 2016 * 600 / elapsed. |
| Retarget.RetargetCache.Refresh | api/internal/state/aggregator.go:593-626 | One refresh updates the two cached times and gives the estimate from them. |
| Retarget.PredictedIs | api/internal/state/aggregator.go:593-626 | The estimate is made over the blocks since the epoch began and the time between the two headers, and not at an epoch's first block or without a time. |
| Retarget.KnownTimesAreKept | api/internal/state/aggregator.go:598-617 | A time cached for this epoch or tip is not looked up again. |
| Retarget.CacheStaysRight | api/internal/state/aggregator.go:593-626 | With lookups failing arbitrarily, the cache always holds the true times of the epoch and tip it names. |
| Retarget.CachedEqualsRecomputed | api/internal/state/aggregator.go:593-626 | After any sequence of refreshes on one network, however lookups failed before, a refresh whose lookups would succeed gives the estimate of fresh lookups. |
| Retarget.StartIsRightIff | api/internal/state/aggregator.go:598-608 | With lookups that may fail and networks that may switch, the start used is that of the polled network's epoch if and only if it is written now or the cached one, of whatever network and epoch, has the same time. |
| Retarget.TipIsRightIff | api/internal/state/aggregator.go:609-617 | The tip time used is that of the current tip if and only if its lookup succeeds now or the cached tip, perhaps the same, has the same time. |
| Retarget.SwitchKeepsStart | api/internal/state/aggregator.go:593-608 | Concrete run: a switch to another network in the epoch of the same number keeps the old network's start, the cache being keyed by the number alone. |
| Retarget.FailedLookupKeepsTip | api/internal/state/aggregator.go:609-617 | Concrete run: a new tip whose header cannot be read leaves the old tip's time in use. |
| KillSwitch.Watchdog.OnRefresh | api/internal/state/aggregator.go:546-572 | Streak and kill flag after one refresh, and whether the signal is sent. |
| KillSwitch.StateMeaning | api/internal/state/aggregator.go:546-572 | The streak is exactly the number of failures since the last answer, and the flag is set exactly if a kill succeeded within it. |
| KillSwitch.KillNeedsThreeFailures | api/internal/state/aggregator.go:819-837 | In every run a kill is tried only after three failed polls in a row with no submission outstanding. |
| KillSwitch.KillTriedIff | api/internal/state/aggregator.go:819-837 | A kill is tried if and only if the last three polls failed, no submission is outstanding, and the node has answered since every earlier successful kill. |
| KillSwitch.KillsAreSeparated | api/internal/state/aggregator.go:819-837 | Between two successful kills the node answered at least once and then failed three times again. |

## Left out

- SQL, JSON, HTTP and Unix-socket transport: tables and keys are maps and fields, the node's answers are indexed by pass and height (each is asked for at most once there in a sweep), and every access may fail by an input.
- Regular expressions and float parsing: log lines arrive tokenised and each is one kind of line. A line matching several patterns, and a malformed decimal such as "1.2.3", are outside the model.
- Floating point: difficulties are reals, rewards and pool work are integers, so rounding is not modelled. Integers are unbounded except in SHA-256 and in frame lengths, where widths are written out.
- Figures made from latency and attempt events, the best-difficulty high-water mark, the scan for the best share hash, session figures and hashrate history.
- Timers and throttles: an arbitrary choice at each step.
- Reconcile.Aggregator.ReconcileOnce: one sweep is one step, so no block is ingested between its reads and its writes. The stored copy of the confirmed counter, the published snapshot and its callback are not modelled.
- BlockRuns.TwoSweepsConverge: the clock does not go back between the sweeps.
- BlockRuns.HistoryFollowsStoreIff: history entries made from events keep the full clock reading, the store whole seconds, so equality is up to that truncation.
- ShareStats.ShareStatistics.PersistShareStats: the copy taken under the lock and the two writes after it are one step, and those writes succeed.
- ShareStats.ShareStatistics.LoadPersisted: the other counters it restores, and the time stored with the best record, are not modelled here.
- ShareStats.ShareStatistics.RebuildShareStatsFromLog: its missing-path and read-error exits, which change nothing, are not modelled.
- SharePipeline.Tailer.HandleLine: an accepted line that is a possible solve as well sends only its share event here. Block events are not joined to the block part.
- Tailer.Run: one inode, without rotation or read errors. Both reopen the file and are outside the delivery claim.
- ShareLog.LiveEqualsScan: about lines. A log followed while it grows is read as those lines exactly under `Tailer.HandedLinesIff`.
- Sha256.Sha256: messages up to 2^31 - 73 bytes, the range of its 32-bit index arithmetic. The tracing hooks are left out.
- Hex.HexToBytes: a character outside the basic multilingual plane counts once, where JavaScript counts two code units.
- Merkle.PadBlocks: how the header is divided into labelled fields, and the labels of the drawn segments.
- Target.TargetHex: takes the difficulty already multiplied by 2^48 and rounded, which the original does in floating point.
- WsFrames.Conn.ReadFrame: the run-time failure of `PanicsIff` is a result value, `MakePanics`. What becomes of the process is not modelled.
- WsHub.RunsStayGood: sockets are not modelled. Pings, write deadlines and the close handshake do not appear.
- KillSwitch.Watchdog.OnRefresh: a kill callback is configured; whether the signal succeeds is an input.
- The transaction accelerator, the retry loop towards the node, configuration, static file serving, origin checks and the patches to `ckpool`: input and output, or single branches.
- All rendering, charts, cards and formatters of the dashboard.
