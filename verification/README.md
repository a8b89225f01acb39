# Lodestar, modelled and verified

A Dafny model of the consensus core of Lodestar (the beacon state transition, the light client and
the utilities below them) with proofs of what that code is for: caches that must agree with the
recomputation they avoid, in-place algorithms that must refine their specification, and protocol
states that must stay linked to what was first trusted. Verify it with `dafny verify dfyconfig.toml`.

## What is modelled

* **Swap-or-not shuffling** (`Shuffle`, `ShuffleList`, `LongLists`, `OneBit`). The in-place list shuffle with its mirrored
  pair loops, reused hash buffer and cached digest and byte equals the per-index form, which is a
  bijection. The hash function is a parameter of every statement; `OneBit` and `HashInputs` tell from
  hashes with a single set bit or byte what the code reads out of which input.
* **What is drawn from it** (`Sampling`, `HashInputs`, `EpochShuffling`, `Duties`). Proposers, sync committees,
  committees and attester duties.
* **The epoch cache** (`Registry`, `Cache`, `Rotation`, `CacheMeaning`, `EpochContext`). The class `EpochContext` is
  built from a state or rotated at an epoch boundary. `Coherent` says that it agrees with a rebuild;
  every change that follows the rules of the comment on churn limits keeps it, and so does rotation.
* **One epoch transition** (`AttesterStatus`, `ActivationQueue`, `EpochProcess`, `RegistryUpdates`,
  `EffectiveBalances`, `RegistryEffects`). The fused pass with its bit flags against independent filters,
  and the registry update from prepared lists against the one that rescans the registry per validator;
  and what both do to the validators, told from the registry before and after alone.
* **Whole runs** (`Runs`, `CachedState`, `SkippedRoom`, `SlotProcessing`, `SlotRuns`). A cached state under any
  sequence of exits, randao reveals, deposits, slots, epochs and rebuilds; and the slot loop with its
  epochs and fork upgrades, for any slot, epoch and upgrade processing and for the cached state.
* **The light client** (`LightClientUpdates`, `OrderedMap`, `LightClient`, `LightClientTrust`). A class
  with insertion ordered maps, advanced by committee and header updates, what every run of it keeps, and
  what the client has been shown for it in terms of hash trees and keys.
* **Single algorithms** (`IntegerSqrt`, `MerkleBranch`, `AggregationBits`, `Balance`).

Unsafe JavaScript corners are explicit: 32-bit signed shifts (`JsInt`), byte arrays (increments
modulo 256), `undefined` reads, and division of BigInt toward zero. An epoch that may be `Infinity`
is `At(epoch)` or `Never`. An error that the code throws is a result (`None`, `false`, `null` or an
outcome), never a precondition. Preset values are parameters constrained only by `RawConfig.Valid`.

## What the proofs found

Where the code does not do what it or its comments say on all inputs, the model keeps the code and
states exactly when it does.

* The list shuffle's signed shift is right for all pivots exactly up to 2^30 items (`MirrorDomain`), and
  beyond that some lists are shuffled wrongly (`ListDomain`).
* A context that was rotated keeps a total of 0 where a rebuilt one has 1, exactly when nothing is at
  stake (`TotalsPart`, `CoherentAgainstFresh`, `RunTotal`).
* A context built on a full exit queue moves on to the next epoch at once. When the churn limit then
  rises, the next exit skips room that the specification would still use (`QueueAgrees`,
  `RotatedSkipsRoom`, `SkippedRoomWitness`), and the update that sets it departs from the specification
  (`RegistryUpdatesRefine`). Over whole runs this happens exactly to the first exit since such a build,
  while the exits at the full epoch are fewer than the churn limit has become and the floor has not
  passed it (`RunSkips`, `SkipsSinceBuild`, `RunAsSpecified`). A run without such a build is the
  specification's throughout, however the churn limit rises (`RunReaches`), and so is one along which
  it does not rise (`SteadyRunAsSpecified`).
* Scanning the active set two epochs ahead relies on `MAX_SEED_LOOKAHEAD >= 2` (`LookaheadDomain`).
* The three branches of the `else if` chain exclude each other on the registries of the chain, whatever
  the balances, because activation epochs are set only behind eligibility epochs (`StagedLosesNothing`,
  kept by every update: `FastKeepsStaged`); on arbitrary registries only because ejection happens below
  the maximum balance (`ChainDomain`).
* Packed participation flags stay apart exactly while bits 4 and 6 of the previous and bit 3 of the
  current epoch's flags are unset (`PreviousDomain`, `CurrentDomain`).
* The sync committee loop relies on an active validator of maximum balance (`FillsForEveryHash`).
* The light client's guard against rolling back never fires, and is not needed (`GuardNeverFires`,
  `RollbackRejected`).
* "Persist current previous and next participation" does not hold when the previous period was
  registered before the one before it; the participation asked for can then fall (`EvictionReaches`,
  `BarFalls`, `BarFallsWitness`).
* `isBetterUpdate` lets two updates replace each other for ever, on every chain and exactly when each is
  better than the other (`BothBetter`, `SwapsForEver`, `SwapForEverWitness`).
* The byte-wise `zipIndexes` drops indices past the last byte (`FormsAgree`). The comment on the byte
  table says big endian, the code is little endian (`TableIsBits`).
* `getForkName` follows the upgrades exactly when altair is not planned after bellatrix
  (`ForkNameFollowsUpgrades`).

## Model

| member | source | states |
|---|---|---|
| Bytes.IntBytesRoundTrip | packages/utils/src/bytes.ts:20-47 | little-endian encoding and decoding undo each other on every value that fits the width |
| Shuffle.Shuffler.StepTwice | packages/beacon-state-transition/lib/util/seed.js:105-113 | every swap-or-not round is an involution: applied twice to an index it gives the index back |
| Shuffle.Shuffler.ShuffledBijection | packages/beacon-state-transition/lib/util/seed.js:100-115 | `computeShuffledIndex` is a bijection; its inverse runs the rounds in the opposite order |
| Shuffle.Shuffler.UnshuffleSpecAt | packages/beacon-state-transition/lib/util/shuffle.js:15-18 | unshuffling a list leaves at position k the item that was at `computeShuffledIndex(k)` |
| Shuffle.Shuffler.ShuffleSpecAt | packages/beacon-state-transition/lib/util/shuffle.js:10-13 | shuffling a list moves the item at k to `computeShuffledIndex(k)` |
| Shuffle.Shuffler.ShuffleRoundTrip | packages/beacon-state-transition/lib/util/shuffle.js:10-18 | shuffling and unshuffling undo each other, in both orders, on every list |
| Shuffle.Shuffler.ShufflesKeepItems | packages/beacon-state-transition/lib/util/shuffle.js:10-18 | both directions keep exactly the items of the list, with their multiplicities |
| ShuffleList.SetPositionUint32 | packages/beacon-state-transition/lib/util/shuffle.js:66-72 | the four bytes after seed and round become the little-endian position; the rest of the buffer stays |
| ShuffleList.HashPosition | packages/beacon-state-transition/lib/util/shuffle.js:137-141 | hashing the reused 37-byte buffer gives the digest of seed, round and the position's window |
| ShuffleList.FirstPair | packages/beacon-state-transition/lib/util/shuffle.js:129-131 | before a pair loop the cached digest and byte are those of its first position |
| ShuffleList.DecidePair | packages/beacon-state-transition/lib/util/shuffle.js:134-146 | refreshing only at window and byte boundaries, the cached digest and byte still give the bit of the direct hash at every position, and are ready for the next one |
| ShuffleList.SwapItems | packages/beacon-state-transition/lib/util/shuffle.js:147-152 | one in-place swap takes the pairs decided so far one pair further |
| ShuffleList.SwapPairs | packages/beacon-state-transition/lib/util/shuffle.js:129-154 | one mirrored pair loop decides every pair of its stretch exactly once, with the bit of its larger index |
| ShuffleList.MirrorDomain | packages/beacon-state-transition/lib/util/shuffle.js:156 | the signed shift finds the middle for every pivot if and only if the list has at most 2^30 items |
| ShuffleList.HalvesMakeRound | packages/beacon-state-transition/lib/util/shuffle.js:110-186 | the two mirrored stretches, below and above the pivot, together are one swap-or-not round of the whole list |
| ShuffleList.RoundPivot | packages/beacon-state-transition/lib/util/shuffle.js:105-109 | the pivot of the round, read from the hash of seed and round in the buffer |
| ShuffleList.ShuffleRound | packages/beacon-state-transition/lib/util/shuffle.js:102-186 | one pass of the outer loop, as two mirrored stretches up to where the signed shift puts the middle, on every list shorter than 2^31 |
| ShuffleList.CodedRoundIsRound | packages/beacon-state-transition/lib/util/shuffle.js:102-186 | on lists of up to 2^30 items that pass is one round of the specification |
| ShuffleList.CodedIsSpec | packages/beacon-state-transition/lib/util/shuffle.js:74-203 | on lists of up to 2^30 items all passes together are the specification, in both directions |
| ShuffleList.InnerShuffleList | packages/beacon-state-transition/lib/util/shuffle.js:74-203 | the in-place loop equals the passes in either order on every list shorter than 2^31, and the specification up to 2^30 items, including lists of at most one item and zero rounds |
| LongLists.LastPairLost | packages/beacon-state-transition/lib/util/shuffle.js:156 | beyond 2^30 items there is a hash for which the pair of the last two items is never decided |
| LongLists.ListDomain | packages/beacon-state-transition/lib/util/shuffle.js:74-203 | in either direction, the in-place result is the specification's for every hash, seed and list of n items if and only if n is at most 2^30 (for n below 2^31) |
| ShuffleList.ShuffleList | packages/beacon-state-transition/lib/util/shuffle.js:11-13 | in-place shuffling equals the specification of shuffling |
| ShuffleList.UnshuffleList | packages/beacon-state-transition/lib/util/shuffle.js:16-18 | in-place unshuffling equals the specification of unshuffling |
| ShuffleList.PermuteOnce | packages/beacon-state-transition/lib/util/seed.js:106-113 | the loop body of `computeShuffledIndex` is one round of the same swap-or-not network |
| ShuffleList.ComputeShuffledIndex | packages/beacon-state-transition/lib/util/seed.js:100-115 | the per-index loop composes all rounds; both assertions are modelled |
| OneBit.StepMoves | packages/beacon-state-transition/lib/util/seed.js:105-113 | for every round, window, byte and bit: with a hash that sets one bit, in the answer to the seed, the round number and the window's four bytes, an index moves to its mirror image in that round if and only if the larger of the two is that bit's position, and stays in every other round |
| OneBit.IndexMoves | packages/beacon-state-transition/lib/util/seed.js:100-115 | with such a hash the whole of `computeShuffledIndex` moves an index if and only if it or its mirror image, whichever is larger, is the position of the bit |
| OneBit.ShuffledPath | packages/beacon-state-transition/lib/util/seed.js:105-113 | the result is the last stop of a walk that takes the rounds one by one, from the first |
| OneBit.PassMoves | packages/beacon-state-transition/lib/util/shuffle.js:102-186 | with such a hash one in-place pass exchanges exactly the pair of the bit, in its round only |
| OneBit.ListMoves | packages/beacon-state-transition/lib/util/shuffle.js:74-203 | and so does the whole in-place shuffle in either direction |
| Sampling.SeedSlot | packages/beacon-state-transition/lib/util/seed.js:120-130 | the ring slot an epoch's seed reads differs from the slots written in the epochs around it |
| HashInputs.SeedInput | packages/beacon-state-transition/lib/util/seed.js:127-130 | a seed is the hash of the domain, the eight bytes of the epoch, and the mix of `MIN_SEED_LOOKAHEAD + 1` epochs before |
| HashInputs.SeedsSame | packages/beacon-state-transition/lib/util/seed.js:127-130 | two seeds are the same under every hash if and only if domain, epoch and mix are |
| Sampling.Draws.TurnDrawsEachOnce | packages/beacon-state-transition/lib/util/seed.js:66-90 | every n consecutive draws, from any multiple of n on, draw each of the n active validators exactly once |
| Sampling.Draws.FullBalanceAccepted | packages/beacon-state-transition/lib/util/seed.js:46-49 | a candidate of maximum effective balance is accepted whatever the random byte |
| Sampling.Draws.ProposerIsFirstAccepted | packages/beacon-state-transition/lib/util/seed.js:30-54 | the proposer is the candidate of the first accepted draw, and -1 exactly when all n draws are rejected |
| Sampling.Draws.FullBalanceMeansProposer | packages/beacon-state-transition/lib/util/seed.js:30-54 | with one active validator of maximum effective balance the result is never -1 and is active |
| Sampling.Draws.TurnsTake | packages/beacon-state-transition/lib/util/seed.js:75-88 | with such a validator, q turns of draws take at least q members |
| Sampling.Draws.TakenCounted | packages/beacon-state-transition/lib/util/seed.js:75-88 | the members taken are as many as the accepted draws |
| Sampling.Draws.TakenPlaces | packages/beacon-state-transition/lib/util/seed.js:75-88 | the candidate of every accepted draw stands behind those accepted before it |
| Sampling.Draws.FillsForEveryHash | packages/beacon-state-transition/lib/util/seed.js:75-88 | the sync committee loop can end for every hash function if and only if some active validator has maximum effective balance |
| Sampling.Draw | packages/beacon-state-transition/lib/util/seed.js:38-46 | one draw: the candidate and whether it is accepted, with undefined increments rejected |
| HashInputs.AcceptedBytes | packages/beacon-state-transition/lib/util/seed.js:40-46 | a draw is accepted if and only if byte i % 32 of the hash of the seed and the eight bytes of i / 32 is at most 255 times the increments, in units of the maximum |
| HashInputs.OneByteDraws | packages/beacon-state-transition/lib/util/seed.js:37-46 | with a hash of all-255 answers but for one zero byte, draw i takes the validator at place i % n, and exactly the draw of that byte is accepted below full balance |
| HashInputs.OneByteProposer | packages/beacon-state-transition/lib/util/seed.js:30-54 | and its validator is the proposer, if the turn gets that far |
| Sampling.ComputeProposerIndex | packages/beacon-state-transition/lib/util/seed.js:30-54 | the loop gives the first accepted draw of one turn, or -1; an empty list throws |
| Sampling.ComputeProposers | packages/beacon-state-transition/lib/util/seed.js:15-23 | one proposer per slot of the epoch, each from its own seed |
| HashInputs.ProposerSeeds | packages/beacon-state-transition/lib/util/seed.js:15-23 | each slot's proposer is the first accepted draw under the hash of the epoch's seed and the eight bytes of that slot |
| HashInputs.SlotsDiffer | packages/beacon-state-transition/lib/util/seed.js:19-21 | for any two slots of an epoch there is a hash under which they have different proposers |
| Sampling.GetNextSyncCommitteeIndices | packages/beacon-state-transition/lib/util/seed.js:66-90 | whenever the draws ever fill the committee the loop ends with exactly `SYNC_COMMITTEE_SIZE` members, all active, the accepted draws in order; within `SYNC_COMMITTEE_SIZE * n` draws if some active validator has maximum effective balance |
| HashInputs.SyncCommitteeSeed | packages/beacon-state-transition/lib/util/seed.js:66-75 | the draws are seeded by the next epoch in the sync committee domain |
| EpochShuffling.CommitteesPartition | packages/beacon-state-transition/lib/util/epochShuffling.js:13-42 | concatenated in slot and index order the committees give back the shuffled active set, which has the members of the active set |
| EpochShuffling.CommitteeSizes | packages/beacon-state-transition/lib/util/epochShuffling.js:7-34 | sizes differ by at most one, and reach `TARGET_COMMITTEE_SIZE` once n is at least `SLOTS_PER_EPOCH * TARGET_COMMITTEE_SIZE` |
| EpochShuffling.CommitteeCountIsLargest | packages/beacon-state-transition/lib/util/epochShuffling.js:7-11 | the number of committees per slot is the largest allowed one whose committees all reach the target size, and at least one |
| EpochShuffling.CutSlot | packages/beacon-state-transition/lib/util/epochShuffling.js:23-33 | the committees of one slot; the error for invalid offsets is unreachable |
| EpochShuffling.ComputeEpochShuffling | packages/beacon-state-transition/lib/util/epochShuffling.js:13-42 | unshuffled in place on a copy and cut slot by slot, as specified; never throws |
| HashInputs.ShufflingSeed | packages/beacon-state-transition/lib/util/epochShuffling.js:13-19 | the shuffled list is the active set in the order of the seed of that epoch in the attester domain |
| Duties.ShufflingWellCut | packages/beacon-state-transition/lib/util/epochShuffling.js:13-42 | the committees are slices of a list without repetitions that has the active validators as members |
| Duties.OneSeat | packages/beacon-state-transition/lib/util/epochShuffling.js:20-34 | no validator sits twice in an epoch |
| Duties.SomeSeat | packages/beacon-state-transition/lib/util/epochShuffling.js:20-34 | a validator has a seat in the epoch if and only if it is active |
| Duties.SeatOf | packages/beacon-state-transition/lib/util/epochShuffling.js:20-34 | the validator at place p of the n shuffled ones sits in committee number ((p + 1) * count - 1) / n of the epoch, so many seats in as p lies behind that committee's first place |
| Duties.CommitteeDuties | packages/beacon-state-transition/src/cache/epochContext.ts:514-528 | the loop over one committee adds a duty for exactly its requested members |
| Duties.SlotDuties | packages/beacon-state-transition/src/cache/epochContext.ts:513-529 | the loop over one slot adds duties for exactly its requested members |
| Duties.EpochDuties | packages/beacon-state-transition/src/cache/epochContext.ts:507-532 | exactly one duty per requested active validator, none for others, and each points back at its validator's seat |
| Duties.DutyUnique | packages/beacon-state-transition/src/cache/epochContext.ts:519-526 | what a duty says is determined by its validator |
| Registry.SelectMembers | packages/beacon-state-transition/lib/util/validator.js:28-38 | an index is selected if and only if its validator satisfies the condition; selections ascend |
| Registry.ActiveChanges | packages/beacon-state-transition/lib/util/validator.js:12-14 | a validator joins the active set in its activation epoch and leaves it in its exit epoch, and at no other time |
| Registry.ChurnLimitReaches | packages/beacon-state-transition/lib/util/validator.js:40-42 | the churn limit reaches k if and only if the minimum does or the active set makes up k quotients |
| Registry.StakeBound | packages/beacon-state-transition/src/cache/epochContext.ts:271-275 | total stake is at most 256 increments per validator, so the safe-integer error cannot be reached |
| Registry.LatestExitUnique | packages/beacon-state-transition/src/cache/epochContext.ts:258-267 | the latest exit epoch is the only one that is not below the floor, bounds all exits and is one of them or the floor |
| Cache.QueueAgrees | packages/beacon-state-transition/src/allForks/block/initiateValidatorExit.ts:33-42 | the cached exit queue assigns the epoch that the specification recomputes if and only if it does not run ahead of an epoch with room |
| Cache.QueueAfterExit | packages/beacon-state-transition/src/allForks/block/initiateValidatorExit.ts:36-46 | after an exit the cached queue bounds every exit, counts its own epoch exactly and stands where the specification's does |
| Cache.QueueNextEpoch | packages/beacon-state-transition/src/cache/epochContext.ts:422-427 | the rotation keeps the bound and the exact count of the exit queue |
| Cache.QueueFresh | packages/beacon-state-transition/src/cache/epochContext.ts:258-267 | the one-pass scan leaves the two-pass exit queue: bound, exact count, and at most one epoch of lead |
| Cache.RulesActiveSame | packages/beacon-state-transition/src/cache/epochContext.ts:308-317 | changes that set activation and exit epochs no earlier than `computeActivationExitEpoch` leave every active set before that epoch alone |
| Cache.LookaheadDomain | packages/beacon-state-transition/src/cache/epochContext.ts:308-321 | the active set scanned before an epoch transition stays right two epochs ahead, whatever the rules allow, if and only if `MAX_SEED_LOOKAHEAD >= 2` |
| Cache.RulesSeedSame | packages/beacon-state-transition/lib/util/seed.js:120-130 | seeds of the window survive the randao writes of an epoch and of its boundary |
| Cache.RulesShufflingSame | packages/beacon-state-transition/src/cache/epochContext.ts:397-401 | shufflings of the window survive every change that the rules allow |
| Rotation.FreshCoherent | packages/beacon-state-transition/src/cache/epochContext.ts:216-349 | a built context is coherent with its state, and its exit queue has room |
| Rotation.CoherentAgainstFresh | packages/beacon-state-transition/src/cache/epochContext.ts:216-349 | a coherent cache equals a rebuilt one in the window, proposers, churn limit and every increment; in the total if and only if it was last built or something is at stake; in the next exit epoch if and only if the queue skips no room |
| Rotation.WithinCoherent | packages/beacon-state-transition/src/cache/epochContext.ts:308-321 | changes within an epoch that follow the rules keep the cache coherent |
| Rotation.CoherentWindow | packages/beacon-state-transition/src/cache/epochContext.ts:277-281 | the window of every coherent cache, and so of every moment of every run, is (max(0, e-1), e, e+1) for the epoch e of the slot |
| CacheMeaning.WindowMeans | packages/beacon-state-transition/src/cache/epochContext.ts:277-281 | each shuffling of a coherent cache holds exactly the validators active in its epoch, in the order of that epoch's own seed, and the churn limit is that of the current ones |
| CacheMeaning.ProposersMean | packages/beacon-state-transition/src/cache/epochContext.ts:283-285 | each proposer of a coherent cache is the first accepted draw, under the seed of its own slot, among the validators active in the current epoch |
| Rotation.RotateCoherent | packages/beacon-state-transition/src/cache/epochContext.ts:390-444 | rotating a coherent cache at an epoch boundary gives a cache coherent with the new state; the exit queue never moves back |
| Rotation.TotalsPart | packages/beacon-state-transition/src/cache/epochContext.ts:429 | after a rotation the total is that of a rebuild if and only if something is at stake: the rotation does not clamp it to 1 |
| Rotation.RotationSkipsNoRoom | packages/beacon-state-transition/src/cache/epochContext.ts:422-427 | a rotation makes the cached queue skip room only if the churn limit rises |
| Rotation.RotatedSkipsRoom | packages/beacon-state-transition/src/cache/epochContext.ts:420-427 | whatever happened before, a rotated queue skips room if and only if it had moved past its latest exit, and the new churn limit leaves room there |
| Rotation.BuiltThenRotatedSkipsRoom | packages/beacon-state-transition/src/cache/epochContext.ts:322-326 | for a registry unchanged since the build: if and only if the build found the queue full and the churn limit has risen above what is queued |
| SkippedRoom.BothSound | packages/beacon-state-transition/src/cache/epochContext.ts:216-444 | the build and the rotation of that example are coherent with states that follow the rules |
| SkippedRoom.SkippedRoomWitness | packages/beacon-state-transition/src/cache/epochContext.ts:322-326 | a registry that the chain can produce, on which the built and then rotated cache gives an exit another epoch than the specification |
| EpochContext.ScanValidators | packages/beacon-state-transition/src/cache/epochContext.ts:228-267 | the one pass finds three active sets, the increments, the stake and the exit queue of their specifications |
| EpochContext.EpochContext.constructor | packages/beacon-state-transition/src/cache/epochContext.ts:168-208 | stores exactly the given fields |
| EpochContext.EpochContext.CreateFromState | packages/beacon-state-transition/src/cache/epochContext.ts:216-349 | builds the cache of the specification, and throws exactly when there are validators but no active one |
| EpochContext.EpochContext.ShiftShufflings | packages/beacon-state-transition/src/cache/epochContext.ts:397-401 | the window moves on by one epoch and the new last shuffling is computed from the collected active set |
| EpochContext.EpochContext.AfterProcessEpoch | packages/beacon-state-transition/src/cache/epochContext.ts:390-444 | rotates every field, and throws exactly when the new epoch has no active validator, with the window already moved |
| EpochContext.EpochContext.ShufflingAtEpoch | packages/beacon-state-transition/src/cache/epochContext.ts:582-592 | finds exactly the three epochs of the window |
| EpochContext.EpochContext.GetCommitteeAssignments | packages/beacon-state-transition/src/cache/epochContext.ts:503-533 | one duty per requested active validator of any epoch in the window, each pointing back; other epochs throw |
| EpochContext.EpochContext.SearchSlot | packages/beacon-state-transition/src/cache/epochContext.ts:552-562 | the linear search of a slot finds a committee that holds the validator, or shows there is none |
| EpochContext.EpochContext.GetCommitteeAssignment | packages/beacon-state-transition/src/cache/epochContext.ts:543-565 | finds the committee of every active validator and of no other |
| EpochContext.WindowWellCut | packages/beacon-state-transition/src/cache/epochContext.ts:277-281 | the three shufflings of a coherent cache are well cut, so duties can be asked of any run |
| EpochContext.AssignmentMatchesDuty | packages/beacon-state-transition/src/cache/epochContext.ts:503-565 | the duty map and the linear search name the same slot and committee |
| AttesterStatus.TestsSee | packages/beacon-state-transition/src/cache/epochProcess.ts:295-341 | what the four marker tests see, for all participation values: the wanted bit, or a stray bit of the other epoch |
| AttesterStatus.SmallFlagsApart | packages/beacon-state-transition/src/util/attesterStatus.ts:1-38 | all four marker tests mean what the specification's filters say while stored flags are below 8 |
| AttesterStatus.FinalFlagsParse | packages/beacon-state-transition/src/cache/epochProcess.ts:176-202 | while stored flags are below 8, bits 0-2, 3-5, 6 and 7 never interfere: the final flags parse into exactly what was merged |
| AttesterStatus.ToAttesterFlags | packages/beacon-state-transition/src/util/attesterStatus.ts:64-75 | packs the eight flags so that parsing gives them back |
| AttesterStatus.PackParseRoundTrip | packages/beacon-state-transition/src/util/attesterStatus.ts:51-75 | packing and parsing undo each other; the other way round exactly on numbers below 256 |
| AttesterStatus.PreviousDomain | packages/beacon-state-transition/src/cache/epochProcess.ts:295-303 | the previous-epoch values that keep all four tests right are exactly those without bits 4 and 6 |
| AttesterStatus.CurrentDomain | packages/beacon-state-transition/src/cache/epochProcess.ts:304-312 | the current-epoch values that do are exactly those without bit 3 |
| ActivationQueue.SortSorts | packages/beacon-state-transition/src/cache/epochProcess.ts:268-272 | the sorted list is ordered by eligibility epoch and index and has the same members |
| ActivationQueue.OrderUnique | packages/beacon-state-transition/src/cache/epochProcess.ts:268-272 | that order is strict and total on indices, so any correct sort gives the same list |
| ActivationQueue.PreparedQueueServes | packages/beacon-state-transition/src/allForks/epoch/processRegistryUpdates.ts:39-52 | for every finalized epoch up to the current one, the entries eligible by it are a prefix of the prepared list and are the specification's queue |
| EpochProcess.ChainDomain | packages/beacon-state-transition/src/cache/epochProcess.ts:203-248 | the `else if` chain loses no ejection on any registry whatever if and only if `EJECTION_BALANCE < MAX_EFFECTIVE_BALANCE` |
| EpochProcess.StagedLosesNothing | packages/beacon-state-transition/src/cache/epochProcess.ts:203-248 | on every registry in which an activation epoch is set only behind an eligibility epoch, as the chain has it, the `else if` chain loses no ejection whatever the two balances are |
| EpochProcess.SlashedHalfway | packages/beacon-state-transition/src/cache/epochProcess.ts:180-183 | a slashed validator is listed in exactly the epoch that lies half the slashings vector, rounded down, before it can withdraw |
| EpochProcess.ClassifyValidators | packages/beacon-state-transition/src/cache/epochProcess.ts:176-257 | the fused loop equals the independent filters, active sets, base flags and the total stake |
| EpochProcess.MergeParticipation | packages/beacon-state-transition/src/cache/epochProcess.ts:295-312 | both merge loops add exactly the stored flags of validators active in their epoch, for lists of any length; it throws exactly when the current list is longer than the registry |
| EpochProcess.MarkersFilter | packages/beacon-state-transition/src/cache/epochProcess.ts:329-340 | the marker tests on the merged flags are the specification's `get_unslashed_participating_indices` |
| EpochProcess.FlagsMean | packages/beacon-state-transition/src/cache/epochProcess.ts:176-312 | all eight flags of a validator in terms of its epochs, its slashing and the stored bits |
| EpochProcess.ParticipatesMeans | packages/beacon-state-transition/src/cache/epochProcess.ts:326-341 | the three filters of the totals in the same terms |
| EpochProcess.SumStakes | packages/beacon-state-transition/src/cache/epochProcess.ts:315-348 | each of the four totals is max(1, increments of the unslashed validators active in that epoch with that flag) |
| EpochProcess.BeforeProcessEpoch | packages/beacon-state-transition/src/cache/epochProcess.ts:143-371 | everything that epoch processing is given, against its specification; the safe-integer error is unreachable |
| RegistryUpdates.ExitInStep | packages/beacon-state-transition/src/allForks/block/initiateValidatorExit.ts:25-47 | a queue in step gives an exit exactly what `initiate_validator_exit` computes, and stays in step |
| RegistryUpdates.SweepSplits | packages/beacon-state-transition/src/allForks/epoch/processRegistryUpdates.ts:26-37 | the specification's interleaved sweep comes to all exits followed by all eligibility marks |
| RegistryUpdates.QueueAfterSweep | packages/beacon-state-transition/src/allForks/epoch/processRegistryUpdates.ts:39-52 | exits and fresh marks leave the activation queue of every finalized epoch as it was |
| RegistryUpdates.DequeuedIsSpec | packages/beacon-state-transition/src/allForks/epoch/processRegistryUpdates.ts:41-52 | cutting at the churn limit and then stopping at finality takes the first entries of the specification's queue |
| RegistryUpdates.SameExitsSuffice | packages/beacon-state-transition/src/allForks/epoch/processRegistryUpdates.ts:19-53 | with the exits of the specification the fast update from prepared lists is `process_registry_updates` |
| RegistryUpdates.DifferingExits | packages/beacon-state-transition/src/allForks/epoch/processRegistryUpdates.ts:26-32 | where the chain loses an ejection or somebody is ejected into a queue that skips room, some exit epoch differs |
| RegistryUpdates.RegistryUpdatesRefine | packages/beacon-state-transition/src/allForks/epoch/processRegistryUpdates.ts:19-53 | the fast update equals `process_registry_updates` of the phase0 specification if and only if the chain loses no ejection on this registry and nobody is ejected into a queue that skips room |
| RegistryUpdates.RefinesUnlessRoomIsSkipped | packages/beacon-state-transition/src/allForks/epoch/processRegistryUpdates.ts:19-53 | on a staged registry, and on any when the ejection balance is below the maximum: if and only if the queue skips no room or nobody is ejected |
| RegistryUpdates.FastKeepsStaged | packages/beacon-state-transition/src/allForks/epoch/processRegistryUpdates.ts:34-52 | whatever the lists, the update sets no activation epoch where no eligibility epoch is set |
| RegistryUpdates.FastEjectsInto | packages/beacon-state-transition/src/allForks/epoch/processRegistryUpdates.ts:26-32 | with nobody to eject the update leaves exits and queue alone; otherwise it leaves the queue at the latest exit, wherever it stood before |
| RegistryUpdates.FastKeepsRoom | packages/beacon-state-transition/src/allForks/epoch/processRegistryUpdates.ts:19-53 | the update never makes the queue skip room |
| RegistryUpdates.FastKeeps | packages/beacon-state-transition/src/allForks/epoch/processRegistryUpdates.ts:19-53 | whatever the lists, the update follows the rules for activation and exit epochs and keeps the exit queue |
| RegistryEffects.FastActivates | packages/beacon-state-transition/src/allForks/epoch/processRegistryUpdates.ts:39-52 | at most `churnLimit` validators are activated; each was waiting and eligible by the finalized epoch; and one that was too is left out only behind exactly `churnLimit` activated ones, all before it by eligibility epoch and index |
| RegistryEffects.FastMarks | packages/beacon-state-transition/src/allForks/epoch/processRegistryUpdates.ts:35-37 | exactly the validators of full effective balance without an eligibility epoch are marked, for the next epoch |
| RegistryEffects.FastEjects | packages/beacon-state-transition/src/allForks/epoch/processRegistryUpdates.ts:26-32 | exactly the active validators of low balance without an exit get one, far enough ahead, and their withdrawable epoch behind it |
| RegistryEffects.FastFillsQueue | packages/beacon-state-transition/src/allForks/block/initiateValidatorExit.ts:36-46 | no epoch gets new exits beyond the churn limit, and the queue moves past an epoch only when it is full |
| RegistryEffects.FastMoves | packages/beacon-state-transition/src/allForks/epoch/processRegistryUpdates.ts:19-53 | all of that at once, from the prepared lists on a staged registry |
| RegistryEffects.UpdatesMove | packages/beacon-state-transition/src/allForks/epoch/processEffectiveBalanceUpdates.ts:20-61 | with the balances after it: an effective balance stays inside the hysteresis band and otherwise becomes the largest whole number of increments |
| EffectiveBalances.UpdateOne | packages/beacon-state-transition/src/allForks/epoch/processEffectiveBalanceUpdates.ts:36-53 | hysteresis on the cached increment equals the specification on the registry |
| EffectiveBalances.UpdateEffectiveBalances | packages/beacon-state-transition/src/allForks/epoch/processEffectiveBalanceUpdates.ts:20-61 | registry, increments and the next epoch's total after the loop, for every validator |
| EffectiveBalances.AtMaximum | packages/beacon-state-transition/src/allForks/epoch/processEffectiveBalanceUpdates.ts:41-43 | the extra test against the maximum skips only updates that change nothing |
| CachedState.CachedBeaconState.constructor | packages/beacon-state-transition/src/cache/cachedBeaconState.ts:79-116 | a state with a context built from it is coherent |
| CachedState.CachedBeaconState.Rebuild | packages/beacon-state-transition/src/cache/cachedBeaconState.ts:79-116 | the rebuild of a fork upgrade is coherent with the unchanged state, or throws when nobody is active |
| CachedState.CachedBeaconState.InitiateValidatorExit | packages/beacon-state-transition/src/allForks/block/initiateValidatorExit.ts:25-47 | keeps the cache coherent, fills the exit queue up to the churn limit epoch by epoch, and equals the specification if and only if the queue skips no room or the exit was already initiated |
| CachedState.CachedBeaconState.ProcessRandao | packages/beacon-state-transition/src/allForks/block/processRandao.ts:14-35 | writes one ring slot and keeps the cache coherent |
| CachedState.CachedBeaconState.ProcessDeposit | packages/beacon-state-transition/src/allForks/block/processDeposit.ts:65-87 | adds the validator and its increment and keeps the cache coherent |
| CachedState.CachedBeaconState.AdvanceSlot | packages/beacon-state-transition/src/allForks/stateTransition.ts:177-179 | a slot inside an epoch keeps the cache coherent |
| CachedState.CachedBeaconState.EjectAll | packages/beacon-state-transition/src/allForks/epoch/processRegistryUpdates.ts:26-32 | exits in list order, with the cached queue |
| CachedState.CachedBeaconState.MarkAll | packages/beacon-state-transition/src/allForks/epoch/processRegistryUpdates.ts:35-37 | marks exactly the listed validators |
| CachedState.CachedBeaconState.ActivateUpTo | packages/beacon-state-transition/src/allForks/epoch/processRegistryUpdates.ts:39-52 | activates the head of the list up to the churn limit and to finality |
| CachedState.CachedBeaconState.ProcessRegistryUpdates | packages/beacon-state-transition/src/allForks/epoch/processRegistryUpdates.ts:19-53 | equals the update on values, keeps the rules and the coherence of the cache |
| CachedState.CachedBeaconState.PrepareAndUpdateRegistry | packages/beacon-state-transition/src/allForks/stateTransition.ts:158-159 | preparation and registry update in a row; whom it activates, marks and ejects (`RegistryMoved`); the registry is the specification's if and only if the exits agree, and room is not skipped anew |
| CachedState.CachedBeaconState.ProcessEpoch | packages/beacon-state-transition/src/allForks/stateTransition.ts:158-159 | leaves exactly what the rotation needs: active set, total, increments and queue; registry and balances are the specification's if and only if the exits agree |
| CachedState.CachedBeaconState.ProcessSyncCommitteeUpdates | packages/beacon-state-transition/src/altair/epoch/processSyncCommitteeUpdates.ts:12-25 | on what the rest of `ProcessEpoch` leaves: the committee drawn from the cached active set and increments is the one that `get_next_sync_committee_indices` draws from the registry, with its errors, exactly when a period ends |
| CachedState.CachedBeaconState.CrossEpoch | packages/beacon-state-transition/src/allForks/stateTransition.ts:153-167 | crossing an epoch boundary keeps the cache coherent, throws exactly when nobody is active in the new epoch, follows the specification if and only if the exits agree, and leaves the exit queue at its latest exit if it ejects somebody and otherwise alone but for the floor |
| CachedState.CachedBeaconState.Advance | packages/beacon-state-transition/src/allForks/stateTransition.ts:149-180 | each kind of step is refused or throws exactly in the stated cases and otherwise does what the step does on values, coherently |
| CachedState.CachedBeaconState.Run | packages/beacon-state-transition/src/allForks/stateTransition.ts:139-183 | the moments of any run are a trace of the steps on values, and at its end the window, proposers, churn limit and increments are those of a rebuild from the state |
| CachedState.CachedBeaconState.ProcessSlot | packages/beacon-state-transition/src/allForks/stateTransition.ts:149-180 | one iteration goes on with exactly the steps of its slot: the slot, or the epoch and the due rebuilds; it throws if and only if the slot ends an epoch behind which nobody is active |
| CachedState.CachedBeaconState.ProcessSlots | packages/beacon-state-transition/src/allForks/stateTransition.ts:139-183 | the moments the slot loop passes through are a trace of exactly the steps of the scheduled events, and it ends with the cache of a rebuild; where it throws, for a past slot at once, the moments up to there are such a trace and end before an epoch boundary behind which nobody is active |
| SlotRuns.SlotSteps | packages/beacon-state-transition/src/allForks/stateTransition.ts:149-180 | the steps of the events of one slot: the epoch and then a rebuild per fork that starts, or the slot alone |
| Runs.CoherentAsRebuilt | packages/beacon-state-transition/src/cache/epochContext.ts:216-349 | coherence means agreement with the recomputation, field by field |
| Runs.BalancesFollowSpec | packages/beacon-state-transition/src/allForks/epoch/processEffectiveBalanceUpdates.ts:20-61 | balance updates after a registry update are the specification's if and only if that update was |
| Runs.StepsWithin | packages/beacon-state-transition/src/cache/epochContext.ts:308-321 | exits, reveals, deposits and slots follow the rules for changes within an epoch |
| Runs.FreshSkipsNoRoom | packages/beacon-state-transition/src/cache/epochContext.ts:322-326 | a built cache skips no room |
| Runs.StepSkipsNoRoom | packages/beacon-state-transition/src/cache/epochContext.ts:420-427 | no step makes the queue skip room except a boundary at which the churn limit rises |
| Runs.BuiltStand | packages/beacon-state-transition/src/cache/epochContext.ts:258-326 | a build leaves the queue past the latest exit exactly when it finds the queue full |
| Runs.StepStands | packages/beacon-state-transition/src/allForks/block/initiateValidatorExit.ts:25-47 | every step but a rebuild leaves the queue standing where it stood, the floor aside, or sets an exit and leaves it at the latest exit |
| Runs.StepAsSpecified | packages/beacon-state-transition/src/allForks/stateTransition.ts:149-180 | an exit or epoch transition is the specification's if and only if it sets no exit or the queue skips no room |
| Runs.RunSkips | packages/beacon-state-transition/src/allForks/stateTransition.ts:139-183 | on every run, whatever the churn limit does, the queue skips room if and only if no exit was set since the last build, that build left it past its latest exit, and that exit epoch is not below the floor and has fewer exits than the churn limit |
| Runs.SkipsSinceBuild | packages/beacon-state-transition/src/cache/epochContext.ts:258-326 | from a build until the next exit the queue skips room if and only if the latest exit found by the build is not below the current floor and the exits at it fill the churn limit of the build but not the current one |
| Runs.RunAsSpecified | packages/beacon-state-transition/src/allForks/stateTransition.ts:139-183 | on every run, whatever the churn limit does, a step is the specification's if and only if it sets no exit or the condition of `RunSkips` fails |
| Runs.RunReaches | packages/beacon-state-transition/src/allForks/stateTransition.ts:139-183 | a run whose builds leave the queue at its latest exit is the specification's throughout, however the churn limit rises |
| Runs.SteadyRunAsSpecified | packages/beacon-state-transition/src/allForks/stateTransition.ts:139-183 | so is a run along which the churn limit rises at no boundary, from any queue that skips no room |
| Runs.RunTotal | packages/beacon-state-transition/src/cache/epochContext.ts:429 | along a whole run the total is the stake after a rotation, and max(1, stake) after a build, whatever happens within the epoch |
| Runs.RandaoReset | packages/beacon-state-transition/src/allForks/epoch/processRandaoMixesReset.ts:10-16 | copies the mix of the current epoch to the ring slot of the next one and changes no other |
| Runs.IncrementsSet | packages/beacon-state-transition/src/cache/epochContext.ts:594-604 | one increment is set, growing the array when needed, and all others stay |
| Runs.NewValidatorWaits | packages/beacon-state-transition/src/allForks/block/processDeposit.ts:65-87 | a new validator counts for all whole increments of its deposit and is neither eligible, active nor exiting |
| Balance.GetEffectiveBalanceIncrementsZeroInactive | packages/beacon-state-transition/lib/util/balance.js:43-62 | the two-cursor loop keeps the increment of exactly the listed validators and zeroes the rest |
| Balance.JustifiedBalances | packages/beacon-state-transition/lib/util/balance.js:43-62 | on any coherent cache exactly the active validators keep their increments, and max(1, sum) is the total of a fresh context |
| Balance.SelectedBalance | packages/beacon-state-transition/lib/util/balance.js:15-19 | the sum of selected effective balances is the stake in increments times the increment |
| Balance.CachedTotalIsTotalBalance | packages/beacon-state-transition/lib/util/balance.js:15-19 | the cached total stands for `get_total_active_balance` of the specification |
| SlotProcessing.ProcessSlotsWithTransientCache | packages/beacon-state-transition/src/allForks/stateTransition.ts:139-183 | the loop equals its step-by-step specification for any processing, with every place that may throw |
| SlotProcessing.RunSplits | packages/beacon-state-transition/src/allForks/stateTransition.ts:139-183 | processing to b and then to c is processing straight to c, for every a <= b <= c and any processing |
| SlotProcessing.StepRecords | packages/beacon-state-transition/src/allForks/stateTransition.ts:149-180 | one iteration does slot, epoch under the fork before the boundary, and due upgrades, and leaves the window (max(0, e-1), e, e+1) |
| SlotProcessing.RunRecords | packages/beacon-state-transition/src/allForks/stateTransition.ts:139-183 | epoch processing is given the last slot of every epoch that ends, and the rotation the first slot of the next |
| SlotProcessing.RunIsDoAll | packages/beacon-state-transition/src/allForks/stateTransition.ts:139-183 | for any slot, epoch and upgrade processing, a run is its events done in order, until one throws |
| SlotProcessing.EventsAreDue | packages/beacon-state-transition/src/allForks/stateTransition.ts:139-183 | the events of a run are every slot, every epoch that ends (under its own fork) and every fork that starts in it, each exactly once, and nothing else |
| SlotProcessing.RunWindow | packages/beacon-state-transition/src/cache/epochContext.ts:390-443 | for any processing whose rotation shifts the window and whose upgrades rebuild it: after every run that does not throw the window is (max(0, e-1), e, e+1) for the epoch e it has led to |
| SlotProcessing.RunEpoch | packages/beacon-state-transition/src/allForks/stateTransition.ts:163-164 | for any processing whose rotation sets the epoch of the cache from the slot it is given: after every run that does not throw it is the epoch of the slot |
| SlotProcessing.EventsInTime | packages/beacon-state-transition/src/allForks/stateTransition.ts:149-180 | the events of a run are in strict order: by slot, and then slot, epoch, altair, bellatrix |
| SlotProcessing.RunLeavesFork | packages/beacon-state-transition/src/allForks/stateTransition.ts:169-176 | the last upgrade among the events of a run from genesis is the one of the last fork epoch reached |
| SlotProcessing.ForkNameFollowsUpgrades | packages/config/src/forkConfig/index.ts:31-41 | on every run from genesis `getForkName` names the fork of the last upgrade done, if and only if altair is not planned after bellatrix |
| OrderedMap.SetPlaces | packages/light-client/src/index.ts:474-478 | setting an existing key keeps the order of the keys, a new key goes last |
| OrderedMap.GetAfterSet | packages/light-client/src/index.ts:392 | what a map holds after setting a key |
| OrderedMap.GetAfterDrop | packages/light-client/src/utils/map.ts:5-20 | pruning loses the values of the dropped keys and no others |
| OrderedMap.PruneSetToMax | packages/light-client/src/utils/map.ts:5-20 | the loop keeps the newest entries and counts the deleted ones |
| LightClientUpdates.ParticipantKeys | packages/light-client/src/utils/utils.ts:41-51 | exactly the keys of the set bits, in order; it throws if and only if a set bit has no key |
| LightClientUpdates.SignedInItsPeriod | packages/light-client/src/validation.ts:65-83 | a valid update was signed in the period that it is filed under, even when that was read off the finalized header |
| LightClientUpdates.BothBetter | packages/light-client/src/utils/update.ts:18-30 | two updates replace each other in turn if and only if one is final with a supermajority and the other, not final, outranks it |
| LightClientUpdates.SupermajorityMeans | packages/light-client/src/utils/update.ts:1-30 | a supermajority is more than twice as many participants as absentees |
| LightClientUpdates.WinnerIsBest | packages/light-client/src/utils/update.ts:18-30 | among updates without that conflict, the one that comes out of comparing them in turn is one that none outranks |
| LightClient.StoredIsWinner | packages/light-client/src/index.ts:460-480 | in every run from the snapshot the entry for the upper period is what comes out of comparing, in turn, all updates accepted for the lower one |
| LightClient.StoredIsBest | packages/light-client/src/index.ts:460-480 | so, without such a conflict among them, no accepted update outranks the stored one |
| LightClient.SwapsForEver | packages/light-client/src/index.ts:471-479 | on every chain and for every store the client can keep, two valid updates for the lower period, fed in turn, replace the stored entry every time and for ever if and only if each is better than the other |
| LightClient.SwapForEverWitness | packages/light-client/src/index.ts:471-479 | two valid updates and two reachable stores between which the client swaps the stored committee for ever |
| LightClient.GuardNeverFires | packages/light-client/src/index.ts:446-451 | the guard against rolling back compares with minus infinity and never fires |
| LightClient.RollbackRejected | packages/light-client/src/index.ts:446-456 | older periods are turned down all the same, for want of a committee |
| LightClient.CommitteeStepKeeps | packages/light-client/src/index.ts:439-481 | a committee update keeps the store's invariant; the lower period stays with its committee, or moves up by one to the committee stored next |
| LightClient.RegisterKeeps | packages/light-client/src/index.ts:390-394 | registered periods stay distinct, few, and in order but for neighbours |
| LightClient.HeaderStepKeeps | packages/light-client/src/index.ts:355-427 | a header update keeps the invariant, leaves the committees alone and never moves the head back |
| LightClient.RunKeeps | packages/light-client/src/index.ts:355-481 | in every reachable state the stored periods are {p} or {p, p+1}, all committees descend from the snapshot by valid updates, the committee at p validated the one at p+1, and p never decreases |
| LightClientTrust.SignatureChecked | packages/light-client/src/validation.ts:138-163 | a header is taken as signed if and only if enough keys of the committee, those of the set bits in order, verify it |
| LightClientTrust.AcceptedIsShown | packages/light-client/src/index.ts:439-481 | an accepted update was in time; its next committee is leaf 23 of 32 of any tree with the state root of its active header, its finalized header leaf 41 of 64 below the attested one in the same period, or a branch collides; the committee held for its period signed the attested header; and it changes the next entry only to its own committee |
| LightClientTrust.HonestIsAccepted | packages/light-client/src/index.ts:439-481 | every update made from the trees themselves, signed and in time, is accepted when the client holds its committee |
| LightClientTrust.RunShown | packages/light-client/src/index.ts:355-481 | in every run from the snapshot the stored committees descend from the snapshot's by updates so shown, and the head was signed by a committee that does |
| LightClientTrust.SnapshotShown | packages/light-client/src/index.ts:187-197 | the snapshot's committee is leaf 22 of 32 below the state root of its header, or a branch collides |
| LightClientTrust.HeaderAccepted | packages/light-client/src/index.ts:355-388 | a header is accepted if and only if it is in time, the committee held for its period signed it, and nothing registered lately exceeds twice its participation and one |
| LightClientTrust.HeadIsBest | packages/light-client/src/index.ts:396-410 | the head of every run is the first one or an accepted header, and none of these surpasses it by slot and participation |
| LightClient.ReachableKept | packages/light-client/src/index.ts:134-160 | every store reached from the snapshot satisfies the invariant and is at or past the snapshot |
| LightClient.RegisteredValues | packages/light-client/src/index.ts:390-394 | the participation registered for every period after a header |
| LightClient.EvictionReaches | packages/light-client/src/index.ts:50-51 | an eviction reaches the previous, current or next period if and only if the entries were registered out of order, and then it is the previous one |
| LightClient.BarFalls | packages/light-client/src/index.ts:376-394 | a header lowers the participation asked for in a stored period if and only if the stated, checkable condition on the registered entries holds |
| LightClient.BarFallsWitness | packages/light-client/src/index.ts:376-394 | a reachable state in which one header is turned down and, after another header, accepted |
| LightClient.Lightclient.constructor | packages/light-client/src/index.ts:134-160 | the store of a snapshot whose committee decodes satisfies the invariant; `Create` has the guard |
| LightClient.Lightclient.Create | packages/light-client/src/index.ts:134-160 | a client is made exactly for a snapshot whose committee decodes, and otherwise it throws |
| LightClient.Lightclient.InitializeFromCheckpointRoot | packages/light-client/src/index.ts:177-206 | a client is made exactly for a snapshot that matches the trusted root and proves its committee |
| LightClient.Lightclient.ProcessHeaderUpdate | packages/light-client/src/index.ts:355-427 | the method equals the step on values, with every rejection, and keeps the invariant |
| LightClient.Lightclient.ProcessSyncCommitteeUpdate | packages/light-client/src/index.ts:439-481 | the method equals the step on values, with every rejection, and keeps the invariant |
| LightClient.Lightclient.Sync | packages/light-client/src/index.ts:245-254 | updates are applied in order up to the first that is turned down |
| IntegerSqrt.StepStaysAbove | packages/utils/src/math.ts:39-42 | a Newton step rounded down twice never falls below the root |
| IntegerSqrt.NoDescentMeansRoot | packages/utils/src/math.ts:39-43 | where the iteration stops descending, it has reached the root |
| IntegerSqrt.RootUnique | packages/utils/src/math.ts:23-25 | there is only one largest k with k*k <= n |
| IntegerSqrt.BigIntSqrt | packages/utils/src/math.ts:36-44 | ends for every n and returns the largest k with k*k <= n; negative n come back unchanged |
| MerkleBranch.AncestorIsQuotient | packages/utils/src/verifyMerkleBranch.ts:20 | dividing by a power of two is halving level by level |
| MerkleBranch.VerifyMerkleBranch | packages/utils/src/verifyMerkleBranch.ts:11-27 | the loop climbs the branch; a branch shorter than the depth throws |
| MerkleBranch.HonestBranchAccepted | packages/utils/src/verifyMerkleBranch.ts:11-27 | the honest branch of every leaf of every complete tree is accepted |
| MerkleBranch.BranchesBind | packages/utils/src/verifyMerkleBranch.ts:11-27 | two accepted leaf and branch pairs for one index, depth and root are equal, or the two verifications hash different inputs to one digest |
| MerkleBranch.AcceptedLeafIsTheTrees | packages/utils/src/verifyMerkleBranch.ts:11-27 | an accepted leaf for a tree's root is the tree's own, or collides with its honest branch |
| MerkleBranch.HighBitsIgnored | packages/utils/src/verifyMerkleBranch.ts:19-25 | index bits above the depth make no difference |
| AggregationBits.PackedBit | packages/beacon-state-transition/src/util/aggregationBits.ts:122-137 | bit k of packed byte i is bit 8i+k of the list, zero past its end |
| AggregationBits.TableIsBits | packages/beacon-state-transition/src/util/aggregationBits.ts:22-33 | entry j of a table row is bit j of the byte, least significant first |
| AggregationBits.ByteTable.Row | packages/beacon-state-transition/src/util/aggregationBits.ts:14-19 | the memo returns the bits of the byte, cached or not |
| AggregationBits.SplitParts | packages/beacon-state-transition/src/util/aggregationBits.ts:58-77 | no index is lost or on both sides of the split |
| AggregationBits.SplitByBit | packages/beacon-state-transition/src/util/aggregationBits.ts:58-77 | among distinct indices each is on the side of its own bit, and on no other |
| AggregationBits.SplitPlaces | packages/beacon-state-transition/src/util/aggregationBits.ts:58-77 | the selected indices keep their order |
| AggregationBits.ZipIndexes | packages/beacon-state-transition/src/util/aggregationBits.ts:58-77 | the bit-wise form splits all indices, in order |
| AggregationBits.ZipIndexesTreeBacked | packages/beacon-state-transition/src/util/aggregationBits.ts:88-116 | the byte-wise form splits, in order, the indices that have a byte |
| AggregationBits.FormsAgree | packages/beacon-state-transition/src/util/aggregationBits.ts:58-116 | the two forms agree if and only if there is a byte for every index |
| AggregationBits.FormsAgreeOnEqualLengths | packages/beacon-state-transition/src/util/aggregationBits.ts:58-116 | which is so whenever there are as many bits as indices |
| AggregationBits.GetSingleBitIndex | packages/beacon-state-transition/src/util/aggregationBits.ts:166-178 | the index of the only set bit, and an error exactly when there is none such |
| AggregationBits.GetSingleBitIndexTreeBacked | packages/beacon-state-transition/src/util/aggregationBits.ts:145-164 | the same through the packed bytes, skipping zero bytes |
| AggregationBits.SingleBitUnique | packages/beacon-state-transition/src/util/aggregationBits.ts:142-179 | so both forms answer alike |

## Left out

- SHA-256, BLS and SSZ: the hash is an arbitrary function to 32 bytes; signature checks, hash tree
  roots and key decoding are arbitrary functions; `bitsToUint8Array` is the packed bytes of the list.
- The phase0 branch of `beforeProcessEpoch` (`statusProcessEpoch`) and the fields only it uses.
- Rewards, penalties, slashings, justification and inactivity scores: their effect on balances,
  participation and finality enters `CrossEpoch` as inputs that may be anything of the right size.
- Block processing other than exits, randao reveals and deposits of new keys; the signature and the
  Merkle proof of a deposit, a deposit to a known key (it changes balances only), and the xor that
  mixes a reveal (the new mix is a parameter).
- CachedState.CachedBeaconState.ProcessDeposit: only the branch that adds a validator; a known key changes
  balances, which are not part of the state here, and a bad signature changes nothing.
- CachedState.CachedBeaconState.ProcessSlots: the epochs before altair are processed by the same registry,
  balance and randao updates; their attestation records are not modelled.
- What a fork upgrade writes to the state: `Rebuild` keeps the parts modelled here as they are.
- `syncParticipantReward`, `syncProposerReward`, `baseRewardPerIncrement`, the indexed sync committees
  and the pubkey maps of `EpochContext`.
- The beacon state is a value in a field that methods reassign, and the increments array is a sequence:
  copies of contexts that share that array are not modelled.
- `Map`s of the light client are sequences of entries in insertion order; a `Map`'s iteration order is
  the only thing about it that matters here.
- `Array.prototype.sort` is insertion sort; `OrderUnique` shows that no correct sort differs.
- Lists of 2^31 items and more, whose positions no longer fit the signed shifts, and of 2^32 and more,
  where `innerShuffleList` throws: what the shuffle leaves of them.
- Floating point: `intSqrt` above 2^53, `PROPOSER_WEIGHT_FACTOR`, and `Math.floor(index / 2 ** i)` above
  2^53; all are exact integers here.
- Clocks: the current slot with its tolerance is a parameter. Networking, events, logging, metrics,
  `runLoop`, the chunking of requests, and proxy and tree mechanics.
- `isSlashableValidator`, `bigIntMin`, `getBeaconProposer` and other members that only compute one expression.
- EpochProcess.BeforeProcessEpoch: participation lists are as long as the registry, as every block and epoch leaves
  them; `MergeParticipation` is about lists of any length.
- `processSyncCommitteeUpdates` writes committees that are not part of the state here, so `ProcessEpoch` does
  not call it; it leaves what `ProcessSyncCommitteeUpdates` requires.
- Runs.RunAsSpecified: epochs whose finalized epoch lies in the future (`Late`), which justification never
  gives, are left open: the prepared activation queue serves finalized epochs up to the current one only.
- CachedState.CachedBeaconState.constructor: registries with an activation epoch but no eligibility epoch are
  outside `Valid`; genesis sets both, and every step here keeps it so.
- EpochContext.EpochContext.CreateFromState: registries beyond 2^30 validators are outside `WellFormed`, because the shuffling they
  get is not the specification's (`MirrorDomain`).
