# Verification of the node's core data structures

A Dafny model of the parts of this node whose correctness rests on invariants that span many
operations, with proofs that hold for all inputs, all runs and all interleavings. `dafny verify
dfyconfig.toml` checks everything.

Where the source updates objects or arrays in place, so does the model: classes with the source's
fields, loops with invariants, each method proved against a specification on values. The `...Spec`
modules hold those specifications and the lemmas about them.

- **Coins cache** (`CoinsSpec`, `CoinsView`). A stack of caches of any height over a database shows the
  same unspent outputs as one flat map, through every sequence of reads, additions, spends, uncachings
  and flushes; the database survives crashes while it is written. The FRESH and DIRTY flags are given a
  meaning, and the obligation documented for adding a coin turns out to be exactly what the flags need.
- **Partial merkle trees** (`MerkleSpec`, `PartialMerkleTree`). Extraction is sound for arbitrary bits and
  hashes and inverts construction.
- **Signature cache** (`CuckooSpec`, `CuckooCache`). Exact membership, exactly which element an insertion
  loses, and the epoch bound in every reachable state.
- **Check queue** (`CheckQueue`, `CheckCalls`). The thread protocol as a state machine: safety for every
  interleaving, absence of deadlock, which checks are called, and a bound on every call to Wait, whatever the
  scheduler does.
- **Block assembly** (`Mempool`, `MinerSpec`, `Records`, `Selection`, `SelectionRuns`, `SelectionFees`,
  `AncestorFees`, `SelectionScripts`, `Miner`, `MinerRuns`). Ancestor packages: order, limits, exactly which
  totals are recorded and when they are right, what the fee floor and the fee order decide, why a transaction
  is left out, and when the selection ends.
- **Address manager** (`AddrTables`, `AddrManager`, `AddrRuns`, `AddrSerial`, `AddrLoad`,
  `AddrFiles`). The source's own consistency check is an invariant of all operations, which lose no good record;
  saving and loading restores the manager, and it is known of every file whether it loads into a consistent one.
- **Block index** (`Chain`). Skip-list ancestors, forks, the active chain, locators.
- **Connections** (`WireSpec`, `Net`, `NetReceive`, `NetExchange`). Messages arrive as pushed, in order,
  however sends and receives are cut.
- **Compact blocks** (`CompactSpec`, `CompactBlocks`, `CompactMatch`). Reconstruction yields the block.
- **Rolling bloom filter** (`RollingBloom`). Exactly when a key is found; no recent one is ever missed.
- **Encodings** (`Bech32Spec`, `Cyclic`, `Galois`, `Bech32Roots`, `Bech32Distance`, `Bech32`, `Radix`,
  `Base58`). Round trips, and the errors the Bech32 checksum detects: any burst of six values, and any three
  values within 1023, because it is a BCH code.
- **256-bit numbers** (`Arith256`, `ArithShift`, `ArithDiv`, `CompactTarget`). Limb arithmetic against the
  integers; compact targets.

## Where the code differs from its comments or from expectation

- The first eviction of the signature cache goes to the second candidate slot; its comment says the
  first. The model follows the code.
- An existing entry of the modified set is reduced by the plain fee, a fresh one by the modified fee, and a
  candidate that failed gets a fresh entry that still counts the ancestors included before. `WrongFee` is a run
  with adjusted fees and `WrongSize` one without, whose entry is wrong in size and fee. `IncludeKeeps` keeps
  the exact formula for every entry of every run. Where the whole pool fits the block and pays the floor,
  `ExactIff` says for which pools no entry is ever wrong: those in which adjusted ancestors lead and no
  inadmissible package has two admissible ancestors. Elsewhere size and operations are exact for candidates
  that never failed.
- With a required age, block assembly never ends once the best modified entry is too young and comes next
  (`StuckForever`). That takes an old enough transaction with an admissible package and a too young descendant
  of that package outside it (`NeverEndsOnlyIf`). If the package fits an empty block some order of the
  candidates has that effect (`StallsInSomeOrder`); if there is room for everything and descendants are not
  older than ancestors, every order has, unless it reaches the fee floor or gives up (`NeverEndsIff`, `YoungChild`).
- When a package falls short of the fee floor the selection ends, because everything else has a lower fee rate,
  a comment says. `FloorEndsAll` is what holds of the rest; `PayingPackageLeft` is a pool with a package that
  pays more than the floor and is left out.
- The number of transactions a partial merkle tree announces is not tied to the root. Matches are true for every
  number that gives the tree its true height (`AnyCountSound`); `GenuineIff` covers all others.
- A peers file that repeats an address can load into a manager that fails its own consistency check
  (`RepeatedAddress`), and so can one with impossible statistics (`NeverSucceeded`); `Unserialize` says exactly
  which files do.
- `Clear` of the address manager leaves pending collisions behind; `StaleRun` shows the effect.
- The exception in `AddCoin` comes after the memory count was lowered; the count is then short unless the
  coin used no memory.
- The overflow check on decoded request indexes still lets a list wrap after 65535; `WrappedIndexes` is
  such a list and `DecodedIncreasing` says exactly when.
- Positions of short ids are kept in 16 bits while up to 100000 slots are accepted; `TooWide` shows that
  the guarantees of `InitData` for all transaction pools hold exactly up to 65536 slots.
- With 65536 prefilled transactions and short ids the search for an empty slot never ends; `InitData` has
  no result exactly then (`EndlessMessage`).
- `ExtractMatches` clears the list of matches but not the list of positions.

## Model

| member | source | states |
|---|---|---|
| CoinsSpec.MergedSound | src/coins.cpp:146-202 | merging one flagged child entry into a parent entry keeps the flag discipline against whatever lies below, a FRESH entry being a coin with nothing underneath; it shows the child's coin afterwards, never meets the misapplied-FRESH error, drops a spent coin exactly if nothing is known to lie below, and ignores a clean entry |
| CoinsSpec.MergeSound | src/coins.cpp:146-202 | the same for a whole child map in any order: the merged layer over the base shows exactly what the two layers showed |
| CoinsSpec.AddedSafeIff | src/coins.cpp:67-86 | the FRESH/DIRTY flags given to an added coin are sound if and only if overwriting was announced or no unspent coin was visible |
| CoinsSpec.AddedLayer | src/coins.cpp:67-86 | adding a coin sets it in the visible set, the layer stays sound exactly under the documented caller obligation, and the memory sum moves by the difference of the two coins |
| CoinsSpec.SpentLayer | src/coins.cpp:99-113 | spending removes exactly one coin from the visible set whether the entry is dropped (FRESH) or kept as a dirty spent entry, and keeps the layer sound |
| CoinsSpec.NoTrace | src/coins.cpp:99-202 | a coin new to a layer leaves no entry once it is spent there or in a layer above |
| CoinsSpec.UsageSumPut | src/coins.cpp:67-86 | the memory-usage sum over all entries changes by the new coin less the replaced one |
| CoinsView.CoinsViewDB.BatchWrite | src/txdb.cpp:83-142 | batch by batch: an uninterrupted write makes the database the overlay of the layer; a crash leaves no best block, the marks of both ends, and each coin old or new; a null hash, or a repeat towards another block, aborts without a change |
| CoinsView.WrittenAgain | src/txdb.cpp:108-132 | of a layer written in part twice only what was left out both times is missing |
| CoinsView.CoinsViewDB.WriteUntilDone | src/txdb.cpp:83-142 | however often a write crashes, repeating it leaves coins and best block as if it never had |
| CoinsView.CoinsViewCache.constructor | src/coins.cpp:35-35 | a new cache shows its base unchanged |
| CoinsView.CoinsViewCache.FetchCoin | src/coins.cpp:41-56 | pulling a coin up through every level changes no visible coin; what it caches is clean and equal to what the base shows |
| CoinsView.CoinsViewCache.GetCoin | src/coins.cpp:58-65 | found exactly when the coin is visible through the whole stack, and then that coin |
| CoinsView.CoinsViewCache.AccessCoin | src/coins.cpp:117-124 | the visible coin, or the empty (spent) coin if there is none; nothing visible changes |
| CoinsView.CoinsViewCache.HaveCoin | src/coins.cpp:126-129 | true exactly for the visible coins |
| CoinsView.CoinsViewCache.HaveCoinInCache | src/coins.cpp:131-134 | true only for visible coins; false means spent, absent, or visible only further down |
| CoinsView.CoinsViewCache.GetBestBlock | src/coins.cpp:136-140 | the best block of the first level that knows one |
| CoinsView.CoinsViewCache.AddCoin | src/coins.cpp:67-86 | visible set gains the coin, for every script of at most 10000 bytes that does not start with 0x6a; all failure cases; the invariant survives if and only if the coin was announced as possibly overwriting or was not visible, and after an exception if and only if the shadowed coin used no memory |
| CoinsView.CoinsViewCache.SpendCoin | src/coins.cpp:99-113 | the coin leaves the visible set of this cache and of no level below; the moved-out coin is the one that was visible |
| CoinsView.CoinsViewCache.Uncache | src/coins.cpp:211-218 | dropping an unmodified entry never changes what is visible |
| CoinsView.CoinsViewCache.BatchWrite | src/coins.cpp:146-202 | throws exactly on a misapplied FRESH entry; for a layer that is sound over this cache it never throws, keeps the invariant and shows the overlay |
| CoinsView.CoinsViewCache.Flush | src/coins.cpp:204-209 | the view is unchanged, the cache is empty, the base now shows it; with a null best block a database aborts and a cache passes the null on |
| CoinsView.CoinsViewCache.FlushAll | src/coins.cpp:204-209 | flushing every level of a stack of any height leaves exactly the top view in the database |
| CoinsView.AddCoins | src/coins.cpp:88-97 | all spendable outputs of a transaction become visible and nothing else changes |
| CoinsView.Step | src/coins.cpp:41-218 | every operation at any level of the stack refines the same operation on one flat map of coins |
| CoinsView.Run | src/coins.cpp:41-218 | every legal run of operations with flushes anywhere ends with the coins of the flat map, without a logic error |
| MerkleSpec.WidthClosedForm | src/merkleblock.h:66-68 | the number of nodes at a height is the number of transactions divided by a power of two, rounded up |
| MerkleSpec.WalkSound | src/merkleblock.cpp:79-115 | whatever bits and hashes a peer sends, an accepted subtree with the right hash reports only true (position, transaction id) pairs |
| MerkleSpec.EqualHashesShareFirstLeaf | src/merkleblock.cpp:100-107 | equal hashes of two balanced subtrees mean equal first transactions, which is why an equal left and right child is refused |
| MerkleSpec.WalkEncode | src/merkleblock.cpp:61-115 | reading a subtree cut anywhere, as it was written, consumes exactly its bits and hashes and returns exactly the leaves hit |
| MerkleSpec.WalkIsCut | src/merkleblock.cpp:79-115 | nothing else reads as the subtree: bits and hashes that give its hash are those of some cut of it |
| MerkleSpec.EncodeIsCut | src/merkleblock.cpp:61-77 | what is written for a selection is the cut down to the selected leaves and nowhere else |
| MerkleSpec.CutSize | src/merkleblock.cpp:137-146 | however it is cut, a subtree has at most one hash per leaf and one per bit |
| MerkleSpec.EncodeSize | src/merkleblock.cpp:61-77 | a selection is written with at most one plus (matches times height) hashes |
| MerkleSpec.ExtractSound | src/merkleblock.cpp:133-164 | for every bit and hash list: if the extracted root is the block's merkle root then every reported match is a transaction of the block at the reported position |
| MerkleSpec.ExtractComplete | src/merkleblock.cpp:117-164 | extraction inverts construction: root, selected ids and positions come back, also after padding to whole bytes |
| MerkleSpec.AcceptedIff | src/merkleblock.cpp:133-164 | for the true number of distinct transactions, bits and hashes give the block's root if and only if they are a cut of its tree with nothing left over but the padding of the last byte |
| MerkleSpec.EncodeBlockSize | src/merkleblock.cpp:117-129 | size bounds for a whole block |
| MerkleCounts.DownALevel | src/merkleblock.cpp:99-113 | for any announced number: a node with the true hash has as many children as the true node, each with its true hash, so a repeated child is not mistaken for a missing one |
| MerkleCounts.AnyCountSound | src/merkleblock.cpp:133-164 | for every announced number that gives the tree its true height, whatever is reported with the block's root is true, and positions increase |
| MerkleCounts.GenuineIff | src/merkleblock.cpp:133-164 | for all announced numbers, as long as no transaction id is the hash of a pair: what is reported with the block's root is true if and only if it is nothing or the height is the true one |
| MerkleCounts.RootAsTransaction | src/merkleblock.cpp:133-164 | at a lower height it need not be: announced as one transaction, the root of any block is reported as that one |
| PartialMerkleTree.CalcHashIsHashOf | src/merkleblock.cpp:41-59 | the recursive node hash, with the last node of an odd row hashed with itself, is the hash of the explicit tree |
| PartialMerkleTree.SelectedIff | src/merkleblock.cpp:61-77 | a node is an ancestor of a match exactly if a leaf in its interval of positions is selected |
| PartialMerkleTree.MerkleBlockTree.CalcTreeWidth | src/merkleblock.h:66-68 | computes the row width |
| PartialMerkleTree.MerkleBlockTree.constructor | src/merkleblock.cpp:117-129 | the built bits and hashes are the depth-first encoding of the whole tree |
| PartialMerkleTree.MerkleBlockTree.TraverseAndBuild | src/merkleblock.cpp:61-77 | the traversal appends exactly the encoding of its subtree |
| PartialMerkleTree.MerkleBlockTree.ParentOfMatch | src/merkleblock.cpp:61-66 | the loop over a node's positions finds whether one of its leaves is selected |
| PartialMerkleTree.MerkleBlockTree.TraverseAndExtract | src/merkleblock.cpp:79-115 | the in-place traversal with its counters and error flag is the walk whose accepted inputs and results are characterised above |
| PartialMerkleTree.MerkleBlockTree.ExtractMatches | src/merkleblock.cpp:133-164 | all the checks together, so AcceptedIff and GenuineIff hold of its result; nothing is accepted for no or more than 16666 transactions; positions are appended to the caller's list, which is not cleared |
| PartialMerkleTree.PackBits | src/merkleblock.h:88-105 | bits are packed low bit first into just enough bytes, padded with zeros |
| PartialMerkleTree.UnpackBits | src/merkleblock.h:88-105 | the inverse, eight bits a byte |
| PartialMerkleTree.SendAndExtract | src/merkleblock.h:88-105 | build, pack, unpack, extract: the receiver gets the merkle root, the selected ids and their positions |
| CuckooSpec.ProbeDecides | src/cuckoocache.h:467-477 | eight probes decide membership, because every stored element sits in one of its own slots |
| CuckooSpec.PutConsistent | src/cuckoocache.h:392-440 | writing an absent element over a slot keeps elements distinct and in their own slots and exchanges exactly one element |
| CuckooSpec.StoredExchange | src/cuckoocache.h:392-440 | exchanging one element in the multiset of slots is exchanging it in the set of stored elements |
| CuckooSpec.WalkInserts | src/cuckoocache.h:405-440 | the walk exchanges one element: each one in hand but the last found all its eight slots kept and displaced the next, never the one that displaced it if its slots are pairwise different; the lost one sat in a garbage slot of the last, or was the last after as many displacements as the depth limit |
| CuckooSpec.MovesOn | src/cuckoocache.h:416-430 | the next slot is the one last used exactly if that is listed again right after its first place; never for pairwise different slots; the second slot when none was used |
| CuckooSpec.WalkMarks | src/cuckoocache.h:405-440 | garbage and epoch marks follow the elements along the chain; the new element is kept and recent |
| CuckooSpec.NewIsStored | src/cuckoocache.h:373-390 | the stored set becomes the old one plus the new element less the lost one, and unless the depth limit was reached the new element is stored |
| CuckooCache.BitPackedFlags.BitSet | src/cuckoocache.h:92-95 | sets one flag and changes no other, in eight flags a byte |
| CuckooCache.BitPackedFlags.BitUnset | src/cuckoocache.h:103-106 | clears one flag and changes no other |
| CuckooCache.BitPackedFlags.BitIsSet | src/cuckoocache.h:113-116 | reads the flag |
| CuckooCache.Cache.constructor | src/cuckoocache.h:340-353 | an empty cache with all slots garbage, an epoch of 45 percent of the slots, a depth limit of at least one, and the epoch bound in force |
| CuckooCache.Cache.Contains | src/cuckoocache.h:467-477 | exact membership; erasing marks one slot holding the element and removes nothing; the epoch bound holds |
| CuckooCache.Cache.EpochCheck | src/cuckoocache.h:289-321 | the countdown always leaves room for one more insertion below the epoch bound, and lasts an epoch, or what is missing of one; ageing marks exactly the old epoch |
| CuckooCache.Cache.CountUnused | src/cuckoocache.h:297-300 | counts the unmarked elements of the latest epoch |
| CuckooCache.Cache.InsertAbsent | src/cuckoocache.h:405-440 | the loop over table, flags and epoch marks is the walk |
| CuckooCache.Cache.Insert | src/cuckoocache.h:392-440 | ageing, then the walk, with all that follows from it; every element keeps its marks and the inserted one becomes kept and recent, where it was if it was present; the epoch bound holds after every insertion |
| CheckQueue.BatchSize | src/checkqueue.h:107-107 | a batch is the largest within the limit that leaves as much for every other thread, and at least one check |
| CheckQueue.TakeCounted | src/checkqueue.h:107-116 | taking a batch keeps every count and the split of checks between queue, threads and done |
| CheckQueue.AddInv | src/checkqueue.h:146-158 | adding checks keeps the invariant |
| CheckQueue.AddWakes | src/checkqueue.h:154-157 | new work notifies a sleeping worker if there is one, and all of them if there is more than one check |
| CheckQueue.DecideInv | src/checkqueue.h:88-116 | sleeping, returning and taking a batch keep the invariant |
| CheckQueue.CleanUpInv | src/checkqueue.h:77-86 | accounting for a finished batch keeps the invariant, including the wake-up owed to the master |
| CheckQueue.WakeInv | src/checkqueue.h:99-101 | waking, spuriously or not, keeps the invariant |
| CheckQueue.ExecInv | src/checkqueue.h:118-122 | running a check outside the lock keeps the invariant; a failure found is never forgotten |
| CheckQueue.StepInv | src/checkqueue.h:66-158 | every enabled step of any thread keeps the invariant |
| CheckQueue.EveryInterleaving | src/checkqueue.h:66-198 | for every number of threads and every interleaving: outstanding work is what is queued plus what is held, no check is lost or duplicated, each round returns true exactly if all its checks succeed, and the master cannot miss its wake-up |
| CheckQueue.RoundEndsClean | src/checkqueue.h:89-97 | when the master returns, queue, batches and outstanding work are empty and the status is reset |
| CheckQueue.NeverStuck | src/checkqueue.h:66-124 | while the master is inside, some thread can make a productive step: no deadlock and no lost wake-up |
| CheckQueue.ProductiveDecreases | src/checkqueue.h:66-124 | every productive step decreases the work remaining |
| CheckQueue.ProductiveRunsEnd | src/checkqueue.h:66-143 | so runs of productive steps are bounded by the work at their start |
| CheckQueue.StepBound | src/checkqueue.h:66-143 | while the master is inside, spurious wake-ups and starting threads never add to the bound and productive steps take from it |
| CheckQueue.WaitIsBounded | src/checkqueue.h:66-143 | a call to Wait has no more productive steps than the work and the threads not yet started allow, whatever happens in between |
| CheckQueue.WaitReturnsIfScheduled | src/checkqueue.h:66-143 | an infinite run with the master inside does nothing productive from some point on, although at every point some thread could: Wait returns unless threads that can go on are never scheduled |
| CheckCalls.StepUnhandled | src/checkqueue.h:66-158 | every step of any thread takes what it handles from the checks queued or held, and loses none |
| CheckCalls.CalledOnce | src/checkqueue.h:118-122 | under every interleaving no check is called more often than it was added |
| CheckCalls.RoundCalls | src/checkqueue.h:66-143 | if Wait returns true, each check of the round was called exactly as often as it was added |
| CheckCalls.NoMoreCalls | src/checkqueue.h:115-121 | once every thread with a batch knows of a failure, no check of the round is called any more, whatever is added |
| Mempool.AncestorsFewer | src/miner.cpp:267-276 | a transaction has more ancestors than any of its own ancestors |
| MinerSpec.SortedParents | src/miner.cpp:267-276 | sorting a package by ancestor count puts every ancestor first |
| Records.RecordBounds | src/miner.cpp:354-361 | no recorded entry ever understates size or operations of what is left of its package |
| Records.RecordExact | src/miner.h:110-122 | for a candidate that never failed size and operations are exact, and so is the fee if every adjusted ancestor leads: it is an ancestor of the other admissible ones and precedes them in the order of hashes |
| Records.RevivedOff | src/miner.cpp:233-241 | the entry made anew for a candidate that failed before is always too large |
| Records.AccountedFresh | src/miner.cpp:229-248 | a package accounted for in hash order leaves a new entry short of the modified fee of its first member and the plain fees of the others |
| Records.IncludeKeeps | src/miner.cpp:232-247 | including one transaction keeps, for every entry, the formula that says which ancestors were taken off at which fee and which were forgotten |
| Records.AccountedKeeps | src/miner.cpp:225-250 | so does a whole package in hash order, for arbitrary pools, fees and failures |
| Records.PackageFits | src/miner.cpp:181-189 | a package whose recorded totals pass the test fits the block in weight and signature operations |
| Selection.TotalsOk | src/miner.cpp:354-361 | the totals a candidate is judged by never understate the missing part of its package, are exact unless it failed before, and fees too where adjusted ancestors lead |
| Selection.TurnInv | src/miner.cpp:310-421 | every turn, whatever its verdict, keeps the block closed, final, within both limits, and the side table right |
| Selection.TurnFurther | src/miner.cpp:310-421 | every turn that goes on uses up a candidate or enlarges the block |
| Selection.StuckForever | src/miner.cpp:345-348 | once the best modified entry is too young and comes next, no number of turns changes anything |
| Selection.EndsOrStuck | src/miner.cpp:310-421 | every selection ends or reaches such a state |
| Selection.EndsIff | src/miner.cpp:310-421 | and never both |
| SelectionRuns.NothingForgotten | src/miner.cpp:310-421 | when no candidate is left every transaction of the pool is in the block, too young, or was refused against a block of that run |
| SelectionRuns.YoungLeftBehind | src/miner.cpp:345-348 | in every state a too young transaction with an ancestor in the block was left behind by an old enough one whose whole package came with it |
| SelectionRuns.NeverEndsOnlyIf | src/miner.cpp:345-348 | for every pool, order and option a selection that never ends has an old enough transaction with an admissible package and a too young descendant of that package outside it |
| SelectionRuns.NeverEndsIff | src/miner.cpp:345-348 | with room for everything and descendants no older than ancestors, that is exactly when it never ends, whatever the order, unless a package falls short of the fee floor or the selection gives up |
| SelectionRuns.NeverGivesUp | src/miner.cpp:368-385 | which it does not if no candidate can fail between the inclusions of two ancestors, or if there is room for the pool twice |
| SelectionRuns.ExactWhenLed | src/miner.cpp:225-250 | with room for everything, if no candidate can fail between two ancestors and adjusted ancestors lead, every total ever recorded is exact, for every order and age filter |
| SelectionRuns.FloorNotReached | src/miner.cpp:363-366 | then packages that pay the floor never end the selection |
| SelectionFees.GreedyChoice | src/miner.cpp:314-343 | for every score the orders follow, no candidate still to come scores better than the one looked at |
| SelectionFees.FloorIff | src/miner.cpp:363-366 | a candidate old enough ends the selection exactly if its totals fall short of the floor |
| SelectionFees.PaysToEnter | src/miner.cpp:363-420 | a turn enlarges the block only by the package of a candidate whose totals pay the floor |
| SelectionFees.FloorPaid | src/miner.cpp:363-420 | where totals are exact, the fees of the block cover in every state what the floor asks of its packages one by one |
| SelectionFees.BlockPays | src/miner.cpp:363-420 | for a floor that asks no more of a whole than of its parts, the block as a whole pays it |
| SelectionFees.EndsAtFloor | src/miner.cpp:363-366 | if the first candidate old enough falls short, the selection ends there with an empty block, whatever follows |
| SelectionFees.NothingPays | src/miner.cpp:363-366 | if no package of the pool pays the floor the block stays empty, in every order and with every age filter |
| SelectionFees.GivesUpOnlyIf | src/miner.cpp:305-308 | the selection gives up only within 4000 of the weight limit and with more than a thousand transactions in the pool, since failures between two inclusions are of different ones |
| AncestorFees.AncestorFeeOrder | src/txmempool.h:277-315 | comparing the lower of own and package rate by cross-multiplication, ties by hash, is an order the selection can follow |
| AncestorFees.FloorEndsAll | src/miner.cpp:363-366 | when the floor ends the selection, every candidate left pays less than the floor, alone or with what is left of its package |
| AncestorFees.DiamondRanked | src/txmempool.h:277-315 | four transactions in the order of their rates |
| AncestorFees.PayingPackageLeft | src/miner.cpp:363-366 | for which the selection ends at once although the package of the last one pays more than the floor |
| SelectionScripts.FailsBetween | src/miner.cpp:395-402 | an order of candidates that includes an ancestor, lets the descendant fail and includes another ancestor gives the failed one a second entry |
| SelectionScripts.ExactIff | src/miner.cpp:225-250 | with room for everything and the floor paid, all totals recorded are exact in every selection if and only if adjusted ancestors lead and no inadmissible package has two admissible ancestors |
| SelectionScripts.StallsInSomeOrder | src/miner.cpp:345-348 | if a package fits an empty block and leaves a young descendant, some order of candidates makes a selection that never ends, for every pool, fee floor and weight limit |
| Miner.BlockAssembler.ResetBlock | src/miner.cpp:81-92 | an empty block with the reserve for the coinbase |
| Miner.BlockAssembler.TestPackageTransactions | src/miner.cpp:195-204 | true exactly if all transactions are final and carry no witness |
| Miner.BlockAssembler.AddToBlock | src/miner.cpp:206-223 | appends one transaction; weight, fees, operations and count stay the sums over the block |
| Miner.BlockAssembler.SortForBlock | src/miner.cpp:267-276 | a permutation of the package, ordered by ancestor count |
| Miner.BlockAssembler.UpdatePackagesForAdded | src/miner.cpp:225-250 | the loops over the package and over descendants give the side table accounted for in hash order |
| Miner.BlockAssembler.AddPackage | src/miner.cpp:404-420 | the block grows by exactly the missing part of the package, in an order that respects dependencies, with the side table and the counters of the specified step |
| Miner.BlockAssembler.Evaluate | src/miner.cpp:363-420 | the chain of tests gives the specified outcome: ends exactly if the totals fall short of the floor, includes the whole package exactly if they pay, fit both limits and all of it is final, gives up exactly after a thousand failures with a nearly full block |
| Miner.BlockAssembler.Iterate | src/miner.cpp:310-421 | one turn of the loop is the specified one in every branch: stale, too young, judged |
| Miner.BlockAssembler.AddPackageTxs | src/miner.cpp:288-422 | the block has no duplicates, ancestors before descendants and within the block, and respects both limits; it is a state of the specified run, and the reason for the end is exact: no candidate left, fee floor, nearly full, or never; empty if nothing pays the floor or the first candidate does not; nearly full only with more than a thousand transactions |
| MinerRuns.YoungChild | src/miner.cpp:345-348 | for an old enough parent and its too young child the selection never ends, in every order |
| MinerRuns.WrongFee | src/miner.h:110-122 | a run on three transactions that records a wrong fee for the child of two adjusted parents |
| MinerRuns.WrongSize | src/miner.cpp:368-385 | a run without adjusted fees, in which a child too large for the block fails between its two parents and is then recorded with a wrong size and fee |
| AddrTables.UnslotOk | src/addrman.cpp:127-140 | emptying a slot of the new table keeps tables and reference counts consistent |
| AddrTables.SlotOk | src/addrman.cpp:306-322 | filling one does |
| AddrTables.MakeTriedOk | src/addrman.cpp:142-188 | moving an id to the tried table, evicting its occupant back to the new table, keeps every table consistent |
| AddrTables.MakeTriedFates | src/addrman.cpp:142-188 | the promoted id holds no new slot any more, a displaced rival one, at the place its bucket gives it; only the occupant of that place can be lost, and everyone else stays exactly as before |
| AddrTables.CollisionsKept | src/addrman.cpp:190-252 | a pending collision stays a real collision: its slot in the tried table stays taken |
| AddrManager.AddrMan.Clear | src/addrman.h:473-495 | an empty consistent manager, which passes the whole check if and only if the key drawn is not null; the set of pending collisions is not cleared, so it is settled if and only if that set was empty |
| AddrManager.AddrMan.Sizes | src/addrman.cpp:397-471 | the sizes of all indexes agree in every consistent state |
| AddrManager.AddrMan.Create | src/addrman.cpp:81-91 | a new id in all three indexes |
| AddrManager.AddrMan.SwapRandom | src/addrman.cpp:93-111 | swaps two places of the random order and keeps the stored positions right |
| AddrManager.AddrMan.Delete | src/addrman.cpp:113-125 | removes an unreferenced id from every index and nothing else |
| AddrManager.AddrMan.ClearNew | src/addrman.cpp:127-140 | empties a slot and deletes an id that loses its last reference |
| AddrManager.AddrMan.MakeTried | src/addrman.cpp:142-188 | exactly the table transition, statistics of every address untouched |
| AddrManager.AddrMan.Good | src/addrman.cpp:190-252 | every outcome: unknown, other port, already tried, collision recorded, promoted with the rival sent back to the bucket of its source; success and try times are the given one and failures zero; tables, collisions and statistics exactly, and no other address's statistics change |
| AddrManager.AddrMan.Add | src/addrman.cpp:254-325 | every outcome: not routable, known, new; reports newness exactly; no record that is not terrible is ever lost; an unknown address stays exactly if its slot is free, or held by a terrible record, or by one with another slot; a known one gains a slot exactly if it is news, not tried, in fewer than eight, lucky, and the slot is free or terrible; all other addresses stay as they were |
| AddrManager.NotTerrible | src/addrman.cpp:33-51 | which records are worth keeping, in seconds: tried in the last minute, or seen within thirty days and not from the future, without three failures and no success or ten failures in a week |
| AddrManager.NewsTaken | src/addrman.cpp:268-280 | when the time of a known address moves, and that it never moves back |
| AddrManager.SlotGoesTo | src/addrman.cpp:303-322 | who holds the slot asked for afterwards |
| AddrManager.SlotKeepsGood | src/addrman.cpp:305-322 | nobody is lost but a terrible occupant of the slot asked for, or the asker; everyone but these two stays exactly as before |
| AddrManager.EnteredFates | src/addrman.cpp:142-188 | what a promotion does to the promoted, its rival and everyone else |
| AddrManager.DecideMeans | src/addrman.cpp:545-582 | when a pending collision is dropped, replaces the occupant or waits, by the four hours and the minute |
| AddrManager.AddrMan.Attempt | src/addrman.cpp:327-347 | counts a failure at most once between successes and touches only this address; the consistency check survives unless a known address gets a negative time |
| AddrManager.AddrMan.GetAddr | src/addrman.cpp:474-493 | the shuffle only permutes; the result lists the not terrible among a prefix of the random order, within the limit |
| AddrManager.GoodOfIff | src/addrman.cpp:480-491 | listed are exactly the addresses of those drawn that are not terrible |
| AddrManager.AddrMan.Connected | src/addrman.cpp:495-513 | refreshes the time of this address only, at most every twenty minutes |
| AddrManager.AddrMan.SetServices | src/addrman.cpp:515-531 | changes the services of this address only |
| AddrManager.AddrMan.ResolveCollisions | src/addrman.cpp:537-587 | visits every pending collision once, in order, each in the state the one before left; exactly those that must wait stay, those replaced are promoted, and a tried record with a success in the last four hours, or without a try between a minute and four hours ago, stays tried |
| AddrManager.SweepSpares | src/addrman.cpp:560-575 | over a whole sweep such a record is neither lost nor demoted |
| AddrManager.AddrMan.SelectTriedCollision | src/addrman.cpp:589-614 | the occupant some pending address contends with, or nothing; the consistency check survives unless a stale collision makes the lookup create a record |
| AddrRuns.Step | src/addrman.h:504-620 | every public operation keeps the consistency check, the key included, and collisions stay real |
| AddrRuns.Run | src/addrman.cpp:397-471 | every run of operations from an empty manager passes the source's own consistency check if and only if its key is not null, and bounds the pending collisions |
| AddrRuns.StaleCollision | src/addrman.h:473-495 | clearing a manager with id 0 pending and adding a first address leaves a pending collision that collides with nothing |
| AddrRuns.Contend | src/addrman.cpp:225-246 | two addresses with one tried slot: the second is promoted, the first becomes a pending collision |
| AddrRuns.StaleRun | src/addrman.h:473-495 | a run from a fresh manager that ends with such a collision |
| AddrSerial.Serialize | src/addrman.h:318-365 | the records written are all new and all tried addresses once each, and every bucket lists its ids by record number |
| AddrSerial.CountsMatch | src/addrman.h:333-350 | the counters are right, so the assertions in the writer cannot fail |
| AddrSerial.SameRefs | src/addrman.h:351-364 | renumbering ids preserves reference counts |
| AddrLoad.ReadHeader | src/addrman.h:370-394 | accepts exactly a 32-byte key and counts within the limits |
| AddrLoad.Prune | src/addrman.h:455-465 | deletes exactly the new entries without a bucket, and with them every address they have; the tables are consistent afterwards |
| AddrLoad.Unserialize | src/addrman.h:368-471 | any complete file with a 32-byte key and at most 65536 and 16384 records, of either format and any bucket count, loads into consistent tables holding exactly the records that find a place, as the file has them; the whole manager is consistent if and only if no entry that stays shares its address or has implausible statistics; a file written by Serialize restores everything |
| AddrFiles.UsableIff | src/addrman.h:381-412 | recorded buckets are used exactly from files of version one with 1024 of them |
| AddrFiles.TriedsKept | src/addrman.h:414-436 | read are all new records and, of the tried ones, exactly the first of the file in each slot |
| AddrFiles.FallbackStays | src/addrman.h:404-411 | where buckets cannot be used, a new record stays exactly if it is the first of the file in the slot its source gives it |
| AddrLoad.PlausibleLoads | src/addrman.h:397-466 | a file without repeated addresses and with plausible statistics always gives a consistent manager |
| AddrLoad.RepeatedAddress | src/addrman.h:397-466 | a file with one address in both tables never does, whatever the hash functions |
| AddrLoad.NeverSucceeded | src/addrman.h:415-434 | nor does one with a tried address that never succeeded |
| AddrLoad.Read | src/addrdb.cpp:138-146 | a refused file leaves an empty consistent manager; after any other the check passes exactly for such files with a key |
| AddrLoad.DumpReadable | src/addrman.h:318-394 | what Serialize writes is accepted by the reader |
| AddrLoad.SaveAndRead | src/addrman.h:318-471 | saving and loading gives the same addresses, statistics, tables and reference counts up to renumbering, all but the times of the last tries |
| Chain.LowestOneInverted | src/chain.cpp:71-71 | takes off exactly the value of the lowest one bit |
| Chain.GetSkipHeight | src/chain.cpp:74-82 | a skip leads strictly down |
| Chain.SkipHeightIs | src/chain.cpp:74-82 | an even height loses its lowest one bit, an odd one its second and third lowest |
| Chain.BlockIndex.GetAncestor | src/chain.cpp:84-109 | skip links or not, the result is the block reached by following parents one by one; null exactly out of range |
| Chain.BlockIndex.BuildSkip | src/chain.cpp:116-120 | keeps every skip link of the tree at the ancestor of its skip height |
| Chain.AncestorOfAncestor | src/chain.cpp:84-109 | taking ancestors twice is taking the lower one |
| Chain.LastCommonAncestor | src/chain.cpp:124-139 | the highest block that is an ancestor of both, or null if there is none |
| Chain.ActiveChain.SetTip | src/chain.cpp:12-22 | the vector becomes the path from the genesis block to the tip, whatever it was |
| Chain.ActiveChain.ContainsIff | src/chain.h:458-460 | a block is on the active chain exactly if it is the tip's ancestor at its height |
| Chain.ActiveChain.FindFork | src/chain.cpp:52-61 | the highest common ancestor of the tip and the block |
| Chain.ActiveChain.GetLocator | src/chain.cpp:24-50 | a locator for the block, or for the tip if none is given |
| Chain.LocatorShape | src/chain.cpp:24-50 | a locator starts at the block, strictly descends to genesis, and has at most 42 entries at any 31-bit height |
| WireSpec.SizeRoundTrip | src/protocol.h:29-62 | a 32-bit size survives little-endian encoding |
| WireSpec.CommandRoundTrip | src/protocol.cpp:80-100 | a command of at most twelve non-zero bytes survives padding |
| WireSpec.HeaderRoundTrip | src/protocol.h:29-62 | decoding a header inverts encoding it: 4 bytes start, 12 command, 4 size, low byte first, 4 checksum |
| WireSpec.StreamOfMessages | src/net.cpp:742-792 | the byte stream of any list of messages splits into exactly their frames, with nothing left over |
| WireSpec.PrefixOfMessages | src/net.cpp:742-792 | any prefix of that stream splits into the frames of a prefix of the list |
| Net.SendQueue.SocketSendData | src/net.cpp:886-936 | buffers are taken whole until the socket answers with less than offered; the bytes sent are the sum of the answers, each cut to what was offered; some are sent if the first answer is positive, all if the answers cover the queue; bytes sent followed by bytes queued stay the encoding of all messages pushed |
| Net.SendQueue.PushMessage | src/net.cpp:2820-2855 | appends the buffers of one message to that stream; only an empty queue is offered at once, as far as the socket takes it |
| NetReceive.ReadHeader | src/net.cpp:821-850 | absorbs up to 24 header bytes, refuses exactly oversized announcements |
| NetReceive.ReadData | src/net.cpp:852-867 | absorbs up to the announced size and leaves the rest; at most 256 KiB more than received are allocated |
| NetReceive.Receiver.ReceiveMsgBytes | src/net.cpp:742-792 | however the stream is cut, the messages held are its frames so far; fails exactly on an oversized announcement; reports completion exactly |
| NetReceive.Receiver.MoveComplete | src/net.cpp:1372-1384 | hands on exactly the complete messages and keeps a partial one; counts their bytes |
| NetReceive.Receiver.PopMessage | src/net_processing.cpp:2944-2951 | messages are handed on in the order of the stream |
| NetExchange.ArrivedInOrder | src/net.cpp:742-936 | what arrived is a prefix of what was pushed, same messages, same order |
| NetExchange.AllArrived | src/net.cpp:742-936 | once queues and wire are drained everything pushed has arrived |
| NetExchange.NeverOversized | src/net.cpp:765-771 | a receiver never disconnects from a sender of sendable messages |
| NetExchange.Run | src/net.cpp:742-936 | for every interleaving of pushes, partial sends, partial receives and hand-overs |
| NetExchange.Flush | src/net.cpp:742-936 | a send whose answers cover the queue and a delivery of what is under way make everything pushed arrive |
| CompactSpec.PlacedExactly | src/blockencodings.cpp:69-88 | prefilled transactions land in their own slots and nowhere else |
| CompactSpec.IndexesRoundTrip | src/blockencodings.h:39-69 | increasing request indexes survive differential encoding |
| CompactSpec.DecodedIncreasing | src/blockencodings.h:55-61 | for all differences: they are accepted and give increasing indexes if and only if their sum plus their number less one fits 16 bits, and then they are the encoding of those indexes |
| CompactSpec.WrappedIndexes | src/blockencodings.h:55-61 | an accepted list that is not increasing: 65535, then 0 |
| CompactBlocks.MakeCompact | src/blockencodings.cpp:19-29 | the message describes the block: the coinbase prefilled, one short id per other transaction |
| CompactBlocks.WriteIndexes | src/blockencodings.h:62-67 | writes the differential encoding |
| CompactBlocks.ReadIndexes | src/blockencodings.h:44-61 | reads in batches; refuses exactly what does not fit 16 bits |
| CompactBlocks.PlacePrefilled | src/blockencodings.cpp:69-88 | accepts exactly the lists whose slots can all be accounted for |
| CompactBlocks.EndlessSearch | src/blockencodings.cpp:96-99 | with 65536 prefilled transactions every slot a 16-bit offset reaches is taken |
| CompactBlocks.SearchEnds | src/blockencodings.cpp:96-99 | with fewer, or without short ids, the search ends |
| CompactBlocks.EndlessMessage | src/blockencodings.cpp:58-99 | an accepted message for which it does not |
| CompactBlocks.MapShortIds | src/blockencodings.cpp:95-117 | the i-th short id gets the i-th empty slot, in 16 bits; fails exactly on a crowded bucket or a repeated id |
| CompactMatch.MatchSound | src/blockencodings.cpp:127-180 | a step of the search leaves prefilled slots alone and puts into others only transactions with the slot's short id |
| CompactMatch.MatchThorough | src/blockencodings.cpp:127-180 | and a slot that was hit stays empty only after a hit by a different transaction, or by a second one of the pool |
| CompactMatch.MatchUnrivalled | src/blockencodings.cpp:127-180 | and holds a transaction only as long as all that hit it are the same |
| CompactMatch.NothingLeft | src/blockencodings.cpp:143-147 | leaving the search once every short id is matched loses nothing |
| CompactMatch.MatchAll | src/blockencodings.cpp:127-180 | the loop with its early exit does what the loop without it does |
| CompactMatch.MatchesAgree | src/blockencodings.cpp:119-180 | without false matches every available transaction is the block's at that slot |
| CompactMatch.EmptyForReason | src/blockencodings.cpp:119-180 | a slot is left empty only if no transaction at hand has its short id, or two have that rule each other out |
| CompactMatch.NoChoiceMade | src/blockencodings.cpp:127-180 | a slot is filled only if all transactions at hand with its short id are the same |
| CompactMatch.TooWide | src/blockencodings.cpp:95-99 | a message with more than 65536 slots always has a short id for which a single matching transaction does not reach its slot |
| CompactMatch.PartialBlock.InitData | src/blockencodings.cpp:58-182 | exact conditions for each status, and for never returning; none or more than 100000 slots are invalid; up to 65536 slots all guarantees above: every available transaction is the block's, no needless gaps, and, while some short id is nobody's, no choice between transactions with the same one; slots beyond stay empty |
| CompactMatch.PartialBlock.MissingIndexes | src/net_processing.cpp:2449-2453 | asks for exactly the empty slots, in increasing order |
| CompactMatch.PartialBlock.FillBlock | src/blockencodings.cpp:190-232 | available transactions stay in place, missing ones fill the gaps in order; each status exactly |
| CompactMatch.CompletedIsBlock | src/blockencodings.cpp:190-206 | an agreeing partial block completed with the block's own transactions is the block |
| CompactMatch.SendBlockTransactions | src/net_processing.cpp:1318-1332 | answers with the transactions asked for, or not at all if an index is out of bounds |
| CompactMatch.Relay | src/blockencodings.cpp:19-232 | reconstruction starts exactly if no short ids clash and no bucket is crowded, and then, unless a foreign transaction has a matching short id, yields the sender's block |
| RollingBloom.FastMod | src/bloom.cpp:253-255 | always an index into the table |
| RollingBloom.NextGenerationOk | src/bloom.cpp:259-274 | a new generation wipes exactly the cells written three generations ago |
| RollingBloom.SetCellOk | src/bloom.cpp:277-285 | writing a cell changes one bit of two words and no other cell |
| RollingBloom.RecentEpoch | src/bloom.cpp:257-286 | an insertion among the last two full generations and the current one is at most two generations old |
| RollingBloom.RecentOnly | src/bloom.cpp:257-286 | and no other is |
| RollingBloom.RollingBloomFilter.constructor | src/bloom.cpp:217-242 | two generations hold the promised number of elements, rounded up to even |
| RollingBloom.RollingBloomFilter.Reset | src/bloom.cpp:314-322 | forgets everything |
| RollingBloom.RollingBloomFilter.Insert | src/bloom.cpp:257-286 | keeps the tie between the bit table and the history of insertions: a cell is marked exactly if it is one of a recent key |
| RollingBloom.RollingBloomFilter.Contains | src/bloom.cpp:294-306 | true exactly if each cell of the key is one of a key of the last two full generations or the current one; so never false for one of the last nElements, and false for a key with a cell of its own |
| RollingBloom.RollingBloomFilter.MarkedIff | src/bloom.cpp:257-306 | the cells written in the last three generations are those of the recent keys |
| Bech32Spec.StepLinear | src/bech32.cpp:37-94 | a checksum step is linear over exclusive or |
| Bech32Spec.StepInjective | src/bech32.cpp:37-94 | feeding a zero never turns a non-zero remainder into zero |
| Bech32Spec.ChecksumVerifies | src/bech32.cpp:118-140 | appending the computed checksum always verifies |
| Bech32Spec.BurstDetected | src/bech32.cpp:37-94 | two verifying lists that agree outside six consecutive values are equal |
| Cyclic.OnlyZeroFixed | src/bech32.cpp:44-48 | in a field with a primitive element of order 1023 no smaller power of it fixes anything but zero |
| Cyclic.ThreeCancel | src/bech32.cpp:44-48 | three terms at different places whose sums vanish at three consecutive powers are all zero |
| Galois.IsPrimitive | src/bech32.cpp:44-48 | the field with 1024 elements has such an element |
| Bech32Roots.StepAt | src/bech32.cpp:64-93 | at a root of the generator, a checksum step multiplies the value of the remainder and adds the new coefficient |
| Bech32Roots.FoldAt | src/bech32.cpp:59-63 | so the remainder has the value of the whole polynomial at every root |
| Bech32Roots.GeneratorUnpacked | src/bech32.cpp:86-91 | the five constants are the coefficient lists given beside them |
| Bech32Roots.RootIf | src/bech32.cpp:86-91 | each is the one before times the field element 2, so a root of the first is one of all |
| Bech32Distance.IsBCH | src/bech32.cpp:44-49 | three consecutive powers of the primitive element are roots of the generator |
| Bech32Distance.ThreeDetected | src/bech32.cpp:44-48 | two verifying lists that agree but for three values within a window of 1023 are equal |
| Bech32.CharsetRoundTrip | src/bech32.cpp:13-25 | the two character tables are inverse |
| Bech32.CharsetIs | src/bech32.cpp:13-13 | the character set, in order |
| Bech32.PolyMod | src/bech32.cpp:37-94 | the five masked constants compute the remainder step |
| Bech32.VerifyChecksum | src/bech32.cpp:118-125 | true exactly if the remainder is one |
| Bech32.CreateChecksum | src/bech32.cpp:128-140 | six values that make the list verify |
| Bech32.Encode | src/bech32.cpp:147-156 | part, separator, values and checksum in the character set |
| Bech32.Decode | src/bech32.cpp:159-190 | accepts exactly the valid strings and returns their parts |
| Bech32.RoundTrip | src/bech32.cpp:147-190 | decoding an encoding gives it back if and only if the part is non-empty, printable and without capitals and the whole is at most 90 characters |
| Bech32.BurstRejected | src/bech32.cpp:159-190 | two valid strings with the same human-readable part never differ only within six consecutive data values |
| Bech32.SubstitutionRejected | src/bech32.cpp:159-190 | any single substitution in the data part by a character of another value makes a valid string invalid |
| Bech32.ThreeRejected | src/bech32.cpp:159-190 | two valid strings whose values, those of the human-readable part included, agree but for three at most have the same values |
| Bech32.SubstitutionsRejected | src/bech32.cpp:159-190 | replacing up to three data characters anywhere by characters of other values makes a valid string invalid |
| Radix.CanonicalUnique | src/base58.cpp:34-121 | a number has one digit sequence without leading zeros |
| Base58.MulAdd | src/base58.cpp:96-105 | multiply-and-add in place: the buffer holds the new number and the carry is spent |
| Base58.AlphabetIs | src/base58.cpp:14-14 | the alphabet, in order: figures, capitals, small letters, without 0, I, O and l |
| Base58.EncodeSizeFits | src/base58.cpp:93-93 | the size estimate for base 58 always suffices |
| Base58.DecodeSizeFits | src/base58.cpp:47-47 | the size estimate for base 256 always suffices |
| Base58.Encode | src/base58.cpp:83-121 | the result encodes the bytes: same number, same count of leading zeros |
| Base58.Decode | src/base58.cpp:34-81 | accepts exactly strings over the alphabet between spaces, and then the bytes they encode |
| Base58.EncodingUnique | src/base58.cpp:34-121 | encoding is one-to-one in both directions |
| Base58.EncodeDecode | src/base58.cpp:34-121 | decoding inverts encoding on all byte sequences |
| Base58.DecodeEncode | src/base58.cpp:34-121 | encoding inverts decoding on all strings over the alphabet |
| Arith256.AddAssign | src/arith_uint256.h:133-143 | addition modulo 2^256 |
| Arith256.Increment | src/arith_uint256.h:171-178 | adds one modulo 2^256 |
| Arith256.Negate | src/arith_uint256.h:75-83 | complement and increment give the negative modulo 2^256 |
| Arith256.SubAssign | src/arith_uint256.h:145-149 | subtraction modulo 2^256 |
| Arith256.MulAssign32 | src/arith_uint256.cpp:58-67 | product with a 32-bit number modulo 2^256 |
| Arith256.MulAssign | src/arith_uint256.cpp:70-83 | product modulo 2^256 |
| ArithShift.CompareTo | src/arith_uint256.cpp:112-121 | the order of the numbers |
| ArithShift.Bits | src/arith_uint256.cpp:174-186 | the position of the highest bit, and no other number |
| ArithShift.ShiftLeft | src/arith_uint256.cpp:24-38 | multiplication by a power of two modulo 2^256, for every shift |
| ArithShift.ShiftRight | src/arith_uint256.cpp:41-55 | division by a power of two, for every shift |
| ArithDiv.DivAssign | src/arith_uint256.cpp:86-109 | long division gives the quotient; fails exactly on zero |
| ArithDiv.Divide | src/arith_uint256.cpp:97-106 | each turn settles one bit of the quotient |
| CompactTarget.GetCompact | src/arith_uint256.cpp:226-247 | the unique size and mantissa of the number, with the sign bit kept clear or as asked |
| CompactTarget.SetCompact | src/arith_uint256.cpp:206-224 | the number modulo 2^256; overflow exactly if it does not fit; negative exactly for a sign with a non-zero mantissa |
| CompactTarget.OverflowExact | src/arith_uint256.cpp:219-222 | the three-way overflow test is exactly "does not fit 256 bits" |
| CompactTarget.CompactUnique | src/arith_uint256.cpp:226-247 | a number has one compact form |
| CompactTarget.CompactRoundTrip | src/arith_uint256.cpp:206-247 | the compact form of a target survives decoding and encoding, no flag is set, and the target loses at most one part in 32768, never growing |

## Left out

- Cryptographic hashes are parameters: the merkle pair hash is injective, short ids, bucket hashes, cuckoo
  hashes and bloom hashes are arbitrary functions with the right range.
- Clocks, random draws, socket results, thread schedules and the order of equally good candidates are
  parameters or arbitrary choices.
- CoinsView.CoinsViewCache.AddCoin: a spent coin is not accepted, as the source asserts.
- Coin database: key encoding, and replaying blocks after a crash instead of repeating the write.
- Other queries of the coins cache: input values, access by transaction id, cursor, sanity check; the
  capacity of a script is taken to be its size.
- CuckooCache.Cache.constructor: the logarithm is that of the whole number or one more, as rounding may have it.
- CuckooCache.Cache.Insert: the default element, which marks empty slots, is not inserted.
- Relaxed memory order and concurrent use of the signature cache's flags.
- Check queue: interruption of threads.
- Miner: which candidate is best is any function of the candidates unless said otherwise; fee rates are compared
  without rounding; the coinbase, the block header and the template's statistics are not part of this model.
- Mempool maintenance; a well-formed pool with its ancestor sets is given.
- Address manager: random selection of an address and its probabilities; time penalties as plain numbers.
- AddrManager.AddrMan.Good: takes positive times only, because all callers pass the adjusted clock.
- AddrLoad.Unserialize: works on records instead of bytes and does not cover truncated files or negative
  counts.
- Chain: searching by time, and the number of steps of the skip walk.
- Net: socket errors, disconnection, message checksums, flood limits and byte statistics; the histories of
  pushed, sent and received data are fields of the model only.
- CompactMatch.Relay: blocks of at most 65536 transactions, because positions have 16 bits; a valid block has
  fewer than 17000.
- Compact blocks: the crowding of hash buckets and the block check are parameters; counters used for logging.
- Rolling bloom filter: the size formula and false-positive rates.
- Bech32: remainders and values are bit sequences; detection of four scattered errors within 89 characters,
  which rests on an exhaustive search; the meaning of the data part.
- Base58 with checksum; addresses and keys.
- 256-bit numbers: conversion to floating point and hexadecimal, comparison with 64-bit numbers.
- Script interpretation, consensus rules, block validation, wallet, RPC and storage.
