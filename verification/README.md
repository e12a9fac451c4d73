# Colossus-X in Dafny

A model of the Colossus-X proof-of-work node and proofs about it. The node computes the same objects in
several ways (a Merkle root level by level, by a binary counter, and inside a one-pass multi-proof; a proof
of work on the full DAG and from supplied cells only; a chain in memory and in files), and it keeps
long-lived state that many calls change. The project proves that the ways agree on every input, and that
the state keeps its invariants over every run, every interleaving and every crash point.

The hash functions are parameters (`Base.HashSuite`), so every theorem holds for every choice of them. No
injectivity is assumed anywhere: binding results say "equal, or here is an explicit collision". Block hashes
enter the chain proofs as a function on headers; `Header.EncodeInjective` reduces a clash of block hashes to
a SHA-256 collision. A block hash of zero is the node's own marker for "none", so theorems about runs require
block hashes that are not zero.

The modules, bottom up:

- `Base`, `Arithmetic`, `BitLaws`, `Codec`: bytes, bits, fixed-width numbers, hexadecimal and decimal text.
- `MerkleTree` (the reference tree, stored levels, proofs), `Frontier` (the binary counter), `MultiProof` (the
  one-pass builder), `MerkleBinding` (what an accepted proof binds).
- `TraceHash`, `TraceLaws`, `Solution`, `SolutionTheorems`, `Compact`: the data-dependent walk and what it is,
  building and verifying solutions, completeness and soundness, the compact form.
- `ChainSpec`, `Target`, `Header`: DAG sizes and epochs, targets and work, header encodings.
- `ChainStore`, `StoreLaws`, `ForkChoice`, `Validity`, `ChainTheorems`, `Interleaving`, `InterleavedTip`,
  `TipHistory`: the in-memory store, insertion and selection, what a valid block is, whole serialized runs,
  insertions interleaved store call by store call, and exactly when they keep the best tip.
- `DiskFiles`, `DiskStore`, `DiskRecovery`, `DiskChain`, `DiskRuns`, `DiskMigration`: atomic file replacement with
  crash points, the disk store, its refinement of the in-memory store over whole lives, insertions on disk, runs
  of them with crashes in the middle, and interrupted migrations.
- `Miner`, `DagWorkers`, `DagGeneration`, `DagLaws`: the concurrent nonce search and the concurrent DAG
  generation as step-by-step state machines driven by arbitrary schedules, and the contents of the DAG.
- `ValidatorCache`, `Sealing`, `ProofOfWork`: the validator's caches as objects with memory that is owned and
  freed, the way of a block from mining to acceptance, and what proof of work means.

Loops and objects of the node are methods with loop invariants and classes with `modifies` clauses; each is
tied to a function on values, and the lemmas are about those functions. `BitLaws`, `TraceLaws`, `DagLaws`,
`StoreLaws`, `Validity` and `ProofOfWork` say what those functions are a second time, without them: as relations
that exactly one value satisfies, clause by clause, or in terms of a sequence of calls alone. Concurrency is a
function from a schedule (which worker or thread moves next) to a state, so "every schedule" is an ordinary
quantifier.

Some results are about where the code stops meeting a natural expectation. Each is stated exactly:

- A compact solution survives expansion if and only if it has at most 2^32 distinct siblings
  (`Compact.CompactRoundTrip`, with `Compact.LongSolutionIsLost`); a sealed block that does not survive is
  accepted only with a collision (`Sealing.SealedIsAccepted`).
- Audit cells have no size check. An accepted solution has honest audit cells if and only if none has the shape of
  an inner node (`SolutionTheorems.AcceptedSolutionIsHonest`), and every accepted solution on two cells or more
  stays accepted with audit cells that are no cells at all (`SolutionTheorems.ForgedAuditAccepted`).
- The verifier converts the number of reads to a signed one, so under a specification of 2^63 reads or more it
  rejects every solution (`SolutionTheorems.TooManyReads`).
- Proof of work does not look at the header's own nonce (`Sealing.HeaderNonceIsFree`).
- The best tip can be lost when insertions interleave (`InterleavedTip.ARaceLosesBestTip`). Under any
  schedule it is kept if and only if, since the finally best block was last stored, no step took the tip from it
  while no insertion of it competed (`TipHistory.BestTipIff`); so it is kept when nobody moves the tip
  between another's reading and moving it (`InterleavedTip.BestTipSurvives`). For two insertions that do so, and
  for a single move while the old tip's own insertion is not competing, the condition is that the new tip is the
  better one (`InterleavedTip.BestTipIffLastIsBetter`, `InterleavedTip.HarmlessMove`).
- A crash in the middle of an insertion on disk loses the best tip if and only if it comes after the block's file
  and before the tip file that should name a valid, new and better block (`DiskRuns.CrashKeepsBestTip`, with
  `DiskRuns.ACrashLosesBestTip`), and inserting the block again does not help
  (`DiskRuns.InsertingAgainDoesNotHelp`).
- A snapshot migrates to one store whatever the interruptions and orders if and only if no two of its keys spell
  one height and name different hashes (`DiskMigration.SameStoreIffHeightsAgree`, with
  `DiskMigration.TwoSpellingsDiffer`).
- A specification that leaves its own DAG size open passes the size check of generation; its cells fit if and only
  if the first epoch's do (`DagGeneration.GuardCoversCells`, with `DagGeneration.GuardLetsOpenSizePass`).
- Memory allocated for a specification that turns out invalid is never given back (`ValidatorCache.NewDag`). A
  validator gives back everything if and only if no call was granted memory for such a specification
  (`ValidatorCache.Session`, `ValidatorCache.LosingSizes`), and validated headers never ask for one
  (`Sealing.ValidatedHeaderHasCells`).

`dafny verify dfyconfig.toml` checks the whole project.

## Model

| member | source | states |
|---|---|---|
| `MerkleTree.BuildMerkleRoot` | colossusx/merkle.go:138-159 | The level-by-level loop computes the root of the reference tree `Node` for every leaf count, odd tails paired with themselves, and the zero hash for no leaves |
| `MerkleTree.BuildMerkleLevels` | colossusx/merkle.go:107-128 | The stored levels are exactly the reference tree's levels, one more than its depth |
| `MerkleTree.LevelMerkleProver.Proof` | colossusx/merkle.go:45-64 | An index is refused exactly when it is out of range; otherwise the proof is the sibling path of the reference tree |
| `MerkleTree.LevelMerkleProver.GetRoot` | colossusx/merkle.go:34-43 | The top of the stored levels is the root of the reference tree |
| `MerkleTree.NewMerkleProverFromLeaves` | colossusx/merkle.go:66-71 | A prover exists exactly for non-empty leaves and then holds their levels |
| `MerkleTree.VerifyMerkleProof` | colossusx/merkle.go:173-189 | Acceptance means that hashing the leaf up the proof, left or right by index bit, gives the root |
| `MerkleTree.ProofVerifies` | colossusx/merkle.go:45-64 | Completeness: every proof the prover hands out, for every non-empty tree and index, is accepted against the root |
| `MerkleTree.DepthIsCeilLog` | colossusx/merkle.go:107-128 | The number of proof entries is the base-two logarithm of the leaf count, rounded up |
| `MerkleTree.ThreeLeaves` | colossusx/merkle.go:138-159 | The smallest odd tree written out: order of the two children, duplication of the odd leaf, and its proofs |
| `MerkleTree.DepthUnique` | colossusx/merkle.go:144-158 | The loop that stops at one node stops at the depth and nowhere else |
| `MerkleTree.ClimbStepIsParent` | colossusx/merkle.go:173-189 | Hashing a node with its sibling in index order gives its parent, self-paired odd tails included |
| `Frontier.DagMerkleRootStreaming` | pkg/consensus/validator.go:418-464 | The binary-counter root equals the level-by-level root for every leaf count |
| `Frontier.AddLeaf` | pkg/consensus/validator.go:424-441 | After k leaves level l of the frontier is occupied exactly when bit l of k is set, and holds the last complete node there |
| `Frontier.Collapse` | pkg/consensus/validator.go:442-463 | The final sweep folds the frontier into the root, lifting the odd tail by self-pairing |
| `Frontier.Lift` | pkg/consensus/validator.go:456-459 | Self-pairing from one level to another yields the last node of each level passed, when those levels are odd |
| `Frontier.WidthIsCeiling` | pkg/consensus/validator.go:442-463 | The count of finished nodes (a floor) and the width of a level (a ceiling) differ by one exactly when lower bits are set |
| `Frontier.CounterAdvances` | pkg/consensus/validator.go:424-441 | Merging through the trailing ones of k turns the frontier for k leaves into the one for k + 1 |
| `MultiProof.BuildMerkleMultiProof` | colossusx/merkle.go:191-298 | One pass refines the materialised tree: same root, for each requested index exactly the prover's proof, an error exactly for an empty DAG, a zero node size or an index out of range; the two incomplete-proof errors are unreachable |
| `MultiProof.MultiProofBuilder.EmitNode` | colossusx/merkle.go:251-271 | Emitting the next node of a level serves every proof entry waiting for it, merges upwards through the pending slots, and never leaves the precomputed tables |
| `MultiProof.MultiProofBuilder.AssignWanted` | colossusx/merkle.go:242-250 | A node is written into exactly the proof entries that want its position |
| `MultiProof.LevelCounts` | colossusx/merkle.go:212-218 | The precomputed level widths and depth are those of the tree |
| `MultiProof.WantedSlots` | colossusx/merkle.go:225-238 | The wanted tables list, for every position, exactly the proof entries it belongs to |
| `MultiProof.EmitLeaves` | colossusx/merkle.go:272-276 | After the leaves, every level holds its last complete node or nothing, by the bits of the count |
| `MultiProof.FinishLevels` | colossusx/merkle.go:277-283 | The finishing sweep completes every level up to the root, level by level |
| `MultiProof.PairTail` | colossusx/merkle.go:278-282 | An odd tail is paired with itself and emitted one level up |
| `MultiProof.CollectProofs` | colossusx/merkle.go:288-297 | Every proof that is handed out is complete |
| `MultiProof.UniqueIndices` | colossusx/merkle.go:199-210 | The requested indices come out in ascending order, each once, and none is lost; an index out of range is refused |
| `MerkleBinding.AcceptedProofBinds` | colossusx/merkle.go:173-189 | Binding without any assumption on the hash: an accepted proof of any length either yields an explicit pair of colliding inputs, or carries the true cell and the honest proof, or is interior-shaped (64 bytes of data under a shorter proof) |
| `MerkleBinding.InteriorShapedDataVerifies` | colossusx/colossusx_solution.go:186-194 | The exception is real: in every tree of two cells or more, the two hashes below the root pass as the cell of every index under an empty proof |
| `MerkleBinding.SeparateSound` | colossusx/merkle.go:173-189 | The extracted pair always has one digest, so distinct inputs are a collision |
| `TraceHash.ColossusXTraceHash` | colossusx/hash_colossusx_v2.go:28-64 | The loop computes the trace of the recursive walk (`TraceLaws` says what that is), and the zero trace of an empty DAG |
| `TraceHash.ColossusXRoundMix` | colossusx/hash_colossusx_v2.go:85-102 | The sixteen words updated in place give word by word the FNV fold of the cell's blocks, hashed |
| `TraceHash.MixBlock` | colossusx/hash_colossusx_v2.go:90-96 | One block is folded into the words position by position, each word with its own four bytes |
| `TraceHash.ReadIndex` | colossusx/hash_colossusx_v2.go:43-44 | The cell a round reads exists, whatever the mix |
| `TraceHash.ColossusXAuditIndices` | colossusx/hash_colossusx_v2.go:66-79 | The audit indices are determined by the solution hash alone and lie in the DAG |
| `TraceHash.NonceRoundTrip` | colossusx/nonce.go:25-30 | The eight bytes a nonce is appended as give it back |
| `TraceHash.WordIsLittleEndian` | colossusx/hash_colossusx_v2.go:85-102 | The words mixed are little-endian reads of four bytes |
| `Base.XorBits` | colossusx/hash_colossusx_v2.go:104-106 | The exclusive or used in hashing and indexing is the bitwise one |
| `BitLaws.ShrIsQuotient` | colossusx/hash_colossusx_v2.go:104-106 | Shifting right, in which bits are counted, is dividing by a power of two |
| `BitLaws.BitsDetermine` | colossusx/hash_colossusx_v2.go:104-106 | A number is determined by its bits |
| `BitLaws.XorBytesBits` | colossusx/dag_colossusx_v2.go:47-54 | Combining byte strings adds every bit of every byte modulo two |
| `BitLaws.LittleEndianByte` | colossusx/hash_colossusx_v2.go:98-101 | Byte k of a little-endian encoding is digit k to the base 256 |
| `BitLaws.BigEndianByte` | pkg/types/types.go:87-106 | Byte k from the end of a big-endian encoding is digit k to the base 256 |
| `BitLaws.FnvValue` | colossusx/hash_colossusx_v2.go:104-106 | The word hash is 16777619 times the number whose bits are the sums of the bits, modulo 2^32 |
| `BitLaws.FnvInjective` | colossusx/hash_colossusx_v2.go:104-106 | With either word fixed, different other words hash differently, since the prime is odd |
| `TraceLaws.RoundIs` | colossusx/hash_colossusx_v2.go:43-46 | A round reads the cell its first word and number pick, and its next mix is the digest of sixteen words folded over the columns of that cell: exactly that |
| `TraceLaws.TraceIsTheWalk` | colossusx/hash_colossusx_v2.go:28-64 | A trace is the computed one if and only if it is a walk: a chain of mixes and reads from the digest of header and nonce to the result and the solution hash |
| `TraceLaws.OneWordMatters` | colossusx/hash_colossusx_v2.go:85-102 | Two cells that differ in one word lead to different next mixes, or show a SHA3-512 collision |
| `TraceLaws.MixMatters` | colossusx/hash_colossusx_v2.go:85-102 | Two mixes over one cell lead to different next mixes, or show a SHA3-512 collision |
| `TraceLaws.ReadsAreSpread` | colossusx/hash_colossusx_v2.go:43-44 | On a DAG of 2^32 cells two rounds or two mixes read one cell if and only if the round numbers agree modulo 2^32, or the first words agree |
| `TraceLaws.ReadWraps` | colossusx/hash_colossusx_v2.go:43-44 | A smaller DAG is read at the same number modulo its size |
| `TraceLaws.StartCommits` | colossusx/hash_colossusx_v2.go:33-38 | The first mix commits to header and nonce, or shows a SHA3-512 collision |
| `TraceLaws.EndCommits` | colossusx/hash_colossusx_v2.go:50-58 | The result commits to the first and the last mix, and the solution hash to the nonce as well, or a BLAKE3 collision shows |
| `TraceLaws.AuditDraw` | colossusx/hash_colossusx_v2.go:72-78 | Draw i is the little-endian value of the first four bytes of the digest of the solution hash and of four bytes that read back as i, modulo the cell count |
| `TraceLaws.DrawsAreFree` | colossusx/hash_colossusx_v2.go:66-79 | The draws are free of each other: every list of 32 indices of the DAG is what some hash function draws |
| `TraceLaws.EmptyWalk` | colossusx/hash_colossusx_v2.go:29-32 | Over no cells the trace is all zero bytes and reads nothing |
| `Solution.BuildColossusXSolutionStreaming` | colossusx/colossusx_solution.go:94-146 | Building in one pass gives the honest solution and the DAG root, for every non-empty DAG; its only error is the empty DAG |
| `Solution.BuildColossusXSolution` | colossusx/colossusx_solution.go:38-92 | Building from all leaves gives the same solution and root, and fails exactly when the leaf count does not fit the DAG |
| `Solution.AppendUnseen` | colossusx/colossusx_solution.go:100-116 | The cells requested are exactly those read or audited |
| `Solution.VerifyColossusXSolution` | colossusx/colossusx_solution.go:148-196 | Acceptance is equivalent to all checks holding together; any other verdict names the first check that fails |
| `Solution.VerifyMiningCells` | colossusx/colossusx_solution.go:158-171 | The walk is replayed from supplied cells only: index, size and proof of each round are checked before its mix is used |
| `Solution.VerifyAuditCells` | colossusx/colossusx_solution.go:182-194 | The audit cells must match the indices drawn from the solution hash and prove themselves; their size is not checked |
| `Solution.VerdictsDisagree` | colossusx/colossusx_solution.go:148-196 | No error verdict is ever given to a solution that passes every check |
| `SolutionTheorems.HonestSolutionAccepted` | colossusx/colossusx_solution.go:148-196 | Completeness: the miner's own solution is accepted if and only if the full-DAG hash meets the target and the number of reads is below 2^63, where the verifier's conversion to a signed number turns negative |
| `SolutionTheorems.TooManyReads` | colossusx/colossusx_solution.go:148-160 | Under a specification of 2^63 reads or more no solution at all is accepted |
| `SolutionTheorems.AcceptedSolutionIsHonest` | colossusx/colossusx_solution.go:148-196 | Soundness: a solution accepted against the true root reveals a BLAKE3 collision, or its walk, cells, proofs and digest are those of the full-DAG hash for its own nonce and the hash meets the target; its audit cells are honest exactly when none is interior-shaped |
| `SolutionTheorems.ForgedAuditAccepted` | colossusx/colossusx_solution.go:186-194 | On every DAG of two cells or more, every accepted solution is still accepted when all its audit cells are replaced by data that is no cell of the DAG, since audit cells have no size check |
| `SolutionTheorems.AcceptedWalkIsHonest` | colossusx/colossusx_solution.go:158-171 | Round by round, the replayed mix stays equal to the mix over the real DAG |
| `SolutionTheorems.HonestReplay` | colossusx/hash_colossusx_v2.go:28-64 | Replaying honest cells follows the full-DAG walk |
| `Compact.CompactColossusXSolution` | colossusx/colossusx_solution.go:198-228 | The compact form lists the distinct siblings in order of first use and refers to each proof entry by its position modulo 2^32 |
| `Compact.SiblingPool.Reference` | colossusx/colossusx_solution.go:203-210 | A sibling is appended once and always referred to by the same number |
| `Compact.ExpandCompactColossusXSolution` | colossusx/colossusx_solution.go:230-262 | Expansion fails exactly when a reference is out of bounds, and otherwise looks every reference up |
| `Compact.CompactRoundTrip` | colossusx/colossusx_solution.go:198-262 | Expanding a compacted solution never fails, and gives it back if and only if the solution has at most 2^32 distinct siblings |
| `Compact.LongSolutionIsLost` | colossusx/colossusx_solution.go:203-211 | A solution with one sibling more than that: whatever its compact form, it expands to another solution |
| `Compact.PoolSize` | colossusx/colossusx_solution.go:203-210 | The pool is as long as the solution has distinct siblings |
| `Compact.SiblingsOnce` | colossusx/colossusx_solution.go:198-228 | Each sibling of the solution is listed exactly once and nothing else is listed |
| `Compact.WrappedReference` | colossusx/colossusx_solution.go:203-211 | Past 2^32 siblings a wrapped reference decodes to a different sibling |
| `Target.LessOrEqualBE` | colossusx/target.go:25-35 | The byte loop compares the two 256-bit big-endian values |
| `Target.WorkIsFloor` | pkg/consensus/validator.go:219-226 | Work is the floor of 2^256 / (t + 1) and at least one for every non-zero target |
| `Target.WorkAntitone` | pkg/consensus/validator.go:219-226 | A smaller target never counts for less work |
| `Header.EncodeInjective` | pkg/types/types.go:87-106 | Different headers encode differently, so equal block hashes mean equal headers or a SHA-256 collision |
| `Header.HeaderLayout` | pkg/types/types.go:87-106 | The place of every field in the 224 mined bytes, and that only the hashed form carries the nonce |
| `Header.NonceNotMined` | pkg/types/types.go:87-106 | Setting the nonce leaves the mined bytes unchanged and changes the hashed bytes unless it is the same nonce |
| `ChainSpec.DagSizeIsIdeal` | colossusx/spec.go:141-154 | For every valid specification the size never wraps: it is min(initial + epoch * growth, 2^64 - 256), a positive multiple of 256 |
| `ChainSpec.ValidMeans` | colossusx/spec.go:91-125 | When a specification is valid, field by field |
| `ChainSpec.GuardIsExact` | colossusx/spec.go:148-153 | The overflow guard fires exactly when the product would not fit |
| `ChainSpec.DagSizeMonotone` | colossusx/spec.go:156-161 | Later heights never have a smaller DAG |
| `ChainSpec.NodeCountBound` | colossusx/spec.go:169-178 | There are as many nodes as fit the size, fewer than 2^56, so counters and positions cannot wrap |
| `ChainSpec.ValidateEpochParameters` | pkg/consensus/validator.go:193-217 | A header is accepted exactly with its own epoch's size and seed, or with the previous epoch's during the first 64 blocks of a later epoch |
| `Validity.EpochSeedCommits` | pkg/types/types.go:117-126 | The seed of an epoch commits to its number and the genesis hash, or shows a SHA3-256 collision |
| `Validity.OwnEpoch` | pkg/consensus/validator.go:193-200 | A header of its own epoch carries what the size and seed functions give for its height |
| `Codec.HashRoundTrip` | pkg/chain/codec.go:40-54 | A hash written as hex is read back |
| `Codec.HashReads` | pkg/chain/codec.go:40-54 | A hash is read from nothing, as zero, or from exactly 64 hexadecimal digits of either case, and from no other text |
| `Codec.HexDigits` | pkg/chain/codec.go:40-54 | A hexadecimal digit is written in either case |
| `Codec.HexOrder` | pkg/types/types.go:70 | Comparing two hex strings compares the bytes they spell |
| `Codec.BytesOrder` | pkg/consensus/validator.go:228-240 | For equally long hashes, byte order is the order of the big-endian values |
| `Codec.BigIntRoundTrip` | pkg/chain/codec.go:56-72 | Total work written in decimal is read back, negative numbers included |
| `Codec.BigIntReads` | pkg/chain/codec.go:63-72 | Total work is read from nothing, as zero, or from an optional sign and digits, and from no other text |
| `Codec.DecimalExample` | pkg/chain/codec.go:56-61 | Decimal text as people write it |
| `Codec.HeightRoundTrip` | pkg/chain/store_disk.go:251-253 | A height in a file name or snapshot key is read back |
| `Codec.HeightReads` | pkg/chain/store_disk.go:229-233 | A height is read from the digits of a 64-bit number behind any zeros, and from no other text |
| `ChainStore.MemoryStore.StoreBlock` | pkg/chain/memory.go:42-57 | The whole new state: block, height and work replaced, the first genesis and the first tip kept |
| `ChainStore.MemoryStore.SetCurrentTip` | pkg/chain/memory.go:102-110 | The tip moves exactly to a stored block; otherwise nothing changes |
| `ChainStore.MemoryStore.CurrentTip` | pkg/chain/memory.go:88-100 | The tip's block and work, or nothing while the tip is zero |
| `ChainStore.MemoryStore.GetBlockByHeight` | pkg/chain/memory.go:77-86 | The block last stored at a height |
| `StoreLaws.LastUnderHash` | pkg/chain/memory.go:42-57 | After any stores and tip moves: what is under a hash is what was stored there last |
| `StoreLaws.NothingUnderHash` | pkg/chain/memory.go:59-66 | Under a hash nothing was stored at, nothing is found |
| `StoreLaws.LastAtHeight` | pkg/chain/memory.go:77-86 | At a height is the block last stored there |
| `StoreLaws.NothingAtHeight` | pkg/chain/memory.go:77-83 | At a height nothing was stored at, nothing is found |
| `StoreLaws.FirstGenesis` | pkg/chain/memory.go:50-52 | The genesis block is the first one stored at height zero |
| `StoreLaws.LastMove` | pkg/chain/memory.go:102-110 | The tip is the last stored block asked for |
| `StoreLaws.FirstTip` | pkg/chain/memory.go:53-55 | Until one is asked for, the tip is the first block stored |
| `ForkChoice.SelectionIsMaximum` | pkg/consensus/validator.go:228-240 | Selection is the maximum of the order by work, then by smaller hash |
| `ForkChoice.SelectionMeans` | pkg/consensus/validator.go:228-240 | The candidate is chosen exactly for more work, or for equal work and a smaller hash as a number |
| `ForkChoice.BeatsIsTotalOrder` | pkg/consensus/validator.go:228-240 | That order is asymmetric, transitive and total on different hashes |
| `ForkChoice.ValidateHeader` | pkg/consensus/validator.go:142-184 | The error returned during insertion is the first failing check: version, epoch, target, linkage, time, and then a zero DAG root, or for the older algorithm the proof of work of the header alone |
| `ForkChoice.InsertBlock` | pkg/consensus/validator.go:242-278 | The store and the answer after an insertion are those of the specification `Insert` |
| `ForkChoice.InsertKeepsInvariant` | pkg/consensus/validator.go:242-278 | Insertion keeps links, cumulative work and the best tip; it refuses a block exactly when `BlockError` objects (`Validity.FirstObjection` says when that is), and then changes nothing |
| `ForkChoice.InsertAnswer` | pkg/consensus/validator.go:246-277 | What an accepted insertion leaves and answers: nothing new and no tip for a block stored before; for a new one its entries, the tip or not, and the first genesis |
| `Validity.FirstObjection` | pkg/consensus/validator.go:142-191 | A block is refused for the first clause it breaks, and accepted if and only if it breaks none: version, epoch pair, non-zero target, parent, later than the parent and at most 7200 seconds ahead, root or header hash, proof of work |
| `Validity.RunStoresOnlySound` | pkg/consensus/validator.go:242-278 | No run stores a block without proof of work, or one that breaks any clause that does not depend on its parent and the clock |
| `Validity.ScheduleStoresOnlySound` | pkg/consensus/validator.go:242-278 | Nor does any schedule of insertions interleaved store call by store call |
| `Validity.DiskHoldsOnlySound` | pkg/consensus/validator.go:242-278 | Nor does any run on disk: every block with a file can be read and is sound, whatever reopenings and crashes there were |
| `ForkChoice.CompeteKeepsBestTip` | pkg/consensus/validator.go:260-277 | After storing, one comparison with the old tip suffices for the tip to beat every stored block |
| `ForkChoice.BestTipMeans` | pkg/consensus/validator.go:228-240 | The best tip has the most work of all stored blocks, and the smallest hash among those |
| `ChainTheorems.RunInvariant` | pkg/consensus/validator.go:242-278 | Every serialized run from the empty store keeps the invariant |
| `ChainTheorems.PathProperties` | pkg/consensus/validator.go:142-184 | Every stored block reaches height zero in exactly its height's parent steps, strictly back in time, and its total work is the sum of work along that path |
| `ChainTheorems.StoredHeaders` | pkg/consensus/validator.go:242-278 | A run of accepted blocks stores exactly the headers it was given |
| `ChainTheorems.OrderIndependence` | pkg/consensus/validator.go:242-278 | Two accepted runs with the same headers end with the same headers, total work and tip |
| `ChainTheorems.ParentsFirstAccepted` | pkg/consensus/validator.go:142-184 | Valid blocks given parents first are all accepted |
| `ChainTheorems.ParentsFirstOrderIndependence` | pkg/consensus/validator.go:228-278 | Any two parents-before-children orders of the same valid blocks build the same chain |
| `ChainTheorems.OrderIndependenceOrCollision` | pkg/types/types.go:107-108 | With the hash the node uses: any two parents-first orders of the same valid blocks build the same chain, or two of their headers are a SHA-256 collision |
| `Interleaving.EveryInterleavingKeeps` | pkg/consensus/validator.go:242-278 | Under every schedule of the individual store calls of any number of insertions: parents are stored, work is own plus parent's, nothing stored is lost, the tip is a stored block |
| `Interleaving.StepThreadKeeps` | pkg/chain/memory.go:42-127 | One store call of one thread keeps that, and what every other thread has read stays true |
| `Interleaving.StartsInvariant` | pkg/consensus/validator.go:242-278 | Fresh insertions that contradict no stored header start in the invariant |
| `Interleaving.AloneIsSerial` | pkg/consensus/validator.go:242-278 | An insertion that is not interrupted does what the serial one does, in at most six calls |
| `InterleavedTip.BestTipSurvives` | pkg/consensus/validator.go:242-278 | Insertions that start on a chain with its best tip end on one, under every schedule in which no tip is moved between another insertion's reading of the tip and its moving it |
| `InterleavedTip.HarmlessMove` | pkg/consensus/validator.go:268-275 | One move of the tip keeps every finished block beaten if and only if the new tip is or beats the old one, unless the old tip's own insertion is still competing |
| `InterleavedTip.LastMoverWins` | pkg/consensus/validator.go:263-276 | Two insertions that read the same tip and beat it both move it; nothing but the tip changes, and the later one is the tip |
| `InterleavedTip.BestTipIffLastIsBetter` | pkg/consensus/validator.go:263-276 | When the last of the two beats all other blocks, the tip is the best one if and only if it also beats the one that moved before it |
| `InterleavedTip.RaceLosesBestTip` | pkg/consensus/validator.go:242-278 | From any chain with its best tip, two fresh insertions of valid blocks that beat it, taking turns call by call, reach a state whose tip is not the best block |
| `InterleavedTip.ARaceLosesBestTip` | pkg/consensus/validator.go:242-278 | Such a chain and two such blocks written out, with the schedule that loses the heavier one |
| `TipHistory.BestTipIff` | pkg/consensus/validator.go:242-278 | Fresh insertions under any schedule: with nobody competing any more, the tip is the best block if and only if, since that block was last stored, no step took the tip from it while no insertion of it competed; before that, the best block is the tip or still competes under the same condition |
| `TipHistory.SomeBlockIsBest` | pkg/consensus/validator.go:228-240 | In every reachable state with a block there is a block that is or beats every other |
| `DiskFiles.FileNameInjective` | pkg/chain/store_disk.go:247-253 | No two block, height, tip, snapshot or temporary files share a name |
| `DiskFiles.ReplaceLookup` | pkg/chain/store_disk.go:283-289 | Readers never see a half-written file |
| `DiskFiles.CrashIsPrefix` | pkg/chain/store_disk.go:283-289 | A crash during several replacements leaves, for readers, some first ones done in full |
| `DiskStore.DiskStore.StoreBlock` | pkg/chain/store_disk.go:62-87 | The files and the two cached hashes after storing: block, height and tip file replaced in that order |
| `DiskStore.DiskStore.SetCurrentTip` | pkg/chain/store_disk.go:138-146 | The tip file and cached tip move exactly to a block that has a file |
| `DiskStore.DiskStore.WriteFileAtomic` | pkg/chain/store_disk.go:283-289 | Opening, filling and renaming a temporary file replaces one file and leaves no temporary |
| `DiskStore.DiskStore.Load` | pkg/chain/store_disk.go:168-189 | Opening reads the tip file, or migrates a snapshot, or starts empty; errors leave the files written so far |
| `DiskMigration.OpenSucceedsIff` | pkg/chain/store_disk.go:168-245 | Opening fails exactly on an unreadable tip file, or without one on an unreadable snapshot; a readable tip file is taken as it is |
| `DiskStore.DiskStore.MigrateSnapshot` | pkg/chain/store_disk.go:191-245 | Migration writes the readable entries up to the first unreadable one, and the tip file last and only if all were readable |
| `DiskStore.DiskStore.GetBlockByHeight` | pkg/chain/store_disk.go:107-119 | Reading by height goes through the height file to the block file; an unreadable height counts as not found |
| `DiskStore.DiskStore.CurrentTip` | pkg/chain/store_disk.go:121-136 | The tip's block and work as read from its file |
| `DiskStore.ObserversAgree` | pkg/chain/store_disk.go:89-166 | On a store that represents a chain every observer answers as the in-memory store does |
| `DiskStore.StoreRefines` | pkg/chain/store_disk.go:62-87 | Storing on disk is storing in memory |
| `DiskStore.MoveTipRefines` | pkg/chain/store_disk.go:138-146 | Moving the tip on disk is moving it in memory |
| `DiskStore.StageRepresents` | pkg/chain/store_disk.go:62-87 | With the first n files of a stored block replaced, the directory is the chain with exactly those parts stored |
| `DiskRecovery.ReopenFindsIt` | pkg/chain/store_disk.go:168-189 | Reopening finds the store that was closed |
| `DiskRecovery.CrashedStoreRefines` | pkg/chain/store_disk.go:62-87 | A crash at any file step of storing a block, then a reopening, is the in-memory chain with a whole number of that block's files stored |
| `DiskRecovery.CrashedTipRefines` | pkg/chain/store_disk.go:138-146 | A crash while moving the tip leaves the old tip or the new one |
| `DiskRecovery.EveryLifeRefines` | pkg/chain/store_disk.go:36-146 | Over any sequence of operations, reopenings and crashes every reopening succeeds and the store represents the in-memory chain after the same events |
| `DiskRecovery.NothingDangles` | pkg/chain/store_disk.go:62-146 | At any point of any life the tip is none or a readable block with its work, and every height file names a readable block |
| `DiskRecovery.StoredBlocksSurvive` | pkg/chain/store_disk.go:62-87 | A block whose storing completed can be read at every later point of every life, crashes included |
| `DiskChain.InsertBlock` | pkg/consensus/validator.go:242-278 | An insertion on the disk store makes the calls of the specification on directories, with its answer |
| `DiskChain.InsertRefines` | pkg/consensus/validator.go:242-278 | An insertion on disk is the insertion in memory: same new chain, same answer |
| `DiskRuns.CrashRefines` | pkg/chain/store_disk.go:36-146 | A crash at any file step of an insertion, then a reopening, gives the chain with the files replaced so far, and with the tip moved only if the last one was |
| `DiskRuns.CrashKeepsBestTip` | pkg/consensus/validator.go:242-278 | On a chain with its best tip, a crash in the middle of an insertion loses the best tip if and only if it comes after the block's file and before the tip file that should name a valid, new and better block |
| `DiskRuns.InsertingAgainDoesNotHelp` | pkg/consensus/validator.go:246-250 | Inserting such a block again finds it stored and changes nothing, so it stays without the tip |
| `DiskRuns.RunRefines` | pkg/consensus/validator.go:242-278 | Any run of insertions, reopenings and crashes inside insertions on disk is the same run in memory, and every reopening succeeds |
| `DiskRuns.BestTipOnDisk` | pkg/consensus/validator.go:242-278 | After any such run from a fresh directory the tip on disk beats every other block on disk but those that crashes kept from it, and it is the best one if and only if it beats those too; without crashes there are none |
| `DiskRuns.ACrashLosesBestTip` | pkg/consensus/validator.go:242-278 | A chain of one block and a better block, written out, with a crash that loses the best tip |
| `DiskMigration.InterruptedMigration` | pkg/chain/store_disk.go:191-245 | For a readable snapshot whose heights agree: however often, wherever and in whatever height orders a migration was stopped, opening again gives the store of an undisturbed migration |
| `DiskMigration.CompletionIsUnique` | pkg/chain/store_disk.go:211-244 | Doing all writes of a migration from any state in between, in any order with the same outcome, ends in the same files for readers |
| `DiskMigration.MigrationRepresents` | pkg/chain/store_disk.go:191-245 | A migrated snapshot of a chain is a store that represents that chain |
| `DiskMigration.MigrationWrites` | pkg/chain/store_disk.go:211-244 | A migration writes the snapshot's files and no others, whatever the order of its heights |
| `DiskMigration.NoTipFileYet` | pkg/chain/store_disk.go:242-244 | A migration stopped before its last write leaves no tip file, so it is run again |
| `DiskMigration.SameStoreIffHeightsAgree` | pkg/chain/store_disk.go:191-245 | A readable snapshot migrates to one store, over all interruptions and orders, if and only if no two of its keys spell one height and name different hashes |
| `DiskMigration.OrderMatters` | pkg/chain/store_disk.go:229-241 | Two such keys give two orders, and two stores |
| `DiskMigration.TwoSpellingsDiffer` | pkg/chain/store_disk.go:229-241 | The smallest such snapshot written out: keys 1 and 01, and the two hashes its store can name at height 1 |
| `DiskMigration.UnreadableNeverOpens` | pkg/chain/store_disk.go:191-245 | A snapshot with an unreadable entry never becomes a store, in whatever order and however often it is tried, and stays to be tried again |
| `Miner.AddUint64` | colossusx/nonce.go:32-37 | Stepping fails exactly when the sum does not fit 64 bits |
| `Miner.AtMostOneResult` | colossusx/miner.go:63-125 | At every moment of every schedule at most one result has been sent, and it is a hit from the requested range |
| `Miner.NeverTwice` | colossusx/miner.go:87-114 | No nonce is ever hashed twice and none outside the range |
| `Miner.FinishedSearch` | colossusx/miner.go:63-125 | When all workers are done: a result was sent if and only if the range has a hit; without one, every nonce of the range below 2^64 was hashed exactly once and missed |
| `Miner.HashedExactly` | colossusx/miner.go:87-114 | The nonces hashed by a search that found nothing are those from the start to the limit or the last 64-bit number, each once |
| `Miner.SearchTerminates` | colossusx/miner.go:78-116 | A schedule that only runs unfinished workers is no longer than the initial sum of remaining nonces and steps |
| `Miner.RunInv` | colossusx/miner.go:63-125 | The invariant of workers, log, found flag and channel over every schedule |
| `Miner.MineBatch` | colossusx/miner.go:126-144 | The batch search returns the least hit at or after the start, or nothing when there is none below the limit, which is 100000 nonces if none is given |
| `Miner.HashBatch` | backend_cpu.go:38-48 | A batch stops early exactly where the next nonce would not fit 64 bits |
| `Miner.SearchesAgree` | colossusx/miner.go:63-144 | With a limit, the concurrent search finds something exactly when the batch search does |
| `DagGeneration.CacheEntriesFor` | colossusx/dag_colossusx_v2.go:20-37 | The cache has between 1024 entries and 512 MiB of them, so 32-bit indices cover it |
| `DagGeneration.CacheEntriesScale` | colossusx/dag_colossusx_v2.go:20-37 | One cache entry for every 4096 bytes of a DAG below 32 GiB, at least 1024; the full 512 MiB from there on |
| `DagGeneration.BuildSeedCache` | colossusx/dag_colossusx_v2.go:39-57 | The three in-place passes over the chained hashes leave the cache `SeedCache` defines |
| `DagGeneration.RunPass` | colossusx/dag_colossusx_v2.go:47-54 | One pass in place equals rewriting entry by entry against the partly rewritten cache |
| `DagGeneration.PassEntry` | colossusx/dag_colossusx_v2.go:47-54 | A pass mixes each entry with its target: the new value of an earlier target, the old value of a later one (`DagLaws` says what mixing is) |
| `DagLaws.PassIs` | colossusx/dag_colossusx_v2.go:47-54 | After a pass every entry is the SHA3-512 digest of 64 bytes whose bits are the sums of the bits of the old entry and of its target: exactly that |
| `DagLaws.SeedCacheIs` | colossusx/dag_colossusx_v2.go:39-57 | The seed cache is the chained digests after three such passes, and nothing else is |
| `DagLaws.TargetMatters` | colossusx/dag_colossusx_v2.go:47-54 | Another target entry makes another new entry, or shows a SHA3-512 collision |
| `DagGeneration.NodeInto` | colossusx/dag_colossusx_v2.go:59-82 | The 128 lookups and the keyed expansion give the cell of an index |
| `DagLaws.CellIs` | colossusx/dag_colossusx_v2.go:59-82 | A cell is 256 bytes drawn from the last of 129 mixes: a start that holds the index, then 128 lookups that each combine one picked entry bit by bit; nothing else is |
| `DagLaws.LookupIs` | colossusx/dag_colossusx_v2.go:69-77 | Each lookup mixes in the one entry that the index, its number and one byte of the mix pick |
| `DagLaws.EntryMatters` | colossusx/dag_colossusx_v2.go:69-77 | Changing the entry a lookup reads changes the mix after it, or shows a SHA3-512 collision |
| `DagLaws.UnreadDoesNotMatter` | colossusx/dag_colossusx_v2.go:59-82 | An entry that has not been read has had no influence |
| `DagGeneration.KeccakNodeInto` | colossusx/dag.go:157-165 | The older filling writes four chained digests into a node |
| `DagLaws.KeccakCellIs` | colossusx/dag.go:153-165 | The older node is four Keccak digests in a row, the first of the seed and the index, each other one of the one before |
| `DagLaws.NodeMeans` | colossusx/dag.go:122-165 | A node is a cell of the seed cache if the mode is spelled out, and the older node otherwise |
| `DagGeneration.FillBuffer` | colossusx/dag.go:111-174 | Node after node in either mode, the buffer becomes that of the generation job |
| `DagGeneration.GuardCoversCells` | colossusx/dag.go:111-120 | The size check keeps every cell inside the buffer if and only if the specification fixes its size, or the buffer holds the first epoch's DAG |
| `DagLaws.GenerationMeans` | colossusx/dag.go:111-120 | Generation goes ahead exactly for a valid specification, a seed, and a buffer of the specification's own size |
| `DagGeneration.GuardLetsOpenSizePass` | colossusx/dag.go:118-120 | A specification that leaves its size open passes the check with no buffer at all |
| `DagGeneration.GeneratedDag` | colossusx/dag.go:111-174 | Whenever the cells fit, whatever the workers and their schedule, a finished generation has put every node in place and touched nothing after the last |
| `DagWorkers.RangesPartition` | colossusx/dag_colossusx_v2.go:96-109 | The worker ranges follow one another from the first cell to the last without gap or overlap |
| `DagWorkers.ChunkFits` | colossusx/dag_colossusx_v2.go:96-103 | No chunk boundary wraps |
| `DagWorkers.FinishedBuffer` | colossusx/dag_colossusx_v2.go:90-123 | A finished run leaves the buffer of one sequential pass, has written every cell exactly once, and has reported exactly NodeCount cells |
| `DagWorkers.ScheduleDoesNotMatter` | colossusx/dag_colossusx_v2.go:90-123 | Two runs with different worker counts and schedules leave the same buffer |
| `DagWorkers.StepTerminates` | colossusx/dag_colossusx_v2.go:111-120 | Every step of a worker with work left uses up one remaining action |
| `ValidatorCache.KeysInjective` | pkg/consensus/validator.go:551-558 | A cache key names one seed and size, and no shared key is a fallback key |
| `ValidatorCache.Dag.Close` | colossusx/dag.go:97-105 | Closing frees an owned allocation once and later calls do nothing |
| `ValidatorCache.NewDag` | colossusx/dag.go:32-57 | A DAG is made exactly when memory was granted, the specification is valid and the memory suffices; too little memory is given back, but memory for an invalid specification is not |
| `ValidatorCache.SizedSpecValid` | pkg/consensus/validator.go:573-575 | When a header's size can make a validator's specification invalid |
| `ValidatorCache.SizeThatFits` | colossusx/dag.go:118-120 | The sizes a configuration can be asked for are exactly those whose DAG fits into that many bytes: any, or any but zero when it fixes its initial size |
| `ValidatorCache.StreamedRoot` | pkg/consensus/validator.go:418-464 | The root read from an open DAG is the root of the freshly computed cells |
| `ValidatorCache.HoldsDagMeans` | pkg/consensus/validator.go:567-588 | A buffer holds a DAG exactly when its cells, one after the other, are the nodes its specification and seed call for |
| `ValidatorCache.Validator.CachedDag` | pkg/consensus/validator.go:567-588 | A cached DAG is open and equals fresh generation for its seed and size; a hit changes nothing, a miss adds exactly one entry and, for the ColossusX algorithm, its fresh root under the same key; memory is lost exactly when it is granted for an invalid specification |
| `ValidatorCache.Validator.ValidationDag` | pkg/consensus/validator.go:485-494 | Validation gets such a DAG from the shared cache or the fallback cache, as the allocator allows |
| `ValidatorCache.Validator.MerkleRootForDag` | pkg/consensus/validator.go:466-483 | The root for a header, cached or not, equals recomputation, and is all that is added to the cached roots |
| `ValidatorCache.Validator.SetMiningBackend` | pkg/consensus/validator.go:102-118 | Every shared DAG is closed once and forgotten with all roots; fallback DAGs stay open |
| `ValidatorCache.Validator.Close` | pkg/consensus/validator.go:326-347 | Every cached DAG is closed and forgotten, and all memory has been given back exactly once but for the allocations counted as lost, of which `CachedDag` adds one exactly when it is granted memory for an invalid specification |
| `ValidatorCache.LosingSizes` | pkg/consensus/validator.go:573-577 | Memory is lost exactly when it is granted for a size that is zero or no multiple of 256, under a configuration that does not fix its initial size |
| `ValidatorCache.Session` | pkg/consensus/validator.go:102-588 | Over any sequence of backend changes, mining, validating and closing, cached DAGs and roots stay right, and one allocation is lost for each call that is granted memory for an invalid specification; after a last close every allocation has been given back exactly once if and only if there was no such call |
| `ValidatorCache.CloseOne` | colossusx/dag.go:97-105 | Closing one DAG leaves the others open and intact and gives its memory back |
| `ValidatorCache.AddDag` | pkg/consensus/validator.go:573-583 | A new DAG joins the others in memory of its own |
| `Sealing.Mine` | colossusx/miner.go:63-144 | The search behind a seal succeeds exactly when its range has a hit, and returns one |
| `ProofOfWork.SearchMeans` | colossusx/miner.go:63-144 | The search behind a seal starts at nonce zero, tries as many as asked for, and takes a nonce whose hash is at most the target |
| `Sealing.SealBlock` | pkg/consensus/validator.go:280-320 | What is returned is the given block with the root, a nonce of the requested range that the backend's hash accepts, and the compact honest solution filled in; it succeeds whenever a DAG can be had and the range has a hit; the root-mismatch error is unreachable |
| `ProofOfWork.SealedMeans` | pkg/consensus/validator.go:298-320 | Field by field: a sealed block is the given one but for its root, its nonce and its compact solution, and the backend's hash of it meets the target |
| `Sealing.SealOn` | pkg/consensus/validator.go:298-318 | With a hit in the range and a non-empty DAG, mining, building and compacting succeed, and the nonce is one of the range |
| `Sealing.ValidatePoW` | pkg/consensus/validator.go:349-383 | A verdict is given exactly when a DAG can be had, and it is the cache-free `PowAccepts` whatever the caches hold (`ProofOfWork` says what that means) |
| `ProofOfWork.AcceptedRoot` | pkg/consensus/validator.go:369-372 | An accepted block names the root of the tree over the BLAKE3 digests of its own freshly generated cells |
| `ProofOfWork.OtherRootRefused` | pkg/consensus/validator.go:393-397 | Naming any other root gets an accepted block refused |
| `ProofOfWork.SameVerdict` | pkg/consensus/validator.go:355-367 | A block with a full solution and one with only its compact form get the same verdict, up to 2^32 distinct siblings; a compact form beside a full solution is not looked at |
| `ProofOfWork.NoSolutionRefused` | pkg/consensus/validator.go:360-367 | Without a solution, or with a compact one that cannot be expanded, a block is refused |
| `ProofOfWork.AcceptedProof` | colossusx/colossusx_solution.go:148-181 | An accepted solution proves work on the mined bytes of its own header for its own nonce, with as many reads as the specification asks and 32 audit cells |
| `ProofOfWork.AcceptanceMeans` | pkg/consensus/validator.go:142-191 | What it takes for a block to be inserted, with this proof of work: all clauses together, as an equivalence |
| `Sealing.ValidatedHeaderHasCells` | pkg/consensus/validator.go:142-217 | A header that passed validation has a DAG of at least one cell, which is what sealing and proof-of-work validation ask of it, and no memory is ever lost on it |
| `Sealing.ValidateHeader` | pkg/consensus/validator.go:138-183 | The public header check: the checks of an insertion and then the root of the header's DAG, whatever the caches hold, and without asking anything of the header |
| `Sealing.ValidateDagRoot` | pkg/consensus/validator.go:385-398 | The root a header names is compared with that of its freshly computed DAG, whatever the caches hold |
| `Sealing.SealedIsAccepted` | pkg/consensus/validator.go:280-383 | A sealed block whose honest solution has at most 2^32 distinct siblings is accepted if and only if the ColossusX hash of its nonce meets the target and the number of reads is below 2^63; with more siblings it is accepted only if its proofs reveal a collision |
| `Sealing.EverySealedBlockIsAccepted` | pkg/consensus/validator.go:280-383 | Completeness end to end: with the ColossusX hash as backend and a walk short enough for 32-bit references, every block sealed is accepted by every validator |
| `Sealing.FewSiblings` | colossusx/colossusx_solution.go:198-228 | How many siblings a solution of a given walk length can have |
| `Sealing.HeaderNonceIsFree` | colossusx/colossusx_solution.go:148-153 | Proof of work binds the solution's nonce: any header nonce is accepted or refused alike |

## Left out

- GPU, OpenCL, CUDA and Metal backends, memory allocators behind cgo, and kernel sources: foreign calls.
- The inside of SHA3, Keccak, BLAKE3 and SHA-256, and of the keyed BLAKE3 output stream, which is one function from key and input to 256 bytes.
- The legacy lattice hash, its verification branch for blocks below algorithm version 2, and tensor tiles: `Sealing` treats the blocks whose proof is a ColossusX solution.
- Peer-to-peer transport, the node loop, timers, command line, backend selection, hash-rate and elapsed-time figures.
- JSON: a file is modelled by the value it decodes to. Disk errors other than a crash between two file steps are left out, and so is damage to renamed files.
- The clock: "now" is a parameter of header validation, and each event of a run carries its own.
- `NewMerkleProverFromAccessor`, `BuildMerkleProof` and `dagMerkleLeaves`: the same level-building loop and proof over another source of leaves.
- Locks: each store call and each cache operation is atomic. Two cache operations at the same time are not modelled; sealing while another call replaces the mining backend is therefore outside `ValidatorCache`.
- Worker counts of zero or less, which the node replaces by the processor count before anything modelled here.
- Sealing.SealBlock: does not model a failing `Prepare` of the backend or a nonce of another type, because both belong to backends that are left out; `batch` and `schedule` stand for how the backend searches. It requires a non-zero DAG size where `CachedDag` does, which `Sealing.ValidatedHeaderHasCells` proves of every validated header.
- Sealing.ValidatePoW: where the configuration fixes its initial size, requires a size of at least one cell, which `Sealing.ValidatedHeaderHasCells` proves of every validated header; with a smaller one the node divides by a zero node count.
- ValidatorCache.Validator.CachedDag: requires a non-zero size when the configuration fixes its initial size, because with size zero, and with no other (`ValidatorCache.SizeThatFits`), the node would index outside the buffer; validated headers have a size.
- ValidatorCache.Validator.ValidationDag: requires what `CachedDag` does.
- ValidatorCache.AddDag: requires what `CachedDag` does.
- ValidatorCache.Session: requires of every call what `CachedDag` does.
- ValidatorCache.NewDag: fills the buffer in one sequential pass (`DagGeneration.FillBuffer`), which `DagWorkers.FinishedBuffer` proves is what every schedule of workers leaves; like `CachedDag` it requires a size whose cells fit.
- Interleaving.EveryInterleavingKeeps: does not promise the best tip, because the node takes no lock across the store calls of an insertion; `InterleavedTip` says when it is kept.
- ChainTheorems.OrderIndependence: leaves out the map from heights to hashes, because the last block stored at a height wins it.
- ForkChoice.ValidateHeader: models the check made when a block is inserted; `Sealing.ValidateHeader` is the public entry, which also compares the DAG root.
