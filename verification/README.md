# Stacks Shield, modelled and proved in Dafny

Stacks Shield lets its users hold notes whose commitments are leaves of a Merkle tree. A client rebuilds
that tree from the chain, proves membership of a note it spends and the append of the notes it makes, and
hands the request to a relayer. This project models the part of that system in which bytes, indices, roots
and balances have to agree, and proves that they do, or exactly when.

| files | what they cover |
|---|---|
| `Bits`, `Digits`, `Hex`, `Field`, `JsMaps`, `Results` | shifts and masks, positional numerals, hexadecimal text, BN254 field elements as 32 bytes, the insertion-ordered map |
| `MerkleSpec` | what a tree means: the recursive hash of the complete, ZERO-padded leaf vector; paths, and what a path binds |
| `CommitmentTree`, `RootsTree` | the two sparse tree implementations as classes, and their agreement |
| `TreeBinding`, `ProofLength` | what an adversary's append or membership path can and cannot claim, at the tree's depth and at any other length |
| `Notes`, `Client`, `ClientProperties` | commitments, the note store, the client's five operations over tree and store, and what they publish |
| `PublicInputs` | the ten public-input encoders |
| `Encryption`, `Discovery`, `NoteScanner` | encrypted delivery, finding notes again, incremental scanning, note selection |
| `Queue`, `TransactionManager`, `RateLimiters`, `Fees` | the relayer's retrying queue and serialized nonces, three rate limiters, fee quotes |

How it is stated:

- The cryptographic hashes, key agreement and the cipher are function-valued parameters, so each theorem
  holds of every function of that type. Nothing is assumed injective. Binding results are in extractor form:
  either the conclusion holds, or a function defined here computes two different inputs with equal hash from
  the data at hand (`MerkleSpec.FindCollision`, `MerkleSpec.FindRootCollision`, `TreeBinding.AppendCollision`,
  `TreeBinding.RootCollision`).
- Asynchronous code is a step system: the code between two awaits is one atomic step, steps interleave in
  any order, and invariants are proved for every step and so for every run. Each class's methods are proved
  equal to the steps.
- The premises of the binding lemmas are ones the code meets: `CommitmentTrees.AppendWitnessComplete` and
  `CommitmentTrees.ProofComplete` supply paths for `TreeBinding`, and each client method's `ensures` says exactly
  when it succeeds and that its result is what `ClientProperties` speaks about.
- What the outside world answers during a client operation (the chain's commitments, the live root, whether
  proving and submitting succeed, random blindings, transaction ids) is the parameter `World`.

## What the code does not do

Each of these is a property one would expect, or a comment in the source claims, that fails; the lemma says exactly when.

- The insertion guard counts to 2^20 whatever the tree's depth (sdk/merkle-tree/index.ts:23, 105, 140), so the
  comment that a witness's old root is the tree's root (line 164) fails for shallower trees. For the hash at hand
  it holds if and only if the block of slots the next one lies in looks like the first block; with real
  commitments, if and only if fewer than 2^depth leaves are in; or a collision:
  `TreeBinding.WitnessStartsAtRootIffSameBlock`. For every hash at once: `TreeBinding.WitnessStartsAtRootIffRoom`.
  At the protocol's depth of 20 the guard suffices (`CommitmentTrees.SlotInTree`).
- A ZERO commitment cannot be told from an empty slot, and a hash sees its children only modulo the field
  prime, so binding is up to canonical values: the predicate `TreeBinding.RealCommitments` marks where that matters.
- `verifyMerkleProof` takes the length of a path from the proof (sdk/merkle-tree/index.ts:203). With fewer siblings than
  levels, exactly the inner nodes that far below the root are accepted; with more, what hashes to a leaf along the
  surplus siblings; or a collision: `ProofLengths.ShortProofBinds`, `ProofLengths.EveryNodeHasProof`,
  `ProofLengths.LongProofBinds`. A commitment that is accepted and not in the tree: `ProofLengths.AbsentButAccepted`.
- A sender can write a negative amount, and the scanner keeps it. Selection counts only the positive notes, so it
  succeeds on more than the balance; the two agree on every amount if and only if no note is negative:
  `NoteScanners.Select`, `NoteScanners.TotalIsPositiveIffNoDebt`. With 10 and -5 it covers 8: `NoteScanners.DebtIsIgnored`.
- `shield` publishes the registry's live root as its current root but proves from the tree it synced
  (sdk/src/client/STXShield.ts:363-370). The two are one transition if and only if the synced commitments agree
  in every slot with the leaves behind the live root; for real commitments, if and only if the two lists are
  equal; or a collision: `ClientProperties.ShieldBoundIffLive`. Two lists with different roots: `TreeBinding.RootsOfSums`.
- `merge` does not compare its two inputs. The local balance is conserved if and only if they differ or are
  worth nothing: `Notes.MergeConservesIffDistinct`. A note worth 5 becomes 10: `Notes.MergeWithItself`.
- `membership` lower-cases a note's commitment but, unlike the sync, does not add a missing prefix. A text is
  found if and only if it has a prefix, of either case, and the chain lists a text of the same number:
  `ClientProperties.FoundIffPrefixed`, `ClientProperties.UnprefixedIsLost`. A feed record listed without the prefix is stored under a second key, so
  the note counts twice: `Discovery.UnprefixedRecordCountsTwice`.
- A SIP-10 asset whose uid is 0 is serialized as native. Its note is found again if and only if its
  asset-bound commitment happens to be the native one: `Discovery.AssetZeroIsLost`.
- Once the tree is full, a scan stops before its spent flags are refreshed. A run of incremental syncs ends exactly
  like one full sync if and only if the tree has room for everything, or no flag set while it had room is left:
  `NoteScanners.ChunkIndependent`. A run that ends otherwise: `NoteScanners.FlagsCanLag`.
- An empty transaction id is taken for none. At most 256 transactions are retained if and only if they leave room
  or the oldest id is not empty: `TransactionManagers.RememberKeepsNewest`. 257 ids of which the first is empty
  leave 257: `TransactionManagers.EmptyIdRetainsAll`.
- Accepted nonces increase over a whole run if and only if no fetched nonce that is put to use falls back
  behind an accepted one: `TransactionManagers.NoncesIncreaseIffFetchesAhead`. A run that falls back:
  `TransactionManagers.NoncesCanFallBack`.
- The fixed-window limiter admits up to 2·max(1, max) − 1 requests in one window length, and reaches that:
  `RateLimiters.WindowBound`, `RateLimiters.WindowBoundReached`. The limiter whose comment says "fixed-window
  token bucket" (zk/attestations/committee/server.ts:75) refills continuously; below one request per second
  it never admits anything: `RateLimiters.SlowBucketRefusesAll`.

## Model

| member | source | states |
|---|---|---|
| CommitmentTrees.CommitmentTree.constructor | sdk/merkle-tree/index.ts:67-74 | the precomputed zero hashes make every node of the empty tree right |
| CommitmentTrees.CommitmentTree.Root | sdk/merkle-tree/index.ts:99-101 | in every reachable state the sparse root is the recursive hash of the complete padded leaf vector |
| CommitmentTrees.CommitmentTree.Insert | sdk/merkle-tree/index.ts:104-109 | appends exactly one leaf, returns its slot, and keeps every stored or defaulted node equal to that of the full tree; a full tree is refused unchanged |
| CommitmentTrees.CommitmentTree.SetLeaf | sdk/merkle-tree/index.ts:116-126 | rehashing the one path above a slot turns a tree for the old leaves into a tree for the new ones, at every level and index |
| CommitmentTrees.CommitmentTree.Path | sdk/merkle-tree/index.ts:142-149 | the xor/shift walk yields the direction bits and siblings of the slot in the full tree |
| CommitmentTrees.CommitmentTree.GetInsertionWitness | sdk/merkle-tree/index.ts:139-167 | without changing the tree, two folds over one path of the next free slot, from the empty leaf and from the commitment |
| CommitmentTrees.CommitmentTree.Proof | sdk/merkle-tree/index.ts:170-183 | exactly the indices below the size have a proof, and it is the path of the full tree |
| CommitmentTrees.CommitmentTree.IndexOf | sdk/merkle-tree/index.ts:187-196 | the first leaf holding a commitment; -1 exactly when none does |
| CommitmentTrees.FoldLoop | sdk/merkle-tree/index.ts:150-158 | the loop computes the root its path leads to, missing bits read as left |
| CommitmentTrees.VerifyMerkleProof | sdk/merkle-tree/index.ts:201-209 | accepts exactly the proofs whose path leads to their root |
| CommitmentTrees.AppendWitnessComplete | sdk/merkle-tree/index.ts:128-167 | while there is room, the witness starts at the current root, ends at the root a following insert yields, and decodes to the slot that insert uses |
| CommitmentTrees.ProofComplete | sdk/merkle-tree/index.ts:170-183 | every proof handed out is accepted, decodes to its index, and carries the leaf there |
| CommitmentTrees.SlotInTree | sdk/merkle-tree/index.ts:22-23 | at the protocol's depth or deeper the capacity guard keeps every slot inside the tree |
| MerkleSpec.NodeIsSubtree | sdk/merkle-tree/index.ts:53-59 | every node is the recursive hash of its own stretch of the padded leaf vector |
| MerkleSpec.EmptySubtree | sdk/merkle-tree/index.ts:58 | empty subtrees collapse to the precomputed zero hash of their level |
| MerkleSpec.NodeInHashes | sdk/merkle-tree/index.ts:76-80 | in terms of the hash: a node holds the hash of its left and its right child, in this order, a leaf slot its leaf or zero |
| MerkleSpec.OffPathUnchanged | sdk/merkle-tree/index.ts:116-126 | changing one leaf changes no node off its path, which is why one path per append is enough |
| MerkleSpec.DecodePathBits | sdk/merkle-tree/index.ts:144-149 | the direction bits name their index, exactly, when it is inside the tree |
| MerkleSpec.FoldAlongPath | sdk/merkle-tree/index.ts:133-137 | folding any leaf along a slot's siblings gives the node of the tree with that leaf in that slot |
| MerkleSpec.RootBindsLeaves | sdk/merkle-tree/index.ts:53-59 | two roots agree if and only if their leaf vectors agree as field elements in every slot; or the extractor returns a collision |
| MerkleSpec.PathBinds | sdk/merkle-tree/index.ts:133-138 | a path reaching the root starts at the leaf it decodes to and, from another leaf, ends at the root with only that slot replaced; or the extractor returns a collision |
| TreeBinding.AppendBinds | sdk/merkle-tree/index.ts:128-138 | any path of the adversary's choice from the empty leaf to the current root names an empty slot, and the new root is the tree with only that slot filled; or a collision |
| TreeBinding.AppendAtNextSlot | sdk/merkle-tree/index.ts:128-138 | bound to the next free slot, the only new root that can verify is the root after appending the commitment; or a collision |
| TreeBinding.TwoAppendsBind | sdk/src/client/STXShield.ts:438-447 | two appends chained over an intermediate root of the adversary's choice end at the root of the tree with both commitments appended; or a collision |
| TreeBinding.MembershipSound | sdk/merkle-tree/index.ts:199-209 | an accepted proof of full length proves the leaf at the slot its bits decode to; or a collision |
| TreeBinding.AbsentHasNoProof | sdk/merkle-tree/index.ts:199-209 | an accepted proof with one sibling per level, for a commitment the tree does not hold, exhibits a collision |
| ProofLengths.ShortProofBinds | sdk/merkle-tree/index.ts:201-209 | an accepted proof of m siblings, m at most the depth, proves the node m levels below the root at the index its bits decode to; or a collision |
| ProofLengths.EveryNodeHasProof | sdk/merkle-tree/index.ts:201-209 | conversely every node of every level is accepted with that many siblings |
| ProofLengths.LongProofBinds | sdk/merkle-tree/index.ts:201-209 | an accepted proof with surplus siblings proves that what it starts from hashes, along them, to the leaf at the slot its upper bits name; or a collision |
| ProofLengths.AbsentButAccepted | sdk/merkle-tree/index.ts:201-209 | a real commitment that the tree does not hold, with an accepted proof and no collision |
| TreeBinding.RootsBindLists | sdk/merkle-tree/index.ts:99-101 | one root means one list of real commitments, lengths included; or a collision |
| TreeBinding.RootsOfSums | sdk/src/client/STXShield.ts:358-370 | at every depth, no leaves and one leaf have different roots under the hash that adds: a shield synced to the one while the other is live is not bound |
| TreeBinding.WitnessStartsAboveSlot | sdk/merkle-tree/index.ts:164 | whatever the depth, the witness's old root is the node above its slot |
| TreeBinding.WitnessStartsAtRootIffSameBlock | sdk/merkle-tree/index.ts:139-167 | for the given hash that node is the root if and only if the slot's own block looks like the first; with real commitments, if and only if there is room; or a collision |
| TreeBinding.WitnessStartsAtRootIffRoom | sdk/merkle-tree/index.ts:164 | that node is the root, for every hash and tree of n leaves, if and only if n < 2^depth |
| RootsTrees.MerkleTree.Append | sdk/roots/merkle-tree.ts:42-50 | appends one leaf within 2^depth in place, keeping every node equal to that of the full tree and writing only to this tree's own leaf array and level maps; a full tree is refused with nothing written |
| RootsTrees.MerkleTree.RecomputePath | sdk/roots/merkle-tree.ts:96-105 | with parity and floor indexing, rehashing one leaf's ancestors restores every node |
| RootsTrees.MerkleTree.Clone | sdk/roots/merkle-tree.ts:59-64 | a valid tree of the same contents whose leaf array and level maps are all new objects, none shared with the original |
| RootsTrees.MerkleTree.ProjectRoot | sdk/roots/merkle-tree.ts:66-71 | the root appending the same leaves would give, or the error it would give; the appends write in place to a copy, and no field, leaf array or level map of the original is written |
| RootsTrees.MerkleTree.Proof | sdk/roots/merkle-tree.ts:74-94 | for the same leaves, the same path as the other implementation's, bits as 0 and 1 |
| RootsTrees.MerkleTree.GenesisRoot | sdk/roots/merkle-tree.ts:32-35 | the genesis root is the root of the tree without leaves |
| RootsTrees.TreesAgree | sdk/roots/merkle-tree.ts:96-113 | two trees of equal depth and leaves agree on the root and on every node at every level |
| RootsTrees.AppendToBoth | sdk/roots/merkle-tree.ts:42-50 | fed one sequence of appends that fits, both implementations end with equal contents, equal roots and, for the same indices, equal paths |
| Field.FieldRoundTrip | sdk/utilities/crypto.ts:40-47 | a field element survives the way through 32 bytes, which are canonical |
| Field.BytesRoundTrip | sdk/utilities/crypto.ts:40-47 | 32 bytes survive the way through a field element if and only if they are canonical |
| Field.HashesAgree | sdk/merkle-tree/index.ts:76-80 | the second reduction of a node hash changes nothing, so both trees hash alike, to canonical values |
| Hex.BytesToHex | sdk/src/crypto/field.ts:16-20 | the loop writes the two-digit text of every byte |
| Hex.HexToBytes | sdk/src/crypto/field.ts:21-27 | with one prefix stripped and odd lengths padded, the loop reads the bytes back |
| Hex.BytesOfHexOf | sdk/src/crypto/field.ts:16-27 | reading what was written gives the bytes back |
| Hex.HexOfBytesOf | sdk/src/crypto/field.ts:16-27 | writing what was read gives lower-case text of even length back |
| Hex.BytesToBigIsValue | sdk/src/crypto/field.ts:28 | the number read is the big-endian value of the bytes, zero for none |
| Hex.HexDigitsInOrder | sdk/src/crypto/field.ts:16-20 | digits are written 0 to 9, a to f, and read in either case |
| JsMaps.DeleteUndoesSet | sdk/src/notes/index.ts:66-79 | removing what was just added under a new key restores the store, order included |
| JsMaps.SetInPlace | sdk/src/notes/index.ts:66 | setting a key that is there overwrites its entry where it is |
| Notes.NoteStore.UnspentNotes | sdk/src/notes/index.ts:80-82 | exactly the notes not spent, in insertion order |
| Notes.OperationConserves | sdk/src/client/STXShield.ts:345-525 | each completed operation changes each asset's unspent total by its delta: nothing for split and merge, the amount for a shield, minus the note for transfer and withdraw, and for a discovery what is new less the held notes it is the first to report spent |
| Notes.OperationExact | sdk/src/client/STXShield.ts:457-463 | entry by entry: a completed operation flags exactly its inputs, where they are, and appends its outputs in order; everything else stays |
| Notes.RunConserves | sdk/src/client/STXShield.ts:345-525 | the same over every run of completed operations |
| Notes.RevertRestores | sdk/src/client/STXShield.ts:377-390 | a reverted shield leaves the store as it was, order included |
| Notes.MergeConservesIffDistinct | sdk/src/client/STXShield.ts:469-475 | merging conserves if and only if the inputs differ or are worth nothing |
| Notes.MergeWithItself | sdk/src/client/STXShield.ts:469-475 | a note worth 5, merged with itself, leaves a balance of 10 |
| Notes.SpentForGood | sdk/src/notes/index.ts:61-67 | over any run, proper or not, a spent note stays spent through every later add and discovery, unless a reverted shield removes that very commitment |
| Notes.OperationKeepsWellFormed | sdk/src/notes/index.ts:58-79 | every operation keeps each note under its own commitment, once |
| Notes.UnspentIsStored | sdk/src/notes/index.ts:80-82 | what is listed as unspent is held, unspent, under its own commitment |
| Notes.UnspentExactly | sdk/src/notes/index.ts:80-82 | a note is listed if and only if it is stored and not spent |
| Notes.UnspentInOrder | sdk/src/notes/index.ts:80-82 | in the order of the store, each entry as often as it is held |
| Notes.GetAfterAdd | sdk/src/notes/index.ts:61-67 | adding stores that note under its commitment, spent if it or the one before was; other keys keep theirs |
| Notes.AssetFieldBelowModulus | sdk/public-inputs/index.ts:60-73 | an asset's number is that of its digest without the top byte, and is a field element |
| Client.STXShield.SyncTree | sdk/src/client/STXShield.ts:216-227 | tree and index are rebuilt to mirror the chain; too many commitments leave the client unchanged |
| Client.IndexPointsAtLeaf | sdk/src/client/STXShield.ts:219-224 | the index sends a normalised commitment to the last leaf that the chain lists under it |
| Client.IndexKnowsAll | sdk/src/client/STXShield.ts:219-224 | it knows exactly the commitments the chain lists, up to case and prefix |
| Client.STXShield.Membership | sdk/src/client/STXShield.ts:229-238 | succeeds exactly for commitments the chain lists, with a proof of that leaf under the current root |
| Client.STXShield.InsertionFor | sdk/src/client/STXShield.ts:246-255 | the numbers form a transition from the current tree to the tree with the commitment appended |
| Client.STXShield.AppendTwice | sdk/src/client/STXShield.ts:441-447 | membership and two chained append witnesses around two inserts, in consecutive slots, each over the tree the one before left |
| Client.STXShield.Split | sdk/src/client/STXShield.ts:428-466 | when it succeeds and with which error it fails; what it proved, published and stored; on failure the store is untouched |
| Client.STXShield.Transfer | sdk/src/client/STXShield.ts:398-425 | spends the first unspent note of exactly the amount and asset, or fails, with which error, and the store untouched |
| Client.STXShield.Merge | sdk/src/client/STXShield.ts:469-499 | when it succeeds and with which error it fails; both inputs proved under one root; on failure the store is untouched |
| Client.STXShield.Withdraw | sdk/src/client/STXShield.ts:504-525 | the native minimum, the proof under the published root, and the amount net of the fee |
| Client.STXShield.Shield | sdk/src/client/STXShield.ts:345-393 | the optimistic note is kept when the deposit lands and the store is as before when it reverts |
| Client.PickNote | sdk/src/client/STXShield.ts:542-546 | finds the first note of exactly this amount and asset, and fails only when there is none |
| Client.RootTextIsNumber | sdk/src/client/STXShield.ts:237-241 | a published root text denotes exactly the number handed to the prover |
| ClientProperties.SplitIsChained | sdk/src/client/STXShield.ts:438-456 | membership root = current root = first old root; first new root = second old root; second new root = published new root; consecutive slots, the first published |
| ClientProperties.SplitInHashes | sdk/src/client/STXShield.ts:428-466 | proved and published, in terms of the hashes: the nullifier is the hash of the input's commitment number and its spending key, both outputs commit to the amounts asked for under the owner's key, and are stored as such |
| ClientProperties.TransferInHashes | sdk/src/client/STXShield.ts:398-425 | the same for a transfer: the nullifier of the note spent, and a commitment to the amount under the recipient's key |
| ClientProperties.MergeInHashes | sdk/src/client/STXShield.ts:469-499 | the same for a merge: both nullifiers, in order, and a commitment to the sum |
| ClientProperties.WithdrawInHashes | sdk/src/client/STXShield.ts:504-525 | the same for a withdrawal: the nullifier of the note, and its whole amount |
| ClientProperties.ShieldInHashes | sdk/src/client/STXShield.ts:345-393 | the same for a deposit: no nullifier, and a commitment to the amount under the owner's key |
| ClientProperties.NullifierBinds | sdk/src/crypto/commitments.ts:45-46 | notes with one nullifier have one commitment number and one spending key, or exhibit a collision; and a note has one nullifier |
| ClientProperties.CommitmentBinds | sdk/src/crypto/commitments.ts:32-37 | one commitment is to one amount, key, blinding and asset number, or exhibits a collision within one form or between the native and the asset-bound one |
| ClientProperties.TransferIsBound | sdk/src/client/STXShield.ts:404-419 | the published roots, slot and nullifier are those the transfer's proof was built for |
| ClientProperties.MergeIsBound | sdk/src/client/STXShield.ts:476-491 | both memberships and the append start at the published current root; nullifiers in input order |
| ClientProperties.WithdrawIsBound | sdk/src/client/STXShield.ts:510-518 | root, nullifier and amount published are those proved |
| ClientProperties.ShieldBoundIffLive | sdk/src/client/STXShield.ts:358-370 | the published pair is the proved transition if and only if synced and on-chain leaves agree in every slot, for real commitments if and only if the lists are equal; or a collision |
| ClientProperties.NextSyncAgrees | sdk/src/client/STXShield.ts:216-227 | once the chain lists a split's outputs in the published order, the next sync computes the published root |
| ClientProperties.SplitIsProper | sdk/src/client/STXShield.ts:428-463 | what a split does to the store meets the conditions of conservation |
| ClientProperties.MergeIsProper | sdk/src/client/STXShield.ts:469-496 | so does a merge of two different stored notes |
| ClientProperties.TransferSubtracts | sdk/src/client/STXShield.ts:398-424 | the sender's balance of the asset drops by exactly the amount sent, no other balance moves |
| ClientProperties.ShieldAdds | sdk/src/client/STXShield.ts:345-392 | a landed deposit adds exactly its amount to its asset's balance; reverted, it leaves the store as it was |
| ClientProperties.WithdrawSubtracts | sdk/src/client/STXShield.ts:504-519 | a withdrawal lowers the balance of its note's asset by exactly the published amount, no other |
| ClientProperties.FoundIffPrefixed | sdk/src/client/STXShield.ts:221-232 | a commitment text is found if and only if it has a prefix of either case and the chain lists a text of the same number |
| ClientProperties.UnprefixedIsLost | sdk/src/client/STXShield.ts:221-232 | a listed commitment is found by its prefixed text and not by its bare digits |
| PublicInputs.FeUint | sdk/public-inputs/index.ts:47-58 | the early-stopping byte loop gives the big-endian bytes, or the error for a negative or oversized number |
| PublicInputs.FeUintExact | sdk/public-inputs/index.ts:46-58 | accepts exactly 0 to 2^256 - 1, in 32 bytes of that value, injectively |
| PublicInputs.ConcatAll | sdk/public-inputs/index.ts:36-44 | copying into the pre-sized buffer yields the concatenation |
| PublicInputs.ConcatInjective | sdk/public-inputs/index.ts:36-44 | concatenations of 32-byte fields are equal only for equal field lists |
| PublicInputs.PreimageInjective | sdk/public-inputs/index.ts:87-192 | across all ten encoders, equal hashed bytes if and only if equal operation, family and fields, principals up to their field element |
| PublicInputs.PreimageLayout | sdk/public-inputs/sip10.ts:36-150 | which number, byte field or principal stands at which 32-byte offset, operation by operation, with the asset just before the version and nothing after it |
| PublicInputs.EncodesExactlyEncodable | sdk/public-inputs/sip10.ts:36-150 | encoding succeeds exactly when every byte field has 32 bytes and every number fits |
| PublicInputs.RefusedForFirstMisfit | sdk/public-inputs/index.ts:46-58 | what does not fit is refused for its first field, in order, that does not |
| PublicInputs.StatementHashBinds | sdk/public-inputs/index.ts:81 | a corollary of `PreimageInjective`: one published hash for two statements means one statement, or two different preimages of the hash |
| Fees.WithdrawalNet | sdk/fees/index.ts:31-39 | returns exactly when the fee is below the amount; then net is positive and net plus fee is the amount |
| Fees.FeeIsFlooredShare | sdk/fees/index.ts:20-28 | the fee is the flat part and the largest whole share not above rate times amount over 10000, at the lower of rate and ceiling; nothing if disabled |
| Fees.NegativeShare | sdk/fees/index.ts:26-27 | a negative amount has its opposite's share, negated |
| Fees.RoundTwice | sdk/fees/index.ts:26-27 | rounding two parts down separately loses at most one unit |
| Fees.CuttingPercentFee | sdk/fees/index.ts:26-27 | cutting into k parts never raises the percentage fee and lowers it by at most k - 1 |
| Fees.CuttingFee | sdk/fees/index.ts:20-28 | the whole fee of k parts against that of the sum: the flat fee k times, the percentage within k - 1 |
| Fees.CuttingNeverPays | sdk/fees/index.ts:20-28 | with a flat fee of at least one unit no cut saves anything |
| Queue.MemoryQueue.DrainLoop | services/relayer/queue/index.ts:80-105 | up to its next await the loop hands over the first known job or stops draining |
| Queue.MemoryQueue.OnThrew | services/relayer/queue/index.ts:86-100 | a job whose handler threw is counted, and is on its way back to the list or, its attempts used up, to the dead ones; what it then reports is `Queue.EveryJobReports` |
| Queue.MemoryQueue.DeadLetter | services/relayer/queue/index.ts:50-52 | the dead jobs in order of burial |
| Queue.StepKeepsInv | services/relayer/queue/index.ts:39-111 | every step keeps: one place per job, first in first out, no lost wakeup, attempts equal to failed hand-overs |
| Queue.QueueSafety | services/relayer/queue/index.ts:39-111 | over every interleaving that invariant holds and no job is handed over more than max(1, maxAttempts) times, a dead one exactly that often |
| Queue.EveryJobReports | services/relayer/queue/index.ts:76-106 | over every run that leaves a job unpatched: from its burial on it is failed with the message of its last throw, until then it is queued with no error |
| Queue.DeadLettersReport | services/relayer/queue/index.ts:50-52 | so each dead letter is failed, with its attempts used up and its last message |
| Queue.ThrowOverwrites | services/relayer/queue/index.ts:86-100 | whatever was patched before, a throw queues its job again with its other reports kept, or fails it with the message; no other job changes |
| Queue.PatchSetsNamed | services/relayer/queue/index.ts:66-69 | a patch sets the fields it names of its own job and nothing else anywhere |
| Queue.HandlerComesFirst | services/relayer/queue/index.ts:71-74 | nothing is handed over before there is a handler; exactly the jobs added are known |
| Queue.DrainTerminates | services/relayer/queue/index.ts:76-106 | handler outcomes plus remaining attempts never exceed max(1, maxAttempts) per job added, so draining ends |
| Queue.AtRestAllSettled | services/relayer/queue/index.ts:76-106 | an open queue with a handler at rest has every job completed or dead |
| Queue.ClosedStaysQuiet | services/relayer/queue/index.ts:108-110 | from a close on, over every further run, nothing more is handed over |
| TransactionManagers.TransactionManager.OnAccepted | services/relayer/transaction-manager/index.ts:233-236 | the counter moves on and the signed transaction is retained |
| TransactionManagers.TransactionManager.OnRefused | services/relayer/transaction-manager/index.ts:222-232 | whatever the reason for a refusal, the counter is dropped and the submission rejected |
| TransactionManagers.StepKeepsInv | services/relayer/transaction-manager/index.ts:180-238 | every step keeps order of turns, the held nonce, and the counter's agreement with the history |
| TransactionManagers.NonceSafety | services/relayer/transaction-manager/index.ts:179-238 | over every interleaving submissions never overlap, are accepted in order of submission, and accepted nonces between resyncs are consecutive |
| TransactionManagers.RefusalForcesFetch | services/relayer/transaction-manager/index.ts:222-232 | after a refusal of either kind, over every continuation, nothing is accepted before a nonce is fetched again, and until then whatever starts has to fetch |
| TransactionManagers.ThrowKeepsNonce | services/relayer/transaction-manager/index.ts:205-221 | a signature or broadcast that threw leaves the counter: the next submission signs that very nonce, without a fetch |
| TransactionManagers.AcceptedMovesOn | services/relayer/transaction-manager/index.ts:233-236 | after an accepted broadcast the next submission signs the nonce after it |
| TransactionManagers.ToldItsOutcome | services/relayer/transaction-manager/index.ts:222-237 | every settled submission was told the outcome of an event of its own |
| TransactionManagers.NeverWedged | services/relayer/transaction-manager/index.ts:180-184 | while anything is unsettled the first such submission is under way or may start, whatever failed before |
| TransactionManagers.NoncesIncreaseIffFetchesAhead | services/relayer/transaction-manager/index.ts:205-238 | accepted nonces strictly increase over the whole run if and only if every fetched nonce put to use exceeds those accepted before |
| TransactionManagers.NoncesCanFallBack | services/relayer/transaction-manager/index.ts:205-238 | a run of 14 events that accepts nonce 5, resyncs to 3 and accepts 3 |
| TransactionManagers.RememberKeepsNewest | services/relayer/transaction-manager/index.ts:171-177 | the newest is always retained; the oldest is given up when and only when the limit of 256 is reached and its id is not empty, and nothing else ever is; at most 256 are retained if and only if they leave room or the oldest id is not empty |
| TransactionManagers.EmptyIdRetainsAll | services/relayer/transaction-manager/index.ts:171-177 | n different ids of which the first is empty leave n retained, for every n |
| RateLimiters.FeeManager.AssertWithinRate | services/relayer/fee-manager/index.ts:55-64 | one request's effect on its client's log; other clients are untouched |
| RateLimiters.LogMatchesHistory | services/relayer/fee-manager/index.ts:57-63 | the pruned log answers every present and future window as the full history would |
| RateLimiters.LogAdmitsExactly | services/relayer/fee-manager/index.ts:58-61 | admits exactly when fewer than the maximum were admitted in the last window |
| RateLimiters.LogBound | services/relayer/fee-manager/index.ts:53-64 | no stretch of one window length holds more than the maximum |
| RateLimiters.FixedWindowLimiter.Allow | services/relayer/api/index.ts:46-56 | one request's effect on its client's window; other clients are untouched |
| RateLimiters.WindowBooksHold | services/relayer/api/index.ts:44-57 | a window's counter is the number of admissions since its start, never over the cap |
| RateLimiters.WindowAdmitsExactly | services/relayer/api/index.ts:46-56 | admits exactly when the client is new, its window is over, or fewer than the maximum were admitted since it began |
| RateLimiters.WindowBound | services/relayer/api/index.ts:44-57 | no interval of one window length sees more than 2 max(1, max) - 1 admissions |
| RateLimiters.WindowBoundReached | services/relayer/api/index.ts:44-57 | for every max >= 1 and window length a run reaches that bound |
| RateLimiters.TokenBucketLimiter.Allow | zk/attestations/committee/server.ts:79-92 | one request's effect on its client's bucket; other clients are untouched |
| RateLimiters.BucketBound | zk/attestations/committee/server.ts:79-92 | at most rps + rps T admissions in any T seconds |
| RateLimiters.BucketReadmits | zk/attestations/committee/server.ts:79-92 | a client that has waited long enough for a whole token since its last request is admitted, whatever happened before |
| RateLimiters.BucketLevel | zk/attestations/committee/server.ts:79-92 | a request finds the old level plus the refill, or a full bucket if that is less; it is admitted exactly if that makes a token, and costs one |
| RateLimiters.FirstRequest | zk/attestations/committee/server.ts:81 | a new client starts with a full bucket |
| RateLimiters.SlowBucketRefusesAll | zk/attestations/committee/server.ts:81-88 | below one request per second nothing is ever admitted; from one on, the first request is |
| Encryption.SerializeRoundTrip | sdk/encryption/index.ts:94-122 | a payload reads back as itself, a zero asset id as none |
| Encryption.EncodeEncryptedNote | sdk/encryption/index.ts:169-175 | key, nonce and ciphertext at their fixed offsets |
| Encryption.WireRoundTrip | sdk/encryption/index.ts:169-184 | the wire form decodes to the same note if and only if there is a ciphertext |
| Encryption.DecryptsOwn | sdk/encryption/index.ts:129-166 | a note sealed for a viewing key opens with its secret to the same payload |
| Encryption.OpensExactly | sdk/encryption/index.ts:150-166 | a note opens to a payload if and only if its ciphertext opens, under the agreed key, to a version-1 record with those numbers under their letters |
| Encryption.WireFormat | sdk/encryption/index.ts:129-175 | what goes over the wire, byte by byte: ephemeral key, nonce derived from it, and the sealed record |
| Encryption.PrefixesStripped | sdk/src/client/STXShield.ts:300 | ciphertext text with none, one or two prefixes reads as the same bytes |
| Discovery.DiscoverNotes | sdk/src/notes/index.ts:93-136 | every record of the feed is tried, in order, and exactly the ones that pass are returned |
| Discovery.FoundInFeed | sdk/src/notes/index.ts:103-134 | no other record, malformed or foreign, keeps a note from being found |
| Discovery.RecordPassesIff | sdk/src/notes/index.ts:103-133 | a record passes as a note if and only if its ciphertext opens to that amount and blinding, the asset is native or in the list, and the listed commitment is the hash of them under our own key |
| Discovery.FeedExact | sdk/src/notes/index.ts:93-136 | a note is returned if and only if some record of the feed passes as that note |
| Discovery.FeedInOrder | sdk/src/notes/index.ts:102-135 | in the order of the feed, at most one for each record |
| Discovery.ByIdExact | sdk/src/notes/index.ts:101 | an id stands for the last asset listed under it, and for none exactly when none is |
| Discovery.SendThenDiscover | sdk/src/client/STXShield.ts:287-313 | a stored note is found by its owner with amount, blinding, asset, slot and commitment if and only if its asset is native or known |
| Discovery.AssetZeroIsLost | sdk/encryption/index.ts:104-105 | a SIP-10 note of asset uid 0 is found if and only if its asset-bound commitment is the native one |
| Discovery.UnprefixedRecordCountsTwice | sdk/src/notes/index.ts:132-138 | finding a held note again changes no balance if its record is prefixed, and counts it twice if not |
| Discovery.AddressRoundTrip | sdk/src/notes/index.ts:31-44 | a shield address decodes to what was encoded |
| Discovery.AddressFormat | sdk/src/notes/index.ts:35-44 | a text decodes to an address if and only if it is the tag, 64 digits for each coordinate and 64 for the viewing key, in this order |
| Discovery.StoredTextFormat | sdk/src/client/STXShield.ts:297-300 | a stored ciphertext is the hexadecimal text of its wire bytes, with the prefix twice |
| Discovery.ReceiverReads | sdk/src/client/STXShield.ts:287-300 | what a receiver reads from a stored note is everything the sender put in, each number in its own place |
| Discovery.TransferDelivered | sdk/src/client/STXShield.ts:421-423 | what is made for and encrypted to a shared address is found by its owner, with the owner's own spending key |
| NoteScanners.NoteScanner.Sync | sdk/note-discovery/index.ts:76-101 | a sync scans what the chain returned and refreshes spent flags; a tree that fills up stops it part-way with what was scanned kept |
| NoteScanners.NoteScanner.RefreshSpent | sdk/note-discovery/index.ts:115-122 | every entry is the old one, spent if it was or if its own nullifier is on chain, and nothing else changed |
| NoteScanners.RefreshExact | sdk/note-discovery/index.ts:115-122 | the same of the map a refresh makes, place by place |
| NoteScanners.RefreshedUnder | sdk/note-discovery/index.ts:115-122 | and key by key |
| NoteScanners.UnspentExactly | sdk/note-discovery/index.ts:129-131 | a note is listed if and only if it is owned and not spent |
| NoteScanners.UnspentInOrder | sdk/note-discovery/index.ts:129-131 | in the order of the map |
| NoteScanners.NoteScanner.SelectNotes | sdk/note-discovery/index.ts:133-158 | picks unspent owned notes, and succeeds whenever the balance covers the amount |
| NoteScanners.NoteScanner.ProofFor | sdk/note-discovery/index.ts:138-142 | proofs exactly for owned commitments, at the observed position |
| NoteScanners.ScanAfterRefresh | sdk/note-discovery/index.ts:76-122 | an early refresh with fewer nullifiers leaves no trace in a later one |
| NoteScanners.ChunkIndependent | sdk/note-discovery/index.ts:75-101 | over a growing chain any sequence of incremental syncs ends in the leaves, owned map (order included) and position of one full sync; in its spent flags too if and only if the tree has room or no note of ours, spent by the last sync that fitted, is the last under its commitment; and after a refresh always |
| NoteScanners.OwnedExactly | sdk/note-discovery/index.ts:76-122 | after any syncs the tree had room for: under each commitment the payload and position of the last note published to us, flagged if and only if its nullifier was on chain by the last sync |
| NoteScanners.FlagsCanLag | sdk/note-discovery/index.ts:75-101 | a growing chain of 2^20 + 1 notes and two syncs of it that end differently from one |
| NoteScanners.OwnedProofVerifies | sdk/note-discovery/index.ts:137-142 | after any syncs, also past the tree's capacity, the proof for an owned commitment is accepted, for that leaf at that index |
| NoteScanners.LargestFirst | sdk/note-discovery/index.ts:144-146 | the first notes of a descending list are worth at least any equally many |
| NoteScanners.SortDescending | sdk/note-discovery/index.ts:146 | a descending permutation of the notes |
| NoteScanners.Select | sdk/note-discovery/index.ts:145-158 | fails exactly when the amount is positive and the positive notes together fall short of it; otherwise covers the amount with notes of the list, and no fewer of them would |
| NoteScanners.TotalIsPositiveIffNoDebt | sdk/note-discovery/index.ts:133-156 | the balance never exceeds what the positive notes are worth, and equals it if and only if no note is negative |
| NoteScanners.DebtIsIgnored | sdk/note-discovery/index.ts:145-158 | with notes worth 10 and -5 the balance is 5, and 8 is still covered |

## Left out

- Clarity contracts and Noir circuits: pool balances, nullifier sets and the circuits' own constraints belong to them.
- Poseidon, keccak, SHA-256, X25519, XChaCha20-Poly1305 and Grumpkin: parameters; only symmetry of key agreement and decryption after encryption are assumed, where named.
- Proof generation, zkVerify, HTTP, Redis, the web framework and request validation: each call's outcome is a parameter.
- The BullMQ driver, `waitForConfirmation`'s polling, `buildCall` and metrics: no state of their own beyond what is modelled.
- Root publication to both verifiers: the source swallows its errors, so there is no guarantee to state.
- Frontend, deployment scripts, migrations, logging, committee signing and the planning helpers.
- Amounts given as floating-point numbers: base units are integers here.
- Configuration errors (no signer, engine or recipient): the client's parameters are taken to be there.
- Randomness: new notes and job ids are taken to be fresh, blindings are parameters.
- Two operations of one client at a time: `shield`, `transfer` and `merge` await between witness and insert, and their results are for operations that run one after another.
- Marking a note spent in the vault and on the API: only the in-memory store is modelled.
- The JSON text of a payload: it is a record of decimal and hexadecimal texts; numerals other than decimal ones, with or without a minus sign, are read as malformed.
- Text that is not hexadecimal where the source expects it (`parseInt` would yield NaN and so a zero byte): commitments from the chain are taken to be 32 bytes of hexadecimal, a ciphertext that is not is a record that does not open.
- Owner commitments, metadata and the token parameter of a relayed request: passed through unchanged.
- The public-input vectors and their hash for test use: they repeat the field lists of the encoders.
- Client.STXShield.SyncTree: the commitments the chain lists are required to be 32 bytes of hexadecimal text.
- Client.STXShield.Shield: the live root is the text the registry answered; an unreadable answer is not modelled.
- NoteScanners.SortDescending: which of several equal amounts comes first is not stated, since the source's comparison does not fix it.
- NoteScanners.ChunkIndependent: for a tree that starts empty, a chain with consecutive leaf indices, and growing nullifier sets.
- NoteScanners.NoteScanner.RefreshSpent: notes are values, so a note handed out earlier does not change when its entry is flagged, as the source's shared object does.
- Negative amounts: the hashes are any functions into field elements, there too; what the hash library makes of a negative number is not part of this model.
- Hex.HexToBytes: requires hexadecimal text after the prefix.
- RootsTrees.MerkleTree.Clone: the outer array of level maps is a value, since the source only ever replaces it whole; the level maps and the leaf array are objects.
- RateLimiters.BucketBound: over exact reals, for a clock in whole milliseconds that does not run backwards.
