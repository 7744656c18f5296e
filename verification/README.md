# Verified models of the utxopia bridge

utxopia bridges Bitcoin into a shielded pool on Solana. This project models the parts of it where a wrong byte or a
wrong counter would matter most, and proves what they compute:

- **Commitment trees.** The backend's incremental Merkle tree, the on-chain tree account with its ring of 100 recent
  roots, the dense tree of the end-to-end scripts, and the openings that scripts compute from the frontier alone. All are
  proved against one definition, the complete binary tree padded with empty leaves (`MerkleSpec.dfy`). The hash is a
  parameter and may fail, as `poseidon2_hash` can.
- **Witness stripping.** Two independent strippers that turn a segwit transaction (BIP 144) into the serialization that
  its id hashes (BIP 141), on arbitrary byte strings and on serialized transactions.
- **Chunked upload.** The upload of a transaction into a ChadBuffer account in concurrent batches with retries, as a
  state machine, and the sequential uploader.
- **Baby Jubjub arithmetic.** The extended-Euclid inverse, point addition and double-and-add, up to the group laws of the
  curve (EIP-2494): closure, completeness, identity, inverses, commutativity and associativity.
- **Redemptions.** The on-chain handlers for requesting, marking, cancelling and completing a redemption, with the
  deposit's bookkeeping, as transitions of the accounts they touch; invariants, conservation and the backing of reserved
  Bitcoin over every run.
- **Verification-key pre-images.** The two serializers whose output is hashed into a key's identity.

Code that updates objects in place is a class (`MerkleTree`, `CommitmentTree`, `Program`), a source loop is a loop with
invariants, and each is proved against a function on values that the lemmas then reason about. A Solana handler that
fails is rolled back by the runtime, so `Program` keeps its writes aside until the instruction succeeds, and
`CommitmentTree.Transact` restores the account.

## Where the code and its documentation differ

The model follows the code. Each of these is stated as a theorem:

- The lifecycle test expects the burned total to grow by the redeemed amount. The handler burns payment plus miner fee, so
  this holds over a run exactly when every completion pays in full (`RunBalancesIff`, `ServiceFeeBurnsLess`).
- The lifecycle test expects a marked request to refuse cancellation. The handler allows it once a timeout has passed, and
  measures the timeout from the low 32 bits of the marking slot (`EveryHistoryIsLegal`, `TimeoutIsKeptIff`). The UTXOs
  reserved for such a request stay reserved (`CancellationStrandsReservation`, `RunBackedIff`).
- The completion handler's status check admits pending requests, but over whole runs completion comes only after marking
  (`EveryHistoryIsLegal`).
- A cancellation returns the amount to the pool's shielded total but not to the token's (`RunConserves`,
  `CancelUndoesRequest`).
- A script comment offers the frontier-only opening for a leaf at a given index. It is the true opening for the last leaf
  after every on-chain history, and for other leaves only in degenerate trees (`LastLeafOpensAfterEveryHistory`,
  `FrontierOpensIff`).
- The account that is said to accept the last 100 roots also accepts the zero digest until 100 leaves are in
  (`CommitmentTree.IsValidRoot`).
- The backend's padding loop in the opening rebuild never runs, and the dense tree's fallback to a zero digest never
  fires (`ProofByIndex`, `FallbackNeverFires`).

## Model

| member | source | states |
|---|---|---|
| `MerkleSpec.NodeDependsOnLeavesBelow` | backend/src/merkle_tree.rs:147-175 | The digest of a node is determined by the leaves below it. |
| `MerkleSpec.RootOfThree` | backend/src/merkle_tree.rs:147-175 | The order of hashing, on three leaves: left before right, and 0 for the missing leaf. |
| `MerkleSpec.EmptyNodeIsZero` | backend/src/merkle_tree.rs:17-55 | Entry k of the zero table is the digest of every node of height k of the empty tree. |
| `MerkleSpec.NodePastEndIsZero` | backend/src/merkle_tree.rs:147-175 | Every node to the right of the last leaf's ancestor has the zero-table digest, which is what insertion pairs a left child with. |
| `MerkleSpec.NodeBeforeAppendUnchanged` | backend/src/merkle_tree.rs:147-175 | Appending a leaf changes no node to the left of the new path, which is why frontier entries stay usable. |
| `MerkleSpec.PathIsDefined` | backend/src/merkle_tree.rs:192-246 | If the root can be hashed, so can every node and every sibling on the path of every slot. |
| `MerklePath.VerifyMerkleProof` | contracts/scripts/test-user-flows.ts:248-258 | Accepts exactly when folding the siblings along the bits gives the expected root; fails exactly when a hash on the way fails. |
| `MerklePath.FoldReachesAncestor` | contracts/scripts/test-user-flows.ts:248-258 | After k rounds of folding a true path the running digest is the slot's ancestor k levels up. |
| `MerklePath.OpeningFoldsToRoot` | backend/src/merkle_tree.rs:192-246 | Completeness: the opening of every slot of a tree with a root, empty slots included, folds to that root. |
| `MerkleTreeModel.Climb` | backend/src/merkle_tree.rs:147-175 | The level loop returns the root of the grown padded tree, or fails exactly when that root cannot be hashed, and every frontier slot afterwards is given, also after a failure. |
| `MerkleTreeModel.FrontierAfterSuccess` | backend/src/merkle_tree.rs:147-175 | After a successful insertion every frontier slot holds the left node of the pair that the new path goes through, whatever earlier failures left behind; so it serves the next index and the leaf just inserted. |
| `MerkleTreeModel.MerkleTree.constructor` | backend/src/merkle_tree.rs:127-134 | A new tree is valid and its root is the root of the empty padded tree. |
| `MerkleTreeModel.MerkleTree.AddLeaf` | backend/src/merkle_tree.rs:147-175 | Success exactly when there is room and the grown tree has a root, at the next index; TreeFull exactly when the tree is full; errors leave leaves, root and counter alone; the frontier is given in every case. |
| `MerkleTreeModel.ParentLevel` | backend/src/merkle_tree.rs:218-228 | The parents of a level with a missing right child taken as empty; fails exactly when some pair cannot be hashed. |
| `MerkleTreeModel.PadTo` | backend/src/merkle_tree.rs:230-234 | The padding loop extends a level to the needed index with empty-subtree digests only. |
| `MerkleTreeModel.ProofByIndex` | backend/src/merkle_tree.rs:192-246 | The sparse rebuild returns the siblings and bits of the padded tree, exactly for indices in range of a tree with a root; its padding loop never runs. |
| `MerkleTreeModel.MerkleTree.GetProofByIndex` | backend/src/merkle_tree.rs:192-246 | On every reachable tree an opening is returned exactly for indices in range, with that index, that leaf, the current root and the bits of the index, and it folds back to the current root. |
| `MerkleTreeModel.MerkleTree.GetProof` | backend/src/merkle_tree.rs:178-189 | Nothing exactly when the commitment is not among the leaves; otherwise the opening of its first occurrence, which folds to the current root. |
| `MerkleTreeModel.BuildFromLeaves` | backend/src/merkle_tree.rs:137-143 | Succeeds exactly when every prefix of the leaves has a root and they fit, with exactly these leaves; otherwise reports the error of the first insertion that fails. |
| `MerkleTreeModel.AnswersAreRight` | backend/src/merkle_tree.rs:147-246 | What each answer means, on any leaves with a root: who can be inserted where, which openings exist and open what, root and size. |
| `MerkleTreeModel.Run` | backend/src/merkle_tree.rs:147-246 | Every sequence of insertions, openings and reads, rejected insertions included, is answered as the list of accepted leaves alone dictates, and every answer is right for the leaves accepted before it. |
| `MerkleTreeModel.RebuiltTreeIsIndistinguishable` | backend/src/merkle_tree.rs:137-143 | After any history a tree can be rebuilt from its leaves, and no later sequence of calls tells the two apart. |
| `DenseTree.GetZeroHashes` | scripts/e2e/shared.ts:117-124 | Returns the zero table, and fails exactly when no zero table exists. |
| `DenseTree.ZeroTableIsUnique` | backend/src/merkle_tree.rs:285-297 | A hash has at most one zero table, so tables built independently agree. |
| `DenseTree.FallbackNeverFires` | scripts/e2e/shared.ts:130-144 | With no more leaves than slots every layer has a power-of-two length, so a missing right child never occurs. |
| `DenseTree.BuildMerkleTree` | scripts/e2e/shared.ts:130-144 | Every layer holds the nodes of the padded tree; the build fails exactly when a top node cannot be hashed. |
| `DenseTree.GetProof` | scripts/e2e/shared.ts:146-157 | The siblings and bits read from the layers are those of the padded tree, for any slot. |
| `DenseTree.BothBuildersAgree` | scripts/e2e/shared.ts:126-159 | Whenever the incremental tree can be built, the dense one can too, and root and every opening coincide. |
| `DenseTree.DenseMaySucceedAlone` | scripts/e2e/shared.ts:130-144 | The converse fails: a hash for which the dense build works and insertion one by one does not. |
| `FrontierProof.GetMerkleProofFromFrontier` | contracts/scripts/test-joinsplit-proof.ts:266-288 | Sibling and bit lists from the frontier: the zero digest under a 0 bit and the frontier entry under a 1 bit. |
| `FrontierProof.ComputeMerkleProof` | contracts/scripts/test-e2e-onchain.ts:232-265 | The root computed along the way is the fold of the siblings and bits returned. |
| `FrontierProof.InsertThenOpen` | contracts/scripts/test-e2e-onchain.ts:232-265 | Directly after a successful insertion the frontier-only opening is that of the full tree and folds to its root. |
| `FrontierProof.FrontierOpensIff` | contracts/scripts/test-e2e-onchain.ts:225-265 | For every leaf of the tree, not only the last: under a collision-free hash the frontier gives its true opening exactly when all later leaves are empty, and so are its left neighbours at levels where the last path runs elsewhere. |
| `FrontierProof.FrontierOpensOnlyLast` | contracts/scripts/test-joinsplit-proof.ts:266-288 | When the last leaf is not empty, the frontier opens that leaf and no other. |
| `FrontierProof.OddOrFullTreeOpens` | backend/src/merkle_tree.rs:147-175 | In the backend object, rejected insertions notwithstanding, the frontier opens the last leaf whenever the size is odd or the tree is full. |
| `FrontierProof.StaleFrontier` | backend/src/merkle_tree.rs:147-175 | For every other size there is a backend object whose private frontier has gone stale for the last leaf, because the slot is written before the hash can fail. |
| `MerkleBinding.RootBinds` | backend/src/merkle_tree.rs:147-175 | Under a collision-free hash two leaf lists have the same root exactly when they are equal up to trailing empty leaves. |
| `MerkleBinding.FoldBinds` | contracts/scripts/test-user-flows.ts:248-258 | Two openings along the same bits that reach the same digest are the same opening. |
| `MerkleBinding.AcceptedExactlyWhenMember` | contracts/scripts/test-user-flows.ts:248-258 | Soundness and completeness: a fold along the bits of a slot reaches the root exactly for that slot's leaf and siblings. |
| `CommitmentTreeModel.CommitmentTree.constructor` | contracts/programs/utxopia/src/state/commitment_tree.rs:128-141 | A fresh account is valid, with the empty tree's root and an unused ring. |
| `CommitmentTreeModel.CommitmentTree.InsertLeaf` | contracts/programs/utxopia/src/state/commitment_tree.rs:204-233 | The on-chain insertion succeeds exactly when the backend's does on the same leaves, and then keeps ring and frontier; on an error everything but the frontier is as before. |
| `CommitmentTreeModel.CommitmentTree.Transact` | contracts/programs/utxopia/src/instructions/transact.rs:350-356 | An instruction inserts all its leaves or, when one of them fails, leaves the whole account as it was; it succeeds exactly when each leaf can follow the ones before. |
| `CommitmentTreeModel.CommitmentTree.OpenLast` | contracts/scripts/test-joinsplit-proof.ts:745-760 | The opening computed from the account alone is that of the full tree and folds to the current root. |
| `CommitmentTreeModel.LastLeafOpensAfterEveryHistory` | contracts/scripts/test-joinsplit-proof.ts:745-760 | After every sequence of instructions, failed ones included, the account holds the leaves of the successful ones and its frontier opens the last of them to the current root. |
| `CommitmentTreeModel.RingAdvances` | contracts/programs/utxopia/src/state/commitment_tree.rs:179-184 | Overwriting one slot moves the window of remembered roots by exactly one insertion. |
| `CommitmentTreeModel.CommitmentTree.IsValidRoot` | contracts/programs/utxopia/src/state/commitment_tree.rs:162-176 | The accepted roots are exactly the current one, those before each of the last 100 insertions, and the zero digest while fewer than 100 leaves are in. |
| `BitcoinTx.LERoundTrip` | scripts/verify-deposits.ts:66-105 | Little-endian 16- and 32-bit fields read back as written. |
| `BitcoinTx.CompactSizeBytes` | scripts/verify-deposits.ts:66-105 | CompactSize at the boundaries of its forms, byte by byte. |
| `BitcoinTx.ExampleBytes` | contracts/scripts/regtest-helpers.ts:275-346 | One transaction with an input, an output and a two-item witness, byte by byte in both serializations. |
| `StripWitnessModel.StripWitness` | scripts/verify-deposits.ts:66-105 | The stripper's loops compute the specification on every byte string, truncated and malformed ones included. |
| `StripWitnessModel.ReadsVarInt` | scripts/verify-deposits.ts:66-105 | Reading a CompactSize undoes its shortest encoding. |
| `StripWitnessModel.CopiesCore` | scripts/verify-deposits.ts:66-105 | Copying with re-encoded counts reproduces inputs and outputs of any transaction byte for byte, at any offset. |
| `StripWitnessModel.StripsSegwitWithTail` | scripts/verify-deposits.ts:66-105 | On a witness serialization with any bytes appended, the result is the legacy form with the last four bytes as lock time. |
| `StripWitnessModel.StripsToLegacy` | scripts/verify-deposits.ts:66-105 | Stripping the witness serialization of any transaction gives the serialization that its id hashes. |
| `StripWitnessModel.MarkerInLegacy` | scripts/verify-deposits.ts:66-105 | A legacy serialization reads as marked exactly when it has no input and one output. |
| `StripWitnessDataModel.StripWitnessData` | contracts/scripts/regtest-helpers.ts:275-346 | The slicing stripper's loops compute the specification on every byte string. |
| `StripWitnessDataModel.StripsDataToLegacy` | contracts/scripts/regtest-helpers.ts:275-346 | On a witness serialization with any bytes appended, the result is the legacy form and the appended bytes are ignored. |
| `StripWitnessDataModel.StrippersAgree` | contracts/scripts/regtest-helpers.ts:275-346 | Both strippers give the legacy form of every transaction; with bytes appended they agree exactly when the last four repeat the lock time. |
| `StripWitnessDataModel.DataPassesThroughIff` | contracts/scripts/regtest-helpers.ts:275-346 | The slicing stripper returns a byte string unchanged exactly when it has no marker. |
| `StripWitnessDataModel.MarkedLegacyIff` | scripts/verify-deposits.ts:66-105 | A legacy serialization that reads as marked survives re-encoding exactly when its bytes, read again from the marker on, start with no input and the same single output. |
| `StripWitnessDataModel.LegacyIsUnchanged` | contracts/scripts/regtest-helpers.ts:275-346 | Exactly which legacy serializations pass through: for the slicing stripper all but those with no input and one output, for the re-encoding one also those of that shape that repeat themselves after the marker. |
| `StripWitnessDataModel.StrippingIsIdempotent` | contracts/scripts/regtest-helpers.ts:275-346 | Stripping twice is stripping once, exactly under the same conditions. |
| `StripWitnessDataModel.ExceptionalShapes` | scripts/verify-deposits.ts:66-105 | Both cases occur: one transaction of that shape is changed and another repeats itself. |
| `StripWitnessDataModel.SixtyFourBitLengthsDiffer` | contracts/scripts/regtest-helpers.ts:275-346 | On a 64-bit count one stripper reports an error and the other skips eight bytes and keeps the low four as the count. |
| `StripWitnessDataModel.TruncatedInputs` | scripts/verify-deposits.ts:66-105 | On truncated inputs: the errors of both strippers, and a script cut short, which one fills with zeros and the other leaves short. |
| `StripWitnessDataModel.LegacyIsInjective` | scripts/verify-deposits.ts:66-105 | A legacy serialization determines version, inputs, outputs and lock time. |
| `StripWitnessDataModel.StrippingForgetsExactlyTheWitness` | scripts/verify-deposits.ts:66-105 | Two transactions strip to the same bytes exactly when they differ at most in their witnesses. |
| `BufferUpload.BuildChunks` | contracts/scripts/test-e2e-onchain.ts:426-436 | The loop builds the chunk list of the payload after the first chunk. |
| `BufferUpload.ChunksAreSlices` | contracts/scripts/test-e2e-onchain.ts:426-436 | Each chunk is a slice of the payload at its own offset, of 950 bytes or, at the end, fewer. |
| `BufferUpload.ChunksCover` | contracts/scripts/test-e2e-onchain.ts:426-436 | Every payload byte after the first chunk lies in some chunk. |
| `BufferUpload.OffsetSurvivesEncoding` | contracts/scripts/test-e2e-onchain.ts:330-353 | The three offset bytes of a write instruction carry the offset exactly when it is below 2^24. |
| `BufferUpload.WriteIxLayout` | contracts/scripts/test-e2e-onchain.ts:330-353 | A write instruction is 2, the low three little-endian bytes of the offset, and the data. |
| `BufferUpload.Created` | contracts/scripts/test-e2e-onchain.ts:370-425 | Creation with the CREATE instruction leaves authority, the first 800 bytes and zeros. |
| `BufferUpload.EventsLand` | contracts/scripts/test-e2e-onchain.ts:438-476 | Byte by byte: exactly the events that land put their chunk in place, the others leave the account alone. |
| `BufferUpload.LandingEffect` | contracts/scripts/test-e2e-onchain.ts:330-353 | The program, which writes only on instruction 2, puts a landed chunk in its own range and changes nothing else. |
| `BufferUpload.StepKeepsBuffer` | contracts/scripts/test-e2e-onchain.ts:438-476 | No event, a late landing of a failed attempt included, spoils a byte that is already right or writes a wrong one. |
| `BufferUpload.EveryRunIsScheduled` | contracts/scripts/test-e2e-onchain.ts:438-476 | In every run a chunk gets at most three attempts and no chunk starts before all earlier batches are done. |
| `BufferUpload.EveryRunIsSafe` | contracts/scripts/test-e2e-onchain.ts:438-476 | In every reachable state, header, first chunk and every confirmed chunk are final, and every other byte is final or still zero. |
| `BufferUpload.ResolvedUploadIsExact` | contracts/scripts/test-e2e-onchain.ts:370-481 | Whenever every batch resolves, in whatever order writes landed or were retried, the account holds exactly authority and payload. |
| `BufferUpload.OversizedUploadIsNeverExact` | contracts/scripts/test-e2e-onchain.ts:330-353 | Past the size limit no run writes the last byte, so a payload not ending in zero is never uploaded correctly. |
| `BufferUpload.UnfinishedUploadCanGoOn` | contracts/scripts/test-e2e-onchain.ts:438-476 | No deadlock: every reachable state is finished, has a chunk out of attempts, or can start or confirm one. |
| `BufferUpload.UploadToChadBuffer` | scripts/verify-deposits.ts:133-198 | The sequential uploader leaves the result of landing the chunks in order, which is authority and transaction for up to 16777800 bytes. |
| `BufferUpload.UploadIsExactIff` | scripts/verify-deposits.ts:133-198 | Every payload of a size is uploaded exactly if and only if the size is at most 16777800. |
| `BufferUpload.UploadReadsBack` | contracts/programs/utxopia/src/utils/chadbuffer.rs:58-77 | The program's reader returns any number of leading bytes of an uploaded transaction, refuses more than there are, and refuses the empty one. |
| `ModInverse.ModInv` | contracts/scripts/test-joinsplit-proof.ts:121-130 | The loop, with truncating division, ends for all integers and computes the specified residue. |
| `ModInverse.EuclidInvariant` | contracts/scripts/test-joinsplit-proof.ts:121-130 | From any loop state, common divisors are kept and the final remainder is congruent to its coefficient times the operand. |
| `ModInverse.RunFindsGcd` | contracts/scripts/test-joinsplit-proof.ts:121-130 | The run ends with a signed greatest common divisor, positive for operands that are not negative. |
| `ModInverse.InverseTimesOperand` | contracts/scripts/test-joinsplit-proof.ts:121-130 | For every operand and modulus the result times the operand is congruent to that divisor. |
| `ModInverse.InverseIsTheInverse` | contracts/scripts/test-joinsplit-proof.ts:121-130 | For operands coprime to the modulus and not negative, the result is the inverse and the only one in range. |
| `ModInverse.InverseIffOddDivisions` | contracts/scripts/test-joinsplit-proof.ts:121-130 | For every integer: the result is an inverse exactly for coprime operands that are not negative, or on which Euclid makes an odd number of divisions (signs do not matter modulo 1 and 2). |
| `ModInverse.InverseOfZero` | contracts/scripts/test-joinsplit-proof.ts:121-130 | Multiples of the modulus are sent to 0. |
| `ModInverse.NegativeOperandMayFail` | contracts/scripts/test-joinsplit-proof.ts:121-130 | Minus one modulo five does not get its inverse. |
| `EdwardsCurve.AdditionStaysOnCurve` | contracts/scripts/test-joinsplit-proof.ts:134-146 | Any solution of the two fraction equations of the addition law, for curve points and invertible denominators, satisfies the curve equation. |
| `EdwardsCurve.DenominatorsNeverVanish` | contracts/scripts/test-joinsplit-proof.ts:134-146 | Over an odd prime, with a square and d not a square, no pair of curve points makes a denominator zero. |
| `EdwardsAssociativity.CrossX` | contracts/scripts/test-joinsplit-proof.ts:134-146 | The two ways of adding three curve points give x fractions with equal cross products. |
| `EdwardsAssociativity.CrossY` | contracts/scripts/test-joinsplit-proof.ts:134-146 | The same for the y fractions. |
| `EdwardsAssociativity.AdditionAssociates` | contracts/scripts/test-joinsplit-proof.ts:134-146 | Solutions of the addition law for three curve points do not depend on which two are added first. |
| `BabyJubjub.SmallCompleteCurve` | contracts/scripts/test-joinsplit-proof.ts:117-119 | The hypotheses on the curve constants can be met: a curve over the integers modulo 5 meets them. |
| `BabyJubjub.FractionsReduced` | contracts/scripts/test-joinsplit-proof.ts:134-146 | The script's intermediate reductions change none of the four numerators and denominators modulo p. |
| `BabyJubjub.AddIsClosed` | contracts/scripts/test-joinsplit-proof.ts:134-146 | The computed sum of curve points is a curve point whenever both denominators are invertible. |
| `BabyJubjub.AddIsComplete` | contracts/scripts/test-joinsplit-proof.ts:134-146 | On the complete curve the denominators always are invertible, so addition has no exceptional points. |
| `BabyJubjub.AddCommutes` | contracts/scripts/test-joinsplit-proof.ts:134-146 | Addition as computed is commutative. |
| `BabyJubjub.IdentityIsNeutral` | contracts/scripts/test-joinsplit-proof.ts:148-149 | (0, 1) is neutral on both sides. |
| `BabyJubjub.NegationCancels` | contracts/scripts/test-joinsplit-proof.ts:134-146 | A curve point and its mirror image add up to the identity. |
| `BabyJubjub.AddAssociates` | contracts/scripts/test-joinsplit-proof.ts:134-146 | Addition as computed is associative on curve points. |
| `BabyJubjub.BjjMul` | contracts/scripts/test-joinsplit-proof.ts:148-158 | The loop computes the double-and-add specification for every scalar. |
| `BabyJubjub.BjjMulIsMultiple` | contracts/scripts/test-joinsplit-proof.ts:148-158 | Double-and-add is the s-fold sum, stays on the curve, and sends scalars up to 0 to the identity. |
| `BabyJubjub.BjjMulIsAnAction` | contracts/scripts/test-joinsplit-proof.ts:148-158 | A sum of scalars gives the sum of the points, and nested multiplications equal the product of scalars in either order. |
| `BabyJubjub.CompleteCurveIsAGroup` | contracts/scripts/test-joinsplit-proof.ts:134-158 | The points of a complete curve are a commutative group under the computed addition, and double-and-add is its scalar multiplication. |
| `BabyJubjub.ConstantsFit` | contracts/scripts/test-joinsplit-proof.ts:117-164 | The generator BASE8 is on the curve of the scripts, and its coefficient a is a square. |
| `RedemptionSpec.FirstPayment` | contracts/programs/utxopia/src/utils/bitcoin.rs:499-506 | The first output that pays the script at least the minimum, and none before it does. |
| `RedemptionRuns.ReserveKeeps` | contracts/programs/utxopia/src/instructions/mark_processing.rs:84-131 | Reserving UTXOs lowers the pool's Bitcoin counters by exactly what leaves the unspent records. |
| `RedemptionRuns.ConsumeKeeps` | contracts/programs/utxopia/src/instructions/complete_redemption.rs:497-534 | Closing reserved records leaves the unspent total and number alone. |
| `RedemptionRuns.StepKeepsInv` | contracts/programs/utxopia/src/state/pool.rs:387-402 | Every instruction keeps: Bitcoin held and UTXO count equal the unspent records, pending requests carry no processing data, and no request is Failed. |
| `RedemptionRuns.RunKeepsInv` | contracts/programs/utxopia/src/state/pool.rs:387-402 | The same after every run from any state that satisfies it. |
| `RedemptionRuns.StepCountsIff` | contracts/programs/utxopia/src/instructions/request_redemption.rs:148-359 | An instruction keeps the pending counter equal to the number of open requests exactly unless it opens one while the counter is full. |
| `RedemptionRuns.RunCounts` | contracts/scripts/test-redemption-lifecycle.ts:386-496 | Over a whole run the pending counter is the number of open requests while fewer than 2^64 are open. |
| `RedemptionRuns.StepMoves` | contracts/scripts/test-redemption-lifecycle.ts:566-582 | How every instruction moves balance, burned total, fees, leaves, nullifiers and receipts, read off its event. |
| `RedemptionRuns.RunConserves` | contracts/scripts/test-redemption-lifecycle.ts:386-582 | Over every run, shielded plus locked value changes only by deposits and completions, all other counters grow by what the events say, and pool and token totals drift apart by exactly the cancelled amounts. |
| `RedemptionRuns.EventOfCompletion` | contracts/programs/utxopia/src/instructions/complete_redemption.rs:382-417 | Payment and miner fee of a completion are determined by the request and the outputs of the Bitcoin transaction. |
| `RedemptionRuns.StepConservesIff` | contracts/scripts/test-redemption-lifecycle.ts:484-496 | An instruction conserves shielded, locked and burned value (with or without revenue) exactly unless it is a completion whose first paying output and miner fee (or larger service fee) do not make up the amount. |
| `RedemptionRuns.RunBalancesIff` | contracts/scripts/test-redemption-lifecycle.ts:386-582 | Every prefix of a run is balanced if and only if every completion that goes through pays in full. |
| `RedemptionScenarios.ServiceFeeBurnsLess` | contracts/scripts/test-redemption-lifecycle.ts:484-496 | A run from fresh accounts (deposit, request, marking, completion) that burns 99500 for a redeemed 100000: unbalanced without revenue, balanced with it. |
| `RedemptionBacking.StepBackedIff` | contracts/programs/utxopia/src/instructions/mark_processing.rs:84-165 | An instruction keeps reserved Bitcoin equal to the inputs recorded in open requests exactly when a marking lists its UTXOs or claims nothing, a cancelled request has nothing reserved, or a completion closes records worth its request's input. |
| `RedemptionBacking.RunBackedIff` | contracts/programs/utxopia/src/instructions/complete_redemption.rs:497-534 | Every prefix of a run is backed if and only if every instruction that goes through meets that condition. |
| `RedemptionBacking.ReservedStaysReserved` | contracts/programs/utxopia/src/instructions/cancel_redemption.rs:146-162 | No instruction makes a reserved record spendable again: it stays as it is or a completion that lists it closes it. |
| `RedemptionScenarios.CancellationStrandsReservation` | contracts/programs/utxopia/src/instructions/cancel_redemption.rs:91-162 | A run from fresh accounts that cancels after the timeout: no request is open and 200000 stay reserved. |
| `RedemptionHistory.StepAdvances` | contracts/scripts/test-redemption-lifecycle.ts:396-403 | Each instruction moves each request along the legal phases, or leaves it where it is. |
| `RedemptionHistory.EveryHistoryIsLegal` | contracts/scripts/test-redemption-lifecycle.ts:379-657 | In every run every request is opened, marked once, and closed once, by completion after marking or by cancellation before marking or after the timeout, for the amount and the service fee it was opened with. |
| `RedemptionHistory.CompletionsHaveReceipts` | contracts/programs/utxopia/src/instructions/complete_redemption.rs:275-312 | Every completion of a run has its receipt at the end of the run. |
| `RedemptionHistory.CompletionsUseDistinctTransactions` | contracts/programs/utxopia/src/instructions/complete_redemption.rs:275-312 | No Bitcoin transaction completes two redemptions of a run. |
| `RedemptionHistory.CancelUndoesRequest` | contracts/scripts/test-redemption-lifecycle.ts:566-582 | Cancelling right after requesting restores requests and pool (its counter exactly when it was not full); the leaf, the nullifier and the token's totals stay changed. |
| `RedemptionHistory.TimeoutIsKeptIff` | contracts/programs/utxopia/src/instructions/cancel_redemption.rs:91-104 | A marked request is safe from cancellation until its timeout exactly when it was marked at a slot below 2^32. |
| `RedemptionHistory.CompletionIsPaid` | contracts/programs/utxopia/src/instructions/complete_redemption.rs:236-441 | Every accepted completion was signed by the authority, has six confirmations and a matching unused transaction id, pays the requester's script the amount less fees, and spends at most 50000 on the miner. |
| `RedemptionRules.DepositSucceedsIff` | contracts/programs/utxopia/src/instructions/complete_deposit.rs:454-529 | Exactly when a deposit's bookkeeping succeeds, and its event and record. |
| `RedemptionRules.FeeIsProportionalIff` | contracts/programs/utxopia/src/instructions/request_redemption.rs:191-193 | The locked fee is the flat fee plus the rounded-down percentage exactly while amount times rate stays below 10000 * 2^64, as it does up to 100 percent. |
| `RedemptionRules.RequestSucceedsIff` | contracts/programs/utxopia/src/instructions/request_redemption.rs:148-359 | Exactly when a request succeeds. |
| `RedemptionRules.ReserveSucceedsIff` | contracts/programs/utxopia/src/instructions/mark_processing.rs:84-131 | Under the invariant a reservation succeeds exactly for distinct unspent records, reserves those and no others, and no total or counter overflows. |
| `RedemptionRules.MarkSucceedsIff` | contracts/programs/utxopia/src/instructions/mark_processing.rs:38-178 | On every reachable state a marking succeeds exactly for the authority, at most 20 distinct unspent records and a pending request. |
| `RedemptionRules.CancelSucceedsIff` | contracts/programs/utxopia/src/instructions/cancel_redemption.rs:81-162 | A cancellation succeeds exactly for the requester, while pending or 216000 slots after marking, with room in the tree and the balance. |
| `RedemptionRules.ConsumeSucceedsIff` | contracts/programs/utxopia/src/instructions/complete_redemption.rs:497-534 | Records are closed exactly when they are distinct and reserved, and no others are touched. |
| `RedemptionRules.SumIsCapped` | contracts/programs/utxopia/src/utils/bitcoin.rs:462-468 | The saturating sum is the true sum capped at 2^64 - 1. |
| `RedemptionRules.CompleteSucceedsIff` | contracts/programs/utxopia/src/instructions/complete_redemption.rs:188-577 | Exactly when a completion succeeds: authority, proof and confirmations, a first output paying the requester enough, a bounded miner fee, reserved records and room in the counters. |
| `RedemptionRules.CompletionRecordsChange` | contracts/programs/utxopia/src/instructions/complete_redemption.rs:443-558 | The first output to the pool script is recorded unspent and counted exactly when change is tracked; listed records are closed and all others kept. |
| `RedemptionRules.ErrorsAreExplained` | contracts/programs/utxopia/src/instructions/complete_redemption.rs:236-441 | Every refusal of every instruction, on every reachable state, names a condition that really fails. |
| `RedemptionRules.StepKeepsTerms` | contracts/programs/utxopia/src/instructions/complete_redemption.rs:382-387 | Requester, amount, service fee and script of a request never change while it is open, and only instructions naming it touch it. |
| `RedemptionRules.EventsAreSigned` | contracts/programs/utxopia/src/instructions/cancel_redemption.rs:86-89 | In every run requests are opened and cancelled only by their own user, and marked and completed only by the authority. |
| `RedemptionRules.RequestsUseDistinctNullifiers` | contracts/programs/utxopia/src/instructions/request_redemption.rs:148-359 | No two requests that go through in a run use the same nullifier. |
| `RedemptionProgram.ReserveLoop` | contracts/programs/utxopia/src/instructions/mark_processing.rs:84-121 | The reservation loop equals the specification, including which error it reports first. |
| `RedemptionProgram.SumLoop` | contracts/programs/utxopia/src/utils/bitcoin.rs:462-468 | The loop computes the saturating sum of the outputs. |
| `RedemptionProgram.FindPayment` | contracts/programs/utxopia/src/utils/bitcoin.rs:499-506 | The search loop finds the first paying output. |
| `RedemptionProgram.ConsumeLoop` | contracts/programs/utxopia/src/instructions/complete_redemption.rs:497-534 | The closing loop equals the specification, including its error. |
| `RedemptionProgram.Program.constructor` | contracts/programs/utxopia/src/state/pool.rs:134-142 | Fresh accounts satisfy the invariant and the count. |
| `RedemptionProgram.Program.Execute` | contracts/programs/utxopia/src/instructions/request_redemption.rs:148-359 | Any handler on any accounts: an error changes nothing and names a condition that fails; a success was signed as required, keeps the invariant, moves every counter by what its event says and every request along the legal phases. |
| `RedemptionProgram.Program.ExecuteAll` | contracts/scripts/test-redemption-lifecycle.ts:379-657 | After any sequence of transactions executed in place: the invariant, the conservation equations on the accounts themselves, and a legal history that explains the phase of every request. |
| `FieldBytes.BigintToBytes32BE` | contracts/scripts/test-joinsplit-proof.ts:170-178 | The loop writes the low 256 bits in big-endian order, for every integer. |
| `FieldBytes.Bytes32ToBigintBE` | contracts/scripts/test-joinsplit-proof.ts:180-186 | The loop reads the big-endian number. |
| `FieldBytes.BytesRoundTrip` | contracts/scripts/test-joinsplit-proof.ts:170-186 | Writing any integer then reading gives it modulo 256^n, hence itself when it is in range. |
| `FieldBytes.BigEndianByte` | contracts/scripts/test-joinsplit-proof.ts:170-178 | Byte k of n counts 256^(n-1-k). |
| `FieldBytes.NumberRoundTrip` | contracts/scripts/test-joinsplit-proof.ts:170-186 | Reading then writing is the identity on every byte string. |
| `FieldBytes.HexLength` | contracts/scripts/test-joinsplit-proof.ts:294-301 | A number has at most n hex digits exactly when it is below 16^n. |
| `FieldBytes.EncodeLength` | contracts/scripts/test-joinsplit-proof.ts:294-301 | The hex route yields 32 bytes exactly for numbers of at most 65 digits. |
| `FieldBytes.EncodeIsBigEndian` | contracts/scripts/test-joinsplit-proof.ts:294-301 | Below 2^256 the hex route gives the 32-byte big-endian form, so it can be read back. |
| `FieldBytes.LongCoordinatesCollide` | contracts/scripts/test-joinsplit-proof.ts:294-301 | With 65 digits the last one is dropped, so different numbers share an encoding. |
| `VkPreimage.FlatPreimage` | scripts/register-vk-hashes.ts:17-26 | The flat serializer's loops compute the concatenation of all encoded coordinates. |
| `VkPreimage.NestedPreimage` | contracts/scripts/test-joinsplit-proof.ts:312-321 | The nested serializer's loop computes the concatenation of the serialized points. |
| `VkPreimage.SerializersAgreeIff` | contracts/scripts/test-joinsplit-proof.ts:294-321 | The two serializers give the same bytes exactly when no coordinate has more than 65 hex digits. |
| `VkPreimage.PreimageLayout` | contracts/scripts/test-joinsplit-proof.ts:312-321 | Which coordinate stands in which 32-byte word: alpha, beta, gamma, delta with the x pair first, then the IC points. |
| `VkPreimage.PreimageDeterminesKey` | scripts/register-vk-hashes.ts:17-26 | With coordinates below 2^256 two keys have the same pre-image exactly when they are equal, in either form. |

## Left out

- Poseidon, SHA-256, EdDSA and Groth16 internals: hashes are parameters, signatures and proofs are not modelled.
- The literal zero-hash constants: the table is any list that satisfies the recursion the constants are said to satisfy.
- BabyJubjub.CompleteCurveIsAGroup: of the facts in `IsComplete`, that a is a square is proved for the scripts' constants (`ConstantsFit`); that the modulus is prime and d is not a square (EIP-2494) remain hypotheses.
- MerkleBinding.RootBinds: assumes that the hash has no collisions at all, which a real hash can only approximate; so does FrontierProof.FrontierOpensIff.
- StripWitnessModel.StripsToLegacy: transactions use shortest CompactSize encodings and lengths below 2^32; longer encodings are covered only by the specification on arbitrary bytes.
- RedemptionRuns.RunCounts: needs fewer than 2^64 open requests, because the on-chain counter saturates.
- Deposits: only their bookkeeping is modelled; SPV checks, amount limits, the deposit counter and the commitment are not.
- Completions: `consumed` is the list of accounts the handler reaches, which is empty when fewer accounts are passed than the instruction counts.
- CommitmentTreeModel.CommitmentTree.InsertLeaf: the ring index is an unbounded number; the 32-bit field cannot overflow at depth 16.
- BufferUpload.ResolvedUploadIsExact: the ChadBuffer program is modelled by its documented instructions (create, in-place write, close, refusal past the end); its authority check, instruction 1 (assign) and the runtime's own account size limit are not modelled.
- BufferUpload.UnfinishedUploadCanGoOn: says that progress is possible, not that the network eventually confirms.
- Account ownership, program-derived addresses, signatures, token transfers and light-client accounts: their outcomes are fields of the instructions.
- Aliasing between accounts of one instruction, and rent.
- Other instructions of the program: redeem, public redeem, unshield, transact and tree rotation.
- The backend lookup's decoding of a hexadecimal commitment (`get_proof` returns nothing on malformed text), and how path bits and sibling lists are laid out in circuit inputs and instruction data.
- Services, clients, user interface, deployment scripts and network access.
