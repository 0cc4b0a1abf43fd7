# Noema: a verified model of the audit log and its neighbours

Noema keeps an append-only audit log that is committed to by Merkle trees, runs reasoning steps on a
level-scheduled graph, evolves its own code under a landing policy, limits request rates, delegates
sub-tasks to peers and books them in a ledger. This project models those parts in Dafny and proves what
they are for. `dafny verify dfyconfig.toml` checks all of it.

| module | models |
|---|---|
| `Sequences` | shared facts about sequences |
| `Bytes`, `Reading` | byte strings, their order, big-endian, hexadecimal and decimal encodings |
| `StaticMerkle` | the static sorted-pair Merkle tree and its inclusion proofs |
| `IncrementalMerkle` | the append-only tree that stores padding as `None` |
| `AuditLog`, `AuditLogger`, `AuditRestart` | leaf data, per-tenant files, the logger in file-fallback mode, restarts, reused block indices |
| `AuditBlocks`, `PromotionTree`, `MerkleChain` | the hash chain, its odd-promotion tree, export and import |
| `Scheduler`, `StepMachine` | level scheduling, the planner, and the execution loop of the reasoning engine |
| `Evolution` | the landing policy over a worktree |
| `RateLimit` | the in-memory sliding-window counter |
| `Ledger`, `Federation` | the contribution ledger and the fan-out to peers |
| `Attribution` | the line-weighted split of token costs |

## How it is modelled

- A hash function is a parameter, any function from byte strings to 32-byte digests. Injectivity is never
  assumed, and every such function has collisions, so a binding result says which strings would have to collide:
  its conclusion holds, or two different strings with the same digest were hashed for the very objects it speaks
  of. `HashedInTree`, `HashedInLevels` and `HashedForRoot` are the strings hashed to build a tree or a root,
  `HashedOnPath` and `HashedForProof` those hashed to check a proof, `Preimage` of a block is its encoding.
  `SafeHash` prefixes the domain separator, so these are collisions of the underlying hash.
- `serialize_to_bytes`, UTF-8, patch generation, tests, compilation, peers, the local executor and step
  execution are parameters or arbitrary moves of a state machine. Nothing is assumed about them beyond the
  hypotheses of the results, such as metadata that is text or an offered patch that is fresh.
- Code that mutates objects is a class (`IncrementalMerkleTree`, `MerkleChainAudit`, `Logger`,
  `SlidingWindowCounter`, `EvolutionEngine`, `ContributionLedger`); loops are loops proved against a
  specification. Concurrent code (`reason`, `execute`) is a state machine whose runs are arbitrary move
  sequences. Exceptions are results (`None`, `Overflow`, `IndexOutOfRange`, `Crashed`, `TenantRejected`).
- Every lemma switches automatic induction off: its proof is its body.
- Times and ratios are reals or exact rationals; rounding is modelled where the result depends on it.

## What the code does that its documentation does not say

- The planner's documentation has the repair step revisit the design before architecture decisions. In the
  graph nothing depends on it, and it runs in the same level as the architecture step
  (`RepairRunsBesideArchitecture`).
- The landing policy says that a rejected or proposed patch leaves its target untouched. It does exactly when
  the revert is safe (`ValidateAndLand`, `RevertRestoresIff`, `AlwaysRestoresIff`), and there are two ways to fail.
  A patch whose `original_code` is neither empty nor the current content overwrites its target with it, even when
  it is only proposed (`ProposalWritesStaleOriginal`). And tested code for an empty target that does not compile
  stays, because the tested code is read back as the original (`EmptyTargetKeepsRejectedCode`). For the engine's own
  generator only the second can happen (`OwnGeneratorIsFreshIff`). The analysis lists no file of fewer than 50
  characters (noema/evolution/engine.py:152), but a cycle can list a file twice, and a first patch that empties it
  leads there (`EmptiedFileKeepsRejectedCode`). A cycle is safe when tests or auto-apply are off, or when the files
  at issue are not empty and either each is listed once or no answer is empty code (`RunCycle`).
- For patches that come unmarked, `get_stats` agrees with the history exactly when tests are required or nothing was proposed (`GetStats`).
- A restart rebuilds the log exactly when no write was lost (`RestartRecoversIff`, `RunThenRestart`); a
  rejected tenant id loses the record after the leaf was already taken. After a loss the next event reuses a block
  index (`RestartThenLog`), and the proof of a saved record is good only if nothing before it was lost, or by
  coincidence (`ProofAfterRestart`). A logger that has loaded nothing proves over the tenant's own file, which is
  good only if that file holds the whole log up to the record, or by coincidence (`ProofBeforeLoading`). Once an index
  is reused, what a second restart rebuilds can depend on the directory listing (`SecondRestartIff`).
- A chain link binds the root before it, the payload and the index when the payload does not end in a digit, as a JSON
  object does not (`LinkBinds`, `NumeralMayMerge`).
- The root of the sorted-pair tree fixes the padded leaves up to their order (`RootBindsPaddedLeaves`), and not
  their number (`RepeatedLeafKeepsRoot`).
- `MerkleProof.verify` takes any leaf and siblings of any length. The end of a block's encoding climbs to the root
  like a leaf behind a long sibling (`EncodingSuffixReachesRoot`), and so does an inner node
  (`InnerNodeReachesRoot`, `InnerNodeIsNotGenerated`). What is accepted is what the chain would prove exactly when
  the leaf is the hash of a well-sized block and the siblings are digests (`AcceptedIffGenerated`).
- An exported chain imports again exactly when the metadata of every block after the first is text
  (`ImportOfExport`, `ImportNeedsText`).
- The side flags of a sorted-pair proof carry no information (`SidesDoNotMatter`).
- With a limit of zero or less the counter fails on every request (`Allow`).

## Model

| member | source | states |
|---|---|---|
| Bytes.LexLessIff | noema/audit/merkle_proof.py:20 | one byte string is smaller exactly when the first difference has the smaller byte or it is a proper prefix |
| Bytes.LexTrichotomy | noema/audit/merkle_proof.py:19-22 | the byte order by which pairs are sorted is total and strict |
| Bytes.BigEndianInjective | noema/audit/merkle.py:38-44 | the fixed-width integer fields of a block encoding determine their numbers |
| Bytes.BigEndianSpells | noema/audit/merkle.py:39-42 | the bytes spell the number, most significant first |
| Reading.HexAt | noema/audit/merkle.py:205-208 | two lower-case digits per byte, the high one first |
| Reading.FromHexIff | noema/audit/merkle.py:225-229 | without blanks, exactly the strings of whole digit pairs are read |
| Reading.FromHexAt | noema/audit/merkle.py:225-229 | each pair of digits spells its byte |
| Reading.FromHexBlanks | noema/audit/merkle.py:225-229 | a blank between pairs is skipped, one inside a pair is an error |
| Bytes.HexRoundTrip | noema/audit/merkle.py:201-231 | hexadecimal decoding inverts encoding on every byte string |
| Bytes.DecimalInjective | noema/federation/router.py:295 | decimal numerals of different indices differ |
| Reading.DecimalSpells | noema/audit/logger.py:202 | a numeral spells its number, without leading zeros |
| StaticMerkle.HashPairSorts | noema/audit/merkle_proof.py:12-22 | a pair is hashed behind the domain separator, the smaller string first |
| StaticMerkle.SmallRoots | noema/audit/merkle_proof.py:79-83 | no leaves give 32 zero bytes and one leaf gives itself |
| StaticMerkle.NextPow2IsLeast | noema/audit/merkle_proof.py:25-26 | the padded size is the least power of two that is at least the leaf count, so the depth is the rounded-up binary logarithm |
| StaticMerkle.PadSequence | noema/audit/merkle_proof.py:29-36 | padding keeps the leaves and repeats the last one up to the padded size |
| StaticMerkle.BuildLevels | noema/audit/merkle_proof.py:68-76 | every entry of every level is the node of the tree over the leaves continued by copies of the last |
| StaticMerkle.ComputeRoot | noema/audit/merkle_proof.py:79-83 | the root of that tree; 32 zero bytes for no leaves |
| StaticMerkle.GenerateInclusionProof | noema/audit/merkle_proof.py:86-110 | the siblings of the leaf's ancestors with their sides, or the right error |
| StaticMerkle.VerifyInclusionProof | noema/audit/merkle_proof.py:113-119 | accepts exactly when the data has the leaf hash and climbing the path reaches the root |
| StaticMerkle.PathClimbsToRoot | noema/audit/merkle_proof.py:86-119 | completeness: from any ancestor of any leaf its remaining path climbs to the root |
| StaticMerkle.SidesTell | noema/audit/merkle_proof.py:100-108 | the flag says that the sibling is the left child: read in that order, node and sibling are the two children of the next node on the path |
| StaticMerkle.HashPairBinds | noema/audit/merkle_proof.py:15-22 | a pair digest pins its 32-byte children up to order, whatever the length of the claimed sibling, or the two hashed strings collide |
| StaticMerkle.ClimbIsSound | noema/audit/merkle_proof.py:19-36 | any path of any length up to the depth that reaches the root starts at a node that many levels below it, or a string hashed on the path collides with one hashed for the tree |
| StaticMerkle.AcceptedLeafIsMember | noema/audit/merkle_proof.py:113-119 | an accepted full-length proof against the root is about one of the leaves, or a string hashed on the path collides with one hashed for the tree |
| StaticMerkle.ClimbIsInjective | noema/audit/merkle_proof.py:113-119 | along one path two different starts do not reach the same digest unless two strings hashed on the way collide |
| StaticMerkle.GeneratedProofAccepts | noema/audit/merkle_proof.py:86-119 | the proof for position i is accepted for data d if the digest of d is leaf i and was proved, and only then unless strings hashed to climb from the two digests collide |
| StaticMerkle.RootBindsPaddedLeaves | noema/audit/merkle_proof.py:68-83 | two leaf lists of one depth with one root have the same padded leaves, each as often, or strings hashed to build the two trees collide |
| StaticMerkle.RepeatedLeafKeepsRoot | noema/audit/merkle_proof.py:29-36 | repeating the last leaf of a list that does not fill its tree keeps the root, so the root does not fix the number of leaves |
| StaticMerkle.DepthStays | noema/audit/merkle_proof.py:25-26 | one more leaf keeps the depth exactly when the leaf count is not a power of two |
| StaticMerkle.SidesDoNotMatter | noema/audit/merkle_proof.py:19-22 | acceptance does not depend on the side flags of a path |
| IncrementalMerkle.PaddingNode | noema/audit/merkle_proof.py:122-151 | every node right of the last leaf's ancestor is the pad digest of its level |
| IncrementalMerkle.SettledNode | noema/audit/merkle_proof.py:122-130 | nodes left of the next leaf's ancestor never change again |
| IncrementalMerkle.AppendLeavesLevelPending | noema/audit/merkle_proof.py:199-208 | an append makes at most one stored node per level stale, the one on the new leaf's path |
| IncrementalMerkle.DepthGrowth | noema/audit/merkle_proof.py:189-191 | one more leaf adds at most one level, and adds one exactly when the leaf count was a power of two |
| IncrementalMerkle.IncrementalMerkleTree.constructor | noema/audit/merkle_proof.py:134-142 | a tree built from any leaves stores exactly the nodes above real leaves, as the static builder has them |
| IncrementalMerkle.IncrementalMerkleTree.ComputePadHashes | noema/audit/merkle_proof.py:144-151 | the pad digests of all levels for the current last leaf |
| IncrementalMerkle.IncrementalMerkleTree.NullifyPads | noema/audit/merkle_proof.py:153-158 | erases exactly the nodes from the rounded-up leaf count on, level by level |
| IncrementalMerkle.IncrementalMerkleTree.NodeAtIsStatic | noema/audit/merkle_proof.py:160-166 | every node, stored or resolved, equals the static tree's node |
| IncrementalMerkle.IncrementalMerkleTree.GetRoot | noema/audit/merkle_proof.py:172-176 | the root is the static root of the same leaves |
| IncrementalMerkle.IncrementalMerkleTree.GetDepth | noema/audit/merkle_proof.py:178-180 | the depth is the rounded-up binary logarithm of the leaf count |
| IncrementalMerkle.IncrementalMerkleTree.Append | noema/audit/merkle_proof.py:182-197 | keeps the tree equal to the static one over the longer list, at the cost of exactly two pair digests per level |
| IncrementalMerkle.IncrementalMerkleTree.RefreshPath | noema/audit/merkle_proof.py:199-208 | restores every level by recomputing one node in each |
| IncrementalMerkle.IncrementalMerkleTree.Proof | noema/audit/merkle_proof.py:210-219 | the same path as the static builder's, or the index error |
| IncrementalMerkle.IncrementalMerkleTree.MakeInclusionProof | noema/audit/merkle_proof.py:221-229 | the same proof as the static builder's |
| AuditLog.TenantFilenameStaysInside | noema/audit/logger.py:18-30 | a tenant file name has no path separator, is not empty or a dot name, is at most 100 long, and safe ids are kept |
| AuditLog.SanitizeRun | noema/audit/logger.py:18-27 | safe characters are kept and every run of others becomes one underscore |
| AuditLog.TenantFilenameIff | noema/audit/logger.py:27-30 | a name is given exactly when it is not empty, not a dot name and at most 100 long |
| AuditLog.LinkBinds | noema/audit/logger.py:198-202 | a chain link is the digest of the root before, the payload and the index, and equal links force all three to be equal if the payloads do not end in a digit, or the two hashed strings collide |
| AuditLog.LinkBindsLog | noema/audit/logger.py:192-207 | two recorded links that are equal have one index and one payload, and the commitments before them are the same up to their order, or named strings collide |
| AuditLog.NumeralMayMerge | noema/audit/logger.py:202 | behind a payload that ends in a digit the index cannot be told from the payload |
| AuditLog.UnreadableIsSkipped | noema/audit/logger.py:159-165 | a commitment that can be read is taken and any other record is skipped |
| AuditLog.LogKeepsConsistent | noema/audit/logger.py:192-248 | one log call keeps the files equal to the saved records of the log, whether or not the write succeeded |
| AuditLog.LoggedProofAccepts | noema/audit/logger.py:315-331 | the proof for any logged position is accepted for that event's data |
| AuditLog.SortSorts | noema/audit/logger.py:156-158 | sorting by block index gives a sorted permutation |
| AuditLog.ReadBackIsSaved | noema/audit/logger.py:136-158 | reading the files in any order and sorting gives back the saved records in log order |
| AuditLog.RestartRecoversIff | noema/audit/logger.py:136-165 | the rebuilt leaves equal the logged commitments if and only if every record was saved |
| AuditLog.NextIndexAfterRestart | noema/audit/logger.py:136-165 | a restarted logger counts the saved records, at most as many as the log has events, so after a loss the next index is an old one |
| AuditLog.ProofOfRecord | noema/audit/logger.py:303-331 | over any part of a log, the proof of a record at its block index exists exactly when the index is a position of that part, and is accepted exactly when the commitment there is the record's, unless strings hashed to climb from the two collide |
| AuditLog.ProofBeforeLoading | noema/audit/logger.py:327-328 | the same for a logger that has loaded nothing, over the tenant's own file |
| AuditLog.ProofAfterRestart | noema/audit/logger.py:315-328 | the same after any restart, lossy or not: the record itself is at its index exactly when nothing before it was lost |
| AuditLog.LastMatchIsLast | noema/audit/logger.py:294-303 | the record found matches and none after it does |
| AuditLog.LastMatchInFile | noema/audit/logger.py:284-301 | searching the tenant's file finds the last matching record of the whole log, although tenants may share a file |
| AuditLogger.Logger.SyncTree | noema/audit/logger.py:97-101 | afterwards there is a tree over exactly the leaf list |
| AuditLogger.Logger.LoadLeafHashes | noema/audit/logger.py:136-165 | the leaf list is what the directory holds, sorted by block index |
| AuditLogger.Logger.Initialize | noema/audit/logger.py:103-124 | a new process over a lossless directory continues its log, and over a lossy one it has one leaf per saved record |
| AuditLogger.Logger.GetPrevRoot | noema/audit/logger.py:167-169 | the static root of the leaf list |
| AuditLogger.Logger.Log | noema/audit/logger.py:192-235 | the event gets the next block index and the link over the root of everything before it; memory and disk stay faithful to the log |
| AuditLogger.Logger.WriteFallback | noema/audit/logger.py:237-248 | appends the record to its tenant's file, or reports the rejected tenant, or else the failed write |
| AuditLogger.Logger.ProveAt | noema/audit/logger.py:315-328 | a proof over the leaves in memory when the index is among them, otherwise over the file's commitments, or the right error |
| AuditLogger.Logger.GetProof | noema/audit/logger.py:279-331 | in every state the last matching record is proved at its block index; in every faithful state a task is found exactly when the tenant has a saved record of it, the one with the largest block index is proved, and the proof is accepted for its data against the current root |
| AuditLogger.Run | noema/audit/logger.py:192-248 | over any run the logger stays faithful, and everything is on disk exactly when every event was stored |
| AuditLogger.RunThenRestart | noema/audit/logger.py:103-165 | after any run, a restart has the same leaves if and only if every event was stored, and then continues the log |
| AuditLogger.RestartThenLog | noema/audit/logger.py:192-212 | after any run and a restart, the next block index is the number of stored events: a new one if and only if every event was stored |
| AuditRestart.SortIsStable | noema/audit/logger.py:156-158 | sorting keeps the order of records with the same block index |
| AuditRestart.SortsAgreeIff | noema/audit/logger.py:143-158 | two readings of a directory sort to the same records if and only if they give the records of every index in the same order |
| AuditRestart.SecondRestartIff | noema/audit/logger.py:136-165 | after one more record with a possibly reused index, two listings rebuild the same leaves if and only if they do not disagree on the order of two files with different commitments for it |
| AuditBlocks.EncodeInjective | noema/audit/merkle.py:31-45 | the block encoding determines index, previous hash, commitment, microseconds and metadata |
| AuditBlocks.MicrosTruncates | noema/audit/merkle.py:42 | whole microseconds, truncated toward zero |
| AuditBlocks.VerifyBlockIff | noema/audit/merkle.py:31-62 | a block verifies exactly when its hash is the digest of the five fields in their order, and checking fails exactly when a number does not fit |
| AuditBlocks.GenesisIs | noema/audit/merkle.py:84-96 | every field of the genesis block, which verifies |
| AuditBlocks.BlockHashBinds | noema/audit/merkle.py:58-62 | equal block hashes mean equal content or the two encodings collide |
| AuditBlocks.TipBindsHistory | noema/audit/merkle.py:84-156 | equal tip hashes of two built chains force equal heights and equal content everywhere, or the encodings of two of their blocks collide |
| PromotionTree.BuildParents | noema/audit/merkle.py:261-269 | pairs are hashed in order and an odd last node is promoted |
| PromotionTree.TopOfLevels | noema/audit/merkle.py:111-113 | the top level is the single Merkle root |
| PromotionTree.RootOfThree | noema/audit/merkle.py:261-269 | left is hashed before right and the odd third node is promoted |
| PromotionTree.SiblingsClimbToRoot | noema/audit/merkle.py:65-75 | the siblings of any leaf climb to the root, through promoted levels too |
| PromotionTree.ShapeIsTheTree | noema/audit/merkle.py:240-271 | the level construction is a binary tree whose digest is the root and whose fringe is the leaf list |
| PromotionTree.TreeDigestBinds | noema/audit/merkle.py:256-271 | a digest pins the whole tree, its shape and its texts, when the texts are longer than 64 bytes, or strings hashed for the two trees collide |
| PromotionTree.RootBindsTexts | noema/audit/merkle.py:240-271 | the root over long texts pins them and their number, or strings hashed for the two roots collide |
| PromotionTree.RootAndHeightBindHashes | noema/audit/merkle.py:240-277 | root and number of leaves pin the leaf list, or strings hashed to build the two trees collide |
| PromotionTree.ClimbIsSound | noema/audit/merkle.py:65-75 | a long text whose digest climbs over digests to the root is in the tree and its siblings are its own path, or a string hashed to check the proof collides with one hashed for the tree |
| PromotionTree.PathIsSiblings | noema/audit/merkle.py:158-176 | the path of a leaf in the tree is the sibling list that the levels give, promoted levels skipped |
| PromotionTree.AcceptedProofIsGenerated | noema/audit/merkle.py:65-75 | every accepted proof of a long text over digests is the generated proof of that text at some position, or a string hashed to check it collides with one hashed for the root |
| PromotionTree.InnerNodeReachesRoot | noema/audit/merkle.py:71-75 | any node one level up climbs to the root with its own siblings |
| PromotionTree.InnerNodeIsNotGenerated | noema/audit/merkle.py:71-75 | over four leaves, the left inner node with its one sibling is accepted, and no generated proof has one sibling |
| MerkleChain.AcceptedIffGenerated | noema/audit/merkle.py:65-75 | against the root of a built chain, a block and siblings are what the chain would prove for the block's index if and only if the block is well-sized, the siblings are digests and they climb to the root, unless a string hashed to check them collides with one hashed for the root |
| MerkleChain.EncodingSuffixReachesRoot | noema/audit/merkle.py:65-75 | with a sibling of any length, the end of any block's encoding climbs to the root |
| MerkleChain.RootBindsHistory | noema/audit/merkle.py:111-156 | equal Merkle roots of two built chains, without the heights, force equal heights and content, or strings hashed for the two roots collide |
| MerkleChain.VerifiedRootBindsHashes | noema/audit/merkle.py:146-156 | for any two verified chains of one height, equal roots force equal block hashes, or strings hashed to build the two trees collide |
| MerkleChain.ParseBlockIs | noema/audit/merkle.py:218-230 | which field of a record gives which field of a block, and which records are malformed |
| MerkleChain.BlockRoundTrip | noema/audit/merkle.py:201-230 | a block survives export and import apart from its nonce if and only if its metadata is text |
| MerkleChain.ImportOfExport | noema/audit/merkle.py:201-238 | importing a built chain's export gives a built chain with the same blocks apart from nonces, hence the same tip and root |
| MerkleChain.ImportNeedsText | noema/audit/merkle.py:201-238 | conversely, if the metadata of a later block is not text, importing the export fails its verification, or the block's encoding collides with that of the block as reread |
| MerkleChain.ImportBlocks | noema/audit/merkle.py:214-238 | succeeds exactly when every record parses and the whole chain verifies, and returns that chain |
| MerkleChain.MerkleChainAudit.constructor | noema/audit/merkle.py:79-97 | a chain of one genesis block derived from the chain id |
| MerkleChain.MerkleChainAudit.Append | noema/audit/merkle.py:119-144 | on any chain, adds a linked, verified block after the tip and drops the memo, unless a field overflows; verified chains stay verified and built ones built; the self-check never fails |
| MerkleChain.MerkleChainAudit.VerifyChain | noema/audit/merkle.py:146-156 | true exactly for chains whose blocks verify and link up, and an overflow exactly when the first block that is not in order overflows |
| MerkleChain.MerkleChainAudit.BuildLevels | noema/audit/merkle.py:256-271 | the memo, old or new, is what a fresh build gives |
| MerkleChain.MerkleChainAudit.ProveInclusion | noema/audit/merkle.py:158-176 | the siblings of the block at every level where it has one |
| MerkleChain.MerkleChainAudit.VerifyProof | noema/audit/merkle.py:178-185 | accepts exactly when the block hash matches and the siblings climb to the root; a negative index counts from the end |
| MerkleChain.MerkleChainAudit.ProveThenVerify | noema/audit/merkle.py:158-185 | every proof handed out is accepted, in every state of the memo |
| MerkleChain.MerkleChainAudit.LoadBlocks | noema/audit/merkle.py:218-231 | records with index 0 are skipped and one malformed record fails the import |
| Scheduler.TopologicalLevels | noema/core/chain_of_thought.py:503-525 | terminates; each level is exactly the unplaced steps with all dependencies placed, and in the end none is ready |
| Scheduler.EmittedOnce | noema/core/chain_of_thought.py:513-523 | a step is in at most one level |
| Scheduler.DependencyIsEarlier | noema/core/chain_of_thought.py:515-523 | every dependency of an emitted step is a step in a strictly earlier level |
| Scheduler.LongestChain | noema/core/chain_of_thought.py:503-525 | a step of level k ends a dependency chain of k + 1 steps |
| Scheduler.NoLongerChain | noema/core/chain_of_thought.py:503-525 | and no longer one |
| Scheduler.DroppedIff | noema/core/chain_of_thought.py:519-521 | a step is dropped if and only if a dependency walk from it reaches a missing step or repeats one |
| Scheduler.Plan | noema/core/chain_of_thought.py:121-166 | each plan lists exactly the wanted steps, once each, in the fixed order |
| Scheduler.BuildDag | noema/core/chain_of_thought.py:495-501 | the planned built-in steps, keeping exactly the dependencies inside the plan |
| Scheduler.NoStepIsLost | noema/core/chain_of_thought.py:387-501 | for every plan the filtered graph places every step |
| Scheduler.RepairRunsBesideArchitecture | noema/core/chain_of_thought.py:133-135 | the repair step and the architecture step share the second level |
| Scheduler.TableReadsBothWays | noema/core/chain_of_thought.py:387-501 | which steps wait for which, read from the other side |
| Scheduler.StagesAreOrdered | noema/core/chain_of_thought.py:387-525 | in every plan with the steps that all plans have, each step comes after every planned step of an earlier stage, but nothing waits for the repair step and only the review for the deployment |
| Scheduler.FullPlanLevels | noema/core/chain_of_thought.py:387-525 | with everything planned, each step is in the level of its stage |
| Scheduler.LevelAtMostStage | noema/core/chain_of_thought.py:387-525 | in every plan no step is later than its stage |
| Scheduler.ScheduleOf | noema/core/chain_of_thought.py:275-277 | from any plan, the schedule places exactly its built-in steps |
| StepMachine.InvariantHolds | noema/core/chain_of_thought.py:263-332 | in every state of every run, statuses, context, counter and launched tasks fit the phase of the level |
| StepMachine.StartsAfterDependencies | noema/core/chain_of_thought.py:280-298 | a step is launched only when all its dependencies are settled |
| StepMachine.RestoredIsNeverRun | noema/core/chain_of_thought.py:263-292 | a restored step is never launched and keeps its result |
| StepMachine.FinishedRun | noema/core/chain_of_thought.py:300-332 | at the end every step is completed, skipped or failed as its own outcome says, was counted once, and the context holds exactly the completed results |
| StepMachine.OutcomeHasMove | noema/core/chain_of_thought.py:300-326 | in every run, an outcome is there because a task ended with it |
| StepMachine.MoveHasOutcome | noema/core/chain_of_thought.py:300-326 | and a task that ended with an outcome has it for ever |
| StepMachine.FinishesOnce | noema/core/chain_of_thought.py:280-300 | a task ends once |
| StepMachine.EndsAsItsTaskDid | noema/core/chain_of_thought.py:300-332 | at the end each step that was not restored ended by one move of its own: what it returned is in the context word for word, a skipped step is skipped and a raised one failed with its message |
| StepMachine.AnyTaskMayFinish | noema/core/chain_of_thought.py:296-300 | in every reachable state a task may end, in any way, exactly when it was launched and has not ended |
| StepMachine.FinishedPlan | noema/core/chain_of_thought.py:275-332 | for every plan, at the end every planned built-in step is settled and the counter equals the number of steps |
| StepMachine.NeverStuck | noema/core/chain_of_thought.py:280-332 | until the end some move is possible |
| Evolution.RevertRestoresIff | noema/evolution/engine.py:271-288 | a patch that is not applied leaves its target as it was if and only if its original is empty or the current content and it is not tested code for an empty target |
| Evolution.AlwaysRestoresIff | noema/evolution/engine.py:332-357 | the same before the call: it holds whatever tests and compiler will say if and only if the revert is safe under the settings |
| Evolution.EmptyTargetKeepsRejectedCode | noema/evolution/engine.py:271-288 | an empty target whose tested code does not compile ends up with the rejected code |
| Evolution.ProposalWritesStaleOriginal | noema/evolution/engine.py:332-357 | a proposed patch with another original overwrites its target with it |
| Evolution.OwnGeneratorIsFreshIff | noema/evolution/engine.py:203-258 | the engine's own generator hands over what it reads, and this is fresh if and only if it is not tested code for an empty file that may be applied |
| Evolution.EmptiedFileKeepsRejectedCode | noema/evolution/engine.py:388-399 | a file emptied by an applied patch keeps the rejected code of the next one |
| Evolution.EvolutionEngine.ApplyPatch | noema/evolution/engine.py:260-288 | the target holds the patch if it compiles and the original otherwise; the backup is gone; nothing else changes |
| Evolution.EvolutionEngine.ValidateAndLand | noema/evolution/engine.py:315-360 | when a patch lands, with which flags, after which test run, and what its target then holds; a rejected or proposed patch leaves its target as it was if and only if the revert is safe |
| Evolution.EvolutionEngine.TestPatch | noema/evolution/engine.py:335-353 | the tests see the patched code, and a red run puts the original back |
| Evolution.FirstIssuesIs | noema/evolution/engine.py:387 | the slice of the issues, for negative limits too |
| Evolution.EvolutionEngine.ProcessIssue | noema/evolution/engine.py:387-404 | nothing happens exactly when the generator has no patch at the worktree it sees; otherwise the patch lands and is booked as its landing says |
| Evolution.EvolutionEngine.RunCycle | noema/evolution/engine.py:362-410 | the first issues up to the limit are worked off in order, each from where the last one ended, and the numbers are those of the outcomes; generated = applied + proposed + rejected for any generator; if what was offered in this cycle was fresh where it was offered, no file appears, every file holds its old content or an applied patch, which had a green run if tests are required, only backup siblings of patched files disappear, and without auto-apply nothing changes; offers that carry the content read are fresh when tests or auto-apply are off or the files at issue stay non-empty |
| Evolution.EvolutionEngine.GetStats | noema/evolution/engine.py:459-474 | if no patch came marked, agrees with the sums over the history exactly when tests are required or nothing was proposed |
| RateLimit.PruneIsExact | noema/api/rate_limit.py:55-61 | the kept hits are as many as the complete log has inside the window |
| RateLimit.WindowIsBounded | noema/api/rate_limit.py:82-106 | no half-open window of the configured length holds more than the limit |
| RateLimit.RetryAfterSuffices | noema/api/rate_limit.py:92-99 | the emitted delay is between 1 and window + 1, waiting it out is enough, and a request more than a second earlier is still denied |
| RateLimit.AdmitsIff | noema/api/rate_limit.py:82-106 | with a full window, a request is admitted again exactly from the moment on when the oldest hit is a window old |
| RateLimit.SlidingWindowCounter.Prune | noema/api/rate_limit.py:55-61 | the hits of other keys and the invariant are kept, and the key's hits are those inside the window |
| RateLimit.SlidingWindowCounter.Allow | noema/api/rate_limit.py:82-106 | admits exactly when fewer than the limit of all admissions ever lie in the last window |
| RateLimit.SlidingWindowCounter.Cleanup | noema/api/rate_limit.py:63-71 | exactly the keys idle for two windows are forgotten, which changes no later verdict |
| RateLimit.SlidingWindowCounter.NoWindowOverflows | noema/api/rate_limit.py:48-106 | the window bound holds in every reachable state |
| Ledger.NodesSumToTotal | noema/billing/ledger.py:116-152 | per-node tokens and costs of any complete listing of nodes add up to the totals |
| Ledger.AggregateAdds | noema/billing/ledger.py:84-98 | input and output tokens add up to the total in every aggregate |
| Ledger.AggregateSums | noema/billing/ledger.py:122-141 | every field of an aggregate is the sum of its own quantity over the entries of the node |
| Ledger.TrailIsInOrder | noema/billing/ledger.py:154-156 | the trail of a task keeps its entries in order and as often as recorded |
| Ledger.ContributionLedger.Record | noema/billing/ledger.py:68-103 | the entry is clamped and appended; memory is always the last entries of the history |
| Ledger.ContributionLedger.PerNode | noema/billing/ledger.py:116-152 | each node of the selected entries with its own aggregate, and the totals |
| Ledger.ContributionLedger.EntriesFor | noema/billing/ledger.py:154-156 | exactly the entries of one task, in order, also for the empty task id |
| Federation.SubtaskIdInjective | noema/federation/router.py:293-298 | different sub-tasks of a run have different ids |
| Federation.WorkSpreads | noema/federation/router.py:186-198 | round-robin: while the same peers are healthy, up to as many consecutive sub-tasks as peers go to different ones |
| Federation.StartsRotate | noema/federation/router.py:193-198 | the m-th sub-task started goes to the m-th peer after the cursor |
| Federation.InvariantHolds | noema/federation/router.py:186-273 | from any cursor and any ledger, under any interleaving and any outcomes, the ledger keeps its past and each finished sub-task has exactly its own entry in the rest, unfinished ones none |
| Federation.ResultIsOfMoves | noema/federation/router.py:186-249 | in every run a sub-task has a result exactly when one of its own moves ended it so: delegated with the peer, response and attempts of the answer, local with the response of the executor, failed when the executor failed or there is none |
| Federation.EntryTells | noema/federation/router.py:251-273 | what is recorded for a result |
| Federation.FinishedFanOut | noema/federation/router.py:277-323 | on a router with any past, results come back in submission order, and the new ledger entries are one per id, no others, with the same tokens |
| Federation.FanOut | noema/federation/router.py:251-273 | on a real ledger, the history grows by exactly the entries of the fan-out, and memory is the last entries of it |
| Federation.EntryInMemoryIff | noema/billing/ledger.py:68-103 | after a finished fan-out, beside what is left of older entries, memory has the one entry of a sub-task if and only if at most as many entries as the ledger holds were recorded from it on |
| Federation.Summarize | noema/federation/router.py:299-313 | delegated + local + failed is the total |
| Attribution.RoundIsNearest | noema/experiments/runner.py:225-227 | rounding gives the nearest integer, the even one on a tie |
| Attribution.NamedInOrder | noema/experiments/runner.py:209-215 | blocks with a name are kept in their order and others are not |
| Attribution.AttributeFileCosts | noema/experiments/runner.py:192-245 | rows appear exactly when there are lines and tokens, add up to the run totals, and are within 1/2 of their shares, the last of k within (k-1)/2 |

## Left out

- PostgreSQL, Redis, gRPC and HTTP paths: the logger is modelled in file-fallback mode, the counter in memory.
- SHA-256, BLAKE2b, canonical JSON and UTF-8 themselves: parameters, see above.
- Malformed lines and unreadable files in the fallback directory, other writers of it, and calling `initialize` a second time on one logger.
- Fields that no modelled decision reads: address and agent of an event, provider, model, artifact and metadata of a ledger entry, descriptions and summaries of patches.
- Callbacks of the reasoning engine, prompts, token budgets and reflexion retries; cancellation of a whole run.
- Upper and lower case of tags and complexity: the planner is modelled on lower-case input.
- Patches are values: two cycles sharing one mutable patch object are not modelled, nor is a test runner that writes files.
- The dry run of `apply_patch` and bytecode files that compilation writes.
- Peer and local responses have numeric token and cost fields: with others `_record` raises out of `execute` (noema/federation/router.py:263-265), after which there is no summary.
- Circuit breakers and retries: which peers are healthy and whether a call succeeds is arbitrary.
- Persistence and reloading of the ledger, and rounding of its costs to six digits.
- The cost column of the attribution table and the improvement rate of the statistics: products and quotients of modelled numbers.
- IncrementalMerkle.IncrementalMerkleTree.Append: counts pair digests, not the copying of lists.
- Quotas, feature flags, caches, healing, leaderboards, the merge gate and the fixer: easier variants of arguments made here.
