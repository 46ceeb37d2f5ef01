# Sociosphere mesh, queue and receipt protocols in Dafny

This project models the parts of the repository that other parts trust without
looking, and proves what they promise.

- **The dispersed drive.**  A file is cut into blocks, each block becomes a
  polynomial over GF(2^8), and the values are spread over the nodes of a ternary
  tree.  Refs, manifests and the path index are replicated by weighted
  rendezvous.  `Octets`, `Fields`, `Polynomials`, `Gf256`, `GfTables`,
  `HolographicIda` and `IdaTheorems` hold the codec.  `MeshTopology`,
  `FragmentPlacement`, `PlacementSpread`, `PlacementLoss`, `MeshData`,
  `LeafPropagation`, `FetchTheorems`, `FetchLimits` and `FetchExact` hold one
  leaf.  `MeshNamespace`, `MeshSync` and `MeshRuns` hold the drive over whole runs
  of puts, and `DriveTampering` its reads from altered fragments.
  `StorageResilience` is the survival model.
- **Leadership and threat.**  `MeshTopology`, `MeshHealth` and `MeshRotation` hold
  the quorum of quorums, the losses it survives and the rotation of leaders.
  `MeshThreat` and `ThreatVotes` hold the threat controller with its hysteresis
  and the level as a vote of the reports.
- **Work queues.**  `DurableQueue` is a machine over single file operations with
  any number of interleaved producers and consumers, and `DurableQueueRuns` has
  the queue's operations as runs of it.  `ControlLoop`, `Proposals` and
  `ProposalRuns` hold the bounded loop, the remediation on top of it, and every
  history of draining runs.
- **Sessions and receipts.**  `SessionQuarantine`, `SessionRuns`,
  `SessionEvents`, `SessionMembership`, `MacroTriad` and `TriadReceipts`.
- **Graphs.**  `GossipBeacon`, `GossipPaths`, `DependencyCycles` and
  `ServiceCycles`.

`Common`, `Arithmetic`, `Sorting`, `Tallies`, `Lexicographic` and `Combinations`
are shared vocabulary.

## Conventions

- A hash, a clock, the answers of nodes, the outcome of an external call and the
  steps of other processes are parameters.  A theorem about them holds for every
  choice.
- Exceptions are values of `Common.Result`.
- Floats are `real`.  Round-off is not modelled; the control loop's infinite
  error is a value of its own.
- Code that updates things in place is a class or a method with loops, proved
  against a function or a predicate on values.  The theorems are about those
  functions, so they hold of the methods.

## Where the text promises more than the code does

Each of these is shown by a concrete or general counterexample, next to the exact
condition under which the promise does hold.

- `automation/holographic_ida.py:3-8` says that fewer than k fragments
  reconstruct nothing usable.  A leaf shorter than k is already determined by as
  many fragments as it has bytes: `IdaTheorems.FewerThanK` is the exact
  condition.
- `automation/mesh_topology.py:9-12` says that every backend leads exactly once
  per turn at any N.  `MeshRotation.FourBackends` is a counterexample;
  `MeshRotation.ExactlyOnceBySize` says that it holds exactly when N is a power
  of three or twice one.
- `automation/leaf_propagation.py:68-70` says that no single triad is decisive.
  `PlacementLoss.GroupIsDecisive` is a counterexample on four nodes.
  `PlacementLoss.RunLossIff` says how many leaves in a row may be lost, and
  `PlacementLoss.LeftSubtreeIff` when a subtree on the left edge may.
- `automation/leaf_propagation.py:107-145` routes around lying nodes only among
  fragments of one length, and only one copy per fragment is asked for:
  `FetchLimits.CorruptCopyMasksHonestOne` and `FetchLimits.ShortFragmentAborts`.
  `FetchExact.FetchSucceedsIff` is the exact condition, in terms of the bytes
  the nodes answer with.
- `automation/durable_queue.py:57-63` says that lexical order is arrival order.
  The id is drawn before the rename that makes an item visible, so a slow put
  comes out late: `DurableQueueRuns.LateRenameReorders`.
  `DurableQueue.DrainedInOrderIffTimely` is the exact condition.  The docstring
  of `get_nowait` is met: no item is delivered twice.
- `automation/session_quarantine.py:260-267` overwrites an orphan whose id is
  used again: `SessionEvents.RepeatedIdOverwrites`.  `SessionEvents.NothingLostIff`
  says that a run loses a received event exactly when some event that attaches
  nowhere reuses the id of an orphan that is pending or quarantined, and
  `SessionEvents.OrphanChangesIff` is about one step.
- `automation/macro_triad.py:105` takes the failback commit from the first
  receipt of the canonical group.  The state does not depend on the order of the
  receipts, the commit can: `TriadReceipts.CommitFollowsOrder`.
  `TriadReceipts.CommitIndependentIff` says that it does not exactly when all
  voters for the state carry one commit.
- `automation/open_recorded_proposals.py:79-86` drops a queue entry it cannot
  read, so a recorded proposal can end up neither queued, opened nor
  dead-lettered: `ProposalRuns.UnreadableIsLost`.  `ProposalRuns.RunLosesIff` and
  `ProposalRuns.LostIff` say when.
- `automation/self_heal.py:68-79` takes convergence to mean that a pull request
  was opened, and sends an opened one that did not converge to human review.
  `Proposals.ConvergedMeansUrlIff` says for which targets convergence and a url
  are the same thing; the default target is one of them.  A negative target makes
  lines 78-79 run: `Proposals.NegativeTargetReviews` is an input, and
  `Proposals.HumanReviewIff` the exact condition.
- `engines/gossip_beacon.py:216-234` reports radius 1 for an isolated source when
  `self` is among the directions, since the first round is compared with nothing
  (`GossipBeacon.IsolatedAtRadiusOne`).  `GossipBeacon.CyclesIsLeastIff` says that
  this is the only case in which the radius reported is not the least one.  The
  note that a reach was truncated is wrong when the ceiling itself is a closed
  radius: `GossipBeacon.TruncatedIff`, with `GossipBeacon.CompleteWithoutConverging`
  as an input.

## Model

| member | source | states |
|---|---|---|
| Gf256.XTimeReducesModulo11B | automation/holographic_ida.py:38 | doubling with the code's mask is multiplication by x modulo 0x11B, computed on 16 bits |
| Gf256.NoShorterPeriod | automation/holographic_ida.py:33-39 | no power of 3 below the 255th is 1, so the loop that fills the tables meets no value twice |
| Gf256.EveryByteIsPower | automation/holographic_ida.py:32-44 | every nonzero byte is one of those 255 powers, so every logarithm is filled |
| Gf256.MulIsFieldProduct | automation/holographic_ida.py:47-50 | the product by logarithms is the shift-and-reduce product of the AES field, for every pair of bytes |
| Fields.TableFieldIsField | automation/holographic_ida.py:47-56 | exponent and logarithm tables of any additive generator of full order make a field |
| GfTables.Tables.constructor | automation/holographic_ida.py:28-44 | the filled tables give the field of Gf256 |
| GfTables.Tables.Mul | automation/holographic_ida.py:47-50 | the table lookup computes the field product |
| GfTables.Tables.Inv | automation/holographic_ida.py:53-56 | the inverse, or a division error exactly at zero |
| Polynomials.RootsForceZero | automation/holographic_ida.py:10-13 | a polynomial with as many distinct roots as coefficients is zero, over any field |
| Polynomials.PointsDetermine | automation/holographic_ida.py:10-13 | k values at distinct points determine k coefficients |
| Polynomials.InterpolateRecovers | automation/holographic_ida.py:77-92 | the Lagrange sum over values of a polynomial gives back its coefficients |
| HolographicIda.EvalPoly | automation/holographic_ida.py:59-64 | Horner's loop computes the value of the polynomial |
| HolographicIda.PolyMul | automation/holographic_ida.py:67-74 | the double loop with its skip of zero rows computes the convolution |
| HolographicIda.BasisPolynomial | automation/holographic_ida.py:82-88 | the numerator and denominator of one Lagrange basis polynomial |
| HolographicIda.InterpolateCoeffs | automation/holographic_ida.py:77-92 | the interpolating coefficients, or a division error exactly when a point repeats |
| HolographicIda.Disperse | automation/holographic_ida.py:109-124 | accepted exactly for 1 <= k <= n <= 255 and n distinct nonzero points; each fragment is the values of all blocks at its point |
| HolographicIda.Reconstruct | automation/holographic_ida.py:127-138 | the first k fragments by id, block by block, with both error cases |
| IdaTheorems.RoundTrip | automation/holographic_ida.py:109-138 | any k or more fragments, whichever they are, give the leaf back exactly |
| IdaTheorems.RebuildValues | automation/holographic_ida.py:127-138 | whatever the fragments hold, the data rebuilt from k of one length takes exactly their values at their points |
| IdaTheorems.DisperseAndReconstruct | automation/holographic_ida.py:109-138 | the two operations run one after the other: the leaf if k fragments are left, a ValueError otherwise |
| IdaTheorems.FewerThanK | automation/holographic_ida.py:3-8 | a set of fragments leaves the leaf undetermined exactly when it has fewer than k and fewer than the leaf has bytes |
| MeshTopology.Split3 | automation/mesh_topology.py:29-38 | the loop gives the balanced parts |
| MeshTopology.CollectLeaves | automation/mesh_topology.py:51-57 | the leaves in order |
| MeshTopology.LeavesOfBalanced | automation/mesh_topology.py:41-57 | building the tree and listing its leaves gives the nodes back in order |
| MeshTopology.HealthMonotone | automation/mesh_topology.py:85-91 | more nodes up never make a healthy mesh unhealthy |
| MeshTopology.NoSplitBrain | automation/mesh_topology.py:80-91 | two sets of nodes that each make the same tree healthy share a node of it, at any depth |
| MeshTopology.PartitionHasOneSide | automation/mesh_topology.py:80-91 | of two disjoint sides of a partition at most one is healthy |
| MeshHealth.OneHealthySide | automation/mesh_topology.py:80-91 | in any tree whose groups all have odd arity, whichever way the backends are split in two, exactly one side is healthy |
| MeshHealth.AlwaysOneSideIff | automation/mesh_topology.py:80-91 | for N distinct backends every split has exactly one healthy side if and only if all groups of the balanced tree are odd, a condition on N alone |
| MeshHealth.ToleratesExactly | automation/mesh_topology.py:80-91 | a mesh of N backends is healthy whichever fewer than Faults(N) are down, and some Faults(N) stop it; Faults is a recursion on N that counts no quorum |
| MeshHealth.PowerTolerates | automation/mesh_topology.py:80-91 | so 3^d backends survive the loss of any fewer than 2^d, and some 2^d stop them |
| MeshRotation.EveryoneLeads | automation/mesh_topology.py:67-77 | every leaf of any tree leads at some epoch of the turn |
| MeshRotation.EveryBackendLeads | automation/mesh_topology.py:67-98 | every backend of a balanced tree leads within the turn length computed from N |
| MeshRotation.ExactlyOnceIffEven | automation/mesh_topology.py:67-98 | every leaf leads exactly once per turn exactly when all siblings have equal turns |
| MeshRotation.ExactlyOnceBySize | automation/mesh_topology.py:9-12 | for a balanced tree that is exactly when N is a power of three or twice one |
| MeshRotation.FourBackends | automation/mesh_topology.py:9-12 | with four backends the turn has six epochs and two backends lead twice |
| FragmentPlacement.Place | automation/leaf_propagation.py:67-83 | the copies of each fragment along the stride, added up for an id that repeats, or the error for an empty mesh, too few nodes or nothing to place |
| FragmentPlacement.DistinctIdsPlaced | automation/leaf_propagation.py:67-83 | with distinct ids every fragment has exactly its own copies |
| FragmentPlacement.CopiesDistinct | automation/leaf_propagation.py:67-83 | no node holds two copies, of one fragment or of two |
| PlacementSpread.PlacementIsSpread | automation/leaf_propagation.py:67-83 | any two of the n R copies that a placement names are at least N / (n R) positions apart in the order of the N leaves |
| PlacementSpread.RunHoldsFew | automation/leaf_propagation.py:67-83 | with copies at least g apart, L leaves in a row hold at most L / g of them, rounded up |
| PlacementSpread.SubtreeHoldsFew | automation/leaf_propagation.py:67-83 | so any subtree of L leaves of the mesh, a triad or a larger group, holds at most L / (N / (n R)) copies, rounded up |
| FragmentPlacement.GroupsDisjoint | automation/storage_resilience.py:147-167 | the copies of the fragments are disjoint groups of R nodes |
| FragmentPlacement.FewLost | automation/storage_resilience.py:147-167 | seizing fewer than (spare + 1) R nodes loses at most `spare` groups |
| LeafPropagation.Propagate | automation/leaf_propagation.py:86-104 | succeeds exactly when the placement fits; then exactly the named slots hold the fragments and all others are untouched; on error nothing is written |
| LeafPropagation.Gather | automation/leaf_propagation.py:119-130 | for each fragment the first answer of a reachable copy |
| LeafPropagation.Fetch | automation/leaf_propagation.py:107-145 | the search over selections in order, with the attempt limit and every error |
| FetchTheorems.FetchIsVerified | automation/leaf_propagation.py:134-145 | whatever the nodes answer, bytes come back only if they have the committed root |
| FetchTheorems.FetchRoutesAround | automation/leaf_propagation.py:113-145 | k genuine fragments among answers of one length give the leaf, if the attempts cover the selections |
| FetchTheorems.HonestFetch | automation/leaf_propagation.py:134-145 | with only genuine answers the first attempt succeeds |
| FetchTheorems.WrittenIsStored | automation/leaf_propagation.py:86-104 | what a write leaves in the store is the leaf's dispersal at the nodes of its manifest |
| FetchTheorems.GatheredFromStore | automation/leaf_propagation.py:119-130 | from such a store exactly the fragments with a reachable copy are gathered, all genuine |
| FetchTheorems.FetchFromStore | automation/leaf_propagation.py:107-145 | k fragments with a reachable copy give the leaf |
| FetchTheorems.SurvivesSeizure | automation/leaf_propagation.py:67-145 | every seizure of fewer than (m + 1) R nodes leaves the leaf readable |
| FetchTheorems.SurvivesLoss | automation/leaf_propagation.py:67-145 | only the copies count: any nodes without one may be out of reach as well |
| FetchLimits.SeizureBoundIsTight | automation/leaf_propagation.py:67-145 | some seizure of (m + 1) R nodes makes it unavailable to every reader |
| PlacementLoss.SubtreeLossSurvives | automation/leaf_propagation.py:67-145 | losing a whole subtree of L leaves loses no leaf if L / (N / (n R)), rounded up, is below (m + 1) R |
| PlacementLoss.RunLossIff | automation/leaf_propagation.py:67-145 | whichever L leaves in a row are lost, the leaf can be read from the others, if and only if that holds |
| PlacementLoss.LeftSubtreeIff | automation/leaf_propagation.py:68-70 | the leaf can be read without a subtree on the left edge, a triad or a larger group, if and only if that holds of its leaves |
| PlacementLoss.GroupIsDecisive | automation/leaf_propagation.py:68-70 | with k = 3, m = 1 and one copy each on four nodes, no reader without the first group of the tree gets the leaf |
| FetchLimits.CorruptCopyMasksHonestOne | automation/leaf_propagation.py:119-145 | a lying first copy hides an honest second one: the read fails although an honest copy answers |
| FetchLimits.ShortFragmentAborts | automation/leaf_propagation.py:134-143 | a truncated fragment in the first selection aborts the read |
| FetchExact.DecodesIffLevel | automation/holographic_ida.py:127-138 | a selection decodes to some bytes exactly when no fragment is shorter than its first |
| FetchExact.DecodesToLeafIff | automation/holographic_ida.py:127-138 | a selection decodes to a given leaf exactly when no fragment is shorter than its first and, cut to that length, all hold the values at their points of one data that begins with the leaf |
| FetchExact.GenuineHolds | automation/holographic_ida.py:109-138 | genuine fragments hold those values |
| FetchExact.FetchSucceedsIff | automation/leaf_propagation.py:107-145 | for any answers: the leaf comes back exactly when k fragments answer and a selection that holds its values is tried before any uneven one and within the attempts |
| StorageResilience.TailSumIsTail | automation/storage_resilience.py:96-98 | the sum of binomial terms is the probability, shard by shard, that k or more of n survive |
| StorageResilience.SurvivalByNodes | automation/storage_resilience.py:88-98 | survival is the probability, node by node, that k or more shards keep one of their copies |
| StorageResilience.SurvivalIsProbability | automation/storage_resilience.py:88-98 | it lies between 0 and 1 |
| StorageResilience.SurvivalFallsWithSeizure | automation/storage_resilience.py:88-98 | it does not rise with the seized fraction |
| StorageResilience.ParityHelps | automation/storage_resilience.py:88-98 | one more parity shard never lowers it |
| StorageResilience.ReplicaHelps | automation/storage_resilience.py:88-98 | one more copy per shard never lowers it |
| MeshNamespace.ReplicasExist | automation/mesh_namespace.py:35-40 | a valid request always names at least one replica |
| MeshNamespace.ReplicasDistinct | automation/mesh_namespace.py:35-40 | on distinct nodes a key has exactly as many replicas as asked for, each on its own node |
| MeshNamespace.ReplicasOutweigh | automation/mesh_namespace.py:35-40 | they outweigh every other node for the key, the heaviest first |
| MeshNamespace.RankedStable | automation/mesh_namespace.py:35-40 | losing a node outside the first `count` leaves those `count` replicas as they were |
| MeshNamespace.PublishedAt | automation/mesh_namespace.py:47-53 | a publication changes exactly its key at exactly its targets |
| MeshNamespace.PublishBlob | automation/mesh_namespace.py:47-53 | the blob at the ranked replicas of its name, or an error and no change |
| MeshNamespace.PublishManifest | automation/manifest_store.py:66-73 | the manifest at the ranked replicas of its root |
| MeshNamespace.ReadAll | automation/mesh_namespace.py:56-69 | the blobs of the reachable replicas in order |
| MeshNamespace.WinnerUnique | automation/mesh_namespace.py:73-81 | last-writer-wins has one winner, no older than any answer |
| MeshNamespace.NewestWins | automation/mesh_namespace.py:73-81 | it has the highest version answered, among those the latest time, and among those the last writer |
| MeshNamespace.ResolveRef | automation/mesh_namespace.py:100-114 | that winner, with the error a list in place of a ref raises |
| MeshNamespace.ResolveManifest | automation/manifest_store.py:76-93 | the first manifest of the root asked for among the reachable replicas |
| MeshNamespace.ManifestHasRoot | automation/manifest_store.py:76-93 | a resolved manifest is for the root asked for |
| MeshSync.IndexRead | automation/mesh_sync.py:43-51 | the union of the lists served, or the error for a replica count the mesh cannot take |
| MeshSync.IndexAdd | automation/mesh_sync.py:54-58 | the union with the path, at the replicas of the index, or that error and no change |
| MeshSync.PutFile | automation/mesh_sync.py:61-72 | every stage in order; an impossible placement changes nothing; an impossible replica count raises with the fragments written and no record; a list where the ref should be raises with the manifest published |
| MeshSync.GetFile | automation/mesh_sync.py:75-83 | replica count, ref, manifest, leaf: every outcome of every stage |
| MeshSync.ListFiles | automation/mesh_sync.py:86-89 | the paths of the index, each once and in order, or the error for the replica count |
| MeshRuns.StepKeepsInv | automation/mesh_sync.py:61-72 | a put keeps the invariant of the drive: refs, manifests, fragments and index all describe the puts so far |
| MeshRuns.RunKeepsInv | automation/mesh_sync.py:61-72 | so does every run |
| MeshRuns.ReadsLatest | automation/mesh_sync.py:75-83 | after any run a read returns the last content put to the path and the number of puts as its version, with one reachable replica of each record and k fragments in reach |
| MeshRuns.SeizureLeavesReadable | automation/mesh_sync.py:75-83 | after any run, on distinct nodes, a seizure of fewer nodes than the replica count and than (m + 1) R leaves every path put readable at its latest version |
| MeshRuns.SeizedNameIsLost | automation/mesh_sync.py:75-83 | a seizure of as many nodes as the replica count can hide a name from every reader |
| MeshRuns.ReadIsVerified | automation/mesh_sync.py:75-83 | in every state of the store, a read that succeeds returns bytes whose hash is the root of the ref it returns, for the path asked for |
| DriveTampering.TamperedReadIff | automation/mesh_sync.py:75-83 | after any run and whatever the slots then hold: a read gives the last content and its version exactly when k fragments answer and one of the first 500 selections holds that content before an uneven one is met |
| DriveTampering.RoutesAroundTampering | automation/mesh_sync.py:75-83 | after any run, with fragments altered to other bytes of their length or removed: every read gives the last content and its version if k of those gathered are genuine and there are at most 500 selections of k of them |
| MeshRuns.NeverPutNotFound | automation/mesh_sync.py:75-83 | a path never put is not found, whoever is reachable |
| MeshRuns.ListsAllPaths | automation/mesh_sync.py:86-89 | one reachable replica of the index lists exactly the paths put |
| MeshRuns.SeizureLeavesListing | automation/mesh_sync.py:86-89 | a seizure of fewer nodes than the replica count leaves the whole listing |
| MeshRuns.NoListServed | automation/mesh_sync.py:61-72 | no put of a run finds a list where a ref should be |
| MeshRuns.PutAllFiles | automation/mesh_sync.py:61-72 | putting files one after the other is such a run, of exactly the puts that fit |
| MeshThreat.MedianBetween | automation/mesh_threat.py:71-72 | with fewer than half of the values outside a range on either side the median is in it |
| MeshThreat.LiarsCannotMoveSignals | automation/mesh_threat.py:59-75 | fewer than half lying reports cannot take any signal out of the honest range |
| MeshThreat.RawLevelMonotone | automation/mesh_threat.py:108-118 | worse signals never give a calmer level |
| MeshThreat.LiarsCannotMoveLevel | automation/mesh_threat.py:59-118 | so the level lies between those of the mildest and the worst honest signals |
| ThreatVotes.LevelByVote | automation/mesh_threat.py:59-118 | with an odd number of reports the level is hostile exactly when more than half suspect a partition, or report a cut-off, or report anomalies, at the hostile threshold, else elevated exactly when more than half report a cut-off, or anomalies, at the elevated one, else calm |
| ThreatVotes.LevelByMajority | automation/mesh_threat.py:59-118 | with any number of them, more than half force a level and fewer than half on every count exclude it |
| MeshThreat.StepIsNext | automation/mesh_threat.py:221-235 | a step of the controller is the hysteresis on the raw level of its reports |
| ThreatVotes.StepReports | automation/mesh_threat.py:131-161 | a step reports the worse of the level before and the one resolved at its own tier, an automatic escalation exactly when it rose, and a proposal exactly when the next state is calmer |
| MeshThreat.LevelCoversRaw | automation/mesh_threat.py:131-161 | in every run the level is never below the raw level of the cycle |
| MeshThreat.BlindIsHostile | automation/mesh_threat.py:59-118 | a cycle below quorum is hostile at once |
| MeshThreat.DwellIsStreak | automation/mesh_threat.py:131-161 | the dwell counter is the length of the current calm streak |
| MeshThreat.FallsExactlyAfterDwell | automation/mesh_threat.py:131-161 | the level falls exactly after a full streak of calmer cycles |
| DurableQueue.StepKeepsInv | automation/durable_queue.py:70-112 | every file operation keeps each item in exactly one place, unaltered, with one holder per claim |
| DurableQueue.EveryRunKeepsItems | automation/durable_queue.py:70-112 | so does every interleaving of any number of producers and consumers, crashes included |
| DurableQueue.NeverDeliveredTwice | automation/durable_queue.py:94-112 | no item is delivered twice in any interleaving |
| DurableQueue.LostOnlyAfterClaim | automation/durable_queue.py:101-111 | an item is lost only when the consumer that claimed it crashes or cannot read it |
| DurableQueue.TimelyRunsDeliverInOrder | automation/durable_queue.py:57-63 | a lone consumer gets ids in order if no item becomes visible after a newer one was picked |
| DurableQueue.DrainedInOrderIffTimely | automation/durable_queue.py:57-63 | for a run that drains the queue without losses this is exactly the condition |
| DurableQueueRuns.LateRenameReorders | automation/durable_queue.py:72-80 | a put that started first and was renamed late comes out second |
| DurableQueueRuns.SharedQueue.Put | automation/durable_queue.py:70-86 | whatever others do meanwhile, the item becomes visible with its content, or on failure never |
| DurableQueueRuns.SharedQueue.GetNowait | automation/durable_queue.py:89-112 | with others acting before every attempt: an item of the snapshot is handed over once with the content put; Empty only if nothing of the snapshot is left; undisturbed, the oldest item |
| ControlLoop.Run | automation/control_loop.py:95-144 | the loop acts until the first round at which it must stop and reports what it saw |
| ControlLoop.ActsAreBounded | automation/control_loop.py:95-144 | at most max_iterations acts; the first and the last error are those observed; converged exactly when the last is at most the target plus 1e-12, and it is the first that is; fail-closed exactly otherwise |
| ControlLoop.ConvergesIff | automation/control_loop.py:95-144 | converged exactly when the error comes on target before the iterations, the deadline or the patience run out |
| ControlLoop.StallCounts | automation/control_loop.py:118-126 | the stall counter is the number of readings in a row without improvement |
| ControlLoop.StuckMeansNoProgress | automation/control_loop.py:118-126 | stopping as stuck means that none of the last `patience` readings beat some earlier one |
| Proposals.RemedyIsBounded | automation/self_heal.py:51-72 | for every bounded loop whose target separates opened from not opened: at most max_iterations calls of the opener, and converged exactly when one of them gave a url |
| Proposals.ConvergedMeansUrlIff | automation/self_heal.py:51-79 | converged and a captured url are the same thing in every remediation exactly for those targets |
| Proposals.HumanReviewIff | automation/self_heal.py:74-80 | once a url is captured, the loop converged exactly when its target is not below zero by more than the tolerance; otherwise the pull request is sent to human review |
| Proposals.NegativeTargetReviews | automation/self_heal.py:78-79 | with target -1 an opened pull request is sent to human review |
| Proposals.RemedyCalls | automation/self_heal.py:51-72 | before the deadline of 30 seconds: one call when the first succeeds, two otherwise |
| Proposals.RemediateViaPr | automation/self_heal.py:35-80 | for every configuration: the sealed result and the number of calls of the opener, or the refusal of an unbounded loop |
| Proposals.Drainer.TakeBatch | automation/open_recorded_proposals.py:79-86 | the batch is taken up front, up to the limit or an unreadable entry |
| Proposals.Drainer.DrainAndOpen | automation/open_recorded_proposals.py:54-121 | the desk after a run, and one result per proposal taken |
| ProposalRuns.EveryHistoryKeepsInv | automation/open_recorded_proposals.py:76-121 | in any history each proposal is in one place and its attempts are the runs that picked it up |
| ProposalRuns.ExactlyOneFate | automation/open_recorded_proposals.py:76-121 | a recorded proposal is exactly one of queued, opened, dead-lettered or lost to an unreadable file |
| ProposalRuns.SixCallsAtMost | automation/open_recorded_proposals.py:28-121 | at most three runs pick a proposal up and the opener is called for it at most six times; a dead-lettered one was picked up exactly three times, one still queued fewer |
| ProposalRuns.RunCostsOneAttempt | automation/open_recorded_proposals.py:76-87 | a run costs each proposal of its batch exactly one attempt, the others none |
| ProposalRuns.RunLosesIff | automation/open_recorded_proposals.py:79-86 | a run loses a queued proposal exactly when it is unreadable, all before it are readable and the limit reaches it |
| ProposalRuns.LostIff | automation/open_recorded_proposals.py:76-121 | over a history: lost exactly when some run met it so |
| ProposalRuns.ThreeFatesIff | automation/open_recorded_proposals.py:76-121 | a recorded proposal is queued, opened or dead-lettered exactly when no run met it so |
| ProposalRuns.UnreadableIsLost | automation/open_recorded_proposals.py:79-86 | one recorded proposal and one run that cannot read it |
| ProposalRuns.ThreeRunsSettle | automation/open_recorded_proposals.py:106-120 | three runs over the whole queue leave it empty |
| SessionQuarantine.MatchMeans | automation/session_quarantine.py:269-280 | the match is the first session that shares the first key any session shares, and none exactly when no key is shared |
| SessionMembership.MatchFollowsKeys | automation/session_quarantine.py:269-280 | the same, written out key by key: conversation, parent, workspace, task |
| SessionQuarantine.SessionQuarantineProtocol.FindMatchingSession | automation/session_quarantine.py:269-280 | the nested loops find that session |
| SessionQuarantine.SessionQuarantineProtocol.EventReceived | automation/session_quarantine.py:157-179 | attached exactly when the session is known, queued as an orphan otherwise |
| SessionQuarantine.SessionQuarantineProtocol.Reconcile | automation/session_quarantine.py:185-228 | one pass, each recovery visible to the orphans after it and the quarantines last |
| SessionMembership.VisitRecovers | automation/session_quarantine.py:193-217 | a visit recovers a pending orphan exactly to the session it matches, which gains the event at its end, with one receipt that names it; every other session is as it was |
| SessionMembership.PassRecovers | automation/session_quarantine.py:185-228 | after a pass a pending orphan names exactly the session it matched at its visit, or none if it matched none |
| SessionRuns.EveryRunKeepsInv | automation/session_quarantine.py:157-304 | after any run with distinct ids each event is attached once, pending or quarantined, and each settled orphan has one true receipt |
| SessionRuns.ReceiptsTellTheTruth | automation/session_quarantine.py:282-304 | a receipt is the only one for its event, counts the passes in which it was waiting, and is no quarantine before the time to live is over |
| SessionMembership.EveryRunIsOrdered | automation/session_quarantine.py:157-304 | after any run, ids repeated or not, every event of a session names it or comes after one it shares a nonempty key with; a recovery receipt names the session that holds its event so; a quarantine receipt names none |
| SessionMembership.NamelessStaysEmpty | automation/session_quarantine.py:157-304 | a session registered under the empty name never holds an event |
| SessionRuns.NoneOverdueAfterPass | automation/session_quarantine.py:219-228 | no overdue orphan is left pending by a pass |
| SessionEvents.EveryCopyAccounted | automation/session_quarantine.py:157-304 | in any run, repeated ids or not, every receipt of an event is one copy of it in the protocol or one overwritten copy |
| SessionEvents.NothingLostIff | automation/session_quarantine.py:260-267 | everything received is still attached, pending or quarantined, as often as it was received, exactly when no event that attaches nowhere reuses the id of a pending or quarantined orphan |
| SessionEvents.DistinctIdsLoseNothing | automation/session_quarantine.py:157-304 | with distinct ids no event is lost |
| SessionEvents.OrphanChangesIff | automation/session_quarantine.py:260-267 | one step changes the event of an orphan exactly when it brings a different one with its id that attaches nowhere |
| SessionEvents.RepeatedIdOverwrites | automation/session_quarantine.py:260-267 | a second orphan with the same id makes the first vanish |
| MacroTriad.Assess | automation/macro_triad.py:52-127 | canonical state, commit, healthy and sick: the leading state if it reaches the quorum; the sick list in order, first the barred receipts, then the rest state by state, as the states arrived if one is canonical and sorted if none is |
| MacroTriad.ByRootInOrder | automation/macro_triad.py:95 | the sorted states are the same groups in the string order of their roots |
| MacroTriad.GroupingConserves | automation/macro_triad.py:65-81 | grouping by state neither drops nor repeats a receipt |
| MacroTriad.SickListIsRight | automation/macro_triad.py:65-118 | that list is, up to order, the verdict on each receipt by itself |
| MacroTriad.SickExplained | automation/macro_triad.py:65-118 | an entry is on it exactly when some receipt explains it: a malformed one by its name or place, a fenced one with its fence, any other with its commit, as diverged from the canonical state or unreconciled without one |
| TriadReceipts.Collect | automation/triad_receipts.py:51-75 | each master's first well-formed receipt is kept, and every other path is rejected with its reason |
| TriadReceipts.EveryPathAccounted | automation/triad_receipts.py:51-75 | every path is kept or rejected |
| TriadReceipts.CollectedAreDistinct | automation/triad_receipts.py:67-74 | no master counts twice |
| TriadReceipts.NoMasterDropped | automation/triad_receipts.py:67-75 | every master with a well-formed receipt has one |
| TriadReceipts.MajorityIsUnique | automation/macro_triad.py:83-89 | a quorum above half cannot be reached by two states |
| TriadReceipts.CanonicalIffMasters | automation/macro_triad.py:52-127 | for collected receipts and such a quorum: canonical exactly when quorum-many distinct unfenced masters commit to it |
| TriadReceipts.OrderDoesNotMatter | automation/macro_triad.py:83-89 | the canonical state does not depend on the order of the receipts, for any quorum |
| TriadReceipts.EveryReceiptCountedOnce | automation/macro_triad.py:52-127 | healthy and sick together are as many as the receipts |
| TriadReceipts.CommitIndependentIff | automation/macro_triad.py:104-106 | the failback commit is the same in every order of the receipts exactly when all voters for the canonical state carry one commit |
| TriadReceipts.CommitFollowsOrder | automation/macro_triad.py:104-106 | two receipts of one state with different commits, in either order, give different failback commits |
| TriadReceipts.UnsortedSplit | automation/macro_triad.py:91-103 | a split whose later state arrived first has no canonical state and is listed in string order |
| GossipBeacon.Emit | engines/gossip_beacon.py:236-293 | each repository within the hops exactly once, nearest first, at its shortest distance, found from a node one hop closer, laterally whenever a lane leads there and by the first such lane, upstream only if not downstream, and from the first recorded node that leads there |
| GossipPaths.ReachedIffPath | engines/gossip_beacon.py:236-293 | a repository is within n hops exactly when a path of at most n links, each a shared lane or an edge, leads there |
| GossipBeacon.Converge | engines/gossip_beacon.py:191-234 | converged exactly when the reach is closed below the ceiling; then the whole reach at the first closed radius compared, otherwise the reach at the ceiling |
| GossipBeacon.TruncatedIff | engines/gossip_beacon.py:226-234 | a report that is not converged is nevertheless complete exactly when the ceiling is a closed radius |
| GossipBeacon.CompleteWithoutConverging | engines/gossip_beacon.py:226-234 | an input whose report is complete and not converged |
| GossipBeacon.CyclesIsLeastIff | engines/gossip_beacon.py:212-223 | the radius of a converged report is the least closed one, except for an isolated source with `self` among the directions |
| GossipBeacon.IsolatedAtRadiusOne | engines/gossip_beacon.py:212-223 | in that case it is 1, although radius 0 is closed |
| GossipBeacon.ClosedStays | engines/gossip_beacon.py:191-205 | once a hop adds nobody no later hop does |
| DependencyCycles.CycleSearch.DetectCycles | engines/propagation_engine.py:674-699 | reports something exactly when the graph has a cycle, and only simple cycles, each once |
| DependencyCycles.TopologicalIsAcyclic | engines/propagation_engine.py:674-699 | a graph whose nodes can be ordered after all their neighbours has no cycle |
| ServiceCycles.CanonicalIffRotation | tools/check_service_dependency_cycles.py:87-90 | two cycles have the same key exactly when one is a rotation of the other |
| ServiceCycles.BuildGraph | tools/check_service_dependency_cycles.py:94-96 | the adjacency lists hold the listed edges and no others |
| ServiceCycles.FindCycles | tools/check_service_dependency_cycles.py:93-114 | every simple cycle of at most twelve services is reported once up to rotation, and nothing else |

## Left out

- Events whose `event_id` is present but empty, for which the queue invents an id the event does not carry.
- Nodes of equal rendezvous weight, which the source ranks in the iteration order of a set: no two nodes are assumed to weigh the same for the paths, roots and index name in use.
- Transports, serialisation and SHA-256: hashes are abstract functions and theorems that need it assume no collision among the contents in question.
- The layout of the queue directory on disk: ids are integers in file-name order, one directory listing is one step, and a claimed file left by a crash counts as lost.
- Clocks of different machines: ids of different producers are just different integers.
- `mesh_sync.push_dir` and `pull_dir`, which loop over the modelled operations.
- `mesh_sync.put_file` by several writers at once: runs of the drive are sequences of completed puts.
- `mesh_threat.optimal_tier`, `load_threat_policy` and the loading of registries.
- `propagation_engine.compute_cascade` and `merge_order`: simpler traversals of the graph `detect_cycles` works on.
- `gossip_beacon.load` and `norm`: the tables are given, each collection already in sorted order, and names are normalised.
- The token grammar of `lazerus.lint_receipt`: a document lints or it does not.
- Wording of reasons, log lines, trace hashes, evidence references and receipt ids.
- Python's recursion limit for the two cycle searches.
- A put of the dead-letter or proposal queue that fails, and a drain that is killed half-way.
- Single-function modules such as the rate limiter, suppression, learning and policy, which would only add easy members.
- HolographicIda.Disperse: evaluation points are bytes; a caller that passes `xs` outside 0..255 gets Python's list indexing, which is not modelled, and `propagate` passes none.
- FetchTheorems.FetchRoutesAround: assumes answers of one length; FetchExact.FetchSucceedsIff has the exact condition.
