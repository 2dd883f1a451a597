# Octomap merger, modelled in Dafny

This project models the merge core of a multi-robot occupancy-map merger node
(marble_octomap_merger), and proves properties of that model. Each agent
does the following in every cycle:

1. It diffs its own occupancy tree against the baseline it last published.
2. It publishes the diff only when the diff has more than `mapThresh` new leaves.
3. It merges that diff into a stamped merged tree as authoritative.
4. It then folds in every neighbour diff it has not applied before. The
   newest diff from a neighbour may overwrite nodes this agent has not claimed.
   An older diff that arrives late may only add nodes.

The model has six modules.

- `Octree` (octree.dfy): the trees as the merger sees them.
  - A tree is a finite map from leaf keys to log-odds values.
  - A stamped tree adds a provenance stamp to every leaf: 0 means unclaimed, 1 means claimed.
  - Expansion and pruning change only the representation, so they disappear from the model.
- `DiffEngine` (diff.dfy): `build_diff_tree`.
  - It is a loop over the leaves of the newer tree, proved against the reference function `Diff` and the set `NewKeys`.
- `MergeEngine` (merge.dfy): `merge_maps`.
  - It is a loop over the source leaves, proved against the reference function `Merged`.
  - `replace` and `overwrite` select one of three policies: authoritative, conditional and add-only.
- `Messages` (messages.dfy): the encoded tree, the list of trees and the neighbour lists.
  - It holds only the fields the merge reads: the sequence number and the payload bytes of an encoded tree.
- `SequenceLedger` (ledger.dfy): the neighbour phase as pure functions.
  - `ApplyDiff` handles one diff, `ApplyDiffs` one neighbour list, and `ApplyNeighbors` all lists.
  - The ledger is the per-neighbour list of applied sequence numbers (`seqs`).
  - The ghost log `applied` records every neighbour merge that was performed.
- `Orchestrator` (orchestrator.dfy): the node itself.
  - The class `OctomapMerger` has the node's fields (`treeOld`, `treeMerged`, `treeDiff`, `numDiffs`, `mapdiffs`, `seqs`), its two flags and the last messages received.
  - Its methods are the two callbacks, the merge cycle `Merge` (split into its own-map and neighbour phases) and `Tick`, the flag-gated body of the main loop.
  - `Merge` is proved to produce `CycleSpec` of the old state. `CycleSpec` is a function on the value `MergerState`, and the lemmas about the cycle are stated about it.

Occupancy is an uninterpreted function `occupancy: LogOdds -> Occupancy` in the node's configuration. The occupancy test in the diff is the exact comparison the code performs.

The message codecs (`binaryMsgToMap`, `fullMsgToMap`, `binaryMapToMsg`, `fullMapToMsg`) are also function fields of the configuration. A decoder reads the payload bytes only and returns `None` where the library returns a null tree.

Leaves are visited in an unspecified order (a `:|` choice over the keys still to visit), so nothing proved depends on the octree's iteration order.

Three choices follow the code rather than a looser reading of its intent:

- **Neighbour decode failure.** The code records the sequence number before decoding, and then merges the decoded tree without a null check (src/octomap_merger_node.cpp:127-141). The neighbour phase therefore requires every listed neighbour diff to decode, recorded ones included, and it does not invent a skip. Only `ApplyDiff` and `MergeNeighborDiff`, which handle one diff, need a decode just for an unrecorded number.
- **Own decode failure on a base.** Only a robot returns when its own map does not decode (src/octomap_merger_node.cpp:80). A base passes the null tree on to `build_diff_tree`. The precondition `CanCycle` excludes that case.
- **Claimed nodes.** The code decides by the stamp alone (`getTimestamp() == 0`), and so does the model.

## Model

| member | source | states |
|---|---|---|
| DiffEngine.BuildDiffTree | src/map_merger.cpp:3-27 | The result is the incoming diff tree overwritten with exactly those leaves of `tree2` that are new or whose occupancy differs from `tree1`, each with `tree2`'s log-odds. The count is the number of leaves of `tree2` absent from `tree1`. `tree1` is an input only, so it never changes. |
| DiffEngine.Diff | src/map_merger.cpp:11-26 | The diff holds only leaves of the newer tree, each with the newer tree's log-odds. |
| DiffEngine.Differs | src/map_merger.cpp:13-21 | A leaf the baseline lacks always belongs in the diff. A leaf the baseline has belongs in it exactly when the two occupancies differ. |
| DiffEngine.NewKeys | src/map_merger.cpp:11-26 | The counted leaves are leaves of the newer tree that the baseline lacks. |
| DiffEngine.DiffContents | src/map_merger.cpp:11-24 | A key is in the diff if and only if it is a leaf of the newer tree that is missing from the baseline or has a different occupancy there. Its value is the newer tree's log-odds. |
| DiffEngine.DiffSelf | src/map_merger.cpp:14-18 | Diffing a tree against itself gives an empty diff and a new-leaf count of 0. |
| DiffEngine.DiffOfEmpty | src/map_merger.cpp:11-26 | An empty newer tree gives an empty diff and a count of 0. |
| DiffEngine.NewKeysInDiff | src/map_merger.cpp:14-23 | Every counted leaf is in the diff, so the count never exceeds the diff's size. The diff's keys beyond the counted ones are exactly the changed-occupancy leaves, which are written but not counted. |
| DiffEngine.DiffRestoresOccupancy | src/map_merger.cpp:11-24 | Writing the diff over the baseline yields, at every leaf of the newer tree, the newer tree's occupancy. |
| MergeEngine.Stamp | src/map_merger.cpp:37 | The stamp written is 0 or 1, and it is 1 exactly for an authoritative merge. |
| MergeEngine.Writes | src/map_merger.cpp:43-50 | Authoritative: every source leaf is written. Add-only: a leaf is written exactly when the destination lacks it. Conditional: a leaf is written exactly when the destination lacks it or holds it with stamp 0. |
| MergeEngine.Merged | src/map_merger.cpp:40-54 | The merged tree keeps every key of the destination and holds every key of the source. |
| MergeEngine.MergeMaps | src/map_merger.cpp:29-55 | The result is `Merged`. Each source leaf is written with stamp `replace ? 1 : 0` when it is new, when `replace` holds, or when `overwrite` holds and the existing node has stamp 0. Every other node is kept. |
| MergeEngine.MergeKeepsNodes | src/map_merger.cpp:40-54 | A merge never removes a key. The keys afterwards are the old keys together with the source's keys, and nodes the source lacks are unchanged. |
| MergeEngine.ReplaceWins | src/map_merger.cpp:37-52 | With `replace`, every source key ends with the source's value and stamp 1. |
| MergeEngine.NonReplacePolicy | src/map_merger.cpp:43-53 | Without `replace`: a node with a nonzero stamp is unchanged; with `overwrite` false, every existing node is unchanged; new and overwritten nodes get stamp 0; with `overwrite`, an unclaimed node takes the source's value. |
| MergeEngine.MergeIdempotent | src/map_merger.cpp:40-54 | Merging the same source twice with the same flags gives the same tree as merging it once. |
| MergeEngine.MergeKeepsStampsBinary | src/map_merger.cpp:37-52 | If every stamp is 0 or 1 before a merge, every stamp is 0 or 1 after it. |
| Messages.Listed | src/octomap_merger_node.cpp:121-122 | The diffs the inner loop visits are the first `num_octomaps` entries of the list, in order. |
| Messages.Visited | src/octomap_merger_node.cpp:118-119 | The lists the outer loop visits are the first `num_neighbors` entries, in order. |
| SequenceLedger.Max | src/octomap_merger_node.cpp:135 | The result is an element of the non-empty list and no element exceeds it, as `std::max_element` gives. |
| SequenceLedger.Touch | src/octomap_merger_node.cpp:123 | The lookup `seqs[nid]` gives an unknown id an empty record and leaves every other entry as it was. |
| SequenceLedger.CountPositiveIffIn | src/octomap_merger_node.cpp:123 | `Count` (`std::count`) of a number in a record is positive exactly when the number is an entry of the record. |
| SequenceLedger.SeenIsCounted | src/octomap_merger_node.cpp:123 | `Seen` holds exactly when `std::count` of the number in the looked-up record is nonzero, which is the code's `exists`. |
| SequenceLedger.LatestIsMax | src/octomap_merger_node.cpp:135 | `IsLatest` holds exactly when the record is empty or its largest entry is at most the number. |
| SequenceLedger.OverwriteIffLatest | src/octomap_merger_node.cpp:127-138 | Comparing the new number with the maximum after appending it is the same as requiring it to be at least every number recorded before. |
| SequenceLedger.ApplyDiff | src/octomap_merger_node.cpp:122-145 | Afterwards the diff's number is recorded for its owner. The merge log is extended by at most one entry. The diff must decode only when its number is not recorded yet. |
| SequenceLedger.ApplyDiffs | src/octomap_merger_node.cpp:121-146 | One neighbour list extends the merge log by at most one entry per listed diff, and never drops an entry. |
| SequenceLedger.ApplyNeighbors | src/octomap_merger_node.cpp:118-147 | The neighbour phase only appends to the merge log. |
| SequenceLedger.ApplyDiffEffect | src/octomap_merger_node.cpp:122-145 | Afterwards the number is recorded. A number recorded already changes nothing, whether or not its payload decodes. A new number is appended to its owner's record and logged, and its diff is merged with `replace` false and `overwrite` true exactly when the number is the latest. |
| SequenceLedger.ApplyDiffKeepsOk | src/octomap_merger_node.cpp:122-145 | One diff keeps the ledger invariant: no record holds a number twice, no (owner, number) pair is merged twice, and the ledger records exactly the logged merges. Records only grow, and the log is only appended to. |
| SequenceLedger.ApplyDiffsKeepsOk | src/octomap_merger_node.cpp:121-146 | One neighbour list keeps the ledger invariant, only extends records and only appends to the log. |
| SequenceLedger.ApplyNeighborsKeepsOk | src/octomap_merger_node.cpp:118-147 | The whole neighbour phase keeps the ledger invariant, only extends records and only appends to the log. Each (neighbour, number) pair is merged at most once. |
| SequenceLedger.ApplyDiffsSeesAll | src/octomap_merger_node.cpp:121-146 | After one list, every diff number on it is recorded for its owner. |
| SequenceLedger.ApplyNeighborsSeesAll | src/octomap_merger_node.cpp:118-147 | After the neighbour phase, every visited diff number is recorded. |
| SequenceLedger.ApplyDiffsSeenIsNoop | src/octomap_merger_node.cpp:123-125 | A list whose numbers are all recorded changes nothing. |
| SequenceLedger.ApplyNeighborsSeenIsNoop | src/octomap_merger_node.cpp:118-147 | Lists whose numbers are all recorded change nothing. |
| SequenceLedger.ReplayIsNoop | src/octomap_merger_node.cpp:118-147 | Receiving the same neighbour lists a second time merges nothing. |
| SequenceLedger.ApplyDiffsKeepsClaimed | src/octomap_merger_node.cpp:121-146 | Neighbour merges never remove a node and never change a node with a nonzero stamp. |
| SequenceLedger.ApplyNeighborsKeepsClaimed | src/octomap_merger_node.cpp:118-147 | The neighbour phase never removes a node and never changes a claimed node. |
| SequenceLedger.ApplyDiffsKeepsStamps | src/octomap_merger_node.cpp:121-146 | Neighbour merges keep every stamp at 0 or 1. |
| SequenceLedger.ApplyNeighborsKeepsStamps | src/octomap_merger_node.cpp:118-147 | The neighbour phase keeps every stamp at 0 or 1. |
| SequenceLedger.ApplyDiffsFirstContact | src/octomap_merger_node.cpp:122-141 | Diffs with distinct numbers from a neighbour the ledger has never recorded are all recorded, in arrival order. Each is merged once, with overwrite exactly when no earlier diff of the list has a larger number. |
| SequenceLedger.OutOfOrderArrival | src/octomap_merger_node.cpp:122-141 | For diffs 3, 1, 2, 1 from a new neighbour: only 3 is merged with overwrite, 1 and 2 are merged add-only, and the repeated 1 is skipped. The record ends as [3, 1, 2]. |
| Orchestrator.OctomapMerger.constructor | src/octomap_merger_node.cpp:29-38 | A new node has both flags lowered, empty trees and ledger, zero diffs and an empty outbound list, and its invariant holds. |
| Orchestrator.OctomapMerger.CallbackMyMap | src/octomap_merger_node.cpp:63-66 | It stores the own map and raises its flag. Nothing else changes. |
| Orchestrator.OctomapMerger.CallbackNeighborMaps | src/octomap_merger_node.cpp:68-72 | It stores the neighbour lists and raises their flag. Nothing else changes. |
| Orchestrator.OctomapMerger.Merge | src/octomap_merger_node.cpp:74-147 | The new state is `CycleSpec` of the old one. The node's invariant is kept. The messages and flags are untouched. |
| Orchestrator.OctomapMerger.MergeOwnMap | src/octomap_merger_node.cpp:82-114 | The new state is `OwnPhase` of the old one: the diff is built, published on a pass of the gate with sequence number `num_diffs - 1`, and the diff tree ends empty. |
| Orchestrator.OctomapMerger.PublishDiff | src/octomap_merger_node.cpp:87-104 | On a pass of the gate the own map becomes the baseline, the diff is merged with `replace` true, the count goes up by one, and the encoded diff is appended to the outbound list with number `num_diffs - 1` and `num_octomaps` set to the count. The ledger and log are untouched. |
| Orchestrator.OctomapMerger.MergeNeighborMaps | src/octomap_merger_node.cpp:116-147 | The ledger, merged tree and log become `ApplyNeighbors` of their old values over the visited lists. |
| Orchestrator.OctomapMerger.MergeNeighborList | src/octomap_merger_node.cpp:119-146 | The ledger, merged tree and log become `ApplyDiffs` of their old values over the listed diffs of one neighbour. |
| Orchestrator.OctomapMerger.MergeNeighborDiff | src/octomap_merger_node.cpp:122-145 | The ledger, merged tree and log become `ApplyDiff` of their old values for one diff. Its payload must decode only when its number is not recorded yet. |
| Orchestrator.OctomapMerger.Tick | src/octomap_merger_node.cpp:187-195 | With either flag raised, both flags are lowered and the state becomes `CycleSpec` of the old one. Otherwise nothing changes. |
| Orchestrator.MsgToMap | src/octomap_merger_node.cpp:75-78 | Message type 0 selects `binaryMsgToMap`, any other type `fullMsgToMap`. The neighbour diffs are decoded with the same choice (src/octomap_merger_node.cpp:128-131). |
| Orchestrator.MapToMsg | src/octomap_merger_node.cpp:94-97 | Message type 0 encodes with `binaryMapToMsg`, any other type with `fullMapToMsg`. |
| Orchestrator.CyclePreservesValid | src/octomap_merger_node.cpp:93-147 | A cycle keeps the invariant: `num_octomaps` equals the list length equals `num_diffs`; the i-th outbound diff carries number i; stamps are 0 or 1; the ledger invariant holds, so each (neighbour, number) pair is merged at most once. Every ledger record only grows, and the merge log is only appended to. |
| Orchestrator.CanCycle | src/octomap_merger_node.cpp:80-141 | A robot whose own map does not decode can always run a cycle, since it returns at once. Any other node that can run a cycle has an own map that decodes. |
| Orchestrator.OwnPhase | src/octomap_merger_node.cpp:82-114 | The own-map phase leaves the ledger and the merge log alone and removes no merged leaf. The count is either unchanged or one more, and in the second case the own map is the new baseline. |
| Orchestrator.NeighborPhase | src/octomap_merger_node.cpp:116-147 | The neighbour phase leaves the baseline, the count and the outbound list alone, and only appends to the merge log. |
| Orchestrator.CycleSpec | src/octomap_merger_node.cpp:74-147 | A cycle raises the count by at most one and only appends to the merge log. |
| Orchestrator.PublishGate | src/octomap_merger_node.cpp:87-111 | The count grows by exactly one if and only if the new-leaf count exceeds `mapThresh`, and it is unchanged otherwise. On a pass, the baseline becomes the own map and the encoded diff is appended with number `num_diffs - 1`. On a fail, the baseline and the outbound list are unchanged. |
| Orchestrator.RobotDecodeFailure | src/octomap_merger_node.cpp:80 | A robot whose own map does not decode leaves the whole state as it was. |
| Orchestrator.OwnDiffAuthoritative | src/octomap_merger_node.cpp:87-147 | After a publishing cycle, every diff leaf is in the merged tree with the own map's value and stamp 1, whatever the neighbours sent in the same cycle. The own diff is merged first and neighbour merges never change claimed nodes. |
| Orchestrator.CycleKeepsNodes | src/octomap_merger_node.cpp:87-147 | A cycle never removes a leaf from the merged tree. A claimed leaf keeps its value and stamp unless this cycle's own published diff writes it. |
| Orchestrator.CycleTwiceIsOnce | src/octomap_merger_node.cpp:74-147 | With a threshold of at least 0, a second cycle on the same messages changes nothing. |
| Orchestrator.SequenceNumbersIncrease | src/octomap_merger_node.cpp:93-104 | Under the invariant, outbound sequence numbers strictly increase along the list, so none is reused. |
| Orchestrator.FirstPublication | src/octomap_merger_node.cpp:80-111 | Against an empty baseline, an own map with two leaves and a threshold of 1 publishes. The map becomes the baseline, the count grows by one, and both leaves end claimed with their own values. |

## Left out

- ROS plumbing is not modelled: parameter loading, subscribers and publishers, message headers other than the sequence number, time stamps, frame ids and the loop rate. Publishing the outbound list and the counter (src/octomap_merger_node.cpp:105-110) is represented only by the updated `mapdiffs` and `numDiffs`.
- The merged map is not published. Pruning `tree_merged`, encoding it and publishing it (src/octomap_merger_node.cpp:162-171) produce no state the cycle reads again.
- The base-station branch (src/octomap_merger_node.cpp:149-160) is left out. It converts the merged tree to a point cloud, which uses floating-point coordinates and the PCL library.
- The ICP and alignment declarations and `combine_diffs` in include/octomap_merger.h are left out. They have no bodies here.
- The message codecs and the octree library are not part of this model. The codecs are opaque function fields of `Config`. `expand`, `prune`, `swapContent` and `delete` are treated as preserving the key-to-value map, and pointer ownership becomes value assignment.
- `setTimestamp` is applied to the node pointer that `setNodeValue` returns (src/map_merger.cpp:46-47, 51-52). If the octree library prunes on write, that pointer may be a coarser parent node, and its stamp would then cover the sibling leaves too. The model stamps exactly the one key written.
- `setNodeValue` is modelled as storing the given log-odds. Any clamping the octree library applies when it stores a value is not modelled.
- `getOccupancy` is an uninterpreted function of the log-odds: float arithmetic and float equality are not modelled.
- The ledger is keyed by the whole owner string. The code keys `seqs` by `nid.data()` (src/octomap_merger_node.cpp:123, 127, 135), which rebuilds the key from a C string and so cuts an owner id at its first NUL character; owner ids that differ only after a NUL share one record there and not in the model.
- Integer widths are not modelled: `num_diffs` (int), `header.seq` (uint32) and the `int` records in `seqs` are unbounded naturals, so 32-bit wrap-around and the uint32-to-int conversion are not captured.
- Orchestrator.OctomapMerger.Merge requires (through `CanCycle`) that every listed neighbour diff decodes, including diffs already recorded. The code never decodes those, and a diff that fails to decode leads it to a null dereference, not a skip.
- Orchestrator.OctomapMerger.MergeNeighborMaps requires every listed diff to decode, for the same reason.
- SequenceLedger.ApplyNeighbors requires every listed diff to decode, including diffs already recorded, for the same reason.
- SequenceLedger.ApplyDiffs requires every diff of the list to decode, including diffs already recorded, for the same reason.
- Orchestrator.OctomapMerger.MergeNeighborList requires every listed diff to decode, for the same reason.
- Orchestrator.OctomapMerger.Tick requires `CanCycle` when a flag is raised, for the same reason.
- Orchestrator.CycleSpec is defined only under `CanCycle`. That leaves out a base whose own map does not decode, which the code passes on as a null tree. It also leaves out declared counts (`num_neighbors`, `num_octomaps`) that exceed their lists, which the code indexes without a bound check. And it requires every listed neighbour diff to decode, including diffs already recorded, which the code skips without decoding (src/octomap_merger_node.cpp:123-125).
- Orchestrator.CanCycle excludes, once the own map decodes, neighbour lists whose declared counts exceed their lengths and any listed diff that does not decode, including diffs already recorded, which the code skips without decoding (src/octomap_merger_node.cpp:123-125). It also excludes a base whose own map does not decode.
- The decoders are modelled on the payload bytes alone. The library's `binaryMsgToMap` and `fullMsgToMap` also read the message's `binary` flag, its `id` and its `resolution`, and return a null tree when the flag does not match the decoder. A `Decoder` may return `None` for any payload, so it covers that null result, but it cannot depend on those fields.
- The agent id, the map resolution and the topic names are configuration the merge logic never reads; they are not modelled.
- The ghost field `history` and the log `applied` in `Progress` exist only in the model. They record the neighbour merges so that "each pair merged at most once" can be stated.
