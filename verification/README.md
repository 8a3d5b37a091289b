# habitat-graph, verified

A Dafny model of the stateful core of habitat-graph and proofs about it. Four connected parts:

1. **Graph build and merge** (`Ids`, `Probing`, `Lists`, `Schema`, `Dedup`, `Interning`, `Pipeline`,
   `Rebuild`, `Assignment`, `Assemble`, `Merge`, `MergeAlgebra`, `Incremental`, `MergeDriver`,
   `MergeLaws`, `MergeGrouping`, `CommunityLaws`):
   labels are interned to 32-bit ids by linear probing with wrap-around, edges are resolved,
   duplicates removed, collections sorted. The content hash is an arbitrary function from labels to
   ids, so every result covers hashes with collisions. The one assumption is that at most 2^32
   distinct labels are interned; beyond that the program's probing loop does not end.
2. **Cache** (`Recency`, `Cache`, `CacheKey`): the LRU store as two classes, memoization on top,
   whole request histories, and the byte string a cache key is the digest of.
3. **Line reader and connection loop of the daemon** (`Bytes`, `LineReader`, `Connection`): a stream
   cut into arbitrary chunks, a cap, a peer that may stop taking bytes.
4. **Escapers, Cypher exporter and degree ranking** (`Escape`, `Decimal`, `Cypher`, `Degrees`).

The imperative operations are methods (loops with invariants, classes where the source has objects)
proved equal to a specification function; the lemmas then say what that function promises. For each
operation at least one lemma does so in plain terms, without the functions the program is specified
with: literal bytes and numbers, first and last occurrences, orders by comparison (`…Plainly`,
`…Spelled`, `…InOrder`). What the
source calls `label` is `name` here, since `label` is a Dafny keyword.

The main idea of part 1: `assemble`, `merge` and `merge3` all come down to one pipeline applied to a
list of raw nodes and a list of raw edges (`Pipeline.BuiltNodes`, `Pipeline.BuiltEdges`). Its meaning
is proved once (`Pipeline.BuiltNodesMeaning`, `Pipeline.BuiltEdgesMeaning`), as is the fact that its
result is determined by few data (`Pipeline.BuiltNodesEqual`, `Pipeline.BuiltEdgesEqual`), and which
table of ids a walk over the labels hands out is characterised exactly, collisions included
(`Assignment.AssignmentIff`): each slot between a content id and the id given is held by a label
that occurs earlier. The laws of the three operations follow.

## Where the code and its documentation disagree

The model follows the code. Each point is a pair of results: inputs that show the disagreement, and
the exact condition under which the promise holds.

- "The same set of labels always yields the same id assignment" (assemble.rs:98-99): only the *set* of
  ids is a function of the set of labels (`Interning.IdSetOrderFree`). The assignment is, if and only
  if the content ids are distinct (`Interning.AssignmentOrderFreeIff`); any two colliding labels refute
  it otherwise (`Assemble.AssignmentDependsOnOrder`).
- "Adding or removing one symbol does not renumber the others" (assemble.rs:49-51, ids.rs:64-66):
  symbols added at the end renumber nobody, whatever the hash
  (`Assemble.LaterExtractionsRenumberNobody`). Adding a symbol anywhere renumbers nobody if and only
  if the slot its probe ends in, over the ids of the labels before it, is not in use
  (`Assemble.AddingLabelRenumbersNobodyIff`); removing one renumbers nobody if and only if no other
  label's probe passed through its slot (`Assemble.RemovingLabelRenumbersNobodyIff`). Of two colliding
  labels, removing the first comer renumbers the other (`Assemble.RemovalRenumbers`).
- "Incremental update == full rebuild" (merge.rs:57-58): an edge from one batch into another is lost
  (`Incremental.CrossReferenceLost`), and a collision across batches changes ids although nothing
  wraps and no batch refers to the other (`Incremental.CollisionAcrossBatches`). The exact condition,
  for any hash and any two batches, is `Incremental.UpdateEqualsRebuildIff`, stated on the existing
  graph and the batches: no id of the existing graph wrapped around, the ids that the new batch gets
  from there in its own order fit the order in which the update walks the labels, and every
  resolvable edge key is unharmed by the split. `Incremental.UpdateAgainstRebuild` gives what holds without any condition;
  `Incremental.EmptyUpdateIff` the simpler condition for an empty second batch.
- "A merged graph carries the same ids a fresh assemble would give" (merge_driver.rs:194-195): the
  same *set* of ids always. The very ids of a fresh assemble of the surviving labels, if and only if
  these fit the order of the winners (`MergeLaws.FreshIdsIff`); those of every such assemble, if and
  only if the content ids are distinct (`MergeLaws.AllFreshIdsIff`). Two labels with the last content
  id refute it: one wraps around (`Assemble.LabelsWrapAround`), and merging their graph with itself
  swaps their ids (`MergeLaws.WrappedLabelsSwap`).
- "Capped at `max_bytes` content bytes" (uds.rs:211): a chunk that holds the newline is not tested.
  A terminated line is always accepted up to the cap and always rejected from cap plus buffer size
  on; in between the chunking decides (`LineReader.WindowIsReal`), and a line is rejected exactly if
  more than the cap arrives before the chunk with its newline (`LineReader.TerminatedLine`). For a
  whole connection, all chunkings of a stream get the same answer if and only if the first line in
  between, if any, is blank and followed by blank lines up to one that is too long in any case
  (`Connection.AnsweredAlikeIff`).
- "Any change to any component yields a different key" (key.rs:13-14), before hashing: false for a
  stage that contains its own separator (`CacheKey.StageImitatesInput`) and for an input whose length
  reads as the config separator (`CacheKey.LengthImitatesConfig`). The exact conditions: the stages of
  a program are told apart, over all inputs of clean length, if and only if none goes on after another
  with the separator (`CacheKey.DistinguishedIff`); a list of inputs is mistaken for another, whatever
  the stage, if and only if the length of one of them is that one or overflows the length field
  (`CacheKey.InputsCollideIff`). `CacheKey.ReadBackIff` answers a narrower question, when the parser
  that stops at the first separator recovers a triple.

## Model

| member | source | states |
|---|---|---|
| Probing.AssignUniqueContentId | crates/habitat-graph-build/src/assemble.rs:100-106 | The probing loop ends whenever fewer than 2^32 ids are in use, in the first free slot at or after the content id in cyclic order, and marks exactly that slot used |
| Probing.FirstFreeIsUnique | crates/habitat-graph-build/src/assemble.rs:100-106 | There is only one first free slot, so the declarative description determines the result of probing |
| Probing.OccupyCommutes | crates/habitat-graph-build/src/assemble.rs:96-106 | Two requests occupy the same two slots in either order, for any table |
| Probing.OccupyOrderFree | crates/habitat-graph-build/src/assemble.rs:96-106 | The set of ids handed out for a sequence of labels is a function of the multiset of labels |
| Interning.InternRawNode | crates/habitat-graph-build/src/merge.rs:134-160 | One interning step keeps map, used set and node list in step: a known label keeps its id, a new one gets the probed id and a node |
| Interning.InternedMeaning | crates/habitat-graph-build/src/assemble.rs:55-75 | Over a whole run labels and ids stay in one-to-one correspondence, and every slot between a content id and the id given is in use |
| Interning.InternedData | crates/habitat-graph-build/src/assemble.rs:58-75 | The first occurrence of a label decides the data of its node |
| Interning.TablesInverse | crates/habitat-graph-build/src/merge_driver.rs:123-127 | On such node lists the id-to-label and label-to-id tables are inverse to each other |
| Interning.LastNameOfId | crates/habitat-graph-build/src/merge_driver.rs:123-127 | For repeated ids the look-up table holds the label of the last node |
| Interning.IdSetOrderFree | crates/habitat-graph-build/src/assemble.rs:96-106 | The set of ids in use depends on the set of labels alone, whatever the hash and the order |
| Interning.AssignmentOrderFreeIff | crates/habitat-graph-build/src/assemble.rs:96-106 | Which label gets which id is independent of the order of interning if and only if the content ids are distinct |
| Schema.Sorted | crates/habitat-graph-core/src/schema.rs:128-142 | Sorts nodes, edges, communities and the members of each community |
| Schema.SortedIsCanonical | crates/habitat-graph-core/src/schema.rs:123-142 | In plain terms: nodes and communities by id, members ascending, edges by source, then target, then relation (by prefix or first difference); a permutation of the input (communities up to sorting their members, the members of each permuted too), nothing else changed, and sorting again changes nothing |
| Schema.SortedIsStable | crates/habitat-graph-core/src/schema.rs:125-127 | Nodes and communities with equal ids, and edges with equal keys, keep their relative order |
| Dedup.RemoveDuplicates | crates/habitat-graph-build/src/dedup.rs:28-54 | The filtering loops compute first-occurrence-wins removal and leave the rest of the graph alone |
| Dedup.DedupKeepsFirsts | crates/habitat-graph-build/src/dedup.rs:11-27 | Every id and edge key survives exactly once, as its first occurrence, in order; nothing else in the graph changes, and a second pass removes nothing |
| Pipeline.BuiltNodesMeaning | crates/habitat-graph-build/src/assemble.rs:58-91 | Built nodes have strictly increasing ids, one node for each label with the data first seen, and removing duplicates by id removes nothing |
| Pipeline.BuiltEdgesMeaning | crates/habitat-graph-build/src/assemble.rs:77-91 | Built edges have strictly increasing keys and are exactly the keys whose two ends are nodes, each with its first confidence |
| Pipeline.BuiltNodesPlainly | crates/habitat-graph-build/src/assemble.rs:58-91 | In plain terms: strictly increasing ids, one node for each label mentioned, with the file and span of its first mention |
| Pipeline.BuiltEdgesPlainly | crates/habitat-graph-build/src/assemble.rs:77-91 | In plain terms: an edge is there exactly if it leads from the node of the source label to the node of the target label of some stated edge, with its relation and the confidence first stated; no two share source, target and relation; in order of these |
| Pipeline.EdgesByNamePlainly | crates/habitat-graph-build/src/merge_driver.rs:129-145 | Edges are read by label one by one, in order, dangling ones left out |
| Pipeline.BuiltEdgesByName | crates/habitat-graph-build/src/merge_driver.rs:129-145 | Read back by label, the edges of a built graph are exactly the live keys of the input with their first confidences, and none dangles |
| Pipeline.BuiltNodesEqual | crates/habitat-graph-core/src/schema.rs:123-130 | Canonical form: built nodes are determined by the label-to-id table and the first data of each label |
| Pipeline.BuiltEdgesEqual | crates/habitat-graph-core/src/schema.rs:123-137 | Canonical form: built edges are determined by the label-to-id table, the live keys and their first confidences |
| Rebuild.BuiltIsWellFormed | crates/habitat-graph-core/src/schema.rs:123-142 | Whatever the pipeline builds is in canonical order (in plain terms too), free of duplicates and dangling edges, with labels and ids one to one |
| Rebuild.EdgesRebuilt | crates/habitat-graph-build/src/merge.rs:78-101 | Resolving the edges of a well-formed graph again with unchanged ids gives back the edge list |
| Rebuild.RebuildNodesIff | crates/habitat-graph-build/src/merge.rs:134-160 | Interning the nodes of a well-formed graph again, in sorted order, gives every label its own id back if and only if no probe had wrapped around |
| Assignment.AssignmentIff | crates/habitat-graph-build/src/assemble.rs:55-75 | A walk over labels hands out the ids of a one-to-one table if and only if, for each label, every slot from its content id up to its id is held by a label that occurs earlier |
| Assignment.SameAssignmentIff | crates/habitat-graph-build/src/assemble.rs:96-106 | Two walks over the same labels hand out the same ids if and only if the ids of one fit the order of the other |
| Assignment.SameNodesIff | crates/habitat-graph-build/src/assemble.rs:55-91 | Two builds that tell the same of each label have the same nodes under the same condition |
| Assemble.AssembleGraph | crates/habitat-graph-build/src/assemble.rs:45-92 | The two nested loops, duplicate removal and sorting compute the pipeline applied to all extractions |
| Assemble.AssembledMeaning | crates/habitat-graph-build/src/assemble.rs:17-38 | The graph is a fixpoint of duplicate removal and sorting, has exactly the labels and the non-dangling edge keys of the extractions, with first data and first confidences |
| Assemble.AssembledPlainly | crates/habitat-graph-build/src/assemble.rs:45-92 | The same in plain terms: which nodes and edges there are and in which order, and that schema version, communities and inputs are those of an empty graph |
| Assemble.AssembledPermuted | crates/habitat-graph-build/src/assemble.rs:45-92 | Reordering the extractions keeps labels, ids in use and edge keys; with distinct content ids also the id of each label and the edges by id |
| Assemble.FirstComerTakesTheId | crates/habitat-graph-build/src/assemble.rs:94-106 | Of two labels with one content id, the one interned first takes it |
| Assemble.AssignmentDependsOnOrder | crates/habitat-graph-build/src/assemble.rs:96-99 | Any two colliding labels refute the promise of one assignment for one set of labels |
| Assemble.LaterExtractionsRenumberNobody | crates/habitat-graph-build/src/assemble.rs:48-52 | Extractions added at the end leave the id of every label alone, whatever the hash |
| Assemble.AddingLabelRenumbersNobodyIff | crates/habitat-graph-build/src/assemble.rs:48-52 | Adding one label anywhere leaves the ids of all others alone if and only if the slot its probe ends in, over the ids the labels before it have now, is not in use now |
| Assemble.RemovingLabelRenumbersNobodyIff | crates/habitat-graph-build/src/assemble.rs:48-52 | Removing one label leaves the ids of all others alone if and only if no other label's probe passed through its slot |
| Assemble.RemovalRenumbers | crates/habitat-graph-core/src/ids.rs:64-68 | Of two labels with one content id, removing the first comer renumbers the other |
| Assemble.LabelsWrapAround | crates/habitat-graph-build/src/assemble.rs:100-106 | Of two labels whose content id is the last slot, the second one gets slot 0 |
| Merge.MergeGraphs | crates/habitat-graph-build/src/merge.rs:29-126 | Interning, both remaps, edge remapping, concatenations, duplicate removal and sorting compute the pipeline applied to what the two graphs say by label |
| Merge.MergedMeaning | crates/habitat-graph-build/src/merge.rs:14-21 | For any inputs, dangling or not, labels and edge keys of a merge are the unions and the result is well-formed |
| Merge.MergedNodeData | crates/habitat-graph-build/src/merge.rs:14-16 | The data of the first graph counts before that of the second |
| Merge.MergedConfidence | crates/habitat-graph-build/src/merge.rs:78-101 | The confidence of the first graph counts before that of the second |
| Merge.MergedKeepsTheRest | crates/habitat-graph-build/src/merge.rs:103-126 | All communities of both graphs are kept, by id, those of the first before those of the second where ids are equal; inputs are concatenated, schema and tool version are of the first, the time stamp of the first that has one |
| Merge.MergeWithEmptyIff | crates/habitat-graph-build/src/merge.rs:57-76 | Merging with the empty graph gives back the whole graph if and only if no id had wrapped around |
| MergeAlgebra.MergeTells | crates/habitat-graph-build/src/merge.rs:14-21 | What a merge says by label, data and confidences included, is what its two graphs say, one after the other |
| MergeAlgebra.MergeGroups | crates/habitat-graph-build/src/merge.rs:29-126 | Merging three graphs does not depend on grouping: same labels with the same data, same ids in use, same edge keys with the same confidences, same communities and manifest; the graphs are equal if and only if the ids of one fit the order of the other, hence for distinct content ids |
| Incremental.UpdateAgainstRebuild | crates/habitat-graph-build/src/merge.rs:57-58 | Without hypotheses: update and rebuild have the same labels and ids in use, the update's edge keys are a subset, and all of them exactly when each resolvable edge resolves inside a batch that states it |
| Incremental.UpdateEqualsRebuildIff | crates/habitat-graph-build/src/merge.rs:57-58 | For any hash and any two batches: the update equals the rebuild as a whole graph if and only if no id of the existing graph wrapped around, the ids the new batch gets after it fit the order in which the update walks the labels, and every resolvable edge key is unharmed by the split |
| Incremental.UpdateEqualsRebuild | crates/habitat-graph-build/src/merge.rs:57-58 | For labels with distinct content ids and batches neither of which has an edge that names a label found only in the other, update and rebuild are equal as whole graphs |
| Incremental.UpdatesEqualRebuild | crates/habitat-graph-build/src/merge.rs:57-58 | For labels with distinct content ids and batches each of whose resolvable edges names its own labels only, a whole history of incremental updates, any number of batches, equals one rebuild |
| Incremental.EmptyUpdateIff | crates/habitat-graph-build/src/merge.rs:57-58 | For an empty second batch the update equals the rebuild if and only if no id wrapped around, collisions or not |
| Incremental.CrossReferenceLost | crates/habitat-graph-build/src/merge.rs:91-101 | An edge from one batch to a node of another is in the rebuild and not in the update |
| Incremental.CollisionAcrossBatches | crates/habitat-graph-build/src/merge.rs:57-58 | Three labels without any edge, of which one collides across the batches: update and rebuild number them differently, although no id wraps |
| MergeDriver.SelectWinningNodes | crates/habitat-graph-build/src/merge_driver.rs:158-186 | The loop keeps the surviving labels once each, with the data of ours where ours has the label |
| MergeDriver.LastNodeOfName | crates/habitat-graph-build/src/merge_driver.rs:158-186 | For repeated labels the table of ours holds the last node |
| MergeDriver.AssignNodeIds | crates/habitat-graph-build/src/merge_driver.rs:192-211 | Numbers all winners in order by probing, a label that occurred twice being numbered twice, and tables the ids by label |
| MergeDriver.RenumberedIsInterned | crates/habitat-graph-build/src/merge_driver.rs:192-211 | For winners of distinct labels, as the merge has them, this is interning them |
| MergeDriver.EdgeKeySet | crates/habitat-graph-build/src/merge_driver.rs:133-145 | The keys of the edges by label, dangling edges excluded |
| MergeDriver.MergeGraphEdges | crates/habitat-graph-build/src/merge_driver.rs:219-275 | Both edge loops with their set of seen label keys resolve the first edge of each surviving key, for any table of ids |
| MergeDriver.DedupByNameOrById | crates/habitat-graph-build/src/merge_driver.rs:230-275 | Where labels have ids of their own, removing duplicates by label key before resolving and by id key after resolving is the same |
| MergeDriver.MergeGraphCommunities | crates/habitat-graph-build/src/merge_driver.rs:282-342 | The community loop with its saturating counter and member remapping computes the surviving communities |
| MergeDriver.LastCommunityOfName | crates/habitat-graph-build/src/merge_driver.rs:282-342 | For repeated labels the table of ours holds the last community |
| MergeDriver.Merge3 | crates/habitat-graph-build/src/merge_driver.rs:49-111 | All phases together compute the pipeline applied to the winners, the surviving communities and the combined manifest |
| MergeLaws.Merged3Meaning | crates/habitat-graph-build/src/merge_driver.rs:9-28 | Surviving labels and edge keys obey the set formula (both kept, or kept by either and new), edges restricted to surviving ends; the result is well-formed |
| MergeLaws.Merged3Confidence | crates/habitat-graph-build/src/merge_driver.rs:213-217 | Ours decides the confidence of every edge it has, theirs that of the others |
| MergeLaws.Merged3NodeData | crates/habitat-graph-build/src/merge_driver.rs:153-156 | Ours decides the data of every label it has, theirs that of the others |
| MergeLaws.DedupFindsNothing | crates/habitat-graph-build/src/merge_driver.rs:103-110 | The final duplicate removal finds nothing to remove in the numbered winners, which are one for each surviving label, nor in the edges the edge loop returns, which are one for each surviving key |
| MergeLaws.MergeAssociative | crates/habitat-graph-build/src/merge_driver.rs:49-111 | Merging three branches against one base does not depend on grouping: same labels, ids in use and edge keys, and with distinct content ids the same numbering and edges by id |
| MergeGrouping.MergeAssociativeExactly | crates/habitat-graph-build/src/merge_driver.rs:49-111 | Both groupings give every edge the same confidence and have the same manifest; they have the same node data if and only if the middle branch does not contradict itself on a label it alone added, and the same lists of nodes and edges if and only if, besides, the ids of one fit the order of the other |
| MergeLaws.SurvivingLiveGroups | crates/habitat-graph-build/src/merge_driver.rs:249-264 | On the policy itself: an edge the inner merge dropped for want of an end is not missed by the outer one |
| MergeLaws.MergeExchange | crates/habitat-graph-build/src/merge_driver.rs:49-111 | Exchanging ours and theirs changes data only |
| MergeLaws.FastForward | crates/habitat-graph-build/src/merge_driver.rs:12-19 | Where one branch did not move the other is taken, and two equal branches give themselves, for any base |
| MergeLaws.OursPrevailsIff | crates/habitat-graph-build/src/merge_driver.rs:49-111 | Where the policy keeps what a well-formed ours has, the merge gives back its very nodes and edges if and only if no id had wrapped around |
| MergeLaws.FastForwardExactly | crates/habitat-graph-build/src/merge_driver.rs:192-211 | The same for a fast-forward and for merging a graph with itself |
| MergeLaws.FreshIdsIff | crates/habitat-graph-build/src/merge_driver.rs:194-195 | A merge has the ids in use of any fresh assemble of the surviving labels, and gives them to the same labels if and only if they fit the order of the winners |
| MergeLaws.AllFreshIdsIff | crates/habitat-graph-build/src/merge_driver.rs:194-195 | It carries the ids of every fresh assemble of the surviving labels if and only if these have distinct content ids |
| MergeLaws.WrappedLabelsSwap | crates/habitat-graph-build/src/merge_driver.rs:192-211 | Two labels of which one wrapped around swap ids when their graph is merged with itself |
| MergeLaws.EmptyBaseIsMerge | crates/habitat-graph-build/src/merge_driver.rs:5-10 | Against an empty ancestor the 3-way merge gives the numbering, edges and manifest of the 2-way merge, and its nodes if and only if the last node of each label of ours says what the first one says (so whenever the labels of ours are distinct) |
| CommunityLaws.Merged3Communities | crates/habitat-graph-build/src/merge_driver.rs:299-340 | One community for each surviving community label, in order of first occurrence in ours and then theirs; the one at index i has id i below 2^32, and id 0xFFFF_FFFF beyond |
| CommunityLaws.Merged3Members | crates/habitat-graph-build/src/merge_driver.rs:318-334 | Members keep their labels through renumbering: exactly the members whose node survived, each as often as in the source, which is ours if it has the community |
| CommunityLaws.Merged3Integrity | crates/habitat-graph-build/src/merge_driver.rs:24-28 | Every edge end and every community member of the output is the id of an output node, whatever dangled in the inputs |
| CommunityLaws.Merged3KeepsTheRest | crates/habitat-graph-build/src/merge_driver.rs:88-110 | The schema is that of ours; inputs are concatenated, the time stamp is of the first that has one |
| Recency.OrderIsLatestUses | crates/habitat-graph-cache/src/evict.rs:37-62 | After any history the deque is the latest keys by last request, oldest first, as many as the capacity allows |
| Recency.StoreInclusion | crates/habitat-graph-cache/src/cas.rs:80-92 | A larger capacity holds everything a smaller one holds after the same requests |
| Recency.LargerMissesNoMore | crates/habitat-graph-cache/src/cas.rs:80-92 | A larger capacity never misses more often |
| Recency.HitIffRecent | crates/habitat-graph-cache/src/evict.rs:37-62 | A request hits exactly when fewer distinct keys than the capacity were requested since the last request of the same key |
| Recency.NeverRequested | crates/habitat-graph-cache/src/cas.rs:72-78 | A key never requested is never held |
| Cache.Lru.Position | crates/habitat-graph-cache/src/evict.rs:38 | The first position of a key in the deque, or none |
| Cache.Lru.Touch | crates/habitat-graph-cache/src/evict.rs:37-42 | The key moves to the back of the deque, the others keep their order |
| Cache.Lru.NoteRemove | crates/habitat-graph-cache/src/evict.rs:54-58 | The key leaves the deque, the others keep their order |
| Cache.MemStore.Get | crates/habitat-graph-cache/src/cas.rs:72-78 | Returns the entry and, on a hit only, makes its key the most recent |
| Cache.MemStore.Put | crates/habitat-graph-cache/src/cas.rs:80-92 | Stores the entry, makes its key the most recent, and evicts from the front down to the capacity; map and deque stay in agreement |
| Cache.MemStore.EvictExcess | crates/habitat-graph-cache/src/cas.rs:83-91 | For any number of excess entries the eviction loop leaves the latest keys and exactly their entries |
| Cache.MemStore.Contains | crates/habitat-graph-cache/src/cas.rs:94-96 | Presence in the map is presence in the deque |
| Cache.MemStore.Len | crates/habitat-graph-cache/src/cas.rs:98-100 | The number of entries is the length of the deque |
| Cache.PutMeaning | crates/habitat-graph-cache/src/cas.rs:80-92 | A put keeps the store coherent and the new entry present, and evicts at most one entry, the oldest, only from a full store; its key becomes the most recent and the others keep their order |
| Cache.Memoize | crates/habitat-graph-cache/src/memo.rs:11-22 | Returns the cached or the computed value, computes exactly on a miss, and leaves the store as get and put would |
| Cache.RunMeaning | crates/habitat-graph-cache/src/memo.rs:6-22 | After any run from the empty store: coherent, ordered by last request, every entry what computing again would give |
| Cache.MemoizeAll | crates/habitat-graph-cache/src/memo.rs:6-22 | A run of requests on an empty store: every call returns what computing would give, the store ends in the state of the run, and the number of computations is that of the misses |
| Cache.Transparency | crates/habitat-graph-cache/src/memo.rs:6-22 | In any run a hit returns what computing would, and it is a hit exactly when the key is among the latest |
| Cache.LargerStoreIsBetter | crates/habitat-graph-cache/src/memo.rs:6-22 | With a larger capacity a run computes no more often and holds a superset of the entries |
| CacheKey.Derive | crates/habitat-graph-cache/src/key.rs:16-28 | The loop feeds the hasher stage, separator, length-prefixed inputs, separator and config |
| CacheKey.EncodedSpelled | crates/habitat-graph-cache/src/key.rs:16-28 | The bytes hashed, spelled out: stage, 1f "stage" 1f, each input after its length in eight bytes, least significant first (saturated), 1f "config" 1f, config |
| CacheKey.LittleEndianRoundTrip | crates/habitat-graph-cache/src/key.rs:21-22 | A length field reads back as the length |
| CacheKey.InputsReadBackIff | crates/habitat-graph-cache/src/key.rs:20-26 | The framed inputs read back if and only if no input has the length that reads as the config separator, or overflows |
| CacheKey.ReadBackIff | crates/habitat-graph-cache/src/key.rs:16-28 | A parser that stops at the first separator recovers stage, inputs and config if and only if the stage does not anticipate its own separator and every length is clean |
| CacheKey.EncodedInjective | crates/habitat-graph-cache/src/key.rs:3-4 | Different triples of that kind are hashed from different bytes |
| CacheKey.StageImitatesInput | crates/habitat-graph-cache/src/key.rs:18-23 | A stage containing the separator collides with another triple |
| CacheKey.LengthImitatesConfig | crates/habitat-graph-cache/src/key.rs:20-26 | An input of the trap length collides with another triple |
| CacheKey.Completed | crates/habitat-graph-cache/src/key.rs:20-26 | Whatever the bytes, they begin some sequence of framed inputs of clean length, config separator and config |
| CacheKey.StagesCollideIff | crates/habitat-graph-cache/src/key.rs:18-26 | Two stages of different lengths are hashed from the same bytes, for some inputs of clean length and some configs, if and only if the longer one goes on after the shorter one with the separator |
| CacheKey.DistinguishedIff | crates/habitat-graph-cache/src/key.rs:11-14 | For the stages of a program and all inputs of clean length, any change to any component changes the bytes hashed if and only if no stage goes on after another with the separator |
| CacheKey.PlainStagesDistinguished | crates/habitat-graph-cache/src/key.rs:11-14 | This is so when no stage contains the byte 1f |
| CacheKey.InputsCollideIff | crates/habitat-graph-cache/src/key.rs:20-26 | Inputs, however many, share their bytes with other inputs of clean length, for some configs, if and only if the length of one of them reads as the config separator or overflows the length field |
| LineReader.ReadBoundedLine | crates/habitat-graph-daemon/src/uds.rs:227-284 | The fill/consume loop computes the specified result and leaves the specified chunks, for any chunking, end of stream and read error |
| LineReader.TerminatedLine | crates/habitat-graph-daemon/src/uds.rs:227-284 | A line ends before the first byte 10 and loses one byte 13 at its end; it is returned exactly, the rest of the stream being what follows the newline, or rejected; rejected exactly if more than the cap arrives before the chunk with the newline, hence accepted up to the cap and rejected from cap plus buffer size |
| LineReader.UnterminatedLine | crates/habitat-graph-daemon/src/uds.rs:235-238 | Without newline the cap is exact and the whole rest is returned at end of stream |
| LineReader.AcceptedLine | crates/habitat-graph-daemon/src/uds.rs:227-284 | No returned line reaches cap plus buffer size, and a returned line consumes at least one byte |
| LineReader.WindowIsReal | crates/habitat-graph-daemon/src/uds.rs:240-257 | For every length strictly between the thresholds the same bytes are accepted in one chunking and rejected in another |
| Connection.HandleConnection | crates/habitat-graph-daemon/src/uds.rs:178-207 | The loop writes, to a peer that takes any number of bytes, exactly the part of the specified answer the peer takes, and ends as specified |
| Connection.ServedIsAnswer | crates/habitat-graph-daemon/src/uds.rs:178-207 | A connection is a function of the bytes alone, up to and including a rejected line or a read error, for every stream whose first line in the window, if any, is blank and followed by blank lines up to one that is too long in any case |
| Connection.AnsweredAlikeIff | crates/habitat-graph-daemon/src/uds.rs:178-207 | All chunkings of a stream get the same answer, whatever requests are answered with, if and only if the stream is of that kind |
| Connection.ChunkingDoesNotMatter | crates/habitat-graph-daemon/src/uds.rs:178-207 | Two chunkings of one stream, none of whose terminated lines has a length strictly between the cap and cap plus buffer size, get the same answer |
| Connection.EveryLineAnswered | crates/habitat-graph-daemon/src/uds.rs:182-197 | When every line fits, all of them are answered in order, the unterminated last line included |
| Connection.ResponsesInOrder | crates/habitat-graph-daemon/src/uds.rs:178-207 | In plain terms: when every line fits, what is written is the response to each request, in order, followed by a byte 10; requests are the pieces between bytes 10 without one byte 13 at their end (and an unterminated rest); those of bytes 09, 0A, 0C, 0D, 20 alone and those with an empty response are skipped |
| Connection.ResponsesReadBack | crates/habitat-graph-daemon/src/uds.rs:178-207 | Cutting the output at byte 10 gives back the responses, if none of them contains that byte |
| Connection.RejectionSpelled | crates/habitat-graph-daemon/src/uds.rs:198-203 | What is written for an over-long line, byte for byte |
| Escape.CypherEscape | crates/habitat-graph-export/src/escape.rs:43-57 | The loop escapes character by character |
| Escape.CypherReadBack | crates/habitat-graph-export/src/escape.rs:38-57 | A quoted escaped string ends where it was closed and reads back as the original minus dropped control characters |
| Escape.XmlEscape | crates/habitat-graph-export/src/escape.rs:17-35 | The loop escapes character by character |
| Escape.XmlReadBack | crates/habitat-graph-export/src/escape.rs:9-16 | Decoding the five entities gives back the input restricted to the characters of section 2.2 of XML 1.0 |
| Escape.XmlEscapedIsLegal | crates/habitat-graph-export/src/escape.rs:9-16 | Every output character is legal and none is a bare angle bracket or quote |
| Decimal.NumeralReadBack | crates/habitat-graph-export/src/cypher.rs:55-73 | A printed number followed by a non-digit reads back as the number |
| Decimal.DigitsSpelled | crates/habitat-graph-export/src/cypher.rs:55-73 | The digits are 0 to 9 |
| Cypher.RenderCypher | crates/habitat-graph-export/src/cypher.rs:46-89 | The two loops append one statement for each node and edge after the header |
| Cypher.ScriptReadBack | crates/habitat-graph-export/src/cypher.rs:46-89 | A reader that spells the fixed text itself and resolves the variables of a MERGE through its MATCH recovers, in order, every node's id, label, file and line and every edge's ends, relation and confidence, strings minus dropped control characters |
| Cypher.ScriptLines | crates/habitat-graph-export/src/cypher.rs:55-86 | A script has exactly one line for the header, each node and each edge |
| Degrees.CountDegrees | crates/habitat-graph-analyze/src/centrality.rs:56-67 | The loop counts, for every declared or mentioned id, the edge ends that refer to it |
| Degrees.DegreeCentrality | crates/habitat-graph-analyze/src/centrality.rs:55-73 | Returns the ranking, whatever the iteration order of the hash map |
| Degrees.RankingUnique | crates/habitat-graph-analyze/src/centrality.rs:19-20 | There is one ranking |
| Degrees.DegreesConserveEnds | crates/habitat-graph-analyze/src/centrality.rs:6-12 | Degrees add up to twice the number of edges, self-loops included, each id once |
| Degrees.DegreeIsBothCounts | crates/habitat-graph-analyze/src/centrality.rs:56-67 | A degree is the number of edges that start at a node plus the number that lead to it; an id is mentioned exactly if some edge starts or ends there |
| Degrees.GodNodes | crates/habitat-graph-analyze/src/godnodes.rs:93-115 | Returns the labelled first entries of the ranking |
| Degrees.HubsArePrefix | crates/habitat-graph-analyze/src/godnodes.rs:93-115 | A shorter list of hubs is a prefix of a longer one, and has the length asked for or all ids |
| Degrees.HubsAreHighest | crates/habitat-graph-analyze/src/godnodes.rs:44-50 | No id outside the list has a higher degree than one in it, and ties go to the smaller id |
| Degrees.HubNames | crates/habitat-graph-analyze/src/godnodes.rs:93-115 | A hub carries the label of the node with its id (the last such node), or an empty label if there is none |

## Left out

- blake3: the content id of a label and the digest of a cache key are arbitrary functions, passed as parameters.
- More than 2^32 distinct labels: the program's probing loop does not end; `Probing.Probe` has an arbitrary value there and no result uses it.
- Communities of the 2-way merge: they are concatenated without remapping their members (merge.rs:103-104), so nothing holds of their members; the concatenation itself is modelled, and does not depend on grouping.
- The manifest of a 3-way merge of a graph with itself doubles the inputs; the laws are stated on nodes, edges and labels.
- `u32` community counter: `SaturatedId` models the saturation; ids are distinct only below 2^32 communities.
- Timestamps in manifests are values of the input graphs; nothing reads a clock.
- Retention policies other than LRU: the trait has one implementation in this crate.
- A `compute` that gives different values for one key: transparency is stated for one value per key; `Cache.Memoize` itself is specified for any.
- Sockets, tasks, the accept loop, the connection semaphore, file permissions, HTTP, CLI and MCP JSON: input and output plumbing. A request is answered by an arbitrary function from line to response, which also stands for the lossy UTF-8 decoding.
- `WarmState` reload and the label index: one atomic cell; the index source is not part of this model.
- Read errors of kind `InvalidData` raised by the operating system, which `handle_conn` would answer like an over-long line.
- Slices of more than 2^63-1 bytes cannot exist in the program: lengths of cache inputs are unbounded here, so the overflow branch of the length field (key.rs:21) is modelled though unreachable, and the colliding inputs that `CacheKey.Completed` supplies may be longer than a real slice.
- `usize` overflow of lengths and degrees: lengths are unbounded, and `saturating_add` in the reader is plain addition.
- Pre-sizing of buffers and sets (`with_capacity`): no effect on results.
- Graph JSON input and output, GraphML, SVG, HTML, wiki, Obsidian and report exporters; extraction, clustering, confidence filters, suggested questions, token estimates: presentation, unseen libraries, or one-branch filters that would add only easy members.
- The aliasing of `&mut` arguments in `intern_label` and `assign_unique_content_id`: maps, sets and node lists are passed in and returned as values.
