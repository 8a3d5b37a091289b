// "Incremental update == full rebuild": merging the assembled batches compared with
// assembling everything at once (crates/habitat-graph-build/src/merge.rs:57-58).

module Incremental {
  import opened Ids
  import opened Lists
  import opened Schema
  import opened Interning
  import opened Pipeline
  import opened Probing
  import opened Rebuild
  import opened Assignment
  import opened Assemble
  import opened Merge

  ghost function Updated(h: ContentId, xs: seq<Extraction>, ys: seq<Extraction>): Graph {
    Merged(h, Assembled(h, xs), Assembled(h, ys))
  }

  /** The keys one batch resolves by itself. */
  ghost function OwnKeys(xs: seq<Extraction>): set<NameKey> {
    LiveKeys(NamesOf(xs), AllEdges(xs))
  }

  lemma BatchNames(h: ContentId, xs: seq<Extraction>, ys: seq<Extraction>)
    requires |NamesOf(xs + ys)| <= U32_SIZE
    ensures NamesOf(xs + ys) == NamesOf(xs) + NamesOf(ys)
    ensures |NamesOf(xs)| <= U32_SIZE && |NamesOf(ys)| <= U32_SIZE
    ensures NamesOfBoth(Assembled(h, xs), Assembled(h, ys)) == NamesOf(xs + ys)
  {
    AllAppend(xs, ys);
    KeysAppend(RawNameOf, AllNodes(xs), AllNodes(ys));
    SubsetCardinality(NamesOf(xs), NamesOf(xs + ys));
    SubsetCardinality(NamesOf(ys), NamesOf(xs + ys));
    AssembledKeys(h, xs);
    AssembledKeys(h, ys);
  }

  lemma OwnKeysGrow(xs: seq<Extraction>, ys: seq<Extraction>)
    requires NamesOf(xs + ys) == NamesOf(xs) + NamesOf(ys)
    ensures Keys(RawKeyOf, AllEdges(xs + ys)) == Keys(RawKeyOf, AllEdges(xs)) + Keys(RawKeyOf, AllEdges(ys))
    ensures OwnKeys(xs) + OwnKeys(ys) <= OwnKeys(xs + ys)
  {
    AllAppend(xs, ys);
    KeysAppend(RawKeyOf, AllEdges(xs), AllEdges(ys));
  }

  lemma UpdatedKeys(h: ContentId, xs: seq<Extraction>, ys: seq<Extraction>)
    requires |NamesOf(xs + ys)| <= U32_SIZE
    ensures Keys(RawKeyOf, BothRawEdges(Assembled(h, xs), Assembled(h, ys))) == OwnKeys(xs) + OwnKeys(ys)
    ensures Keys(RawKeyOf, EdgesByName(Updated(h, xs, ys))) == OwnKeys(xs) + OwnKeys(ys)
  {
    BatchNames(h, xs, ys);
    MergedMeaning(h, Assembled(h, xs), Assembled(h, ys));
    BothEdgesLive(Assembled(h, xs), Assembled(h, ys));
    AssembledKeys(h, xs);
    AssembledKeys(h, ys);
  }

  lemma SameIdSets(h: ContentId, xs: seq<Extraction>, ys: seq<Extraction>)
    requires |NamesOf(xs + ys)| <= U32_SIZE
    ensures Keys(NodeNameOf, Updated(h, xs, ys).nodes) == Keys(NodeNameOf, Assembled(h, xs + ys).nodes)
    ensures Keys(NodeIdOf, Updated(h, xs, ys).nodes) == Keys(NodeIdOf, Assembled(h, xs + ys).nodes)
  {
    var rn := BothRawNodes(Assembled(h, xs), Assembled(h, ys));
    BatchNames(h, xs, ys);
    BothNames(Assembled(h, xs), Assembled(h, ys));
    BuiltNodesMeaning(h, rn);
    BuiltNodesMeaning(h, AllNodes(xs + ys));
    IdSetOrderFree(h, rn, AllNodes(xs + ys));
  }

  /** Whatever the hash and the edges: update and rebuild have the same names and the same set
      of ids, the update has no edge the rebuild lacks, and it has all of them if and only if
      each resolvable edge resolves inside a batch that states it. */
  lemma UpdateAgainstRebuild(h: ContentId, xs: seq<Extraction>, ys: seq<Extraction>)
    requires |NamesOf(xs + ys)| <= U32_SIZE
    ensures Keys(NodeNameOf, Updated(h, xs, ys).nodes) == Keys(NodeNameOf, Assembled(h, xs + ys).nodes)
    ensures Keys(NodeIdOf, Updated(h, xs, ys).nodes) == Keys(NodeIdOf, Assembled(h, xs + ys).nodes)
    ensures Keys(RawKeyOf, EdgesByName(Updated(h, xs, ys))) <= Keys(RawKeyOf, EdgesByName(Assembled(h, xs + ys)))
    ensures Keys(RawKeyOf, EdgesByName(Updated(h, xs, ys))) == Keys(RawKeyOf, EdgesByName(Assembled(h, xs + ys)))
       <==> forall k :: k in OwnKeys(xs + ys) ==> k in OwnKeys(xs) || k in OwnKeys(ys)
  {
    BatchNames(h, xs, ys);
    SameIdSets(h, xs, ys);
    OwnKeysGrow(xs, ys);
    UpdatedKeys(h, xs, ys);
    AssembledKeys(h, xs + ys);
  }

  // ---------------------------------------------------------------- equality of whole graphs

  /** An edge key survives the update with the confidence of the rebuild: the first batch that
      states it resolves it, or states it with the confidence of the batch that does. */
  ghost predicate KeyUnharmed(xs: seq<Extraction>, ys: seq<Extraction>, k: NameKey) {
    || k in OwnKeys(xs)
    || (k in OwnKeys(ys)
        && (k in Keys(RawKeyOf, AllEdges(xs)) ==>
              FirstConfidence(AllEdges(xs), k) == FirstConfidence(AllEdges(ys), k)))
  }

  lemma BatchNodesAgree(h: ContentId, xs: seq<Extraction>, ys: seq<Extraction>)
    requires |NamesOf(xs + ys)| <= U32_SIZE
    ensures SameFirstNodes(BothRawNodes(Assembled(h, xs), Assembled(h, ys)), AllNodes(xs + ys))
  {
    var a, b := Assembled(h, xs), Assembled(h, ys);
    BatchNames(h, xs, ys);
    BothNames(a, b);
    AllAppend(xs, ys);
    BuiltNodesByName(h, AllNodes(xs));
    BuiltNodesByName(h, AllNodes(ys));
    forall name | name in NamesOf(xs + ys)
      ensures FirstBy(RawNameOf, BothRawNodes(a, b), name) == FirstBy(RawNameOf, AllNodes(xs + ys), name)
    {
      FirstByAppend(RawNameOf, RawNodes(a), RawNodes(b), name);
      FirstByAppend(RawNameOf, AllNodes(xs), AllNodes(ys), name);
    }
  }

  /** The confidence a key has after the update, and after the rebuild. */
  lemma BatchConfidence(h: ContentId, xs: seq<Extraction>, ys: seq<Extraction>, k: NameKey)
    requires |NamesOf(xs + ys)| <= U32_SIZE
    requires k in OwnKeys(xs) + OwnKeys(ys)
    ensures k in Keys(RawKeyOf, BothRawEdges(Assembled(h, xs), Assembled(h, ys)))
    ensures k in Keys(RawKeyOf, AllEdges(xs + ys))
    ensures FirstConfidence(BothRawEdges(Assembled(h, xs), Assembled(h, ys)), k) ==
            if k in OwnKeys(xs) then FirstConfidence(AllEdges(xs), k) else FirstConfidence(AllEdges(ys), k)
    ensures FirstConfidence(AllEdges(xs + ys), k) ==
            if k in Keys(RawKeyOf, AllEdges(xs)) then FirstConfidence(AllEdges(xs), k) else FirstConfidence(AllEdges(ys), k)
  {
    BatchNames(h, xs, ys);
    AllAppend(xs, ys);
    OwnKeysGrow(xs, ys);
    UpdatedKeys(h, xs, ys);
    AssembledMeaning(h, xs);
    AssembledMeaning(h, ys);
    FirstByAppend(RawKeyOf, EdgesByName(Assembled(h, xs)), EdgesByName(Assembled(h, ys)), k);
    FirstByAppend(RawKeyOf, AllEdges(xs), AllEdges(ys), k);
  }

  lemma UnharmedEdgesAgree(h: ContentId, xs: seq<Extraction>, ys: seq<Extraction>)
    requires |NamesOf(xs + ys)| <= U32_SIZE
    requires forall k :: k in OwnKeys(xs + ys) ==> KeyUnharmed(xs, ys, k)
    ensures SameLiveEdges(NamesOf(xs + ys), BothRawEdges(Assembled(h, xs), Assembled(h, ys)), AllEdges(xs + ys))
  {
    BatchNames(h, xs, ys);
    OwnKeysGrow(xs, ys);
    UpdatedKeys(h, xs, ys);
    forall k | k in OwnKeys(xs + ys)
      ensures k in OwnKeys(xs) + OwnKeys(ys)
      ensures k in Keys(RawKeyOf, BothRawEdges(Assembled(h, xs), Assembled(h, ys)))
      ensures FirstConfidence(BothRawEdges(Assembled(h, xs), Assembled(h, ys)), k) == FirstConfidence(AllEdges(xs + ys), k)
    {
      assert KeyUnharmed(xs, ys, k);
      BatchConfidence(h, xs, ys, k);
    }
  }

  lemma EqualGraphsUnharmed(h: ContentId, xs: seq<Extraction>, ys: seq<Extraction>, k: NameKey)
    requires |NamesOf(xs + ys)| <= U32_SIZE
    ensures Updated(h, xs, ys) == Assembled(h, xs + ys) && k in OwnKeys(xs + ys) ==> KeyUnharmed(xs, ys, k)
  {
    var a, b := Assembled(h, xs), Assembled(h, ys);
    BatchNames(h, xs, ys);
    UpdatedKeys(h, xs, ys);
    AssembledMeaning(h, xs + ys);
    BothNames(a, b);
    BuiltEdgesByName(h, BothRawNodes(a, b), BothRawEdges(a, b), Updated(h, xs, ys));
    if Updated(h, xs, ys) == Assembled(h, xs + ys) && k in OwnKeys(xs + ys) {
      BatchConfidence(h, xs, ys, k);
    }
  }

  /** The table reached by walking the new batch from where the existing graph stands. */
  ghost function TableAfter(h: ContentId, a: Graph, ys: seq<Extraction>): map<string, NodeId> {
    IdsByName(Interned(h, RawNodes(a) + AllNodes(ys)))
  }

  /** What can be checked on the existing graph and the new batch, without a rebuild: no id of the
      graph wrapped around, and the ids the new batch gets in its own order fit the order of the
      update, which walks the new labels by their ids in the new batch. */
  ghost predicate IdsFitUpdate(h: ContentId, xs: seq<Extraction>, ys: seq<Extraction>) {
    var a, b := Assembled(h, xs), Assembled(h, ys);
    NoWrap(h, a.nodes) && HeldByEarlier(h, TableAfter(h, a, ys), BothRawNodes(a, b))
  }

  /** From an existing graph none of whose ids wrapped around, the new batch gets the ids of the rebuild. */
  lemma UnwrappedTableAfter(h: ContentId, xs: seq<Extraction>, ys: seq<Extraction>)
    requires |NamesOf(xs + ys)| <= U32_SIZE && NoWrap(h, Assembled(h, xs).nodes)
    ensures TableAfter(h, Assembled(h, xs), ys) == IdsByName(Assembled(h, xs + ys).nodes)
  {
    var a := Assembled(h, xs);
    BatchNames(h, xs, ys);
    AssembledMeaning(h, xs);
    BuiltNodesMeaning(h, AllNodes(xs));
    RebuiltUnwrapped(h, a.nodes);
    RawKeysOfNodes(a.nodes);
    AllAppend(xs, ys);
    SameContinuation(h, AllNodes(xs), RawNodes(a), AllNodes(ys));
    BuiltNodesMeaning(h, AllNodes(xs + ys));
  }

  /** Where the update numbers as the rebuild does, no id of the existing graph wrapped around. */
  lemma SameNumberingUnwrapped(h: ContentId, xs: seq<Extraction>, ys: seq<Extraction>)
    requires |NamesOf(xs + ys)| <= U32_SIZE
    requires Updated(h, xs, ys).nodes == Assembled(h, xs + ys).nodes
    ensures NoWrap(h, Assembled(h, xs).nodes)
  {
    var a, b := Assembled(h, xs), Assembled(h, ys);
    BatchNames(h, xs, ys);
    BothNames(a, b);
    AssembledMeaning(h, xs);
    BuiltNodesMeaning(h, BothRawNodes(a, b));
    LaterLabelsRenumberNobody(h, RawNodes(a), RawNodes(b));
    LaterExtractionsRenumberNobody(h, xs, ys);
    RestartNames(h, a);
    SameBelow(IdsByName(Interned(h, RawNodes(a))), IdsByName(a.nodes), IdsByName(Interned(h, BothRawNodes(a, b))));
    RebuiltFromTable(h, xs);
  }

  lemma RestartNames(h: ContentId, a: Graph)
    requires WellFormed(h, a)
    ensures IdsByName(Interned(h, RawNodes(a))).Keys == IdsByName(a.nodes).Keys
  {
    NamesFit(h, a.nodes);
    BuiltIdsInjective(h, RawNodes(a));
    TableKeys(a.nodes);
  }

  lemma SameBelow(a: map<string, NodeId>, b: map<string, NodeId>, all: map<string, NodeId>)
    requires a.Keys == b.Keys && Extends(a, all) && Extends(b, all)
    ensures a == b
  {
  }

  lemma RebuiltFromTable(h: ContentId, xs: seq<Extraction>)
    requires |NamesOf(xs)| <= U32_SIZE
    requires IdsByName(Interned(h, RawNodes(Assembled(h, xs)))) == IdsByName(Assembled(h, xs).nodes)
    ensures NoWrap(h, Assembled(h, xs).nodes)
  {
    var a := Assembled(h, xs);
    AssembledMeaning(h, xs);
    NamesFit(h, a.nodes);
    BuiltNodesByName(h, AllNodes(xs));
    BuiltNodesMeaning(h, AllNodes(xs));
    BuiltNodesEqual(h, RawNodes(a), AllNodes(xs));
    RebuildNodesIff(h, a.nodes);
  }

  lemma SameNodesAfterUpdateIff(h: ContentId, xs: seq<Extraction>, ys: seq<Extraction>)
    requires |NamesOf(xs + ys)| <= U32_SIZE
    ensures Updated(h, xs, ys).nodes == Assembled(h, xs + ys).nodes <==> IdsFitUpdate(h, xs, ys)
  {
    BatchNodesAgree(h, xs, ys);
    BatchNames(h, xs, ys);
    BothNames(Assembled(h, xs), Assembled(h, ys));
    SameNodesIff(h, BothRawNodes(Assembled(h, xs), Assembled(h, ys)), AllNodes(xs + ys));
    if Updated(h, xs, ys).nodes == Assembled(h, xs + ys).nodes {
      SameNumberingUnwrapped(h, xs, ys);
    }
    if NoWrap(h, Assembled(h, xs).nodes) {
      UnwrappedTableAfter(h, xs, ys);
    }
  }

  lemma UnharmedUpdate(h: ContentId, xs: seq<Extraction>, ys: seq<Extraction>)
    requires |NamesOf(xs + ys)| <= U32_SIZE
    requires Updated(h, xs, ys).nodes == Assembled(h, xs + ys).nodes
    requires forall k :: k in OwnKeys(xs + ys) ==> KeyUnharmed(xs, ys, k)
    ensures Updated(h, xs, ys) == Assembled(h, xs + ys)
  {
    var a, b := Assembled(h, xs), Assembled(h, ys);
    BatchNames(h, xs, ys);
    BothNames(a, b);
    UnharmedEdgesAgree(h, xs, ys);
    BuiltNodesMeaning(h, BothRawNodes(a, b));
    BuiltNodesMeaning(h, AllNodes(xs + ys));
    BuiltEdgesEqual(h, BothRawNodes(a, b), BothRawEdges(a, b), AllNodes(xs + ys), AllEdges(xs + ys));
    assert Updated(h, xs, ys).communities == [];
  }

  /** For any hash and any two batches: the update equals the rebuild, as whole graphs, if and
      only if the ids fit and every resolvable edge key is unharmed by the split into batches. */
  lemma UpdateEqualsRebuildIff(h: ContentId, xs: seq<Extraction>, ys: seq<Extraction>)
    requires |NamesOf(xs + ys)| <= U32_SIZE
    ensures Updated(h, xs, ys) == Assembled(h, xs + ys) <==>
            IdsFitUpdate(h, xs, ys) && forall k :: k in OwnKeys(xs + ys) ==> KeyUnharmed(xs, ys, k)
  {
    SameNodesAfterUpdateIff(h, xs, ys);
    if IdsFitUpdate(h, xs, ys) && forall k :: k in OwnKeys(xs + ys) ==> KeyUnharmed(xs, ys, k) {
      UnharmedUpdate(h, xs, ys);
    }
    if Updated(h, xs, ys) == Assembled(h, xs + ys) {
      forall k | k in OwnKeys(xs + ys) {
        EqualGraphsUnharmed(h, xs, ys, k);
      }
    }
  }

  /** Distinct content ids fit every order. */
  lemma DistinctIdsFitUpdate(h: ContentId, xs: seq<Extraction>, ys: seq<Extraction>)
    requires |NamesOf(xs + ys)| <= U32_SIZE && InjectiveOn(h, NamesOf(xs + ys))
    ensures IdsFitUpdate(h, xs, ys)
  {
    var a, b := Assembled(h, xs), Assembled(h, ys);
    BatchNames(h, xs, ys);
    BothNames(a, b);
    BatchNodesAgree(h, xs, ys);
    DistinctContentIdsFixAssignment(h, BothRawNodes(a, b), AllNodes(xs + ys));
    BuiltNodesEqual(h, BothRawNodes(a, b), AllNodes(xs + ys));
    SameNodesAfterUpdateIff(h, xs, ys);
  }

  /** No edge of `xs` that resolves in the whole names a label found outside `xs`. */
  ghost predicate SelfContained(xs: seq<Extraction>, names: set<string>) {
    forall k :: k in LiveKeys(names, AllEdges(xs)) ==> Resolvable(NamesOf(xs), k)
  }

  /** The usual case: batches without cross references, labels without collisions. */
  lemma UpdateEqualsRebuild(h: ContentId, xs: seq<Extraction>, ys: seq<Extraction>)
    requires |NamesOf(xs + ys)| <= U32_SIZE
    requires InjectiveOn(h, NamesOf(xs + ys))
    requires SelfContained(xs, NamesOf(xs + ys)) && SelfContained(ys, NamesOf(xs + ys))
    ensures Updated(h, xs, ys) == Assembled(h, xs + ys)
  {
    UpdateEqualsRebuildIff(h, xs, ys);
    DistinctIdsFitUpdate(h, xs, ys);
    BatchNames(h, xs, ys);
    OwnKeysGrow(xs, ys);
    forall k | k in OwnKeys(xs + ys)
      ensures KeyUnharmed(xs, ys, k)
    {
      if k in Keys(RawKeyOf, AllEdges(xs)) {
        assert k in LiveKeys(NamesOf(xs + ys), AllEdges(xs));
      } else {
        assert k in LiveKeys(NamesOf(xs + ys), AllEdges(ys));
      }
    }
  }

  // ---------------------------------------------------------------- any number of batches

  function AllOf(batches: seq<seq<Extraction>>): seq<Extraction> {
    if batches == [] then [] else AllOf(Init(batches)) + Last(batches)
  }

  /** The graph after updating the empty graph by one batch after the other. */
  ghost function UpdatedBy(h: ContentId, batches: seq<seq<Extraction>>): Graph {
    if batches == [] then EmptyGraph()
    else Merged(h, UpdatedBy(h, Init(batches)), Assembled(h, Last(batches)))
  }

  lemma SelfContainedUnion(xs: seq<Extraction>, ys: seq<Extraction>, names: set<string>)
    requires SelfContained(xs, names) && SelfContained(ys, names)
    ensures SelfContained(xs + ys, names)
  {
    AllAppend(xs, ys);
    KeysAppend(RawNameOf, AllNodes(xs), AllNodes(ys));
    KeysAppend(RawKeyOf, AllEdges(xs), AllEdges(ys));
    forall k | k in LiveKeys(names, AllEdges(xs + ys))
      ensures Resolvable(NamesOf(xs + ys), k)
    {
      assert k in LiveKeys(names, AllEdges(xs)) || k in LiveKeys(names, AllEdges(ys));
    }
  }

  /** A whole history of incremental updates equals one rebuild from everything, for batches
      without cross references and labels without collisions. */
  lemma {:induction false} UpdatesEqualRebuild(h: ContentId, batches: seq<seq<Extraction>>, names: set<string>)
    requires |names| <= U32_SIZE && NamesOf(AllOf(batches)) <= names
    requires InjectiveOn(h, names)
    requires forall xs :: xs in batches ==> SelfContained(xs, names)
    ensures UpdatedBy(h, batches) == Assembled(h, AllOf(batches))
    ensures SelfContained(AllOf(batches), names)
  {
    if batches == [] {
      assert Assembled(h, []) == EmptyGraph();
    } else {
      var past, last := Init(batches), Last(batches);
      assert batches == past + [last];
      AllAppend(AllOf(past), last);
      KeysAppend(RawNameOf, AllNodes(AllOf(past)), AllNodes(last));
      UpdatesEqualRebuild(h, past, names);
      SelfContainedUnion(AllOf(past), last, names);
      SubsetCardinality(NamesOf(AllOf(batches)), names);
      UpdateEqualsRebuild(h, AllOf(past), last);
    }
  }

  /** With collisions the promise fails already for an empty second batch, exactly when the
      rebuild of the first batch had an id wrap around. */
  lemma EmptyUpdateIff(h: ContentId, xs: seq<Extraction>)
    requires |NamesOf(xs)| <= U32_SIZE
    ensures Updated(h, xs, []) == Assembled(h, xs + []) <==> NoWrap(h, Assembled(h, xs).nodes)
  {
    AssembledMeaning(h, xs);
    MergeWithEmptyIff(h, Assembled(h, xs));
    assert xs + [] == xs;
    assert Assembled(h, []) == EmptyGraph();
  }

  // ---------------------------------------------------------------- inputs for which it fails

  function CallerBatch(a: RawNode, e: RawEdge): seq<Extraction> { [Extraction([a], [e])] }
  function CalleeBatch(b: RawNode): seq<Extraction> { [Extraction([b], [])] }

  lemma TwoBatches(a: RawNode, b: RawNode, e: RawEdge)
    ensures NamesOf(CallerBatch(a, e)) == {a.name} && NamesOf(CalleeBatch(b)) == {b.name}
    ensures NamesOf(CallerBatch(a, e) + CalleeBatch(b)) == {a.name, b.name}
    ensures |NamesOf(CallerBatch(a, e) + CalleeBatch(b))| <= U32_SIZE
    ensures AllEdges(CalleeBatch(b)) == [] && AllEdges(CallerBatch(a, e) + CalleeBatch(b)) == [e]
  {
    OneExtraction(Extraction([a], [e]));
    OneExtraction(Extraction([b], []));
    AllAppend(CallerBatch(a, e), CalleeBatch(b));
    NamesOfTwo(a, b);
    NamesOfTwo(b, a);
    assert [a] + [b] == [a, b] && [e] + [] == [e];
  }

  /** A cross reference is lost: where one batch states an edge into a node of the other batch,
      the rebuild has it and the update has not. */
  lemma CrossReferenceLost(h: ContentId, a: RawNode, b: RawNode, e: RawEdge)
    requires e.source == a.name && e.target == b.name && a.name != b.name
    ensures RawKeyOf(e) in Keys(RawKeyOf, EdgesByName(Assembled(h, CallerBatch(a, e) + CalleeBatch(b))))
    ensures RawKeyOf(e) !in Keys(RawKeyOf, EdgesByName(Updated(h, CallerBatch(a, e), CalleeBatch(b))))
  {
    TwoBatches(a, b, e);
    assert e in [e];
    LostUnlessOwn(h, CallerBatch(a, e), CalleeBatch(b), RawKeyOf(e));
  }

  lemma LostUnlessOwn(h: ContentId, xs: seq<Extraction>, ys: seq<Extraction>, k: NameKey)
    requires |NamesOf(xs + ys)| <= U32_SIZE
    requires k in OwnKeys(xs + ys) && k !in OwnKeys(xs) && k !in OwnKeys(ys)
    ensures k in Keys(RawKeyOf, EdgesByName(Assembled(h, xs + ys)))
    ensures k !in Keys(RawKeyOf, EdgesByName(Updated(h, xs, ys)))
  {
    UpdatedKeys(h, xs, ys);
    AssembledKeys(h, xs + ys);
  }

  function NodeBatch(raws: seq<RawNode>): seq<Extraction> { [Extraction(raws, [])] }

  /** A collision across batches is enough, although no id wraps and neither batch refers to
      the other: `c` takes in its own batch the slot that `a` takes in the rebuild, and comes
      before `b` in the update. */
  lemma CollisionAcrossBatches(h: ContentId, a: RawNode, b: RawNode, c: RawNode)
    requires a.name != b.name && h(b.name) == h(a.name) + 1 && h(c.name) == h(a.name) <= U32_MAX - 2
    requires c.name != a.name
    ensures var xs, ys := NodeBatch([a]), NodeBatch([b, c]);
            && IdsByName(Assembled(h, xs + ys).nodes) == InARow(h(a.name), a.name, b.name, c.name)
            && IdsByName(Updated(h, xs, ys).nodes) == InARow(h(a.name), a.name, c.name, b.name)
            && Updated(h, xs, ys) != Assembled(h, xs + ys)
            && OwnKeys(xs + ys) == {} && NoWrap(h, Assembled(h, xs + ys).nodes)
  {
    var xs, ys := NodeBatch([a]), NodeBatch([b, c]);
    BatchesOfThree(a, b, c);
    BatchNodes(h, a, b, c);
    assert BothRawNodes(Assembled(h, xs), Assembled(h, ys)) == [a, c, b];
    ThreeInARow(h, a, b, c);
    ThreeInARow(h, a, c, b);
    var rebuilt, updated := InARow(h(a.name), a.name, b.name, c.name), InARow(h(a.name), a.name, c.name, b.name);
    assert rebuilt[b.name] != updated[b.name];
  }

  function InARow(p: U32, a: string, b: string, c: string): map<string, NodeId>
    requires p <= U32_MAX - 2
  {
    map[a := p, b := p + 1, c := p + 2]
  }

  lemma ThreeInARow(h: ContentId, a: RawNode, b: RawNode, c: RawNode)
    requires a.name != b.name && b.name != c.name && c.name != a.name && h(a.name) <= U32_MAX - 2
    requires h(a.name) <= h(b.name) <= h(a.name) + 1 && h(a.name) <= h(c.name) <= h(a.name) + 2
    ensures IdsByName(BuiltNodes(h, [a, b, c])) == InARow(h(a.name), a.name, b.name, c.name)
    ensures NoWrap(h, BuiltNodes(h, [a, b, c]))
  {
    TableOfThree(h, InARow(h(a.name), a.name, b.name, c.name), a, b, c);
  }

  lemma TableOfThree(h: ContentId, ids: map<string, NodeId>, a: RawNode, b: RawNode, c: RawNode)
    requires a.name != b.name && b.name != c.name && c.name != a.name && ids.Keys == {a.name, b.name, c.name}
    requires ids[a.name] == h(a.name) <= U32_MAX - 2 && ids[b.name] == h(a.name) + 1 && ids[c.name] == h(a.name) + 2
    requires h(a.name) <= h(b.name) <= ids[b.name] && h(a.name) <= h(c.name) <= ids[c.name]
    ensures IdsByName(BuiltNodes(h, [a, b, c])) == ids
    ensures NoWrap(h, BuiltNodes(h, [a, b, c]))
  {
    IdsOfThree(h, ids, a, b, c);
    BuiltNodesMeaning(h, [a, b, c]);
    UnwrappedTable(h, BuiltNodes(h, [a, b, c]));
  }

  lemma UnwrappedTable(h: ContentId, nodes: seq<Node>)
    requires WellNumbered(h, nodes)
    requires forall name :: name in IdsByName(nodes) ==> h(name) <= IdsByName(nodes)[name]
    ensures NoWrap(h, nodes)
  {
    forall n | n in nodes
      ensures h(n.name) <= n.id
    {
      IdOfNode(nodes, n);
    }
  }

  lemma BatchesOfThree(a: RawNode, b: RawNode, c: RawNode)
    ensures AllNodes(NodeBatch([a])) == [a] && AllNodes(NodeBatch([b, c])) == [b, c]
    ensures AllNodes(NodeBatch([a]) + NodeBatch([b, c])) == [a, b, c]
    ensures OwnKeys(NodeBatch([a]) + NodeBatch([b, c])) == {}
  {
    OneExtraction(Extraction([a], []));
    OneExtraction(Extraction([b, c], []));
    AllAppend(NodeBatch([a]), NodeBatch([b, c]));
    assert AllEdges(NodeBatch([a]) + NodeBatch([b, c])) == [];
  }

  /** The labels of the second batch, sorted by id, have changed places. */
  lemma BatchNodes(h: ContentId, a: RawNode, b: RawNode, c: RawNode)
    requires h(b.name) == h(c.name) + 1
    ensures Map(Raw, Assembled(h, NodeBatch([a])).nodes) == [a]
    ensures Map(Raw, Assembled(h, NodeBatch([b, c])).nodes) == [c, b]
  {
    BatchesOfThree(a, b, c);
    OneBuilt(h, a);
    assert Map(Raw, [Numbered(a, h(a.name))]) == [a];
    SwappedBuilt(h, b, c);
    assert Map(Raw, [Numbered(c, h(c.name)), Numbered(b, h(b.name))]) == [c, b];
  }

  lemma SwappedBuilt(h: ContentId, b: RawNode, c: RawNode)
    requires h(b.name) == h(c.name) + 1
    ensures BuiltNodes(h, [b, c]) == [Numbered(c, h(c.name)), Numbered(b, h(b.name))]
  {
    var ids := map[b.name := h(b.name), c.name := h(c.name)];
    IdsOfTwo(h, ids, b, c);
    TwoBuilt(h, ids, b, c, [Numbered(c, h(c.name)), Numbered(b, h(b.name))]);
  }

  lemma OneBuilt(h: ContentId, a: RawNode)
    ensures BuiltNodes(h, [a]) == [Numbered(a, h(a.name))]
  {
    InternStep(h, [], a);
    assert [] + [a] == [a] && Keys(NodeIdOf, []) == {};
    ProbeOfFree(h(a.name), {});
    SortedAlone(Numbered(a, h(a.name)));
  }

  lemma SortedAlone(n: Node)
    ensures SortBy(NodeLe, DedupBy(NodeIdOf, [n])) == [n]
  {
    DedupDistinct(NodeIdOf, [n]);
    SortOfSorted(NodeLe, [n]);
  }

  /** Three labels numbered in a row from the content id of the first. */
  lemma IdsOfThree(h: ContentId, ids: map<string, NodeId>, a: RawNode, b: RawNode, c: RawNode)
    requires a.name != b.name && b.name != c.name && c.name != a.name && ids.Keys == {a.name, b.name, c.name}
    requires ids[a.name] == h(a.name) <= U32_MAX - 2 && ids[b.name] == h(a.name) + 1 && ids[c.name] == h(a.name) + 2
    requires h(a.name) <= h(b.name) <= ids[b.name] && h(a.name) <= h(c.name) <= ids[c.name]
    ensures Keys(RawNameOf, [a, b, c]) == ids.Keys && |Keys(RawNameOf, [a, b, c])| <= U32_SIZE
    ensures IdsByName(Interned(h, [a, b, c])) == ids
    ensures forall name :: name in ids ==> h(name) <= ids[name]
  {
    NamesOfThree(a, b, c);
    NoProbing(h, ids, [], a);
    SecondOfThree(h, ids, a, b);
    ThirdOfThree(h, ids, a, b, c);
    HeldByThree(h, ids, a, b, c);
    AssignedIds(h, ids, [a, b, c]);
  }

  lemma SecondOfThree(h: ContentId, ids: map<string, NodeId>, a: RawNode, b: RawNode)
    requires a.name in ids && b.name in ids && ids[a.name] < U32_MAX && ids[b.name] == ids[a.name] + 1
    requires ids[a.name] <= h(b.name) <= ids[b.name]
    ensures RunHeld(h, ids, [a], b)
  {
    NamesOfTwo(a, b);
    assert ids[a.name] in IdsOf(ids, Keys(RawNameOf, [a]));
  }

  lemma ThirdOfThree(h: ContentId, ids: map<string, NodeId>, a: RawNode, b: RawNode, c: RawNode)
    requires a.name in ids && b.name in ids && c.name in ids
    requires ids[a.name] <= U32_MAX - 2 && ids[b.name] == ids[a.name] + 1 && ids[c.name] == ids[a.name] + 2
    requires ids[a.name] <= h(c.name) <= ids[c.name]
    ensures RunHeld(h, ids, [a, b], c)
  {
    NamesOfTwo(a, b);
    assert ids[a.name] in IdsOf(ids, Keys(RawNameOf, [a, b])) && ids[b.name] in IdsOf(ids, Keys(RawNameOf, [a, b]));
  }
}
