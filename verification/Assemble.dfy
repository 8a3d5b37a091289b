// Assembling extractions into a graph: crates/habitat-graph-build/src/assemble.rs.

module Assemble {
  import opened Ids
  import opened Lists
  import opened Probing
  import opened Schema
  import opened Dedup
  import opened Interning
  import opened Pipeline
  import opened Rebuild
  import opened Assignment

  function NodesOf(x: Extraction): seq<RawNode> { x.nodes }
  function EdgesOf(x: Extraction): seq<RawEdge> { x.edges }

  function AllNodes(xs: seq<Extraction>): seq<RawNode> {
    FlatMap(NodesOf, xs)
  }

  function AllEdges(xs: seq<Extraction>): seq<RawEdge> {
    FlatMap(EdgesOf, xs)
  }

  ghost function NamesOf(xs: seq<Extraction>): set<string> {
    Keys(RawNameOf, AllNodes(xs))
  }

  lemma AllAppend(xs: seq<Extraction>, ys: seq<Extraction>)
    ensures AllNodes(xs + ys) == AllNodes(xs) + AllNodes(ys)
    ensures AllEdges(xs + ys) == AllEdges(xs) + AllEdges(ys)
  {
    FlatMapAppend(NodesOf, xs, ys);
    FlatMapAppend(EdgesOf, xs, ys);
  }

  /** The graph `assemble` builds, as a function of its extractions. */
  ghost function Assembled(h: ContentId, xs: seq<Extraction>): Graph {
    EmptyGraph().(nodes := BuiltNodes(h, AllNodes(xs)), edges := BuiltEdges(h, AllNodes(xs), AllEdges(xs)))
  }

  lemma OneMoreOfRest<A>(before: seq<A>, rest: seq<A>, j: nat)
    requires j < |rest|
    ensures before + rest[..j + 1] == (before + rest[..j]) + [rest[j]]
  {
  }

  method InternExtraction(h: ContentId, xs: seq<Extraction>, i: nat,
                          interner0: map<string, NodeId>, used0: set<NodeId>, nodes0: seq<Node>)
    returns (interner: map<string, NodeId>, used: set<NodeId>, nodes: seq<Node>)
    requires i < |xs| && |NamesOf(xs)| <= U32_SIZE
    requires InStep(h, AllNodes(xs[..i]), interner0, used0, nodes0)
    ensures InStep(h, AllNodes(xs[..i + 1]), interner, used, nodes)
  {
    interner, used, nodes := interner0, used0, nodes0;
    ghost var before, rest := AllNodes(xs[..i]), xs[i].nodes;
    assert before + rest[..0] == before;
    for j := 0 to |xs[i].nodes|
      invariant InStep(h, before + rest[..j], interner, used, nodes)
    {
      var raw := xs[i].nodes[j];
      OneMoreOfRest(before, rest, j);
      WalkedNames(xs, i, j);
      var id;
      interner, used, nodes, id := InternRawNode(h, raw, interner, used, nodes, before + rest[..j], NamesOf(xs));
    }
    assert rest[..|rest|] == rest;
    assert Init(xs[..i + 1]) == xs[..i];
  }

  lemma WalkedNames(xs: seq<Extraction>, i: nat, j: nat)
    requires i < |xs| && j < |xs[i].nodes|
    ensures Keys(RawNameOf, AllNodes(xs[..i]) + xs[i].nodes[..j]) + {xs[i].nodes[j].name} <= NamesOf(xs)
  {
    var walked, raw := AllNodes(xs[..i]) + xs[i].nodes[..j], xs[i].nodes[j];
    assert Init(xs[..i + 1]) == xs[..i];
    assert AllNodes(xs[..i + 1]) == (walked + [raw]) + xs[i].nodes[j + 1..];
    assert xs == xs[..i + 1] + xs[i + 1..];
    AllAppend(xs[..i + 1], xs[i + 1..]);
    KeysAppend(RawNameOf, AllNodes(xs[..i + 1]), AllNodes(xs[i + 1..]));
    KeysAppend(RawNameOf, walked + [raw], xs[i].nodes[j + 1..]);
    KeysOneMore(RawNameOf, walked, raw);
  }

  method ResolveExtraction(interner: map<string, NodeId>, xs: seq<Extraction>, i: nat, edges0: seq<Edge>)
    returns (edges: seq<Edge>)
    requires i < |xs| && edges0 == ResolveEdges(interner, AllEdges(xs[..i]))
    ensures edges == ResolveEdges(interner, AllEdges(xs[..i + 1]))
  {
    edges := edges0;
    ghost var before, rest := AllEdges(xs[..i]), xs[i].edges;
    assert before + rest[..0] == before;
    for j := 0 to |xs[i].edges|
      invariant edges == ResolveEdges(interner, before + rest[..j])
    {
      var raw := xs[i].edges[j];
      OneMoreOfRest(before, rest, j);
      Snoc(before + rest[..j], raw);
      if raw.source in interner {
        if raw.target in interner {
          edges := edges + [Edge(interner[raw.source], interner[raw.target], raw.relation, raw.confidence)];
        }
      }
    }
    assert rest[..|rest|] == rest;
    assert Init(xs[..i + 1]) == xs[..i];
  }

  method AssembleGraph(h: ContentId, xs: seq<Extraction>) returns (g: Graph)
    requires |NamesOf(xs)| <= U32_SIZE
    ensures g == Assembled(h, xs)
  {
    var interner: map<string, NodeId>, used: set<NodeId>, nodes: seq<Node> := map[], {}, [];
    for i := 0 to |xs|
      invariant InStep(h, AllNodes(xs[..i]), interner, used, nodes)
    {
      interner, used, nodes := InternExtraction(h, xs, i, interner, used, nodes);
    }
    var edges: seq<Edge> := [];
    for i := 0 to |xs|
      invariant edges == ResolveEdges(interner, AllEdges(xs[..i]))
    {
      edges := ResolveExtraction(interner, xs, i, edges);
    }
    assert xs[..|xs|] == xs;
    var deduped := RemoveDuplicates(EmptyGraph().(nodes := nodes, edges := edges));
    g := Sorted(deduped);
    assert g.communities == [];
  }

  // ---------------------------------------------------------------- what assembling promises

  /** The output is canonical: a fixpoint of duplicate removal and sorting, with strictly
      increasing node ids and edge keys. It has one node for each name, with the data first
      seen, and one edge for each key whose two ends are nodes, with the confidence first seen. */
  lemma AssembledMeaning(h: ContentId, xs: seq<Extraction>)
    requires |NamesOf(xs)| <= U32_SIZE
    ensures WellFormed(h, Assembled(h, xs))
    ensures Canonical(Assembled(h, xs)) == Assembled(h, xs) == Deduped(Assembled(h, xs))
    ensures Keys(NodeNameOf, Assembled(h, xs).nodes) == NamesOf(xs)
    ensures forall n :: n in Assembled(h, xs).nodes ==> Raw(n) == FirstBy(RawNameOf, AllNodes(xs), n.name)
    ensures Keys(RawKeyOf, EdgesByName(Assembled(h, xs))) == LiveKeys(NamesOf(xs), AllEdges(xs))
    ensures forall k :: k in LiveKeys(NamesOf(xs), AllEdges(xs)) ==>
              FirstConfidence(EdgesByName(Assembled(h, xs)), k) == FirstConfidence(AllEdges(xs), k)
  {
    var g := Assembled(h, xs);
    BuiltIsWellFormed(h, AllNodes(xs), AllEdges(xs), g);
    BuiltNodesMeaning(h, AllNodes(xs));
    BuiltEdgesByName(h, AllNodes(xs), AllEdges(xs), g);
    WellFormedIsFixpoint(h, g);
  }

  /** An assembled graph in plain terms: its nodes and edges are those of `BuiltNodesPlainly` and
      `BuiltEdgesPlainly` for all raw nodes and edges in order; nothing else is in it. */
  lemma AssembledPlainly(h: ContentId, xs: seq<Extraction>)
    requires |NamesOf(xs)| <= U32_SIZE
    ensures var g := Assembled(h, xs);
            && (forall i, j :: 0 <= i < j < |g.nodes| ==> g.nodes[i].id < g.nodes[j].id)
            && (forall n :: n in g.nodes ==> NodeStated(AllNodes(xs), n))
            && (forall r :: r in AllNodes(xs) ==> exists n :: n in g.nodes && n.name == r.name)
            && (forall e :: e in g.edges <==> EdgeStated(AllEdges(xs), g.nodes, e))
            && (forall i, j :: 0 <= i < j < |g.edges| ==> EdgeNotLater(g.edges[i], g.edges[j]))
            && g.schema == "habitat-graph.graph.v0" && g.communities == [] && g.manifest.inputs == []
  {
    BuiltNodesPlainly(h, AllNodes(xs));
    BuiltEdgesPlainly(h, AllNodes(xs), AllEdges(xs));
  }

  lemma AssembledKeys(h: ContentId, xs: seq<Extraction>)
    requires |NamesOf(xs)| <= U32_SIZE
    ensures Keys(NodeNameOf, Assembled(h, xs).nodes) == NamesOf(xs)
    ensures Keys(RawKeyOf, EdgesByName(Assembled(h, xs))) == LiveKeys(NamesOf(xs), AllEdges(xs))
  {
    AssembledMeaning(h, xs);
  }

  lemma {:induction false} FlatMapMembers<A, B>(f: A -> seq<B>, xs: seq<A>, y: B)
    ensures y in FlatMap(f, xs) <==> exists x :: x in xs && y in f(x)
  {
    if xs != [] {
      FlatMapMembers(f, Init(xs), y);
      assert xs == Init(xs) + [Last(xs)];
    }
  }

  /** Extractions in another order tell of the same names and the same edge keys. */
  lemma PermutationKeepsKeys(xs: seq<Extraction>, ys: seq<Extraction>)
    requires multiset(xs) == multiset(ys)
    ensures NamesOf(xs) == NamesOf(ys)
    ensures Keys(RawKeyOf, AllEdges(xs)) == Keys(RawKeyOf, AllEdges(ys))
  {
    forall x
      ensures x in xs <==> x in ys
    {
      assert x in xs <==> x in multiset(xs);
      assert x in ys <==> x in multiset(ys);
    }
    forall r
      ensures r in AllNodes(xs) <==> r in AllNodes(ys)
    {
      FlatMapMembers(NodesOf, xs, r);
      FlatMapMembers(NodesOf, ys, r);
    }
    forall e
      ensures e in AllEdges(xs) <==> e in AllEdges(ys)
    {
      FlatMapMembers(EdgesOf, xs, e);
      FlatMapMembers(EdgesOf, ys, e);
    }
  }

  /** Edge keys by id follow from edge keys by name and the name-to-id table. */
  lemma EdgeKeysFromNames(h: ContentId, xn: seq<RawNode>, xe: seq<RawEdge>, yn: seq<RawNode>, ye: seq<RawEdge>)
    requires |Keys(RawNameOf, xn)| <= U32_SIZE
    requires Keys(RawNameOf, xn) == Keys(RawNameOf, yn)
    requires IdsByName(Interned(h, xn)) == IdsByName(Interned(h, yn))
    requires LiveKeys(Keys(RawNameOf, xn), xe) == LiveKeys(Keys(RawNameOf, xn), ye)
    ensures Keys(EdgeKeyOf, BuiltEdges(h, xn, xe)) == Keys(EdgeKeyOf, BuiltEdges(h, yn, ye))
  {
    EdgeKeysFrom(h, xn, xe, yn, ye);
    EdgeKeysFrom(h, yn, ye, xn, xe);
  }

  lemma EdgeKeysFrom(h: ContentId, xn: seq<RawNode>, xe: seq<RawEdge>, yn: seq<RawNode>, ye: seq<RawEdge>)
    requires |Keys(RawNameOf, xn)| <= U32_SIZE
    requires Keys(RawNameOf, xn) == Keys(RawNameOf, yn)
    requires IdsByName(Interned(h, xn)) == IdsByName(Interned(h, yn))
    requires LiveKeys(Keys(RawNameOf, xn), xe) == LiveKeys(Keys(RawNameOf, xn), ye)
    ensures Keys(EdgeKeyOf, BuiltEdges(h, xn, xe)) <= Keys(EdgeKeyOf, BuiltEdges(h, yn, ye))
  {
    BuiltEdgesMeaning(h, xn, xe);
    BuiltEdgesMeaning(h, yn, ye);
    var names, ids := Keys(RawNameOf, xn), IdsByName(Interned(h, xn));
    forall e | e in BuiltEdges(h, xn, xe)
      ensures EdgeKeyOf(e) in Keys(EdgeKeyOf, BuiltEdges(h, yn, ye))
    {
      var k :| k in LiveKeys(names, xe) && e == LiveEdge(ids, xe, k);
      assert LiveEdge(ids, ye, k) in BuiltEdges(h, yn, ye);
    }
  }

  /** Reordering the extractions: the same ids are in use whatever the hash; with distinct
      content ids each name keeps its id and the edges are the same up to confidence. */
  lemma AssembledPermuted(h: ContentId, xs: seq<Extraction>, ys: seq<Extraction>)
    requires |NamesOf(xs)| <= U32_SIZE
    requires multiset(xs) == multiset(ys)
    ensures Keys(NodeNameOf, Assembled(h, xs).nodes) == Keys(NodeNameOf, Assembled(h, ys).nodes)
    ensures Keys(NodeIdOf, Assembled(h, xs).nodes) == Keys(NodeIdOf, Assembled(h, ys).nodes)
    ensures Keys(RawKeyOf, EdgesByName(Assembled(h, xs))) == Keys(RawKeyOf, EdgesByName(Assembled(h, ys)))
    ensures InjectiveOn(h, NamesOf(xs)) ==>
              && IdsByName(Assembled(h, xs).nodes) == IdsByName(Assembled(h, ys).nodes)
              && Keys(EdgeKeyOf, Assembled(h, xs).edges) == Keys(EdgeKeyOf, Assembled(h, ys).edges)
  {
    var xn, yn := AllNodes(xs), AllNodes(ys);
    PermutationKeepsKeys(xs, ys);
    BuiltNodesMeaning(h, xn);
    BuiltNodesMeaning(h, yn);
    IdSetOrderFree(h, xn, yn);
    BuiltEdgesByName(h, xn, AllEdges(xs), Assembled(h, xs));
    BuiltEdgesByName(h, yn, AllEdges(ys), Assembled(h, ys));
    if InjectiveOn(h, NamesOf(xs)) {
      DistinctContentIdsFixAssignment(h, xn, yn);
      EdgeKeysFromNames(h, xn, AllEdges(xs), yn, AllEdges(ys));
    }
  }

  lemma OneExtraction(x: Extraction)
    ensures AllNodes([x]) == x.nodes && AllEdges([x]) == x.edges
  {
    assert Init([x]) == [];
    assert FlatMap(NodesOf, []) == [] && FlatMap(EdgesOf, []) == [];
  }

  function Pair(a: RawNode, b: RawNode): seq<Extraction> {
    [Extraction([a], []), Extraction([b], [])]
  }

  lemma PairNodes(a: RawNode, b: RawNode)
    ensures AllNodes(Pair(a, b)) == [a, b]
    ensures NamesOf(Pair(a, b)) == {a.name, b.name} && |NamesOf(Pair(a, b))| <= U32_SIZE
  {
    OneExtraction(Extraction([a], []));
    assert Init(Pair(a, b)) == [Extraction([a], [])] && [a] + [b] == [a, b];
    NamesOfTwo(a, b);
  }

  /** Of two names with one content id, whichever is interned first takes it. */
  lemma FirstComerTakesTheId(h: ContentId, a: RawNode, b: RawNode)
    requires a.name != b.name && h(a.name) == h(b.name)
    ensures var ids := IdsByName(Assembled(h, Pair(a, b)).nodes);
            a.name in ids && b.name in ids && ids[a.name] == h(a.name) != ids[b.name]
  {
    PairNodes(a, b);
    FirstNodeGetsContentId(h, a, [b]);
    assert [a] + [b] == [a, b];
    BuiltNodesMeaning(h, [a, b]);
    var nodes := BuiltNodes(h, [a, b]);
    IdOfNode(nodes, Numbered(a, h(a.name)));
    TableKeys(nodes);
    TablesInverse(h, nodes);
  }

  /** The comment at lines 98-99 promises the same assignment for the same set of labels.
      Any two labels with one content id refute it: their order decides. */
  lemma AssignmentDependsOnOrder(h: ContentId, a: RawNode, b: RawNode)
    requires a.name != b.name && h(a.name) == h(b.name)
    ensures multiset(Pair(a, b)) == multiset(Pair(b, a))
    ensures IdsByName(Assembled(h, Pair(a, b)).nodes) != IdsByName(Assembled(h, Pair(b, a)).nodes)
  {
    FirstComerTakesTheId(h, a, b);
    FirstComerTakesTheId(h, b, a);
  }

  // ---------------------------------------------------------------- adding and removing symbols

  /** Extractions added at the end renumber no label, whatever the hash. */
  lemma LaterExtractionsRenumberNobody(h: ContentId, xs: seq<Extraction>, ys: seq<Extraction>)
    requires |NamesOf(xs + ys)| <= U32_SIZE
    ensures Extends(IdsByName(Assembled(h, xs).nodes), IdsByName(Assembled(h, xs + ys).nodes))
  {
    AllAppend(xs, ys);
    KeysAppend(RawNameOf, AllNodes(xs), AllNodes(ys));
    SubsetCardinality(NamesOf(xs), NamesOf(xs + ys));
    LaterLabelsRenumberNobody(h, AllNodes(xs), AllNodes(ys));
    BuiltNodesMeaning(h, AllNodes(xs));
    BuiltNodesMeaning(h, AllNodes(xs + ys));
  }

  function WithoutLabel(xs: seq<Extraction>, name: string): seq<Extraction> {
    Map((x: Extraction) => Extraction(Filter((r: RawNode) => r.name != name, x.nodes), x.edges), xs)
  }

  lemma {:induction false} NodesWithoutLabel(xs: seq<Extraction>, name: string)
    ensures AllNodes(WithoutLabel(xs, name)) == Filter(OtherThan(name), AllNodes(xs))
  {
    if xs != [] {
      var less := WithoutLabel(xs, name);
      NodesWithoutLabel(Init(xs), name);
      assert Init(less) == WithoutLabel(Init(xs), name);
      FilterAppend(OtherThan(name), AllNodes(Init(xs)), Last(xs).nodes);
      FilterSame((r: RawNode) => r.name != name, OtherThan(name), Last(xs).nodes);
    }
  }

  lemma {:induction false} FilterSame<A(!new)>(p: A -> bool, q: A -> bool, xs: seq<A>)
    requires forall x :: p(x) == q(x)
    ensures Filter(p, xs) == Filter(q, xs)
  {
    if xs != [] {
      FilterSame(p, q, Init(xs));
    }
  }

  /** Removing one symbol from a code base renumbers no other label if and only if no other
      label's probe passed through its slot. */
  lemma RemovingLabelRenumbersNobodyIff(h: ContentId, xs: seq<Extraction>, name: string)
    requires |NamesOf(xs)| <= U32_SIZE && name in NamesOf(xs)
    ensures var ids := IdsByName(Assembled(h, xs).nodes);
            && ids.Keys == NamesOf(xs)
            && (IdsByName(Assembled(h, WithoutLabel(xs, name)).nodes) == ids - {name} <==>
                forall other :: other in ids ==> !PassedThrough(h, ids, name, other))
  {
    var less := Filter(OtherThan(name), AllNodes(xs));
    RemovalRenumbersNobodyIff(h, AllNodes(xs), name);
    BuiltNodesMeaning(h, AllNodes(xs));
    NodesWithoutLabel(xs, name);
    OtherNames(name, AllNodes(xs));
    SubsetCardinality(Keys(RawNameOf, less), NamesOf(xs));
    BuiltNodesMeaning(h, less);
  }

  /** Adding one symbol, anywhere, renumbers no label if and only if the slot its probe ends in,
      over the ids of the labels that occur before it, is not in use: a test on the graph before
      the addition. */
  lemma AddingLabelRenumbersNobodyIff(h: ContentId, less: seq<Extraction>, more: seq<Extraction>,
                                      before: seq<RawNode>, raw: RawNode, after: seq<RawNode>)
    requires AllNodes(less) == before + after && AllNodes(more) == before + [raw] + after
    requires |NamesOf(more)| <= U32_SIZE && raw.name !in NamesOf(less)
    ensures var ids := IdsByName(Assembled(h, less).nodes);
            Extends(ids, IdsByName(Assembled(h, more).nodes)) <==> SlotOfAdded(h, ids, before, raw) !in ids.Values
  {
    AdditionRenumbersNobodyIff(h, before, raw, after);
    NamesWithAdded(before, raw, after);
    BuiltNodesMeaning(h, AllNodes(less));
    BuiltNodesMeaning(h, AllNodes(more));
  }

  /** Of two labels with one content id, removing the first comer renumbers the other. */
  lemma RemovalRenumbers(h: ContentId, a: RawNode, b: RawNode)
    requires a.name != b.name && h(a.name) == h(b.name)
    ensures IdsByName(Assembled(h, WithoutLabel(Pair(a, b), a.name)).nodes) != IdsByName(Assembled(h, Pair(a, b)).nodes) - {a.name}
  {
    var ids := IdsByName(Assembled(h, Pair(a, b)).nodes);
    PairNodes(a, b);
    FirstComerTakesTheId(h, a, b);
    RemovingLabelRenumbersNobodyIff(h, Pair(a, b), a.name);
    assert PassedThrough(h, ids, a.name, b.name);
  }

  // ---------------------------------------------------------------- an id that wraps around

  /** Two labels whose content id is the last slot: the second one wraps around to slot 0. */
  lemma LabelsWrapAround(h: ContentId, a: RawNode, b: RawNode)
    requires a.name != b.name && h(a.name) == h(b.name) == U32_MAX
    ensures Assembled(h, Pair(a, b)).nodes == [Numbered(b, 0), Numbered(a, U32_MAX)]
    ensures IdsByName(Assembled(h, Pair(a, b)).nodes) == map[a.name := U32_MAX, b.name := 0]
    ensures !NoWrap(h, Assembled(h, Pair(a, b)).nodes)
  {
    var ids, nodes := map[a.name := U32_MAX, b.name := 0], [Numbered(b, 0), Numbered(a, U32_MAX)];
    PairNodes(a, b);
    IdsOfTwo(h, ids, a, b);
    TwoBuilt(h, ids, a, b, nodes);
    BuiltNodesMeaning(h, [a, b]);
    assert nodes[0].name == b.name && nodes[0] in nodes;
  }
}
