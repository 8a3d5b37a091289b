// Merging two graphs with independent id spaces: crates/habitat-graph-build/src/merge.rs.

module Merge {
  import opened Ids
  import opened Lists
  import opened Schema
  import opened Dedup
  import opened Interning
  import opened Pipeline
  import opened Rebuild
  import opened Assemble

  function RawNodes(g: Graph): seq<RawNode> {
    Map(Raw, g.nodes)
  }

  function BothRawNodes(a: Graph, b: Graph): seq<RawNode> {
    RawNodes(a) + RawNodes(b)
  }

  function BothRawEdges(a: Graph, b: Graph): seq<RawEdge> {
    EdgesByName(a) + EdgesByName(b)
  }

  ghost function NamesOfBoth(a: Graph, b: Graph): set<string> {
    Keys(NodeNameOf, a.nodes) + Keys(NodeNameOf, b.nodes)
  }

  function MergedManifest(a: Manifest, b: Manifest): Manifest {
    Manifest(a.inputs + b.inputs, a.toolVersion, if a.generatedAt.Some? then a.generatedAt else b.generatedAt)
  }

  /** The graph `merge` builds: that of assembling what the two graphs say by name. */
  ghost function Merged(h: ContentId, a: Graph, b: Graph): Graph {
    Graph(a.schema,
          BuiltNodes(h, BothRawNodes(a, b)),
          BuiltEdges(h, BothRawNodes(a, b), BothRawEdges(a, b)),
          Map(SortedMembers, SortBy(CommunityLe, a.communities + b.communities)),
          MergedManifest(a.manifest, b.manifest))
  }

  lemma BothNames(a: Graph, b: Graph)
    ensures Keys(RawNameOf, BothRawNodes(a, b)) == NamesOfBoth(a, b)
  {
    KeysAppend(RawNameOf, RawNodes(a), RawNodes(b));
    RawKeysOfNodes(a.nodes);
    RawKeysOfNodes(b.nodes);
  }

  // ---------------------------------------------------------------- the program

  /** `remap` leads from the ids of one input graph to the merged ids of the same names. */
  ghost predicate IsRemap(remap: map<NodeId, NodeId>, names: map<NodeId, string>, ids: map<string, NodeId>) {
    && remap.Keys == names.Keys
    && forall id :: id in remap ==> names[id] in ids && remap[id] == ids[names[id]]
  }

  /** One node of the walk over `all`: its name is interned, its id remapped. */
  method InternNode(h: ContentId, all: seq<Node>, i: nat, interner: map<string, NodeId>, used: set<NodeId>,
                    nodes: seq<Node>, remap: map<NodeId, NodeId>, ghost walked: seq<RawNode>, ghost names: set<string>)
    returns (interner': map<string, NodeId>, used': set<NodeId>, nodes': seq<Node>, remap': map<NodeId, NodeId>)
    requires i < |all|
    requires InStep(h, walked + Map(Raw, all[..i]), interner, used, nodes)
    requires |names| <= U32_SIZE && Keys(RawNameOf, walked) + Keys(NodeNameOf, all) <= names
    requires IsRemap(remap, NamesById(all[..i]), interner)
    ensures InStep(h, walked + Map(Raw, all[..i + 1]), interner', used', nodes')
    ensures IsRemap(remap', NamesById(all[..i + 1]), interner')
    ensures Extends(interner, interner')
  {
    WalkedSoFar(walked, all, i);
    var id;
    interner', used', nodes', id := InternRawNode(h, Raw(all[i]), interner, used, nodes, walked + Map(Raw, all[..i]), names);
    RemapOneMore(remap, all[..i], all[i], interner, interner');
    remap' := remap[all[i].id := id];
  }

  method InternGraph(h: ContentId, all: seq<Node>,
                     interner0: map<string, NodeId>, used0: set<NodeId>, nodes0: seq<Node>,
                     ghost walked: seq<RawNode>, ghost names: set<string>)
    returns (interner: map<string, NodeId>, used: set<NodeId>, nodes: seq<Node>, remap: map<NodeId, NodeId>)
    requires InStep(h, walked, interner0, used0, nodes0)
    requires |names| <= U32_SIZE && Keys(RawNameOf, walked) + Keys(NodeNameOf, all) <= names
    ensures InStep(h, walked + Map(Raw, all), interner, used, nodes)
    ensures IsRemap(remap, NamesById(all), interner)
    ensures Extends(interner0, interner)
  {
    interner, used, nodes, remap := interner0, used0, nodes0, map[];
    assert walked + Map(Raw, all[..0]) == walked;
    for i := 0 to |all|
      invariant InStep(h, walked + Map(Raw, all[..i]), interner, used, nodes)
      invariant IsRemap(remap, NamesById(all[..i]), interner)
      invariant Extends(interner0, interner)
    {
      interner, used, nodes, remap := InternNode(h, all, i, interner, used, nodes, remap, walked, names);
    }
    assert all[..|all|] == all;
  }

  lemma WalkedSoFar(walked: seq<RawNode>, all: seq<Node>, i: nat)
    requires i < |all|
    ensures all[..i + 1] == all[..i] + [all[i]]
    ensures walked + Map(Raw, all[..i + 1]) == walked + Map(Raw, all[..i]) + [Raw(all[i])]
    ensures Keys(RawNameOf, walked + Map(Raw, all[..i])) + {all[i].name} <= Keys(RawNameOf, walked) + Keys(NodeNameOf, all)
  {
    assert all[..i + 1] == all[..i] + [all[i]];
    MapAppend(Raw, all[..i], [all[i]]);
    assert Map(Raw, [all[i]]) == [Raw(all[i])];
    KeysAppend(RawNameOf, walked, Map(Raw, all[..i]));
    RawKeysOfNodes(all[..i]);
    assert all == all[..i] + all[i..];
    KeysAppend(NodeNameOf, all[..i], all[i..]);
    assert NodeNameOf(all[i]) in Keys(NodeNameOf, all);
  }

  lemma RemapOneMore(remap: map<NodeId, NodeId>, before: seq<Node>, n: Node,
                     ids: map<string, NodeId>, ids': map<string, NodeId>)
    requires IsRemap(remap, NamesById(before), ids) && Extends(ids, ids') && n.name in ids'
    ensures IsRemap(remap[n.id := ids'[n.name]], NamesById(before + [n]), ids')
  {
    Snoc(before, n);
  }

  method RemapEdges(remap: map<NodeId, NodeId>, es: seq<Edge>,
                    ghost names: map<NodeId, string>, ghost ids: map<string, NodeId>)
    returns (edges: seq<Edge>)
    requires IsRemap(remap, names, ids)
    ensures edges == ResolveEdges(ids, NamedEdges(names, es))
  {
    edges := [];
    for i := 0 to |es|
      invariant edges == ResolveEdges(ids, NamedEdges(names, es[..i]))
    {
      var e := es[i];
      NamedStep(names, es, i);
      if e.source in remap && e.target in remap {
        Snoc(NamedEdges(names, es[..i]), RawEdge(names[e.source], names[e.target], e.relation, e.confidence));
        edges := edges + [Edge(remap[e.source], remap[e.target], e.relation, e.confidence)];
      }
    }
    assert es[..|es|] == es;
  }

  lemma {:induction false} ResolveAppend(ids: map<string, NodeId>, xs: seq<RawEdge>, ys: seq<RawEdge>)
    ensures ResolveEdges(ids, xs + ys) == ResolveEdges(ids, xs) + ResolveEdges(ids, ys)
    decreases |ys|
  {
    if ys == [] {
      assert xs + ys == xs;
    } else {
      ResolveAppend(ids, xs, Init(ys));
      assert xs + ys == xs + Init(ys) + [Last(ys)];
      Snoc(xs + Init(ys), Last(ys));
    }
  }

  method MergeGraphs(h: ContentId, a: Graph, b: Graph) returns (g: Graph)
    requires |NamesOfBoth(a, b)| <= U32_SIZE
    ensures g == Merged(h, a, b)
  {
    var interner: map<string, NodeId>, used: set<NodeId>, nodes: seq<Node> := map[], {}, [];
    var aRemap, bRemap;
    BothNames(a, b);
    RawKeysOfNodes(a.nodes);
    assert [] + RawNodes(a) == RawNodes(a);
    interner, used, nodes, aRemap := InternGraph(h, a.nodes, interner, used, nodes, [], NamesOfBoth(a, b));
    interner, used, nodes, bRemap := InternGraph(h, b.nodes, interner, used, nodes, RawNodes(a), NamesOfBoth(a, b));

    var aEdges := RemapEdges(aRemap, a.edges, NamesById(a.nodes), interner);
    var bEdges := RemapEdges(bRemap, b.edges, NamesById(b.nodes), interner);
    ResolveAppend(interner, EdgesByName(a), EdgesByName(b));

    var manifest := Manifest(a.manifest.inputs + b.manifest.inputs, a.manifest.toolVersion,
                             if a.manifest.generatedAt.Some? then a.manifest.generatedAt else b.manifest.generatedAt);
    var deduped := RemoveDuplicates(Graph(a.schema, nodes, aEdges + bEdges, a.communities + b.communities, manifest));
    g := Sorted(deduped);
  }

  // ---------------------------------------------------------------- what merging means

  /** Names and edge keys of a merge are the unions, whatever the inputs. */
  lemma MergedMeaning(h: ContentId, a: Graph, b: Graph)
    requires |NamesOfBoth(a, b)| <= U32_SIZE
    ensures WellFormed(h, Merged(h, a, b))
    ensures Keys(NodeNameOf, Merged(h, a, b).nodes) == NamesOfBoth(a, b)
    ensures Keys(RawKeyOf, EdgesByName(Merged(h, a, b))) == Keys(RawKeyOf, EdgesByName(a)) + Keys(RawKeyOf, EdgesByName(b))
  {
    BothNames(a, b);
    MergedIsWellFormed(h, a, b);
    BuiltNodesMeaning(h, BothRawNodes(a, b));
    BuiltEdgesByName(h, BothRawNodes(a, b), BothRawEdges(a, b), Merged(h, a, b));
    BothEdgesLive(a, b);
  }

  ghost predicate ManifestOfBoth(m: Manifest, a: Manifest, b: Manifest) {
    && |m.inputs| == |a.inputs| + |b.inputs|
    && (forall i :: 0 <= i < |a.inputs| ==> m.inputs[i] == a.inputs[i])
    && (forall i :: 0 <= i < |b.inputs| ==> m.inputs[|a.inputs| + i] == b.inputs[i])
    && m.toolVersion == a.toolVersion
    && (a.generatedAt.Some? ==> m.generatedAt == a.generatedAt)
    && (a.generatedAt.None? ==> m.generatedAt == b.generatedAt)
  }

  /** Communities of both graphs are kept, up to sorting their members; those with one id stay in
      order, those of `a` before those of `b`. Inputs are concatenated; the schema and the tool
      version are those of `a`, the time stamp that of `a` if it has one, else that of `b`. */
  lemma MergedKeepsTheRest(h: ContentId, a: Graph, b: Graph, id: CommunityId)
    ensures multiset(Merged(h, a, b).communities) ==
            multiset(Map(SortedMembers, a.communities)) + multiset(Map(SortedMembers, b.communities))
    ensures Filter((c: Community) => c.id == id, Merged(h, a, b).communities) ==
            Map(SortedMembers, Filter((c: Community) => c.id == id, a.communities))
            + Map(SortedMembers, Filter((c: Community) => c.id == id, b.communities))
    ensures forall i, j :: 0 <= i < j < |Merged(h, a, b).communities| ==>
              Merged(h, a, b).communities[i].id <= Merged(h, a, b).communities[j].id
    ensures Merged(h, a, b).schema == a.schema && ManifestOfBoth(Merged(h, a, b).manifest, a.manifest, b.manifest)
  {
    var p, both := (c: Community) => c.id == id, a.communities + b.communities;
    SortMultiset(CommunityLe, both);
    MapMultiset(SortedMembers, SortBy(CommunityLe, both), both);
    MapAppend(SortedMembers, a.communities, b.communities);
    CommunitiesStable(p, both);
    FilterAppend(p, a.communities, b.communities);
    MapAppend(SortedMembers, Filter(p, a.communities), Filter(p, b.communities));
    SortedIsCanonical(EmptyGraph().(communities := both));
  }

  /** What `a` says of a name counts before what `b` says. */
  lemma MergedNodeData(h: ContentId, a: Graph, b: Graph, n: Node)
    requires |NamesOfBoth(a, b)| <= U32_SIZE && n in Merged(h, a, b).nodes
    ensures n.name in Keys(RawNameOf, RawNodes(a)) ==> Raw(n) == FirstBy(RawNameOf, RawNodes(a), n.name)
    ensures n.name !in Keys(RawNameOf, RawNodes(a)) ==>
              n.name in Keys(RawNameOf, RawNodes(b)) && Raw(n) == FirstBy(RawNameOf, RawNodes(b), n.name)
  {
    BothNames(a, b);
    BuiltNodesMeaning(h, BothRawNodes(a, b));
    FirstByAppend(RawNameOf, RawNodes(a), RawNodes(b), n.name);
  }

  /** What `a` says of an edge key counts before what `b` says. */
  lemma MergedConfidence(h: ContentId, a: Graph, b: Graph, k: NameKey)
    requires |NamesOfBoth(a, b)| <= U32_SIZE
    ensures k in Keys(RawKeyOf, EdgesByName(Merged(h, a, b))) && k in Keys(RawKeyOf, EdgesByName(a)) ==>
              FirstConfidence(EdgesByName(Merged(h, a, b)), k) == FirstConfidence(EdgesByName(a), k)
    ensures k in Keys(RawKeyOf, EdgesByName(Merged(h, a, b))) && k !in Keys(RawKeyOf, EdgesByName(a)) ==>
              && k in Keys(RawKeyOf, EdgesByName(b))
              && FirstConfidence(EdgesByName(Merged(h, a, b)), k) == FirstConfidence(EdgesByName(b), k)
  {
    BothNames(a, b);
    BuiltEdgesByName(h, BothRawNodes(a, b), BothRawEdges(a, b), Merged(h, a, b));
    BothEdgesLive(a, b);
    if k in Keys(RawKeyOf, EdgesByName(Merged(h, a, b))) {
      FirstByAppend(RawKeyOf, EdgesByName(a), EdgesByName(b), k);
    }
  }

  lemma MergedIsWellFormed(h: ContentId, a: Graph, b: Graph)
    requires |NamesOfBoth(a, b)| <= U32_SIZE
    ensures WellFormed(h, Merged(h, a, b))
  {
    BothNames(a, b);
    SortedIsCanonical(EmptyGraph().(communities := a.communities + b.communities));
    BuiltIsWellFormed(h, BothRawNodes(a, b), BothRawEdges(a, b), Merged(h, a, b));
  }

  lemma BothEdgesLive(a: Graph, b: Graph)
    ensures LiveKeys(NamesOfBoth(a, b), BothRawEdges(a, b)) == Keys(RawKeyOf, BothRawEdges(a, b))
    ensures Keys(RawKeyOf, BothRawEdges(a, b)) == Keys(RawKeyOf, EdgesByName(a)) + Keys(RawKeyOf, EdgesByName(b))
  {
    EdgesByNameLive(a);
    EdgesByNameLive(b);
    KeysAppend(RawKeyOf, EdgesByName(a), EdgesByName(b));
    forall k | k in Keys(RawKeyOf, BothRawEdges(a, b))
      ensures Resolvable(NamesOfBoth(a, b), k)
    {
      if k in Keys(RawKeyOf, EdgesByName(a)) {
        assert k in LiveKeys(Keys(NodeNameOf, a.nodes), EdgesByName(a));
      } else {
        assert k in LiveKeys(Keys(NodeNameOf, b.nodes), EdgesByName(b));
      }
    }
  }

  /** Merging with the empty graph gives back a well-formed graph if and only if no id in it
      had wrapped around. */
  lemma MergeWithEmptyIff(h: ContentId, g: Graph)
    requires WellFormed(h, g)
    ensures Merged(h, g, EmptyGraph()) == g <==> NoWrap(h, g.nodes)
  {
    var m := Merged(h, g, EmptyGraph());
    assert BothRawNodes(g, EmptyGraph()) == RawNodes(g);
    assert BothRawEdges(g, EmptyGraph()) == EdgesByName(g);
    NamesFit(h, g.nodes);
    RebuildNodesIff(h, g.nodes);
    if NoWrap(h, g.nodes) {
      RebuiltUnwrapped(h, g.nodes);
      EdgesRebuilt(h, g, RawNodes(g));
      assert g.communities + [] == g.communities;
      assert g.manifest.inputs + [] == g.manifest.inputs;
      CanonicalFixpoint(g);
    }
  }
}
