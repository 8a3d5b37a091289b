// Graphs in the form this program writes them, and what happens when such a graph is
// interned and resolved once more.

module Rebuild {
  import opened Ids
  import opened Lists
  import opened Probing
  import opened Schema
  import opened Interning
  import opened Pipeline

  // ---------------------------------------------------------------- well-formed graphs

  /** What every graph written by this program satisfies: canonical order, names and ids in
      one-to-one correspondence, ids reached by probing, no dangling edge. */
  ghost predicate WellFormed(h: ContentId, g: Graph) {
    && IsCanonical(g)
    && StrictlySortedBy(NodeLe, g.nodes)
    && StrictlySortedBy(EdgeLe, g.edges)
    && WellNumbered(h, g.nodes)
    && NoDangling(g)
  }

  lemma BuiltIsWellFormed(h: ContentId, rn: seq<RawNode>, re: seq<RawEdge>, g: Graph)
    requires |Keys(RawNameOf, rn)| <= U32_SIZE && IsBuilt(h, rn, re, g)
    requires SortedBy(CommunityLe, g.communities)
    requires forall c :: c in g.communities ==> SortedBy(IdLe, c.members)
    ensures WellFormed(h, g) && InOrder(g)
  {
    BuiltNodesMeaning(h, rn);
    BuiltEdgesMeaning(h, rn, re);
    BuiltEdgesByName(h, rn, re, g);
    CanonicalIsInOrder(g);
  }

  /** A well-formed graph has no duplicates and is in canonical order already. */
  lemma WellFormedIsFixpoint(h: ContentId, g: Graph)
    requires WellFormed(h, g)
    ensures DedupBy(NodeIdOf, g.nodes) == g.nodes
    ensures DedupBy(EdgeKeyOf, g.edges) == g.edges
    ensures Canonical(g) == g
  {
    StrictEdgesDistinct(g.edges);
    DedupDistinct(NodeIdOf, g.nodes);
    DedupDistinct(EdgeKeyOf, g.edges);
    CanonicalFixpoint(g);
  }

  lemma StrictEdgesDistinct(es: seq<Edge>)
    requires StrictlySortedBy(EdgeLe, es)
    ensures DistinctBy(EdgeKeyOf, es)
  {
    forall i, j | 0 <= i < j < |es|
      ensures EdgeKeyOf(es[i]) != EdgeKeyOf(es[j])
    {
      StringLeTotal(es[j].relation, es[i].relation);
      assert !EdgeLe(es[j], es[i]);
    }
  }

  /** Rebuilding the edges of a well-formed graph from their names, with the ids unchanged. */
  lemma EdgesRebuilt(h: ContentId, g: Graph, rn: seq<RawNode>)
    requires WellFormed(h, g) && |Keys(RawNameOf, rn)| <= U32_SIZE
    requires IdsByName(Interned(h, rn)) == IdsByName(g.nodes)
    ensures BuiltEdges(h, rn, EdgesByName(g)) == g.edges
  {
    var ids, raws, built := IdsByName(g.nodes), EdgesByName(g), BuiltEdges(h, rn, EdgesByName(g));
    BuiltEdgesMeaning(h, rn, raws);
    forall e
      ensures e in built <==> e in g.edges
    {
      if e in g.edges {
        var k := EdgeByItsName(h, g, e);
      }
      if e in built {
        var k :| k in LiveKeys(ids.Keys, raws) && e == LiveEdge(ids, raws, k);
        NameOfAnEdge(h, g, k);
      }
    }
    StrictlySortedUnique(EdgeLe, built, g.edges);
  }

  lemma EdgeByItsName(h: ContentId, g: Graph, e: Edge) returns (k: NameKey)
    requires WellFormed(h, g) && e in g.edges
    ensures k in LiveKeys(IdsByName(g.nodes).Keys, EdgesByName(g))
    ensures e == LiveEdge(IdsByName(g.nodes), EdgesByName(g), k)
  {
    var names := NamesById(g.nodes);
    TableKeys(g.nodes);
    TablesInverse(h, g.nodes);
    StrictEdgesDistinct(g.edges);
    NamedDistinct(names, g.edges);
    NamedMember(names, g.edges, e);
    var raw := RawEdge(names[e.source], names[e.target], e.relation, e.confidence);
    FirstByDistinct(RawKeyOf, EdgesByName(g), raw);
    k := RawKeyOf(raw);
  }

  lemma NameOfAnEdge(h: ContentId, g: Graph, k: NameKey)
    requires WellFormed(h, g) && k in LiveKeys(IdsByName(g.nodes).Keys, EdgesByName(g))
    ensures LiveEdge(IdsByName(g.nodes), EdgesByName(g), k) in g.edges
  {
    TableKeys(g.nodes);
    TablesInverse(h, g.nodes);
    var e := NamedSource(NamesById(g.nodes), g.edges, FirstBy(RawKeyOf, EdgesByName(g), k));
  }

  /** The edge keys of a graph, by name, have both ends among its nodes. */
  lemma EdgesByNameLive(g: Graph)
    ensures LiveKeys(Keys(NodeNameOf, g.nodes), EdgesByName(g)) == Keys(RawKeyOf, EdgesByName(g))
  {
    var names := NamesById(g.nodes);
    TableKeys(g.nodes);
    forall raw | raw in EdgesByName(g)
      ensures Resolvable(Keys(NodeNameOf, g.nodes), RawKeyOf(raw))
    {
      var e := NamedSource(names, g.edges, raw);
    }
  }

  // ---------------------------------------------------------------- interning what was interned

  /** No probe ran past the last id: every id is at or above its content id. */
  ghost predicate NoWrap(h: ContentId, nodes: seq<Node>) {
    forall n :: n in nodes ==> h(n.name) <= n.id
  }

  /** Below an unwrapped id, the run of used slots lies among the smaller ids. */
  lemma OwnIdIsFirstFree(h: ContentId, nodes: seq<Node>, i: nat)
    requires StrictlySortedBy(NodeLe, nodes) && WellNumbered(h, nodes) && NoWrap(h, nodes)
    requires i < |nodes|
    ensures IsFirstFree(h(nodes[i].name), Keys(NodeIdOf, nodes[..i]), nodes[i].id)
    ensures |Keys(NodeIdOf, nodes[..i])| < U32_SIZE
  {
    var n, used := nodes[i], Keys(NodeIdOf, nodes[..i]);
    assert RunOccupied(h, n.name, n.id, Keys(NodeIdOf, nodes));
    forall x: U32 | Steps(h(n.name), x) < Steps(h(n.name), n.id)
      ensures x in used
    {
      var m :| m in nodes && NodeIdOf(m) == x;
      var j :| 0 <= j < |nodes| && nodes[j] == m;
      assert j < i;
      assert nodes[..i][j] == m;
    }
    IdSetBound(used + {n.id});
  }

  lemma {:induction false} ReinternPrefix(h: ContentId, nodes: seq<Node>, i: nat)
    requires StrictlySortedBy(NodeLe, nodes) && WellNumbered(h, nodes) && NoWrap(h, nodes)
    requires i <= |nodes|
    ensures Interned(h, Map(Raw, nodes[..i])) == nodes[..i]
  {
    if i != 0 {
      var n, before := nodes[i - 1], nodes[..i - 1];
      ReinternPrefix(h, nodes, i - 1);
      assert nodes[..i] == before + [n];
      assert Map(Raw, nodes[..i]) == Map(Raw, before) + [Raw(n)];
      InternStep(h, Map(Raw, before), Raw(n));
      OwnIdIsFirstFree(h, nodes, i - 1);
      FirstFreeIsUnique(h(n.name), Keys(NodeIdOf, before), n.id);
    }
  }

  lemma {:induction false} ReinternedNoWrap(h: ContentId, nodes: seq<Node>)
    requires StrictlySortedBy(NodeLe, nodes) && DistinctBy(NodeNameOf, nodes)
    requires Interned(h, Map(Raw, nodes)) == nodes
    ensures NoWrap(h, nodes)
  {
    if nodes != [] {
      var n, before := Last(nodes), Init(nodes);
      assert nodes == before + [n];
      assert Map(Raw, nodes) == Map(Raw, before) + [Raw(n)];
      InternStep(h, Map(Raw, before), Raw(n));
      InternedNames(h, Map(Raw, before));
      RawKeysOfNodes(before);
      LastKeyIsNew(NodeNameOf, nodes);
      assert Interned(h, Map(Raw, before)) == before by {
        Snoc(Interned(h, Map(Raw, before)), Last(nodes));
      }
      ReinternedNoWrap(h, before);
      var used := Keys(NodeIdOf, before);
      assert forall x :: x in used ==> x < n.id;
      assert n.id == Probe(h(n.name), used);
      if h(n.name) !in used {
        ProbeOfFree(h(n.name), used);
      }
    }
  }

  lemma {:induction false} InternedShape(h: ContentId, nodes: seq<Node>)
    requires DistinctBy(NodeNameOf, nodes)
    ensures |Interned(h, Map(Raw, nodes))| == |nodes|
    ensures forall i :: 0 <= i < |nodes| ==> Raw(Interned(h, Map(Raw, nodes))[i]) == Raw(nodes[i])
  {
    if nodes != [] {
      var n, before := Last(nodes), Init(nodes);
      assert nodes == before + [n];
      assert Map(Raw, nodes) == Map(Raw, before) + [Raw(n)];
      InternStep(h, Map(Raw, before), Raw(n));
      InternedNames(h, Map(Raw, before));
      RawKeysOfNodes(before);
      LastKeyIsNew(NodeNameOf, nodes);
      InternedShape(h, before);
    }
  }

  lemma NamesFit(h: ContentId, nodes: seq<Node>)
    requires WellNumbered(h, nodes)
    ensures Keys(RawNameOf, Map(Raw, nodes)) == Keys(NodeNameOf, nodes)
    ensures |Keys(NodeNameOf, nodes)| <= U32_SIZE
  {
    RawKeysOfNodes(nodes);
    DistinctSize(NodeNameOf, nodes);
    DistinctSize(NodeIdOf, nodes);
    IdSetBound(Keys(NodeIdOf, nodes));
  }

  lemma RebuiltUnwrapped(h: ContentId, nodes: seq<Node>)
    requires StrictlySortedBy(NodeLe, nodes) && WellNumbered(h, nodes) && NoWrap(h, nodes)
    ensures Interned(h, Map(Raw, nodes)) == nodes
    ensures BuiltNodes(h, Map(Raw, nodes)) == nodes
  {
    ReinternPrefix(h, nodes, |nodes|);
    assert nodes[..|nodes|] == nodes;
    DedupDistinct(NodeIdOf, nodes);
    SortOfSorted(NodeLe, nodes);
  }

  lemma RebuiltSame(h: ContentId, nodes: seq<Node>)
    requires StrictlySortedBy(NodeLe, nodes) && WellNumbered(h, nodes)
    requires BuiltNodes(h, Map(Raw, nodes)) == nodes
    ensures NoWrap(h, nodes)
  {
    NamesFit(h, nodes);
    BuiltNodesMeaning(h, Map(Raw, nodes));
    InternedShape(h, nodes);
    SameListByName(Interned(h, Map(Raw, nodes)), nodes);
    ReinternedNoWrap(h, nodes);
  }

  lemma SameListByName(again: seq<Node>, nodes: seq<Node>)
    requires |again| == |nodes| && DistinctBy(NodeNameOf, nodes)
    requires forall n :: n in again ==> n in nodes
    requires forall i :: 0 <= i < |nodes| ==> Raw(again[i]) == Raw(nodes[i])
    ensures again == nodes
  {
    forall i | 0 <= i < |nodes|
      ensures again[i] == nodes[i]
    {
      assert again[i] in nodes && Raw(again[i]).name == Raw(nodes[i]).name;
      DistinctInjective(NodeNameOf, nodes, again[i], nodes[i]);
    }
  }

  /** Building anew from the nodes of a well-formed graph gives back the same nodes if and
      only if no probe had wrapped around. */
  lemma RebuildNodesIff(h: ContentId, nodes: seq<Node>)
    requires StrictlySortedBy(NodeLe, nodes) && WellNumbered(h, nodes)
    ensures BuiltNodes(h, Map(Raw, nodes)) == nodes <==> NoWrap(h, nodes)
  {
    if NoWrap(h, nodes) { RebuiltUnwrapped(h, nodes); }
    if BuiltNodes(h, Map(Raw, nodes)) == nodes { RebuiltSame(h, nodes); }
  }
}
