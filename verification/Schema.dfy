// The graph model and its canonical order: crates/habitat-graph-core/src/schema.rs,
// span.rs, confidence.rs and extraction.rs.
//
// What the program calls `label` is called `name` here, `label` being a Dafny keyword.

module Schema {
  import opened Ids
  import opened Lists

  datatype Option<+T> = None | Some(value: T)

  datatype Span = Span(startByte: U32, endByte: U32, startLine: U32, endLine: U32)

  datatype Confidence = Extracted | Inferred | Ambiguous

  /** A node or an edge before interning: identified by names. */
  datatype RawNode = RawNode(name: string, sourceFile: string, span: Span)
  datatype RawEdge = RawEdge(source: string, target: string, relation: string, confidence: Confidence)
  datatype Extraction = Extraction(nodes: seq<RawNode>, edges: seq<RawEdge>)

  datatype Node = Node(id: NodeId, name: string, sourceFile: string, sourceLocation: Span)
  datatype Edge = Edge(source: NodeId, target: NodeId, relation: string, confidence: Confidence)
  datatype Community = Community(id: CommunityId, name: string, members: seq<NodeId>)

  datatype InputRecord = InputRecord(path: string, contentHash: string)
  datatype Manifest = Manifest(inputs: seq<InputRecord>, toolVersion: string, generatedAt: Option<string>)

  datatype Graph = Graph(schema: string, nodes: seq<Node>, edges: seq<Edge>,
                         communities: seq<Community>, manifest: Manifest)

  const SCHEMA_VERSION := "habitat-graph.graph.v0"
  const TOOL_VERSION := "0.0.0"

  function EmptyGraph(): Graph {
    Graph(SCHEMA_VERSION, [], [], [], Manifest([], TOOL_VERSION, None))
  }

  // ---------------------------------------------------------------- keys

  type EdgeKey = (NodeId, NodeId, string)
  type NameKey = (string, string, string)

  function NodeIdOf(n: Node): NodeId { n.id }
  function NodeNameOf(n: Node): string { n.name }
  function RawNameOf(n: RawNode): string { n.name }
  function EdgeKeyOf(e: Edge): EdgeKey { (e.source, e.target, e.relation) }
  function RawKeyOf(e: RawEdge): NameKey { (e.source, e.target, e.relation) }
  function CommunityNameOf(c: Community): string { c.name }

  // ---------------------------------------------------------------- orders

  /** Lexicographic order by code point, which is the byte order of UTF-8. */
  predicate StringLe(a: string, b: string) {
    || a == []
    || (b != [] && (a[0] < b[0] || (a[0] == b[0] && StringLe(a[1..], b[1..]))))
  }

  lemma {:induction false} StringLeTotal(a: string, b: string)
    ensures StringLe(a, b) || StringLe(b, a)
  {
    if a != [] && b != [] && a[0] == b[0] {
      StringLeTotal(a[1..], b[1..]);
    }
  }

  lemma {:induction false} StringLeTransitive(a: string, b: string, c: string)
    requires StringLe(a, b) && StringLe(b, c)
    ensures StringLe(a, c)
  {
    if a != [] && a[0] == b[0] == c[0] {
      StringLeTransitive(a[1..], b[1..], c[1..]);
    }
  }

  lemma {:induction false} StringLeAntisymmetric(a: string, b: string)
    requires StringLe(a, b) && StringLe(b, a)
    ensures a == b
  {
    if a != [] && b != [] {
      StringLeAntisymmetric(a[1..], b[1..]);
      assert a == [a[0]] + a[1..] && b == [b[0]] + b[1..];
    }
  }

  predicate NodeLe(a: Node, b: Node) { a.id <= b.id }
  predicate CommunityLe(a: Community, b: Community) { a.id <= b.id }
  predicate IdLe(a: NodeId, b: NodeId) { a <= b }

  predicate EdgeLe(a: Edge, b: Edge) {
    || a.source < b.source
    || (a.source == b.source && (a.target < b.target
                                 || (a.target == b.target && StringLe(a.relation, b.relation))))
  }

  /** Text order spelled out: a prefix, or smaller at the first difference. */
  ghost predicate NotLater(a: string, b: string) {
    || a <= b
    || exists k :: 0 <= k < |a| && k < |b| && a[..k] == b[..k] && a[k] < b[k]
  }

  lemma NotLaterSameHead(x: char, a: string, b: string)
    ensures NotLater([x] + a, [x] + b) <==> NotLater(a, b)
  {
    var xa, xb := [x] + a, [x] + b;
    assert xa[1..] == a && xb[1..] == b;
    assert a <= b <==> xa <= xb;
    if k :| 0 <= k < |a| && k < |b| && a[..k] == b[..k] && a[k] < b[k] {
      HeadSlice(x, a, k);
      HeadSlice(x, b, k);
      assert xa[..k + 1] == xb[..k + 1] && xa[k + 1] < xb[k + 1];
    }
    if k :| 0 <= k < |xa| && k < |xb| && xa[..k] == xb[..k] && xa[k] < xb[k] {
      HeadSlice(x, a, k - 1);
      HeadSlice(x, b, k - 1);
      assert a[..k - 1] == b[..k - 1] && a[k - 1] < b[k - 1];
    }
  }

  lemma HeadSlice(x: char, a: string, k: nat)
    requires k <= |a|
    ensures ([x] + a)[..k + 1] == [x] + a[..k] && ([x] + a)[..k + 1][1..] == a[..k]
  {
  }

  lemma SameFirst(a: string, b: string, k: nat)
    requires 0 < k <= |a| && k <= |b| && a[..k] == b[..k]
    ensures a[0] == b[0]
  {
    assert a[0] == a[..k][0] && b[0] == b[..k][0];
  }

  lemma NotLaterOtherHead(a: string, b: string)
    requires a != [] && b != [] && a[0] != b[0]
    ensures NotLater(a, b) <==> a[0] < b[0]
  {
    if a[0] < b[0] {
      assert a[..0] == b[..0];
    }
    if k :| 0 <= k < |a| && k < |b| && a[..k] == b[..k] && a[k] < b[k] {
      if k > 0 { SameFirst(a, b, k); }
    }
  }

  lemma {:induction false} StringLeSpelled(a: string, b: string)
    ensures StringLe(a, b) <==> NotLater(a, b)
  {
    if a != [] && b != [] {
      assert a == [a[0]] + a[1..] && b == [b[0]] + b[1..];
      if a[0] == b[0] {
        StringLeSpelled(a[1..], b[1..]);
        NotLaterSameHead(a[0], a[1..], b[1..]);
      } else {
        NotLaterOtherHead(a, b);
      }
    }
  }

  /** Edge order spelled out: by source, then by target, then by relation. */
  ghost predicate EdgeNotLater(a: Edge, b: Edge) {
    || a.source < b.source
    || (a.source == b.source && a.target < b.target)
    || (a.source == b.source && a.target == b.target && NotLater(a.relation, b.relation))
  }

  lemma EdgeLeSpelled(a: Edge, b: Edge)
    ensures EdgeLe(a, b) <==> EdgeNotLater(a, b)
  {
    StringLeSpelled(a.relation, b.relation);
  }

  lemma OrdersAreTotal()
    ensures TotalPreorder(NodeLe) && TotalPreorder(CommunityLe)
    ensures TotalPreorder(IdLe) && TotalPreorder(EdgeLe)
    ensures forall a, b :: EdgeLe(a, b) && EdgeLe(b, a) ==> EdgeKeyOf(a) == EdgeKeyOf(b)
  {
    forall a: Edge, b: Edge
      ensures EdgeLe(a, b) || EdgeLe(b, a)
      ensures EdgeLe(a, b) && EdgeLe(b, a) ==> EdgeKeyOf(a) == EdgeKeyOf(b)
    {
      StringLeTotal(a.relation, b.relation);
      if EdgeLe(a, b) && EdgeLe(b, a) { StringLeAntisymmetric(a.relation, b.relation); }
    }
    forall a: Edge, b: Edge, c: Edge | EdgeLe(a, b) && EdgeLe(b, c)
      ensures EdgeLe(a, c)
    {
      if StringLe(a.relation, b.relation) && StringLe(b.relation, c.relation) {
        StringLeTransitive(a.relation, b.relation, c.relation);
      }
    }
  }

  // ---------------------------------------------------------------- Graph::sorted

  function SortedMembers(c: Community): Community {
    c.(members := SortBy(IdLe, c.members))
  }

  function Canonical(g: Graph): Graph {
    g.(nodes := SortBy(NodeLe, g.nodes),
       edges := SortBy(EdgeLe, g.edges),
       communities := Map(SortedMembers, SortBy(CommunityLe, g.communities)))
  }

  method Sorted(g: Graph) returns (r: Graph)
    ensures r == Canonical(g)
  {
    var nodes := SortBy(NodeLe, g.nodes);
    var edges := SortBy(EdgeLe, g.edges);
    var communities := SortBy(CommunityLe, g.communities);
    ghost var byId := communities;
    for i := 0 to |communities|
      invariant |communities| == |byId|
      invariant forall j :: 0 <= j < i ==> communities[j] == SortedMembers(byId[j])
      invariant forall j :: i <= j < |byId| ==> communities[j] == byId[j]
    {
      var c := communities[i];
      communities := communities[i := c.(members := SortBy(IdLe, c.members))];
    }
    assert communities == Map(SortedMembers, byId);
    r := Graph(g.schema, nodes, edges, communities, g.manifest);
  }

  /** Every collection of `g` is in canonical order. */
  ghost predicate IsCanonical(g: Graph) {
    && SortedBy(NodeLe, g.nodes)
    && SortedBy(EdgeLe, g.edges)
    && SortedBy(CommunityLe, g.communities)
    && forall c :: c in g.communities ==> SortedBy(IdLe, c.members)
  }

  /** Canonical order spelled out. */
  ghost predicate InOrder(g: Graph) {
    && (forall i, j :: 0 <= i < j < |g.nodes| ==> g.nodes[i].id <= g.nodes[j].id)
    && (forall i, j :: 0 <= i < j < |g.edges| ==> EdgeNotLater(g.edges[i], g.edges[j]))
    && (forall i, j :: 0 <= i < j < |g.communities| ==> g.communities[i].id <= g.communities[j].id)
    && (forall c, i, j :: c in g.communities && 0 <= i < j < |c.members| ==> c.members[i] <= c.members[j])
  }

  lemma CanonicalIsInOrder(g: Graph)
    ensures IsCanonical(g) <==> InOrder(g)
  {
    forall a, b
      ensures EdgeLe(a, b) <==> EdgeNotLater(a, b)
    {
      EdgeLeSpelled(a, b);
    }
    if InOrder(g) {
      forall c | c in g.communities
        ensures SortedBy(IdLe, c.members)
      {
      }
    }
  }

  /** Sorting reaches canonical order, loses and invents nothing (communities up to sorting
      their members, members not at all), and has nothing left to do on its own output. */
  lemma SortedIsCanonical(g: Graph)
    ensures IsCanonical(Canonical(g)) && InOrder(Canonical(g))
    ensures Canonical(g).schema == g.schema && Canonical(g).manifest == g.manifest
    ensures multiset(Canonical(g).nodes) == multiset(g.nodes)
    ensures multiset(Canonical(g).edges) == multiset(g.edges)
    ensures multiset(Canonical(g).communities) == multiset(Map(SortedMembers, g.communities))
    ensures forall c :: c in g.communities ==>
              && SortedMembers(c).id == c.id && SortedMembers(c).name == c.name
              && multiset(SortedMembers(c).members) == multiset(c.members)
    ensures Canonical(Canonical(g)) == Canonical(g)
  {
    var r := Canonical(g);
    OrdersAreTotal();
    SortMultiset(NodeLe, g.nodes);
    SortMultiset(EdgeLe, g.edges);
    SortMultiset(CommunityLe, g.communities);
    MapMultiset(SortedMembers, SortBy(CommunityLe, g.communities), g.communities);
    forall c | c in g.communities
      ensures SortedMembers(c).id == c.id && SortedMembers(c).name == c.name
      ensures multiset(SortedMembers(c).members) == multiset(c.members)
    {
      SortMultiset(IdLe, c.members);
    }
    SortSorts(NodeLe, g.nodes);
    SortSorts(EdgeLe, g.edges);
    SortSorts(CommunityLe, g.communities);
    forall c | c in r.communities
      ensures SortedBy(IdLe, c.members)
    {
      var i :| 0 <= i < |r.communities| && r.communities[i] == c;
      SortSorts(IdLe, SortBy(CommunityLe, g.communities)[i].members);
    }
    CanonicalIsInOrder(r);
    CanonicalFixpoint(r);
  }

  lemma CanonicalFixpoint(g: Graph)
    requires IsCanonical(g)
    ensures Canonical(g) == g
  {
    SortOfSorted(NodeLe, g.nodes);
    SortOfSorted(EdgeLe, g.edges);
    SortOfSorted(CommunityLe, g.communities);
    forall i | 0 <= i < |g.communities|
      ensures SortedMembers(g.communities[i]) == g.communities[i]
    {
      SortOfSorted(IdLe, g.communities[i].members);
    }
    assert Map(SortedMembers, g.communities) == g.communities;
  }

  lemma CommunitiesStable(p: Community -> bool, cs: seq<Community>)
    requires forall c, d :: p(c) && p(d) ==> CommunityLe(c, d)
    requires forall c :: p(SortedMembers(c)) == p(c)
    ensures Filter(p, Map(SortedMembers, SortBy(CommunityLe, cs))) == Map(SortedMembers, Filter(p, cs))
  {
    FilterMap(p, p, SortedMembers, SortBy(CommunityLe, cs));
    SortStable(CommunityLe, p, cs);
  }

  /** Nodes and communities with equal ids, and edges with equal keys, keep their relative order:
      the sort is stable. */
  lemma SortedIsStable(g: Graph, id: NodeId, key: EdgeKey)
    ensures Filter((n: Node) => n.id == id, Canonical(g).nodes) == Filter((n: Node) => n.id == id, g.nodes)
    ensures Filter((e: Edge) => EdgeKeyOf(e) == key, Canonical(g).edges)
         == Filter((e: Edge) => EdgeKeyOf(e) == key, g.edges)
    ensures Filter((c: Community) => c.id == id, Canonical(g).communities)
         == Map(SortedMembers, Filter((c: Community) => c.id == id, g.communities))
  {
    CommunitiesStable((c: Community) => c.id == id, g.communities);
    SortStable(NodeLe, (n: Node) => n.id == id, g.nodes);
    StringLeTotal(key.2, key.2);
    SortStable(EdgeLe, (e: Edge) => EdgeKeyOf(e) == key, g.edges);
  }
}
