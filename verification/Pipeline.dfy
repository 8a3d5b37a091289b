// What `assemble`, `merge` and `merge3` have in common: intern the raw nodes, resolve the
// raw edges, remove duplicates, sort. This module says what the result means.

module Pipeline {
  import opened Ids
  import opened Lists
  import opened Schema
  import opened Interning

  // ---------------------------------------------------------------- names to ids and back

  predicate Resolvable(names: set<string>, k: NameKey) {
    k.0 in names && k.1 in names
  }

  function ResolvedKey(ids: map<string, NodeId>, k: NameKey): EdgeKey
    requires Resolvable(ids.Keys, k)
  {
    (ids[k.0], ids[k.1], k.2)
  }

  /** Edges between names become edges between ids; an edge with an unknown end is dropped. */
  function ResolveEdges(ids: map<string, NodeId>, raws: seq<RawEdge>): seq<Edge> {
    if raws == [] then []
    else
      var es, e := ResolveEdges(ids, Init(raws)), Last(raws);
      if e.source in ids && e.target in ids
      then es + [Edge(ids[e.source], ids[e.target], e.relation, e.confidence)]
      else es
  }

  /** The converse: edges of a graph by the names of their ends; dangling edges are dropped. */
  function NamedEdges(names: map<NodeId, string>, es: seq<Edge>): seq<RawEdge> {
    if es == [] then []
    else
      var raws, e := NamedEdges(names, Init(es)), Last(es);
      if e.source in names && e.target in names
      then raws + [RawEdge(names[e.source], names[e.target], e.relation, e.confidence)]
      else raws
  }

  lemma NamedStep(names: map<NodeId, string>, es: seq<Edge>, i: nat)
    requires i < |es|
    ensures NamedEdges(names, es[..i + 1]) ==
            if es[i].source in names && es[i].target in names
            then NamedEdges(names, es[..i])
                 + [RawEdge(names[es[i].source], names[es[i].target], es[i].relation, es[i].confidence)]
            else NamedEdges(names, es[..i])
  {
    assert Init(es[..i + 1]) == es[..i];
  }

  function EdgesByName(g: Graph): seq<RawEdge> {
    NamedEdges(NamesById(g.nodes), g.edges)
  }

  /** The keys of `raws` whose two ends are among `names`. */
  ghost function LiveKeys(names: set<string>, raws: seq<RawEdge>): set<NameKey> {
    set k | k in Keys(RawKeyOf, raws) && Resolvable(names, k)
  }

  ghost function FirstConfidence(raws: seq<RawEdge>, k: NameKey): Confidence
    requires k in Keys(RawKeyOf, raws)
  {
    FirstBy(RawKeyOf, raws, k).confidence
  }

  /** The edge that stands for key `k`: its ends by id, its confidence as first seen. */
  ghost function LiveEdge(ids: map<string, NodeId>, raws: seq<RawEdge>, k: NameKey): Edge
    requires k in LiveKeys(ids.Keys, raws)
  {
    Edge(ids[k.0], ids[k.1], k.2, FirstConfidence(raws, k))
  }

  ghost predicate InjectiveMap<K, V>(m: map<K, V>) {
    forall a, b :: a in m && b in m && m[a] == m[b] ==> a == b
  }

  lemma ResolvedKeyInjective(ids: map<string, NodeId>, a: NameKey, b: NameKey)
    requires InjectiveMap(ids) && Resolvable(ids.Keys, a) && Resolvable(ids.Keys, b)
    requires ResolvedKey(ids, a) == ResolvedKey(ids, b)
    ensures a == b
  {
  }

  lemma {:induction false} ResolvedOrigin(ids: map<string, NodeId>, raws: seq<RawEdge>, e: Edge) returns (k: NameKey)
    requires e in ResolveEdges(ids, raws)
    ensures k in LiveKeys(ids.Keys, raws) && ResolvedKey(ids, k) == EdgeKeyOf(e)
  {
    var last := Last(raws);
    KeysSnoc(RawKeyOf, raws);
    if e in ResolveEdges(ids, Init(raws)) {
      k := ResolvedOrigin(ids, Init(raws), e);
    } else {
      k := RawKeyOf(last);
    }
  }

  lemma {:induction false} ResolveFirst(ids: map<string, NodeId>, raws: seq<RawEdge>, k: NameKey)
    requires InjectiveMap(ids) && k in LiveKeys(ids.Keys, raws)
    ensures ResolvedKey(ids, k) in Keys(EdgeKeyOf, ResolveEdges(ids, raws))
    ensures FirstBy(EdgeKeyOf, ResolveEdges(ids, raws), ResolvedKey(ids, k)) == LiveEdge(ids, raws, k)
  {
    var init, last := Init(raws), Last(raws);
    var es, key := ResolveEdges(ids, init), ResolvedKey(ids, k);
    KeysSnoc(RawKeyOf, raws);
    if k in Keys(RawKeyOf, init) {
      ResolveFirst(ids, init, k);
      if last.source in ids && last.target in ids {
        var more := [Last(ResolveEdges(ids, raws))];
        KeysAppend(EdgeKeyOf, es, more);
        FirstByAppend(EdgeKeyOf, es, more, key);
      }
    } else {
      if key in Keys(EdgeKeyOf, es) {
        var e :| e in es && EdgeKeyOf(e) == key;
        var k' := ResolvedOrigin(ids, init, e);
        ResolvedKeyInjective(ids, k, k');
        assert false;
      }
      KeysSnoc(EdgeKeyOf, ResolveEdges(ids, raws));
      Snoc(es, Last(ResolveEdges(ids, raws)));
    }
  }

  lemma {:induction false} NamedSource(names: map<NodeId, string>, es: seq<Edge>, raw: RawEdge) returns (e: Edge)
    requires raw in NamedEdges(names, es)
    ensures e in es && e.source in names && e.target in names
    ensures raw == RawEdge(names[e.source], names[e.target], e.relation, e.confidence)
  {
    if raw in NamedEdges(names, Init(es)) {
      e := NamedSource(names, Init(es), raw);
    } else {
      e := Last(es);
    }
  }

  lemma {:induction false} NamedMember(names: map<NodeId, string>, es: seq<Edge>, e: Edge)
    requires e in es && e.source in names && e.target in names
    ensures RawEdge(names[e.source], names[e.target], e.relation, e.confidence) in NamedEdges(names, es)
  {
    if e in Init(es) {
      NamedMember(names, Init(es), e);
    }
  }

  lemma {:induction false} NamedDistinct(names: map<NodeId, string>, es: seq<Edge>)
    requires InjectiveMap(names) && DistinctBy(EdgeKeyOf, es)
    ensures DistinctBy(RawKeyOf, NamedEdges(names, es))
  {
    if es != [] {
      var raws, last := NamedEdges(names, Init(es)), Last(es);
      NamedDistinct(names, Init(es));
      LastKeyIsNew(EdgeKeyOf, es);
      if last.source in names && last.target in names {
        forall raw | raw in raws
          ensures RawKeyOf(raw) != (names[last.source], names[last.target], last.relation)
        {
          var e := NamedSource(names, Init(es), raw);
          assert EdgeKeyOf(e) in Keys(EdgeKeyOf, Init(es));
        }
      }
    }
  }

  // ---------------------------------------------------------------- the pipeline

  ghost function BuiltNodes(h: ContentId, rn: seq<RawNode>): seq<Node> {
    SortBy(NodeLe, DedupBy(NodeIdOf, Interned(h, rn)))
  }

  ghost function BuiltEdges(h: ContentId, rn: seq<RawNode>, re: seq<RawEdge>): seq<Edge> {
    SortBy(EdgeLe, DedupBy(EdgeKeyOf, ResolveEdges(IdsByName(Interned(h, rn)), re)))
  }

  /** Built nodes: strictly increasing ids, one node for each name, with the data first seen. */
  lemma BuiltNodesMeaning(h: ContentId, rn: seq<RawNode>)
    requires |Keys(RawNameOf, rn)| <= U32_SIZE
    ensures StrictlySortedBy(NodeLe, BuiltNodes(h, rn))
    ensures WellNumbered(h, BuiltNodes(h, rn))
    ensures Keys(NodeNameOf, BuiltNodes(h, rn)) == Keys(RawNameOf, rn)
    ensures Keys(NodeIdOf, BuiltNodes(h, rn)) == Keys(NodeIdOf, Interned(h, rn))
    ensures forall n :: n in BuiltNodes(h, rn) <==> n in Interned(h, rn)
    ensures forall n :: n in BuiltNodes(h, rn) ==> Raw(n) == FirstBy(RawNameOf, rn, n.name)
    ensures IdsByName(BuiltNodes(h, rn)) == IdsByName(Interned(h, rn))
    ensures DedupBy(NodeIdOf, Interned(h, rn)) == Interned(h, rn)
  {
    var nodes, built := Interned(h, rn), BuiltNodes(h, rn);
    InternedMeaning(h, rn);
    InternedNames(h, rn);
    DedupDistinct(NodeIdOf, nodes);
    OrdersAreTotal();
    SortSorts(NodeLe, nodes);
    SortMembers(NodeLe, nodes);
    SortDistinct(NodeLe, NodeIdOf, nodes);
    SortDistinct(NodeLe, NodeNameOf, nodes);
    StrictFromKeys(NodeLe, NodeIdOf, built);
    SameKeys(NodeIdOf, nodes, built);
    SameKeys(NodeNameOf, nodes, built);
    forall n | n in built
      ensures n.name in Keys(RawNameOf, rn) && Raw(n) == FirstBy(RawNameOf, rn, n.name)
    {
      InternedData(h, rn, n);
    }
    SameNodesSameIds(built, nodes);
  }

  lemma SameKeys<A(!new), K>(key: A -> K, xs: seq<A>, ys: seq<A>)
    requires forall x :: x in xs <==> x in ys
    ensures Keys(key, xs) == Keys(key, ys)
  {
  }

  lemma BuiltIdsInjective(h: ContentId, rn: seq<RawNode>)
    requires |Keys(RawNameOf, rn)| <= U32_SIZE
    ensures InjectiveMap(IdsByName(Interned(h, rn)))
    ensures IdsByName(Interned(h, rn)).Keys == Keys(RawNameOf, rn)
  {
    InternedMeaning(h, rn);
    InternedNames(h, rn);
    TableKeys(Interned(h, rn));
    TablesInverse(h, Interned(h, rn));
  }

  /** Built edges: strictly increasing keys, one edge for each raw key whose two ends are
      nodes, with the confidence first seen. */
  lemma BuiltEdgesMeaning(h: ContentId, rn: seq<RawNode>, re: seq<RawEdge>)
    requires |Keys(RawNameOf, rn)| <= U32_SIZE
    ensures StrictlySortedBy(EdgeLe, BuiltEdges(h, rn, re))
    ensures DistinctBy(EdgeKeyOf, BuiltEdges(h, rn, re))
    ensures IdsByName(Interned(h, rn)).Keys == Keys(RawNameOf, rn)
    ensures forall e :: e in BuiltEdges(h, rn, re) <==>
              exists k :: k in LiveKeys(Keys(RawNameOf, rn), re) && e == LiveEdge(IdsByName(Interned(h, rn)), re, k)
  {
    var ids := IdsByName(Interned(h, rn));
    var es := ResolveEdges(ids, re);
    var kept, built := DedupBy(EdgeKeyOf, es), BuiltEdges(h, rn, re);
    BuiltIdsInjective(h, rn);
    DedupMeaning(EdgeKeyOf, es);
    OrdersAreTotal();
    SortSorts(EdgeLe, kept);
    SortMembers(EdgeLe, kept);
    SortDistinct(EdgeLe, EdgeKeyOf, kept);
    StrictFromKeys(EdgeLe, EdgeKeyOf, built);
    forall e | e in built
      ensures exists k :: k in LiveKeys(Keys(RawNameOf, rn), re) && e == LiveEdge(ids, re, k)
    {
      var k := ResolvedOrigin(ids, re, e);
      ResolveFirst(ids, re, k);
    }
    forall k | k in LiveKeys(Keys(RawNameOf, rn), re)
      ensures LiveEdge(ids, re, k) in built
    {
      ResolveFirst(ids, re, k);
    }
  }

  // ---------------------------------------------------------------- built graphs, seen by name

  ghost predicate IsBuilt(h: ContentId, rn: seq<RawNode>, re: seq<RawEdge>, g: Graph) {
    g.nodes == BuiltNodes(h, rn) && g.edges == BuiltEdges(h, rn, re)
  }

  ghost predicate NoDangling(g: Graph) {
    forall e :: e in g.edges ==> e.source in Keys(NodeIdOf, g.nodes) && e.target in Keys(NodeIdOf, g.nodes)
  }

  lemma RawKeysOfNodes(nodes: seq<Node>)
    ensures Keys(RawNameOf, Map(Raw, nodes)) == Keys(NodeNameOf, nodes)
  {
    var raws := Map(Raw, nodes);
    forall n | n in nodes
      ensures n.name in Keys(RawNameOf, raws)
    {
      var i :| 0 <= i < |nodes| && nodes[i] == n;
      assert raws[i] in raws;
    }
    forall r | r in raws
      ensures r.name in Keys(NodeNameOf, nodes)
    {
      var i :| 0 <= i < |raws| && raws[i] == r;
      assert nodes[i] in nodes;
    }
  }

  lemma RawOfNode(nodes: seq<Node>, n: Node)
    requires DistinctBy(NodeNameOf, nodes) && n in nodes
    ensures n.name in Keys(RawNameOf, Map(Raw, nodes))
    ensures FirstBy(RawNameOf, Map(Raw, nodes), n.name) == Raw(n)
  {
    var raws := Map(Raw, nodes);
    var i :| 0 <= i < |nodes| && nodes[i] == n;
    assert raws[i] in raws;
    assert DistinctBy(RawNameOf, raws);
    FirstByDistinct(RawNameOf, raws, raws[i]);
  }

  /** The nodes of a built graph, stripped of their ids, tell of each name what the input told first. */
  lemma BuiltNodesByName(h: ContentId, rn: seq<RawNode>)
    requires |Keys(RawNameOf, rn)| <= U32_SIZE
    ensures Keys(RawNameOf, Map(Raw, BuiltNodes(h, rn))) == Keys(RawNameOf, rn)
    ensures forall name :: name in Keys(RawNameOf, rn) ==>
              FirstBy(RawNameOf, Map(Raw, BuiltNodes(h, rn)), name) == FirstBy(RawNameOf, rn, name)
  {
    var nodes := BuiltNodes(h, rn);
    BuiltNodesMeaning(h, rn);
    RawKeysOfNodes(nodes);
    forall name | name in Keys(RawNameOf, rn)
      ensures FirstBy(RawNameOf, Map(Raw, nodes), name) == FirstBy(RawNameOf, rn, name)
    {
      var n :| n in nodes && NodeNameOf(n) == name;
      RawOfNode(nodes, n);
    }
  }

  /** The edges of a built graph, by the names of their ends, are the live keys of the input
      with their first confidences, and none of them dangles. */
  lemma BuiltEdgesByName(h: ContentId, rn: seq<RawNode>, re: seq<RawEdge>, g: Graph)
    requires |Keys(RawNameOf, rn)| <= U32_SIZE && IsBuilt(h, rn, re, g)
    ensures Keys(RawKeyOf, EdgesByName(g)) == LiveKeys(Keys(RawNameOf, rn), re)
    ensures DistinctBy(RawKeyOf, EdgesByName(g))
    ensures forall k :: k in LiveKeys(Keys(RawNameOf, rn), re) ==>
              FirstConfidence(EdgesByName(g), k) == FirstConfidence(re, k)
    ensures NoDangling(g)
  {
    var ids, names := IdsByName(g.nodes), NamesById(g.nodes);
    var live := LiveKeys(Keys(RawNameOf, rn), re);
    BuiltNodesMeaning(h, rn);
    BuiltEdgesMeaning(h, rn, re);
    TableKeys(g.nodes);
    TablesInverse(h, g.nodes);
    assert InjectiveMap(names);
    NamedDistinct(names, g.edges);
    forall raw | raw in EdgesByName(g)
      ensures RawKeyOf(raw) in live
    {
      var e := NamedSource(names, g.edges, raw);
      var k :| k in live && e == LiveEdge(ids, re, k);
      assert RawKeyOf(raw) == k;
    }
    forall k | k in live
      ensures k in Keys(RawKeyOf, EdgesByName(g))
      ensures FirstConfidence(EdgesByName(g), k) == FirstConfidence(re, k)
    {
      var e := LiveEdge(ids, re, k);
      NamedMember(names, g.edges, e);
      var raw := RawEdge(names[e.source], names[e.target], e.relation, e.confidence);
      assert RawKeyOf(raw) == k;
      FirstByDistinct(RawKeyOf, EdgesByName(g), raw);
    }
    forall e | e in g.edges
      ensures e.source in Keys(NodeIdOf, g.nodes) && e.target in Keys(NodeIdOf, g.nodes)
    {
      var k :| k in live && e == LiveEdge(ids, re, k);
    }
  }

  // ---------------------------------------------------------------- when two builds agree

  ghost predicate SameFirstNodes(xs: seq<RawNode>, ys: seq<RawNode>) {
    SameFirsts(RawNameOf, xs, ys)
  }

  ghost predicate SameLiveEdges(names: set<string>, xs: seq<RawEdge>, ys: seq<RawEdge>) {
    && LiveKeys(names, xs) == LiveKeys(names, ys)
    && forall k :: k in LiveKeys(names, xs) ==> FirstConfidence(xs, k) == FirstConfidence(ys, k)
  }

  lemma NodeFromTables(h: ContentId, rn: seq<RawNode>, n: Node)
    requires |Keys(RawNameOf, rn)| <= U32_SIZE
    ensures n in BuiltNodes(h, rn) <==>
            n.name in Keys(RawNameOf, rn) && n.name in IdsByName(Interned(h, rn))
            && n == Numbered(FirstBy(RawNameOf, rn, n.name), IdsByName(Interned(h, rn))[n.name])
  {
    var nodes := BuiltNodes(h, rn);
    BuiltNodesMeaning(h, rn);
    if n in nodes {
      IdOfNode(nodes, n);
      assert n.name in Keys(NodeNameOf, nodes);
    } else if n.name in IdsByName(nodes) {
      var m := NodeOfName(nodes, n.name);
    }
  }

  /** Built nodes are determined by the name-to-id table and the first raw node of each name. */
  lemma BuiltNodesEqual(h: ContentId, xs: seq<RawNode>, ys: seq<RawNode>)
    requires |Keys(RawNameOf, xs)| <= U32_SIZE
    requires SameFirstNodes(xs, ys)
    requires IdsByName(Interned(h, xs)) == IdsByName(Interned(h, ys))
    ensures BuiltNodes(h, xs) == BuiltNodes(h, ys)
  {
    BuiltNodesMeaning(h, xs);
    BuiltNodesMeaning(h, ys);
    forall n
      ensures n in BuiltNodes(h, xs) <==> n in BuiltNodes(h, ys)
    {
      NodeFromTables(h, xs, n);
      NodeFromTables(h, ys, n);
    }
    StrictlySortedUnique(NodeLe, BuiltNodes(h, xs), BuiltNodes(h, ys));
  }

  /** Built edges are determined by the name-to-id table, the live keys and their first confidences. */
  lemma BuiltEdgesEqual(h: ContentId, xs: seq<RawNode>, xe: seq<RawEdge>, ys: seq<RawNode>, ye: seq<RawEdge>)
    requires |Keys(RawNameOf, xs)| <= U32_SIZE
    requires Keys(RawNameOf, xs) == Keys(RawNameOf, ys)
    requires IdsByName(Interned(h, xs)) == IdsByName(Interned(h, ys))
    requires SameLiveEdges(Keys(RawNameOf, xs), xe, ye)
    ensures BuiltEdges(h, xs, xe) == BuiltEdges(h, ys, ye)
  {
    BuiltEdgesMeaning(h, xs, xe);
    BuiltEdgesMeaning(h, ys, ye);
    var ids, names := IdsByName(Interned(h, xs)), Keys(RawNameOf, xs);
    forall e
      ensures e in BuiltEdges(h, xs, xe) <==> e in BuiltEdges(h, ys, ye)
    {
      if e in BuiltEdges(h, xs, xe) {
        var k :| k in LiveKeys(names, xe) && e == LiveEdge(ids, xe, k);
        assert e == LiveEdge(ids, ye, k);
      }
      if e in BuiltEdges(h, ys, ye) {
        var k :| k in LiveKeys(names, ye) && e == LiveEdge(ids, ye, k);
        assert e == LiveEdge(ids, xe, k);
      }
    }
    StrictlySortedUnique(EdgeLe, BuiltEdges(h, xs, xe), BuiltEdges(h, ys, ye));
  }

  // ---------------------------------------------------------------- in plain terms

  /** `raws[i]` is the first to mention its label. */
  ghost predicate FirstMention(raws: seq<RawNode>, i: int) {
    0 <= i < |raws| && forall j :: 0 <= j < i ==> raws[j].name != raws[i].name
  }

  /** `raws[i]` is the first edge with its ends and relation. */
  ghost predicate FirstStated(raws: seq<RawEdge>, i: int) {
    && 0 <= i < |raws|
    && forall j :: 0 <= j < i ==>
         raws[j].source != raws[i].source || raws[j].target != raws[i].target || raws[j].relation != raws[i].relation
  }

  ghost predicate NodeStated(rn: seq<RawNode>, n: Node) {
    exists i :: FirstMention(rn, i) && n.name == rn[i].name && n.sourceFile == rn[i].sourceFile && n.sourceLocation == rn[i].span
  }

  ghost predicate EdgeStated(re: seq<RawEdge>, nodes: seq<Node>, e: Edge) {
    exists i, m, n :: FirstStated(re, i) && m in nodes && n in nodes && m.name == re[i].source && n.name == re[i].target
                      && e == Edge(m.id, n.id, re[i].relation, re[i].confidence)
  }

  /** The nodes of a build, in plain terms: in order of their ids, one for each label mentioned,
      with what the first mention says of it. */
  lemma BuiltNodesPlainly(h: ContentId, rn: seq<RawNode>)
    requires |Keys(RawNameOf, rn)| <= U32_SIZE
    ensures var nodes := BuiltNodes(h, rn);
            && (forall i, j :: 0 <= i < j < |nodes| ==> nodes[i].id < nodes[j].id)
            && (forall m, n :: m in nodes && n in nodes && m.name == n.name ==> m == n)
            && (forall n :: n in nodes ==> NodeStated(rn, n))
            && (forall r :: r in rn ==> exists n :: n in nodes && n.name == r.name)
  {
    var nodes := BuiltNodes(h, rn);
    BuiltNodesMeaning(h, rn);
    forall m, n | m in nodes && n in nodes && m.name == n.name
      ensures m == n
    {
      DistinctInjective(NodeNameOf, nodes, m, n);
    }
    forall n | n in nodes
      ensures NodeStated(rn, n)
    {
      assert NodeNameOf(n) in Keys(NodeNameOf, nodes);
      var i := FirstByIndex(RawNameOf, rn, n.name);
      FirstMentionAt(rn, i);
      assert Raw(n) == rn[i];
    }
    forall r | r in rn
      ensures exists n :: n in nodes && n.name == r.name
    {
      assert RawNameOf(r) in Keys(NodeNameOf, nodes);
      var n :| n in nodes && NodeNameOf(n) == RawNameOf(r);
    }
  }

  lemma FirstMentionAt(rn: seq<RawNode>, i: nat)
    requires FirstAt(RawNameOf, rn, i)
    ensures FirstMention(rn, i)
  {
    forall j | 0 <= j < i
      ensures rn[j].name != rn[i].name
    {
      assert RawNameOf(rn[j]) != RawNameOf(rn[i]);
    }
  }

  lemma FirstStatedAt(re: seq<RawEdge>, i: int)
    ensures FirstAt(RawKeyOf, re, i) <==> FirstStated(re, i)
  {
    if FirstStated(re, i) {
      forall j | 0 <= j < i
        ensures RawKeyOf(re[j]) != RawKeyOf(re[i])
      {
      }
    }
    if FirstAt(RawKeyOf, re, i) {
      forall j | 0 <= j < i
        ensures re[j].source != re[i].source || re[j].target != re[i].target || re[j].relation != re[i].relation
      {
        assert RawKeyOf(re[j]) != RawKeyOf(re[i]);
      }
    }
  }

  lemma NodeWithId(nodes: seq<Node>, name: string) returns (n: Node)
    requires DistinctBy(NodeNameOf, nodes) && name in Keys(NodeNameOf, nodes)
    ensures n in nodes && n.name == name && name in IdsByName(nodes) && n.id == IdsByName(nodes)[name]
    ensures forall m :: m in nodes && m.name == name ==> m == n
  {
    n :| n in nodes && NodeNameOf(n) == name;
    IdOfNode(nodes, n);
    forall m | m in nodes && m.name == name
      ensures m == n
    {
      DistinctInjective(NodeNameOf, nodes, m, n);
    }
  }

  /** The edges of a build, in plain terms: one for each edge stated between labels mentioned,
      leading from the node of the one to the node of the other, with the relation and the
      confidence first stated. */
  lemma BuiltEdgesPlainly(h: ContentId, rn: seq<RawNode>, re: seq<RawEdge>)
    requires |Keys(RawNameOf, rn)| <= U32_SIZE
    ensures forall e :: e in BuiltEdges(h, rn, re) <==> EdgeStated(re, BuiltNodes(h, rn), e)
    ensures var es := BuiltEdges(h, rn, re);
            forall i, j :: 0 <= i < j < |es| ==>
              && EdgeNotLater(es[i], es[j])
              && (es[i].source != es[j].source || es[i].target != es[j].target || es[i].relation != es[j].relation)
  {
    BuiltNodesMeaning(h, rn);
    BuiltEdgesMeaning(h, rn, re);
    forall e
      ensures e in BuiltEdges(h, rn, re) <==> EdgeStated(re, BuiltNodes(h, rn), e)
    {
      if e in BuiltEdges(h, rn, re) { BuiltIsStated(h, rn, re, e); }
      if EdgeStated(re, BuiltNodes(h, rn), e) { StatedIsBuilt(h, rn, re, e); }
    }
    EdgesInPlainOrder(BuiltEdges(h, rn, re));
  }

  lemma EdgesInPlainOrder(es: seq<Edge>)
    requires StrictlySortedBy(EdgeLe, es) && DistinctBy(EdgeKeyOf, es)
    ensures forall i, j :: 0 <= i < j < |es| ==>
              && EdgeNotLater(es[i], es[j])
              && (es[i].source != es[j].source || es[i].target != es[j].target || es[i].relation != es[j].relation)
  {
    forall i, j | 0 <= i < j < |es|
      ensures EdgeNotLater(es[i], es[j])
      ensures es[i].source != es[j].source || es[i].target != es[j].target || es[i].relation != es[j].relation
    {
      EdgeLeSpelled(es[i], es[j]);
      assert EdgeKeyOf(es[i]) != EdgeKeyOf(es[j]);
    }
  }

  lemma BuiltIsStated(h: ContentId, rn: seq<RawNode>, re: seq<RawEdge>, e: Edge)
    requires |Keys(RawNameOf, rn)| <= U32_SIZE && e in BuiltEdges(h, rn, re)
    ensures EdgeStated(re, BuiltNodes(h, rn), e)
  {
    var ids, nodes := IdsByName(Interned(h, rn)), BuiltNodes(h, rn);
    BuiltNodesMeaning(h, rn);
    BuiltEdgesMeaning(h, rn, re);
    var k :| k in LiveKeys(Keys(RawNameOf, rn), re) && e == LiveEdge(ids, re, k);
    var i := FirstByIndex(RawKeyOf, re, k);
    FirstStatedAt(re, i);
    var m := NodeWithId(nodes, k.0);
    var n := NodeWithId(nodes, k.1);
    assert m.name == re[i].source && n.name == re[i].target && e == Edge(m.id, n.id, re[i].relation, re[i].confidence);
  }

  lemma StatedIsBuilt(h: ContentId, rn: seq<RawNode>, re: seq<RawEdge>, e: Edge)
    requires |Keys(RawNameOf, rn)| <= U32_SIZE && EdgeStated(re, BuiltNodes(h, rn), e)
    ensures e in BuiltEdges(h, rn, re)
  {
    var ids, nodes := IdsByName(Interned(h, rn)), BuiltNodes(h, rn);
    BuiltNodesMeaning(h, rn);
    BuiltEdgesMeaning(h, rn, re);
    var i, m, n :| FirstStated(re, i) && m in nodes && n in nodes && m.name == re[i].source && n.name == re[i].target
                   && e == Edge(m.id, n.id, re[i].relation, re[i].confidence);
    FirstStatedAt(re, i);
    FirstAtIsFirstBy(RawKeyOf, re, i);
    assert NodeNameOf(m) in Keys(NodeNameOf, nodes) && NodeNameOf(n) in Keys(NodeNameOf, nodes);
    var m' := NodeWithId(nodes, m.name);
    var n' := NodeWithId(nodes, n.name);
    var k := RawKeyOf(re[i]);
    assert k in LiveKeys(Keys(RawNameOf, rn), re) && e == LiveEdge(ids, re, k);
  }

  /** What one edge says by label: nothing, if an end has no node. */
  ghost function SaidByName(names: map<NodeId, string>): Edge -> seq<RawEdge> {
    (e: Edge) =>
      if e.source in names && e.target in names
      then [RawEdge(names[e.source], names[e.target], e.relation, e.confidence)]
      else []
  }

  /** The edges of a graph by label, in plain terms: edge by edge, in order. */
  lemma {:induction false} EdgesByNamePlainly(names: map<NodeId, string>, es: seq<Edge>)
    ensures NamedEdges(names, es) == FlatMap(SaidByName(names), es)
  {
    if es != [] {
      EdgesByNamePlainly(names, Init(es));
    }
  }
}
