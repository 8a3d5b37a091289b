// Degree ranking and hubs: crates/habitat-graph-analyze/src/centrality.rs and godnodes.rs.

module Degrees {
  import opened Ids
  import opened Lists
  import opened Schema
  import opened Interning

  type Ranked = (NodeId, nat)

  /** How many edge ends refer to `id`; both ends of a self-loop do. */
  function EndsAt(es: seq<Edge>, id: NodeId): nat {
    if es == [] then 0
    else
      EndsAt(Init(es), id)
      + (if Last(es).source == id then 1 else 0)
      + (if Last(es).target == id then 1 else 0)
  }

  function EdgeEnds(es: seq<Edge>): set<NodeId> {
    if es == [] then {} else EdgeEnds(Init(es)) + {Last(es).source, Last(es).target}
  }

  /** The ids a graph declares or mentions. */
  ghost function Mentioned(g: Graph): set<NodeId> {
    Keys(NodeIdOf, g.nodes) + EdgeEnds(g.edges)
  }

  /** Degree descending, then id ascending. */
  predicate RankLe(a: Ranked, b: Ranked) {
    a.1 > b.1 || (a.1 == b.1 && a.0 <= b.0)
  }

  function IdOfRanked(r: Ranked): NodeId { r.0 }

  /** Every id of the graph once, with its degree, in strict rank order. */
  ghost predicate IsRanking(g: Graph, r: seq<Ranked>) {
    && StrictlySortedBy(RankLe, r)
    && forall x :: x in r <==> x.0 in Mentioned(g) && x.1 == EndsAt(g.edges, x.0)
  }

  /** There is one ranking, so it does not depend on the iteration order of the hash map. */
  lemma RankingUnique(g: Graph, r: seq<Ranked>, r': seq<Ranked>)
    requires IsRanking(g, r) && IsRanking(g, r')
    ensures r == r'
  {
    StrictlySortedUnique(RankLe, r, r');
  }

  // ---------------------------------------------------------------- conservation

  function SumOfDegrees(r: seq<Ranked>): nat {
    if r == [] then 0 else SumOfDegrees(Init(r)) + Last(r).1
  }

  function Occurrences(r: seq<Ranked>, id: NodeId): nat {
    if r == [] then 0 else Occurrences(Init(r), id) + (if Last(r).0 == id then 1 else 0)
  }

  lemma {:induction false} OccursOnce(r: seq<Ranked>, id: NodeId)
    requires DistinctBy(IdOfRanked, r)
    ensures Occurrences(r, id) == if id in Keys(IdOfRanked, r) then 1 else 0
  {
    if r != [] {
      OccursOnce(Init(r), id);
      KeysSnoc(IdOfRanked, r);
      LastKeyIsNew(IdOfRanked, r);
    }
  }

  function SumOver(r: seq<Ranked>, es: seq<Edge>): nat {
    if r == [] then 0 else SumOver(Init(r), es) + EndsAt(es, Last(r).0)
  }

  lemma {:induction false} SumOverNothing(r: seq<Ranked>)
    ensures SumOver(r, []) == 0
  {
    if r != [] {
      SumOverNothing(Init(r));
    }
  }

  lemma {:induction false} SumOverOneMore(r: seq<Ranked>, es: seq<Edge>)
    requires es != []
    ensures SumOver(r, es) ==
            SumOver(r, Init(es)) + Occurrences(r, Last(es).source) + Occurrences(r, Last(es).target)
  {
    if r != [] {
      SumOverOneMore(Init(r), es);
    }
  }

  lemma {:induction false} EndsCounted(r: seq<Ranked>, es: seq<Edge>)
    requires DistinctBy(IdOfRanked, r) && EdgeEnds(es) <= Keys(IdOfRanked, r)
    ensures SumOver(r, es) == 2 * |es|
  {
    if es == [] {
      SumOverNothing(r);
    } else {
      EndsCounted(r, Init(es));
      SumOverOneMore(r, es);
      OccursOnce(r, Last(es).source);
      OccursOnce(r, Last(es).target);
    }
  }

  lemma {:induction false} SumIsSumOver(r: seq<Ranked>, es: seq<Edge>)
    requires forall x :: x in r ==> x.1 == EndsAt(es, x.0)
    ensures SumOfDegrees(r) == SumOver(r, es)
  {
    if r != [] {
      assert r == Init(r) + [Last(r)];
      assert Last(r) in r && forall x :: x in Init(r) ==> x in r;
      SumIsSumOver(Init(r), es);
    }
  }

  lemma RankingDistinct(g: Graph, r: seq<Ranked>)
    requires IsRanking(g, r)
    ensures DistinctBy(IdOfRanked, r) && Keys(IdOfRanked, r) == Mentioned(g)
  {
    forall i, j | 0 <= i < j < |r|
      ensures r[i].0 != r[j].0
    {
      assert r[i] in r && r[j] in r;
    }
    forall id | id in Mentioned(g)
      ensures id in Keys(IdOfRanked, r)
    {
      assert (id, EndsAt(g.edges, id)) in r;
    }
  }

  /** The degrees of a ranking add up to twice the number of edges. */
  lemma DegreesConserveEnds(g: Graph, r: seq<Ranked>)
    requires IsRanking(g, r)
    ensures SumOfDegrees(r) == 2 * |g.edges|
    ensures |r| == |Mentioned(g)|
  {
    RankingDistinct(g, r);
    DistinctSize(IdOfRanked, r);
    SumIsSumOver(r, g.edges);
    EndsCounted(r, g.edges);
  }

  // ---------------------------------------------------------------- the program

  ghost predicate Counted(g: Graph, i: nat, degrees: map<NodeId, nat>)
    requires i <= |g.edges|
  {
    && degrees.Keys == Keys(NodeIdOf, g.nodes) + EdgeEnds(g.edges[..i])
    && forall id :: id in degrees ==> degrees[id] == EndsAt(g.edges[..i], id)
  }

  lemma {:induction false} NotAnEnd(es: seq<Edge>, id: NodeId)
    requires id !in EdgeEnds(es)
    ensures EndsAt(es, id) == 0
  {
    if es != [] {
      NotAnEnd(Init(es), id);
    }
  }

  function Bumped(degrees: map<NodeId, nat>, id: NodeId, ends: nat): map<NodeId, nat> {
    degrees[id := (if id in degrees then degrees[id] else 0) + ends]
  }

  lemma EdgeCounted(g: Graph, i: nat, degrees: map<NodeId, nat>)
    requires i < |g.edges| && Counted(g, i, degrees)
    ensures var e := g.edges[i];
            Counted(g, i + 1, if e.source == e.target then Bumped(degrees, e.source, 2)
                              else Bumped(Bumped(degrees, e.source, 1), e.target, 1))
  {
    var e := g.edges[i];
    assert Init(g.edges[..i + 1]) == g.edges[..i];
    if e.source !in degrees { NotAnEnd(g.edges[..i], e.source); }
    if e.target !in degrees { NotAnEnd(g.edges[..i], e.target); }
  }

  method CountDegrees(g: Graph) returns (degrees: map<NodeId, nat>)
    ensures degrees.Keys == Mentioned(g)
    ensures forall id :: id in degrees ==> degrees[id] == EndsAt(g.edges, id)
  {
    degrees := map[];
    for i := 0 to |g.nodes|
      invariant degrees.Keys == Keys(NodeIdOf, g.nodes[..i])
      invariant forall id :: id in degrees ==> degrees[id] == 0
    {
      assert Init(g.nodes[..i + 1]) == g.nodes[..i];
      KeysSnoc(NodeIdOf, g.nodes[..i + 1]);
      degrees := degrees[g.nodes[i].id := 0];
    }
    assert g.nodes[..|g.nodes|] == g.nodes;
    for i := 0 to |g.edges|
      invariant Counted(g, i, degrees)
    {
      var e := g.edges[i];
      EdgeCounted(g, i, degrees);
      if e.source == e.target {
        degrees := Bumped(degrees, e.source, 2);
      } else {
        degrees := Bumped(degrees, e.source, 1);
        degrees := Bumped(degrees, e.target, 1);
      }
    }
    assert g.edges[..|g.edges|] == g.edges;
  }

  /** The entries of a hash map in some order: which one is left open. */
  method Entries(degrees: map<NodeId, nat>) returns (all: seq<Ranked>)
    ensures DistinctBy(IdOfRanked, all)
    ensures forall x :: x in all <==> x.0 in degrees && degrees[x.0] == x.1
  {
    all := [];
    var left := degrees.Keys;
    while left != {}
      invariant left <= degrees.Keys
      invariant DistinctBy(IdOfRanked, all)
      invariant forall x :: x in all <==> x.0 in degrees && x.0 !in left && degrees[x.0] == x.1
      decreases |left|
    {
      var id :| id in left;
      all := all + [(id, degrees[id])];
      left := left - {id};
    }
  }

  lemma RankOrder()
    ensures TotalPreorder(RankLe)
    ensures forall a, b :: RankLe(a, b) && RankLe(b, a) ==> a.0 == b.0
  {
  }

  lemma SortedEntriesRank(g: Graph, all: seq<Ranked>)
    requires DistinctBy(IdOfRanked, all)
    requires forall x :: x in all <==> x.0 in Mentioned(g) && x.1 == EndsAt(g.edges, x.0)
    ensures IsRanking(g, SortBy(RankLe, all))
  {
    RankOrder();
    SortSorts(RankLe, all);
    SortMembers(RankLe, all);
    SortDistinct(RankLe, IdOfRanked, all);
    StrictFromKeys(RankLe, IdOfRanked, SortBy(RankLe, all));
  }

  method DegreeCentrality(g: Graph) returns (ranked: seq<Ranked>)
    ensures IsRanking(g, ranked)
    ensures SumOfDegrees(ranked) == 2 * |g.edges|
  {
    var degrees := CountDegrees(g);
    var all := Entries(degrees);
    SortedEntriesRank(g, all);
    ranked := SortBy(RankLe, all);
    DegreesConserveEnds(g, ranked);
  }

  // ---------------------------------------------------------------- hubs

  datatype GodNode = GodNode(id: NodeId, name: string, degree: nat)

  function Hub(names: map<NodeId, string>, r: Ranked): GodNode {
    GodNode(r.0, if r.0 in names then names[r.0] else "", r.1)
  }

  function FirstHubs(g: Graph, r: seq<Ranked>, n: nat): seq<GodNode> {
    Map((x: Ranked) => Hub(NamesById(g.nodes), x), if n <= |r| then r[..n] else r)
  }

  method GodNodes(g: Graph, topN: nat) returns (hubs: seq<GodNode>)
    ensures forall r :: IsRanking(g, r) ==> hubs == FirstHubs(g, r, topN)
  {
    if topN == 0 {
      return [];
    }
    var ranked := DegreeCentrality(g);
    SortOfSorted(RankLe, ranked);
    ranked := SortBy(RankLe, ranked);
    var top := if topN <= |ranked| then ranked[..topN] else ranked;
    hubs := Labelled(NamesById(g.nodes), top);
    forall r | IsRanking(g, r)
      ensures hubs == FirstHubs(g, r, topN)
    {
      RankingUnique(g, r, ranked);
    }
  }

  method Labelled(names: map<NodeId, string>, top: seq<Ranked>) returns (hubs: seq<GodNode>)
    ensures hubs == Map((x: Ranked) => Hub(names, x), top)
  {
    hubs := [];
    for i := 0 to |top|
      invariant |hubs| == i && forall j :: 0 <= j < i ==> hubs[j] == Hub(names, top[j])
    {
      hubs := hubs + [Hub(names, top[i])];
    }
  }

  /** Asking for more hubs never changes the ones already given: two runs agree on the shorter list. */
  lemma HubsArePrefix(g: Graph, r: seq<Ranked>, r': seq<Ranked>, n: nat, m: nat)
    requires IsRanking(g, r) && IsRanking(g, r') && n <= m
    ensures FirstHubs(g, r, n) <= FirstHubs(g, r', m)
    ensures |FirstHubs(g, r, n)| == if n <= |Mentioned(g)| then n else |Mentioned(g)|
  {
    RankingUnique(g, r, r');
    DegreesConserveEnds(g, r);
  }

  /** No id outside the list has a higher degree than one in it. */
  lemma HubsAreHighest(g: Graph, r: seq<Ranked>, n: nat, hub: GodNode, id: NodeId)
    requires IsRanking(g, r) && hub in FirstHubs(g, r, n)
    requires id in Mentioned(g) && forall h :: h in FirstHubs(g, r, n) ==> h.id != id
    ensures hub.degree == EndsAt(g.edges, hub.id)
    ensures EndsAt(g.edges, id) < hub.degree || (EndsAt(g.edges, id) == hub.degree && hub.id < id)
  {
    var other := (id, EndsAt(g.edges, id));
    var hubs := FirstHubs(g, r, n);
    var i :| 0 <= i < |hubs| && hubs[i] == hub;
    HubAt(g, r, n, i);
    assert r[i] in r && other in r;
    var j :| 0 <= j < |r| && r[j] == other;
    if j < |hubs| {
      HubAt(g, r, n, j);
    }
    assert RankLe(r[i], r[j]) && !RankLe(r[j], r[i]);
  }

  lemma HubAt(g: Graph, r: seq<Ranked>, n: nat, i: nat)
    requires i < |FirstHubs(g, r, n)|
    ensures i < |r| && FirstHubs(g, r, n)[i] in FirstHubs(g, r, n)
    ensures FirstHubs(g, r, n)[i].id == r[i].0 && FirstHubs(g, r, n)[i].degree == r[i].1
  {
  }

  // ---------------------------------------------------------------- in plain terms

  function StartsAt(id: NodeId): Edge -> bool { (e: Edge) => e.source == id }
  function LeadsTo(id: NodeId): Edge -> bool { (e: Edge) => e.target == id }

  /** A degree is the number of edges that start at a node plus the number that lead to it. */
  lemma {:induction false} DegreeIsBothCounts(es: seq<Edge>, id: NodeId)
    ensures EndsAt(es, id) == |Filter(StartsAt(id), es)| + |Filter(LeadsTo(id), es)|
    ensures id in EdgeEnds(es) <==> exists e :: e in es && (e.source == id || e.target == id)
  {
    if es != [] {
      DegreeIsBothCounts(Init(es), id);
      assert es == Init(es) + [Last(es)];
    }
  }

  lemma HubName(g: Graph, r: seq<Ranked>, n: nat, hub: GodNode)
    requires hub in FirstHubs(g, r, n)
    ensures hub.name == if hub.id in NamesById(g.nodes) then NamesById(g.nodes)[hub.id] else ""
  {
    var k :| 0 <= k < |FirstHubs(g, r, n)| && FirstHubs(g, r, n)[k] == hub;
  }

  /** A hub carries the label of the node with its id, the last one if there are several, and
      an empty label if there is none. */
  lemma HubNames(g: Graph, r: seq<Ranked>, n: nat, hub: GodNode)
    requires IsRanking(g, r) && hub in FirstHubs(g, r, n)
    ensures (forall node :: node in g.nodes ==> node.id != hub.id) ==> hub.name == ""
    ensures (exists i :: 0 <= i < |g.nodes| && g.nodes[i].id == hub.id) ==>
              exists i :: 0 <= i < |g.nodes| && g.nodes[i].id == hub.id && g.nodes[i].name == hub.name
                          && forall j :: i < j < |g.nodes| ==> g.nodes[j].id != hub.id
  {
    var names := NamesById(g.nodes);
    TableKeys(g.nodes);
    HubName(g, r, n, hub);
    if hub.id in names {
      var i := LastNameOfId(g.nodes, hub.id);
      assert g.nodes[i] in g.nodes;
    } else {
      forall i | 0 <= i < |g.nodes|
        ensures g.nodes[i].id != hub.id
      {
        assert NodeIdOf(g.nodes[i]) in Keys(NodeIdOf, g.nodes);
      }
    }
  }
}
