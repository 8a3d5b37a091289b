// Duplicate removal: crates/habitat-graph-build/src/dedup.rs.

module Dedup {
  import opened Ids
  import opened Lists
  import opened Schema

  /** The graph without nodes whose id, and edges whose key, occurred before. */
  ghost function Deduped(g: Graph): Graph {
    g.(nodes := DedupBy(NodeIdOf, g.nodes), edges := DedupBy(EdgeKeyOf, g.edges))
  }

  method FirstNodes(all: seq<Node>) returns (nodes: seq<Node>)
    ensures nodes == DedupBy(NodeIdOf, all)
  {
    var seen: set<NodeId> := {};
    nodes := [];
    for i := 0 to |all|
      invariant nodes == DedupBy(NodeIdOf, all[..i])
      invariant seen == Keys(NodeIdOf, nodes)
    {
      DedupStep(NodeIdOf, all, i);
      if all[i].id !in seen {
        seen := seen + {all[i].id};
        nodes := nodes + [all[i]];
      }
    }
    assert all[..|all|] == all;
  }

  method FirstEdges(all: seq<Edge>) returns (edges: seq<Edge>)
    ensures edges == DedupBy(EdgeKeyOf, all)
  {
    var seen: set<EdgeKey> := {};
    edges := [];
    for i := 0 to |all|
      invariant edges == DedupBy(EdgeKeyOf, all[..i])
      invariant seen == Keys(EdgeKeyOf, edges)
    {
      DedupStep(EdgeKeyOf, all, i);
      var key := (all[i].source, all[i].target, all[i].relation);
      if key !in seen {
        seen := seen + {key};
        edges := edges + [all[i]];
      }
    }
    assert all[..|all|] == all;
  }

  method RemoveDuplicates(g: Graph) returns (r: Graph)
    ensures r == Deduped(g)
  {
    var nodes := FirstNodes(g.nodes);
    var edges := FirstEdges(g.edges);
    r := Graph(g.schema, nodes, edges, g.communities, g.manifest);
  }

  /** What duplicate removal promises: each node id and edge key once, none lost, the first
      occurrence kept, order kept, and a second pass removes nothing. */
  lemma DedupKeepsFirsts(g: Graph)
    ensures DistinctBy(NodeIdOf, Deduped(g).nodes) && DistinctBy(EdgeKeyOf, Deduped(g).edges)
    ensures Keys(NodeIdOf, Deduped(g).nodes) == Keys(NodeIdOf, g.nodes)
    ensures Keys(EdgeKeyOf, Deduped(g).edges) == Keys(EdgeKeyOf, g.edges)
    ensures forall n :: n in Deduped(g).nodes ==> n == FirstBy(NodeIdOf, g.nodes, n.id)
    ensures forall e :: e in Deduped(g).edges ==> e == FirstBy(EdgeKeyOf, g.edges, EdgeKeyOf(e))
    ensures forall i :: 0 <= i <= |g.nodes| ==> DedupBy(NodeIdOf, g.nodes[..i]) <= Deduped(g).nodes
    ensures forall i :: 0 <= i <= |g.edges| ==> DedupBy(EdgeKeyOf, g.edges[..i]) <= Deduped(g).edges
    ensures forall i :: FirstAt(NodeIdOf, g.nodes, i) ==> g.nodes[i] in Deduped(g).nodes
    ensures forall i :: FirstAt(EdgeKeyOf, g.edges, i) ==> g.edges[i] in Deduped(g).edges
    ensures Deduped(g).schema == g.schema && Deduped(g).communities == g.communities && Deduped(g).manifest == g.manifest
    ensures Deduped(Deduped(g)) == Deduped(g)
  {
    forall i | FirstAt(NodeIdOf, g.nodes, i) { FirstAtIsFirstBy(NodeIdOf, g.nodes, i); }
    forall i | FirstAt(EdgeKeyOf, g.edges, i) { FirstAtIsFirstBy(EdgeKeyOf, g.edges, i); }
    forall i | 0 <= i <= |g.nodes| { DedupKeepsOrder(NodeIdOf, g.nodes, i); }
    forall i | 0 <= i <= |g.edges| { DedupKeepsOrder(EdgeKeyOf, g.edges, i); }
    DedupMeaning(NodeIdOf, g.nodes);
    DedupMeaning(EdgeKeyOf, g.edges);
    DedupDistinct(NodeIdOf, Deduped(g).nodes);
    DedupDistinct(EdgeKeyOf, Deduped(g).edges);
  }
}
