// The two ways of grouping three branches in 3-way merges, compared in full: confidences, node
// data, and the very lists of nodes and edges.

module MergeGrouping {
  import opened Ids
  import opened Lists
  import opened Schema
  import opened Interning
  import opened Pipeline
  import opened Rebuild
  import opened Assignment
  import opened Merge
  import opened MergeAlgebra
  import opened MergeDriver
  import opened MergeLaws

  /** `merge3(b, merge3(b, o, t), u)` and `merge3(b, o, merge3(b, t, u))`. */
  ghost function LeftGrouped(h: ContentId, base: Graph, o: Graph, t: Graph, u: Graph): Graph {
    Merged3(h, base, Merged3(h, base, o, t), u)
  }

  ghost function RightGrouped(h: ContentId, base: Graph, o: Graph, t: Graph, u: Graph): Graph {
    Merged3(h, base, o, Merged3(h, base, t, u))
  }

  ghost predicate BranchesFit(o: Graph, t: Graph, u: Graph) {
    |NodeNames(o) + NodeNames(t) + NodeNames(u)| <= U32_SIZE
  }

  // ---------------------------------------------------------------- confidences

  /** An edge key in the result was kept by the inner merges of the branches that had it. */
  lemma KeyKeptInside(nb: set<string>, no: set<string>, nt: set<string>, nu: set<string>,
                      eb: set<NameKey>, eo: set<NameKey>, et: set<NameKey>, eu: set<NameKey>, k: NameKey)
    requires EndsAmong(no, eo) && EndsAmong(nt, et) && EndsAmong(nu, eu)
    requires k in SurvivingLive(nb, Surviving(nb, no, nt), nu, eb, SurvivingLive(nb, no, nt, eb, eo, et), eu)
    ensures k in SurvivingLive(nb, no, nt, eb, eo, et) <==> k in eo || k in et
    ensures k !in eo ==> k in SurvivingLive(nb, nt, nu, eb, et, eu)
  {
  }

  lemma GroupedConfidence(h: ContentId, base: Graph, o: Graph, t: Graph, u: Graph, k: NameKey)
    requires BranchesFit(o, t, u)
    requires k in EdgeNames(LeftGrouped(h, base, o, t, u)) && k in EdgeNames(RightGrouped(h, base, o, t, u))
    ensures FirstConfidence(EdgesByName(LeftGrouped(h, base, o, t, u)), k) ==
            FirstConfidence(EdgesByName(RightGrouped(h, base, o, t, u)), k)
  {
    var ot, tu := Merged3(h, base, o, t), Merged3(h, base, t, u);
    GroupedNames(h, base, o, t, u);
    Merged3Meaning(h, base, o, t);
    Merged3Meaning(h, base, t, u);
    Merged3Meaning(h, base, ot, u);
    EdgeEndsNamed(o);
    EdgeEndsNamed(t);
    EdgeEndsNamed(u);
    KeyKeptInside(NodeNames(base), NodeNames(o), NodeNames(t), NodeNames(u),
                  EdgeNames(base), EdgeNames(o), EdgeNames(t), EdgeNames(u), k);
    Merged3Confidence(h, base, ot, u, k);
    Merged3Confidence(h, base, o, tu, k);
    Merged3Confidence(h, base, o, t, k);
    Merged3Confidence(h, base, t, u, k);
  }

  /** Both groupings give every edge the same confidence. */
  lemma GroupedEdgesTell(h: ContentId, base: Graph, o: Graph, t: Graph, u: Graph)
    requires BranchesFit(o, t, u)
    ensures SameFirsts(RawKeyOf, EdgesByName(LeftGrouped(h, base, o, t, u)), EdgesByName(RightGrouped(h, base, o, t, u)))
  {
    var l, r := EdgesByName(LeftGrouped(h, base, o, t, u)), EdgesByName(RightGrouped(h, base, o, t, u));
    GroupedEdges(h, base, o, t, u);
    forall k | k in Keys(RawKeyOf, l)
      ensures FirstBy(RawKeyOf, l, k) == FirstBy(RawKeyOf, r, k)
    {
      GroupedConfidence(h, base, o, t, u, k);
      SameRaw(FirstBy(RawKeyOf, l, k), FirstBy(RawKeyOf, r, k));
    }
  }

  // ---------------------------------------------------------------- node data

  lemma NameKeptInside(nb: set<string>, no: set<string>, nt: set<string>, nu: set<string>, name: string)
    requires name in Surviving(nb, Surviving(nb, no, nt), nu)
    ensures name in Surviving(nb, no, nt) <==> name in no || name in nt
    ensures name !in no ==> name in Surviving(nb, nt, nu)
    ensures name !in no && name in nt ==> name !in nb
  {
  }

  /** What the outer merge says of a label its first branch, itself a merge, has. */
  lemma DataFromFirst(h: ContentId, base: Graph, o: Graph, t: Graph, u: Graph, x: Node)
    requires BranchesFit(o, t, u) && x in LeftGrouped(h, base, o, t, u).nodes
    ensures x.name in NodeNames(o) ==> x.name in NodesByName(o.nodes) && Raw(x) == Raw(NodesByName(o.nodes)[x.name])
    ensures x.name !in NodeNames(o) && x.name in NodeNames(t) ==> Raw(x) == Raw(FirstBy(NodeNameOf, t.nodes, x.name))
    ensures x.name !in NodeNames(o) && x.name !in NodeNames(t) ==>
              x.name in NodeNames(u) && Raw(x) == Raw(FirstBy(NodeNameOf, u.nodes, x.name))
  {
    var ot := Merged3(h, base, o, t);
    GroupedNames(h, base, o, t, u);
    Merged3Meaning(h, base, o, t);
    Merged3Meaning(h, base, ot, u);
    assert NodeNameOf(x) in NodeNames(LeftGrouped(h, base, o, t, u));
    NameKeptInside(NodeNames(base), NodeNames(o), NodeNames(t), NodeNames(u), x.name);
    Merged3NodeData(h, base, ot, u, x);
    NodesByNameMeaning(ot.nodes);
    if x.name in NodeNames(ot) {
      Merged3NodeData(h, base, o, t, NodesByName(ot.nodes)[x.name]);
    }
  }

  /** What the outer merge says of a label only its second branch, itself a merge, has. */
  lemma DataFromSecond(h: ContentId, base: Graph, o: Graph, t: Graph, u: Graph, y: Node)
    requires BranchesFit(o, t, u) && y in RightGrouped(h, base, o, t, u).nodes
    ensures y.name in NodeNames(o) ==> y.name in NodesByName(o.nodes) && Raw(y) == Raw(NodesByName(o.nodes)[y.name])
    ensures y.name !in NodeNames(o) && y.name in NodeNames(t) ==>
              y.name in NodesByName(t.nodes) && Raw(y) == Raw(NodesByName(t.nodes)[y.name])
    ensures y.name !in NodeNames(o) && y.name !in NodeNames(t) ==>
              y.name in NodeNames(u) && Raw(y) == Raw(FirstBy(NodeNameOf, u.nodes, y.name))
  {
    var tu := Merged3(h, base, t, u);
    GroupedNames(h, base, o, t, u);
    Merged3NodeData(h, base, o, tu, y);
    if y.name !in NodeNames(o) {
      Merged3NodeData(h, base, t, u, FirstBy(NodeNameOf, tu.nodes, y.name));
    }
  }

  /** The labels on whose data the groupings can differ: those that `t` alone added. The one takes
      the first node `t` has of such a label, the other the last. */
  ghost function AddedByMiddle(base: Graph, o: Graph, t: Graph): set<string> {
    NodeNames(t) - NodeNames(o) - NodeNames(base)
  }

  lemma GroupedFirst(h: ContentId, base: Graph, o: Graph, t: Graph, u: Graph, name: string)
    requires BranchesFit(o, t, u) && name in NodeNames(LeftGrouped(h, base, o, t, u))
    ensures name in Keys(RawNameOf, RawNodes(LeftGrouped(h, base, o, t, u)))
    ensures name in Keys(RawNameOf, RawNodes(RightGrouped(h, base, o, t, u)))
    ensures name in AddedByMiddle(base, o, t) ==> name in NodesByName(t.nodes)
    ensures (FirstBy(RawNameOf, RawNodes(LeftGrouped(h, base, o, t, u)), name) ==
             FirstBy(RawNameOf, RawNodes(RightGrouped(h, base, o, t, u)), name)) <==>
            (name in AddedByMiddle(base, o, t) ==> Raw(NodesByName(t.nodes)[name]) == Raw(FirstBy(NodeNameOf, t.nodes, name)))
  {
    var l, r := LeftGrouped(h, base, o, t, u), RightGrouped(h, base, o, t, u);
    GroupedNames(h, base, o, t, u);
    Merged3Meaning(h, base, o, t);
    Merged3Meaning(h, base, Merged3(h, base, o, t), u);
    Merged3Meaning(h, base, o, Merged3(h, base, t, u));
    NameKeptInside(NodeNames(base), NodeNames(o), NodeNames(t), NodeNames(u), name);
    var x, y := FirstBy(NodeNameOf, l.nodes, name), FirstBy(NodeNameOf, r.nodes, name);
    DataFromFirst(h, base, o, t, u, x);
    DataFromSecond(h, base, o, t, u, y);
    FirstRaw(l.nodes, name);
    FirstRaw(r.nodes, name);
  }

  lemma AddedByMiddleSurvives(h: ContentId, base: Graph, o: Graph, t: Graph, u: Graph)
    requires BranchesFit(o, t, u)
    ensures AddedByMiddle(base, o, t) <= NodeNames(LeftGrouped(h, base, o, t, u))
    ensures NodeNames(LeftGrouped(h, base, o, t, u)) == NodeNames(RightGrouped(h, base, o, t, u))
  {
    GroupedNames(h, base, o, t, u);
    Merged3Meaning(h, base, o, t);
    Merged3Meaning(h, base, Merged3(h, base, o, t), u);
    Merged3Meaning(h, base, o, Merged3(h, base, t, u));
  }

  /** The groupings say the same of every label if and only if the middle branch does not
      contradict itself on a label that it alone added. */
  lemma GroupedNodesTellIff(h: ContentId, base: Graph, o: Graph, t: Graph, u: Graph)
    requires BranchesFit(o, t, u)
    ensures SameFirsts(RawNameOf, RawNodes(LeftGrouped(h, base, o, t, u)), RawNodes(RightGrouped(h, base, o, t, u)))
       <==> RepeatsAgreeOn(AddedByMiddle(base, o, t), t.nodes)
  {
    var l, r := LeftGrouped(h, base, o, t, u), RightGrouped(h, base, o, t, u);
    AddedByMiddleSurvives(h, base, o, t, u);
    RawKeysOfNodes(l.nodes);
    RawKeysOfNodes(r.nodes);
    if SameFirsts(RawNameOf, RawNodes(l), RawNodes(r)) {
      forall name | name in AddedByMiddle(base, o, t) && name in NodesByName(t.nodes) && name in NodeNames(t)
        ensures Raw(NodesByName(t.nodes)[name]) == Raw(FirstBy(NodeNameOf, t.nodes, name))
      {
        GroupedFirst(h, base, o, t, u, name);
      }
    }
    if RepeatsAgreeOn(AddedByMiddle(base, o, t), t.nodes) {
      forall name | name in NodeNames(l)
        ensures FirstBy(RawNameOf, RawNodes(l), name) == FirstBy(RawNameOf, RawNodes(r), name)
      {
        GroupedFirst(h, base, o, t, u, name);
      }
    }
  }

  // ---------------------------------------------------------------- the very lists

  /** Two 3-way merges that tell the same by label have the same nodes and edges if and only if
      the ids of the one fit the order of the other. */
  lemma SameListsIff(h: ContentId, b: Graph, o: Graph, t: Graph, b': Graph, o': Graph, t': Graph)
    requires |SurvivingNames(b, o, t)| <= U32_SIZE && SurvivingNames(b, o, t) == SurvivingNames(b', o', t')
    ensures var l, r := Merged3(h, b, o, t), Merged3(h, b', o', t');
            SameFirsts(RawKeyOf, EdgesByName(l), EdgesByName(r)) ==>
              (l.nodes == r.nodes && l.edges == r.edges <==>
               SameFirsts(RawNameOf, RawNodes(l), RawNodes(r)) && HeldByEarlier(h, IdsByName(r.nodes), WonRaws(b, o, t)))
    ensures InjectiveOn(h, SurvivingNames(b, o, t)) ==>
              HeldByEarlier(h, IdsByName(Merged3(h, b', o', t').nodes), WonRaws(b, o, t))
  {
    var l, r, xn, yn := Merged3(h, b, o, t), Merged3(h, b', o', t'), WonRaws(b, o, t), WonRaws(b', o', t');
    WonNames(b, o, t);
    WonNames(b', o', t');
    BuiltNodesByName(h, xn);
    BuiltNodesByName(h, yn);
    BuiltNodesMeaning(h, yn);
    if InjectiveOn(h, SurvivingNames(b, o, t)) {
      DistinctContentIdsFixAssignment(h, xn, yn);
      SameAssignmentIff(h, xn, yn);
    }
    if SameFirsts(RawNameOf, RawNodes(l), RawNodes(r)) {
      assert SameFirstNodes(xn, yn);
      SameNodesIff(h, xn, yn);
    }
    if l.nodes == r.nodes && SameFirsts(RawKeyOf, EdgesByName(l), EdgesByName(r)) {
      SameEdgeLists(h, b, o, t, b', o', t');
    }
  }

  lemma SameEdgeLists(h: ContentId, b: Graph, o: Graph, t: Graph, b': Graph, o': Graph, t': Graph)
    requires |SurvivingNames(b, o, t)| <= U32_SIZE && SurvivingNames(b, o, t) == SurvivingNames(b', o', t')
    requires Merged3(h, b, o, t).nodes == Merged3(h, b', o', t').nodes
    requires SameFirsts(RawKeyOf, EdgesByName(Merged3(h, b, o, t)), EdgesByName(Merged3(h, b', o', t')))
    ensures Merged3(h, b, o, t).edges == Merged3(h, b', o', t').edges
  {
    var xn, yn, xe, ye := WonRaws(b, o, t), WonRaws(b', o', t'), WonEdges(b, o, t), WonEdges(b', o', t');
    WonNames(b, o, t);
    WonNames(b', o', t');
    BuiltNodesMeaning(h, xn);
    BuiltNodesMeaning(h, yn);
    BuiltEdgesByName(h, xn, xe, Merged3(h, b, o, t));
    BuiltEdgesByName(h, yn, ye, Merged3(h, b', o', t'));
    assert SameLiveEdges(SurvivingNames(b, o, t), xe, ye);
    BuiltEdgesEqual(h, xn, xe, yn, ye);
  }

  /** Merging three branches against one base, grouped either way: the same edges by label with
      the same confidences and the same manifest; the same node data if and only if the middle
      branch does not contradict itself on a label that it alone added; and the same lists of
      nodes and edges if and only if, besides, the ids of the one fit the order of the other, as
      they do for distinct content ids. */
  lemma MergeAssociativeExactly(h: ContentId, base: Graph, o: Graph, t: Graph, u: Graph)
    requires BranchesFit(o, t, u)
    ensures var l, r := LeftGrouped(h, base, o, t, u), RightGrouped(h, base, o, t, u);
            && SameFirsts(RawKeyOf, EdgesByName(l), EdgesByName(r))
            && l.manifest == r.manifest
            && (SameFirsts(RawNameOf, RawNodes(l), RawNodes(r)) <==> RepeatsAgreeOn(AddedByMiddle(base, o, t), t.nodes))
            && (l.nodes == r.nodes && l.edges == r.edges <==>
                && RepeatsAgreeOn(AddedByMiddle(base, o, t), t.nodes)
                && HeldByEarlier(h, IdsByName(r.nodes), WonRaws(base, Merged3(h, base, o, t), u)))
            && (InjectiveOn(h, NodeNames(l)) ==> HeldByEarlier(h, IdsByName(r.nodes), WonRaws(base, Merged3(h, base, o, t), u)))
  {
    GroupedNames(h, base, o, t, u);
    GroupedEdgesTell(h, base, o, t, u);
    GroupedNodesTellIff(h, base, o, t, u);
    Merged3Meaning(h, base, Merged3(h, base, o, t), u);
    ManifestsGroup(o.manifest, t.manifest, u.manifest);
    SameListsIff(h, base, Merged3(h, base, o, t), u, base, o, Merged3(h, base, t, u));
  }
}
