// The algebra of the 2-way merge: grouping, and the order of the two graphs.

module MergeAlgebra {
  import opened Ids
  import opened Lists
  import opened Schema
  import opened Interning
  import opened Pipeline
  import opened Rebuild
  import opened Assignment
  import opened Merge

  /** `l` and `r` have the same labels with the same data, and the same edge keys with the same
      confidences. */
  ghost predicate TellSame(l: Graph, r: Graph) {
    && SameFirsts(RawNameOf, RawNodes(l), RawNodes(r))
    && SameFirsts(RawKeyOf, EdgesByName(l), EdgesByName(r))
  }

  /** What a merge tells by label is what its two graphs tell, one after the other. */
  lemma MergeTells(h: ContentId, a: Graph, b: Graph)
    requires |NamesOfBoth(a, b)| <= U32_SIZE
    ensures SameFirsts(RawNameOf, RawNodes(Merged(h, a, b)), BothRawNodes(a, b))
    ensures SameFirsts(RawKeyOf, EdgesByName(Merged(h, a, b)), BothRawEdges(a, b))
  {
    var g := Merged(h, a, b);
    BothNames(a, b);
    BuiltNodesByName(h, BothRawNodes(a, b));
    BuiltEdgesByName(h, BothRawNodes(a, b), BothRawEdges(a, b), g);
    BothEdgesLive(a, b);
    forall k | k in Keys(RawKeyOf, EdgesByName(g))
      ensures FirstBy(RawKeyOf, EdgesByName(g), k) == FirstBy(RawKeyOf, BothRawEdges(a, b), k)
    {
      assert FirstConfidence(EdgesByName(g), k) == FirstConfidence(BothRawEdges(a, b), k);
      SameRaw(FirstBy(RawKeyOf, EdgesByName(g), k), FirstBy(RawKeyOf, BothRawEdges(a, b), k));
    }
  }

  lemma SameRaw(x: RawEdge, y: RawEdge)
    requires RawKeyOf(x) == RawKeyOf(y) && x.confidence == y.confidence
    ensures x == y
  {
  }

  ghost predicate Fits(a: Graph, b: Graph, c: Graph) {
    |Keys(NodeNameOf, a.nodes) + Keys(NodeNameOf, b.nodes) + Keys(NodeNameOf, c.nodes)| <= U32_SIZE
  }

  lemma GroupsFit(h: ContentId, a: Graph, b: Graph, c: Graph)
    requires Fits(a, b, c)
    ensures |NamesOfBoth(a, b)| <= U32_SIZE && |NamesOfBoth(b, c)| <= U32_SIZE
    ensures NamesOfBoth(Merged(h, a, b), c) == NamesOfBoth(a, Merged(h, b, c))
         == Keys(NodeNameOf, a.nodes) + Keys(NodeNameOf, b.nodes) + Keys(NodeNameOf, c.nodes)
  {
    var all := Keys(NodeNameOf, a.nodes) + Keys(NodeNameOf, b.nodes) + Keys(NodeNameOf, c.nodes);
    SubsetCardinality(NamesOfBoth(a, b), all);
    SubsetCardinality(NamesOfBoth(b, c), all);
    MergedMeaning(h, a, b);
    MergedMeaning(h, b, c);
  }

  /** The raw nodes and raw edges the two groupings start from tell the same. */
  lemma GroupsTell(h: ContentId, a: Graph, b: Graph, c: Graph)
    requires Fits(a, b, c)
    ensures SameFirsts(RawNameOf, BothRawNodes(Merged(h, a, b), c), BothRawNodes(a, Merged(h, b, c)))
    ensures SameFirsts(RawKeyOf, BothRawEdges(Merged(h, a, b), c), BothRawEdges(a, Merged(h, b, c)))
  {
    GroupsFit(h, a, b, c);
    MergeTells(h, a, b);
    MergeTells(h, b, c);
    SameFirstsAppend(RawNameOf, RawNodes(Merged(h, a, b)), RawNodes(c), BothRawNodes(a, b), RawNodes(c));
    SameFirstsAppend(RawNameOf, RawNodes(a), RawNodes(Merged(h, b, c)), RawNodes(a), BothRawNodes(b, c));
    AppendAssoc(RawNodes(a), RawNodes(b), RawNodes(c));
    SameFirstsAppend(RawKeyOf, EdgesByName(Merged(h, a, b)), EdgesByName(c), BothRawEdges(a, b), EdgesByName(c));
    SameFirstsAppend(RawKeyOf, EdgesByName(a), EdgesByName(Merged(h, b, c)), EdgesByName(a), BothRawEdges(b, c));
    AppendAssoc(EdgesByName(a), EdgesByName(b), EdgesByName(c));
  }

  lemma LiveFromFirsts(names: set<string>, xs: seq<RawEdge>, ys: seq<RawEdge>)
    requires SameFirsts(RawKeyOf, xs, ys)
    ensures SameLiveEdges(names, xs, ys)
  {
  }

  lemma SameNodesSameEdges(h: ContentId, a: Graph, b: Graph, c: Graph, d: Graph)
    requires |NamesOfBoth(a, b)| <= U32_SIZE && NamesOfBoth(a, b) == NamesOfBoth(c, d)
    requires SameFirsts(RawKeyOf, BothRawEdges(a, b), BothRawEdges(c, d))
    requires Merged(h, a, b).nodes == Merged(h, c, d).nodes
    ensures Merged(h, a, b).edges == Merged(h, c, d).edges
  {
    BothNames(a, b);
    BothNames(c, d);
    BuiltNodesMeaning(h, BothRawNodes(a, b));
    BuiltNodesMeaning(h, BothRawNodes(c, d));
    LiveFromFirsts(NamesOfBoth(a, b), BothRawEdges(a, b), BothRawEdges(c, d));
    BuiltEdgesEqual(h, BothRawNodes(a, b), BothRawEdges(a, b), BothRawNodes(c, d), BothRawEdges(c, d));
  }

  // ---------------------------------------------------------------- communities

  ghost function MergedCommunityList(xs: seq<Community>, ys: seq<Community>): seq<Community> {
    Map(SortedMembers, SortBy(CommunityLe, xs + ys))
  }

  lemma MergedCommunitiesSorted(xs: seq<Community>, ys: seq<Community>)
    ensures SortedBy(CommunityLe, MergedCommunityList(xs, ys))
  {
    OrdersAreTotal();
    SortSorts(CommunityLe, xs + ys);
  }

  lemma MembersSortedTwice(cs: seq<Community>)
    ensures Map(SortedMembers, Map(SortedMembers, cs)) == Map(SortedMembers, cs)
  {
    OrdersAreTotal();
    forall i | 0 <= i < |cs|
      ensures SortedMembers(SortedMembers(cs[i])) == SortedMembers(cs[i])
    {
      SortSorts(IdLe, cs[i].members);
      SortOfSorted(IdLe, SortBy(IdLe, cs[i].members));
    }
  }

  lemma TiesOfMerge(x: Community, xs: seq<Community>, ys: seq<Community>)
    ensures Filter(Tied(CommunityLe, x), MergedCommunityList(xs, ys))
         == Map(SortedMembers, Filter(Tied(CommunityLe, x), xs)) + Map(SortedMembers, Filter(Tied(CommunityLe, x), ys))
  {
    var p := Tied(CommunityLe, x);
    forall c: Community
      ensures p(c) <==> c.id == x.id
    {
      assert p(c) <==> CommunityLe(x, c) && CommunityLe(c, x);
    }
    CommunitiesStable(p, xs + ys);
    FilterAppend(p, xs, ys);
    MapAppend(SortedMembers, Filter(p, xs), Filter(p, ys));
  }

  /** Concatenating and sorting communities does not depend on grouping. */
  lemma CommunitiesGroup(xs: seq<Community>, ys: seq<Community>, zs: seq<Community>)
    ensures MergedCommunityList(MergedCommunityList(xs, ys), zs) == MergedCommunityList(xs, MergedCommunityList(ys, zs))
  {
    var l, r := MergedCommunityList(MergedCommunityList(xs, ys), zs), MergedCommunityList(xs, MergedCommunityList(ys, zs));
    OrdersAreTotal();
    MergedCommunitiesSorted(MergedCommunityList(xs, ys), zs);
    MergedCommunitiesSorted(xs, MergedCommunityList(ys, zs));
    forall x
      ensures Filter(Tied(CommunityLe, x), l) == Filter(Tied(CommunityLe, x), r)
    {
      TiesGroup(x, xs, ys, zs);
    }
    SortedByTies(CommunityLe, l, r);
  }

  lemma TiesGroup(x: Community, xs: seq<Community>, ys: seq<Community>, zs: seq<Community>)
    ensures Filter(Tied(CommunityLe, x), MergedCommunityList(MergedCommunityList(xs, ys), zs))
         == Filter(Tied(CommunityLe, x), MergedCommunityList(xs, MergedCommunityList(ys, zs)))
  {
    var p := Tied(CommunityLe, x);
    var fx, fy, fz := Filter(p, xs), Filter(p, ys), Filter(p, zs);
    TiesOfMerge(x, xs, ys);
    TiesOfMerge(x, ys, zs);
    TiesOfMerge(x, MergedCommunityList(xs, ys), zs);
    TiesOfMerge(x, xs, MergedCommunityList(ys, zs));
    MapAppend(SortedMembers, Map(SortedMembers, fx), Map(SortedMembers, fy));
    MapAppend(SortedMembers, Map(SortedMembers, fy), Map(SortedMembers, fz));
    MembersSortedTwice(fx);
    MembersSortedTwice(fy);
    MembersSortedTwice(fz);
    AppendAssoc(Map(SortedMembers, fx), Map(SortedMembers, fy), Map(SortedMembers, fz));
  }

  // ---------------------------------------------------------------- grouping

  lemma ManifestsGroup(a: Manifest, b: Manifest, c: Manifest)
    ensures MergedManifest(MergedManifest(a, b), c) == MergedManifest(a, MergedManifest(b, c))
  {
    AppendAssoc(a.inputs, b.inputs, c.inputs);
  }

  /** Merging three graphs does not depend on grouping: the same labels with the same data, the
      same ids in use, the same edge keys with the same confidences, the same communities and
      manifest. The graphs are equal if and only if the ids of the one fit the order of the
      other, hence whenever the content ids are distinct. */
  lemma MergeGroups(h: ContentId, a: Graph, b: Graph, c: Graph)
    requires Fits(a, b, c)
    ensures var l, r := Merged(h, Merged(h, a, b), c), Merged(h, a, Merged(h, b, c));
            && TellSame(l, r)
            && Keys(NodeIdOf, l.nodes) == Keys(NodeIdOf, r.nodes)
            && l.communities == r.communities && l.manifest == r.manifest
            && (l == r <==> HeldByEarlier(h, IdsByName(r.nodes), BothRawNodes(Merged(h, a, b), c)))
            && (InjectiveOn(h, Keys(NodeNameOf, r.nodes)) ==> l == r)
  {
    var ab, bc := Merged(h, a, b), Merged(h, b, c);
    GroupsFit(h, a, b, c);
    GroupsTell(h, a, b, c);
    CommunitiesGroup(a.communities, b.communities, c.communities);
    ManifestsGroup(a.manifest, b.manifest, c.manifest);
    SameMergesIff(h, ab, c, a, bc);
  }

  /** Two merges that start from the same: what they share, and when their nodes and edges are equal. */
  lemma SameMergesIff(h: ContentId, a: Graph, b: Graph, c: Graph, d: Graph)
    requires |NamesOfBoth(a, b)| <= U32_SIZE
    requires SameFirsts(RawNameOf, BothRawNodes(a, b), BothRawNodes(c, d))
    requires SameFirsts(RawKeyOf, BothRawEdges(a, b), BothRawEdges(c, d))
    ensures TellSame(Merged(h, a, b), Merged(h, c, d))
    ensures Keys(NodeIdOf, Merged(h, a, b).nodes) == Keys(NodeIdOf, Merged(h, c, d).nodes)
    ensures Merged(h, a, b).nodes == Merged(h, c, d).nodes && Merged(h, a, b).edges == Merged(h, c, d).edges <==>
            HeldByEarlier(h, IdsByName(Merged(h, c, d).nodes), BothRawNodes(a, b))
    ensures InjectiveOn(h, Keys(NodeNameOf, Merged(h, c, d).nodes)) ==>
              HeldByEarlier(h, IdsByName(Merged(h, c, d).nodes), BothRawNodes(a, b))
  {
    var xn, yn := BothRawNodes(a, b), BothRawNodes(c, d);
    BothNames(a, b);
    BothNames(c, d);
    MergeTells(h, a, b);
    MergeTells(h, c, d);
    BuiltNodesMeaning(h, xn);
    BuiltNodesMeaning(h, yn);
    IdSetOrderFree(h, xn, yn);
    SameNodesIff(h, xn, yn);
    if Merged(h, a, b).nodes == Merged(h, c, d).nodes {
      SameNodesSameEdges(h, a, b, c, d);
    }
    if InjectiveOn(h, Keys(RawNameOf, yn)) {
      DistinctContentIdsFixAssignment(h, xn, yn);
      SameAssignmentIff(h, xn, yn);
    }
  }
}
