// What the 3-way merge promises: the deletion policy as a set formula, referential integrity,
// and the algebra of merging (grouping, exchange of branches, fast-forward).

module MergeLaws {
  import opened Ids
  import opened Lists
  import opened Probing
  import opened Schema
  import opened Interning
  import opened Pipeline
  import opened Rebuild
  import opened Assignment
  import opened Assemble
  import opened Merge
  import opened MergeDriver

  ghost function NodeNames(g: Graph): set<string> { Keys(NodeNameOf, g.nodes) }
  ghost function EdgeNames(g: Graph): set<NameKey> { Keys(RawKeyOf, EdgesByName(g)) }

  // ---------------------------------------------------------------- the set formula

  /** The policy on edge keys: survive by themselves, and have both ends survive. */
  ghost function SurvivingLive(nb: set<string>, no: set<string>, nt: set<string>,
                               eb: set<NameKey>, eo: set<NameKey>, et: set<NameKey>): set<NameKey> {
    set k | k in Surviving(eb, eo, et) && Resolvable(Surviving(nb, no, nt), k)
  }

  ghost predicate EndsAmong(names: set<string>, keys: set<NameKey>) {
    forall k :: k in keys ==> Resolvable(names, k)
  }

  lemma WonEdgesMeaning(base: Graph, ours: Graph, theirs: Graph)
    ensures Keys(RawKeyOf, WonEdges(base, ours, theirs)) == SurvivingKeys(base, ours, theirs)
    ensures forall k :: k in SurvivingKeys(base, ours, theirs) ==>
              k in Keys(RawKeyOf, BothRawEdges(ours, theirs))
              && FirstConfidence(WonEdges(base, ours, theirs), k) == FirstConfidence(BothRawEdges(ours, theirs), k)
  {
    var survivors, both := SurvivingKeys(base, ours, theirs), BothRawEdges(ours, theirs);
    KeysAppend(RawKeyOf, EdgesByName(ours), EdgesByName(theirs));
    FilterMembers(KeyOfSurvivor(survivors), both);
    forall k | k in survivors
      ensures k in Keys(RawKeyOf, WonEdges(base, ours, theirs))
      ensures FirstConfidence(WonEdges(base, ours, theirs), k) == FirstConfidence(both, k)
    {
      FirstByFilter(RawKeyOf, KeyOfSurvivor(survivors), (k: NameKey) => k in survivors, both, k);
    }
  }

  /** The merge keeps exactly the names and edge keys the policy keeps, an edge only if both
      its ends are kept; each name and key once; no edge dangles; the output is canonical. */
  lemma Merged3Meaning(h: ContentId, base: Graph, ours: Graph, theirs: Graph)
    requires |SurvivingNames(base, ours, theirs)| <= U32_SIZE
    ensures NodeNames(Merged3(h, base, ours, theirs)) == SurvivingNames(base, ours, theirs)
    ensures EdgeNames(Merged3(h, base, ours, theirs)) ==
            SurvivingLive(NodeNames(base), NodeNames(ours), NodeNames(theirs), EdgeNames(base), EdgeNames(ours), EdgeNames(theirs))
    ensures WellFormed(h, Merged3(h, base, ours, theirs))
  {
    var rn, re := WonRaws(base, ours, theirs), WonEdges(base, ours, theirs);
    var g := Merged3(h, base, ours, theirs);
    WonNames(base, ours, theirs);
    WonEdgesMeaning(base, ours, theirs);
    BuiltNodesMeaning(h, rn);
    BuiltEdgesByName(h, rn, re, g);
    SortedIsCanonical(EmptyGraph().(communities := WonCommunities(h, base, ours, theirs)));
    BuiltIsWellFormed(h, rn, re, g);
  }

  /** Ours decides the confidence of an edge it has, theirs that of the others. */
  lemma Merged3Confidence(h: ContentId, base: Graph, ours: Graph, theirs: Graph, k: NameKey)
    requires |SurvivingNames(base, ours, theirs)| <= U32_SIZE
    ensures k in EdgeNames(Merged3(h, base, ours, theirs)) && k in EdgeNames(ours) ==>
              FirstConfidence(EdgesByName(Merged3(h, base, ours, theirs)), k) == FirstConfidence(EdgesByName(ours), k)
    ensures k in EdgeNames(Merged3(h, base, ours, theirs)) && k !in EdgeNames(ours) ==>
              && k in EdgeNames(theirs)
              && FirstConfidence(EdgesByName(Merged3(h, base, ours, theirs)), k) == FirstConfidence(EdgesByName(theirs), k)
  {
    Merged3Meaning(h, base, ours, theirs);
    WonNames(base, ours, theirs);
    WonEdgesMeaning(base, ours, theirs);
    BuiltEdgesByName(h, WonRaws(base, ours, theirs), WonEdges(base, ours, theirs), Merged3(h, base, ours, theirs));
    if k in EdgeNames(Merged3(h, base, ours, theirs)) {
      FirstByAppend(RawKeyOf, EdgesByName(ours), EdgesByName(theirs), k);
    }
  }

  /** Ours decides the data of a node it has (its last node of that name), theirs that of the others. */
  lemma Merged3NodeData(h: ContentId, base: Graph, ours: Graph, theirs: Graph, n: Node)
    requires |SurvivingNames(base, ours, theirs)| <= U32_SIZE
    ensures n in Merged3(h, base, ours, theirs).nodes && n.name in NodeNames(ours) ==>
              n.name in NodesByName(ours.nodes) && Raw(n) == Raw(NodesByName(ours.nodes)[n.name])
    ensures n in Merged3(h, base, ours, theirs).nodes && n.name !in NodeNames(ours) ==>
              n.name in NodeNames(theirs) && Raw(n) == Raw(FirstBy(NodeNameOf, theirs.nodes, n.name))
  {
    var rn := WonRaws(base, ours, theirs);
    var won := Winning(SurvivingNames(base, ours, theirs), NodesByName(ours.nodes), ours.nodes + theirs.nodes);
    WonNames(base, ours, theirs);
    BuiltNodesMeaning(h, rn);
    NodesByNameMeaning(ours.nodes);
    WinningMeaning(SurvivingNames(base, ours, theirs), NodesByName(ours.nodes), ours.nodes + theirs.nodes);
    RawKeysOfNodes(won);
    if n in Merged3(h, base, ours, theirs).nodes {
      assert n.name in Keys(NodeNameOf, won) by {
        assert NodeNameOf(n) in Keys(NodeNameOf, BuiltNodes(h, rn));
      }
      var w :| w in won && NodeNameOf(w) == n.name;
      RawOfNode(won, w);
      KeysAppend(NodeNameOf, ours.nodes, theirs.nodes);
      FirstByAppend(NodeNameOf, ours.nodes, theirs.nodes, n.name);
    }
  }

  /** The two lists the merge hands to duplicate removal: the numbered winners, and the edges
      returned by the edge loop. */
  ghost function MergedNodeList(h: ContentId, base: Graph, ours: Graph, theirs: Graph): seq<Node> {
    Renumbered(h, Winning(SurvivingNames(base, ours, theirs), NodesByName(ours.nodes), ours.nodes + theirs.nodes))
  }

  ghost function MergedEdgeList(h: ContentId, base: Graph, ours: Graph, theirs: Graph): seq<Edge> {
    ResolveEdges(IdsByName(MergedNodeList(h, base, ours, theirs)), DedupBy(RawKeyOf, WonEdges(base, ours, theirs)))
  }

  /** Duplicate removal finds nothing to remove in them: one node for each surviving name, one
      edge for each surviving key. */
  lemma DedupFindsNothing(h: ContentId, base: Graph, ours: Graph, theirs: Graph)
    requires |SurvivingNames(base, ours, theirs)| <= U32_SIZE
    ensures var nodes, edges := MergedNodeList(h, base, ours, theirs), MergedEdgeList(h, base, ours, theirs);
            && DedupBy(NodeIdOf, nodes) == nodes && |nodes| == |SurvivingNames(base, ours, theirs)|
            && DedupBy(EdgeKeyOf, edges) == edges && |edges| == |EdgeNames(Merged3(h, base, ours, theirs))|
  {
    var raws := WonRaws(base, ours, theirs);
    var nodes, ids := Interned(h, raws), IdsByName(Interned(h, raws));
    WonNames(base, ours, theirs);
    WinnersNumbered(h, base, ours, theirs);
    BuiltNodesMeaning(h, raws);
    InternedNames(h, raws);
    DistinctSize(NodeNameOf, nodes);
    ResolvedOnce(ids, WonEdges(base, ours, theirs));
    SortMembers(EdgeLe, MergedEdgeList(h, base, ours, theirs));
    OneNameEach(h, base, ours, theirs);
  }

  lemma OneNameEach(h: ContentId, base: Graph, ours: Graph, theirs: Graph)
    requires |SurvivingNames(base, ours, theirs)| <= U32_SIZE
    ensures |Merged3(h, base, ours, theirs).edges| == |EdgeNames(Merged3(h, base, ours, theirs))|
  {
    var g := Merged3(h, base, ours, theirs);
    WonNames(base, ours, theirs);
    BuiltEdgesByName(h, WonRaws(base, ours, theirs), WonEdges(base, ours, theirs), g);
    TableKeys(g.nodes);
    NamedSize(NamesById(g.nodes), g.edges);
    DistinctSize(RawKeyOf, EdgesByName(g));
  }

  lemma {:induction false} NamedSize(names: map<NodeId, string>, es: seq<Edge>)
    requires forall e :: e in es ==> e.source in names && e.target in names
    ensures |NamedEdges(names, es)| == |es|
  {
    if es != [] {
      NamedSize(names, Init(es));
    }
  }

  lemma EdgeEndsNamed(g: Graph)
    ensures EndsAmong(NodeNames(g), EdgeNames(g))
  {
    EdgesByNameLive(g);
    forall k | k in EdgeNames(g)
      ensures Resolvable(NodeNames(g), k)
    {
      assert k in LiveKeys(NodeNames(g), EdgesByName(g));
    }
  }

  // ---------------------------------------------------------------- grouping

  lemma SurvivingGroups<K>(b: set<K>, o: set<K>, t: set<K>, u: set<K>)
    ensures Surviving(b, Surviving(b, o, t), u) == Surviving(b, o, Surviving(b, t, u))
    ensures Surviving(b, o, t) <= o + t
  {
  }

  /** An edge that the inner merge dropped for want of an end is not missed by the outer one. */
  lemma SurvivingLiveGroups(nb: set<string>, no: set<string>, nt: set<string>, nu: set<string>,
                            eb: set<NameKey>, eo: set<NameKey>, et: set<NameKey>, eu: set<NameKey>)
    requires EndsAmong(no, eo) && EndsAmong(nt, et) && EndsAmong(nu, eu)
    ensures SurvivingLive(nb, Surviving(nb, no, nt), nu, eb, SurvivingLive(nb, no, nt, eb, eo, et), eu)
         == SurvivingLive(nb, no, Surviving(nb, nt, nu), eb, eo, SurvivingLive(nb, nt, nu, eb, et, eu))
  {
  }

  lemma GroupedNames(h: ContentId, base: Graph, o: Graph, t: Graph, u: Graph)
    requires |NodeNames(o) + NodeNames(t) + NodeNames(u)| <= U32_SIZE
    ensures |SurvivingNames(base, o, t)| <= U32_SIZE && |SurvivingNames(base, t, u)| <= U32_SIZE
    ensures SurvivingNames(base, Merged3(h, base, o, t), u) == SurvivingNames(base, o, Merged3(h, base, t, u))
    ensures |SurvivingNames(base, Merged3(h, base, o, t), u)| <= U32_SIZE
  {
    var nb, no, nt, nu := NodeNames(base), NodeNames(o), NodeNames(t), NodeNames(u);
    SurvivingGroups(nb, no, nt, nu);
    SurvivingGroups(nb, nt, nu, nu);
    SurvivingGroups(nb, Surviving(nb, no, nt), nu, nu);
    SubsetCardinality(Surviving(nb, no, nt), no + nt + nu);
    SubsetCardinality(Surviving(nb, nt, nu), no + nt + nu);
    SubsetCardinality(Surviving(nb, Surviving(nb, no, nt), nu), no + nt + nu);
    Merged3Meaning(h, base, o, t);
    Merged3Meaning(h, base, t, u);
  }

  lemma GroupedEdges(h: ContentId, base: Graph, o: Graph, t: Graph, u: Graph)
    requires |NodeNames(o) + NodeNames(t) + NodeNames(u)| <= U32_SIZE
    ensures EdgeNames(Merged3(h, base, Merged3(h, base, o, t), u)) == EdgeNames(Merged3(h, base, o, Merged3(h, base, t, u)))
  {
    GroupedNames(h, base, o, t, u);
    Merged3Meaning(h, base, o, t);
    Merged3Meaning(h, base, t, u);
    Merged3Meaning(h, base, Merged3(h, base, o, t), u);
    Merged3Meaning(h, base, o, Merged3(h, base, t, u));
    EdgeEndsNamed(o);
    EdgeEndsNamed(t);
    EdgeEndsNamed(u);
    SurvivingLiveGroups(NodeNames(base), NodeNames(o), NodeNames(t), NodeNames(u),
                        EdgeNames(base), EdgeNames(o), EdgeNames(t), EdgeNames(u));
  }

  /** `l` and `r` tell of the same names and edge keys and use the same ids; with distinct
      content ids they also number alike and have the same edges by id. */
  ghost predicate SameUpToData(h: ContentId, l: Graph, r: Graph) {
    && NodeNames(l) == NodeNames(r)
    && EdgeNames(l) == EdgeNames(r)
    && Keys(NodeIdOf, l.nodes) == Keys(NodeIdOf, r.nodes)
    && (InjectiveOn(h, NodeNames(l)) ==>
          IdsByName(l.nodes) == IdsByName(r.nodes) && Keys(EdgeKeyOf, l.edges) == Keys(EdgeKeyOf, r.edges))
  }

  /** Merging three branches against one base does not depend on grouping. */
  lemma MergeAssociative(h: ContentId, base: Graph, o: Graph, t: Graph, u: Graph)
    requires |NodeNames(o) + NodeNames(t) + NodeNames(u)| <= U32_SIZE
    ensures SameUpToData(h, Merged3(h, base, Merged3(h, base, o, t), u), Merged3(h, base, o, Merged3(h, base, t, u)))
  {
    GroupedNames(h, base, o, t, u);
    GroupedEdges(h, base, o, t, u);
    SameNamesSameIds(h, base, Merged3(h, base, o, t), u, base, o, Merged3(h, base, t, u));
  }

  /** Two merges with the same names and edge keys use the same ids; with distinct content ids
      they number alike and have the same edges by id. */
  lemma SameNamesSameIds(h: ContentId, b: Graph, o: Graph, t: Graph, b': Graph, o': Graph, t': Graph)
    requires |SurvivingNames(b, o, t)| <= U32_SIZE
    requires SurvivingNames(b, o, t) == SurvivingNames(b', o', t')
    requires EdgeNames(Merged3(h, b, o, t)) == EdgeNames(Merged3(h, b', o', t'))
    ensures SameUpToData(h, Merged3(h, b, o, t), Merged3(h, b', o', t'))
  {
    var xn, yn, xe, ye := WonRaws(b, o, t), WonRaws(b', o', t'), WonEdges(b, o, t), WonEdges(b', o', t');
    WonNames(b, o, t);
    WonNames(b', o', t');
    BuiltNodesMeaning(h, xn);
    BuiltNodesMeaning(h, yn);
    IdSetOrderFree(h, xn, yn);
    if InjectiveOn(h, SurvivingNames(b, o, t)) {
      DistinctContentIdsFixAssignment(h, xn, yn);
      BuiltEdgesByName(h, xn, xe, Merged3(h, b, o, t));
      BuiltEdgesByName(h, yn, ye, Merged3(h, b', o', t'));
      EdgeKeysFromNames(h, xn, xe, yn, ye);
    }
  }

  // ---------------------------------------------------------------- exchange of branches

  /** Which branch is called ours matters for data only: names, ids in use and edge keys are
      the same; with distinct content ids so are the id of each name and the edges by id. */
  lemma MergeExchange(h: ContentId, base: Graph, o: Graph, t: Graph)
    requires |SurvivingNames(base, o, t)| <= U32_SIZE
    ensures SameUpToData(h, Merged3(h, base, o, t), Merged3(h, base, t, o))
  {
    assert SurvivingNames(base, o, t) == SurvivingNames(base, t, o);
    assert SurvivingKeys(base, o, t) == SurvivingKeys(base, t, o);
    Merged3Meaning(h, base, o, t);
    Merged3Meaning(h, base, t, o);
    SameNamesSameIds(h, base, o, t, base, t, o);
  }

  // ---------------------------------------------------------------- fast-forward

  lemma PolicyFastForward<K>(b: set<K>, x: set<K>)
    ensures Surviving(b, x, b) == x && Surviving(b, b, x) == x && Surviving(b, x, x) == x
  {
  }

  /** Where one branch did not move, the other is taken; two equal branches give themselves. */
  lemma FastForward(h: ContentId, base: Graph, x: Graph)
    requires |NodeNames(x)| <= U32_SIZE
    ensures NodeNames(Merged3(h, base, x, base)) == NodeNames(x) && EdgeNames(Merged3(h, base, x, base)) == EdgeNames(x)
    ensures NodeNames(Merged3(h, base, base, x)) == NodeNames(x) && EdgeNames(Merged3(h, base, base, x)) == EdgeNames(x)
    ensures NodeNames(Merged3(h, base, x, x)) == NodeNames(x) && EdgeNames(Merged3(h, base, x, x)) == EdgeNames(x)
  {
    PolicyFastForward(NodeNames(base), NodeNames(x));
    PolicyFastForward(EdgeNames(base), EdgeNames(x));
    EdgeEndsNamed(x);
    TakenWhole(h, base, x, base, x);
    TakenWhole(h, base, base, x, x);
    TakenWhole(h, base, x, x, x);
  }

  lemma TakenWhole(h: ContentId, base: Graph, ours: Graph, theirs: Graph, x: Graph)
    requires |NodeNames(x)| <= U32_SIZE && EndsAmong(NodeNames(x), EdgeNames(x))
    requires SurvivingNames(base, ours, theirs) == NodeNames(x)
    requires SurvivingKeys(base, ours, theirs) == EdgeNames(x)
    ensures NodeNames(Merged3(h, base, ours, theirs)) == NodeNames(x)
    ensures EdgeNames(Merged3(h, base, ours, theirs)) == EdgeNames(x)
  {
    Merged3Meaning(h, base, ours, theirs);
    forall k
      ensures k in EdgeNames(Merged3(h, base, ours, theirs)) <==> k in EdgeNames(x)
    {
    }
  }

  lemma {:induction false} WinningOurs(survivors: set<string>, oursByName: map<string, Node>, ours: seq<Node>, theirs: seq<Node>)
    requires DistinctBy(NodeNameOf, ours)
    requires forall n :: n in ours ==> n.name in survivors && Winner(oursByName, n) == n
    requires forall n :: n in theirs ==> n.name in survivors ==> n.name in Keys(NodeNameOf, ours)
    ensures Winning(survivors, oursByName, ours + theirs) == ours
    decreases |theirs|
  {
    if theirs != [] {
      WinningOurs(survivors, oursByName, ours, Init(theirs));
      assert ours + theirs == ours + Init(theirs) + [Last(theirs)];
      Snoc(ours + Init(theirs), Last(theirs));
      KeysAppend(NodeNameOf, ours, Init(theirs));
      assert Last(theirs) in theirs;
    } else {
      assert ours + theirs == ours;
      WinningAlone(survivors, oursByName, ours);
    }
  }

  lemma {:induction false} WinningAlone(survivors: set<string>, oursByName: map<string, Node>, ours: seq<Node>)
    requires DistinctBy(NodeNameOf, ours)
    requires forall n :: n in ours ==> n.name in survivors && Winner(oursByName, n) == n
    ensures Winning(survivors, oursByName, ours) == ours
  {
    if ours != [] {
      WinningAlone(survivors, oursByName, Init(ours));
      LastKeyIsNew(NodeNameOf, ours);
      assert Last(ours) in ours;
      assert ours == Init(ours) + [Last(ours)];
    }
  }

  lemma {:induction false} OwnNodeByName(nodes: seq<Node>, n: Node)
    requires DistinctBy(NodeNameOf, nodes) && n in nodes
    ensures n.name in NodesByName(nodes) && NodesByName(nodes)[n.name] == n
  {
    if n != Last(nodes) {
      OwnNodeByName(Init(nodes), n);
      DistinctApart(NodeNameOf, nodes, n);
    }
  }

  lemma OursPrevailsNodes(base: Graph, ours: Graph, theirs: Graph)
    requires DistinctBy(NodeNameOf, ours.nodes)
    requires SurvivingNames(base, ours, theirs) == NodeNames(ours)
    ensures WonRaws(base, ours, theirs) == RawNodes(ours)
  {
    forall n | n in ours.nodes
      ensures n.name in NodeNames(ours) && Winner(NodesByName(ours.nodes), n) == n
    {
      OwnNodeByName(ours.nodes, n);
      assert NodeNameOf(n) in NodeNames(ours);
    }
    WinningOurs(NodeNames(ours), NodesByName(ours.nodes), ours.nodes, theirs.nodes);
  }

  lemma OursPrevailsEdges(base: Graph, ours: Graph, theirs: Graph)
    requires SurvivingKeys(base, ours, theirs) == EdgeNames(ours)
    ensures SameLiveEdges(NodeNames(ours), WonEdges(base, ours, theirs), EdgesByName(ours))
  {
    WonEdgesMeaning(base, ours, theirs);
    forall k | k in EdgeNames(ours)
      ensures FirstConfidence(WonEdges(base, ours, theirs), k) == FirstConfidence(EdgesByName(ours), k)
    {
      FirstByAppend(RawKeyOf, EdgesByName(ours), EdgesByName(theirs), k);
    }
  }

  /** Where the policy keeps exactly what a well-formed ours has, the merge gives back the very
      nodes and edges of ours if and only if no id in ours had wrapped around. This covers the
      fast-forward `merge3(b, o, b)` and the self-merge `merge3(b, g, g)`. */
  lemma OursPrevailsIff(h: ContentId, base: Graph, ours: Graph, theirs: Graph)
    requires WellFormed(h, ours)
    requires SurvivingNames(base, ours, theirs) == NodeNames(ours)
    requires SurvivingKeys(base, ours, theirs) == EdgeNames(ours)
    ensures (Merged3(h, base, ours, theirs).nodes == ours.nodes && Merged3(h, base, ours, theirs).edges == ours.edges)
       <==> NoWrap(h, ours.nodes)
  {
    var rn := WonRaws(base, ours, theirs);
    OursPrevailsNodes(base, ours, theirs);
    OursPrevailsEdges(base, ours, theirs);
    NamesFit(h, ours.nodes);
    RebuildNodesIff(h, ours.nodes);
    if NoWrap(h, ours.nodes) {
      RebuiltUnwrapped(h, ours.nodes);
      EdgesRebuilt(h, ours, rn);
      BuiltEdgesEqual(h, rn, WonEdges(base, ours, theirs), rn, EdgesByName(ours));
    }
  }

  lemma FastForwardExactly(h: ContentId, base: Graph, x: Graph)
    requires WellFormed(h, x)
    ensures (Merged3(h, base, x, base).nodes == x.nodes && Merged3(h, base, x, base).edges == x.edges) <==> NoWrap(h, x.nodes)
    ensures (Merged3(h, base, x, x).nodes == x.nodes && Merged3(h, base, x, x).edges == x.edges) <==> NoWrap(h, x.nodes)
  {
    PolicyFastForward(NodeNames(base), NodeNames(x));
    PolicyFastForward(EdgeNames(base), EdgeNames(x));
    OursPrevailsIff(h, base, x, base);
    OursPrevailsIff(h, base, x, x);
  }

  // ---------------------------------------------------------------- the ids of a fresh assemble

  /** A merged graph has the ids in use of a fresh assemble of the surviving labels, and gives them
      to the same labels if and only if those ids fit the order of the winners. */
  lemma FreshIdsIff(h: ContentId, base: Graph, ours: Graph, theirs: Graph, xs: seq<Extraction>)
    requires |NamesOf(xs)| <= U32_SIZE && NamesOf(xs) == SurvivingNames(base, ours, theirs)
    ensures Keys(NodeIdOf, Merged3(h, base, ours, theirs).nodes) == Keys(NodeIdOf, Assembled(h, xs).nodes)
    ensures IdsByName(Merged3(h, base, ours, theirs).nodes) == IdsByName(Assembled(h, xs).nodes) <==>
            HeldByEarlier(h, IdsByName(Assembled(h, xs).nodes), WonRaws(base, ours, theirs))
  {
    WonNames(base, ours, theirs);
    SameAssignmentIff(h, WonRaws(base, ours, theirs), AllNodes(xs));
    IdSetOrderFree(h, WonRaws(base, ours, theirs), AllNodes(xs));
    BuiltNodesMeaning(h, WonRaws(base, ours, theirs));
    BuiltNodesMeaning(h, AllNodes(xs));
  }

  ghost predicate CarriesFreshIds(h: ContentId, g: Graph, xs: seq<Extraction>) {
    IdsByName(g.nodes) == IdsByName(Assembled(h, xs).nodes)
  }

  /** It carries the ids of every fresh assemble of the surviving labels if and only if these
      have distinct content ids. */
  lemma AllFreshIdsIff(h: ContentId, base: Graph, ours: Graph, theirs: Graph)
    requires |SurvivingNames(base, ours, theirs)| <= U32_SIZE
    ensures InjectiveOn(h, SurvivingNames(base, ours, theirs)) <==>
            forall xs :: NamesOf(xs) == SurvivingNames(base, ours, theirs) ==>
              CarriesFreshIds(h, Merged3(h, base, ours, theirs), xs)
  {
    var g, raws := Merged3(h, base, ours, theirs), WonRaws(base, ours, theirs);
    WonNames(base, ours, theirs);
    AssignmentOrderFreeIff(h, raws);
    BuiltNodesMeaning(h, raws);
    if InjectiveOn(h, SurvivingNames(base, ours, theirs)) {
      forall xs | NamesOf(xs) == SurvivingNames(base, ours, theirs)
        ensures CarriesFreshIds(h, g, xs)
      {
        BuiltNodesMeaning(h, AllNodes(xs));
      }
    } else {
      var other :| Keys(RawNameOf, other) == Keys(RawNameOf, raws)
                   && IdsByName(Interned(h, other)) != IdsByName(Interned(h, raws));
      var xs := [Extraction(other, [])];
      OneExtraction(Extraction(other, []));
      BuiltNodesMeaning(h, other);
      assert NamesOf(xs) == SurvivingNames(base, ours, theirs) && !CarriesFreshIds(h, g, xs);
    }
  }

  /** Two labels of which one has wrapped around change ids when their graph is merged with itself:
      the merge does not carry the ids that assembling gave. */
  lemma WrappedLabelsSwap(h: ContentId, base: Graph, a: RawNode, b: RawNode)
    requires a.name != b.name && h(a.name) == h(b.name) == U32_MAX
    ensures var g := Assembled(h, Pair(a, b));
            && IdsByName(g.nodes) == map[a.name := U32_MAX, b.name := 0]
            && IdsByName(Merged3(h, base, g, g).nodes) == map[b.name := U32_MAX, a.name := 0]
            && !CarriesFreshIds(h, Merged3(h, base, g, g), Pair(a, b))
  {
    LabelsWrapAround(h, a, b);
    SelfMergeRaws(h, base, Assembled(h, Pair(a, b)), a, b);
    SecondTakesLastSlot(h, a, b);
    var ids, swapped := map[a.name := U32_MAX, b.name := 0], map[b.name := U32_MAX, a.name := 0];
    assert ids[a.name] != swapped[a.name];
  }

  lemma SelfMergeRaws(h: ContentId, base: Graph, g: Graph, a: RawNode, b: RawNode)
    requires a.name != b.name && g.nodes == [Numbered(b, 0), Numbered(a, U32_MAX)]
    ensures WonRaws(base, g, g) == [b, a]
  {
    PolicyFastForward(NodeNames(base), NodeNames(g));
    OursPrevailsNodes(base, g, g);
  }

  lemma SecondTakesLastSlot(h: ContentId, a: RawNode, b: RawNode)
    requires a.name != b.name && h(a.name) == h(b.name) == U32_MAX
    ensures IdsByName(BuiltNodes(h, [b, a])) == map[b.name := U32_MAX, a.name := 0]
  {
    NamesOfTwo(b, a);
    IdsOfTwo(h, map[b.name := U32_MAX, a.name := 0], b, a);
    BuiltNodesMeaning(h, [b, a]);
  }

  // ---------------------------------------------------------------- no common ancestor

  /** The same labels with the same ids, whatever the data. */
  ghost predicate NumberedAlike(xs: seq<Node>, ys: seq<Node>) {
    && IdsByName(xs) == IdsByName(ys)
    && Keys(NodeIdOf, xs) == Keys(NodeIdOf, ys)
    && Keys(NodeNameOf, xs) == Keys(NodeNameOf, ys)
  }

  lemma OneMoreAlike(xs: seq<Node>, ys: seq<Node>, x: RawNode, y: RawNode, id: NodeId)
    requires NumberedAlike(xs, ys) && x.name == y.name
    ensures NumberedAlike(xs + [Numbered(x, id)], ys + [Numbered(y, id)])
  {
    Snoc(xs, Numbered(x, id));
    Snoc(ys, Numbered(y, id));
    KeysOfOneMore(xs, Numbered(x, id));
    KeysOfOneMore(ys, Numbered(y, id));
  }

  lemma NextInterned(h: ContentId, nodes: seq<Node>, n: Node)
    ensures var before := Interned(h, Map(Raw, nodes));
            Interned(h, Map(Raw, nodes + [n])) ==
            if n.name in Keys(NodeNameOf, before) then before
            else before + [Numbered(Raw(n), Probe(h(n.name), Keys(NodeIdOf, before)))]
  {
    MapAppend(Raw, nodes, [n]);
    assert Map(Raw, [n]) == [Raw(n)];
    InternStep(h, Map(Raw, nodes), Raw(n));
  }

  lemma NextAlike(h: ContentId, xs: seq<Node>, x: Node, ys: seq<Node>, y: Node)
    requires NumberedAlike(Interned(h, Map(Raw, xs)), Interned(h, Map(Raw, ys))) && x.name == y.name
    ensures NumberedAlike(Interned(h, Map(Raw, xs + [x])), Interned(h, Map(Raw, ys + [y])))
    ensures x.name in Keys(NodeNameOf, ys) ==> NumberedAlike(Interned(h, Map(Raw, xs)), Interned(h, Map(Raw, ys + [y])))
  {
    var won, all := Interned(h, Map(Raw, xs)), Interned(h, Map(Raw, ys));
    NextInterned(h, xs, x);
    NextInterned(h, ys, y);
    InternedNames(h, Map(Raw, ys));
    RawKeysOfNodes(ys);
    OneMoreAlike(won, all, Raw(x), Raw(y), Probe(h(y.name), Keys(NodeIdOf, all)));
  }

  /** Picking the winners of a chain none of whose labels is deleted changes data, not numbering. */
  lemma {:induction false} WinnersNumberedAlike(h: ContentId, survivors: set<string>, oursByName: map<string, Node>, chain: seq<Node>)
    requires Keys(NodeNameOf, chain) <= survivors
    requires forall name :: name in oursByName ==> oursByName[name].name == name
    ensures NumberedAlike(Interned(h, Map(Raw, Winning(survivors, oursByName, chain))), Interned(h, Map(Raw, chain)))
  {
    if chain != [] {
      var init, n := Init(chain), Last(chain);
      var won, w := Winning(survivors, oursByName, init), Winner(oursByName, n);
      KeysSnoc(NodeNameOf, chain);
      WinnersNumberedAlike(h, survivors, oursByName, init);
      NextAlike(h, won, w, init, n);
      assert chain == init + [n] && n.name in survivors;
      assert Winning(survivors, oursByName, chain) == if n.name in Keys(NodeNameOf, init) then won else won + [w];
    }
  }

  lemma EmptyBaseIds(h: ContentId, base: Graph, a: Graph, b: Graph)
    requires base.nodes == []
    ensures IdsByName(Interned(h, WonRaws(base, a, b))) == IdsByName(Interned(h, BothRawNodes(a, b)))
  {
    KeysAppend(NodeNameOf, a.nodes, b.nodes);
    NodesByNameMeaning(a.nodes);
    WinnersNumberedAlike(h, SurvivingNames(base, a, b), NodesByName(a.nodes), a.nodes + b.nodes);
    MapAppend(Raw, a.nodes, b.nodes);
  }

  lemma EmptyBaseTable(h: ContentId, base: Graph, a: Graph, b: Graph)
    requires base.nodes == [] && |NamesOfBoth(a, b)| <= U32_SIZE
    ensures IdsByName(Merged3(h, base, a, b).nodes) == IdsByName(Merged(h, a, b).nodes)
  {
    assert SurvivingNames(base, a, b) == NamesOfBoth(a, b);
    EmptyBaseIds(h, base, a, b);
    WonNames(base, a, b);
    BothNames(a, b);
    BuiltNodesMeaning(h, WonRaws(base, a, b));
    BuiltNodesMeaning(h, BothRawNodes(a, b));
  }

  lemma EmptyBaseEdges(base: Graph, a: Graph, b: Graph)
    requires base.edges == []
    ensures WonEdges(base, a, b) == BothRawEdges(a, b)
  {
    KeysAppend(RawKeyOf, EdgesByName(a), EdgesByName(b));
    AllSurvive(SurvivingKeys(base, a, b), BothRawEdges(a, b));
  }

  /** The last node of each of these labels says what the first one says. */
  ghost predicate RepeatsAgreeOn(names: set<string>, nodes: seq<Node>) {
    forall name :: name in names && name in NodesByName(nodes) && name in Keys(NodeNameOf, nodes) ==>
      Raw(NodesByName(nodes)[name]) == Raw(FirstBy(NodeNameOf, nodes, name))
  }

  ghost predicate RepeatsAgree(nodes: seq<Node>) {
    RepeatsAgreeOn(Keys(NodeNameOf, nodes), nodes)
  }

  lemma DistinctRepeatsAgree(nodes: seq<Node>)
    requires DistinctBy(NodeNameOf, nodes)
    ensures RepeatsAgree(nodes)
  {
    forall name | name in NodesByName(nodes) && name in Keys(NodeNameOf, nodes)
      ensures NodesByName(nodes)[name] == FirstBy(NodeNameOf, nodes, name)
    {
      OwnNodeByName(nodes, FirstBy(NodeNameOf, nodes, name));
    }
  }

  lemma {:induction false} FirstRaw(nodes: seq<Node>, name: string)
    requires name in Keys(NodeNameOf, nodes)
    ensures name in Keys(RawNameOf, Map(Raw, nodes))
    ensures FirstBy(RawNameOf, Map(Raw, nodes), name) == Raw(FirstBy(NodeNameOf, nodes, name))
  {
    KeysSnoc(NodeNameOf, nodes);
    RawKeysOfNodes(nodes);
    RawKeysOfNodes(Init(nodes));
    assert Init(Map(Raw, nodes)) == Map(Raw, Init(nodes));
    if name in Keys(NodeNameOf, Init(nodes)) {
      FirstRaw(Init(nodes), name);
    }
  }

  /** What the two merges say of a label, without a common ancestor. */
  lemma EmptyBaseData(h: ContentId, base: Graph, a: Graph, b: Graph, x: Node, y: Node)
    requires base.nodes == [] && |NamesOfBoth(a, b)| <= U32_SIZE
    requires x in Merged3(h, base, a, b).nodes && y in Merged(h, a, b).nodes && x.name == y.name
    ensures x.name in NodeNames(a) ==>
              && x.name in NodesByName(a.nodes)
              && Raw(x) == Raw(NodesByName(a.nodes)[x.name]) && Raw(y) == Raw(FirstBy(NodeNameOf, a.nodes, x.name))
    ensures x.name !in NodeNames(a) ==> Raw(x) == Raw(y)
  {
    assert SurvivingNames(base, a, b) == NamesOfBoth(a, b);
    Merged3NodeData(h, base, a, b, x);
    MergedNodeData(h, a, b, y);
    RawKeysOfNodes(a.nodes);
    if x.name in NodeNames(a) {
      FirstRaw(a.nodes, x.name);
    } else {
      FirstRaw(b.nodes, x.name);
    }
  }

  lemma EmptyBaseFirsts(h: ContentId, base: Graph, a: Graph, b: Graph, name: string)
    requires base.nodes == [] && |NamesOfBoth(a, b)| <= U32_SIZE && name in NamesOfBoth(a, b)
    ensures name in Keys(RawNameOf, WonRaws(base, a, b)) && name in Keys(RawNameOf, BothRawNodes(a, b))
    ensures name in NodeNames(a) ==> name in NodesByName(a.nodes)
    ensures FirstBy(RawNameOf, WonRaws(base, a, b), name) == FirstBy(RawNameOf, BothRawNodes(a, b), name) <==>
            (name in NodeNames(a) ==> Raw(NodesByName(a.nodes)[name]) == Raw(FirstBy(NodeNameOf, a.nodes, name)))
  {
    var xn, yn := WonRaws(base, a, b), BothRawNodes(a, b);
    assert SurvivingNames(base, a, b) == NamesOfBoth(a, b);
    WonNames(base, a, b);
    BothNames(a, b);
    BuiltNodesMeaning(h, xn);
    BuiltNodesMeaning(h, yn);
    var x :| x in BuiltNodes(h, xn) && NodeNameOf(x) == name;
    var y :| y in BuiltNodes(h, yn) && NodeNameOf(y) == name;
    EmptyBaseData(h, base, a, b, x, y);
  }

  lemma FirstsOfBuilt(h: ContentId, xs: seq<RawNode>, ys: seq<RawNode>)
    requires |Keys(RawNameOf, xs)| <= U32_SIZE && |Keys(RawNameOf, ys)| <= U32_SIZE
    requires BuiltNodes(h, xs) == BuiltNodes(h, ys)
    ensures SameFirstNodes(xs, ys)
  {
    BuiltNodesByName(h, xs);
    BuiltNodesByName(h, ys);
  }

  lemma EmptyBaseNodesIff(h: ContentId, base: Graph, a: Graph, b: Graph)
    requires base.nodes == [] && |NamesOfBoth(a, b)| <= U32_SIZE
    ensures Merged3(h, base, a, b).nodes == Merged(h, a, b).nodes <==> RepeatsAgree(a.nodes)
  {
    var xn, yn := WonRaws(base, a, b), BothRawNodes(a, b);
    assert SurvivingNames(base, a, b) == NamesOfBoth(a, b);
    WonNames(base, a, b);
    BothNames(a, b);
    EmptyBaseIds(h, base, a, b);
    NodesByNameMeaning(a.nodes);
    if BuiltNodes(h, xn) == BuiltNodes(h, yn) {
      FirstsOfBuilt(h, xn, yn);
      forall name | name in NodesByName(a.nodes) && name in NodeNames(a)
        ensures Raw(NodesByName(a.nodes)[name]) == Raw(FirstBy(NodeNameOf, a.nodes, name))
      {
        EmptyBaseFirsts(h, base, a, b, name);
      }
    }
    if RepeatsAgree(a.nodes) {
      forall name | name in NamesOfBoth(a, b)
        ensures FirstBy(RawNameOf, xn, name) == FirstBy(RawNameOf, yn, name)
      {
        EmptyBaseFirsts(h, base, a, b, name);
      }
      BuiltNodesEqual(h, xn, yn);
    }
  }

  /** Without a common ancestor nothing is deleted: the 3-way merge numbers the labels and states
      the edges as the 2-way merge does, and has the same nodes if and only if the first graph
      does not contradict itself on a repeated label, of which the one takes the last node and
      the other the first. */
  lemma EmptyBaseIsMerge(h: ContentId, base: Graph, a: Graph, b: Graph)
    requires base.nodes == [] && base.edges == [] && |NamesOfBoth(a, b)| <= U32_SIZE
    ensures IdsByName(Merged3(h, base, a, b).nodes) == IdsByName(Merged(h, a, b).nodes)
    ensures Merged3(h, base, a, b).nodes == Merged(h, a, b).nodes <==> RepeatsAgree(a.nodes)
    ensures DistinctBy(NodeNameOf, a.nodes) ==> Merged3(h, base, a, b).nodes == Merged(h, a, b).nodes
    ensures Merged3(h, base, a, b).edges == Merged(h, a, b).edges
    ensures Merged3(h, base, a, b).manifest == Merged(h, a, b).manifest
  {
    EmptyBaseNodesIff(h, base, a, b);
    EmptyBaseTable(h, base, a, b);
    EmptyBaseIds(h, base, a, b);
    EmptyBaseEdges(base, a, b);
    if DistinctBy(NodeNameOf, a.nodes) {
      DistinctRepeatsAgree(a.nodes);
    }
  }

  lemma {:induction false} AllSurvive(survivors: set<NameKey>, raws: seq<RawEdge>)
    requires Keys(RawKeyOf, raws) <= survivors
    ensures Filter(KeyOfSurvivor(survivors), raws) == raws
  {
    if raws != [] {
      KeysSnoc(RawKeyOf, raws);
      AllSurvive(survivors, Init(raws));
      assert raws == Init(raws) + [Last(raws)];
    }
  }
}
