// The 3-way merge of two branches against their common ancestor:
// crates/habitat-graph-build/src/merge_driver.rs.

module MergeDriver {
  import opened Ids
  import opened Lists
  import opened Probing
  import opened Schema
  import opened Dedup
  import opened Interning
  import opened Pipeline
  import opened Rebuild
  import opened Merge

  /** The deletion policy: what is new stays, and what both branches kept stays. */
  ghost function Surviving<K>(base: set<K>, ours: set<K>, theirs: set<K>): set<K> {
    (ours * theirs) + ((ours + theirs) - base)
  }

  /** The test of the loops: new, or kept on both sides. */
  lemma SurvivesIff<K>(base: set<K>, ours: set<K>, theirs: set<K>, k: K)
    ensures k in Surviving(base, ours, theirs) <==>
            k in ours + theirs && (k !in base || (k in ours && k in theirs))
  {
  }

  // ---------------------------------------------------------------- nodes

  function NodeNameSet(nodes: seq<Node>): (names: set<string>)
    ensures names == Keys(NodeNameOf, nodes)
  {
    set n | n in nodes :: n.name
  }

  function CommunityNameSet(cs: seq<Community>): (names: set<string>)
    ensures names == Keys(CommunityNameOf, cs)
  {
    set c | c in cs :: c.name
  }

  /** name -> node; for repeated names the later node counts. */
  function NodesByName(nodes: seq<Node>): map<string, Node> {
    if nodes == [] then map[] else NodesByName(Init(nodes))[Last(nodes).name := Last(nodes)]
  }

  lemma {:induction false} NodesByNameMeaning(nodes: seq<Node>)
    ensures NodesByName(nodes).Keys == Keys(NodeNameOf, nodes)
    ensures forall name :: name in NodesByName(nodes) ==>
              NodesByName(nodes)[name] in nodes && NodesByName(nodes)[name].name == name
  {
    if nodes != [] {
      NodesByNameMeaning(Init(nodes));
      KeysSnoc(NodeNameOf, nodes);
    }
  }

  /** The table maps a label to the last node with that label. */
  lemma {:induction false} LastNodeOfName(nodes: seq<Node>, name: string) returns (i: nat)
    requires name in NodesByName(nodes)
    ensures i < |nodes| && nodes[i] == NodesByName(nodes)[name] && nodes[i].name == name
    ensures forall j :: i < j < |nodes| ==> nodes[j].name != name
  {
    i := |nodes| - 1;
    if Last(nodes).name != name {
      i := LastNodeOfName(Init(nodes), name);
    }
  }

  function Winner(oursByName: map<string, Node>, n: Node): Node {
    if n.name in oursByName then oursByName[n.name] else n
  }

  /** The nodes of `chain` whose names survive, once each, with the data of `ours` where it has any. */
  ghost function Winning(survivors: set<string>, oursByName: map<string, Node>, chain: seq<Node>): seq<Node> {
    if chain == [] then []
    else
      var won, n := Winning(survivors, oursByName, Init(chain)), Last(chain);
      if n.name in Keys(NodeNameOf, Init(chain)) || n.name !in survivors then won
      else won + [Winner(oursByName, n)]
  }

  lemma {:induction false} WinningMeaning(survivors: set<string>, oursByName: map<string, Node>, chain: seq<Node>)
    requires forall name :: name in oursByName ==> oursByName[name].name == name
    ensures Keys(NodeNameOf, Winning(survivors, oursByName, chain)) == Keys(NodeNameOf, chain) * survivors
    ensures DistinctBy(NodeNameOf, Winning(survivors, oursByName, chain))
    ensures forall w :: w in Winning(survivors, oursByName, chain) ==>
              w.name in Keys(NodeNameOf, chain) && w == Winner(oursByName, FirstBy(NodeNameOf, chain, w.name))
  {
    if chain != [] {
      var won, n := Winning(survivors, oursByName, Init(chain)), Last(chain);
      WinningMeaning(survivors, oursByName, Init(chain));
      KeysSnoc(NodeNameOf, chain);
      if n.name !in Keys(NodeNameOf, Init(chain)) && n.name in survivors {
        KeysOneMore(NodeNameOf, won, Winner(oursByName, n));
        DistinctOneMore(NodeNameOf, won, Winner(oursByName, n));
      }
    }
  }

  /** One turn of the node loop, in terms of the test it makes. */
  lemma WinningStep(base: set<string>, ours: set<string>, theirs: set<string>, oursByName: map<string, Node>,
                    chain: seq<Node>, i: nat)
    requires i < |chain| && Keys(NodeNameOf, chain) == ours + theirs
    ensures var survivors, name := Surviving(base, ours, theirs), chain[i].name;
            Winning(survivors, oursByName, chain[..i + 1]) == Winning(survivors, oursByName, chain[..i])
            + if name !in Keys(NodeNameOf, chain[..i]) && (name !in base || (name in ours && name in theirs))
              then [Winner(oursByName, chain[i])]
              else []
    ensures Keys(NodeNameOf, chain[..i + 1]) == Keys(NodeNameOf, chain[..i]) + {chain[i].name}
  {
    assert Init(chain[..i + 1]) == chain[..i];
    KeysSnoc(NodeNameOf, chain[..i + 1]);
    assert NodeNameOf(chain[i]) in Keys(NodeNameOf, chain);
    SurvivesIff(base, ours, theirs, chain[i].name);
  }

  method SelectWinningNodes(ours: seq<Node>, theirs: seq<Node>, baseNames: set<string>,
                            oursNames: set<string>, theirsNames: set<string>, oursByName: map<string, Node>)
    returns (result: seq<Node>)
    requires oursNames == Keys(NodeNameOf, ours) && theirsNames == Keys(NodeNameOf, theirs)
    ensures result == Winning(Surviving(baseNames, oursNames, theirsNames), oursByName, ours + theirs)
  {
    ghost var survivors := Surviving(baseNames, oursNames, theirsNames);
    var chain := ours + theirs;
    var seen: set<string> := {};
    result := [];
    KeysAppend(NodeNameOf, ours, theirs);
    for i := 0 to |chain|
      invariant seen == Keys(NodeNameOf, chain[..i])
      invariant result == Winning(survivors, oursByName, chain[..i])
    {
      var n := chain[i];
      WinningStep(baseNames, oursNames, theirsNames, oursByName, chain, i);
      if n.name !in seen {
        var keep := n.name !in baseNames || (n.name in oursNames && n.name in theirsNames);
        seen := seen + {n.name};
        if keep {
          result := result + [if n.name in oursByName then oursByName[n.name] else n];
        }
      }
    }
    assert chain[..|chain|] == chain;
  }

  /** Every node with a fresh id; a label that occurs twice is numbered twice. */
  ghost function Renumbered(h: ContentId, nodes: seq<Node>): seq<Node> {
    if nodes == [] then []
    else
      var done, n := Renumbered(h, Init(nodes)), Last(nodes);
      done + [n.(id := Probe(h(n.name), Keys(NodeIdOf, done)))]
  }

  lemma {:induction false} RenumberedSize(h: ContentId, nodes: seq<Node>)
    ensures |Renumbered(h, nodes)| == |nodes|
  {
    if nodes != [] {
      RenumberedSize(h, Init(nodes));
    }
  }

  /** Numbering nodes of distinct labels is interning them. */
  lemma {:induction false} RenumberedIsInterned(h: ContentId, nodes: seq<Node>)
    requires DistinctBy(NodeNameOf, nodes)
    ensures Renumbered(h, nodes) == Interned(h, Map(Raw, nodes))
  {
    if nodes != [] {
      var before, n := Init(nodes), Last(nodes);
      RenumberedIsInterned(h, before);
      assert nodes == before + [n];
      assert Map(Raw, nodes) == Map(Raw, before) + [Raw(n)];
      InternStep(h, Map(Raw, before), Raw(n));
      InternedNames(h, Map(Raw, before));
      RawKeysOfNodes(before);
      LastKeyIsNew(NodeNameOf, nodes);
    }
  }

  lemma RenumberStep(h: ContentId, nodes: seq<Node>, i: nat)
    requires i < |nodes| <= U32_SIZE
    ensures |Keys(NodeIdOf, Renumbered(h, nodes[..i]))| < U32_SIZE
    ensures Renumbered(h, nodes[..i + 1]) == Renumbered(h, nodes[..i])
            + [nodes[i].(id := Probe(h(nodes[i].name), Keys(NodeIdOf, Renumbered(h, nodes[..i]))))]
  {
    assert Init(nodes[..i + 1]) == nodes[..i];
    RenumberedSize(h, nodes[..i]);
    KeysSize(NodeIdOf, Renumbered(h, nodes[..i]));
  }

  lemma OneMoreNode(nodes: seq<Node>, n: Node)
    ensures Keys(NodeIdOf, nodes + [n]) == Keys(NodeIdOf, nodes) + {n.id}
    ensures IdsByName(nodes + [n]) == IdsByName(nodes)[n.name := n.id]
  {
    KeysOfOneMore(nodes, n);
    Snoc(nodes, n);
  }

  method AssignNodeIds(h: ContentId, nodes: seq<Node>) returns (updated: seq<Node>, ids: map<string, NodeId>)
    requires |nodes| <= U32_SIZE
    ensures updated == Renumbered(h, nodes)
    ensures ids == IdsByName(updated)
  {
    updated, ids := [], map[];
    var used: set<NodeId> := {};
    for i := 0 to |nodes|
      invariant updated == Renumbered(h, nodes[..i])
      invariant used == Keys(NodeIdOf, updated)
      invariant ids == IdsByName(updated)
    {
      RenumberStep(h, nodes, i);
      var id;
      id, used := AssignUniqueContentId(h, nodes[i].name, used);
      var node := nodes[i].(id := id);
      OneMoreNode(updated, node);
      ids := ids[node.name := id];
      updated := updated + [node];
    }
    assert nodes[..|nodes|] == nodes;
  }

  // ---------------------------------------------------------------- edges

  ghost function KeyOfSurvivor(survivors: set<NameKey>): RawEdge -> bool {
    (e: RawEdge) => RawKeyOf(e) in survivors
  }

  ghost function SurvivingKeys(base: Graph, ours: Graph, theirs: Graph): set<NameKey> {
    Surviving(Keys(RawKeyOf, EdgesByName(base)), Keys(RawKeyOf, EdgesByName(ours)), Keys(RawKeyOf, EdgesByName(theirs)))
  }

  method EdgeKeySet(es: seq<Edge>, names: map<NodeId, string>) returns (keys: set<NameKey>)
    ensures keys == Keys(RawKeyOf, NamedEdges(names, es))
  {
    keys := {};
    for i := 0 to |es|
      invariant keys == Keys(RawKeyOf, NamedEdges(names, es[..i]))
    {
      var e := es[i];
      NamedStep(names, es, i);
      if e.source in names && e.target in names {
        KeysOneMore(RawKeyOf, NamedEdges(names, es[..i]), RawEdge(names[e.source], names[e.target], e.relation, e.confidence));
        keys := keys + {(names[e.source], names[e.target], e.relation)};
      }
    }
    assert es[..|es|] == es;
  }

  /** The two variables of the edge loop, in step with the raw edges already walked. */
  ghost predicate EdgesInStep(ids: map<string, NodeId>, survivors: set<NameKey>, walked: seq<RawEdge>,
                              seen: set<NameKey>, result: seq<Edge>) {
    && seen == LiveKeys(ids.Keys, Filter(KeyOfSurvivor(survivors), walked))
    && result == ResolveEdges(ids, DedupBy(RawKeyOf, Filter(KeyOfSurvivor(survivors), walked)))
  }

  /** A raw edge that is not to be kept, was seen, or has lost an end leaves the variables alone. */
  lemma EdgePassedOver(ids: map<string, NodeId>, survivors: set<NameKey>, walked: seq<RawEdge>,
                       seen: set<NameKey>, result: seq<Edge>, raw: RawEdge)
    requires EdgesInStep(ids, survivors, walked, seen, result)
    requires RawKeyOf(raw) !in survivors || RawKeyOf(raw) in seen || !Resolvable(ids.Keys, RawKeyOf(raw))
    ensures EdgesInStep(ids, survivors, walked + [raw], seen, result)
  {
    var k, kept := RawKeyOf(raw), Filter(KeyOfSurvivor(survivors), walked);
    Snoc(walked, raw);
    if k in survivors {
      LiveOneMore(ids.Keys, kept, raw);
      Snoc(kept, raw);
      DedupMeaning(RawKeyOf, kept);
      Snoc(DedupBy(RawKeyOf, kept), raw);
    }
  }

  lemma LiveOneMore(names: set<string>, raws: seq<RawEdge>, raw: RawEdge)
    ensures LiveKeys(names, raws + [raw]) ==
            LiveKeys(names, raws) + if Resolvable(names, RawKeyOf(raw)) then {RawKeyOf(raw)} else {}
  {
    KeysOneMore(RawKeyOf, raws, raw);
  }

  /** Any other raw edge is recorded in both. */
  lemma EdgeTaken(ids: map<string, NodeId>, survivors: set<NameKey>, walked: seq<RawEdge>,
                  seen: set<NameKey>, result: seq<Edge>, raw: RawEdge)
    requires EdgesInStep(ids, survivors, walked, seen, result)
    requires RawKeyOf(raw) in survivors && RawKeyOf(raw) !in seen && Resolvable(ids.Keys, RawKeyOf(raw))
    ensures EdgesInStep(ids, survivors, walked + [raw], seen + {RawKeyOf(raw)},
                        result + [Edge(ids[raw.source], ids[raw.target], raw.relation, raw.confidence)])
  {
    var kept := Filter(KeyOfSurvivor(survivors), walked);
    Snoc(walked, raw);
    LiveOneMore(ids.Keys, kept, raw);
    assert RawKeyOf(raw) !in Keys(RawKeyOf, kept);
    NewKeyResolved(ids, kept, raw);
  }

  lemma NewKeyResolved(ids: map<string, NodeId>, kept: seq<RawEdge>, raw: RawEdge)
    requires RawKeyOf(raw) !in Keys(RawKeyOf, kept) && Resolvable(ids.Keys, RawKeyOf(raw))
    ensures ResolveEdges(ids, DedupBy(RawKeyOf, kept + [raw])) == ResolveEdges(ids, DedupBy(RawKeyOf, kept))
            + [Edge(ids[raw.source], ids[raw.target], raw.relation, raw.confidence)]
  {
    Snoc(kept, raw);
    DedupMeaning(RawKeyOf, kept);
    Snoc(DedupBy(RawKeyOf, kept), raw);
  }

  lemma SeenByNameOrById(ids: map<string, NodeId>, raws: seq<RawEdge>, k: NameKey)
    requires InjectiveMap(ids) && Resolvable(ids.Keys, k)
    ensures k in Keys(RawKeyOf, raws) <==> ResolvedKey(ids, k) in Keys(EdgeKeyOf, DedupBy(EdgeKeyOf, ResolveEdges(ids, raws)))
  {
    DedupMeaning(EdgeKeyOf, ResolveEdges(ids, raws));
    if k in Keys(RawKeyOf, raws) {
      ResolveFirst(ids, raws, k);
    }
    if ResolvedKey(ids, k) in Keys(EdgeKeyOf, ResolveEdges(ids, raws)) {
      var e :| e in ResolveEdges(ids, raws) && EdgeKeyOf(e) == ResolvedKey(ids, k);
      var k' := ResolvedOrigin(ids, raws, e);
      ResolvedKeyInjective(ids, k, k');
    }
  }

  /** Where labels have ids of their own, removing duplicates by label and by id is the same. */
  lemma {:induction false} DedupByNameOrById(ids: map<string, NodeId>, raws: seq<RawEdge>)
    requires InjectiveMap(ids)
    ensures ResolveEdges(ids, DedupBy(RawKeyOf, raws)) == DedupBy(EdgeKeyOf, ResolveEdges(ids, raws))
  {
    if raws != [] {
      var init, raw := Init(raws), Last(raws);
      var k := RawKeyOf(raw);
      DedupByNameOrById(ids, init);
      DedupMeaning(RawKeyOf, init);
      Snoc(DedupBy(RawKeyOf, init), raw);
      if Resolvable(ids.Keys, k) {
        SeenByNameOrById(ids, init, k);
        Snoc(ResolveEdges(ids, init), Edge(ids[k.0], ids[k.1], k.2, raw.confidence));
      }
    }
  }

  /** One turn of the edge loop, for an edge whose ends have names. */
  method MergeOneEdge(raw: RawEdge, ids: map<string, NodeId>,
                      baseKeys: set<NameKey>, oursKeys: set<NameKey>, theirsKeys: set<NameKey>,
                      seen: set<NameKey>, result: seq<Edge>, ghost walked: seq<RawEdge>)
    returns (seen': set<NameKey>, result': seq<Edge>)
    requires RawKeyOf(raw) in oursKeys + theirsKeys
    requires EdgesInStep(ids, Surviving(baseKeys, oursKeys, theirsKeys), walked, seen, result)
    ensures EdgesInStep(ids, Surviving(baseKeys, oursKeys, theirsKeys), walked + [raw], seen', result')
  {
    var key := (raw.source, raw.target, raw.relation);
    var keep := key !in baseKeys || (key in oursKeys && key in theirsKeys);
    if keep && key !in seen && key.0 in ids && key.1 in ids {
      EdgeTaken(ids, Surviving(baseKeys, oursKeys, theirsKeys), walked, seen, result, raw);
      seen' := seen + {key};
      result' := result + [Edge(ids[key.0], ids[key.1], raw.relation, raw.confidence)];
    } else {
      EdgePassedOver(ids, Surviving(baseKeys, oursKeys, theirsKeys), walked, seen, result, raw);
      seen', result' := seen, result;
    }
  }

  lemma NextNamedEdge(walked: seq<RawEdge>, names: map<NodeId, string>, es: seq<Edge>, i: nat)
    requires i < |es|
    ensures var e := es[i];
            if e.source in names && e.target in names then
              var raw := RawEdge(names[e.source], names[e.target], e.relation, e.confidence);
              && walked + NamedEdges(names, es[..i + 1]) == walked + NamedEdges(names, es[..i]) + [raw]
              && RawKeyOf(raw) in Keys(RawKeyOf, NamedEdges(names, es))
            else NamedEdges(names, es[..i + 1]) == NamedEdges(names, es[..i])
  {
    NamedStep(names, es, i);
    if es[i].source in names && es[i].target in names {
      NamedMember(names, es, es[i]);
    }
  }

  method MergeEdgesOf(es: seq<Edge>, names: map<NodeId, string>, ids: map<string, NodeId>,
                      baseKeys: set<NameKey>, oursKeys: set<NameKey>, theirsKeys: set<NameKey>,
                      seen0: set<NameKey>, result0: seq<Edge>, ghost walked: seq<RawEdge>)
    returns (seen: set<NameKey>, result: seq<Edge>)
    requires Keys(RawKeyOf, NamedEdges(names, es)) <= oursKeys + theirsKeys
    requires EdgesInStep(ids, Surviving(baseKeys, oursKeys, theirsKeys), walked, seen0, result0)
    ensures EdgesInStep(ids, Surviving(baseKeys, oursKeys, theirsKeys), walked + NamedEdges(names, es), seen, result)
  {
    seen, result := seen0, result0;
    assert walked + NamedEdges(names, es[..0]) == walked;
    for i := 0 to |es|
      invariant EdgesInStep(ids, Surviving(baseKeys, oursKeys, theirsKeys), walked + NamedEdges(names, es[..i]), seen, result)
    {
      var e := es[i];
      NextNamedEdge(walked, names, es, i);
      if e.source in names && e.target in names {
        var raw := RawEdge(names[e.source], names[e.target], e.relation, e.confidence);
        seen, result := MergeOneEdge(raw, ids, baseKeys, oursKeys, theirsKeys, seen, result, walked + NamedEdges(names, es[..i]));
      }
    }
    assert es[..|es|] == es;
  }

  method MergeGraphEdges(ours: Graph, theirs: Graph, oursNames: map<NodeId, string>, theirsNames: map<NodeId, string>,
                         baseKeys: set<NameKey>, ids: map<string, NodeId>)
    returns (result: seq<Edge>)
    requires oursNames == NamesById(ours.nodes) && theirsNames == NamesById(theirs.nodes)
    ensures var survivors := Surviving(baseKeys, Keys(RawKeyOf, EdgesByName(ours)), Keys(RawKeyOf, EdgesByName(theirs)));
            result == ResolveEdges(ids, DedupBy(RawKeyOf, Filter(KeyOfSurvivor(survivors), BothRawEdges(ours, theirs))))
  {
    var oursKeys := EdgeKeySet(ours.edges, oursNames);
    var theirsKeys := EdgeKeySet(theirs.edges, theirsNames);
    var seen;
    assert [] + EdgesByName(ours) == EdgesByName(ours);
    seen, result := MergeEdgesOf(ours.edges, oursNames, ids, baseKeys, oursKeys, theirsKeys, {}, [], []);
    seen, result := MergeEdgesOf(theirs.edges, theirsNames, ids, baseKeys, oursKeys, theirsKeys, seen, result, EdgesByName(ours));
  }

  // ---------------------------------------------------------------- communities

  function CommunitiesByName(cs: seq<Community>): map<string, Community> {
    if cs == [] then map[] else CommunitiesByName(Init(cs))[Last(cs).name := Last(cs)]
  }

  lemma {:induction false} CommunitiesByNameMeaning(cs: seq<Community>)
    ensures CommunitiesByName(cs).Keys == Keys(CommunityNameOf, cs)
    ensures forall name :: name in CommunitiesByName(cs) ==>
              CommunitiesByName(cs)[name] in cs && CommunitiesByName(cs)[name].name == name
  {
    if cs != [] {
      CommunitiesByNameMeaning(Init(cs));
      KeysSnoc(CommunityNameOf, cs);
    }
  }

  /** The table maps a label to the last community with that label. */
  lemma {:induction false} LastCommunityOfName(cs: seq<Community>, name: string) returns (i: nat)
    requires name in CommunitiesByName(cs)
    ensures i < |cs| && cs[i] == CommunitiesByName(cs)[name] && cs[i].name == name
    ensures forall j :: i < j < |cs| ==> cs[j].name != name
  {
    i := |cs| - 1;
    if Last(cs).name != name {
      i := LastCommunityOfName(Init(cs), name);
    }
  }

  /** Members by their merged ids; members whose node is gone are dropped. */
  function RemapMembers(names: map<NodeId, string>, ids: map<string, NodeId>, members: seq<NodeId>): seq<NodeId> {
    if members == [] then []
    else
      var done, m := RemapMembers(names, ids, Init(members)), Last(members);
      if m in names && names[m] in ids then done + [ids[names[m]]] else done
  }

  /** What a counter started at 0 shows after `n` saturating increments. */
  function SaturatedId(n: nat): CommunityId {
    if n <= U32_MAX then n else U32_MAX
  }

  /** The two sides of a merge as its community phase sees them. */
  datatype Sides = Sides(oursByName: map<string, Community>, oursNames: map<NodeId, string>,
                         theirsNames: map<NodeId, string>, ids: map<string, NodeId>)

  function Remapped(s: Sides, c: Community, id: CommunityId): Community {
    if c.name in s.oursByName
    then Community(id, s.oursByName[c.name].name, RemapMembers(s.oursNames, s.ids, s.oursByName[c.name].members))
    else Community(id, c.name, RemapMembers(s.theirsNames, s.ids, c.members))
  }

  ghost function MergedCommunities(survivors: set<string>, s: Sides, chain: seq<Community>): seq<Community> {
    if chain == [] then []
    else
      var done, c := MergedCommunities(survivors, s, Init(chain)), Last(chain);
      if c.name in Keys(CommunityNameOf, Init(chain)) || c.name !in survivors then done
      else done + [Remapped(s, c, SaturatedId(|done|))]
  }

  method MembersRemapped(names: map<NodeId, string>, ids: map<string, NodeId>, members: seq<NodeId>)
    returns (r: seq<NodeId>)
    ensures r == RemapMembers(names, ids, members)
  {
    r := [];
    for i := 0 to |members|
      invariant r == RemapMembers(names, ids, members[..i])
    {
      assert Init(members[..i + 1]) == members[..i];
      if members[i] in names && names[members[i]] in ids {
        r := r + [ids[names[members[i]]]];
      }
    }
    assert members[..|members|] == members;
  }

  /** One turn of the community loop, in terms of the test it makes. */
  lemma CommunityStep(base: set<string>, ours: set<string>, theirs: set<string>, s: Sides, chain: seq<Community>, i: nat)
    requires i < |chain| && Keys(CommunityNameOf, chain) == ours + theirs
    ensures var survivors, name := Surviving(base, ours, theirs), chain[i].name;
            var done := MergedCommunities(survivors, s, chain[..i]);
            MergedCommunities(survivors, s, chain[..i + 1]) ==
            if name !in Keys(CommunityNameOf, chain[..i]) && (name !in base || (name in ours && name in theirs))
            then done + [Remapped(s, chain[i], SaturatedId(|done|))]
            else done
    ensures Keys(CommunityNameOf, chain[..i + 1]) == Keys(CommunityNameOf, chain[..i]) + {chain[i].name}
  {
    assert Init(chain[..i + 1]) == chain[..i];
    KeysSnoc(CommunityNameOf, chain[..i + 1]);
    assert CommunityNameOf(chain[i]) in Keys(CommunityNameOf, chain);
    SurvivesIff(base, ours, theirs, chain[i].name);
  }

  method RemapCommunity(s: Sides, c: Community, id: CommunityId) returns (r: Community)
    ensures r == Remapped(s, c, id)
  {
    var comm, names := c, s.theirsNames;
    if c.name in s.oursByName {
      comm, names := s.oursByName[c.name], s.oursNames;
    }
    var members := MembersRemapped(names, s.ids, comm.members);
    r := Community(id, comm.name, members);
  }

  method MergeGraphCommunities(ours: Graph, theirs: Graph, baseComms: set<string>,
                               oursNames: map<NodeId, string>, theirsNames: map<NodeId, string>, ids: map<string, NodeId>)
    returns (result: seq<Community>)
    ensures result == MergedCommunities(
      Surviving(baseComms, Keys(CommunityNameOf, ours.communities), Keys(CommunityNameOf, theirs.communities)),
      Sides(CommunitiesByName(ours.communities), oursNames, theirsNames, ids),
      ours.communities + theirs.communities)
  {
    var oursComms, theirsComms := CommunityNameSet(ours.communities), CommunityNameSet(theirs.communities);
    var oursByName := CommunitiesByName(ours.communities);
    var chain := ours.communities + theirs.communities;
    KeysAppend(CommunityNameOf, ours.communities, theirs.communities);
    result := MergeCommunityChain(chain, baseComms, oursComms, theirsComms,
                                  Sides(oursByName, oursNames, theirsNames, ids));
  }

  lemma NextSaturated(done: seq<Community>, c: Community)
    ensures SaturatingAddOne(SaturatedId(|done|)) == SaturatedId(|done + [c]|)
  {
  }

  method MergeCommunityChain(chain: seq<Community>, baseComms: set<string>, oursComms: set<string>,
                             theirsComms: set<string>, s: Sides)
    returns (result: seq<Community>)
    requires Keys(CommunityNameOf, chain) == oursComms + theirsComms
    ensures result == MergedCommunities(Surviving(baseComms, oursComms, theirsComms), s, chain)
  {
    ghost var survivors := Surviving(baseComms, oursComms, theirsComms);
    var seen: set<string> := {};
    var nextId: CommunityId := 0;
    result := [];
    for i := 0 to |chain|
      invariant seen == Keys(CommunityNameOf, chain[..i])
      invariant result == MergedCommunities(survivors, s, chain[..i])
      invariant nextId == SaturatedId(|result|)
    {
      var c := chain[i];
      CommunityStep(baseComms, oursComms, theirsComms, s, chain, i);
      if c.name !in seen {
        var keep := c.name !in baseComms || (c.name in oursComms && c.name in theirsComms);
        seen := seen + {c.name};
        if keep {
          var merged := RemapCommunity(s, c, nextId);
          NextSaturated(result, merged);
          result := result + [merged];
          nextId := SaturatingAddOne(nextId);
        }
      }
    }
    assert chain == chain[..|chain|];
  }

  // ---------------------------------------------------------------- the whole merge

  ghost function SurvivingNames(base: Graph, ours: Graph, theirs: Graph): set<string> {
    Surviving(Keys(NodeNameOf, base.nodes), Keys(NodeNameOf, ours.nodes), Keys(NodeNameOf, theirs.nodes))
  }

  ghost function SurvivingCommunities(base: Graph, ours: Graph, theirs: Graph): set<string> {
    Surviving(Keys(CommunityNameOf, base.communities), Keys(CommunityNameOf, ours.communities),
              Keys(CommunityNameOf, theirs.communities))
  }

  /** The surviving nodes as raw nodes. */
  ghost function WonRaws(base: Graph, ours: Graph, theirs: Graph): seq<RawNode> {
    Map(Raw, Winning(SurvivingNames(base, ours, theirs), NodesByName(ours.nodes), ours.nodes + theirs.nodes))
  }

  /** The edges of both branches whose keys survive, as raw edges, ours first. */
  ghost function WonEdges(base: Graph, ours: Graph, theirs: Graph): seq<RawEdge> {
    Filter(KeyOfSurvivor(SurvivingKeys(base, ours, theirs)), BothRawEdges(ours, theirs))
  }

  ghost function WonCommunities(h: ContentId, base: Graph, ours: Graph, theirs: Graph): seq<Community> {
    MergedCommunities(SurvivingCommunities(base, ours, theirs),
                      Sides(CommunitiesByName(ours.communities), NamesById(ours.nodes), NamesById(theirs.nodes),
                            IdsByName(Interned(h, WonRaws(base, ours, theirs)))),
                      ours.communities + theirs.communities)
  }

  ghost function Merged3(h: ContentId, base: Graph, ours: Graph, theirs: Graph): Graph {
    Graph(ours.schema,
          BuiltNodes(h, WonRaws(base, ours, theirs)),
          BuiltEdges(h, WonRaws(base, ours, theirs), WonEdges(base, ours, theirs)),
          Map(SortedMembers, SortBy(CommunityLe, WonCommunities(h, base, ours, theirs))),
          MergedManifest(ours.manifest, theirs.manifest))
  }

  lemma WonNames(base: Graph, ours: Graph, theirs: Graph)
    ensures Keys(RawNameOf, WonRaws(base, ours, theirs)) == SurvivingNames(base, ours, theirs)
    ensures DistinctBy(NodeNameOf, Winning(SurvivingNames(base, ours, theirs), NodesByName(ours.nodes), ours.nodes + theirs.nodes))
  {
    var won := Winning(SurvivingNames(base, ours, theirs), NodesByName(ours.nodes), ours.nodes + theirs.nodes);
    NodesByNameMeaning(ours.nodes);
    WinningMeaning(SurvivingNames(base, ours, theirs), NodesByName(ours.nodes), ours.nodes + theirs.nodes);
    KeysAppend(NodeNameOf, ours.nodes, theirs.nodes);
    RawKeysOfNodes(won);
  }

  lemma WinnersNumbered(h: ContentId, base: Graph, ours: Graph, theirs: Graph)
    requires |SurvivingNames(base, ours, theirs)| <= U32_SIZE
    ensures var won := Winning(SurvivingNames(base, ours, theirs), NodesByName(ours.nodes), ours.nodes + theirs.nodes);
            |won| <= U32_SIZE && Renumbered(h, won) == Interned(h, WonRaws(base, ours, theirs))
    ensures InjectiveMap(IdsByName(Interned(h, WonRaws(base, ours, theirs))))
  {
    var won := Winning(SurvivingNames(base, ours, theirs), NodesByName(ours.nodes), ours.nodes + theirs.nodes);
    WonNames(base, ours, theirs);
    RawKeysOfNodes(won);
    DistinctSize(NodeNameOf, won);
    RenumberedIsInterned(h, won);
    BuiltIdsInjective(h, WonRaws(base, ours, theirs));
  }

  method Merge3(h: ContentId, base: Graph, ours: Graph, theirs: Graph) returns (g: Graph)
    requires |SurvivingNames(base, ours, theirs)| <= U32_SIZE
    ensures g == Merged3(h, base, ours, theirs)
  {
    var baseNodeNames, oursNodeNames, theirsNodeNames :=
      NodeNameSet(base.nodes), NodeNameSet(ours.nodes), NodeNameSet(theirs.nodes);
    var baseNames, oursNames, theirsNames := NamesById(base.nodes), NamesById(ours.nodes), NamesById(theirs.nodes);

    var preNodes := SelectWinningNodes(ours.nodes, theirs.nodes, baseNodeNames, oursNodeNames, theirsNodeNames,
                                       NodesByName(ours.nodes));
    WinnersNumbered(h, base, ours, theirs);
    var nodes, ids := AssignNodeIds(h, preNodes);

    var baseKeys := EdgeKeySet(base.edges, baseNames);
    var edges := MergeGraphEdges(ours, theirs, oursNames, theirsNames, baseKeys, ids);

    var baseComms := CommunityNameSet(base.communities);
    var communities := MergeGraphCommunities(ours, theirs, baseComms, oursNames, theirsNames, ids);

    var manifest := Manifest(ours.manifest.inputs + theirs.manifest.inputs, ours.manifest.toolVersion,
                             if ours.manifest.generatedAt.Some? then ours.manifest.generatedAt else theirs.manifest.generatedAt);
    var deduped := RemoveDuplicates(Graph(ours.schema, nodes, edges, communities, manifest));
    g := Sorted(deduped);
    ResolvedOnce(ids, WonEdges(base, ours, theirs));
  }

  /** The duplicate removal after the edge loop finds nothing to remove, whether it is run on
      what the loop returns or instead of the loop's own test. */
  lemma ResolvedOnce(ids: map<string, NodeId>, raws: seq<RawEdge>)
    requires InjectiveMap(ids)
    ensures var edges := ResolveEdges(ids, DedupBy(RawKeyOf, raws));
            DedupBy(EdgeKeyOf, edges) == edges == DedupBy(EdgeKeyOf, ResolveEdges(ids, raws))
  {
    DedupByNameOrById(ids, raws);
    DedupMeaning(EdgeKeyOf, ResolveEdges(ids, raws));
    DedupDistinct(EdgeKeyOf, DedupBy(EdgeKeyOf, ResolveEdges(ids, raws)));
  }
}
