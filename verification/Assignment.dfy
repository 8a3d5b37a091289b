// Which label-to-id table an interning walk hands out, as a condition on the table alone;
// and what adding or removing a label does to the ids of the others.

module Assignment {
  import opened Ids
  import opened Lists
  import opened Probing
  import opened Schema
  import opened Interning
  import opened Pipeline

  ghost function IdsOf(ids: map<string, NodeId>, names: set<string>): set<NodeId> {
    set name | name in names && name in ids :: ids[name]
  }

  /** Every slot from the content id of `raw` up to its id is the id of a label in `before`. */
  ghost predicate RunHeld(h: ContentId, ids: map<string, NodeId>, before: seq<RawNode>, raw: RawNode) {
    raw.name in ids && raw.name !in Keys(RawNameOf, before) ==>
      RunOccupied(h, raw.name, ids[raw.name], IdsOf(ids, Keys(RawNameOf, before)))
  }

  /** For each label, every slot from its content id up to its id is held by a label that
      occurs earlier in `raws`. */
  ghost predicate HeldByEarlier(h: ContentId, ids: map<string, NodeId>, raws: seq<RawNode>) {
    forall i :: 0 <= i < |raws| ==> RunHeld(h, ids, raws[..i], raws[i])
  }

  lemma HeldOneMore(h: ContentId, ids: map<string, NodeId>, raws: seq<RawNode>, raw: RawNode)
    ensures HeldByEarlier(h, ids, raws + [raw]) <==> HeldByEarlier(h, ids, raws) && RunHeld(h, ids, raws, raw)
  {
    var more := raws + [raw];
    assert more[..|raws|] == raws && more[|raws|] == raw;
    assert forall i :: 0 <= i < |raws| ==> more[..i] == raws[..i] && more[i] == raws[i];
    if HeldByEarlier(h, ids, more) {
      forall i | 0 <= i < |raws|
        ensures RunHeld(h, ids, raws[..i], raws[i])
      {
        assert RunHeld(h, ids, more[..i], more[i]);
      }
    }
  }

  /** The ids in use are those the table gives to the names walked. */
  lemma TableImage(nodes: seq<Node>, ids: map<string, NodeId>)
    requires DistinctBy(NodeNameOf, nodes) && Extends(IdsByName(nodes), ids)
    ensures Keys(NodeIdOf, nodes) == IdsOf(ids, Keys(NodeNameOf, nodes))
  {
    forall id | id in Keys(NodeIdOf, nodes)
      ensures id in IdsOf(ids, Keys(NodeNameOf, nodes))
    {
      var n :| n in nodes && NodeIdOf(n) == id;
      IdOfNode(nodes, n);
      assert NodeNameOf(n) in Keys(NodeNameOf, nodes);
    }
    forall id | id in IdsOf(ids, Keys(NodeNameOf, nodes))
      ensures id in Keys(NodeIdOf, nodes)
    {
      var name :| name in Keys(NodeNameOf, nodes) && name in ids && ids[name] == id;
      var n :| n in nodes && NodeNameOf(n) == name;
      IdOfNode(nodes, n);
      assert NodeIdOf(n) == id;
    }
  }

  /** The id the walk gives to a new name is the one in the table exactly if the run is held. */
  lemma ProbedIff(h: ContentId, ids: map<string, NodeId>, before: seq<RawNode>, raw: RawNode)
    requires InjectiveMap(ids) && raw.name in ids && Keys(RawNameOf, before) <= ids.Keys
    requires raw.name !in Keys(RawNameOf, before)
    requires Extends(IdsByName(Interned(h, before)), ids)
    requires |Keys(RawNameOf, before) + {raw.name}| <= U32_SIZE
    ensures Probe(h(raw.name), Keys(NodeIdOf, Interned(h, before))) == ids[raw.name] <==> RunHeld(h, ids, before, raw)
  {
    var nodes := Interned(h, before);
    var used, id := Keys(NodeIdOf, nodes), ids[raw.name];
    InternedNames(h, before);
    TableImage(nodes, ids);
    RoomForOneMore(h, before, raw, Keys(RawNameOf, before) + {raw.name});
    assert id !in used;
    if RunHeld(h, ids, before, raw) {
      FirstFreeIsUnique(h(raw.name), used, id);
    }
  }

  /** A walk hands out the ids of an injective table if and only if, for each label, the slots
      from its content id up to its id are held by earlier labels. */
  lemma {:induction false} AssignmentIff(h: ContentId, ids: map<string, NodeId>, raws: seq<RawNode>)
    requires InjectiveMap(ids) && Keys(RawNameOf, raws) <= ids.Keys && |Keys(RawNameOf, raws)| <= U32_SIZE
    ensures Extends(IdsByName(Interned(h, raws)), ids) <==> HeldByEarlier(h, ids, raws)
  {
    if raws != [] {
      var before, raw := Init(raws), Last(raws);
      var nodes := Interned(h, before);
      KeysSnoc(RawNameOf, raws);
      SubsetCardinality(Keys(RawNameOf, before), Keys(RawNameOf, raws));
      assert raws == before + [raw];
      AssignmentIff(h, ids, before);
      HeldOneMore(h, ids, before, raw);
      InternedNames(h, before);
      TableKeys(nodes);
      if raw.name !in Keys(RawNameOf, before) {
        Snoc(nodes, Numbered(raw, Probe(h(raw.name), Keys(NodeIdOf, nodes))));
        OneMoreEntry(IdsByName(nodes), ids, raw.name, Probe(h(raw.name), Keys(NodeIdOf, nodes)));
        if Extends(IdsByName(nodes), ids) {
          ProbedIff(h, ids, before, raw);
        }
      }
    }
  }

  lemma OneMoreEntry(table: map<string, NodeId>, ids: map<string, NodeId>, name: string, id: NodeId)
    requires name !in table && name in ids
    ensures Extends(table[name := id], ids) <==> Extends(table, ids) && ids[name] == id
  {
    if Extends(table[name := id], ids) {
      forall other | other in table
        ensures other in ids && ids[other] == table[other]
      {
        assert other in table[name := id];
      }
      assert name in table[name := id];
    }
  }

  lemma ExtendsSameKeys(table: map<string, NodeId>, ids: map<string, NodeId>)
    requires table.Keys == ids.Keys
    ensures Extends(table, ids) <==> table == ids
  {
  }

  /** A label that holds its own content id needed no probing. */
  lemma NoProbing(h: ContentId, ids: map<string, NodeId>, before: seq<RawNode>, raw: RawNode)
    requires raw.name in ids && ids[raw.name] == h(raw.name)
    ensures RunHeld(h, ids, before, raw)
  {
  }

  lemma NamesOfTwo(a: RawNode, b: RawNode)
    ensures Keys(RawNameOf, [a]) == {a.name} && Keys(RawNameOf, [a, b]) == {a.name, b.name}
    ensures |Keys(RawNameOf, [a, b])| <= 2
  {
    KeysOneMore(RawNameOf, [], a);
    KeysOneMore(RawNameOf, [a], b);
    assert [] + [a] == [a] && [a] + [b] == [a, b];
    KeysSize(RawNameOf, [a, b]);
  }

  lemma NamesOfThree(a: RawNode, b: RawNode, c: RawNode)
    ensures Keys(RawNameOf, [a, b, c]) == {a.name, b.name, c.name}
    ensures |Keys(RawNameOf, [a, b, c])| <= 3
  {
    NamesOfTwo(a, b);
    KeysOneMore(RawNameOf, [a, b], c);
    assert [a, b] + [c] == [a, b, c];
    KeysSize(RawNameOf, [a, b, c]);
  }

  lemma HeldByTwo(h: ContentId, ids: map<string, NodeId>, a: RawNode, b: RawNode)
    requires RunHeld(h, ids, [], a) && RunHeld(h, ids, [a], b)
    ensures HeldByEarlier(h, ids, [a, b])
  {
    HeldOneMore(h, ids, [], a);
    HeldOneMore(h, ids, [a], b);
    assert [] + [a] == [a] && [a] + [b] == [a, b];
  }

  lemma HeldByThree(h: ContentId, ids: map<string, NodeId>, a: RawNode, b: RawNode, c: RawNode)
    requires RunHeld(h, ids, [], a) && RunHeld(h, ids, [a], b) && RunHeld(h, ids, [a, b], c)
    ensures HeldByEarlier(h, ids, [a, b, c])
  {
    HeldByTwo(h, ids, a, b);
    HeldOneMore(h, ids, [a, b], c);
    assert [a, b] + [c] == [a, b, c];
  }

  /** Two labels of which at most the second had to probe, over the slot of the first. */
  lemma IdsOfTwo(h: ContentId, ids: map<string, NodeId>, a: RawNode, b: RawNode)
    requires ids.Keys == {a.name, b.name} && InjectiveMap(ids) && ids[a.name] == h(a.name)
    requires forall x: U32 :: Steps(h(b.name), x) < Steps(h(b.name), ids[b.name]) ==> x == ids[a.name]
    ensures IdsByName(Interned(h, [a, b])) == ids
  {
    NamesOfTwo(a, b);
    NoProbing(h, ids, [], a);
    assert RunHeld(h, ids, [a], b) by {
      assert a.name in Keys(RawNameOf, [a]);
    }
    HeldByTwo(h, ids, a, b);
    AssignedIds(h, ids, [a, b]);
  }

  lemma AssignedIds(h: ContentId, ids: map<string, NodeId>, raws: seq<RawNode>)
    requires InjectiveMap(ids) && Keys(RawNameOf, raws) == ids.Keys && |Keys(RawNameOf, raws)| <= U32_SIZE
    ensures IdsByName(Interned(h, raws)) == ids <==> HeldByEarlier(h, ids, raws)
  {
    BuiltIdsInjective(h, raws);
    AssignmentIff(h, ids, raws);
    ExtendsSameKeys(IdsByName(Interned(h, raws)), ids);
  }

  /** Two walks over the same labels hand out the same ids if and only if the ids of one fit
      the order of the other. */
  lemma SameAssignmentIff(h: ContentId, xs: seq<RawNode>, ys: seq<RawNode>)
    requires |Keys(RawNameOf, xs)| <= U32_SIZE && Keys(RawNameOf, xs) == Keys(RawNameOf, ys)
    ensures IdsByName(Interned(h, xs)) == IdsByName(Interned(h, ys)) <==>
            HeldByEarlier(h, IdsByName(Interned(h, ys)), xs)
  {
    BuiltIdsInjective(h, ys);
    AssignedIds(h, IdsByName(Interned(h, ys)), xs);
  }

  /** Two builds that tell the same of each label have the same nodes under the same condition. */
  lemma SameNodesIff(h: ContentId, xs: seq<RawNode>, ys: seq<RawNode>)
    requires |Keys(RawNameOf, xs)| <= U32_SIZE && SameFirstNodes(xs, ys)
    ensures BuiltNodes(h, xs) == BuiltNodes(h, ys) <==> HeldByEarlier(h, IdsByName(BuiltNodes(h, ys)), xs)
  {
    BuiltNodesMeaning(h, xs);
    BuiltNodesMeaning(h, ys);
    SameAssignmentIff(h, xs, ys);
    if IdsByName(Interned(h, xs)) == IdsByName(Interned(h, ys)) {
      BuiltNodesEqual(h, xs, ys);
    }
  }

  /** The nodes built from raw nodes of distinct names, listed in the order of their ids. */
  lemma BuiltFromDistinct(h: ContentId, ids: map<string, NodeId>, raws: seq<RawNode>, nodes: seq<Node>)
    requires |Keys(RawNameOf, raws)| <= U32_SIZE && DistinctBy(RawNameOf, raws)
    requires IdsByName(Interned(h, raws)) == ids && StrictlySortedBy(NodeLe, nodes)
    requires forall n :: n in nodes ==> Raw(n) in raws && n.name in ids && n.id == ids[n.name]
    requires forall r :: r in raws ==> r.name in ids && Numbered(r, ids[r.name]) in nodes
    ensures BuiltNodes(h, raws) == nodes
  {
    BuiltNodesMeaning(h, raws);
    forall n
      ensures n in BuiltNodes(h, raws) <==> n in nodes
    {
      NodeFromTables(h, raws, n);
      if n.name in Keys(RawNameOf, raws) {
        assert FirstBy(RawNameOf, raws, n.name) in raws;
      }
      if n in nodes {
        FirstByDistinct(RawNameOf, raws, Raw(n));
        assert RawNameOf(Raw(n)) in Keys(RawNameOf, raws);
      }
    }
    StrictlySortedUnique(NodeLe, BuiltNodes(h, raws), nodes);
  }

  /** Two labels whose order of ids is the opposite of their order of occurrence. */
  lemma TwoBuilt(h: ContentId, ids: map<string, NodeId>, a: RawNode, b: RawNode, nodes: seq<Node>)
    requires a.name != b.name && ids.Keys == {a.name, b.name} && IdsByName(Interned(h, [a, b])) == ids
    requires nodes == [Numbered(b, ids[b.name]), Numbered(a, ids[a.name])] && ids[b.name] < ids[a.name]
    ensures BuiltNodes(h, [a, b]) == nodes
  {
    NamesOfTwo(a, b);
    assert nodes[0] in nodes && nodes[1] in nodes;
    BuiltFromDistinct(h, ids, [a, b], nodes);
  }

  // ---------------------------------------------------------------- adding labels

  /** Raw nodes walked later change nothing for the earlier ones. */
  lemma {:induction false} InternedPrefix(h: ContentId, xs: seq<RawNode>, ys: seq<RawNode>)
    ensures Interned(h, xs) <= Interned(h, xs + ys)
    decreases |ys|
  {
    if ys == [] {
      assert xs + ys == xs;
    } else {
      InternedPrefix(h, xs, Init(ys));
      assert xs + ys == xs + Init(ys) + [Last(ys)];
      InternStep(h, xs + Init(ys), Last(ys));
    }
  }

  /** Labels added at the end renumber no other label, whatever the hash. */
  lemma LaterLabelsRenumberNobody(h: ContentId, xs: seq<RawNode>, ys: seq<RawNode>)
    ensures Extends(IdsByName(Interned(h, xs)), IdsByName(Interned(h, xs + ys)))
  {
    var few, all := Interned(h, xs), Interned(h, xs + ys);
    InternedPrefix(h, xs, ys);
    InternedNames(h, xs + ys);
    forall name | name in IdsByName(few)
      ensures name in IdsByName(all) && IdsByName(all)[name] == IdsByName(few)[name]
    {
      var n := NodeOfName(few, name);
      IdOfNode(all, n);
    }
  }

  /** The ids of names walked earlier, read off the table of the whole walk. */
  lemma IdsOfPrefix(h: ContentId, before: seq<RawNode>, after: seq<RawNode>)
    ensures Keys(NodeIdOf, Interned(h, before)) ==
            IdsOf(IdsByName(Interned(h, before + after)), Keys(RawNameOf, before))
  {
    LaterLabelsRenumberNobody(h, before, after);
    InternedNames(h, before);
    TableImage(Interned(h, before), IdsByName(Interned(h, before + after)));
  }

  /** A table that fits a walk still does when one more label, given a free id, is put into the
      walk: the runs of the later labels are held as before. */
  lemma {:induction false} HeldAfterInsertion(h: ContentId, table: map<string, NodeId>, grown: map<string, NodeId>,
                                              before: seq<RawNode>, raw: RawNode, after: seq<RawNode>)
    requires raw.name !in table && Keys(RawNameOf, before + after) <= table.Keys
    requires raw.name in grown && grown == table[raw.name := grown[raw.name]]
    requires HeldByEarlier(h, table, before + after) && RunHeld(h, grown, before, raw)
    ensures HeldByEarlier(h, grown, before + [raw] + after)
    decreases |after|
  {
    if after == [] {
      assert before + after == before && before + [raw] + after == before + [raw];
      KeysAppend(RawNameOf, before, []);
      HeldInLargerTable(h, table, grown, before);
      HeldOneMore(h, grown, before, raw);
    } else {
      var init, last := Init(after), Last(after);
      assert before + after == before + init + [last] && before + [raw] + after == before + [raw] + init + [last];
      HeldOneMore(h, table, before + init, last);
      KeysOneMore(RawNameOf, before + init, last);
      HeldAfterInsertion(h, table, grown, before, raw, init);
      RunAfterInsertion(h, table, grown, before, raw, init, last);
      HeldOneMore(h, grown, before + [raw] + init, last);
    }
  }

  lemma HeldInLargerTable(h: ContentId, table: map<string, NodeId>, grown: map<string, NodeId>, raws: seq<RawNode>)
    requires Keys(RawNameOf, raws) <= table.Keys && Extends(table, grown) && HeldByEarlier(h, table, raws)
    ensures HeldByEarlier(h, grown, raws)
  {
    forall i | 0 <= i < |raws|
      ensures RunHeld(h, grown, raws[..i], raws[i])
    {
      assert RunHeld(h, table, raws[..i], raws[i]);
      assert RawNameOf(raws[i]) in Keys(RawNameOf, raws);
      LargerImage(table, grown, Keys(RawNameOf, raws[..i]));
    }
  }

  lemma LargerImage(table: map<string, NodeId>, grown: map<string, NodeId>, names: set<string>)
    requires Extends(table, grown)
    ensures IdsOf(table, names) <= IdsOf(grown, names)
  {
  }

  lemma RunAfterInsertion(h: ContentId, table: map<string, NodeId>, grown: map<string, NodeId>,
                          before: seq<RawNode>, raw: RawNode, init: seq<RawNode>, last: RawNode)
    requires last.name in table && last.name != raw.name && Extends(table, grown)
    requires RunHeld(h, table, before + init, last)
    ensures RunHeld(h, grown, before + [raw] + init, last)
  {
    KeysAppend(RawNameOf, before, init);
    KeysOneMore(RawNameOf, before, raw);
    KeysAppend(RawNameOf, before + [raw], init);
    LargerImage(table, grown, Keys(RawNameOf, before + init));
  }

  /** Where an added label would get its id, from the table before the addition. */
  ghost function SlotOfAdded(h: ContentId, table: map<string, NodeId>, before: seq<RawNode>, raw: RawNode): NodeId {
    Probe(h(raw.name), IdsOf(table, Keys(RawNameOf, before)))
  }

  lemma AddedNode(h: ContentId, before: seq<RawNode>, raw: RawNode, after: seq<RawNode>)
    requires raw.name !in Keys(RawNameOf, before + after)
    ensures var grown := IdsByName(Interned(h, before + [raw] + after));
            raw.name in grown && grown[raw.name] == SlotOfAdded(h, IdsByName(Interned(h, before + after)), before, raw)
  {
    KeysAppend(RawNameOf, before, after);
    InternedNames(h, before);
    IdsOfPrefix(h, before, after);
    InternStep(h, before, raw);
    var node := Numbered(raw, Probe(h(raw.name), Keys(NodeIdOf, Interned(h, before))));
    Snoc(Interned(h, before), node);
    LaterLabelsRenumberNobody(h, before + [raw], after);
    assert raw.name in IdsByName(Interned(h, before + [raw]));
  }

  lemma InjectiveWithAdded(table: map<string, NodeId>, name: string, id: NodeId)
    requires InjectiveMap(table) && id !in table.Values
    ensures InjectiveMap(table[name := id])
  {
  }

  lemma TableWithAdded(h: ContentId, before: seq<RawNode>, raw: RawNode, after: seq<RawNode>)
    requires |Keys(RawNameOf, before + [raw] + after)| <= U32_SIZE && raw.name !in Keys(RawNameOf, before + after)
    requires var table := IdsByName(Interned(h, before + after));
             SlotOfAdded(h, table, before, raw) !in table.Values
    ensures Extends(IdsByName(Interned(h, before + after)), IdsByName(Interned(h, before + [raw] + after)))
  {
    var table := IdsByName(Interned(h, before + after));
    NamesWithAdded(before, raw, after);
    BuiltIdsInjective(h, before + after);
    InjectiveWithAdded(table, raw.name, SlotOfAdded(h, table, before, raw));
    GrownTable(h, table, table[raw.name := SlotOfAdded(h, table, before, raw)], before, raw, after);
  }

  lemma GrownTable(h: ContentId, table: map<string, NodeId>, grown: map<string, NodeId>,
                   before: seq<RawNode>, raw: RawNode, after: seq<RawNode>)
    requires |Keys(RawNameOf, before + [raw] + after)| <= U32_SIZE && raw.name !in Keys(RawNameOf, before + after)
    requires table == IdsByName(Interned(h, before + after)) && table.Keys == Keys(RawNameOf, before + after)
    requires InjectiveMap(table) && InjectiveMap(grown)
    requires SlotOfAdded(h, table, before, raw) !in table.Values
    requires grown == table[raw.name := SlotOfAdded(h, table, before, raw)]
    ensures IdsByName(Interned(h, before + [raw] + after)) == grown
  {
    NamesWithAdded(before, raw, after);
    AssignedIds(h, table, before + after);
    RunOfAdded(h, table, grown, before, raw);
    HeldAfterInsertion(h, table, grown, before, raw, after);
    AssignedIds(h, grown, before + [raw] + after);
  }

  lemma NamesWithAdded(before: seq<RawNode>, raw: RawNode, after: seq<RawNode>)
    ensures Keys(RawNameOf, before + [raw] + after) == Keys(RawNameOf, before + after) + {raw.name}
    ensures Keys(RawNameOf, before) <= Keys(RawNameOf, before + after)
    ensures |Keys(RawNameOf, before + after)| <= |Keys(RawNameOf, before + [raw] + after)|
  {
    KeysAppend(RawNameOf, before, after);
    KeysOneMore(RawNameOf, before, raw);
    KeysAppend(RawNameOf, before + [raw], after);
    SubsetCardinality(Keys(RawNameOf, before + after), Keys(RawNameOf, before + [raw] + after));
  }

  lemma RunOfAdded(h: ContentId, table: map<string, NodeId>, grown: map<string, NodeId>, before: seq<RawNode>, raw: RawNode)
    requires Keys(RawNameOf, before) <= table.Keys && raw.name !in table
    requires grown == table[raw.name := SlotOfAdded(h, table, before, raw)]
    requires SlotOfAdded(h, table, before, raw) !in table.Values
    ensures RunHeld(h, grown, before, raw)
  {
    var used := IdsOf(table, Keys(RawNameOf, before));
    LargerImage(table, grown, Keys(RawNameOf, before));
    IdSetBound(used + {SlotOfAdded(h, table, before, raw)});
  }

  /** Adding a label anywhere leaves the ids of all others alone if and only if the slot its
      probe ends in, over the ids of the labels before it, is held by no label after it. */
  lemma AdditionRenumbersNobodyIff(h: ContentId, before: seq<RawNode>, raw: RawNode, after: seq<RawNode>)
    requires |Keys(RawNameOf, before + [raw] + after)| <= U32_SIZE && raw.name !in Keys(RawNameOf, before + after)
    ensures var table := IdsByName(Interned(h, before + after));
            Extends(table, IdsByName(Interned(h, before + [raw] + after))) <==>
            SlotOfAdded(h, table, before, raw) !in table.Values
  {
    var table, grown := IdsByName(Interned(h, before + after)), IdsByName(Interned(h, before + [raw] + after));
    NamesWithAdded(before, raw, after);
    BuiltIdsInjective(h, before + after);
    BuiltIdsInjective(h, before + [raw] + after);
    AddedNode(h, before, raw, after);
    if SlotOfAdded(h, table, before, raw) !in table.Values {
      TableWithAdded(h, before, raw, after);
    } else {
      var other :| other in table && table[other] == SlotOfAdded(h, table, before, raw);
      assert other != raw.name && (other in grown ==> grown[other] != grown[raw.name]);
    }
  }

  // ---------------------------------------------------------------- the same start

  /** What a walk does later depends on the table reached so far only. */
  lemma {:induction false} SameContinuation(h: ContentId, xs: seq<RawNode>, ys: seq<RawNode>, more: seq<RawNode>)
    requires |Keys(RawNameOf, xs + more)| <= U32_SIZE
    requires Keys(RawNameOf, xs) == Keys(RawNameOf, ys) && IdsByName(Interned(h, xs)) == IdsByName(Interned(h, ys))
    ensures Keys(RawNameOf, xs + more) == Keys(RawNameOf, ys + more)
    ensures IdsByName(Interned(h, xs + more)) == IdsByName(Interned(h, ys + more))
    decreases |more|
  {
    if more == [] {
      assert xs + more == xs && ys + more == ys;
    } else {
      var init, last := Init(more), Last(more);
      LastApart(xs, more);
      LastApart(ys, more);
      KeysOneMore(RawNameOf, xs + init, last);
      KeysOneMore(RawNameOf, ys + init, last);
      SubsetCardinality(Keys(RawNameOf, xs + init), Keys(RawNameOf, xs + more));
      SameContinuation(h, xs, ys, init);
      SameNextEntry(h, xs + init, ys + init, last);
    }
  }

  lemma LastApart(xs: seq<RawNode>, more: seq<RawNode>)
    requires more != []
    ensures xs + more == xs + Init(more) + [Last(more)]
  {
  }

  lemma SameNextEntry(h: ContentId, xs: seq<RawNode>, ys: seq<RawNode>, raw: RawNode)
    requires Keys(RawNameOf, xs) == Keys(RawNameOf, ys) && IdsByName(Interned(h, xs)) == IdsByName(Interned(h, ys))
    ensures IdsByName(Interned(h, xs + [raw])) == IdsByName(Interned(h, ys + [raw]))
  {
    var a, b := Interned(h, xs), Interned(h, ys);
    InternStep(h, xs, raw);
    InternStep(h, ys, raw);
    InternedNames(h, xs);
    InternedNames(h, ys);
    TableImage(a, IdsByName(a));
    TableImage(b, IdsByName(b));
    var node := Numbered(raw, Probe(h(raw.name), Keys(NodeIdOf, a)));
    Snoc(a, node);
    Snoc(b, node);
  }

  // ---------------------------------------------------------------- removing a label

  ghost function OtherThan(name: string): RawNode -> bool {
    (r: RawNode) => r.name != name
  }

  /** The probe for `other` passed through the slot that `name` holds. */
  ghost predicate PassedThrough(h: ContentId, ids: map<string, NodeId>, name: string, other: string)
    requires name in ids && other in ids
  {
    other != name && Steps(h(other), ids[name]) < Steps(h(other), ids[other])
  }

  lemma {:induction false} OtherNames(name: string, raws: seq<RawNode>)
    ensures Keys(RawNameOf, Filter(OtherThan(name), raws)) == Keys(RawNameOf, raws) - {name}
  {
    if raws != [] {
      OtherNames(name, Init(raws));
      KeysSnoc(RawNameOf, raws);
      KeysOneMore(RawNameOf, Filter(OtherThan(name), Init(raws)), Last(raws));
    }
  }

  lemma IdsOfOthers(ids: map<string, NodeId>, names: set<string>, name: string)
    requires InjectiveMap(ids) && name in ids && names <= ids.Keys
    ensures IdsOf(ids, names - {name}) == IdsOf(ids, names) - {ids[name]}
  {
  }

  lemma {:induction false} HeldWithout(h: ContentId, ids: map<string, NodeId>, raws: seq<RawNode>, name: string)
    requires InjectiveMap(ids) && Keys(RawNameOf, raws) <= ids.Keys && name in ids
    requires HeldByEarlier(h, ids, raws)
    ensures HeldByEarlier(h, ids, Filter(OtherThan(name), raws)) <==>
            forall other :: other in Keys(RawNameOf, raws) ==> !PassedThrough(h, ids, name, other)
  {
    if raws != [] {
      var before, raw := Init(raws), Last(raws);
      var kept := Filter(OtherThan(name), before);
      assert raws == before + [raw];
      KeysSnoc(RawNameOf, raws);
      HeldOneMore(h, ids, before, raw);
      HeldWithout(h, ids, before, name);
      OtherNames(name, before);
      IdsOfOthers(ids, Keys(RawNameOf, before), name);
      if raw.name != name {
        HeldOneMore(h, ids, kept, raw);
        if raw.name !in Keys(RawNameOf, before) {
          RunWithout(h, ids, before, raw, name);
        }
      }
    }
  }

  lemma RunWithout(h: ContentId, ids: map<string, NodeId>, before: seq<RawNode>, raw: RawNode, name: string)
    requires InjectiveMap(ids) && Keys(RawNameOf, before) <= ids.Keys && name in ids && raw.name in ids
    requires raw.name != name && raw.name !in Keys(RawNameOf, before) && RunHeld(h, ids, before, raw)
    ensures RunHeld(h, ids, Filter(OtherThan(name), before), raw) <==> !PassedThrough(h, ids, name, raw.name)
  {
    OtherNames(name, before);
    IdsOfOthers(ids, Keys(RawNameOf, before), name);
  }

  /** Removing a label leaves the ids of all
      others alone if and only if no other label's probe passed through its slot. */
  lemma RemovalRenumbersNobodyIff(h: ContentId, raws: seq<RawNode>, name: string)
    requires |Keys(RawNameOf, raws)| <= U32_SIZE && name in Keys(RawNameOf, raws)
    ensures var ids := IdsByName(Interned(h, raws));
            && ids.Keys == Keys(RawNameOf, raws)
            && (IdsByName(Interned(h, Filter(OtherThan(name), raws))) == ids - {name} <==>
                forall other :: other in ids ==> !PassedThrough(h, ids, name, other))
  {
    var ids, kept := IdsByName(Interned(h, raws)), Filter(OtherThan(name), raws);
    var table := IdsByName(Interned(h, kept));
    BuiltIdsInjective(h, raws);
    AssignmentIff(h, ids, raws);
    OtherNames(name, raws);
    SubsetCardinality(Keys(RawNameOf, kept), Keys(RawNameOf, raws));
    AssignmentIff(h, ids, kept);
    HeldWithout(h, ids, raws, name);
    BuiltIdsInjective(h, kept);
    ExtendsRest(table, ids, name);
  }

  lemma ExtendsRest(table: map<string, NodeId>, ids: map<string, NodeId>, name: string)
    requires table.Keys == ids.Keys - {name}
    ensures Extends(table, ids) <==> table == ids - {name}
  {
  }
}
