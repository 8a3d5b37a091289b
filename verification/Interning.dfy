// Interning of names into ids: the walk shared by `assemble`, `merge` and `merge3`
// (first occurrence of a name wins, its id is found by probing from its content id).

module Interning {
  import opened Ids
  import opened Lists
  import opened Probing
  import opened Schema

  function Raw(n: Node): RawNode {
    RawNode(n.name, n.sourceFile, n.sourceLocation)
  }

  function Numbered(r: RawNode, id: NodeId): Node {
    Node(id, r.name, r.sourceFile, r.span)
  }

  /** The nodes made from `raws`, in order of first occurrence. */
  ghost function Interned(h: ContentId, raws: seq<RawNode>): seq<Node> {
    if raws == [] then []
    else
      var nodes, raw := Interned(h, Init(raws)), Last(raws);
      if raw.name in Keys(NodeNameOf, nodes) then nodes
      else nodes + [Numbered(raw, Probe(h(raw.name), Keys(NodeIdOf, nodes)))]
  }

  lemma InternStep(h: ContentId, raws: seq<RawNode>, raw: RawNode)
    ensures Interned(h, raws + [raw]) ==
            (var nodes := Interned(h, raws);
             if raw.name in Keys(NodeNameOf, nodes) then nodes
             else nodes + [Numbered(raw, Probe(h(raw.name), Keys(NodeIdOf, nodes)))])
  {
    Snoc(raws, raw);
  }

  lemma KeysOfOneMore(nodes: seq<Node>, n: Node)
    ensures Keys(NodeIdOf, nodes + [n]) == Keys(NodeIdOf, nodes) + {n.id}
    ensures Keys(NodeNameOf, nodes + [n]) == Keys(NodeNameOf, nodes) + {n.name}
  {
    KeysOneMore(NodeIdOf, nodes, n);
    KeysOneMore(NodeNameOf, nodes, n);
  }

  lemma {:induction false} InternedNames(h: ContentId, raws: seq<RawNode>)
    ensures Keys(NodeNameOf, Interned(h, raws)) == Keys(RawNameOf, raws)
    ensures DistinctBy(NodeNameOf, Interned(h, raws))
  {
    if raws != [] {
      InternedNames(h, Init(raws));
      KeysSnoc(RawNameOf, raws);
      var nodes, raw := Interned(h, Init(raws)), Last(raws);
      KeysOfOneMore(nodes, Numbered(raw, Probe(h(raw.name), Keys(NodeIdOf, nodes))));
    }
  }

  // ---------------------------------------------------------------- well-numbered node lists

  /** Every slot from the content id of `name` up to `id`, in probing order, is in `ids`. */
  ghost predicate RunOccupied(h: ContentId, name: string, id: NodeId, ids: set<NodeId>) {
    forall x: U32 :: Steps(h(name), x) < Steps(h(name), id) ==> x in ids
  }

  /** Names and ids determine each other, and each id was reached by probing over used ids. */
  ghost predicate WellNumbered(h: ContentId, nodes: seq<Node>) {
    && DistinctBy(NodeNameOf, nodes)
    && DistinctBy(NodeIdOf, nodes)
    && forall n :: n in nodes ==> RunOccupied(h, n.name, n.id, Keys(NodeIdOf, nodes))
  }

  lemma NumberOneMore(h: ContentId, nodes: seq<Node>, raw: RawNode)
    requires WellNumbered(h, nodes) && |Keys(NodeIdOf, nodes)| < U32_SIZE
    requires raw.name !in Keys(NodeNameOf, nodes)
    ensures WellNumbered(h, nodes + [Numbered(raw, Probe(h(raw.name), Keys(NodeIdOf, nodes)))])
  {
    var ids := Keys(NodeIdOf, nodes);
    var node := Numbered(raw, Probe(h(raw.name), ids));
    KeysOfOneMore(nodes, node);
    DistinctOneMore(NodeIdOf, nodes, node);
    DistinctOneMore(NodeNameOf, nodes, node);
    forall n | n in nodes + [node]
      ensures RunOccupied(h, n.name, n.id, ids + {node.id})
    {
      assert n == node || n in nodes;
    }
  }

  lemma {:induction false} InternedMeaning(h: ContentId, raws: seq<RawNode>)
    requires |Keys(RawNameOf, raws)| <= U32_SIZE
    ensures WellNumbered(h, Interned(h, raws))
  {
    if raws != [] {
      var init, nodes := Init(raws), Interned(h, Init(raws));
      KeysSnoc(RawNameOf, raws);
      SubsetCardinality(Keys(RawNameOf, init), Keys(RawNameOf, raws));
      InternedMeaning(h, init);
      InternedNames(h, init);
      DistinctSize(NodeNameOf, nodes);
      DistinctSize(NodeIdOf, nodes);
      if Last(raws).name !in Keys(NodeNameOf, nodes) {
        assert Keys(RawNameOf, raws) == Keys(RawNameOf, init) + {Last(raws).name};
        NumberOneMore(h, nodes, Last(raws));
      }
    }
  }

  /** Every node carries the data of the first raw node of its name. */
  lemma {:induction false} InternedData(h: ContentId, raws: seq<RawNode>, n: Node)
    requires n in Interned(h, raws)
    ensures n.name in Keys(RawNameOf, raws) && Raw(n) == FirstBy(RawNameOf, raws, n.name)
  {
    KeysSnoc(RawNameOf, raws);
    InternedNames(h, Init(raws));
    if n in Interned(h, Init(raws)) {
      InternedData(h, Init(raws), n);
    }
  }

  // ---------------------------------------------------------------- the two look-up tables

  /** name -> id; for repeated names the later node counts, as in a `HashMap` collect. */
  function IdsByName(nodes: seq<Node>): map<string, NodeId> {
    if nodes == [] then map[] else IdsByName(Init(nodes))[Last(nodes).name := Last(nodes).id]
  }

  /** id -> name; for repeated ids the later node counts. */
  function NamesById(nodes: seq<Node>): map<NodeId, string> {
    if nodes == [] then map[] else NamesById(Init(nodes))[Last(nodes).id := Last(nodes).name]
  }

  /** `ids'` says of every name in `ids` what `ids` says. */
  ghost predicate Extends(ids: map<string, NodeId>, ids': map<string, NodeId>) {
    forall name :: name in ids ==> name in ids' && ids'[name] == ids[name]
  }

  lemma {:induction false} TableKeys(nodes: seq<Node>)
    ensures IdsByName(nodes).Keys == Keys(NodeNameOf, nodes)
    ensures NamesById(nodes).Keys == Keys(NodeIdOf, nodes)
    ensures forall name :: name in IdsByName(nodes) ==> IdsByName(nodes)[name] in Keys(NodeIdOf, nodes)
    ensures forall id :: id in NamesById(nodes) ==> NamesById(nodes)[id] in Keys(NodeNameOf, nodes)
  {
    if nodes != [] {
      TableKeys(Init(nodes));
      KeysSnoc(NodeNameOf, nodes);
      KeysSnoc(NodeIdOf, nodes);
    }
  }

  /** The table maps an id to the label of the last node with that id. */
  lemma {:induction false} LastNameOfId(nodes: seq<Node>, id: NodeId) returns (i: nat)
    requires id in NamesById(nodes)
    ensures i < |nodes| && nodes[i].id == id && nodes[i].name == NamesById(nodes)[id]
    ensures forall j :: i < j < |nodes| ==> nodes[j].id != id
  {
    i := |nodes| - 1;
    if Last(nodes).id != id {
      i := LastNameOfId(Init(nodes), id);
    }
  }

  lemma {:induction false} IdOfNode(nodes: seq<Node>, n: Node)
    requires DistinctBy(NodeNameOf, nodes) && n in nodes
    ensures n.name in IdsByName(nodes) && IdsByName(nodes)[n.name] == n.id
  {
    if n != Last(nodes) {
      IdOfNode(Init(nodes), n);
      DistinctApart(NodeNameOf, nodes, n);
    }
  }

  lemma {:induction false} NameOfNode(nodes: seq<Node>, n: Node)
    requires DistinctBy(NodeIdOf, nodes) && n in nodes
    ensures n.id in NamesById(nodes) && NamesById(nodes)[n.id] == n.name
  {
    if n != Last(nodes) {
      NameOfNode(Init(nodes), n);
      DistinctApart(NodeIdOf, nodes, n);
    }
  }

  lemma DistinctApart<K>(key: Node -> K, nodes: seq<Node>, n: Node)
    requires DistinctBy(key, nodes) && n in nodes && n != Last(nodes)
    ensures key(n) != key(Last(nodes))
  {
  }

  /** On well-numbered nodes the two tables are inverse to each other. */
  lemma TablesInverse(h: ContentId, nodes: seq<Node>)
    requires WellNumbered(h, nodes)
    ensures forall name :: name in IdsByName(nodes) ==>
              IdsByName(nodes)[name] in NamesById(nodes) && NamesById(nodes)[IdsByName(nodes)[name]] == name
    ensures forall id :: id in NamesById(nodes) ==>
              NamesById(nodes)[id] in IdsByName(nodes) && IdsByName(nodes)[NamesById(nodes)[id]] == id
  {
    TableKeys(nodes);
    forall name | name in IdsByName(nodes)
      ensures IdsByName(nodes)[name] in NamesById(nodes) && NamesById(nodes)[IdsByName(nodes)[name]] == name
    {
      var n :| n in nodes && NodeNameOf(n) == name;
      IdOfNode(nodes, n);
      NameOfNode(nodes, n);
    }
    forall id | id in NamesById(nodes)
      ensures NamesById(nodes)[id] in IdsByName(nodes) && IdsByName(nodes)[NamesById(nodes)[id]] == id
    {
      var n :| n in nodes && NodeIdOf(n) == id;
      IdOfNode(nodes, n);
      NameOfNode(nodes, n);
    }
  }

  lemma {:induction false} NodeOfName(nodes: seq<Node>, name: string) returns (n: Node)
    requires name in IdsByName(nodes)
    ensures n in nodes && n.name == name && n.id == IdsByName(nodes)[name]
  {
    n := Last(nodes);
    if n.name != name {
      n := NodeOfName(Init(nodes), name);
    }
  }

  lemma {:induction false} NodeOfId(nodes: seq<Node>, id: NodeId) returns (n: Node)
    requires id in NamesById(nodes)
    ensures n in nodes && n.id == id && n.name == NamesById(nodes)[id]
  {
    n := Last(nodes);
    if n.id != id {
      n := NodeOfId(Init(nodes), id);
    }
  }

  /** The name-to-id table depends on the nodes only, not on their order. */
  lemma SameNodesSameIds(xs: seq<Node>, ys: seq<Node>)
    requires DistinctBy(NodeNameOf, xs) && DistinctBy(NodeNameOf, ys)
    requires forall n :: n in xs <==> n in ys
    ensures IdsByName(xs) == IdsByName(ys)
  {
    forall name | name in IdsByName(xs)
      ensures name in IdsByName(ys) && IdsByName(xs)[name] == IdsByName(ys)[name]
    {
      var n := NodeOfName(xs, name);
      IdOfNode(ys, n);
    }
    forall name | name in IdsByName(ys)
      ensures name in IdsByName(xs)
    {
      var n := NodeOfName(ys, name);
      IdOfNode(xs, n);
    }
  }

  // ---------------------------------------------------------------- the interning step

  lemma RoomForOneMore(h: ContentId, raws: seq<RawNode>, raw: RawNode, names: set<string>)
    requires |names| <= U32_SIZE && Keys(RawNameOf, raws) + {raw.name} <= names
    requires raw.name !in Keys(NodeNameOf, Interned(h, raws))
    ensures |Keys(NodeIdOf, Interned(h, raws))| < U32_SIZE
  {
    InternedNames(h, raws);
    SubsetCardinality(Keys(RawNameOf, raws) + {raw.name}, names);
    SubsetCardinality(Keys(RawNameOf, raws), names);
    InternedMeaning(h, raws);
    DistinctSize(NodeNameOf, Interned(h, raws));
    DistinctSize(NodeIdOf, Interned(h, raws));
  }

  /** The three variables the interning walk keeps, in step with the raw nodes already walked. */
  ghost predicate InStep(h: ContentId, walked: seq<RawNode>, interner: map<string, NodeId>, used: set<NodeId>, nodes: seq<Node>) {
    && nodes == Interned(h, walked)
    && interner == IdsByName(nodes)
    && used == Keys(NodeIdOf, nodes)
  }

  /** One step of the walk: an unknown name is given the first free id at or after its content
      id and a node; a known one keeps its id, and the new data is discarded. */
  method InternRawNode(h: ContentId, raw: RawNode,
                       interner: map<string, NodeId>, used: set<NodeId>, nodes: seq<Node>,
                       ghost walked: seq<RawNode>, ghost names: set<string>)
    returns (interner': map<string, NodeId>, used': set<NodeId>, nodes': seq<Node>, id: NodeId)
    requires InStep(h, walked, interner, used, nodes)
    requires |names| <= U32_SIZE && Keys(RawNameOf, walked) + {raw.name} <= names
    ensures InStep(h, walked + [raw], interner', used', nodes')
    ensures raw.name in interner' && id == interner'[raw.name]
    ensures raw.name in interner ==> interner' == interner
    ensures raw.name !in interner ==> interner' == interner[raw.name := id]
  {
    InternStep(h, walked, raw);
    TableKeys(nodes);
    if raw.name in interner {
      interner', used', nodes', id := interner, used, nodes, interner[raw.name];
    } else {
      RoomForOneMore(h, walked, raw, names);
      id, used' := AssignUniqueContentId(h, raw.name, used);
      var node := Node(id, raw.name, raw.sourceFile, raw.span);
      KeysOfOneMore(nodes, node);
      Snoc(nodes, node);
      interner', nodes' := interner[raw.name := id], nodes + [node];
    }
  }

  // ---------------------------------------------------------------- order independence

  function NamesInOrder(raws: seq<RawNode>): seq<string> {
    if raws == [] then []
    else
      var names := NamesInOrder(Init(raws));
      if Last(raws).name in names then names else names + [Last(raws).name]
  }

  lemma {:induction false} NamesInOrderMeaning(raws: seq<RawNode>)
    ensures forall i, j :: 0 <= i < j < |NamesInOrder(raws)| ==> NamesInOrder(raws)[i] != NamesInOrder(raws)[j]
    ensures forall name :: name in NamesInOrder(raws) <==> name in Keys(RawNameOf, raws)
  {
    if raws != [] {
      NamesInOrderMeaning(Init(raws));
      KeysSnoc(RawNameOf, raws);
    }
  }

  lemma {:induction false} InternedIds(h: ContentId, raws: seq<RawNode>)
    ensures Keys(NodeIdOf, Interned(h, raws)) == Fold(OccupyStep(h), {}, NamesInOrder(raws))
  {
    if raws != [] {
      var init, raw := Init(raws), Last(raws);
      InternedIds(h, init);
      InternedNames(h, init);
      NamesInOrderMeaning(init);
      var nodes := Interned(h, init);
      KeysOfOneMore(nodes, Numbered(raw, Probe(h(raw.name), Keys(NodeIdOf, nodes))));
      Snoc(NamesInOrder(init), raw.name);
    }
  }

  /** The set of ids in use is a function of the set of names alone, whatever the hash. */
  lemma IdSetOrderFree(h: ContentId, xs: seq<RawNode>, ys: seq<RawNode>)
    requires Keys(RawNameOf, xs) == Keys(RawNameOf, ys)
    ensures Keys(NodeIdOf, Interned(h, xs)) == Keys(NodeIdOf, Interned(h, ys))
  {
    NamesInOrderMeaning(xs);
    NamesInOrderMeaning(ys);
    var a, b := NamesInOrder(xs), NamesInOrder(ys);
    forall name
      ensures multiset(a)[name] == multiset(b)[name]
    {
      DistinctMultiplicity(a, name);
      DistinctMultiplicity(b, name);
    }
    assert multiset(a) == multiset(b);
    InternedIds(h, xs);
    InternedIds(h, ys);
    OccupyOrderFree(h, a, b);
  }

  // ---------------------------------------------------------------- distinct content ids

  ghost predicate InjectiveOn(h: ContentId, names: set<string>) {
    forall a, b :: a in names && b in names && h(a) == h(b) ==> a == b
  }

  /** Without collisions every node carries its content id. */
  lemma {:induction false} ContentIdsKept(h: ContentId, raws: seq<RawNode>)
    requires InjectiveOn(h, Keys(RawNameOf, raws))
    ensures forall n :: n in Interned(h, raws) ==> n.id == h(n.name)
  {
    if raws != [] {
      var init, raw := Init(raws), Last(raws);
      KeysSnoc(RawNameOf, raws);
      ContentIdsKept(h, init);
      InternedNames(h, init);
      var nodes := Interned(h, init);
      if raw.name !in Keys(NodeNameOf, nodes) {
        forall n | n in nodes
          ensures n.id != h(raw.name)
        {
          assert NodeNameOf(n) in Keys(NodeNameOf, nodes);
        }
        ProbeOfFree(h(raw.name), Keys(NodeIdOf, nodes));
      }
    }
  }

  lemma {:induction false} FirstNodeGetsContentId(h: ContentId, first: RawNode, rest: seq<RawNode>)
    ensures Numbered(first, h(first.name)) in Interned(h, [first] + rest)
    decreases |rest|
  {
    if rest == [] {
      assert [first] + rest == [] + [first];
      InternStep(h, [], first);
      ProbeOfFree(h(first.name), {});
      assert Keys(NodeIdOf, []) == {};
    } else {
      FirstNodeGetsContentId(h, first, Init(rest));
      assert [first] + rest == [first] + Init(rest) + [Last(rest)];
      InternStep(h, [first] + Init(rest), Last(rest));
    }
  }

  lemma DistinctContentIdsFixAssignment(h: ContentId, xs: seq<RawNode>, ys: seq<RawNode>)
    requires Keys(RawNameOf, xs) == Keys(RawNameOf, ys)
    requires InjectiveOn(h, Keys(RawNameOf, xs))
    ensures IdsByName(Interned(h, xs)) == IdsByName(Interned(h, ys))
  {
    ContentIdTable(h, xs);
    ContentIdTable(h, ys);
  }

  lemma ContentIdTable(h: ContentId, raws: seq<RawNode>)
    requires InjectiveOn(h, Keys(RawNameOf, raws))
    ensures IdsByName(Interned(h, raws)).Keys == Keys(RawNameOf, raws)
    ensures forall name :: name in IdsByName(Interned(h, raws)) ==> IdsByName(Interned(h, raws))[name] == h(name)
  {
    var nodes := Interned(h, raws);
    InternedNames(h, raws);
    ContentIdsKept(h, raws);
    TableKeys(nodes);
    forall name | name in IdsByName(nodes)
      ensures IdsByName(nodes)[name] == h(name)
    {
      var n := NodeOfName(nodes, name);
    }
  }

  lemma CollidingNamesSwap(h: ContentId, raws: seq<RawNode>, a: string, b: string)
    returns (xs: seq<RawNode>, ys: seq<RawNode>)
    requires |Keys(RawNameOf, raws)| <= U32_SIZE
    requires a in Keys(RawNameOf, raws) && b in Keys(RawNameOf, raws) && a != b && h(a) == h(b)
    ensures Keys(RawNameOf, xs) == Keys(RawNameOf, raws) == Keys(RawNameOf, ys)
    ensures IdsByName(Interned(h, xs)) != IdsByName(Interned(h, ys))
  {
    var first, second := FirstBy(RawNameOf, raws, a), FirstBy(RawNameOf, raws, b);
    xs, ys := [first] + raws, [second] + raws;
    KeysAppend(RawNameOf, [first], raws);
    KeysAppend(RawNameOf, [second], raws);
    assert Keys(RawNameOf, xs) == Keys(RawNameOf, raws) == Keys(RawNameOf, ys);
    FirstNodeGetsContentId(h, first, raws);
    FirstNodeGetsContentId(h, second, raws);
    var m, n := Interned(h, xs), Interned(h, ys);
    InternedMeaning(h, xs);
    InternedMeaning(h, ys);
    IdOfNode(m, Numbered(first, h(a)));
    IdOfNode(n, Numbered(second, h(b)));
    TablesInverse(h, m);
  }

  /** Which name gets which id is independent of the order of interning if and only if
      the names have distinct content ids. */
  lemma AssignmentOrderFreeIff(h: ContentId, raws: seq<RawNode>)
    requires |Keys(RawNameOf, raws)| <= U32_SIZE
    ensures InjectiveOn(h, Keys(RawNameOf, raws)) <==>
            forall other :: Keys(RawNameOf, other) == Keys(RawNameOf, raws) ==>
              IdsByName(Interned(h, other)) == IdsByName(Interned(h, raws))
  {
    if InjectiveOn(h, Keys(RawNameOf, raws)) {
      forall other | Keys(RawNameOf, other) == Keys(RawNameOf, raws) {
        DistinctContentIdsFixAssignment(h, other, raws);
      }
    } else {
      var a, b :| a in Keys(RawNameOf, raws) && b in Keys(RawNameOf, raws) && h(a) == h(b) && a != b;
      var xs, ys := CollidingNamesSwap(h, raws, a, b);
    }
  }
}
