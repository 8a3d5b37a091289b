// Linear probing with wrap-around over the 2^32 ids, and its independence from the
// order in which ids are requested.

module Probing {
  import opened Ids
  import opened Lists

  /** How many forward steps lead from `a` to `b` in the cyclic id table. */
  function Steps(a: U32, b: U32): nat {
    if a <= b then b - a else b + U32_SIZE - a
  }

  /** `id` is the first free slot at or after `start` in cyclic order. */
  ghost predicate IsFirstFree(start: U32, used: set<U32>, id: U32) {
    && id !in used
    && forall x: U32 :: Steps(start, x) < Steps(start, id) ==> x in used
  }

  lemma {:induction false} FirstFreeFrom(start: U32, used: set<U32>, free: U32) returns (id: U32)
    requires free !in used
    ensures IsFirstFree(start, used, id)
    decreases Steps(start, free)
  {
    if x: U32 :| Steps(start, x) < Steps(start, free) && x !in used {
      id := FirstFreeFrom(start, used, x);
    } else {
      id := free;
    }
  }

  lemma FirstFreeExists(start: U32, used: set<U32>)
    requires |used| < U32_SIZE
    ensures exists id: U32 :: IsFirstFree(start, used, id)
  {
    FreeIdExists(used);
    var free: U32 :| free !in used;
    var id := FirstFreeFrom(start, used, free);
  }

  /** The slot a probe ends in. With all 2^32 slots taken the program never returns;
      the value given here for that case is not used by any result. */
  ghost function Probe(start: U32, used: set<U32>): (id: U32)
    ensures |used| < U32_SIZE ==> IsFirstFree(start, used, id)
  {
    if |used| < U32_SIZE then
      FirstFreeExists(start, used);
      var id: U32 :| IsFirstFree(start, used, id);
      id
    else
      start
  }

  lemma FirstFreeIsUnique(start: U32, used: set<U32>, id: U32)
    requires IsFirstFree(start, used, id)
    requires |used| < U32_SIZE
    ensures id == Probe(start, used)
  {
    var other := Probe(start, used);
    if Steps(start, id) < Steps(start, other) {
      assert false;
    } else if Steps(start, other) < Steps(start, id) {
      assert false;
    }
  }

  /** A free slot is its own probe result. */
  lemma ProbeOfFree(start: U32, used: set<U32>)
    requires start !in used
    ensures |used| < U32_SIZE
    ensures Probe(start, used) == start
  {
    IdSetBound(used + {start});
    FirstFreeIsUnique(start, used, start);
  }

  /** The probing loop: terminates because the cyclic distance to the free slot shrinks. */
  method AssignUniqueContentId(h: ContentId, name: string, used: set<U32>)
    returns (id: U32, used': set<U32>)
    requires |used| < U32_SIZE
    ensures id == Probe(h(name), used)
    ensures used' == used + {id}
  {
    id := h(name);
    ghost var goal := Probe(id, used);
    while id in used
      invariant Steps(h(name), id) <= Steps(h(name), goal)
      decreases Steps(h(name), goal) - Steps(h(name), id)
    {
      id := WrappingAddOne(id);
    }
    used' := used + {id};
  }

  // ---------------------------------------------------------------- order independence

  ghost function Occupied(used: set<U32>, start: U32): set<U32> {
    used + {Probe(start, used)}
  }

  /** When two probes would end in the same slot, the loser's slot does not depend on who wins. */
  lemma LoserSlot(a: U32, b: U32, used: set<U32>)
    requires |used| + 2 <= U32_SIZE
    requires Probe(a, used) == Probe(b, used)
    ensures Probe(a, used + {Probe(a, used)}) == Probe(b, used + {Probe(b, used)})
  {
    var p := Probe(a, used);
    var taken := used + {p};
    var r := Probe(b, taken);
    assert Steps(a, p) < Steps(a, r) by {
      if Steps(a, r) <= Steps(a, p) { assert false; }
    }
    assert Steps(b, p) < Steps(b, r) by {
      if Steps(b, r) <= Steps(b, p) { assert false; }
    }
    forall x: U32 | Steps(a, x) < Steps(a, r)
      ensures x in taken
    {
      if Steps(a, x) > Steps(a, p) {
        assert Steps(b, x) < Steps(b, r);
      }
    }
    FirstFreeIsUnique(a, taken, r);
  }

  lemma FullTable(used: set<U32>, x: U32)
    requires |used| >= U32_SIZE
    ensures x in used
  {
    IdSetBound(used + {x});
  }

  /** Two requests occupy the same two slots in either order. */
  lemma OccupyCommutes(a: U32, b: U32, used: set<U32>)
    ensures Occupied(Occupied(used, a), b) == Occupied(Occupied(used, b), a)
  {
    var p, q := Probe(a, used), Probe(b, used);
    if |used| + 2 <= U32_SIZE {
      if p == q {
        LoserSlot(a, b, used);
      } else {
        FirstFreeIsUnique(b, used + {p}, q);
        FirstFreeIsUnique(a, used + {q}, p);
      }
    } else {
      forall x: U32
        ensures x in Occupied(Occupied(used, a), b) && x in Occupied(Occupied(used, b), a)
      {
        TwoMoreFill(a, b, used, x);
        TwoMoreFill(b, a, used, x);
      }
    }
  }

  lemma TwoMoreFill(a: U32, b: U32, used: set<U32>, x: U32)
    requires |used| + 2 > U32_SIZE
    ensures x in Occupied(Occupied(used, a), b)
  {
    if |used| >= U32_SIZE {
      FullTable(used, x);
    } else {
      FullTable(used + {Probe(a, used)}, x);
    }
  }

  ghost function OccupyStep(h: ContentId): (set<U32>, string) -> set<U32> {
    (used: set<U32>, name: string) => Occupied(used, h(name))
  }

  /** The set of ids handed out for a sequence of names does not depend on its order. */
  lemma OccupyOrderFree(h: ContentId, xs: seq<string>, ys: seq<string>)
    requires multiset(xs) == multiset(ys)
    ensures Fold(OccupyStep(h), {}, xs) == Fold(OccupyStep(h), {}, ys)
  {
    forall used: set<U32>, a: string, b: string
      ensures OccupyStep(h)(OccupyStep(h)(used, a), b) == OccupyStep(h)(OccupyStep(h)(used, b), a)
    {
      OccupyCommutes(h(a), h(b), used);
    }
    FoldOrderFree(OccupyStep(h), {}, xs, ys);
  }
}
