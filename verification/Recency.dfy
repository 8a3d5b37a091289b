// Least-recently-used order as a function of the request history.

module Recency {
  import opened Lists

  ghost predicate NoRepeats<K(!new)>(xs: seq<K>) {
    forall i, j :: 0 <= i < j < |xs| ==> xs[i] != xs[j]
  }

  /** `order` without its first `k`. */
  function Without<K(==,!new)>(order: seq<K>, k: K): seq<K> {
    if order == [] then []
    else if order[0] == k then order[1..]
    else [order[0]] + Without(order[1..], k)
  }

  /** `k` becomes the most recently used key. */
  function Touched<K(==,!new)>(order: seq<K>, k: K): seq<K> {
    Without(order, k) + [k]
  }

  /** The last `n` elements. */
  function Latest<K(!new)>(xs: seq<K>, n: nat): seq<K> {
    if |xs| <= n then xs else xs[|xs| - n..]
  }

  /** What a store of capacity `capacity` keeps; capacity 0 means unbounded. */
  function Kept<K(!new)>(capacity: nat, order: seq<K>): seq<K> {
    if capacity == 0 then order else Latest(order, capacity)
  }

  /** The distinct keys of a history, in order of their last request: the reference definition. */
  function LastUses<K(==,!new)>(history: seq<K>): seq<K> {
    if history == [] then []
    else if history[0] in history[1..] then LastUses(history[1..])
    else [history[0]] + LastUses(history[1..])
  }

  ghost function Elements<K(!new)>(xs: seq<K>): set<K> {
    set x | x in xs
  }

  // ---------------------------------------------------------------- facts about removal

  lemma {:induction false} WithoutAbsent<K(!new)>(order: seq<K>, k: K)
    requires k !in order
    ensures Without(order, k) == order
  {
    if order != [] {
      WithoutAbsent(order[1..], k);
      assert order == [order[0]] + order[1..];
    }
  }

  lemma {:induction false} WithoutAppend<K(!new)>(xs: seq<K>, ys: seq<K>, k: K)
    ensures Without(xs + ys, k) == if k in xs then Without(xs, k) + ys else xs + Without(ys, k)
  {
    if xs == [] {
      assert xs + ys == ys;
    } else {
      var x, rest := xs[0], xs[1..];
      assert (xs + ys)[0] == x && (xs + ys)[1..] == rest + ys;
      if x != k {
        WithoutAppend(rest, ys, k);
        assert xs == [x] + rest;
        assert k in xs <==> k in rest;
        AppendAssoc([x], Without(rest, k), ys);
        AppendAssoc([x], rest, Without(ys, k));
      }
    }
  }

  lemma {:induction false} WithoutMembers<K(!new)>(order: seq<K>, k: K)
    requires NoRepeats(order)
    ensures NoRepeats(Without(order, k))
    ensures forall x :: x in Without(order, k) <==> x in order && x != k
    ensures |Without(order, k)| == |order| - (if k in order then 1 else 0)
  {
    if order != [] {
      WithoutMembers(order[1..], k);
      assert order[0] !in order[1..];
      assert order == [order[0]] + order[1..];
    }
  }

  lemma WithoutAt<K(!new)>(order: seq<K>, k: K, i: nat)
    requires i < |order| && order[i] == k && k !in order[..i]
    ensures Without(order, k) == order[..i] + order[i + 1..]
  {
    assert order == order[..i] + order[i..];
    WithoutAppend(order[..i], order[i..], k);
  }

  // ---------------------------------------------------------------- the reference order

  lemma {:induction false} LastUsesMembers<K(!new)>(history: seq<K>)
    ensures NoRepeats(LastUses(history))
    ensures forall k :: k in LastUses(history) <==> k in history
  {
    if history != [] {
      LastUsesMembers(history[1..]);
      assert history == [history[0]] + history[1..];
    }
  }

  /** One more request moves its key to the end. */
  lemma {:induction false} LastUsesTouched<K(!new)>(history: seq<K>, k: K)
    ensures LastUses(history + [k]) == Touched(LastUses(history), k)
  {
    if history == [] {
      assert history + [k] == [k];
    } else {
      var x, rest := history[0], history[1..];
      LastUsesTouched(rest, k);
      LastUsesMembers(rest);
      assert (history + [k])[1..] == rest + [k];
      if x in rest {
      } else if x == k {
        WithoutAbsent(LastUses(rest), k);
      } else {
        assert Without([x] + LastUses(rest), k) == [x] + Without(LastUses(rest), k);
      }
    }
  }

  lemma LatestOfAppend<K(!new)>(early: seq<K>, late: seq<K>, n: nat)
    requires n <= |late|
    ensures Latest(early + late, n) == Latest(late, n)
  {
  }

  lemma LatestOfRest<K(!new)>(xs: seq<K>, n: nat)
    requires n < |xs|
    ensures Latest(xs[1..], n) == Latest(xs, n)
  {
  }

  lemma TouchedLate<K(!new)>(early: seq<K>, late: seq<K>, k: K)
    requires NoRepeats(early + late) && k in late
    ensures Latest(Touched(early + late, k), |late|) == Latest(Touched(late, k), |late|)
  {
    var i :| 0 <= i < |late| && late[i] == k;
    assert (early + late)[|early| + i] == k;
    forall j | 0 <= j < |early|
      ensures early[j] != k
    {
      assert (early + late)[j] == early[j];
    }
    WithoutAppend(early, late, k);
    NoRepeatsTail(early, late);
    WithoutMembers(late, k);
    AppendAssoc(early, Without(late, k), [k]);
    LatestOfAppend(early, Touched(late, k), |late|);
  }

  lemma NoRepeatsTail<K(!new)>(early: seq<K>, late: seq<K>)
    requires NoRepeats(early + late)
    ensures NoRepeats(late)
  {
    forall i, j | 0 <= i < j < |late|
      ensures late[i] != late[j]
    {
      assert (early + late)[|early| + i] == late[i] && (early + late)[|early| + j] == late[j];
    }
  }

  lemma TouchedEarly<K(!new)>(early: seq<K>, late: seq<K>, k: K)
    requires k !in late
    ensures Latest(Touched(early + late, k), |late|) == Latest(Touched(late, k), |late|)
  {
    WithoutAppend(early, late, k);
    WithoutAbsent(late, k);
    if k !in early { WithoutAbsent(early, k); }
    assert Touched(early + late, k) == Without(early, k) + Touched(late, k);
    LatestOfAppend(Without(early, k), Touched(late, k), |late|);
  }

  /** Keeping the latest commutes with touching: what was dropped earlier is never missed. */
  lemma LatestTouched<K(!new)>(order: seq<K>, k: K, n: nat)
    requires NoRepeats(order) && n > 0
    ensures Latest(Touched(Latest(order, n), k), n) == Latest(Touched(order, k), n)
  {
    if n < |order| {
      var early, late := order[..|order| - n], order[|order| - n..];
      assert order == early + late;
      if k in late {
        TouchedLate(early, late, k);
      } else {
        TouchedEarly(early, late, k);
      }
    }
  }

  /** The order of an LRU store after a history of requests, one request at a time. */
  function OrderAfter<K(==,!new)>(capacity: nat, history: seq<K>): seq<K> {
    if history == [] then []
    else Kept(capacity, Touched(OrderAfter(capacity, Init(history)), Last(history)))
  }

  /** After any history the order is the latest `capacity` keys by last request. */
  lemma {:induction false} OrderIsLatestUses<K(!new)>(capacity: nat, history: seq<K>)
    ensures OrderAfter(capacity, history) == Kept(capacity, LastUses(history))
  {
    if history != [] {
      var past, k := Init(history), Last(history);
      OrderIsLatestUses(capacity, past);
      assert history == past + [k];
      LastUsesTouched(past, k);
      LastUsesMembers(past);
      if capacity != 0 {
        LatestTouched(LastUses(past), k, capacity);
      }
    }
  }

  // ---------------------------------------------------------------- capacities compared

  /** Capacity 0 is larger than every other. */
  predicate NoLarger(c: nat, d: nat) {
    d == 0 || (c != 0 && c <= d)
  }

  /** Inclusion: a larger store holds everything a smaller one holds after the same requests. */
  lemma StoreInclusion<K(!new)>(c: nat, d: nat, history: seq<K>)
    requires NoLarger(c, d)
    ensures forall k :: k in OrderAfter(c, history) ==> k in OrderAfter(d, history)
  {
    OrderIsLatestUses(c, history);
    OrderIsLatestUses(d, history);
    var uses := LastUses(history);
    if c != 0 && c < |uses| {
      assert uses[|uses| - c..] == Kept(d, uses)[|Kept(d, uses)| - c..];
    }
  }

  /** How many requests of a history had to be computed. */
  function Misses<K(==,!new)>(capacity: nat, history: seq<K>): nat {
    if history == [] then 0
    else Misses(capacity, Init(history)) + (if Last(history) in OrderAfter(capacity, Init(history)) then 0 else 1)
  }

  /** A larger capacity never computes more often. */
  lemma {:induction false} LargerMissesNoMore<K(!new)>(c: nat, d: nat, history: seq<K>)
    requires NoLarger(c, d)
    ensures Misses(d, history) <= Misses(c, history)
  {
    if history != [] {
      LargerMissesNoMore(c, d, Init(history));
      StoreInclusion(c, d, Init(history));
    }
  }

  // ---------------------------------------------------------------- stack distance

  lemma {:induction false} LastUsesSuffix<K(!new)>(history: seq<K>, p: nat)
    requires p <= |history|
    ensures |LastUses(history[p..])| <= |LastUses(history)|
    ensures LastUses(history)[|LastUses(history)| - |LastUses(history[p..])|..] == LastUses(history[p..])
  {
    if p == 0 {
      assert history[p..] == history;
    } else {
      assert history[p..] == history[1..][p - 1..];
      LastUsesSuffix(history[1..], p - 1);
    }
  }

  ghost predicate LastAt<K(!new)>(history: seq<K>, k: K, p: nat) {
    p < |history| && history[p] == k && k !in history[p + 1..]
  }

  lemma {:induction false} DistinctUses<K(!new)>(history: seq<K>)
    ensures |LastUses(history)| == |Elements(history)|
  {
    LastUsesMembers(history);
    NoRepeatsSize(LastUses(history));
    assert Elements(history) == Elements(LastUses(history));
  }

  lemma {:induction false} NoRepeatsSize<K(!new)>(xs: seq<K>)
    requires NoRepeats(xs)
    ensures |Elements(xs)| == |xs|
  {
    if xs != [] {
      NoRepeatsSize(Init(xs));
      assert xs == Init(xs) + [Last(xs)];
      assert Elements(xs) == Elements(Init(xs)) + {Last(xs)};
    }
  }

  lemma NeverRequested<K(!new)>(capacity: nat, history: seq<K>, k: K)
    requires k !in history
    ensures k !in OrderAfter(capacity, history)
  {
    OrderIsLatestUses(capacity, history);
    LastUsesMembers(history);
  }

  /** A request hits a store of capacity c > 0 exactly when fewer than c distinct keys were
      requested since the last request of the same key. */
  lemma HitIffRecent<K(!new)>(capacity: nat, history: seq<K>, k: K, p: nat)
    requires capacity > 0 && LastAt(history, k, p)
    ensures k in OrderAfter(capacity, history) <==> |Elements(history[p + 1..])| < capacity
  {
    var uses, since := LastUses(history), LastUses(history[p + 1..]);
    OrderIsLatestUses(capacity, history);
    LastUsesSuffix(history, p);
    assert history[p..] == [k] + history[p + 1..];
    assert LastUses(history[p..]) == [k] + since;
    LastUsesMembers(history);
    DistinctUses(history[p + 1..]);
    var i := |uses| - |since| - 1;
    assert uses[i] == (uses[i..])[0] == k;
    if |since| < capacity {
      assert k in Latest(uses, capacity) by {
        if capacity < |uses| { assert Latest(uses, capacity)[i - (|uses| - capacity)] == k; }
      }
    } else {
      assert forall j :: i < j < |uses| ==> uses[j] != k;
    }
  }
}
