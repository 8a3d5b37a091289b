// Sequences with keys: first-occurrence-wins filtering and stable sorting, the two
// operations every graph of this program goes through before it is written.

module Lists {

  function Map<A, B>(f: A -> B, xs: seq<A>): (ys: seq<B>)
    ensures |ys| == |xs| && forall i :: 0 <= i < |xs| ==> ys[i] == f(xs[i])
  {
    seq(|xs|, i requires 0 <= i < |xs| => f(xs[i]))
  }

  lemma MapAppend<A, B>(f: A -> B, xs: seq<A>, ys: seq<A>)
    ensures Map(f, xs + ys) == Map(f, xs) + Map(f, ys)
  {
  }

  function Init<A>(xs: seq<A>): seq<A>
    requires xs != []
  {
    xs[..|xs| - 1]
  }

  function Last<A>(xs: seq<A>): A
    requires xs != []
  {
    xs[|xs| - 1]
  }

  lemma Snoc<A>(xs: seq<A>, x: A)
    ensures Init(xs + [x]) == xs && Last(xs + [x]) == x
  {
  }

  lemma AppendAssoc<A>(xs: seq<A>, ys: seq<A>, zs: seq<A>)
    ensures (xs + ys) + zs == xs + (ys + zs)
  {
  }

  function FlatMap<A, B>(f: A -> seq<B>, xs: seq<A>): seq<B> {
    if xs == [] then [] else FlatMap(f, Init(xs)) + f(Last(xs))
  }

  lemma {:induction false} FlatMapAppend<A, B>(f: A -> seq<B>, xs: seq<A>, ys: seq<A>)
    ensures FlatMap(f, xs + ys) == FlatMap(f, xs) + FlatMap(f, ys)
    decreases |ys|
  {
    if ys == [] {
      assert xs + ys == xs;
    } else {
      FlatMapAppend(f, xs, Init(ys));
      assert xs + ys == xs + Init(ys) + [Last(ys)];
      Snoc(xs + Init(ys), Last(ys));
      assert FlatMap(f, xs + ys) == FlatMap(f, xs) + FlatMap(f, Init(ys)) + f(Last(ys));
    }
  }

  lemma FlatMapCons<A, B>(f: A -> seq<B>, x: A, xs: seq<A>)
    ensures FlatMap(f, [x] + xs) == f(x) + FlatMap(f, xs)
  {
    FlatMapAppend(f, [x], xs);
    Snoc([], x);
    assert [] + [x] == [x];
    assert FlatMap(f, []) == [];
    assert FlatMap(f, [x]) == FlatMap(f, []) + f(x);
  }

  function Filter<A>(p: A -> bool, xs: seq<A>): seq<A> {
    if xs == [] then []
    else if p(Last(xs)) then Filter(p, Init(xs)) + [Last(xs)]
    else Filter(p, Init(xs))
  }

  lemma {:induction false} FilterMembers<A(!new)>(p: A -> bool, xs: seq<A>)
    ensures forall x :: x in Filter(p, xs) <==> x in xs && p(x)
  {
    if xs != [] {
      FilterMembers(p, Init(xs));
      assert xs == Init(xs) + [Last(xs)];
    }
  }

  lemma {:induction false} FilterAppend<A>(p: A -> bool, xs: seq<A>, ys: seq<A>)
    ensures Filter(p, xs + ys) == Filter(p, xs) + Filter(p, ys)
    decreases |ys|
  {
    if ys == [] {
      assert xs + ys == xs;
    } else {
      assert xs + ys == xs + Init(ys) + [Last(ys)];
      Snoc(xs + Init(ys), Last(ys));
      FilterAppend(p, xs, Init(ys));
    }
  }

  // ---------------------------------------------------------------- keys

  ghost function Keys<A, K>(key: A -> K, xs: seq<A>): set<K> {
    set x | x in xs :: key(x)
  }

  lemma KeysAppend<A, K>(key: A -> K, xs: seq<A>, ys: seq<A>)
    ensures Keys(key, xs + ys) == Keys(key, xs) + Keys(key, ys)
  {
    forall k | k in Keys(key, xs) + Keys(key, ys)
      ensures k in Keys(key, xs + ys)
    {
      if k in Keys(key, xs) {
        var x :| x in xs && key(x) == k;
        assert x in xs + ys;
      } else {
        var y :| y in ys && key(y) == k;
        assert y in xs + ys;
      }
    }
  }

  lemma SubsetCardinality<A>(a: set<A>, b: set<A>)
    requires a <= b
    ensures |a| <= |b|
  {
    assert b == a + (b - a);
  }

  lemma KeysOneMore<A, K>(key: A -> K, xs: seq<A>, x: A)
    ensures Keys(key, xs + [x]) == Keys(key, xs) + {key(x)}
  {
    KeysAppend(key, xs, [x]);
    assert x in [x];
    assert Keys(key, [x]) == {key(x)};
  }

  lemma KeysSnoc<A, K>(key: A -> K, xs: seq<A>)
    requires xs != []
    ensures Keys(key, xs) == Keys(key, Init(xs)) + {key(Last(xs))}
  {
    assert xs == Init(xs) + [Last(xs)];
    KeysOneMore(key, Init(xs), Last(xs));
  }

  lemma {:induction false} KeysSize<A, K>(key: A -> K, xs: seq<A>)
    ensures |Keys(key, xs)| <= |xs|
  {
    if xs != [] {
      KeysSnoc(key, xs);
      KeysSize(key, Init(xs));
    }
  }

  ghost predicate DistinctBy<A, K>(key: A -> K, xs: seq<A>) {
    forall i, j :: 0 <= i < j < |xs| ==> key(xs[i]) != key(xs[j])
  }

  lemma DistinctInjective<A, K>(key: A -> K, xs: seq<A>, x: A, y: A)
    requires DistinctBy(key, xs) && x in xs && y in xs && key(x) == key(y)
    ensures x == y
  {
    var i :| 0 <= i < |xs| && xs[i] == x;
    var j :| 0 <= j < |xs| && xs[j] == y;
  }

  lemma DistinctOneMore<A, K>(key: A -> K, xs: seq<A>, x: A)
    requires DistinctBy(key, xs) && key(x) !in Keys(key, xs)
    ensures DistinctBy(key, xs + [x])
  {
    forall y | y in xs
      ensures key(y) != key(x)
    {
      assert key(y) in Keys(key, xs);
    }
  }

  lemma LastKeyIsNew<A, K>(key: A -> K, xs: seq<A>)
    requires xs != [] && DistinctBy(key, xs)
    ensures key(Last(xs)) !in Keys(key, Init(xs))
  {
  }

  lemma {:induction false} DistinctSize<A, K>(key: A -> K, xs: seq<A>)
    requires DistinctBy(key, xs)
    ensures |Keys(key, xs)| == |xs|
  {
    if xs != [] {
      KeysSnoc(key, xs);
      DistinctSize(key, Init(xs));
      LastKeyIsNew(key, xs);
    }
  }

  /** The first element of `xs` with key `k`. */
  ghost function FirstBy<A, K>(key: A -> K, xs: seq<A>, k: K): (x: A)
    requires k in Keys(key, xs)
    ensures x in xs && key(x) == k
  {
    KeysSnoc(key, xs);
    if k in Keys(key, Init(xs)) then FirstBy(key, Init(xs), k) else Last(xs)
  }

  lemma {:induction false} FirstByAppend<A, K>(key: A -> K, xs: seq<A>, ys: seq<A>, k: K)
    requires k in Keys(key, xs + ys)
    ensures k in Keys(key, xs) ==> FirstBy(key, xs + ys, k) == FirstBy(key, xs, k)
    ensures k !in Keys(key, xs) ==>
              k in Keys(key, ys) && FirstBy(key, xs + ys, k) == FirstBy(key, ys, k)
    decreases |ys|
  {
    KeysAppend(key, xs, ys);
    if ys == [] {
      assert xs + ys == xs;
    } else {
      assert Init(xs + ys) == xs + Init(ys);
      KeysSnoc(key, ys);
      KeysSnoc(key, xs + ys);
      KeysAppend(key, xs, Init(ys));
      if k in Keys(key, xs + Init(ys)) {
        FirstByAppend(key, xs, Init(ys), k);
      }
    }
  }

  /** `xs[i]` is the first element with its key. */
  ghost predicate FirstAt<A, K>(key: A -> K, xs: seq<A>, i: int) {
    0 <= i < |xs| && forall j :: 0 <= j < i ==> key(xs[j]) != key(xs[i])
  }

  lemma {:induction false} FirstByIndex<A, K>(key: A -> K, xs: seq<A>, k: K) returns (i: nat)
    requires k in Keys(key, xs)
    ensures FirstAt(key, xs, i) && xs[i] == FirstBy(key, xs, k)
  {
    KeysSnoc(key, xs);
    if k in Keys(key, Init(xs)) {
      i := FirstByIndex(key, Init(xs), k);
      assert FirstAt(key, Init(xs), i) && Init(xs)[i] == xs[i];
    } else {
      i := |xs| - 1;
      forall j | 0 <= j < i
        ensures key(xs[j]) != k
      {
        assert Init(xs)[j] == xs[j] && key(Init(xs)[j]) in Keys(key, Init(xs));
      }
    }
  }

  lemma FirstAtIsFirstBy<A, K>(key: A -> K, xs: seq<A>, i: int)
    requires FirstAt(key, xs, i)
    ensures key(xs[i]) in Keys(key, xs) && FirstBy(key, xs, key(xs[i])) == xs[i]
  {
    assert xs[i] in xs;
    var j := FirstByIndex(key, xs, key(xs[i]));
    assert j == i;
  }

  lemma FirstByDistinct<A, K>(key: A -> K, xs: seq<A>, x: A)
    requires DistinctBy(key, xs) && x in xs
    ensures FirstBy(key, xs, key(x)) == x
  {
    DistinctInjective(key, xs, x, FirstBy(key, xs, key(x)));
  }

  /** Filtering on the key keeps the first elements of the surviving keys. */
  lemma {:induction false} FirstByFilter<A(!new), K>(key: A -> K, p: A -> bool, keep: K -> bool, xs: seq<A>, k: K)
    requires forall x :: p(x) == keep(key(x))
    requires k in Keys(key, xs) && keep(k)
    ensures k in Keys(key, Filter(p, xs))
    ensures FirstBy(key, Filter(p, xs), k) == FirstBy(key, xs, k)
  {
    KeysSnoc(key, xs);
    FilterMembers(p, xs);
    FilterMembers(p, Init(xs));
    var f := Filter(p, Init(xs));
    if k in Keys(key, Init(xs)) {
      FirstByFilter(key, p, keep, Init(xs), k);
      if p(Last(xs)) {
        KeysAppend(key, f, [Last(xs)]);
        FirstByAppend(key, f, [Last(xs)], k);
      }
    } else {
      KeysAppend(key, f, [Last(xs)]);
      assert [Last(xs)][0] in [Last(xs)];
      FirstByAppend(key, f, [Last(xs)], k);
    }
  }

  /** Without repetitions, a sequence is determined up to order by its set of elements. */
  lemma {:induction false} DistinctMultiplicity<A>(xs: seq<A>, x: A)
    requires forall i, j :: 0 <= i < j < |xs| ==> xs[i] != xs[j]
    ensures multiset(xs)[x] == if x in xs then 1 else 0
  {
    if xs != [] {
      DistinctMultiplicity(Init(xs), x);
      assert xs == Init(xs) + [Last(xs)];
    }
  }

  // ---------------------------------------------------------------- first occurrence wins

  /** `xs` without the elements whose key occurred before. */
  ghost function DedupBy<A, K>(key: A -> K, xs: seq<A>): seq<A> {
    if xs == [] then []
    else
      var kept := DedupBy(key, Init(xs));
      if key(Last(xs)) in Keys(key, kept) then kept else kept + [Last(xs)]
  }

  /** One step of the filter, in the form a loop over `xs` takes it. */
  lemma DedupStep<A, K>(key: A -> K, xs: seq<A>, i: nat)
    requires i < |xs|
    ensures DedupBy(key, xs[..i + 1]) ==
            (var kept := DedupBy(key, xs[..i]); if key(xs[i]) in Keys(key, kept) then kept else kept + [xs[i]])
    ensures Keys(key, DedupBy(key, xs[..i + 1])) == Keys(key, DedupBy(key, xs[..i])) + {key(xs[i])}
  {
    var kept := DedupBy(key, xs[..i]);
    assert Init(xs[..i + 1]) == xs[..i];
    KeysOneMore(key, kept, xs[i]);
  }

  /** What survives of a prefix survives of the whole, in the same order. */
  lemma {:induction false} DedupKeepsOrder<A, K>(key: A -> K, xs: seq<A>, i: nat)
    requires i <= |xs|
    ensures DedupBy(key, xs[..i]) <= DedupBy(key, xs)
    decreases |xs| - i
  {
    if i == |xs| {
      assert xs[..i] == xs;
    } else {
      DedupKeepsOrder(key, xs, i + 1);
      DedupStep(key, xs, i);
    }
  }

  /** What survives: every key exactly once, represented by its first element. */
  lemma {:induction false} DedupMeaning<A(!new), K>(key: A -> K, xs: seq<A>)
    ensures DistinctBy(key, DedupBy(key, xs))
    ensures Keys(key, DedupBy(key, xs)) == Keys(key, xs)
    ensures forall x :: x in DedupBy(key, xs) <==> key(x) in Keys(key, xs) && x == FirstBy(key, xs, key(x))
  {
    if xs != [] {
      var kept := DedupBy(key, Init(xs));
      var last := Last(xs);
      DedupMeaning(key, Init(xs));
      KeysSnoc(key, xs);
      KeysAppend(key, kept, [last]);
      assert last in [last];
      forall x
        ensures x in DedupBy(key, xs) <==> key(x) in Keys(key, xs) && x == FirstBy(key, xs, key(x))
      {
        if key(x) in Keys(key, Init(xs)) {
          assert x in DedupBy(key, xs) <==> x in kept;
        } else {
          assert x !in kept;
        }
      }
    }
  }

  /** Without repeated keys nothing is removed. */
  lemma {:induction false} DedupDistinct<A, K>(key: A -> K, xs: seq<A>)
    requires DistinctBy(key, xs)
    ensures DedupBy(key, xs) == xs
  {
    if xs != [] {
      DedupDistinct(key, Init(xs));
      LastKeyIsNew(key, xs);
      calc {
        DedupBy(key, xs);
        DedupBy(key, Init(xs)) + [Last(xs)];
        xs;
      }
    }
  }

  // ---------------------------------------------------------------- stable sorting

  /** `le` is a total preorder, which is what a comparison sort asks of its order. */
  ghost predicate TotalPreorder<A(!new)>(le: (A, A) -> bool) {
    && (forall x, y :: le(x, y) || le(y, x))
    && (forall x, y, z :: le(x, y) && le(y, z) ==> le(x, z))
  }

  ghost predicate SortedBy<A>(le: (A, A) -> bool, xs: seq<A>) {
    forall i, j :: 0 <= i < j < |xs| ==> le(xs[i], xs[j])
  }

  ghost predicate StrictlySortedBy<A>(le: (A, A) -> bool, xs: seq<A>) {
    forall i, j :: 0 <= i < j < |xs| ==> le(xs[i], xs[j]) && !le(xs[j], xs[i])
  }

  /** `x` placed before the first element it may precede. */
  function InsertBy<A>(le: (A, A) -> bool, x: A, xs: seq<A>): seq<A> {
    if xs == [] || le(x, xs[0]) then [x] + xs else [xs[0]] + InsertBy(le, x, xs[1..])
  }

  /** The stable sort of `xs`, specifying the standard library's `sort_by`. */
  function SortBy<A>(le: (A, A) -> bool, xs: seq<A>): seq<A> {
    if xs == [] then [] else InsertBy(le, xs[0], SortBy(le, xs[1..]))
  }

  lemma {:induction false} InsertMultiset<A>(le: (A, A) -> bool, x: A, xs: seq<A>)
    ensures multiset(InsertBy(le, x, xs)) == multiset(xs) + multiset{x}
  {
    if xs == [] || le(x, xs[0]) {
    } else {
      InsertMultiset(le, x, xs[1..]);
      assert xs == [xs[0]] + xs[1..];
    }
  }

  lemma {:induction false} SortMultiset<A>(le: (A, A) -> bool, xs: seq<A>)
    ensures multiset(SortBy(le, xs)) == multiset(xs)
  {
    if xs != [] {
      SortMultiset(le, xs[1..]);
      InsertMultiset(le, xs[0], SortBy(le, xs[1..]));
      assert xs == [xs[0]] + xs[1..];
    }
  }

  lemma SortMembers<A(!new)>(le: (A, A) -> bool, xs: seq<A>)
    ensures |SortBy(le, xs)| == |xs|
    ensures forall x :: x in SortBy(le, xs) <==> x in xs
  {
    SortMultiset(le, xs);
    assert |multiset(SortBy(le, xs))| == |multiset(xs)|;
    forall x
      ensures x in SortBy(le, xs) <==> x in xs
    {
      assert x in SortBy(le, xs) <==> x in multiset(SortBy(le, xs));
      assert x in xs <==> x in multiset(xs);
    }
  }

  lemma {:induction false} InsertSorted<A(!new)>(le: (A, A) -> bool, x: A, xs: seq<A>)
    requires TotalPreorder(le) && SortedBy(le, xs)
    ensures SortedBy(le, InsertBy(le, x, xs))
  {
    if xs == [] || le(x, xs[0]) {
    } else {
      InsertSorted(le, x, xs[1..]);
      var rest := InsertBy(le, x, xs[1..]);
      InsertMultiset(le, x, xs[1..]);
      forall j | 0 <= j < |rest|
        ensures le(xs[0], rest[j])
      {
        assert rest[j] in multiset(rest);
        assert rest[j] == x || rest[j] in xs[1..];
      }
    }
  }

  lemma {:induction false} SortSorts<A(!new)>(le: (A, A) -> bool, xs: seq<A>)
    requires TotalPreorder(le)
    ensures SortedBy(le, SortBy(le, xs))
  {
    if xs != [] {
      SortSorts(le, xs[1..]);
      InsertSorted(le, xs[0], SortBy(le, xs[1..]));
    }
  }

  /** Sorted input is left alone, so sorting twice is sorting once. */
  lemma {:induction false} SortOfSorted<A>(le: (A, A) -> bool, xs: seq<A>)
    requires SortedBy(le, xs)
    ensures SortBy(le, xs) == xs
  {
    if xs != [] {
      SortOfSorted(le, xs[1..]);
      assert xs == [xs[0]] + xs[1..];
    }
  }

  /** Distinct keys stay distinct through sorting. */
  lemma {:induction false} SortDistinct<A(!new), K>(le: (A, A) -> bool, key: A -> K, xs: seq<A>)
    requires DistinctBy(key, xs)
    ensures DistinctBy(key, SortBy(le, xs))
  {
    var ys := SortBy(le, xs);
    SortMultiset(le, xs);
    forall i, j | 0 <= i < j < |ys|
      ensures key(ys[i]) != key(ys[j])
    {
      if key(ys[i]) == key(ys[j]) {
        SortMembers(le, xs);
        DistinctInjective(key, xs, ys[i], ys[j]);
        MultiplicityTwo(ys, i, j);
        var p, q := TwoOccurrences(xs, ys[i]);
        assert false;
      }
    }
  }

  lemma MultiplicityTwo<A>(xs: seq<A>, i: int, j: int)
    requires 0 <= i < j < |xs| && xs[i] == xs[j]
    ensures multiset(xs)[xs[i]] >= 2
  {
    assert xs == xs[..i] + [xs[i]] + xs[i + 1..j] + [xs[j]] + xs[j + 1..];
  }

  lemma {:induction false} TwoOccurrences<A>(xs: seq<A>, x: A) returns (p: nat, q: nat)
    requires multiset(xs)[x] >= 2
    ensures p < q < |xs| && xs[p] == xs[q] == x
  {
    assert x in multiset(xs);
    var k :| 0 <= k < |xs| && xs[k] == x;
    assert xs == xs[..k] + [x] + xs[k + 1..];
    assert x in multiset(xs[..k] + xs[k + 1..]);
    var m :| 0 <= m < |xs[..k] + xs[k + 1..]| && (xs[..k] + xs[k + 1..])[m] == x;
    if m < k { p, q := m, k; } else { p, q := k, m + 1; }
  }

  /** A sequence sorted by an order that tells its elements apart is strictly sorted. */
  lemma StrictFromKeys<A(!new), K>(le: (A, A) -> bool, key: A -> K, xs: seq<A>)
    requires SortedBy(le, xs) && DistinctBy(key, xs)
    requires forall x, y :: le(x, y) && le(y, x) ==> key(x) == key(y)
    ensures StrictlySortedBy(le, xs)
  {
  }

  /** Canonical form: a strictly sorted sequence is determined by its elements. */
  lemma {:induction false} StrictlySortedUnique<A(!new)>(le: (A, A) -> bool, xs: seq<A>, ys: seq<A>)
    requires StrictlySortedBy(le, xs) && StrictlySortedBy(le, ys)
    requires forall x :: x in xs <==> x in ys
    ensures xs == ys
  {
    assert |ys| > 0 ==> ys[0] in ys;
    if xs != [] {
      assert xs[0] in ys;
      var j :| 0 <= j < |ys| && ys[j] == xs[0];
      assert ys[0] in xs;
      var i :| 0 <= i < |xs| && xs[i] == ys[0];
      assert i == 0 && j == 0;
      var x := xs[0];
      assert xs == [x] + xs[1..] && ys == [x] + ys[1..];
      assert x !in xs[1..] && x !in ys[1..];
      forall z
        ensures z in xs[1..] <==> z in ys[1..]
      {
        assert z in xs <==> z in ys;
      }
      StrictlySortedUnique(le, xs[1..], ys[1..]);
    }
  }

  // ---------------------------------------------------------------- stability

  lemma FilterOne<A>(p: A -> bool, x: A)
    ensures Filter(p, [x]) == if p(x) then [x] else []
  {
    Snoc([], x);
    assert [] + [x] == [x] && Filter(p, []) == [];
  }

  lemma FilterCons<A>(p: A -> bool, x: A, xs: seq<A>)
    ensures Filter(p, [x] + xs) == (if p(x) then [x] else []) + Filter(p, xs)
  {
    FilterAppend(p, [x], xs);
    FilterOne(p, x);
  }

  lemma {:induction false} InsertStable<A(!new)>(le: (A, A) -> bool, p: A -> bool, x: A, xs: seq<A>)
    requires forall y, z :: p(y) && p(z) ==> le(y, z)
    ensures Filter(p, InsertBy(le, x, xs)) == (if p(x) then [x] else []) + Filter(p, xs)
  {
    if xs == [] || le(x, xs[0]) {
      FilterCons(p, x, xs);
    } else {
      InsertStable(le, p, x, xs[1..]);
      FilterCons(p, xs[0], InsertBy(le, x, xs[1..]));
      FilterCons(p, xs[0], xs[1..]);
      assert xs == [xs[0]] + xs[1..];
    }
  }

  /** Elements the order does not tell apart keep their relative order. */
  lemma {:induction false} SortStable<A(!new)>(le: (A, A) -> bool, p: A -> bool, xs: seq<A>)
    requires forall y, z :: p(y) && p(z) ==> le(y, z)
    ensures Filter(p, SortBy(le, xs)) == Filter(p, xs)
  {
    if xs != [] {
      SortStable(le, p, xs[1..]);
      InsertStable(le, p, xs[0], SortBy(le, xs[1..]));
      FilterCons(p, xs[0], xs[1..]);
      assert xs == [xs[0]] + xs[1..];
    }
  }

  lemma {:induction false} FilterMap<A(!new), B(!new)>(p: B -> bool, q: A -> bool, f: A -> B, xs: seq<A>)
    requires forall x :: p(f(x)) == q(x)
    ensures Filter(p, Map(f, xs)) == Map(f, Filter(q, xs))
  {
    if xs != [] {
      FilterMap(p, q, f, Init(xs));
      assert Init(Map(f, xs)) == Map(f, Init(xs)) && Last(Map(f, xs)) == f(Last(xs));
      MapAppend(f, Filter(q, Init(xs)), [Last(xs)]);
    }
  }

  /** The elements the order does not tell from `x`. */
  ghost function Tied<A>(le: (A, A) -> bool, x: A): A -> bool {
    y => le(x, y) && le(y, x)
  }

  lemma FirstOfSorted<A(!new)>(le: (A, A) -> bool, xs: seq<A>, ys: seq<A>)
    requires TotalPreorder(le) && SortedBy(le, ys) && xs != []
    requires Filter(Tied(le, xs[0]), xs) == Filter(Tied(le, xs[0]), ys)
    ensures ys != [] && le(ys[0], xs[0])
  {
    FilterMembers(Tied(le, xs[0]), xs);
    FilterMembers(Tied(le, xs[0]), ys);
    assert le(xs[0], xs[0]);
    assert xs[0] in Filter(Tied(le, xs[0]), ys);
    var j :| 0 <= j < |ys| && ys[j] == xs[0];
    if j > 0 { assert le(ys[0], ys[j]); }
  }

  /** A sorted sequence is determined by the order of the elements that are tied. */
  lemma {:induction false} SortedByTies<A(!new)>(le: (A, A) -> bool, xs: seq<A>, ys: seq<A>)
    requires TotalPreorder(le) && SortedBy(le, xs) && SortedBy(le, ys)
    requires forall x :: Filter(Tied(le, x), xs) == Filter(Tied(le, x), ys)
    ensures xs == ys
  {
    if xs != [] { FirstOfSorted(le, xs, ys); }
    if ys != [] { FirstOfSorted(le, ys, xs); }
    if xs != [] {
      var x, y, xs', ys' := xs[0], ys[0], xs[1..], ys[1..];
      assert xs == [x] + xs' && ys == [y] + ys';
      FilterCons(Tied(le, x), x, xs');
      FilterCons(Tied(le, x), y, ys');
      assert x == Filter(Tied(le, x), xs)[0] == Filter(Tied(le, x), ys)[0] == y;
      forall z
        ensures Filter(Tied(le, z), xs') == Filter(Tied(le, z), ys')
      {
        FilterCons(Tied(le, z), x, xs');
        FilterCons(Tied(le, z), y, ys');
        assert Filter(Tied(le, z), xs) == Filter(Tied(le, z), ys);
        SameAfterHead(if Tied(le, z)(x) then [x] else [], Filter(Tied(le, z), xs'), Filter(Tied(le, z), ys'));
      }
      SortedByTies(le, xs', ys');
    }
  }

  lemma SameAfterHead<A>(head: seq<A>, xs: seq<A>, ys: seq<A>)
    requires head + xs == head + ys
    ensures xs == ys
  {
    assert xs == (head + xs)[|head|..] && ys == (head + ys)[|head|..];
  }

  lemma {:induction false} MapMultiset<A, B>(f: A -> B, xs: seq<A>, ys: seq<A>)
    requires multiset(xs) == multiset(ys)
    ensures multiset(Map(f, xs)) == multiset(Map(f, ys))
  {
    assert |multiset(xs)| == |xs| && |multiset(ys)| == |ys|;
    if xs != [] {
      var init, x := Init(xs), Last(xs);
      assert xs == init + [x];
      assert x in multiset(ys);
      var before, after := SplitAt(ys, x);
      MapMultiset(f, init, before + after);
      MapAppend(f, init, [x]);
      MapAppend(f, before + [x], after);
      MapAppend(f, before, [x]);
      MapAppend(f, before, after);
    }
  }

  lemma {:induction false} FlatMapMultiset<A, B>(f: A -> seq<B>, xs: seq<A>, ys: seq<A>)
    requires multiset(xs) == multiset(ys)
    ensures multiset(FlatMap(f, xs)) == multiset(FlatMap(f, ys))
  {
    assert |multiset(xs)| == |xs| && |multiset(ys)| == |ys|;
    if xs != [] {
      var init, x := Init(xs), Last(xs);
      assert xs == init + [x];
      assert x in multiset(ys);
      var before, after := SplitAt(ys, x);
      FlatMapMultiset(f, init, before + after);
      FlatMapAppend(f, before + [x], after);
      FlatMapAppend(f, before, after);
      Snoc(before, x);
    }
  }

  // ---------------------------------------------------------------- the same first elements

  /** The same keys, and the same first element of each. */
  ghost predicate SameFirsts<A, K>(key: A -> K, xs: seq<A>, ys: seq<A>) {
    && Keys(key, xs) == Keys(key, ys)
    && forall k :: k in Keys(key, xs) ==> FirstBy(key, xs, k) == FirstBy(key, ys, k)
  }

  lemma SameFirstsAppend<A, K>(key: A -> K, xs: seq<A>, ys: seq<A>, xs': seq<A>, ys': seq<A>)
    requires SameFirsts(key, xs, xs') && SameFirsts(key, ys, ys')
    ensures SameFirsts(key, xs + ys, xs' + ys')
  {
    KeysAppend(key, xs, ys);
    KeysAppend(key, xs', ys');
    forall k | k in Keys(key, xs + ys)
      ensures FirstBy(key, xs + ys, k) == FirstBy(key, xs' + ys', k)
    {
      FirstByAppend(key, xs, ys, k);
      FirstByAppend(key, xs', ys', k);
    }
  }

  // ---------------------------------------------------------------- folds

  function Fold<S, A>(step: (S, A) -> S, start: S, xs: seq<A>): S {
    if xs == [] then start else step(Fold(step, start, Init(xs)), Last(xs))
  }

  ghost predicate Commutes<S(!new), A(!new)>(step: (S, A) -> S) {
    forall s, a, b :: step(step(s, a), b) == step(step(s, b), a)
  }

  lemma FoldOneMore<S, A>(step: (S, A) -> S, start: S, xs: seq<A>, x: A)
    ensures Fold(step, start, xs + [x]) == step(Fold(step, start, xs), x)
  {
    Snoc(xs, x);
  }

  /** With commuting steps an element may be moved to the end. */
  lemma {:induction false} FoldMoveLast<S(!new), A(!new)>(step: (S, A) -> S, start: S, before: seq<A>, a: A, after: seq<A>)
    requires Commutes(step)
    ensures Fold(step, start, before + [a] + after) == Fold(step, start, before + after + [a])
    decreases |after|
  {
    if after == [] {
      assert before + [a] + after == before + after + [a];
    } else {
      var init, b := Init(after), Last(after);
      FoldMoveLast(step, start, before, a, init);
      assert before + [a] + after == before + [a] + init + [b];
      assert before + after + [a] == before + init + [b] + [a];
      FoldOneMore(step, start, before + [a] + init, b);
      FoldOneMore(step, start, before + init, a);
      FoldOneMore(step, start, before + init, b);
      FoldOneMore(step, start, before + init + [b], a);
    }
  }

  lemma SplitAt<A>(xs: seq<A>, x: A) returns (before: seq<A>, after: seq<A>)
    requires x in xs
    ensures xs == before + [x] + after
    ensures multiset(before + after) == multiset(xs) - multiset{x}
  {
    var k :| 0 <= k < |xs| && xs[k] == x;
    before, after := xs[..k], xs[k + 1..];
    assert xs == before + [x] + after;
  }

  /** With commuting steps the result is a function of the multiset of elements. */
  lemma {:induction false} FoldOrderFree<S(!new), A(!new)>(step: (S, A) -> S, start: S, xs: seq<A>, ys: seq<A>)
    requires Commutes(step)
    requires multiset(xs) == multiset(ys)
    ensures Fold(step, start, xs) == Fold(step, start, ys)
    decreases |xs|
  {
    assert |multiset(xs)| == |xs| && |multiset(ys)| == |ys|;
    if xs != [] {
      assert xs == Init(xs) + [Last(xs)];
      assert Last(xs) in multiset(ys);
      var before, after := SplitAt(ys, Last(xs));
      FoldMoveLast(step, start, before, Last(xs), after);
      FoldOrderFree(step, start, Init(xs), before + after);
      FoldOneMore(step, start, before + after, Last(xs));
    }
  }
}
