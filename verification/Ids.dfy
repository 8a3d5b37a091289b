// Identifiers of graph entities: 32-bit machine integers, as in
// crates/habitat-graph-core/src/ids.rs.

module Ids {
  const U32_MAX: int := 0xFFFF_FFFF
  const U32_SIZE: int := 0x1_0000_0000

  type U32 = x: int | 0 <= x < U32_SIZE

  type NodeId = U32
  type CommunityId = U32

  /** The content-address of a label. Every result in this project is proved for an
      arbitrary such function, hence also for one with collisions. */
  type ContentId = string -> U32

  function WrappingAddOne(x: U32): U32 {
    if x == U32_MAX then 0 else x + 1
  }

  function SaturatingAddOne(x: U32): U32 {
    if x == U32_MAX then U32_MAX else x + 1
  }

  /** A set of ids below `n` has at most `n` elements. */
  lemma {:induction false} SizeAtMost(ids: set<U32>, n: nat)
    requires forall x :: x in ids ==> x < n
    ensures |ids| <= n
  {
    if n == 0 {
      assert ids == {};
    } else {
      SizeAtMost(ids - {n - 1}, n - 1);
    }
  }

  /** A set holding every id below `n` has at least `n` elements. */
  lemma {:induction false} SizeAtLeast(ids: set<U32>, n: nat)
    requires n <= U32_SIZE
    requires forall x: U32 :: x < n ==> x in ids
    ensures n <= |ids|
  {
    if n != 0 {
      SizeAtLeast(ids - {n - 1}, n - 1);
    }
  }

  /** Fewer than 2^32 ids in use leave some id free. */
  lemma FreeIdExists(used: set<U32>)
    requires |used| < U32_SIZE
    ensures exists x: U32 :: x !in used
  {
    if forall x: U32 :: x in used {
      SizeAtLeast(used, U32_SIZE);
    }
  }

  lemma IdSetBound(used: set<U32>)
    ensures |used| <= U32_SIZE
  {
    SizeAtMost(used, U32_SIZE);
  }
}
