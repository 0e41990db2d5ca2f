/** How blocks tile the payload of a heap.  The payload is a set P of addresses, in which each cluster
    is a maximal run of consecutive addresses; blk maps the start of every block to its size. */
module Partitions {

  type Blocks = map<int, int>

  /** The addresses from lo up to hi. */
  ghost function Span(lo: int, hi: int): (S: set<int>)
    ensures forall a :: a in S <==> lo <= a < hi
    decreases hi - lo
  {
    if lo >= hi then {} else {lo} + Span(lo + 1, hi)
  }

  lemma {:induction false} SpanSize(lo: int, hi: int)
    requires lo <= hi
    ensures |Span(lo, hi)| == hi - lo
    decreases hi - lo
  {
    if lo < hi { SpanSize(lo + 1, hi); }
  }

  function EndOf(blk: Blocks, s: int): int
    requires s in blk
  {
    s + blk[s]
  }

  /** Address a lies inside the block that starts at s. */
  predicate Inside(blk: Blocks, s: int, a: int) {
    s in blk && s <= a < s + blk[s]
  }

  /** The blocks are non-empty, disjoint, inside the payload, and leave no payload cell over: a cluster
      starts with a block, and where a block ends the next one starts or the cluster ends. */
  ghost predicate Partition(P: set<int>, blk: Blocks) {
    && (forall s :: s in blk ==> 1 <= blk[s])
    && (forall s, a {:trigger Inside(blk, s, a)} :: Inside(blk, s, a) ==> a in P)
    && (forall s, t :: s in blk && t in blk && s < t ==> s + blk[s] <= t)
    && (forall s {:trigger EndOf(blk, s)} :: s in blk && EndOf(blk, s) in P ==> EndOf(blk, s) in blk)
    && (forall a {:trigger a in blk} :: a in P && a - 1 !in P ==> a in blk)
  }

  /** The block boundary after a run of cells that starts at a block. */
  ghost predicate Boundary(P: set<int>, blk: Blocks, a: int) {
    a in P ==> a in blk
  }

  /** Every payload cell is inside exactly one block. */
  lemma {:induction false} Covered(P: set<int>, blk: Blocks, a: int) returns (s: int)
    requires Partition(P, blk) && a in P
    requires forall x :: x in P ==> 0 < x
    ensures Inside(blk, s, a)
    decreases a
  {
    if a in blk {
      s := a;
    } else {
      s := Covered(P, blk, a - 1);
      assert EndOf(blk, s) == a ==> a in blk;
    }
  }

  /** The blocks from a up to b become one block. */
  function Merge(blk: Blocks, a: int, b: int): Blocks
    requires a < b
  {
    (map s | s in blk && !(a <= s < b) :: blk[s])[a := b - a]
  }

  lemma MergeKeepsPartition(P: set<int>, blk: Blocks, a: int, b: int)
    requires Partition(P, blk)
    requires a < b && a in blk && Boundary(P, blk, b)
    requires forall x :: a <= x < b ==> x in P
    ensures Partition(P, Merge(blk, a, b))
  {
    var blk' := Merge(blk, a, b);
    forall s, x | Inside(blk', s, x) ensures x in P {
      assert s != a ==> Inside(blk, s, x);
    }
    MergeEnds(P, blk, blk', a, b);
  }

  lemma MergeEnds(P: set<int>, blk: Blocks, blk': Blocks, a: int, b: int)
    requires Partition(P, blk)
    requires a < b && a in blk && Boundary(P, blk, b)
    requires forall s :: s in blk' <==> s == a || (s in blk && !(a <= s < b))
    requires forall s :: s in blk' ==> blk'[s] == if s == a then b - a else blk[s]
    ensures forall s, t :: s in blk' && t in blk' && s < t ==> s + blk'[s] <= t
    ensures forall s {:trigger EndOf(blk', s)} :: s in blk' && EndOf(blk', s) in P ==> EndOf(blk', s) in blk'
  {
    assert forall s :: s in blk && s < a ==> s + blk[s] <= a;
    forall s | s in blk' && EndOf(blk', s) in P ensures EndOf(blk', s) in blk' {
      assert s != a ==> EndOf(blk, s) == EndOf(blk', s);
    }
  }

  /** The block at a is cut after n cells. */
  function Split(blk: Blocks, a: int, n: nat): Blocks
    requires a in blk && n < blk[a]
  {
    blk[a := n][a + n := blk[a] - n]
  }

  lemma SplitKeepsPartition(P: set<int>, blk: Blocks, a: int, n: nat)
    requires Partition(P, blk)
    requires a in blk && 1 <= n < blk[a]
    ensures Partition(P, Split(blk, a, n))
    ensures a + n !in blk
  {
    var blk' := Split(blk, a, n);
    assert forall t :: t in blk && a < t ==> a + blk[a] <= t;
    assert forall t :: t in blk && t < a ==> t + blk[t] <= a;
    forall s, x | Inside(blk', s, x) ensures x in P {
      assert Inside(blk, s, x) || Inside(blk, a, x);
    }
    forall s | s in blk' && EndOf(blk', s) in P ensures EndOf(blk', s) in blk' {
      var endA := EndOf(blk, a);
      assert s != a && s != a + n ==> EndOf(blk, s) == EndOf(blk', s);
    }
  }

  /** Non-empty blocks that cover every payload cell exactly once, and nothing else, are a partition. */
  lemma TilingIsPartition(P: set<int>, blk: Blocks)
    requires forall s :: s in blk ==> 1 <= blk[s]
    requires forall s, a {:trigger Inside(blk, s, a)} :: Inside(blk, s, a) ==> a in P
    requires forall a :: a in P ==> exists s :: Inside(blk, s, a)
    requires forall s, t, a {:trigger Inside(blk, s, a), Inside(blk, t, a)} :: Inside(blk, s, a) && Inside(blk, t, a) ==> s == t
    ensures Partition(P, blk)
  {
    forall s, t | s in blk && t in blk && s < t ensures s + blk[s] <= t {
      assert Inside(blk, t, t);
      var both := Inside(blk, s, t);
    }
    forall s | s in blk && EndOf(blk, s) in P ensures EndOf(blk, s) in blk {
      var e := EndOf(blk, s);
      var t :| Inside(blk, t, e);
      assert Inside(blk, s, e - 1);
      var both := Inside(blk, t, e - 1);
    }
    forall a | a in P && a - 1 !in P ensures a in blk {
      var t :| Inside(blk, t, a);
      var below := Inside(blk, t, a - 1);
    }
  }

  /** Blocks of payloads without common cells do not overlap. */
  lemma BlocksApart(P: set<int>, blk: Blocks, Q: set<int>, more: Blocks, s: int, t: int)
    requires Partition(P, blk) && Partition(Q, more) && P !! Q && s in blk && t in more
    ensures s in P && t in Q && (s < t ==> s + blk[s] <= t) && (t < s ==> t + more[t] <= s)
  {
    assert Inside(blk, s, s) && Inside(more, t, t);
    var overT, overS := Inside(blk, s, t), Inside(more, t, s);
  }

  /** Where a block ends inside two payloads that do not touch, the next one of its own payload starts. */
  lemma EndsApart(P: set<int>, blk: Blocks, Q: set<int>, s: int)
    requires Partition(P, blk) && s in blk && forall a :: a in P ==> a + 1 !in Q
    ensures EndOf(blk, s) in P + Q ==> EndOf(blk, s) in blk
  {
    assert Inside(blk, s, EndOf(blk, s) - 1);
  }

  /** Two partitions of payloads that do not touch make up one. */
  lemma PartitionsJoined(P: set<int>, blk: Blocks, Q: set<int>, more: Blocks)
    requires Partition(P, blk) && Partition(Q, more) && P !! Q
    requires (forall a :: a in P ==> a + 1 !in Q) && (forall a :: a in Q ==> a + 1 !in P)
    ensures Partition(P + Q, blk + more) && blk.Keys !! more.Keys
  {
    forall s, t | s in blk && t in more
      ensures s in P && t in Q && (s < t ==> s + blk[s] <= t) && (t < s ==> t + more[t] <= s)
    {
      BlocksApart(P, blk, Q, more, s, t);
    }
    forall s | s in blk && s in more ensures false { BlocksApart(P, blk, Q, more, s, s); }
    forall s | s in blk ensures EndOf(blk, s) in P + Q ==> EndOf(blk, s) in blk { EndsApart(P, blk, Q, s); }
    forall s | s in more ensures EndOf(more, s) in P + Q ==> EndOf(more, s) in more { EndsApart(Q, more, P, s); }
    JoinedParts(P + Q, blk, more, blk + more);
  }

  lemma JoinedParts(P: set<int>, blk: Blocks, more: Blocks, both: Blocks)
    requires both == blk + more && blk.Keys !! more.Keys
    requires (forall s :: s in blk ==> 1 <= blk[s]) && (forall s :: s in more ==> 1 <= more[s])
    requires forall s, t :: s in blk && t in blk && s < t ==> s + blk[s] <= t
    requires forall s, t :: s in more && t in more && s < t ==> s + more[s] <= t
    requires forall s, t :: s in blk && t in more ==> (s < t ==> s + blk[s] <= t) && (t < s ==> t + more[t] <= s)
    requires forall s {:trigger EndOf(blk, s)} :: s in blk && EndOf(blk, s) in P ==> EndOf(blk, s) in blk
    requires forall s {:trigger EndOf(more, s)} :: s in more && EndOf(more, s) in P ==> EndOf(more, s) in more
    requires forall s, a {:trigger Inside(blk, s, a)} :: Inside(blk, s, a) ==> a in P
    requires forall s, a {:trigger Inside(more, s, a)} :: Inside(more, s, a) ==> a in P
    requires forall a {:trigger a in both} :: a in P && a - 1 !in P ==> a in blk || a in more
    ensures Partition(P, both)
  {
    forall s | s in both ensures s in blk ==> both[s] == blk[s] { }
    forall s, a | Inside(both, s, a) ensures a in P {
      assert Inside(if s in more then more else blk, s, a);
    }
    forall s | s in both && EndOf(both, s) in P ensures EndOf(both, s) in both {
      assert EndOf(if s in more then more else blk, s) == EndOf(both, s);
    }
  }
}
