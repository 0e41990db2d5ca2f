/** The reclamation walk over one cluster, seen on the contents of memory. */
module Sweeping {
  import opened HeapCells
  import opened FreeBlocks
  import opened Partitions

  /** The blocks in blk have the sizes written in memory, and lie above the null address. */
  ghost predicate SizesMatch(m: Memory, blk: Blocks) {
    forall s :: s in blk ==> 0 < s < |m| && m[s].size == blk[s]
  }

  /** Address a is inside a block that was not marked. */
  ghost predicate InDead(m: Memory, blk: Blocks, a: int)
    requires SizesMatch(m, blk)
  {
    exists s :: Inside(blk, s, a) && !m[s].flags.alive
  }

  /** What the walk does to a block that was marked: the mark is cleared, except on event blocks. */
  function Unmarked(c: Cell): Cell {
    if c.flags.event then c else c.(flags := c.flags.(alive := false))
  }

  /** The cells of the cluster after the walk has passed ptr; F are the free blocks built so far. */
  ghost predicate SweptCells(m0: Memory, m: Memory, lo: int, hi: int, blk: Blocks, F: set<int>, ptr: int)
    requires SizesMatch(m0, blk)
  {
    && |m| == |m0|
    && (forall a {:trigger m[a]} :: 0 <= a < |m| && a !in F && a != lo - 1 && a != hi ==>
          m[a] == if lo <= a < ptr && a in blk && m0[a].flags.alive then Unmarked(m0[a]) else m0[a])
    && (forall a {:trigger m[a]} :: a == lo - 1 || a == hi ==> 0 <= a < |m| && m[a] == m0[a].(word := m[a].word))
  }

  /** The blocks of the heap once the walk over [lo, hi) has passed ptr. */
  ghost predicate SweptBlocks(m0: Memory, m: Memory, lo: int, hi: int, blk: Blocks, blk': Blocks, F: set<int>, ptr: int)
    requires SizesMatch(m0, blk)
  {
    && (forall s :: s in blk' <==> s in F || (s in blk && (lo <= s < ptr ==> m0[s].flags.alive)))
    && (forall s :: s in blk' && s !in F ==> blk'[s] == blk[s])
    && SizesMatch(m, blk')
  }

  ghost predicate SweptFree(m0: Memory, m: Memory, lo: int, hi: int, blk: Blocks, F: set<int>, ptr: int)
    requires SizesMatch(m0, blk) && |m| == |m0|
  {
    && 0 <= lo
    && (forall f :: f in F ==> lo <= f < |m| && IsFree(m[f]) && 1 <= m[f].size && f + m[f].size <= ptr)
    && (forall f, g :: f in F && g in F && f < g ==> f + m[f].size < g)
    && (forall f :: f in F && f + m[f].size == ptr ==> ptr == hi || (0 <= ptr < |m0| && m0[ptr].flags.alive))
    && (forall a :: lo <= a < ptr ==> (InFree(m, F, a) <==> InDead(m0, blk, a)))
  }

  ghost predicate SweepInv(m0: Memory, m: Memory, P: set<int>, lo: int, hi: int, blk: Blocks, blk': Blocks,
          F: set<int>, ptr: int, last: int)
    requires SizesMatch(m0, blk)
  {
    && lo <= ptr <= hi && last < ptr && (ptr < hi ==> ptr in blk)
    && SweptCells(m0, m, lo, hi, blk, F, ptr)
    && SweptFree(m0, m, lo, hi, blk, F, ptr)
    && SweptBlocks(m0, m, lo, hi, blk, blk', F, ptr)
    && Partition(P, blk')
    && OpenLinked(m, lo - 1, last, F)
  }

  ghost predicate ClusterIn(m: Memory, P: set<int>, lo: int, hi: int) {
    && 1 < lo <= hi < |m| && hi - lo < SIZE_LIMIT
    && lo - 1 !in P && hi !in P
    && (forall a :: lo <= a < hi ==> a in P)
  }

  /** What the lemmas below assume of the heap before the walk. */
  ghost predicate SweepPre(m0: Memory, P: set<int>, lo: int, hi: int, blk: Blocks) {
    && ClusterIn(m0, P, lo, hi) && SizesMatch(m0, blk) && Partition(P, blk)
    && (forall s :: s in blk && m0[s].flags.alive ==> m0[s].dataType != FreeBlock)
  }

  lemma BlockFits(P: set<int>, lo: int, hi: int, blk: Blocks, s: int)
    requires Partition(P, blk) && hi !in P && s in blk && s < hi
    ensures s + blk[s] <= hi && (s + blk[s] < hi && lo <= s && (forall a :: lo <= a < hi ==> a in P) ==> s + blk[s] in blk)
    ensures forall t :: t in blk && s < t ==> s + blk[s] <= t
    ensures forall t, a {:trigger Inside(blk, t, a)} :: s <= a < s + blk[s] && Inside(blk, t, a) ==> t == s
  {
    var crossing := Inside(blk, s, hi);
    var e := EndOf(blk, s);
  }

  /** A marked block is kept and the walk moves past it. */
  lemma SweepLive(m0: Memory, m: Memory, m': Memory, P: set<int>, lo: int, hi: int, blk: Blocks, blk': Blocks,
          F: set<int>, ptr: int, last: int)
    requires SweepPre(m0, P, lo, hi, blk)
    requires SweepInv(m0, m, P, lo, hi, blk, blk', F, ptr, last)
    requires ptr < hi && m0[ptr].flags.alive
    requires m' == m[ptr := Unmarked(m[ptr])]
    ensures SweepInv(m0, m', P, lo, hi, blk, blk', F, ptr + blk[ptr], last)
  {
    assert ptr !in F && m[ptr] == m0[ptr];
    BlockFits(P, lo, hi, blk, ptr);
    OpenLinkedFrame(m, m', lo - 1, last, F);
    SweepLiveFree(m0, m, m', P, lo, hi, blk, F, ptr);
  }

  lemma SweepLiveFree(m0: Memory, m: Memory, m': Memory, P: set<int>, lo: int, hi: int, blk: Blocks, F: set<int>, ptr: int)
    requires SweepPre(m0, P, lo, hi, blk)
    requires lo <= ptr < hi && ptr in blk && m0[ptr].flags.alive && ptr !in F
    requires |m| == |m0| && SweptFree(m0, m, lo, hi, blk, F, ptr)
    requires m' == m[ptr := Unmarked(m[ptr])]
    ensures SweptFree(m0, m', lo, hi, blk, F, ptr + blk[ptr])
  {
    BlockFits(P, lo, hi, blk, ptr);
    forall a | lo <= a < ptr + blk[ptr] ensures InFree(m', F, a) <==> InDead(m0, blk, a) {
      if a < ptr {
        FreeCoverFrame(m, m', F, a);
      } else {
        assert Inside(blk, ptr, a);
      }
    }
  }

  lemma FreeCoverFrame(m: Memory, m': Memory, F: set<int>, a: int)
    requires forall f :: f in F ==> 0 <= f < |m|
    requires |m'| == |m| && forall f :: f in F ==> m'[f].size == m[f].size
    ensures InFree(m', F, a) <==> InFree(m, F, a)
  {
    if InFree(m, F, a) {
      var f :| f in F && f <= a < f + m[f].size;
      assert m'[f].size == m[f].size;
    }
  }

  /** A maximal run of unmarked blocks, from ptr to next. */
  ghost predicate DeadRun(m0: Memory, blk: Blocks, lo: int, hi: int, ptr: int, next: int)
    requires SizesMatch(m0, blk)
  {
    && lo <= ptr < next <= hi && ptr in blk && !m0[ptr].flags.alive
    && (next < hi ==> next in blk)
    && (forall a :: ptr <= a < next ==> InDead(m0, blk, a))
  }

  /** A run of unmarked blocks becomes one free block at the end of the list. */
  lemma SweepDead(m0: Memory, m: Memory, m': Memory, P: set<int>, lo: int, hi: int, blk: Blocks, blk': Blocks,
          F: set<int>, ptr: int, last: int, next: int)
    requires SweepPre(m0, P, lo, hi, blk)
    requires SweepInv(m0, m, P, lo, hi, blk, blk', F, ptr, last)
    requires DeadRun(m0, blk, lo, hi, ptr, next) && (next < hi ==> m0[next].flags.alive)
    requires m' == m[ptr := SetPrev(FreeId(m[ptr], next - ptr), last)][last := SetNext(m[last], ptr)]
    ensures SweepInv(m0, m', P, lo, hi, blk, Merge(blk', ptr, next), F + {ptr}, next, ptr)
  {
    assert ptr !in F;
    SweepDeadCells(m0, m, m', P, lo, hi, blk, F, ptr, last, next);
    SweepDeadPartition(m0, m, P, lo, hi, blk, blk', F, ptr, next);
    SweepDeadFree(m0, m, m', lo, hi, blk, F, ptr, last, next);
    SweepDeadBlocks(m0, m, m', P, lo, hi, blk, blk', F, ptr, last, next);
  }

  lemma SweepDeadCells(m0: Memory, m: Memory, m': Memory, P: set<int>, lo: int, hi: int, blk: Blocks, F: set<int>,
          ptr: int, last: int, next: int)
    requires SizesMatch(m0, blk) && ClusterIn(m0, P, lo, hi)
    requires SweptCells(m0, m, lo, hi, blk, F, ptr) && OpenLinked(m, lo - 1, last, F)
    requires DeadRun(m0, blk, lo, hi, ptr, next) && last < ptr && Partition(P, blk)
    requires m' == m[ptr := SetPrev(FreeId(m[ptr], next - ptr), last)][last := SetNext(m[last], ptr)]
    ensures SweptCells(m0, m', lo, hi, blk, F + {ptr}, next)
    ensures OpenLinked(m', lo - 1, ptr, F + {ptr})
  {
    OpenLinkedAppend(m, m', lo - 1, last, F, ptr);
    DeadRunDead(m0, P, blk, lo, hi, ptr, next);
  }

  lemma DeadRunDead(m0: Memory, P: set<int>, blk: Blocks, lo: int, hi: int, ptr: int, next: int)
    requires SizesMatch(m0, blk) && Partition(P, blk) && DeadRun(m0, blk, lo, hi, ptr, next)
    ensures forall s :: ptr <= s < next && s in blk ==> !m0[s].flags.alive
  {
    forall s | ptr <= s < next && s in blk ensures !m0[s].flags.alive {
      assert InDead(m0, blk, s);
      var t :| Inside(blk, t, s) && !m0[t].flags.alive;
    }
  }

  lemma SweepDeadPartition(m0: Memory, m: Memory, P: set<int>, lo: int, hi: int, blk: Blocks, blk': Blocks,
          F: set<int>, ptr: int, next: int)
    requires SizesMatch(m0, blk) && ClusterIn(m0, P, lo, hi)
    requires SweptBlocks(m0, m, lo, hi, blk, blk', F, ptr) && Partition(P, blk')
    requires DeadRun(m0, blk, lo, hi, ptr, next)
    ensures Partition(P, Merge(blk', ptr, next))
  {
    MergeKeepsPartition(P, blk', ptr, next);
  }

  lemma SweepDeadFree(m0: Memory, m: Memory, m': Memory, lo: int, hi: int, blk: Blocks, F: set<int>, ptr: int,
          last: int, next: int)
    requires SizesMatch(m0, blk) && |m| == |m0| && hi < |m| && hi - lo < SIZE_LIMIT
    requires SweptFree(m0, m, lo, hi, blk, F, ptr)
    requires DeadRun(m0, blk, lo, hi, ptr, next) && (next < hi ==> m0[next].flags.alive)
    requires ptr !in F && 0 <= last < ptr
    requires m' == m[ptr := SetPrev(FreeId(m[ptr], next - ptr), last)][last := SetNext(m[last], ptr)]
    ensures SweptFree(m0, m', lo, hi, blk, F + {ptr}, next)
  {
    var F' := F + {ptr};
    assert forall f :: f in F ==> m'[f].size == m[f].size;
    forall a | lo <= a < next ensures InFree(m', F', a) <==> InDead(m0, blk, a) {
      if a < ptr {
        FreeCoverFrame(m, m', F, a);
        if InFree(m', F', a) {
          var f :| f in F' && f <= a < f + m'[f].size;
          assert f in F;
        }
        if InFree(m', F, a) {
          var f :| f in F && f <= a < f + m'[f].size;
          assert f in F';
        }
      } else {
        assert ptr in F';
      }
    }
  }

  lemma SweepDeadBlocks(m0: Memory, m: Memory, m': Memory, P: set<int>, lo: int, hi: int, blk: Blocks, blk': Blocks,
          F: set<int>, ptr: int, last: int, next: int)
    requires SizesMatch(m0, blk) && |m| == |m0| && hi < |m| && hi - lo < SIZE_LIMIT
    requires Partition(P, blk)
    requires SweptBlocks(m0, m, lo, hi, blk, blk', F, ptr)
    requires DeadRun(m0, blk, lo, hi, ptr, next)
    requires ptr !in F && 0 <= last < ptr
    requires forall f :: f in F ==> f < ptr
    requires m' == m[ptr := SetPrev(FreeId(m[ptr], next - ptr), last)][last := SetNext(m[last], ptr)]
    ensures SweptBlocks(m0, m', lo, hi, blk, Merge(blk', ptr, next), F + {ptr}, next)
  {
    var b := Merge(blk', ptr, next);
    DeadRunDead(m0, P, blk, lo, hi, ptr, next);
    forall s ensures s in b <==> s in F + {ptr} || (s in blk && (lo <= s < next ==> m0[s].flags.alive)) {
    }
  }

  /** The walk has reached the end: the list is closed, and exactly the unmarked cells are free. */
  lemma SweepDone(m0: Memory, m: Memory, m': Memory, P: set<int>, lo: int, hi: int, blk: Blocks, blk': Blocks,
          F: set<int>, last: int)
    requires SweepPre(m0, P, lo, hi, blk)
    requires SweepInv(m0, m, P, lo, hi, blk, blk', F, hi, last)
    requires |m'| == |m| && m'[last] == SetNext(m[last], hi) && m'[hi] == m[hi].(word := Link(NULL, last))
    requires forall a :: 0 <= a < |m| && a != last && a != hi ==> m'[a] == m[a]
    ensures FreeListOk(m', lo - 1, hi, F)
    ensures SweptCells(m0, m', lo, hi, blk, F, hi)
    ensures SweptBlocks(m0, m', lo, hi, blk, blk', F, hi)
    ensures forall a :: lo <= a < hi ==> (InFree(m', F, a) <==> InDead(m0, blk, a))
  {
    OpenLinkedClose(m, m', lo - 1, last, hi, F);
    var atEnd := Inside(blk', hi, hi);
    forall a | lo <= a < hi ensures InFree(m', F, a) <==> InDead(m0, blk, a) {
      FreeCoverFrame(m, m', F, a);
    }
  }

  // ---------- A cluster between operations ----------

  /** The free blocks of a cluster. */
  ghost function FreeOf(m: Memory, blk: Blocks, lo: int, hi: int): set<int>
    requires SizesMatch(m, blk)
  {
    set s | s in blk && lo <= s < hi && m[s].dataType == FreeBlock
  }

  /** Blocks tile the heap, and only free blocks carry the free type. */
  ghost predicate HeapShape(m: Memory, P: set<int>, blk: Blocks) {
    && Partition(P, blk) && SizesMatch(m, blk)
    && (forall s :: s in blk && m[s].dataType == FreeBlock ==> IsFree(m[s]))
  }

  ghost predicate ClusterOk(m: Memory, P: set<int>, blk: Blocks, lo: int, hi: int) {
    && HeapShape(m, P, blk) && ClusterIn(m, P, lo, hi)
    && FreeListOk(m, lo - 1, hi, FreeOf(m, blk, lo, hi))
  }

  /** The result of reclaiming a cluster: unmarked cells, and only those, are free; marked blocks lose
      their mark and nothing else; cells outside the cluster do not change. */
  ghost predicate Reclaimed(m0: Memory, blk: Blocks, m: Memory, blk': Blocks, lo: int, hi: int)
    requires SizesMatch(m0, blk) && SizesMatch(m, blk')
  {
    var F := FreeOf(m, blk', lo, hi);
    && (forall a :: lo <= a < hi ==> (InFree(m, F, a) <==> InDead(m0, blk, a)))
    && (forall s :: s in blk' <==> s in F || (s in blk && (lo <= s < hi ==> m0[s].flags.alive)))
    && (forall s :: s in blk' && s !in F ==> blk'[s] == blk[s])
    && SweptCells(m0, m, lo, hi, blk, F, hi)
  }

  lemma SweepResult(m0: Memory, m: Memory, P: set<int>, lo: int, hi: int, blk: Blocks, blk': Blocks, F: set<int>)
    requires SweepPre(m0, P, lo, hi, blk)
    requires forall s :: s in blk && !(lo <= s < hi) && m0[s].dataType == FreeBlock ==> IsFree(m0[s])
    requires FreeListOk(m, lo - 1, hi, F)
    requires SweptCells(m0, m, lo, hi, blk, F, hi)
    requires SweptBlocks(m0, m, lo, hi, blk, blk', F, hi) && Partition(P, blk')
    requires forall a :: lo <= a < hi ==> (InFree(m, F, a) <==> InDead(m0, blk, a))
    ensures ClusterOk(m, P, blk', lo, hi)
    ensures Reclaimed(m0, blk, m, blk', lo, hi)
  {
    PayloadBlock(P, blk', lo, hi);
    forall s ensures s in F <==> s in FreeOf(m, blk', lo, hi) {
      if s in FreeOf(m, blk', lo, hi) && s !in F {
        StaysTyped(m0, m, lo, hi, blk, F, s);
      }
      assert s in F ==> s in blk' && lo <= s < hi && IsFree(m[s]);
    }
    assert F == FreeOf(m, blk', lo, hi);
  }

  /** A marked block comes out of the walk with the type it had. */
  lemma StaysTyped(m0: Memory, m: Memory, lo: int, hi: int, blk: Blocks, F: set<int>, s: int)
    requires SizesMatch(m0, blk) && SweptCells(m0, m, lo, hi, blk, F, hi) && lo <= s < hi && s in blk && s !in F
    ensures m[s].dataType == m0[s].dataType
  {
  }

  /** What reclaiming a cluster does to each of its blocks: a marked one keeps its place, its size and its contents,
      and loses the mark unless it is an event; every cell of the others is in a free block. */
  lemma ReclaimedByBlock(m0: Memory, blk: Blocks, m: Memory, blk': Blocks, P: set<int>, lo: int, hi: int)
    requires SweepPre(m0, P, lo, hi, blk) && ClusterOk(m, P, blk', lo, hi) && Reclaimed(m0, blk, m, blk', lo, hi)
    ensures forall b, a {:trigger Inside(blk, b, a)} :: Inside(blk, b, a) && lo <= b < hi && m0[b].flags.alive ==>
        && b in blk' && blk'[b] == blk[b] && m[b].dataType == m0[b].dataType != FreeBlock && 0 <= a < |m| == |m0|
        && m[a] == if a == b && !m0[b].flags.event then m0[a].(flags := m0[a].flags.(alive := false)) else m0[a]
    ensures forall b, a {:trigger Inside(blk, b, a)} :: Inside(blk, b, a) && lo <= b < hi && !m0[b].flags.alive ==>
        exists f :: Inside(blk', f, a) && lo <= f < hi && m[f].dataType == FreeBlock
    ensures forall f :: f in blk' && lo <= f < hi && m[f].dataType == FreeBlock ==>
        && m[f].flags == Flags(false, false, false, true, false, false, false)
        && (f + blk'[f] == hi || (f + blk'[f] in blk' && m[f + blk'[f]].dataType != FreeBlock))
  {
    forall b, a {:trigger Inside(blk, b, a)} | Inside(blk, b, a) && lo <= b < hi && m0[b].flags.alive
      ensures && b in blk' && blk'[b] == blk[b] && m[b].dataType == m0[b].dataType != FreeBlock && 0 <= a < |m| == |m0|
        && m[a] == if a == b && !m0[b].flags.event then m0[a].(flags := m0[a].flags.(alive := false)) else m0[a]
    {
      MarkedBlock(m0, blk, m, blk', P, lo, hi, b, a);
    }
    forall b, a {:trigger Inside(blk, b, a)} | Inside(blk, b, a) && lo <= b < hi && !m0[b].flags.alive
      ensures exists f :: Inside(blk', f, a) && lo <= f < hi && m[f].dataType == FreeBlock
    {
      BlockFits(P, lo, hi, blk, b);
      assert InDead(m0, blk, a);
      var f :| f in FreeOf(m, blk', lo, hi) && f <= a < f + m[f].size;
      assert Inside(blk', f, a);
    }
    forall f | f in blk' && lo <= f < hi && m[f].dataType == FreeBlock
      ensures f + blk'[f] == hi || (f + blk'[f] in blk' && m[f + blk'[f]].dataType != FreeBlock)
    {
      BlockFits(P, lo, hi, blk', f);
      assert f in FreeOf(m, blk', lo, hi);
      var next := f + blk'[f] in FreeOf(m, blk', lo, hi);
    }
  }

  lemma MarkedBlock(m0: Memory, blk: Blocks, m: Memory, blk': Blocks, P: set<int>, lo: int, hi: int, b: int, a: int)
    requires SweepPre(m0, P, lo, hi, blk) && ClusterOk(m, P, blk', lo, hi) && Reclaimed(m0, blk, m, blk', lo, hi)
    requires Inside(blk, b, a) && lo <= b < hi && m0[b].flags.alive
    ensures b in blk' && blk'[b] == blk[b] && m[b].dataType == m0[b].dataType != FreeBlock && 0 <= a < |m| == |m0|
    ensures m[a] == if a == b && !m0[b].flags.event then m0[a].(flags := m0[a].flags.(alive := false)) else m0[a]
  {
    BlockFits(P, lo, hi, blk, b);
    var F := FreeOf(m, blk', lo, hi);
    forall x | Inside(blk, b, x) ensures lo <= x < hi && x !in F && (x in blk ==> x == b) {
      assert !InDead(m0, blk, x);
      assert Inside(blk, x, x) || x !in blk;
      var covered := InFree(m, F, x);
    }
    assert Inside(blk, b, b);
  }

  /** No block starts at the two pseudo-nodes of a list. */
  lemma PayloadBlock(P: set<int>, blk: Blocks, lo: int, hi: int)
    requires Partition(P, blk) && lo - 1 !in P && hi !in P
    ensures lo - 1 !in blk && hi !in blk
  {
    var atHead := Inside(blk, lo - 1, lo - 1);
    var atTail := Inside(blk, hi, hi);
  }

  // ---------- A heap of several clusters ----------

  datatype Extent = Extent(start: int, end: int)

  ghost predicate InSome(cs: seq<Extent>, a: int) {
    exists k :: 0 <= k < |cs| && cs[k].start <= a < cs[k].end
  }

  /** The clusters make up the payload, in address order, with their headers in between. */
  ghost predicate Layout(m: Memory, P: set<int>, cs: seq<Extent>) {
    && (forall k :: 0 <= k < |cs| ==> ClusterIn(m, P, cs[k].start, cs[k].end))
    && (forall j, k :: 0 <= j < k < |cs| ==> cs[j].end + 1 < cs[k].start)
    && (forall a {:trigger InSome(cs, a)} :: a in P ==> InSome(cs, a))
  }

  /** The heap between operations: blocks tile the clusters, and every cluster links its free blocks. */
  ghost predicate HeapOk(m: Memory, P: set<int>, cs: seq<Extent>, blk: Blocks) {
    && HeapShape(m, P, blk) && Layout(m, P, cs)
    && (forall k :: 0 <= k < |cs| ==> FreeListOk(m, cs[k].start - 1, cs[k].end, FreeOf(m, blk, cs[k].start, cs[k].end)))
  }

  /** A cell belongs to a free block of some cluster. */
  ghost predicate FreeCell(m: Memory, blk: Blocks, a: int)
    requires SizesMatch(m, blk)
  {
    exists s :: Inside(blk, s, a) && m[s].dataType == FreeBlock
  }

  /** Nothing has changed outside one cluster and its list pseudo-nodes. */
  ghost predicate OnlyCluster(m: Memory, blk: Blocks, m': Memory, blk': Blocks, lo: int, hi: int) {
    && |m'| == |m|
    && (forall a {:trigger m'[a]} :: 0 <= a < |m| && !(lo - 1 <= a <= hi) ==> m'[a] == m[a])
    && (forall s :: !(lo <= s < hi) ==> (s in blk' <==> s in blk))
    && (forall s :: !(lo <= s < hi) && s in blk' ==> blk'[s] == blk[s])
  }

  /** An operation that keeps one cluster in order, and leaves the others alone, keeps the heap in order. */
  lemma ClusterChanged(m: Memory, blk: Blocks, m': Memory, blk': Blocks, P: set<int>, cs: seq<Extent>, k: int)
    requires HeapOk(m, P, cs, blk) && 0 <= k < |cs|
    requires ClusterOk(m', P, blk', cs[k].start, cs[k].end) && OnlyCluster(m, blk, m', blk', cs[k].start, cs[k].end)
    ensures HeapOk(m', P, cs, blk')
  {
    forall j | 0 <= j < |cs| ensures FreeListOk(m', cs[j].start - 1, cs[j].end, FreeOf(m', blk', cs[j].start, cs[j].end)) {
      if j != k {
        OtherCluster(m, blk, m', blk', P, cs[k].start, cs[k].end, cs[j].start, cs[j].end);
      }
    }
    forall j | 0 <= j < |cs| ensures ClusterIn(m', P, cs[j].start, cs[j].end) { }
  }

  lemma OtherCluster(m: Memory, blk: Blocks, m': Memory, blk': Blocks, P: set<int>, lo: int, hi: int, lo': int, hi': int)
    requires SizesMatch(m, blk) && SizesMatch(m', blk') && OnlyCluster(m, blk, m', blk', lo, hi)
    requires hi + 1 < lo' || hi' + 1 < lo
    requires ClusterIn(m, P, lo', hi') && FreeListOk(m, lo' - 1, hi', FreeOf(m, blk, lo', hi'))
    ensures FreeListOk(m', lo' - 1, hi', FreeOf(m', blk', lo', hi'))
  {
    var F := FreeOf(m, blk, lo', hi');
    assert FreeOf(m', blk', lo', hi') == F;
    FreeBlocksFrame(m, m', lo' - 1, hi', F);
    LinkedFrame(m, m', lo' - 1, hi', F);
  }

  /** A cluster that has been set up joins the ones before it. */
  lemma ClusterAdded(m: Memory, blk: Blocks, m': Memory, blk': Blocks, P0: set<int>, P: set<int>, cs: seq<Extent>, c: Extent)
    requires HeapOk(m, P0, cs, blk) && Layout(m, P, cs + [c])
    requires ClusterOk(m', P, blk', c.start, c.end) && OnlyCluster(m, blk, m', blk', c.start, c.end)
    ensures HeapOk(m', P, cs + [c], blk')
  {
    var cs' := cs + [c];
    assert cs'[|cs|] == c;
    forall j | 0 <= j < |cs'| ensures FreeListOk(m', cs'[j].start - 1, cs'[j].end, FreeOf(m', blk', cs'[j].start, cs'[j].end)) {
      if j < |cs| {
        assert cs'[j] == cs[j];
        OtherCluster(m, blk, m', blk', P, c.start, c.end, cs[j].start, cs[j].end);
      }
    }
    forall j | 0 <= j < |cs'| ensures ClusterIn(m', P, cs'[j].start, cs'[j].end) {
      assert ClusterIn(m, P, cs'[j].start, cs'[j].end);
    }
  }
}
