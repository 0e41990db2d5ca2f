/** A whole garbage collection: mark, then sweep every cluster. */
module Collecting {
  import opened HeapCells
  import opened FreeBlocks
  import opened Partitions
  import opened Sweeping
  import opened HeapClusters
  import opened HeapGraph
  import opened MarkPhase
  import opened Survivors
  import opened Marking

  /** One cluster has been swept, on a heap whose marks were those of m0. */
  ghost predicate ClusterSwept(m0: Memory, blk: Blocks, m: Memory, blk': Blocks, lo: int, hi: int)
    requires SizesMatch(m0, blk) && SizesMatch(m, blk') && |m| == |m0|
  {
    var F := FreeOf(m, blk', lo, hi);
    && FreeListOk(m, lo - 1, hi, F)
    && (forall a :: lo <= a < hi ==> (InFree(m, F, a) <==> InDead(m0, blk, a)))
    && (forall s :: lo <= s < hi ==> (s in blk' <==> s in F || (s in blk && m0[s].flags.alive)))
    && (forall s :: lo <= s < hi && s in blk' && s !in F ==> blk'[s] == blk[s])
    && (forall a {:trigger m[a]} :: lo <= a < hi && 0 <= a < |m| && a !in F ==>
          m[a] == if a in blk && m0[a].flags.alive then Sweeping.Unmarked(m0[a]) else m0[a])
  }

  /** One cluster has not been touched. */
  ghost predicate ClusterSame(m0: Memory, blk: Blocks, m: Memory, blk': Blocks, lo: int, hi: int) {
    && |m| == |m0|
    && (forall a {:trigger m[a]} :: lo - 1 <= a <= hi && 0 <= a < |m| ==> m[a] == m0[a])
    && (forall s :: lo <= s < hi ==> (s in blk' <==> s in blk))
    && (forall s :: lo <= s < hi && s in blk ==> s in blk' && blk'[s] == blk[s])
  }

  lemma ClusterFrame(m0: Memory, blk: Blocks, m: Memory, blk1: Blocks, m': Memory, blk2: Blocks, lo: int, hi: int)
    requires SizesMatch(m0, blk) && SizesMatch(m, blk1) && SizesMatch(m', blk2) && |m| == |m0|
    requires ClusterSwept(m0, blk, m, blk1, lo, hi) && ClusterSame(m, blk1, m', blk2, lo, hi)
    ensures ClusterSwept(m0, blk, m', blk2, lo, hi)
  {
    var F := FreeOf(m, blk1, lo, hi);
    assert FreeOf(m', blk2, lo, hi) == F;
    assert FreeListOk(m', lo - 1, hi, F) by {
      FreeBlocksFrame(m, m', lo - 1, hi, F);
      LinkedFrame(m, m', lo - 1, hi, F);
    }
    forall a ensures InFree(m', F, a) <==> InFree(m, F, a) {
      FreeCoverFrame(m, m', F, a);
    }
  }

  ghost predicate SweptUpTo(m0: Memory, m: Memory, P: set<int>, cs: seq<Extent>, blk: Blocks, blk': Blocks, i: int)
    requires SizesMatch(m0, blk)
  {
    && 0 <= i <= |cs| && |m| == |m0| && Partition(P, blk') && SizesMatch(m, blk')
    && (forall k :: 0 <= k < i ==> ClusterSwept(m0, blk, m, blk', cs[k].start, cs[k].end))
    && (forall k :: i <= k < |cs| ==> ClusterSame(m0, blk, m, blk', cs[k].start, cs[k].end))
  }

  /** What reclaiming one cluster does to itself and to the others. */
  lemma ReclaimedCluster(m0: Memory, blk0: Blocks, m: Memory, blk: Blocks, m': Memory, blk': Blocks, P: set<int>,
          lo: int, hi: int)
    requires SizesMatch(m0, blk0) && SizesMatch(m, blk) && ClusterIn(m0, P, lo, hi)
    requires ClusterSame(m0, blk0, m, blk, lo, hi) && Partition(P, blk0) && Partition(P, blk)
    requires ClusterOk(m', P, blk', lo, hi) && Reclaimed(m, blk, m', blk', lo, hi)
    ensures ClusterSwept(m0, blk0, m', blk', lo, hi)
  {
    forall a | lo <= a < hi ensures InDead(m, blk, a) <==> InDead(m0, blk0, a) {
      SameDead(m0, blk0, m, blk, P, lo, hi, a);
      SameDead(m, blk, m0, blk0, P, lo, hi, a);
    }
  }

  lemma SameDead(m0: Memory, blk0: Blocks, m: Memory, blk: Blocks, P: set<int>, lo: int, hi: int, a: int)
    requires SizesMatch(m0, blk0) && SizesMatch(m, blk) && ClusterIn(m0, P, lo, hi)
    requires ClusterSame(m0, blk0, m, blk, lo, hi) && Partition(P, blk0) && lo <= a < hi
    ensures InDead(m0, blk0, a) ==> InDead(m, blk, a)
  {
    if InDead(m0, blk0, a) {
      var s :| Inside(blk0, s, a) && !m0[s].flags.alive;
      var atHead := Inside(blk0, s, lo - 1);
      assert Inside(blk, s, a) && m[s] == m0[s];
    }
  }

  lemma OthersSame(m: Memory, blk: Blocks, m': Memory, blk': Blocks, P: set<int>, lo: int, hi: int, lo': int, hi': int)
    requires SizesMatch(m, blk) && SizesMatch(m', blk') && ClusterIn(m, P, lo', hi')
    requires ClusterOk(m', P, blk', lo, hi) && Reclaimed(m, blk, m', blk', lo, hi)
    requires hi + 1 < lo' || hi' + 1 < lo
    ensures ClusterSame(m, blk, m', blk', lo', hi')
  {
    var F := FreeOf(m', blk', lo, hi);
    assert forall f :: f in F ==> lo <= f < hi;
  }

  lemma SweptNext(m0: Memory, m: Memory, P: set<int>, cs: seq<Extent>, blk0: Blocks, blk: Blocks, i: int, m': Memory,
          blk': Blocks)
    requires SizesMatch(m0, blk0) && Layout(m0, P, cs) && Partition(P, blk0)
    requires SweptUpTo(m0, m, P, cs, blk0, blk, i) && i < |cs|
    requires ClusterOk(m', P, blk', cs[i].start, cs[i].end) && |m'| == |m|
    requires Reclaimed(m, blk, m', blk', cs[i].start, cs[i].end)
    ensures SweptUpTo(m0, m', P, cs, blk0, blk', i + 1)
  {
    forall k | 0 <= k < |cs| && k != i ensures ClusterSame(m, blk, m', blk', cs[k].start, cs[k].end) {
      OthersSame(m, blk, m', blk', P, cs[i].start, cs[i].end, cs[k].start, cs[k].end);
    }
    forall k | 0 <= k < i + 1 ensures ClusterSwept(m0, blk0, m', blk', cs[k].start, cs[k].end) {
      if k == i {
        ReclaimedCluster(m0, blk0, m, blk, m', blk', P, cs[i].start, cs[i].end);
      } else {
        ClusterFrame(m0, blk0, m, blk, m', blk', cs[k].start, cs[k].end);
      }
    }
    forall k | i + 1 <= k < |cs| ensures ClusterSame(m0, blk0, m', blk', cs[k].start, cs[k].end) {
      assert ClusterSame(m0, blk0, m, blk, cs[k].start, cs[k].end);
    }
  }

  /** Inside one cluster, the free list covers the cells of the free blocks. */
  lemma FreeCells(m: Memory, P: set<int>, blk: Blocks, lo: int, hi: int, a: int)
    requires HeapShape(m, P, blk) && ClusterIn(m, P, lo, hi) && lo <= a < hi
    ensures InFree(m, FreeOf(m, blk, lo, hi), a) <==> FreeCell(m, blk, a)
  {
    if FreeCell(m, blk, a) {
      var s :| Inside(blk, s, a) && m[s].dataType == FreeBlock;
      var atHead := Inside(blk, s, lo - 1);
      assert s in FreeOf(m, blk, lo, hi);
    }
    if InFree(m, FreeOf(m, blk, lo, hi), a) {
      var f :| f in FreeOf(m, blk, lo, hi) && f <= a < f + m[f].size;
      assert Inside(blk, f, a);
    }
  }

  // ---------- The whole collection ----------

  /** The marked blocks of m1 are the ones that stay. */
  lemma SweptIsCollected(g: Memory, gr: Graph, m1: Memory, m: Memory, blk': Blocks, P: set<int>, cs: seq<Extent>,
          roots: set<int>)
    requires GraphOk(g, gr) && Marked(g, gr, m1, roots) && Partition(P, gr.blk) && Layout(g, P, cs) && HeapShape(m, P, blk')
    requires SweptUpTo(m1, m, P, cs, gr.blk, blk', |cs|)
    ensures Collected(g, gr, m, blk', roots)
  {
    forall b | b in gr.blk && BlockStays(g, gr, roots, b) ensures Kept(g, gr.blk, m, blk', b) {
      LiveKept(g, gr, m1, m, blk', P, cs, roots, b);
    }
    forall b, a | Inside(gr.blk, b, a) ensures FreeCell(m, blk', a) <==> !BlockStays(g, gr, roots, b) {
      CellFate(g, gr, m1, m, blk', P, cs, roots, b, a);
    }
    forall b | b in blk' ensures m[b].dataType == FreeBlock || BlockStays(g, gr, roots, b) {
      assert Inside(blk', b, b);
      assert InSome(cs, b);
      var k :| 0 <= k < |cs| && cs[k].start <= b < cs[k].end;
      assert ClusterSwept(m1, gr.blk, m, blk', cs[k].start, cs[k].end);
    }
  }

  lemma CellFate(g: Memory, gr: Graph, m1: Memory, m: Memory, blk': Blocks, P: set<int>, cs: seq<Extent>,
          roots: set<int>, b: int, a: int)
    requires GraphOk(g, gr) && Marked(g, gr, m1, roots) && Partition(P, gr.blk) && Layout(g, P, cs) && HeapShape(m, P, blk')
    requires SweptUpTo(m1, m, P, cs, gr.blk, blk', |cs|) && Inside(gr.blk, b, a)
    ensures FreeCell(m, blk', a) <==> !BlockStays(g, gr, roots, b)
  {
    assert InSome(cs, a);
    var k :| 0 <= k < |cs| && cs[k].start <= a < cs[k].end;
    CellFateIn(gr.blk, m1, m, blk', P, cs[k].start, cs[k].end, b, a);
  }

  lemma CellFateIn(blk: Blocks, m1: Memory, m: Memory, blk': Blocks, P: set<int>, lo: int, hi: int, b: int, a: int)
    requires Partition(P, blk) && SizesMatch(m1, blk) && HeapShape(m, P, blk') && ClusterIn(m, P, lo, hi)
    requires |m| == |m1| && ClusterSwept(m1, blk, m, blk', lo, hi)
    requires lo <= a < hi && Inside(blk, b, a)
    ensures FreeCell(m, blk', a) <==> !m1[b].flags.alive
  {
    FreeCells(m, P, blk', lo, hi, a);
    assert forall s :: Inside(blk, s, a) ==> s == b;
    assert InDead(m1, blk, a) <==> !m1[b].flags.alive;
  }

  lemma LiveKept(g: Memory, gr: Graph, m1: Memory, m: Memory, blk': Blocks, P: set<int>, cs: seq<Extent>,
          roots: set<int>, b: int)
    requires GraphOk(g, gr) && Marked(g, gr, m1, roots) && Partition(P, gr.blk) && Layout(g, P, cs) && HeapShape(m, P, blk')
    requires SweptUpTo(m1, m, P, cs, gr.blk, blk', |cs|)
    requires b in gr.blk && BlockStays(g, gr, roots, b)
    ensures Kept(g, gr.blk, m, blk', b) && Unswept(m1, gr.blk, m, b)
  {
    assert m1[b].flags.alive;
    assert Inside(gr.blk, b, b);
    assert InSome(cs, b);
    var k :| 0 <= k < |cs| && cs[k].start <= b < cs[k].end;
    LiveKeptIn(gr.blk, m1, m, blk', P, cs[k].start, cs[k].end, b);
    KeptThrough(g, m1, gr.blk, m, blk', b);
  }

  lemma KeptThrough(g: Memory, m1: Memory, blk: Blocks, m: Memory, blk': Blocks, b: int)
    requires SameButMarks(g, m1) && Kept(m1, blk, m, blk', b)
    ensures Kept(g, blk, m, blk', b)
  {
    forall a | Inside(blk, b, a)
      ensures 0 <= a < |g| && m[a] == g[a].(flags := g[a].flags.(alive := m[a].flags.alive))
    {
      assert m1[a] == g[a].(flags := g[a].flags.(alive := m1[a].flags.alive));
    }
  }

  /** The sweep clears the mark of the head and of nothing else in the block. */
  ghost predicate Unswept(m1: Memory, blk: Blocks, m: Memory, b: int) {
    forall a {:trigger Inside(blk, b, a)} :: Inside(blk, b, a) && 0 <= a < |m| == |m1| ==>
      m[a] == if a in blk then Sweeping.Unmarked(m1[a]) else m1[a]
  }

  lemma LiveKeptIn(blk: Blocks, m1: Memory, m: Memory, blk': Blocks, P: set<int>, lo: int, hi: int, b: int)
    requires Partition(P, blk) && SizesMatch(m1, blk) && HeapShape(m, P, blk') && ClusterIn(m, P, lo, hi)
    requires |m| == |m1| && ClusterSwept(m1, blk, m, blk', lo, hi)
    requires lo <= b < hi && b in blk && m1[b].flags.alive
    ensures Kept(m1, blk, m, blk', b) && Unswept(m1, blk, m, b)
  {
    BlockFits(P, lo, hi, blk, b);
    var F := FreeOf(m, blk', lo, hi);
    forall a | Inside(blk, b, a) ensures lo <= a < hi && a !in F && (a in blk ==> a == b) {
      CellFateIn(blk, m1, m, blk', P, lo, hi, b, a);
      var covered := Inside(blk', a, a);
    }
    assert Inside(blk, b, b);
  }

  /** The marks that a collection leaves behind. */
  lemma SweptMarks(g: Memory, gr: Graph, m1: Memory, m: Memory, blk': Blocks, P: set<int>, cs: seq<Extent>, roots: set<int>)
    requires GraphOk(g, gr) && StartMarks(g, gr) && Marked(g, gr, m1, roots) && Partition(P, gr.blk) && Layout(g, P, cs) && HeapShape(m, P, blk')
    requires SweptUpTo(m1, m, P, cs, gr.blk, blk', |cs|)
    ensures MarksLeft(g, gr, m, roots)
  {
    forall b, a | Inside(gr.blk, b, a) && BlockStays(g, gr, roots, b)
      ensures 0 <= a < |m| == |m1| && m[a] == if a in gr.blk then Sweeping.Unmarked(m1[a]) else m1[a]
    {
      LiveKept(g, gr, m1, m, blk', P, cs, roots, b);
    }
    forall b | b in gr.blk && BlockStays(g, gr, roots, b) && b < |m| ensures m[b].flags.alive == g[b].flags.event {
      assert Inside(gr.blk, b, b);
    }
    forall c | c in gr.slots && Stays(g, gr, roots, c) && 0 <= c < |m|
      ensures m[c].flags.alive <==> c !in gr.dim || Reachable(g, gr, roots, c)
    {
      assert SlotOk(g, gr, c);
      assert m[c] == m1[c];
    }
  }

  /** The roots besides the objects of the finalizers that are due. */
  ghost function Globals(g: Memory, gr: Graph, protectedRoots: seq<Root>, globalRoots: seq<Root>): set<int> {
    RootBlocks(g, gr, protectedRoots) + RootBlocks(g, gr, globalRoots)
  }

  /** A marked object stays. */
  lemma FinalizersMarked(g: Memory, gr: Graph, m1: Memory, roots: set<int>, fins: seq<int>)
    requires SizesMatch(g, gr.blk) && Marked(g, gr, m1, roots) && MarkedUpTo(m1, fins, |fins|)
    requires forall x :: x in fins ==> x in gr.blk
    ensures forall x :: x in fins ==> BlockStays(g, gr, roots, x)
  {
    forall x | x in fins ensures BlockStays(g, gr, roots, x) {
      var k :| 0 <= k < |fins| && fins[k] == x;
    }
  }

  // ---------- The collector ----------

  class Collector {
    const mem: array<Cell>
    const marker: Marker
    const heap: seq<HeapCluster>

    constructor (mem: array<Cell>, marker: Marker, heap: seq<HeapCluster>)
      ensures this.mem == mem && this.marker == marker && this.heap == heap
    {
      this.mem, this.marker, this.heap := mem, marker, heap;
    }

    /** All parts work on the same memory and agree on the clusters. */
    ghost predicate Wired(cs: seq<Extent>)
      reads this
    {
      && marker.mem == mem && marker.clusters == cs
      && |heap| == |cs|
      && (forall k :: 0 <= k < |cs| ==> heap[k].mem == mem && heap[k].payloadStart == cs[k].start && heap[k].payloadEnd == cs[k].end)
    }

    /** CLR_RT_GarbageCollector::ExecuteGarbageCollection: mark, then sweep.  What is in use afterwards
        has its old place, size and contents, and so has what it, a root or a finalizer refers to by the head. */
    method ExecuteGarbageCollection(protectedRoots: seq<Root>, globalRoots: seq<Root>, ghost P: set<int>,
            ghost cs: seq<Extent>, ghost gr: Graph)
      returns (ghost gr': Graph)
      requires Wired(cs) && marker.Ready()
      requires HeapOk(mem[..], P, cs, gr.blk) && GraphOk(mem[..], gr) && AllHoused(mem[..], gr) && StartMarks(mem[..], gr)
      requires RootsOk(mem[..], gr, protectedRoots) && RootsOk(mem[..], gr, globalRoots)
      requires FinalizersOk(mem[..], gr, marker.finalizersAlive) && FinalizersOk(mem[..], gr, marker.finalizersPending)
      modifies mem, marker, marker.markStack
      ensures var g, roots := old(mem[..]), PhaseRoots(old(mem[..]), gr, protectedRoots, globalRoots, marker.finalizersPending);
        && HeapOk(mem[..], P, cs, gr'.blk) && gr' == GraphLeft(g, gr, roots, gr'.blk)
        && Collected(g, gr, mem[..], gr'.blk, roots) && MarksLeft(g, gr, mem[..], roots)
        && StartMarks(mem[..], gr') && AllHoused(mem[..], gr')
        && (GraphOk(mem[..], gr') <==> NothingDangles(g, gr, roots))
      ensures marker.Ready() && !marker.fOutOfStackSpaceForGC
      ensures FinalizersSorted(old(mem[..]), gr, Globals(old(mem[..]), gr, protectedRoots, globalRoots),
                    old(marker.finalizersAlive), old(marker.finalizersPending), marker.finalizersAlive, marker.finalizersPending)
      ensures FinalizersOk(mem[..], gr', marker.finalizersAlive) && FinalizersOk(mem[..], gr', marker.finalizersPending)
      ensures var g, m := old(mem[..]), mem[..];
        && (forall b, a {:trigger Inside(gr'.blk, b, a)} :: Inside(gr'.blk, b, a) && m[b].dataType != FreeBlock ==>
            && b in gr.blk && gr.blk[b] == gr'.blk[b] && g[b].dataType != FreeBlock && 0 <= a < |m| == |g|
            && m[a] == g[a].(flags := g[a].flags.(alive := m[a].flags.alive)))
        && (forall b, a {:trigger Inside(gr.blk, b, a)} :: Inside(gr.blk, b, a) ==>
            || (b in gr'.blk && m[b].dataType != FreeBlock)
            || (!g[b].flags.event && exists f :: Inside(gr'.blk, f, a) && m[f].dataType == FreeBlock))
        && (forall b, c {:trigger gr.blk[b], g[c]} ::
            && b in gr.blk && b in gr'.blk && m[b].dataType != FreeBlock && !g[b].flags.event && b <= c < |g|
            && (|| c == b || (g[b].dataType in {Class, ValueType} && c < b + g[b].size) || (g[b].dataType == DelegateHead && c == b + 1)
                   || (g[b].dataType == SzArray && g[b].word.ArrayHead? && g[b].word.fReference && c <= b + g[b].word.numOfElements)
                   || (g[b].dataType == DelegateListHead && g[b].word.ListHead? && !g[b].word.weak && c <= b + g[b].word.length))
            && g[c].dataType in {Object, ByRef, ArrayByRef} && g[c].word.Pointer? && g[c].word.target in gr.blk
            ==> g[c].word.target in gr'.blk && m[g[c].word.target].dataType != FreeBlock)
        && (forall r :: r in protectedRoots + globalRoots && (r.Single? || r.Force?) && r.obj in gr.blk ==>
            r.obj in gr'.blk && m[r.obj].dataType != FreeBlock)
        && (forall r, c {:trigger r in protectedRoots + globalRoots, g[c]} ::
            && r in protectedRoots + globalRoots && r.Multiple? && r.lst != NULL && r.lst <= c < r.lst + r.num && 0 <= c < |g|
            && g[c].dataType in {Object, ByRef, ArrayByRef} && g[c].word.Pointer? && g[c].word.target in gr.blk
            ==> g[c].word.target in gr'.blk && m[g[c].word.target].dataType != FreeBlock)
    {
      ghost var g := mem[..];
      gr' := MarkAndSweep(protectedRoots, globalRoots, P, cs, gr);
      KeptByKind(g, gr, mem[..], P, gr'.blk, protectedRoots, globalRoots, marker.finalizersPending);
    }

    /** The same in terms of the graph. */
    method MarkAndSweep(protectedRoots: seq<Root>, globalRoots: seq<Root>, ghost P: set<int>,
            ghost cs: seq<Extent>, ghost gr: Graph)
      returns (ghost gr': Graph)
      requires Wired(cs) && marker.Ready()
      requires HeapOk(mem[..], P, cs, gr.blk) && GraphOk(mem[..], gr) && AllHoused(mem[..], gr) && StartMarks(mem[..], gr)
      requires RootsOk(mem[..], gr, protectedRoots) && RootsOk(mem[..], gr, globalRoots)
      requires FinalizersOk(mem[..], gr, marker.finalizersAlive) && FinalizersOk(mem[..], gr, marker.finalizersPending)
      modifies mem, marker, marker.markStack
      ensures var g, roots := old(mem[..]), PhaseRoots(old(mem[..]), gr, protectedRoots, globalRoots, marker.finalizersPending);
        && HeapOk(mem[..], P, cs, gr'.blk) && gr' == GraphLeft(g, gr, roots, gr'.blk)
        && Collected(g, gr, mem[..], gr'.blk, roots) && MarksLeft(g, gr, mem[..], roots)
        && StartMarks(mem[..], gr') && AllHoused(mem[..], gr')
        && (GraphOk(mem[..], gr') <==> NothingDangles(g, gr, roots))
      ensures marker.Ready() && !marker.fOutOfStackSpaceForGC
      ensures FinalizersSorted(old(mem[..]), gr, Globals(old(mem[..]), gr, protectedRoots, globalRoots),
                    old(marker.finalizersAlive), old(marker.finalizersPending), marker.finalizersAlive, marker.finalizersPending)
      ensures FinalizersOk(mem[..], gr', marker.finalizersAlive) && FinalizersOk(mem[..], gr', marker.finalizersPending)
    {
      ghost var g, alive0, pending0 := mem[..], marker.finalizersAlive, marker.finalizersPending;
      marker.Mark(protectedRoots, globalRoots, P, gr);
      ghost var m1 := mem[..];
      ghost var roots := PhaseRoots(g, gr, protectedRoots, globalRoots, marker.finalizersPending);
      MarkedShape(g, m1, P, cs, gr, roots);
      ghost var blk' := Sweep(P, cs, gr.blk);
      SweptIsCollected(g, gr, m1, mem[..], blk', P, cs, roots);
      SweptMarks(g, gr, m1, mem[..], blk', P, cs, roots);
      SweptHeap(m1, mem[..], P, cs, gr.blk, blk');
      SoundAgainIff(g, gr, mem[..], P, blk', roots);
      ReadyAgain(g, gr, mem[..], P, blk', roots);
      forall x | x in marker.finalizersAlive ensures x in gr.blk {
        SeparatedFrom(ReachSet(g, gr, PhaseRoots(g, gr, protectedRoots, globalRoots, pending0)), alive0,
          marker.finalizersAlive, marker.finalizersPending[|pending0|..], x);
      }
      FinalizersMarked(g, gr, m1, roots, marker.finalizersAlive);
      FinalizersStay(g, gr, mem[..], blk', Globals(g, gr, protectedRoots, globalRoots), alive0, pending0,
        marker.finalizersAlive, marker.finalizersPending);
      gr' := GraphLeft(g, gr, roots, blk');
    }

    /** CLR_RT_GarbageCollector::Sweep: every cluster recovers its unmarked blocks. */
    method Sweep(ghost P: set<int>, ghost cs: seq<Extent>, ghost blk: Blocks) returns (ghost blk': Blocks)
      requires Wired(cs) && HeapShape(mem[..], P, blk) && Layout(mem[..], P, cs)
      requires forall s :: s in blk && mem[s].flags.alive ==> mem[s].dataType != FreeBlock
      modifies mem
      ensures HeapShape(mem[..], P, blk')
      ensures SweptUpTo(old(mem[..]), mem[..], P, cs, blk, blk', |cs|)
    {
      ghost var m0 := mem[..];
      blk' := blk;
      var i := 0;
      while i < |heap|
        invariant 0 <= i <= |heap|
        invariant SweptUpTo(m0, mem[..], P, cs, blk, blk', i)
        invariant HeapShape(mem[..], P, blk')
        invariant forall s :: s in blk' && mem[s].flags.alive ==> mem[s].dataType != FreeBlock
      {
        ghost var m := mem[..];
        ghost var blk0 := blk';
        blk' := heap[i].RecoverFromGC(P, blk');
        SweptNext(m0, m, P, cs, blk, blk0, i, mem[..], blk');
        i := i + 1;
      }
    }
  }

  /** Marking does not change the shape of the heap. */
  lemma MarkedShape(g: Memory, m1: Memory, P: set<int>, cs: seq<Extent>, gr: Graph, roots: set<int>)
    requires HeapOk(g, P, cs, gr.blk) && GraphOk(g, gr) && Marked(g, gr, m1, roots)
    ensures HeapShape(m1, P, gr.blk) && Layout(m1, P, cs)
    ensures forall s :: s in gr.blk && m1[s].flags.alive ==> m1[s].dataType != FreeBlock
  {
    forall s | s in gr.blk ensures m1[s] == g[s].(flags := g[s].flags.(alive := m1[s].flags.alive)) { }
  }

  /** After the sweep every cluster links its free blocks. */
  lemma SweptHeap(m1: Memory, m: Memory, P: set<int>, cs: seq<Extent>, blk: Blocks, blk': Blocks)
    requires SizesMatch(m1, blk) && Layout(m1, P, cs) && HeapShape(m, P, blk')
    requires SweptUpTo(m1, m, P, cs, blk, blk', |cs|)
    ensures HeapOk(m, P, cs, blk')
  {
    forall k | 0 <= k < |cs| ensures FreeListOk(m, cs[k].start - 1, cs[k].end, FreeOf(m, blk', cs[k].start, cs[k].end)) {
      assert ClusterSwept(m1, blk, m, blk', cs[k].start, cs[k].end);
    }
  }
}
