/** One cluster of the managed heap: a payload of cells tiled by blocks, with an address-ordered free
    list of maximal free blocks (CLR_RT_HeapCluster). */
module HeapClusters {
  import opened HeapCells
  import opened FreeBlocks
  import opened Partitions
  import opened Sweeping
  import opened Extraction
  import opened Returning

  class HeapCluster {
    const mem: array<Cell>
    const payloadStart: int
    const payloadEnd: int

    constructor (mem: array<Cell>, payloadStart: int, payloadEnd: int)
      ensures this.mem == mem && this.payloadStart == payloadStart && this.payloadEnd == payloadEnd
    {
      this.mem, this.payloadStart, this.payloadEnd := mem, payloadStart, payloadEnd;
    }

    /** The list head overlays the cell below the payload. */
    function Head(): int { payloadStart - 1 }
    function Tail(): int { payloadEnd }

    function Next(a: int): (n: int)
      requires 0 <= a < mem.Length
      reads mem
      ensures n == NextOf(mem[..], a)
    {
      if mem[a].word.Link? then mem[a].word.next else NULL
    }

    function Prev(a: int): (p: int)
      requires 0 <= a < mem.Length
      reads mem
      ensures p == PrevOf(mem[..], a)
    {
      if mem[a].word.Link? then mem[a].word.prev else NULL
    }

    /** A list in the middle of an insertion: the block at cur is linked but its size field is not
        written yet; it is meant to cover size cells that touch no other free block on its left. */
    ghost predicate Inserting(m: Memory, G: set<int>, cur: int, size: nat, gapRight: bool) {
      && Linked(m, Head(), Tail(), G)
      && FreeBlocksOk(m, Head(), Tail(), G - {cur})
      && cur in G && 1 <= size && cur + size <= payloadEnd
      && (forall f :: f in G - {cur} ==> f + m[f].size <= cur || cur + size <= f)
      && (gapRight ==> cur + size !in G)
    }

    /** The cells covered by a list in the middle of an insertion. */
    ghost predicate Covers(m: Memory, G: set<int>, cur: int, size: nat, a: int)
      requires Bounds(m, Head(), Tail(), G)
    {
      InFree(m, G - {cur}, a) || cur <= a < cur + size
    }

    /** CLR_RT_HeapCluster::InsertInOrder: give the cells [node, node + size), a run of whole blocks, back to
        the free list.  The free block res that arises takes in the free blocks that touch the run, and all other
        blocks stay. */
    method InsertInOrder(node: int, size: nat, ghost P: set<int>, ghost blk: Blocks) returns (res: int, ghost blk': Blocks)
      requires ClusterIn(mem[..], P, payloadStart, payloadEnd) && Vacated(mem[..], P, blk, node, size)
      requires payloadStart <= node && node + size <= payloadEnd
      requires FreeListOk(mem[..], Head(), Tail(), FreeBeside(mem[..], P, blk, payloadStart, payloadEnd, node, size))
      modifies mem
      ensures ClusterOk(mem[..], P, blk', payloadStart, payloadEnd)
      ensures OnlyCluster(old(mem[..]), blk, mem[..], blk', payloadStart, payloadEnd)
      ensures forall cs, k :: 0 <= k < |cs| && cs[k] == Extent(payloadStart, payloadEnd) && HeapOk(old(mem[..]), P, cs, blk) ==> HeapOk(mem[..], P, cs, blk')
      ensures 0 <= res < mem.Length && Joined(blk, blk', res, res + mem[res].size)
      ensures Returned(old(mem[..]), old(FreeBeside(mem[..], P, blk, payloadStart, payloadEnd, node, size)), mem[..],
                    FreeOf(mem[..], blk', payloadStart, payloadEnd), Head(), Tail(), node, size, res)
      ensures var m, m' := old(mem[..]), mem[..];
        && res in blk' && m'[res].dataType == FreeBlock && m'[res].flags == Flags(false, false, false, true, false, false, false)
        && (res == node || (payloadStart <= res && res in blk && res + blk[res] == node && m[res].dataType == FreeBlock))
        && (var end := res + blk'[res];
            end == node + size || (node + size in blk && end == node + size + blk[node + size] < |m| && m[node + size].dataType == FreeBlock))
        && (forall s :: s in blk && payloadStart <= s < node && s + blk[s] == node && m[s].dataType == FreeBlock ==> s == res)
        && (node + size in blk && node + size < payloadEnd && m[node + size].dataType == FreeBlock ==> node + size < res + blk'[res])
      ensures var m, m' := old(mem[..]), mem[..];
        && (forall s :: s in blk && !(res <= s < res + blk'[res]) ==> s in blk' && blk'[s] == blk[s] && m'[s].dataType == m[s].dataType)
        && (forall s, a {:trigger Inside(blk, s, a)} ::
              Inside(blk, s, a) && !(node <= s < node + size) && m[s].dataType != FreeBlock && 0 <= a < |m| ==> m'[a] == m[a])
    {
      ghost var m := mem[..];
      forall a | node <= a < node + size ensures !InFree(m, FreeBeside(m, P, blk, payloadStart, payloadEnd, node, size), a) {
        ApartFromRun(m, P, blk, FreeBeside(m, P, blk, payloadStart, payloadEnd, node, size), node, size, a);
      }
      res, blk' := GiveBack(node, size, P, blk);
      ReturnedByBlock(m, mem[..], P, blk, blk', payloadStart, payloadEnd, node, size, res);
    }

    /** The same in terms of the free list. */
    method GiveBack(node: int, size: nat, ghost P: set<int>, ghost blk: Blocks) returns (res: int, ghost blk': Blocks)
      requires ClusterIn(mem[..], P, payloadStart, payloadEnd) && Vacated(mem[..], P, blk, node, size)
      requires payloadStart <= node && node + size <= payloadEnd
      requires FreeListOk(mem[..], Head(), Tail(), FreeBeside(mem[..], P, blk, payloadStart, payloadEnd, node, size))
      modifies mem
      ensures ClusterOk(mem[..], P, blk', payloadStart, payloadEnd)
      ensures OnlyCluster(old(mem[..]), blk, mem[..], blk', payloadStart, payloadEnd)
      ensures forall cs, k :: 0 <= k < |cs| && cs[k] == Extent(payloadStart, payloadEnd) && HeapOk(old(mem[..]), P, cs, blk) ==> HeapOk(mem[..], P, cs, blk')
      ensures 0 <= res < mem.Length && Joined(blk, blk', res, res + mem[res].size)
      ensures Returned(old(mem[..]), old(FreeBeside(mem[..], P, blk, payloadStart, payloadEnd, node, size)), mem[..],
                    FreeOf(mem[..], blk', payloadStart, payloadEnd), Head(), Tail(), node, size, res)
    {
      ghost var m := mem[..];
      ghost var F := FreeBeside(m, P, blk, payloadStart, payloadEnd, node, size);
      forall a | node <= a < node + size ensures !InFree(m, F, a) {
        ApartFromRun(m, P, blk, F, node, size, a);
      }
      ghost var F';
      res, F' := LinkFreed(node, size, F);
      blk' := ReturnedCluster(m, mem[..], P, blk, payloadStart, payloadEnd, node, size, F', res);
      forall cs, k | 0 <= k < |cs| && cs[k] == Extent(payloadStart, payloadEnd) && HeapOk(m, P, cs, blk)
        ensures HeapOk(mem[..], P, cs, blk')
      {
        ClusterChanged(m, blk, mem[..], blk', P, cs, k);
      }
    }

    lemma ApartFromRun(m: Memory, P: set<int>, blk: Blocks, F: set<int>, node: int, size: nat, a: int)
      requires Vacated(m, P, blk, node, size) && F == FreeBeside(m, P, blk, payloadStart, payloadEnd, node, size)
      requires payloadEnd !in P && node + size <= payloadEnd && node <= a < node + size
      ensures !InFree(m, F, a)
    {
      forall f | f in F ensures !(f <= a < f + m[f].size) { }
    }

    /** The body of InsertInOrder; the compaction, which keeps its own account of the blocks, starts here. */
    method LinkFreed(node: int, size: nat, ghost F: set<int>) returns (res: int, ghost F': set<int>)
      requires FreeListOk(mem[..], Head(), Tail(), F)
      requires payloadEnd - payloadStart < SIZE_LIMIT
      requires payloadStart <= node && 1 <= size && node + size <= payloadEnd
      requires forall a :: node <= a < node + size ==> !InFree(mem[..], F, a)
      modifies mem
      ensures FreeListOk(mem[..], Head(), Tail(), F')
      ensures Returned(old(mem[..]), F, mem[..], F', Head(), Tail(), node, size, res)
      ensures SameOutside(old(mem[..]), mem[..], F + {node})
    {
      ghost var m := mem[..];
      var cur, total;
      ghost var G;
      cur, total, G := LinkAndCoalesce(node, size, F);
      ghost var m1 := mem[..];
      mem[cur] := FreeId(mem[cur], total);
      LinkedFrame(m1, mem[..], Head(), Tail(), G);
      Inserted(m1, mem[..], G, cur, total);
      res, F' := cur, G;
    }

    method LinkAndCoalesce(node: int, size: nat, ghost F: set<int>) returns (cur: int, total: nat, ghost G: set<int>)
      requires FreeListOk(mem[..], Head(), Tail(), F)
      requires payloadStart <= node && 1 <= size && node + size <= payloadEnd
      requires forall a :: node <= a < node + size ==> !InFree(mem[..], F, a)
      modifies mem
      ensures Inserting(mem[..], G, cur, total, true)
      ensures forall f :: f in G - {cur} ==> f + mem[f].size != cur
      ensures cur <= node && node + size <= cur + total
      ensures forall a :: Covers(mem[..], G, cur, total, a) <==> InFree(old(mem[..]), F, a) || node <= a < node + size
      ensures G <= F + {node} && SameButWords(old(mem[..]), mem[..], F + {node, Head(), Tail()})
    {
      G := LinkInOrder(node, size, F);
      total, G := CoalesceNext(node, size, G);
      cur, total, G := CoalescePrev(node, total, G);
    }

    /** Outside the free blocks in X nothing changes but the links in the two list pseudo-nodes. */
    ghost predicate SameOutside(m1: Memory, m2: Memory, X: set<int>) {
      && |m1| == |m2|
      && (forall a {:trigger m2[a]} :: 0 <= a < |m1| && a !in X && a != Head() && a != Tail() ==> m2[a] == m1[a])
      && (forall a {:trigger m2[a]} :: 0 <= a < |m1| && a !in X ==> m2[a] == m1[a].(word := m2[a].word))
    }

    lemma Inserted(m: Memory, m': Memory, G: set<int>, cur: int, size: nat)
      requires Inserting(m, G, cur, size, true) && payloadEnd - payloadStart < SIZE_LIMIT
      requires forall f :: f in G - {cur} ==> f + m[f].size != cur
      requires m' == m[cur := FreeId(m[cur], size)]
      ensures FreeBlocksOk(m', Head(), Tail(), G)
      ensures forall a :: InFree(m', G, a) <==> Covers(m, G, cur, size, a)
    {
      assert m'[cur].size == size;
      forall f, g | f in G && g in G && f < g ensures f + m'[f].size < g {
        assert f == cur || f in G - {cur};
        assert g == cur || g in G - {cur};
      }
      forall a ensures InFree(m', G, a) <==> Covers(m, G, cur, size, a) {
        if InFree(m', G, a) {
          var f :| f in G && f <= a < f + m'[f].size;
          assert f == cur || f in G - {cur};
        }
        if InFree(m, G - {cur}, a) {
          var f :| f in G - {cur} && f <= a < f + m[f].size;
          assert f in G && m'[f] == m[f];
        }
      }
    }

    lemma ApartFromFree(m: Memory, node: int, size: nat, F: set<int>)
      requires FreeBlocksOk(m, Head(), Tail(), F)
      requires 1 <= size && forall a :: node <= a < node + size ==> !InFree(m, F, a)
      ensures node !in F
      ensures forall f :: f in F ==> f + m[f].size <= node || node + size <= f
    {
      assert !InFree(m, F, node);
      forall f | f in F ensures f + m[f].size <= node || node + size <= f {
        var coveredAtStart := InFree(m, F, f);
      }
    }

    method LinkInOrder(node: int, size: nat, ghost F: set<int>) returns (ghost G: set<int>)
      requires FreeListOk(mem[..], Head(), Tail(), F)
      requires payloadStart <= node && 1 <= size && node + size <= payloadEnd
      requires forall a :: node <= a < node + size ==> !InFree(mem[..], F, a)
      modifies mem
      ensures Inserting(mem[..], G, node, size, false)
      ensures forall a :: Covers(mem[..], G, node, size, a) <==> InFree(old(mem[..]), F, a) || node <= a < node + size
      ensures G == F + {node} && SameButWords(old(mem[..]), mem[..], G + {Head(), Tail()})
    {
      ghost var m := mem[..];
      ApartFromFree(m, node, size, F);
      var ptr := FirstAbove(node, F);
      mem[node] := mem[node].(word := Link(NULL, NULL));
      LinkedFrame(m, mem[..], Head(), Tail(), F);
      InsertBeforeNode(mem, ptr, node, Head(), Tail(), F);
      G := F + {node};
      assert G - {node} == F;
      FreeBlocksFrame(m, mem[..], Head(), Tail(), F);
    }

    /** Try to coalesce with the following free block. */
    method CoalesceNext(cur: int, size: nat, ghost G: set<int>) returns (total: nat, ghost G': set<int>)
      requires Inserting(mem[..], G, cur, size, false)
      modifies mem
      ensures G' <= G && Inserting(mem[..], G', cur, total, true) && size <= total
      ensures forall a :: Covers(mem[..], G', cur, total, a) <==> Covers(old(mem[..]), G, cur, size, a)
      ensures SameButWords(old(mem[..]), mem[..], G + {Head(), Tail()})
    {
      ghost var m := mem[..];
      total, G' := size, G;
      var ptr := Next(cur);
      NextNeighbour(m, G, cur, size);
      if Next(ptr) != NULL && cur + size == ptr {
        total := size + mem[ptr].size;
        Unlink(mem, ptr, Head(), Tail(), G);
        G' := G - {ptr};
        AbsorbNext(m, mem[..], G, cur, size);
      }
    }

    lemma NextNeighbour(m: Memory, G: set<int>, cur: int, size: nat)
      requires Inserting(m, G, cur, size, false)
      ensures Node(Head(), Tail(), G, NextOf(m, cur)) && cur < NextOf(m, cur)
      ensures NextOf(m, NextOf(m, cur)) != NULL <==> NextOf(m, cur) in G
      ensures cur + size in G ==> NextOf(m, cur) == cur + size
    {
      var ptr := NextOf(m, cur);
      assert Node(Head(), Tail(), G, cur) && Node(Head(), Tail(), G, ptr);
      assert ptr != Tail() ==> ptr < NextOf(m, ptr);
      if cur + size in G {
        assert Node(Head(), Tail(), G, cur + size);
        assert ptr <= cur + size;
      }
    }

    lemma AbsorbNext(m: Memory, m': Memory, G: set<int>, cur: int, size: nat)
      requires Inserting(m, G, cur, size, false) && cur + size in G
      requires SameButWords(m, m', G + {Head(), Tail()})
      requires Linked(m', Head(), Tail(), G - {cur + size})
      ensures Inserting(m', G - {cur + size}, cur, size + m[cur + size].size, true)
      ensures forall a :: Covers(m', G - {cur + size}, cur, size + m[cur + size].size, a) <==> Covers(m, G, cur, size, a)
    {
      var ptr := cur + size;
      assert G - {ptr} - {cur} == G - {cur} - {ptr};
      assert ptr in G - {cur} && ptr + m[ptr].size !in G - {cur};
      FreeBlocksFrame(m, m', Head(), Tail(), G - {cur});
      MergedCover(m, m', Head(), Tail(), G - {cur}, ptr);
    }

    /** Try to coalesce with the preceding free block. */
    method CoalescePrev(cur: int, size: nat, ghost G: set<int>) returns (cur': int, total: nat, ghost G': set<int>)
      requires Inserting(mem[..], G, cur, size, true)
      modifies mem
      ensures G' <= G && Inserting(mem[..], G', cur', total, true)
      ensures forall f :: f in G' - {cur'} ==> f + mem[f].size != cur'
      ensures cur' <= cur && cur + size <= cur' + total
      ensures forall a :: Covers(mem[..], G', cur', total, a) <==> Covers(old(mem[..]), G, cur, size, a)
      ensures SameButWords(old(mem[..]), mem[..], G + {Head(), Tail()})
    {
      ghost var m := mem[..];
      cur', total, G' := cur, size, G;
      PrevNeighbour(m, G, cur, size);
      var ptr := Prev(cur);
      if Prev(ptr) != NULL && ptr + mem[ptr].size == cur {
        total := size + mem[ptr].size;
        Unlink(mem, cur, Head(), Tail(), G);
        G' := G - {cur};
        cur' := ptr;
        AbsorbIntoPrev(m, mem[..], G, cur, size, ptr);
      }
    }

    lemma PrevNeighbour(m: Memory, G: set<int>, cur: int, size: nat)
      requires Inserting(m, G, cur, size, true)
      ensures Node(Head(), Tail(), G, PrevOf(m, cur)) && PrevOf(m, cur) < cur
      ensures PrevOf(m, PrevOf(m, cur)) != NULL <==> PrevOf(m, cur) in G
      ensures forall f :: f in G - {cur} && f + m[f].size == cur ==> f == PrevOf(m, cur)
    {
      PrevIsNode(m, Head(), Tail(), G, cur);
      var ptr := PrevOf(m, cur);
      if ptr in G { PrevIsNode(m, Head(), Tail(), G, ptr); }
      forall f | f in G - {cur} && f + m[f].size == cur ensures f == ptr {
        assert Node(Head(), Tail(), G, f);
        assert f < ptr ==> ptr in G - {cur};
      }
    }

    lemma AbsorbIntoPrev(m: Memory, m': Memory, G: set<int>, cur: int, size: nat, ptr: int)
      requires Inserting(m, G, cur, size, true) && ptr in G && ptr < cur && ptr + m[ptr].size == cur
      requires SameButWords(m, m', G + {Head(), Tail()})
      requires Linked(m', Head(), Tail(), G - {cur})
      ensures Inserting(m', G - {cur}, ptr, size + m[ptr].size, true)
      ensures forall f :: f in G - {cur} - {ptr} ==> f + m'[f].size != ptr
      ensures forall a :: Covers(m', G - {cur}, ptr, size + m[ptr].size, a) <==> Covers(m, G, cur, size, a)
    {
      FreeBlocksFrame(m, m', Head(), Tail(), G - {cur});
      MergedCover(m, m', Head(), Tail(), G - {cur}, ptr);
    }

    /** The list walk of InsertInOrder: the first node above an address, or the tail. */
    method FirstAbove(node: int, ghost F: set<int>) returns (ptr: int)
      requires Linked(mem[..], Head(), Tail(), F)
      requires payloadStart <= node < payloadEnd && node !in F
      ensures Node(Head(), Tail(), F, ptr) && node < ptr
      ensures PrevOf(mem[..], ptr) < node
    {
      ptr := Next(Head());
      while Next(ptr) != NULL
        invariant Node(Head(), Tail(), F, ptr) && ptr != Head()
        invariant PrevOf(mem[..], ptr) < node
        decreases Tail() - ptr
      {
        if ptr > node { break; }
        ptr := Next(ptr);
      }
    }

    /** CLR_RT_HeapCluster::RecoverFromGC: rebuild the free list from the blocks that were not marked. */
    method RecoverFromGC(ghost P: set<int>, ghost blk: Blocks) returns (ghost blk': Blocks)
      requires SweepPre(mem[..], P, payloadStart, payloadEnd, blk)
      requires forall s :: s in blk && !(payloadStart <= s < payloadEnd) && mem[s].dataType == FreeBlock ==> IsFree(mem[s])
      modifies mem
      ensures ClusterOk(mem[..], P, blk', payloadStart, payloadEnd)
      ensures Reclaimed(old(mem[..]), blk, mem[..], blk', payloadStart, payloadEnd)
      ensures var m0, m := old(mem[..]), mem[..];
        && (forall b, a {:trigger Inside(blk, b, a)} :: Inside(blk, b, a) && payloadStart <= b < payloadEnd && m0[b].flags.alive ==>
              && b in blk' && blk'[b] == blk[b] && m[b].dataType == m0[b].dataType != FreeBlock && 0 <= a < |m| == |m0|
              && m[a] == if a == b && !m0[b].flags.event then m0[a].(flags := m0[a].flags.(alive := false)) else m0[a])
        && (forall b, a {:trigger Inside(blk, b, a)} :: Inside(blk, b, a) && payloadStart <= b < payloadEnd && !m0[b].flags.alive ==>
              exists f :: Inside(blk', f, a) && payloadStart <= f < payloadEnd && m[f].dataType == FreeBlock)
      ensures forall f :: f in blk' && payloadStart <= f < payloadEnd && mem[f].dataType == FreeBlock ==>
        && mem[f].flags == Flags(false, false, false, true, false, false, false)
        && (f + blk'[f] == payloadEnd || (f + blk'[f] in blk' && mem[f + blk'[f]].dataType != FreeBlock))
    {
      ghost var m0 := mem[..];
      blk' := RebuildList(P, blk);
      ReclaimedByBlock(m0, blk, mem[..], blk', P, payloadStart, payloadEnd);
    }

    /** The same in terms of the free list. */
    method RebuildList(ghost P: set<int>, ghost blk: Blocks) returns (ghost blk': Blocks)
      requires SweepPre(mem[..], P, payloadStart, payloadEnd, blk)
      requires forall s :: s in blk && !(payloadStart <= s < payloadEnd) && mem[s].dataType == FreeBlock ==> IsFree(mem[s])
      modifies mem
      ensures ClusterOk(mem[..], P, blk', payloadStart, payloadEnd)
      ensures Reclaimed(old(mem[..]), blk, mem[..], blk', payloadStart, payloadEnd)
    {
      ghost var m0 := mem[..];
      ghost var F: set<int> := {};
      blk' := blk;
      var ptr := payloadStart;
      var end := payloadEnd;
      // Open the free list.
      var last := Head();
      mem[last] := SetPrev(mem[last], NULL);
      SweepOpen(m0, mem[..], P, blk);
      while ptr < end
        invariant SweepInv(m0, mem[..], P, payloadStart, payloadEnd, blk, blk', F, ptr, last)
        decreases end - ptr
      {
        if !mem[ptr].flags.alive {
          ptr, last, blk', F := ReclaimRun(ptr, last, m0, P, blk, blk', F);
        } else {
          ptr := KeepBlock(ptr, last, m0, P, blk, blk', F);
        }
      }
      CloseList(last, m0, P, blk, blk', F);
    }

    method ReclaimRun(ptr: int, last: int, ghost m0: Memory, ghost P: set<int>, ghost blk: Blocks, ghost blk0: Blocks,
            ghost F: set<int>)
      returns (next: int, last': int, ghost blk': Blocks, ghost F': set<int>)
      requires SweepPre(m0, P, payloadStart, payloadEnd, blk)
      requires SweepInv(m0, mem[..], P, payloadStart, payloadEnd, blk, blk0, F, ptr, last)
      requires ptr < payloadEnd && !mem[ptr].flags.alive
      modifies mem
      ensures SweepInv(m0, mem[..], P, payloadStart, payloadEnd, blk, blk', F', next, last') && ptr < next
    {
      ghost var m := mem[..];
      assert m[ptr] == m0[ptr];
      var lenTot;
      next, lenTot := ScanDead(ptr, m0, P, blk);
      mem[ptr] := SetPrev(FreeId(mem[ptr], lenTot), last);
      mem[last] := SetNext(mem[last], ptr);
      SweepDead(m0, m, mem[..], P, payloadStart, payloadEnd, blk, blk0, F, ptr, last, next);
      last', blk', F' := ptr, Merge(blk0, ptr, next), F + {ptr};
    }

    method KeepBlock(ptr: int, ghost last: int, ghost m0: Memory, ghost P: set<int>, ghost blk: Blocks,
            ghost blk': Blocks, ghost F: set<int>)
      returns (next: int)
      requires SweepPre(m0, P, payloadStart, payloadEnd, blk)
      requires SweepInv(m0, mem[..], P, payloadStart, payloadEnd, blk, blk', F, ptr, last)
      requires ptr < payloadEnd && mem[ptr].flags.alive
      modifies mem
      ensures SweepInv(m0, mem[..], P, payloadStart, payloadEnd, blk, blk', F, next, last) && ptr < next
    {
      ghost var m := mem[..];
      assert m[ptr] == m0[ptr];
      SweepLive(m0, m, m[ptr := Unmarked(m[ptr])], P, payloadStart, payloadEnd, blk, blk', F, ptr, last);
      if !mem[ptr].flags.event { mem[ptr] := mem[ptr].(flags := mem[ptr].flags.(alive := false)); }
      assert mem[..] == m[ptr := Unmarked(m[ptr])];
      next := ptr + mem[ptr].size;
    }

    method CloseList(last: int, ghost m0: Memory, ghost P: set<int>, ghost blk: Blocks, ghost blk': Blocks,
            ghost F: set<int>)
      requires SweepPre(m0, P, payloadStart, payloadEnd, blk)
      requires forall s :: s in blk && !(payloadStart <= s < payloadEnd) && m0[s].dataType == FreeBlock ==> IsFree(m0[s])
      requires SweepInv(m0, mem[..], P, payloadStart, payloadEnd, blk, blk', F, payloadEnd, last)
      modifies mem
      ensures ClusterOk(mem[..], P, blk', payloadStart, payloadEnd)
      ensures Reclaimed(m0, blk, mem[..], blk', payloadStart, payloadEnd)
    {
      ghost var m := mem[..];
      mem[last] := SetNext(mem[last], Tail());
      mem[Tail()] := SetPrev(mem[Tail()], last);
      mem[Tail()] := SetNext(mem[Tail()], NULL);
      ListClosed(m0, m, mem[..], P, blk, blk', F, last);
    }

    lemma ListClosed(m0: Memory, m: Memory, m': Memory, P: set<int>, blk: Blocks, blk': Blocks, F: set<int>, last: int)
      requires SweepPre(m0, P, payloadStart, payloadEnd, blk)
      requires forall s :: s in blk && !(payloadStart <= s < payloadEnd) && m0[s].dataType == FreeBlock ==> IsFree(m0[s])
      requires SweepInv(m0, m, P, payloadStart, payloadEnd, blk, blk', F, payloadEnd, last)
      requires |m'| == |m| && m'[last] == SetNext(m[last], Tail()) && m'[Tail()] == m[Tail()].(word := Link(NULL, last))
      requires forall a :: 0 <= a < |m| && a != last && a != Tail() ==> m'[a] == m[a]
      ensures ClusterOk(m', P, blk', payloadStart, payloadEnd)
      ensures Reclaimed(m0, blk, m', blk', payloadStart, payloadEnd)
    {
      SweepDone(m0, m, m', P, payloadStart, payloadEnd, blk, blk', F, last);
      SweepResult(m0, m', P, payloadStart, payloadEnd, blk, blk', F);
    }

    lemma SweepOpen(m0: Memory, m: Memory, P: set<int>, blk: Blocks)
      requires SweepPre(m0, P, payloadStart, payloadEnd, blk)
      requires m == m0[Head() := SetPrev(m0[Head()], NULL)]
      ensures SweepInv(m0, m, P, payloadStart, payloadEnd, blk, blk, {}, payloadStart, Head())
    {
      PayloadBlock(P, blk, payloadStart, payloadEnd);
    }

    /** The inner loop of RecoverFromGC: the end and the length of a run of unmarked blocks. */
    method ScanDead(ptr: int, ghost m0: Memory, ghost P: set<int>, ghost blk: Blocks) returns (next: int, lenTot: nat)
      requires SweepPre(m0, P, payloadStart, payloadEnd, blk)
      requires payloadStart <= ptr < payloadEnd && ptr in blk && !m0[ptr].flags.alive
      requires |m0| == mem.Length && forall a :: ptr <= a < payloadEnd ==> mem[a] == m0[a]
      ensures DeadRun(m0, blk, payloadStart, payloadEnd, ptr, next) && lenTot == next - ptr
      ensures next < payloadEnd ==> m0[next].flags.alive
    {
      BlockFits(P, payloadStart, payloadEnd, blk, ptr);
      next, lenTot := ptr + mem[ptr].size, mem[ptr].size;
      assert forall a :: ptr <= a < next ==> Inside(blk, ptr, a);
      while next < payloadEnd && !mem[next].flags.alive
        invariant DeadRun(m0, blk, payloadStart, payloadEnd, ptr, next) && lenTot == next - ptr
        decreases payloadEnd - next
      {
        BlockFits(P, payloadStart, payloadEnd, blk, next);
        var len := mem[next].size;
        assert forall a :: next <= a < next + len ==> Inside(blk, next, a);
        next := next + len;
        lenTot := lenTot + len;
      }
    }

    /** The payload of this cluster, and that of the others. */
    ghost function Own(P: set<int>): set<int> { set a | a in P && payloadStart <= a < payloadEnd }
    ghost function Others(P: set<int>): set<int> { set a | a in P && !(payloadStart <= a < payloadEnd) }

    /** One block has been added, which covers [lo, hi), if there is anything to cover. */
    ghost predicate OneMore(blk: Blocks, blk': Blocks, lo: int, hi: int) {
      && (forall s :: s in blk' <==> s in blk || s == lo < hi)
      && (forall s :: s in blk' ==> blk'[s] == if s in blk then blk[s] else hi - lo)
    }

    /** CLR_RT_HeapCluster::HeapCluster_Initialize: mark the payload as free blocks of at most blockSize
        cells, and let the reclamation walk join them.  The blocks in blk are those of the clusters that have
        been set up before. */
    method Initialize(blockSize: nat, ghost P: set<int>, ghost blk: Blocks) returns (ghost blk': Blocks)
      requires 1 <= blockSize < SIZE_LIMIT
      requires ClusterIn(mem[..], P, payloadStart, payloadEnd) && HeapShape(mem[..], Others(P), blk)
      modifies mem
      ensures ClusterOk(mem[..], P, blk', payloadStart, payloadEnd)
      ensures OnlyCluster(old(mem[..]), blk, mem[..], blk', payloadStart, payloadEnd)
      ensures OneMore(blk, blk', payloadStart, payloadEnd)
      ensures payloadStart < payloadEnd ==> mem[payloadStart].dataType == FreeBlock
      ensures forall cs :: HeapOk(old(mem[..]), Others(P), cs, blk) && Layout(old(mem[..]), P, cs + [Extent(payloadStart, payloadEnd)]) ==>
        HeapOk(mem[..], P, cs + [Extent(payloadStart, payloadEnd)], blk')
    {
      ghost var m := mem[..];
      ghost var tiles := MarkFree(blockSize);
      ghost var tiled := mem[..];
      TiledFree(m, tiled, P, blk, tiles);
      blk' := RecoverFromGC(P, blk + tiles);
      OneFreeBlock(m, tiled, mem[..], P, blk, tiles, blk');
      forall cs | HeapOk(m, Others(P), cs, blk) && Layout(m, P, cs + [Extent(payloadStart, payloadEnd)])
        ensures HeapOk(mem[..], P, cs + [Extent(payloadStart, payloadEnd)], blk')
      {
        ClusterAdded(m, blk, mem[..], blk', Others(P), P, cs, Extent(payloadStart, payloadEnd));
      }
    }

    /** The payload up to ptr consists of unmarked free blocks. */
    ghost predicate Tiled(m: Memory, blk: Blocks, ptr: int) {
      && 0 <= payloadStart
      && (forall s :: s in blk ==> payloadStart <= s < |m| && 1 <= blk[s] && s + blk[s] <= ptr)
      && (forall s :: s in blk ==> m[s].size == blk[s] && m[s].dataType == FreeBlock && !m[s].flags.alive)
      && (forall s, t :: s in blk && t in blk && s < t ==> s + blk[s] <= t)
      && (forall a {:trigger InSomeBlock(blk, a)} :: payloadStart <= a < ptr ==> InSomeBlock(blk, a))
    }

    ghost predicate InSomeBlock(blk: Blocks, a: int) {
      exists s :: Inside(blk, s, a)
    }

    method MarkFree(blockSize: nat) returns (ghost blk: Blocks)
      requires 1 <= blockSize < SIZE_LIMIT && 1 < payloadStart <= payloadEnd < mem.Length
      modifies mem
      ensures Tiled(mem[..], blk, payloadEnd)
      ensures forall a {:trigger mem[a]} :: 0 <= a < mem.Length && !(payloadStart <= a < payloadEnd) ==> mem[a] == old(mem[a])
    {
      var ptr, size := payloadStart, blockSize;
      blk := map[];
      while ptr < payloadEnd
        invariant payloadStart <= ptr <= payloadEnd && 1 <= size <= blockSize
        invariant Tiled(mem[..], blk, ptr)
        invariant forall a {:trigger mem[a]} :: 0 <= a < mem.Length && !(payloadStart <= a < payloadEnd) ==> mem[a] == old(mem[a])
        decreases payloadEnd - ptr
      {
        if ptr + size > payloadEnd { size := payloadEnd - ptr; }
        mem[ptr] := Cell(FreeBlock, NO_FLAGS, size, mem[ptr].word);
        ghost var blk0 := blk;
        blk := blk[ptr := size];
        forall a | payloadStart <= a < ptr + size ensures InSomeBlock(blk, a) {
          if a < ptr {
            assert InSomeBlock(blk0, a);
            var s :| Inside(blk0, s, a);
            assert Inside(blk, s, a);
          } else {
            assert Inside(blk, ptr, a);
          }
        }
        ptr := ptr + size;
      }
    }

    lemma TiledFree(m: Memory, tiled: Memory, P: set<int>, blk: Blocks, tiles: Blocks)
      requires ClusterIn(m, P, payloadStart, payloadEnd) && HeapShape(m, Others(P), blk) && Tiled(tiled, tiles, payloadEnd)
      requires |tiled| == |m| && forall a {:trigger tiled[a]} :: 0 <= a < |m| && !(payloadStart <= a < payloadEnd) ==> tiled[a] == m[a]
      ensures SweepPre(tiled, P, payloadStart, payloadEnd, blk + tiles) && blk.Keys !! tiles.Keys
      ensures forall s :: s in blk ==> !(payloadStart <= s < payloadEnd) && tiled[s] == m[s]
    {
      forall s, t, a | Inside(tiles, s, a) && Inside(tiles, t, a) ensures s == t { }
      forall a | a in Own(P) ensures exists s :: Inside(tiles, s, a) { assert InSomeBlock(tiles, a); }
      TilingIsPartition(Own(P), tiles);
      PartitionsJoined(Others(P), blk, Own(P), tiles);
      assert Others(P) + Own(P) == P;
      forall s | s in blk ensures !(payloadStart <= s < payloadEnd) && tiled[s] == m[s] { assert Inside(blk, s, s); }
    }

    /** The tiles, which cover the payload and are not marked, become a single block. */
    lemma OneFreeBlock(m: Memory, tiled: Memory, m': Memory, P: set<int>, blk: Blocks, tiles: Blocks, blk': Blocks)
      requires SizesMatch(m, blk) && Tiled(tiled, tiles, payloadEnd) && SweepPre(tiled, P, payloadStart, payloadEnd, blk + tiles)
      requires |tiled| == |m| && forall a {:trigger tiled[a]} :: 0 <= a < |m| && !(payloadStart <= a < payloadEnd) ==> tiled[a] == m[a]
      requires forall s :: s in blk ==> !(payloadStart <= s < payloadEnd)
      requires ClusterOk(m', P, blk', payloadStart, payloadEnd) && Reclaimed(tiled, blk + tiles, m', blk', payloadStart, payloadEnd)
      ensures OneMore(blk, blk', payloadStart, payloadEnd)
      ensures payloadStart < payloadEnd ==> m'[payloadStart].dataType == FreeBlock
      ensures OnlyCluster(m, blk, m', blk', payloadStart, payloadEnd)
    {
      var F := FreeOf(m', blk', payloadStart, payloadEnd);
      AllTilesFree(tiled, m', blk, tiles, blk');
      SingleFree(m', P, blk', F);
      BlocksSetUp(tiled, m', blk, tiles, blk', F);
      OnlyTiles(m, tiled, m', blk + tiles, blk', F);
    }

    lemma OnlyTiles(m: Memory, tiled: Memory, m': Memory, both: Blocks, blk': Blocks, F: set<int>)
      requires payloadStart <= payloadEnd
      requires |tiled| == |m| && forall a {:trigger tiled[a]} :: 0 <= a < |m| && !(payloadStart <= a < payloadEnd) ==> tiled[a] == m[a]
      requires SizesMatch(tiled, both) && SizesMatch(m', blk') && F == FreeOf(m', blk', payloadStart, payloadEnd)
      requires SweptCells(tiled, m', payloadStart, payloadEnd, both, F, payloadEnd)
      ensures |m'| == |m|
      ensures forall a {:trigger m'[a]} :: 0 <= a < |m| && !(payloadStart - 1 <= a <= payloadEnd) ==> m'[a] == m[a]
    {
    }

    lemma BlocksSetUp(tiled: Memory, m': Memory, blk: Blocks, tiles: Blocks, blk': Blocks, F: set<int>)
      requires Tiled(tiled, tiles, payloadEnd) && SizesMatch(tiled, blk + tiles) && SizesMatch(m', blk')
      requires forall s :: s in blk ==> !(payloadStart <= s < payloadEnd)
      requires F == FreeOf(m', blk', payloadStart, payloadEnd)
      requires Reclaimed(tiled, blk + tiles, m', blk', payloadStart, payloadEnd)
      ensures forall s :: s in blk' <==> s in F || s in blk
      ensures forall s :: s in blk ==> blk'[s] == blk[s]
    {
      var both := blk + tiles;
      assert forall s :: s in both <==> s in blk || s in tiles;
      assert forall s :: s in tiles ==> payloadStart <= s < payloadEnd && !tiled[s].flags.alive;
    }

    lemma AllTilesFree(tiled: Memory, m': Memory, blk: Blocks, tiles: Blocks, blk': Blocks)
      requires Tiled(tiled, tiles, payloadEnd) && SizesMatch(tiled, blk + tiles) && SizesMatch(m', blk')
      requires Reclaimed(tiled, blk + tiles, m', blk', payloadStart, payloadEnd)
      ensures forall a :: payloadStart <= a < payloadEnd ==> InFree(m', FreeOf(m', blk', payloadStart, payloadEnd), a)
    {
      forall a | payloadStart <= a < payloadEnd ensures InFree(m', FreeOf(m', blk', payloadStart, payloadEnd), a) {
        assert InSomeBlock(tiles, a);
        var s :| Inside(tiles, s, a);
        assert Inside(blk + tiles, s, a) && !tiled[s].flags.alive;
      }
    }

    /** Free blocks that cover the payload and do not touch are a single one. */
    lemma SingleFree(m: Memory, P: set<int>, blk: Blocks, F: set<int>)
      requires ClusterOk(m, P, blk, payloadStart, payloadEnd) && F == FreeOf(m, blk, payloadStart, payloadEnd)
      requires forall a :: payloadStart <= a < payloadEnd ==> InFree(m, F, a)
      ensures F == if payloadStart < payloadEnd then {payloadStart} else {}
      ensures payloadStart < payloadEnd ==> blk[payloadStart] == payloadEnd - payloadStart
    {
      forall s | s in F ensures s == payloadStart && blk[s] == payloadEnd - payloadStart {
        var before := InFree(m, F, s - 1);
        var behind := InFree(m, F, s + m[s].size);
      }
      if payloadStart < payloadEnd {
        assert InFree(m, F, payloadStart);
      }
    }

    /** CLR_RT_HeapCluster::ExtractBlocks: allocate a block of length cells, or return NULL.  The cells come from the
        free block f, the first one that is long enough, or for an event the last one; rest is what it has left, if
        anything. */
    method ExtractBlocks(dataType: DataType, flags: Flags, initializeToZero: bool, length: nat, ghost P: set<int>,
            ghost blk: Blocks)
      returns (res: int, ghost blk': Blocks, ghost f: int, ghost rest: int)
      requires ClusterOk(mem[..], P, blk, payloadStart, payloadEnd)
      requires 1 <= length && dataType != FreeBlock
      modifies mem
      ensures ClusterOk(mem[..], P, blk', payloadStart, payloadEnd)
      ensures OnlyCluster(old(mem[..]), blk, mem[..], blk', payloadStart, payloadEnd)
      ensures forall cs, k :: 0 <= k < |cs| && cs[k] == Extent(payloadStart, payloadEnd) && HeapOk(old(mem[..]), P, cs, blk) ==> HeapOk(mem[..], P, cs, blk')
      ensures res == NULL <==> NoFit(old(mem[..]), old(FreeOf(mem[..], blk, payloadStart, payloadEnd)), length)
      ensures res == NULL ==> mem[..] == old(mem[..]) && blk' == blk
      ensures res != NULL ==> Extracted(old(mem[..]), blk, mem[..], blk', payloadStart, payloadEnd, res, dataType, flags, length)
      ensures res != NULL && initializeToZero ==>
        mem[res].word == Bits(0) && forall a :: res < a < res + length ==> mem[a] == ZERO_CELL
      ensures res == NULL <==>
        forall g :: g in blk && payloadStart <= g < payloadEnd && old(mem[..])[g].dataType == FreeBlock ==> blk[g] < length
      ensures var m := old(mem[..]); res != NULL ==>
        && f in blk && payloadStart <= f < payloadEnd && m[f].dataType == FreeBlock && length <= blk[f]
        && (forall g :: g in blk && payloadStart <= g < payloadEnd && m[g].dataType == FreeBlock && length <= blk[g] ==>
              if flags.event then g <= f else f <= g)
        && res == if flags.event then f + blk[f] - length else f
      ensures var m, m' := old(mem[..]), mem[..]; res != NULL ==>
        && res in blk' && blk'[res] == length && m'[res].dataType == dataType && m'[res].flags == flags
        && rest == (if flags.event then f else f + length)
        && (length < blk[f] ==> rest in blk' && blk'[rest] == blk[f] - length && m'[rest].dataType == FreeBlock)
        && (forall s :: s in blk && s != f ==> s in blk' && blk'[s] == blk[s] && m'[s].dataType == m[s].dataType)
      ensures var m, m' := old(mem[..]), mem[..];
        forall s, a {:trigger Inside(blk, s, a)} :: Inside(blk, s, a) && m[s].dataType != FreeBlock && 0 <= a < |m| ==> m'[a] == m[a]
    {
      ghost var m := mem[..];
      res, blk' := Allocate(dataType, flags, initializeToZero, length, P, blk);
      f, rest := NULL, NULL;
      if res != NULL {
        f, rest := ExtractedByBlock(m, blk, mem[..], blk', P, payloadStart, payloadEnd, res, dataType, flags, length);
      } else {
        NothingFits(m, blk, length);
      }
    }

    lemma NothingFits(m: Memory, blk: Blocks, length: nat)
      requires SizesMatch(m, blk) && NoFit(m, FreeOf(m, blk, payloadStart, payloadEnd), length)
      ensures forall g :: g in blk && payloadStart <= g < payloadEnd && m[g].dataType == FreeBlock ==> blk[g] < length
    {
      forall g | g in blk && payloadStart <= g < payloadEnd && m[g].dataType == FreeBlock ensures blk[g] < length {
        assert g in FreeOf(m, blk, payloadStart, payloadEnd);
      }
    }

    /** The same in terms of the free list. */
    method Allocate(dataType: DataType, flags: Flags, initializeToZero: bool, length: nat, ghost P: set<int>,
            ghost blk: Blocks)
      returns (res: int, ghost blk': Blocks)
      requires ClusterOk(mem[..], P, blk, payloadStart, payloadEnd)
      requires 1 <= length && dataType != FreeBlock
      modifies mem
      ensures ClusterOk(mem[..], P, blk', payloadStart, payloadEnd)
      ensures OnlyCluster(old(mem[..]), blk, mem[..], blk', payloadStart, payloadEnd)
      ensures forall cs, k :: 0 <= k < |cs| && cs[k] == Extent(payloadStart, payloadEnd) && HeapOk(old(mem[..]), P, cs, blk) ==> HeapOk(mem[..], P, cs, blk')
      ensures res == NULL <==> NoFit(old(mem[..]), old(FreeOf(mem[..], blk, payloadStart, payloadEnd)), length)
      ensures res == NULL ==> mem[..] == old(mem[..]) && blk' == blk
      ensures res != NULL ==> Extracted(old(mem[..]), blk, mem[..], blk', payloadStart, payloadEnd, res, dataType, flags, length)
      ensures res != NULL && initializeToZero ==>
        mem[res].word == Bits(0) && forall a :: res < a < res + length ==> mem[a] == ZERO_CELL
    {
      var f := FindFit(length, flags.event, FreeOf(mem[..], blk, payloadStart, payloadEnd));
      if f == NULL {
        res, blk' := NULL, blk;
      } else {
        res, blk' := AllocateFrom(f, dataType, flags, initializeToZero, length, P, blk);
      }
      forall cs, k | 0 <= k < |cs| && cs[k] == Extent(payloadStart, payloadEnd) && HeapOk(old(mem[..]), P, cs, blk)
        ensures HeapOk(mem[..], P, cs, blk')
      {
        ClusterChanged(old(mem[..]), blk, mem[..], blk', P, cs, k);
      }
    }

    method FindFit(length: nat, backward: bool, ghost F: set<int>) returns (f: int)
      requires FreeListOk(mem[..], Head(), Tail(), F)
      ensures f == NULL <==> NoFit(mem[..], F, length)
      ensures f != NULL ==> Fit(mem[..], F, length, backward, f)
    {
      if backward {
        f := LastFit(length, F);
      } else {
        f := FirstFit(length, F);
      }
    }

    method AllocateFrom(f: int, dataType: DataType, flags: Flags, initializeToZero: bool, length: nat,
            ghost P: set<int>, ghost blk: Blocks)
      returns (res: int, ghost blk': Blocks)
      requires ClusterOk(mem[..], P, blk, payloadStart, payloadEnd)
      requires 1 <= length && dataType != FreeBlock
      requires Fit(mem[..], FreeOf(mem[..], blk, payloadStart, payloadEnd), length, flags.event, f)
      modifies mem
      ensures res != NULL && ClusterOk(mem[..], P, blk', payloadStart, payloadEnd)
      ensures OnlyCluster(old(mem[..]), blk, mem[..], blk', payloadStart, payloadEnd)
      ensures Extracted(old(mem[..]), blk, mem[..], blk', payloadStart, payloadEnd, res, dataType, flags, length)
      ensures initializeToZero ==> mem[res].word == Bits(0) && forall a :: res < a < res + length ==> mem[a] == ZERO_CELL
    {
      ghost var m := mem[..];
      ghost var F := FreeOf(m, blk, payloadStart, payloadEnd);
      ghost var F';
      res, blk', F' := TakeBlocks(f, length, flags.event, P, blk, F);
      ghost var m1 := mem[..];
      StampBlock(res, dataType, flags, initializeToZero, length);
      Stamped(m, m1, mem[..], P, blk, blk', payloadStart, payloadEnd, F', res, length);
      StartsKept(m, m1, P, blk, blk', F', res, length);
      ExtractedOnly(m, m1, mem[..], P, blk, blk', F', res, length);
    }

    lemma ExtractedOnly(m: Memory, m1: Memory, m': Memory, P: set<int>, blk: Blocks, blk': Blocks, F': set<int>,
            res: int, length: nat)
      requires ClusterOk(m, P, blk, payloadStart, payloadEnd)
      requires FreeBlocksOk(m1, Head(), Tail(), F') && |m1| == |m| == |m'| && payloadStart <= res < payloadEnd
      requires Carved(m, FreeOf(m, blk, payloadStart, payloadEnd), m', F', Head(), Tail(), res, length)
      requires Replanned(m1, FreeOf(m, blk, payloadStart, payloadEnd), blk, F', blk', res, length)
      ensures OnlyCluster(m, blk, m', blk', payloadStart, payloadEnd)
    {
      forall a | 0 <= a < |m| && !(Head() <= a <= Tail()) ensures m'[a] == m[a] {
        assert !InFree(m, FreeOf(m, blk, payloadStart, payloadEnd), a);
      }
    }

    lemma StartsKept(m: Memory, m1: Memory, P: set<int>, blk: Blocks, blk': Blocks, F': set<int>, res: int, length: nat)
      requires ClusterOk(m, P, blk, payloadStart, payloadEnd) && 1 <= length
      requires FreeBlocksOk(m1, Head(), Tail(), F')
      requires Carved(m, FreeOf(m, blk, payloadStart, payloadEnd), m1, F', Head(), Tail(), res, length)
      requires Replanned(m1, FreeOf(m, blk, payloadStart, payloadEnd), blk, F', blk', res, length)
      ensures forall s :: s in blk && s !in FreeOf(m, blk, payloadStart, payloadEnd) ==> s in blk' && blk'[s] == blk[s]
      ensures forall s :: s in blk' && s !in F' && s != res ==> s in blk
    {
      var F := FreeOf(m, blk, payloadStart, payloadEnd);
      assert InFree(m, F, res);
    }

    /** Take length cells out of the free block at f: all of it, or its back or front. */
    method TakeBlocks(f: int, length: nat, backward: bool, ghost P: set<int>, ghost blk: Blocks, ghost F: set<int>)
      returns (res: int, ghost blk': Blocks, ghost F': set<int>)
      requires ClusterOk(mem[..], P, blk, payloadStart, payloadEnd)
      requires F == FreeOf(mem[..], blk, payloadStart, payloadEnd)
      requires f in F && 1 <= length <= mem[f].size
      modifies mem
      ensures FreeListOk(mem[..], Head(), Tail(), F') && Partition(P, blk')
      ensures res == if backward then f + old(mem[f]).size - length else f
      ensures payloadStart <= res && res + length <= payloadEnd
      ensures Carved(old(mem[..]), F, mem[..], F', Head(), Tail(), res, length)
      ensures Replanned(mem[..], F, blk, F', blk', res, length)
    {
      ghost var m := mem[..];
      blk' := blk;
      if mem[f].size == length {
        res := f;
        F' := TakeWhole(f, F);
        ReplannedWhole(m, mem[..], P, blk, payloadStart, payloadEnd, f);
      } else if backward {
        res := f + (mem[f].size - length);
        blk' := Split(blk, f, mem[f].size - length);
        F' := TakeBack(f, length, F);
        ReplannedBack(m, mem[..], P, blk, payloadStart, payloadEnd, f, length);
      } else {
        res := f;
        blk' := Split(blk, f, length);
        F' := TakeFront(f, length, F);
        ReplannedFront(m, mem[..], P, blk, payloadStart, payloadEnd, f, length);
      }
    }

    method FirstFit(length: nat, ghost F: set<int>) returns (f: int)
      requires FreeListOk(mem[..], Head(), Tail(), F)
      ensures f == NULL <==> NoFit(mem[..], F, length)
      ensures f != NULL ==> Fit(mem[..], F, length, false, f)
    {
      var ptr := Next(Head());
      assert forall g :: g in F ==> ptr <= g by {
        forall g | g in F ensures ptr <= g { assert Node(Head(), Tail(), F, g); }
      }
      while Next(ptr) != NULL
        invariant Node(Head(), Tail(), F, ptr) && ptr != Head()
        invariant forall g :: g in F && g < ptr ==> mem[g].size < length
        decreases Tail() - ptr
      {
        if mem[ptr].size >= length { return ptr; }
        var next := Next(ptr);
        forall g | g in F && g < next ensures mem[g].size < length {
          assert Node(Head(), Tail(), F, g);
        }
        ptr := next;
      }
      f := NULL;
    }

    method LastFit(length: nat, ghost F: set<int>) returns (f: int)
      requires FreeListOk(mem[..], Head(), Tail(), F)
      ensures f == NULL <==> NoFit(mem[..], F, length)
      ensures f != NULL ==> Fit(mem[..], F, length, true, f)
    {
      PrevIsNode(mem[..], Head(), Tail(), F, Tail());
      var ptr := Prev(Tail());
      assert forall g :: g in F ==> g <= ptr by {
        forall g | g in F ensures g <= ptr { assert Node(Head(), Tail(), F, g); }
      }
      while Prev(ptr) != NULL
        invariant Node(Head(), Tail(), F, ptr) && ptr != Tail()
        invariant forall g :: g in F && g > ptr ==> mem[g].size < length
        decreases ptr
      {
        PrevIsNode(mem[..], Head(), Tail(), F, ptr);
        if mem[ptr].size >= length { return ptr; }
        var prev := Prev(ptr);
        forall g | g in F && g > prev ensures mem[g].size < length {
          assert Node(Head(), Tail(), F, g);
        }
        ptr := prev;
      }
      if ptr != Head() { PrevIsNode(mem[..], Head(), Tail(), F, ptr); }
      f := NULL;
    }

    /** The whole free block is unlinked. */
    method TakeWhole(f: int, ghost F: set<int>) returns (ghost F': set<int>)
      requires FreeListOk(mem[..], Head(), Tail(), F) && f in F
      modifies mem
      ensures F' == F - {f} && FreeListOk(mem[..], Head(), Tail(), F')
      ensures Carved(old(mem[..]), F, mem[..], F', Head(), Tail(), f, old(mem[f]).size)
      ensures forall g :: g in F ==> mem[g] == old(mem[g]).(word := mem[g].word)
    {
      ghost var m := mem[..];
      PrevIsNode(m, Head(), Tail(), F, f);
      assert Node(Head(), Tail(), F, f) && Node(Head(), Tail(), F, NextOf(m, f));
      var next, prev := Next(f), Prev(f);
      mem[prev] := SetNext(mem[prev], next);
      mem[next] := SetPrev(mem[next], prev);
      F' := F - {f};
      WholeTaken(m, mem[..], F, f);
    }

    lemma WholeTaken(m: Memory, m': Memory, F: set<int>, f: int)
      requires FreeListOk(m, Head(), Tail(), F) && f in F && |m'| == |m|
      requires var prev, next := PrevOf(m, f), NextOf(m, f);
        && 0 <= prev < |m| && 0 <= next < |m| && prev < f < next
        && m'[prev] == SetNext(m[prev], next) && m'[next] == SetPrev(m[next], prev)
        && (prev == Head() || prev in F) && (next == Tail() || next in F)
        && (forall a :: 0 <= a < |m| && a != prev && a != next ==> m'[a] == m[a])
      ensures FreeListOk(m', Head(), Tail(), F - {f})
      ensures Carved(m, F, m', F - {f}, Head(), Tail(), f, m[f].size)
    {
      assert Linked(m', Head(), Tail(), F - {f}) by { LinkedAfterUnlink(m, m', Head(), Tail(), F, f); }
      WholeCarved(m, m', Head(), Tail(), F, f);
      assert InFree(m, F, f);
      CarvedFrom(m, F, m', F - {f}, f, m[f].size, f);
    }

    /** The front of the free block is taken; its remainder replaces it in the list. */
    method TakeFront(f: int, length: nat, ghost F: set<int>) returns (ghost F': set<int>)
      requires FreeListOk(mem[..], Head(), Tail(), F) && f in F && 1 <= length < mem[f].size
      requires payloadEnd - payloadStart < SIZE_LIMIT
      modifies mem
      ensures F' == F - {f} + {f + length} && FreeListOk(mem[..], Head(), Tail(), F')
      ensures Carved(old(mem[..]), F, mem[..], F', Head(), Tail(), f, length)
      ensures forall g :: g in F ==> mem[g] == old(mem[g]).(word := mem[g].word)
      ensures mem[f + length].size == old(mem[f]).size - length
    {
      ghost var m := mem[..];
      PrevIsNode(m, Head(), Tail(), F, f);
      assert Node(Head(), Tail(), F, f) && Node(Head(), Tail(), F, NextOf(m, f));
      var next, prev := Next(f), Prev(f);
      var ptr := f + length;
      var available := mem[f].size - length;
      mem[ptr] := FreeId(mem[ptr], available);
      mem[ptr] := SetNext(mem[ptr], next);
      mem[ptr] := SetPrev(mem[ptr], prev);
      mem[prev] := SetNext(mem[prev], ptr);
      mem[next] := SetPrev(mem[next], ptr);
      F' := F - {f} + {ptr};
      FrontTaken(m, mem[..], F, f, length);
    }

    lemma FrontTaken(m: Memory, m': Memory, F: set<int>, f: int, length: nat)
      requires FreeListOk(m, Head(), Tail(), F) && f in F && 1 <= length < m[f].size
      requires |m'| == |m|
      requires var p, prev, next := f + length, PrevOf(m, f), NextOf(m, f);
        && 0 <= prev < |m| && 0 <= next < |m| && prev < f < p < next
        && m'[p] == Cell(FreeBlock, FREE_FLAGS, m[f].size - length, Link(next, prev))
        && m'[prev] == SetNext(m[prev], p) && m'[next] == SetPrev(m[next], p)
        && (prev == Head() || prev in F) && (next == Tail() || next in F)
        && (forall a :: 0 <= a < |m| && a != p && a != prev && a != next ==> m'[a] == m[a])
      ensures FreeListOk(m', Head(), Tail(), F - {f} + {f + length})
      ensures Carved(m, F, m', F - {f} + {f + length}, Head(), Tail(), f, length)
    {
      RelinkedToRemainder(m, m', Head(), Tail(), F, f, f + length);
      FrontCarved(m, m', Head(), Tail(), F, f, length);
      assert InFree(m, F, f + length);
      CarvedFrom(m, F, m', F - {f} + {f + length}, f, length, f + length);
    }

    /** The back of the free block is taken; the rest stays in the list. */
    method TakeBack(f: int, length: nat, ghost F: set<int>) returns (ghost F': set<int>)
      requires FreeListOk(mem[..], Head(), Tail(), F) && f in F && 1 <= length < mem[f].size
      requires payloadEnd - payloadStart < SIZE_LIMIT
      modifies mem
      ensures F' == F && FreeListOk(mem[..], Head(), Tail(), F')
      ensures Carved(old(mem[..]), F, mem[..], F', Head(), Tail(), f + old(mem[f]).size - length, length)
      ensures forall g :: g in F && g != f ==> mem[g] == old(mem[g])
      ensures mem[f].size == old(mem[f]).size - length
    {
      ghost var m := mem[..];
      F' := F;
      mem[f] := FreeId(mem[f], mem[f].size - length);
      LinkedFrame(m, mem[..], Head(), Tail(), F);
      BackCarved(m, mem[..], Head(), Tail(), F, f, length);
      assert InFree(m, F, f);
      CarvedFrom(m, F, mem[..], F, f + m[f].size - length, length, f);
    }

    /** Free cells aside, nothing changes outside the list. */
    lemma CarvedFrom(m: Memory, F: set<int>, m': Memory, F': set<int>, res: int, length: nat, p: int)
      requires FreeBlocksOk(m, Head(), Tail(), F) && FreeBlocksOk(m', Head(), Tail(), F') && |m'| == |m|
      requires forall a :: res <= a < res + length ==> InFree(m, F, a)
      requires forall a :: InFree(m', F', a) <==> InFree(m, F, a) && !(res <= a < res + length)
      requires InFree(m, F, p)
      requires SameOutside(m, m', F + {p})
      ensures Carved(m, F, m', F', Head(), Tail(), res, length)
    {
      forall a | 0 <= a < |m| && !InFree(m, F, a) && a != Head() && a != Tail() ensures m'[a] == m[a] {
        assert a !in F + {p};
      }
    }

    /** Write the identifier of the new block and clear its contents if asked to. */
    method StampBlock(res: int, dataType: DataType, flags: Flags, initializeToZero: bool, length: nat)
      requires 0 <= res && 1 <= length && res + length <= mem.Length
      modifies mem
      ensures mem[res].dataType == dataType && mem[res].flags == flags && mem[res].size == length
      ensures forall a :: 0 <= a < mem.Length && !(res <= a < res + length) ==> mem[a] == old(mem[a])
      ensures initializeToZero ==> mem[res].word == Bits(0) && forall a :: res < a < res + length ==>
        mem[a] == Cell(Other, Flags(false, false, false, false, false, false, false), 0, Bits(0))
    {
      mem[res] := Cell(dataType, flags, length, mem[res].word);
      if initializeToZero {
        mem[res] := mem[res].(word := Bits(0));
        var i := res + 1;
        while i < res + length
          invariant res < i <= res + length
          invariant forall a :: res < a < i ==> mem[a] == ZERO_CELL
          invariant forall a :: 0 <= a < mem.Length && !(res < a < res + length) && a != res ==> mem[a] == old(mem[a])
          invariant mem[res] == Cell(dataType, flags, length, Bits(0))
        {
          mem[i] := ZERO_CELL;
          i := i + 1;
        }
      }
    }
  }
}
