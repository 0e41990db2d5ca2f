/** Setting up the heap: the memory is cut into clusters, each of which starts as one free block. */
module HeapSetups {
  import opened HeapCells
  import opened Partitions
  import opened Sweeping
  import opened HeapClusters

  /** CLR_RT_HeapBlock::HB_MaxSize. */
  const MAX_SIZE := SIZE_LIMIT - 1
  /** The cells of a cluster that are not payload, and the bytes of a cell. */
  const HEADER_SIZE := 2
  const CELL_BYTES := 12

  /** The clusters that [location, end) is cut into: all but the last of full size, and none that would have no
      payload. */
  ghost function CutUp(location: nat, end: nat): seq<Extent>
    decreases end - location
  {
    if end - location <= HEADER_SIZE then []
    else if end - location < MAX_SIZE then [Extent(location + 1, end - 1)]
    else [Extent(location + 1, location + MAX_SIZE - 1)] + CutUp(location + MAX_SIZE, end)
  }

  /** Every block is free, so nothing is in use. */
  ghost predicate AllFree(m: Memory, blk: Blocks) {
    forall s :: s in blk ==> 0 <= s < |m| && m[s].dataType == FreeBlock
  }

  /** The clusters in cs are set up: all their blocks are free. */
  ghost predicate SetUp(m: Memory, P: set<int>, cs: seq<Extent>, blk: Blocks) {
    HeapOk(m, P, cs, blk) && AllFree(m, blk)
  }

  /** The clusters in cs have been cut off the memory below first, and nothing outside of it has changed. */
  ghost predicate Cutting(m0: Memory, m: Memory, location: nat, end: nat, first: int, P: set<int>, cs: seq<Extent>, blk: Blocks) {
    && location <= first <= end && |m| == |m0| && SetUp(m, P, cs, blk)
    && cs + CutUp(first, end) == CutUp(location, end)
    && (forall a :: a in P ==> a + 1 < first)
    && (forall k :: 0 <= k < |cs| ==> cs[k].end < first)
    && (forall a {:trigger m[a]} :: 0 <= a < |m| && !(location <= a < end) ==> m[a] == m0[a])
  }

  lemma CutStart(m: Memory, location: nat, end: nat)
    requires location <= end
    ensures Cutting(m, m, location, end, location, {}, [], map[])
  {
  }

  lemma CutDone(m0: Memory, m: Memory, location: nat, end: nat, first: int, P: set<int>, cs: seq<Extent>, blk: Blocks)
    requires Cutting(m0, m, location, end, first, P, cs, blk) && end - first <= HEADER_SIZE
    ensures SetUp(m, P, CutUp(location, end), blk) && cs == CutUp(location, end)
    ensures |m| == |m0| && forall a :: 0 <= a < |m| && !(location <= a < end) ==> m[a] == m0[a]
  {
    assert cs + [] == cs;
  }

  /** The next cluster is cut off. */
  lemma CutNext(location: nat, end: nat, cs: seq<Extent>, first: nat)
    requires location <= first < end && HEADER_SIZE < end - first && cs + CutUp(first, end) == CutUp(location, end)
    ensures var n := if end - first < MAX_SIZE then end - first else MAX_SIZE;
      cs + [Extent(first + 1, first + n - 1)] + CutUp(first + n, end) == CutUp(location, end)
  {
    var n := if end - first < MAX_SIZE then end - first else MAX_SIZE;
    var c := Extent(first + 1, first + n - 1);
    assert CutUp(first, end) == [c] + CutUp(first + n, end);
    assert cs + ([c] + CutUp(first + n, end)) == cs + [c] + CutUp(first + n, end);
  }

  /** One more cluster behind the others. */
  lemma LayoutMore(m: Memory, P: set<int>, cs: seq<Extent>, first: int, size: int)
    requires Layout(m, P, cs) && 0 < first && HEADER_SIZE < size <= MAX_SIZE && first + size <= |m|
    requires forall a :: a in P ==> a + 1 < first
    requires forall k :: 0 <= k < |cs| ==> cs[k].end < first
    ensures Layout(m, P + Span(first + 1, first + size - 1), cs + [Extent(first + 1, first + size - 1)])
  {
    var c := Extent(first + 1, first + size - 1);
    var P', cs' := P + Span(c.start, c.end), cs + [c];
    forall k | 0 <= k < |cs'| ensures ClusterIn(m, P', cs'[k].start, cs'[k].end) {
      assert k < |cs| ==> ClusterIn(m, P, cs[k].start, cs[k].end);
    }
    forall a | a in P' ensures InSome(cs', a) {
      if a in P {
        assert InSome(cs, a);
        var k :| 0 <= k < |cs| && cs[k].start <= a < cs[k].end;
        assert cs'[k] == cs[k];
      } else {
        assert cs'[|cs|] == c;
      }
    }
  }

  class ExecutionEngine {
    const mem: array<Cell>
    var heap: seq<HeapCluster>

    constructor (mem: array<Cell>)
      ensures this.mem == mem && heap == []
    {
      this.mem, heap := mem, [];
    }

    /** The clusters of the heap, in order. */
    ghost predicate Serves(cs: seq<Extent>)
      reads this
    {
      && |heap| == |cs|
      && (forall k :: 0 <= k < |cs| ==> heap[k].mem == mem && heap[k].payloadStart == cs[k].start && heap[k].payloadEnd == cs[k].end)
    }

    /** CLR_RT_ExecutionEngine::AllocateHeaps: cut the memory of the heap into clusters, and set up each.  Fails if
        there is no room for a single one. */
    method AllocateHeaps(location: nat, size: nat) returns (ok: bool, ghost P: set<int>, ghost blk: Blocks)
      requires heap == [] && 0 < location && location + size <= mem.Length
      modifies this`heap, mem
      ensures ok <==> HEADER_SIZE < size
      ensures !ok ==> heap == [] && mem[..] == old(mem[..])
      ensures Serves(CutUp(location, location + size))
      ensures SetUp(mem[..], P, CutUp(location, location + size), blk)
      ensures forall a :: 0 <= a < mem.Length && !(location <= a < location + size) ==> mem[a] == old(mem[a])
    {
      ghost var m0 := mem[..];
      ghost var first, cs := location, [];
      P, blk, ok := {}, map[], HEADER_SIZE < size;
      CutStart(m0, location, location + size);
      if ok {
        P, cs, blk, first := CutHeap(location, size);
      }
      CutDone(m0, mem[..], location, location + size, first, P, cs, blk);
    }

    /** The loop of AllocateHeaps. */
    method CutHeap(location: nat, size: nat) returns (ghost P: set<int>, ghost cs: seq<Extent>, ghost blk: Blocks, ghost first: int)
      requires heap == [] && 0 < location && location + size <= mem.Length
      modifies this`heap, mem
      ensures Serves(cs) && Cutting(old(mem[..]), mem[..], location, location + size, first, P, cs, blk)
      ensures location + size - first <= HEADER_SIZE
    {
      ghost var m0 := mem[..];
      P, cs, blk := {}, [], map[];
      CutStart(m0, location, location + size);
      var heapFirstFree, heapFree, i := location, size, 0;
      while heapFree > HEADER_SIZE
        invariant 0 <= i && heapFirstFree + heapFree == location + size
        invariant Serves(cs) && Cutting(m0, mem[..], location, location + size, heapFirstFree, P, cs, blk)
        decreases heapFree
      {
        var n := if heapFree < MAX_SIZE then heapFree else MAX_SIZE;
        P, blk := AddCluster(heapFirstFree, n, BlockSize(i), m0, location, location + size, P, cs, blk);
        cs := cs + [Extent(heapFirstFree + 1, heapFirstFree + n - 1)];
        heapFirstFree, heapFree, i := heapFirstFree + n, heapFree - n, i + n * CELL_BYTES;
      }
      first := heapFirstFree;
    }

    /** The further up, the larger the blocks that a cluster is cut into before they are joined. */
    function BlockSize(i: nat): (n: nat)
      ensures 1 <= n <= MAX_SIZE
    {
      if i > 100 * 1024 * 1024 then MAX_SIZE
      else if i > 10 * 1024 * 1024 then 10 * 1024
      else if i > 1024 * 1024 then 1024
      else 1
    }

    method AddCluster(first: nat, size: nat, blockSize: nat, ghost m0: Memory, ghost location: nat, ghost end: nat,
            ghost P: set<int>, ghost cs: seq<Extent>, ghost blk: Blocks)
      returns (ghost P': set<int>, ghost blk': Blocks)
      requires Serves(cs) && Cutting(m0, mem[..], location, end, first, P, cs, blk)
      requires 0 < first && HEADER_SIZE < end - first && end <= mem.Length && 1 <= blockSize <= MAX_SIZE
      requires size == if end - first < MAX_SIZE then end - first else MAX_SIZE
      modifies this`heap, mem
      ensures var cs' := cs + [Extent(first + 1, first + size - 1)];
        Serves(cs') && Cutting(m0, mem[..], location, end, first + size, P', cs', blk')
    {
      ghost var m := mem[..];
      P', blk' := SetUpCluster(first, size, blockSize, P, cs, blk);
      CutNext(location, end, cs, first);
      assert forall a {:trigger mem[a]} :: 0 <= a < mem.Length && !(location <= a < end) ==> mem[a] == m[a];
    }

    method SetUpCluster(first: nat, size: nat, blockSize: nat, ghost P: set<int>, ghost cs: seq<Extent>, ghost blk: Blocks)
      returns (ghost P': set<int>, ghost blk': Blocks)
      requires Serves(cs) && SetUp(mem[..], P, cs, blk)
      requires 0 < first && HEADER_SIZE < size <= MAX_SIZE && first + size <= mem.Length && 1 <= blockSize <= MAX_SIZE
      requires forall a :: a in P ==> a + 1 < first
      requires forall k :: 0 <= k < |cs| ==> cs[k].end < first
      modifies this`heap, mem
      ensures Serves(cs + [Extent(first + 1, first + size - 1)])
      ensures SetUp(mem[..], P', cs + [Extent(first + 1, first + size - 1)], blk')
      ensures forall a :: a in P' ==> a + 1 < first + size
      ensures forall a {:trigger mem[a]} :: 0 <= a < mem.Length && !(first <= a < first + size) ==> mem[a] == old(mem[a])
    {
      ghost var m := mem[..];
      var hc := new HeapCluster(mem, first + 1, first + size - 1);
      P' := P + Span(first + 1, first + size - 1);
      LayoutMore(m, P, cs, first, size);
      assert hc.Others(P') == P;
      assert ClusterIn(m, P', first + 1, first + size - 1) by {
        assert (cs + [Extent(first + 1, first + size - 1)])[|cs|] == Extent(first + 1, first + size - 1);
      }
      blk' := hc.Initialize(blockSize, P', blk);
      StillFree(m, blk, mem[..], blk', first + 1, first + size - 1, P);
      heap := heap + [hc];
    }
  }

  lemma StillFree(m: Memory, blk: Blocks, m': Memory, blk': Blocks, lo: int, hi: int, P: set<int>)
    requires AllFree(m, blk) && Partition(P, blk) && SizesMatch(m', blk') && OnlyCluster(m, blk, m', blk', lo, hi)
    requires forall a :: a in P ==> a + 1 < lo - 1
    requires lo < hi ==> 0 <= lo < |m'| && m'[lo].dataType == FreeBlock
    requires forall s :: s in blk' ==> s in blk || s == lo < hi
    ensures AllFree(m', blk')
  {
    forall s | s in blk' ensures m'[s].dataType == FreeBlock {
      if s in blk { assert Inside(blk, s, s); }
    }
  }
}
