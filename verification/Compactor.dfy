/** Heap compaction: runs of movable blocks slide or move down into free blocks, the moves are recorded
    in a bounded table of regions, and whenever the table is full, and at the end, every reference is
    rewritten (CLR_RT_GarbageCollector::Heap_Compact). */
module Compacting {
  import opened HeapCells
  import opened FreeBlocks
  import opened Partitions
  import opened Sweeping
  import opened HeapClusters
  import opened Relocation
  import opened RunMoves
  import opened HeapImages
  import opened Relocating
  import opened Packing
  import CompactedHeaps

  /** A position in cluster ci at which a block starts or the cluster ends. */
  ghost predicate AtBlock(cs: seq<Extent>, blk: Blocks, ci: int, pos: int) {
    && 0 <= ci < |cs| && cs[ci].start <= pos <= cs[ci].end
    && (pos < cs[ci].end ==> pos in blk)
  }

  ghost predicate IsFreeRegion(m: Memory, cs: seq<Extent>, blk: Blocks, fi: int, f: int)
    requires SizesMatch(m, blk)
  {
    0 <= fi < |cs| && f in FreeOf(m, blk, cs[fi].start, cs[fi].end)
  }

  /** What a walk over the blocks of cluster ci relies on. */
  ghost predicate Walkable(m: Memory, P: set<int>, cs: seq<Extent>, blk: Blocks, ci: int) {
    0 <= ci < |cs| && HeapShape(m, P, blk) && ClusterIn(m, P, cs[ci].start, cs[ci].end)
  }

  /** Where the blocks are after a compaction. */
  lemma PlacesKept(g: Memory, blk0: Blocks, m: Memory, blk: Blocks, P: set<int>, R: seq<Region>)
    requires Compacted(g, blk0, m, blk, R) && Partition(P, blk0)
    ensures forall b {:trigger blk0[b]} :: b in blk0 && g[b].dataType != FreeBlock ==>
      && RegionMap(R, b) <= b && RegionMap(R, b) in blk && blk[RegionMap(R, b)] == blk0[b]
      && (g[b].flags.pinned || g[b].flags.event ==> RegionMap(R, b) == b)
    ensures forall s :: s in blk && m[s].dataType != FreeBlock ==>
      exists b :: b in blk0 && g[b].dataType != FreeBlock && RegionMap(R, b) == s
  {
    forall b | b in blk0 && g[b].dataType != FreeBlock
      ensures RegionMap(R, b) <= b && RegionMap(R, b) in blk && blk[RegionMap(R, b)] == blk0[b]
      ensures g[b].flags.pinned || g[b].flags.event ==> RegionMap(R, b) == b
    {
      assert Used(g, blk0, b);
      CompactedHeaps.Places(g, blk0, m, blk, R, b);
    }
    forall s | s in blk && m[s].dataType != FreeBlock
      ensures exists b :: b in blk0 && g[b].dataType != FreeBlock && RegionMap(R, b) == s
    {
      assert Used(m, blk, s);
    }
  }

  /** A free cell before one in use means that a block that may not move lies no further up. */
  lemma HolesBehindPins(g: Memory, blk0: Blocks, m: Memory, P: set<int>, blk: Blocks, c: Extent, x: int, y: int)
    requires SizesMatch(g, blk0) && SizesMatch(m, blk) && ClusterIn(m, P, c.start, c.end) && c.start <= x < y < c.end
    requires NothingPinned(g, blk0, y + 1) ==> PackedBelow(FreeCells(m, P, blk), c, y + 1)
    requires FreeCell(m, blk, x) && !FreeCell(m, blk, y)
    ensures exists b :: b in blk0 && b <= y && g[b].dataType != FreeBlock && (g[b].flags.pinned || g[b].flags.event)
  {
    assert x in FreeCells(m, P, blk) && y !in FreeCells(m, P, blk);
    var b :| Used(g, blk0, b) && b < y + 1 && g[b].flags.Unmovable();
  }

  lemma AllCellsFound(g: Memory, blk0: Blocks, m: Memory, blk: Blocks, R: seq<Region>)
    requires Compacted(g, blk0, m, blk, R) && RefsOk(g, blk0)
    ensures forall b, a {:trigger Inside(blk0, b, a)} :: Inside(blk0, b, a) && g[b].dataType != FreeBlock ==>
      && 0 <= b <= a < |g| && 0 <= RegionMap(R, b) + (a - b) < |m|
      && m[RegionMap(R, b) + (a - b)] == if
           && g[a].word.Pointer? && g[a].dataType in {Object, ByRef, ArrayByRef, Class, ValueType, String}
           && (|| a == b || g[b].dataType in {Class, ValueType} || (g[b].dataType == DelegateHead && a == b + 1)
               || (g[b].dataType == SzArray && g[b].word.ArrayHead? && g[b].word.fReference && a <= b + g[b].word.numOfElements)
               || (g[b].dataType == DelegateListHead && g[b].word.ListHead? && a <= b + g[b].word.length)
               || (g[b].dataType == StackFrame && g[b].word.Frame? && a <= b + g[b].word.values))
         then g[a].(word := Pointer(RegionMap(R, g[a].word.target))) else g[a]
  {
    forall b, a {:trigger Inside(blk0, b, a)} | Inside(blk0, b, a) && g[b].dataType != FreeBlock
      ensures && 0 <= b <= a < |g| && 0 <= RegionMap(R, b) + (a - b) < |m|
      && m[RegionMap(R, b) + (a - b)] == if
           && g[a].word.Pointer? && g[a].dataType in {Object, ByRef, ArrayByRef, Class, ValueType, String}
           && (|| a == b || g[b].dataType in {Class, ValueType} || (g[b].dataType == DelegateHead && a == b + 1)
               || (g[b].dataType == SzArray && g[b].word.ArrayHead? && g[b].word.fReference && a <= b + g[b].word.numOfElements)
               || (g[b].dataType == DelegateListHead && g[b].word.ListHead? && a <= b + g[b].word.length)
               || (g[b].dataType == StackFrame && g[b].word.Frame? && a <= b + g[b].word.values))
         then g[a].(word := Pointer(RegionMap(R, g[a].word.target))) else g[a]
    {
      CellFound(g, blk0, m, blk, R, b, a);
    }
  }

  lemma AllHolesBehindPins(g: Memory, blk0: Blocks, m: Memory, P: set<int>, blk: Blocks, cs: seq<Extent>)
    requires SizesMatch(g, blk0) && HeapOk(m, P, cs, blk)
    requires forall q :: NothingPinned(g, blk0, q) ==> AllPackedBelow(FreeCells(m, P, blk), cs, q)
    ensures forall k, a, c :: 0 <= k < |cs| && cs[k].start <= a < c < cs[k].end && FreeCell(m, blk, a) && !FreeCell(m, blk, c) ==>
        exists b :: b in blk0 && b <= c && g[b].dataType != FreeBlock && (g[b].flags.pinned || g[b].flags.event)
  {
    forall k, a, c | 0 <= k < |cs| && cs[k].start <= a < c < cs[k].end && FreeCell(m, blk, a) && !FreeCell(m, blk, c)
      ensures exists b :: b in blk0 && b <= c && g[b].dataType != FreeBlock && (g[b].flags.pinned || g[b].flags.event)
    {
      HolesBehindPins(g, blk0, m, P, blk, cs[k], a, c);
    }
  }

  /** What a compaction does to every block and every cell in use. */
  lemma CompactedByBlock(g: Memory, blk0: Blocks, m: Memory, blk: Blocks, P: set<int>, R: seq<Region>)
    requires Compacted(g, blk0, m, blk, R) && RefsOk(g, blk0) && Partition(P, blk0)
    ensures forall b, a {:trigger Inside(blk0, b, a)} :: Inside(blk0, b, a) && b < |g| && g[b].dataType != FreeBlock ==>
        && 0 <= b <= a < |g| && 0 <= RegionMap(R, b) + (a - b) < |m|
        && m[RegionMap(R, b) + (a - b)] == if
             && g[a].word.Pointer? && g[a].dataType in {Object, ByRef, ArrayByRef, Class, ValueType, String}
             && (|| a == b || g[b].dataType in {Class, ValueType} || (g[b].dataType == DelegateHead && a == b + 1)
                 || (g[b].dataType == SzArray && g[b].word.ArrayHead? && g[b].word.fReference && a <= b + g[b].word.numOfElements)
                 || (g[b].dataType == DelegateListHead && g[b].word.ListHead? && a <= b + g[b].word.length)
                 || (g[b].dataType == StackFrame && g[b].word.Frame? && a <= b + g[b].word.values))
           then g[a].(word := Pointer(RegionMap(R, g[a].word.target))) else g[a]
    ensures forall b {:trigger blk0[b]} :: b in blk0 && g[b].dataType != FreeBlock ==>
      && RegionMap(R, b) <= b && RegionMap(R, b) in blk && blk[RegionMap(R, b)] == blk0[b]
      && (g[b].flags.pinned || g[b].flags.event ==> RegionMap(R, b) == b)
    ensures forall s :: s in blk && m[s].dataType != FreeBlock ==>
      exists b :: b in blk0 && g[b].dataType != FreeBlock && RegionMap(R, b) == s
  {
    AllCellsFound(g, blk0, m, blk, R);
    PlacesKept(g, blk0, m, blk, P, R);
  }

  class Compactor {
    const mem: array<Cell>
    const heap: seq<HeapCluster>
    const relocator: Relocator

    constructor (mem: array<Cell>, heap: seq<HeapCluster>, relocator: Relocator)
      ensures this.mem == mem && this.heap == heap && this.relocator == relocator
    {
      this.mem, this.heap, this.relocator := mem, heap, relocator;
    }

    ghost predicate Wired(cs: seq<Extent>)
      reads this
    {
      && relocator.mem == mem && relocator.clusters == cs
      && |heap| == |cs|
      && (forall k :: 0 <= k < |cs| ==> heap[k].mem == mem && heap[k].payloadStart == cs[k].start && heap[k].payloadEnd == cs[k].end)
    }

    // ---------- Looking for free blocks and runs ----------

    /** Walk the clusters from a given one to the first free block. */
    method FirstFreeRegion(from: int, ghost P: set<int>, ghost cs: seq<Extent>, ghost blk: Blocks) returns (fi: int, f: int)
      requires Wired(cs) && HeapOk(mem[..], P, cs, blk) && 0 <= from <= |cs|
      ensures f != NULL ==> IsFreeRegion(mem[..], cs, blk, fi, f) && FirstFree(FreeCells(mem[..], P, blk), cs, from, fi, f)
      ensures f == NULL ==> forall k :: from <= k < |cs| ==> Full(FreeCells(mem[..], P, blk), cs[k])
    {
      fi := from;
      while fi < |heap|
        invariant from <= fi <= |heap|
        invariant forall k :: from <= k < fi ==> FreeOf(mem[..], blk, cs[k].start, cs[k].end) == {}
      {
        f := heap[fi].Next(heap[fi].Head());
        FirstNode(mem[..], cs[fi].start - 1, cs[fi].end, FreeOf(mem[..], blk, cs[fi].start, cs[fi].end));
        if heap[fi].Next(f) != NULL {
          FirstFreeCells(mem[..], P, cs, blk, from, fi, f);
          return;
        }
        fi := fi + 1;
      }
      f := NULL;
      forall k | from <= k < |cs| ensures Full(FreeCells(mem[..], P, blk), cs[k]) {
        NoFreeCells(mem[..], P, cs, blk, k);
      }
    }

    /** Skip blocks that may not move. */
    method SkipUnmovable(ci: int, pos: int, ghost P: set<int>, ghost cs: seq<Extent>, ghost blk: Blocks) returns (pos': int)
      requires Wired(cs) && AtBlock(cs, blk, ci, pos) && Walkable(mem[..], P, cs, blk, ci)
      ensures AtBlock(cs, blk, ci, pos') && pos <= pos'
      ensures pos' < cs[ci].end ==> !mem[pos'].flags.Unmovable()
      ensures pos < cs[ci].end && mem[pos].flags.Unmovable() ==> pos < pos'
      ensures forall s :: s in blk && pos <= s < pos' ==> mem[s].flags.Unmovable()
    {
      pos' := pos;
      while pos' < heap[ci].payloadEnd && mem[pos'].flags.Unmovable()
        invariant AtBlock(cs, blk, ci, pos') && pos <= pos'
        invariant forall s :: s in blk && pos <= s < pos' ==> mem[s].flags.Unmovable()
        invariant pos' == pos ==> pos < cs[ci].end && mem[pos].flags.Unmovable() ==> pos' < cs[ci].end
        decreases cs[ci].end - pos'
      {
        BlockFits(P, cs[ci].start, cs[ci].end, blk, pos');
        pos' := pos' + mem[pos'].size;
      }
    }

    /** The run of movable blocks from pos on. */
    method SlideRun(ci: int, pos: int, ghost P: set<int>, ghost cs: seq<Extent>,
            ghost blk: Blocks) returns (pos': int, move: nat)
      requires Wired(cs) && AtBlock(cs, blk, ci, pos) && Walkable(mem[..], P, cs, blk, ci)
      requires pos < cs[ci].end && !mem[pos].flags.Unmovable()
      ensures AtBlock(cs, blk, ci, pos') && pos' == pos + move && Run(mem[..], P, blk, pos, move)
    {
      pos', move := pos, 0;
      while pos' < heap[ci].payloadEnd && !mem[pos'].flags.Unmovable()
        invariant AtBlock(cs, blk, ci, pos') && pos' == pos + move
        invariant if move == 0 then pos' == pos else Run(mem[..], P, blk, pos, move)
        decreases cs[ci].end - pos'
      {
        RunExtended(mem[..], P, cs, blk, ci, pos, move);
        var len := mem[pos'].size;
        pos' := pos' + len;
        move := move + len;
      }
    }

    /** The longest prefix of that run that fits into room cells. */
    method FitRun(ci: int, pos: int, room: nat, ghost P: set<int>, ghost cs: seq<Extent>, ghost blk: Blocks)
      returns (pos': int, move: nat, room': nat)
      requires Wired(cs) && AtBlock(cs, blk, ci, pos) && Walkable(mem[..], P, cs, blk, ci)
      ensures AtBlock(cs, blk, ci, pos') && pos' == pos + move && move + room' == room
      ensures 0 < move ==> Run(mem[..], P, blk, pos, move)
      ensures pos' < cs[ci].end && !mem[pos'].flags.Unmovable() ==> room' < mem[pos'].size || room' == 0
    {
      pos', move, room' := pos, 0, room;
      while room' > 0 && pos' < heap[ci].payloadEnd && !mem[pos'].flags.Unmovable()
        invariant AtBlock(cs, blk, ci, pos') && pos' == pos + move && move + room' == room
        invariant 0 < move ==> Run(mem[..], P, blk, pos, move)
        decreases cs[ci].end - pos'
      {
        var len := mem[pos'].size;
        if room' < len { break; }
        RunExtended(mem[..], P, cs, blk, ci, pos, move);
        room' := room' - len;
        pos' := pos' + len;
        move := move + len;
      }
    }

    // ---------- Moving a run ----------

    method UnlinkFree(k: int, f: int, ghost P: set<int>, ghost cs: seq<Extent>,
            ghost fs: seq<set<int>>) returns (ghost fs': seq<set<int>>)
      requires Wired(cs) && Layout(mem[..], P, cs) && FreeLists(mem[..], cs, fs)
      requires 0 <= k < |cs| && f in fs[k]
      modifies mem
      ensures fs' == fs[k := fs[k] - {f}]
      ensures Refreed(old(mem[..]), mem[..], P, cs, fs, fs', f, f + old(mem[f].size), false)
    {
      ghost var m := mem[..];
      assert FreeListOk(m, cs[k].start - 1, cs[k].end, fs[k]);
      Unlink(mem, f, cs[k].start - 1, cs[k].end, fs[k]);
      fs' := fs[k := fs[k] - {f}];
      BlockUnlinked(m, mem[..], P, cs, fs, k, f);
    }

    method ReturnCells(k: int, node: int, size: nat, ghost P: set<int>, ghost cs: seq<Extent>, ghost fs: seq<set<int>>)
      returns (res: int, ghost fs': seq<set<int>>)
      requires Wired(cs) && Layout(mem[..], P, cs) && FreeLists(mem[..], cs, fs) && 0 <= k < |cs|
      requires cs[k].start <= node && 1 <= size && node + size <= cs[k].end
      requires forall a :: node <= a < node + size ==> !FreeAny(mem[..], fs, a)
      modifies mem
      ensures Refreed(old(mem[..]), mem[..], P, cs, fs, fs', node, node + size, true)
      ensures fs' == fs[k := fs'[k]] && res in fs'[k] && 0 <= res < mem.Length && res <= node && node + size <= res + mem[res].size
      ensures forall g :: g in fs[k] ==> g in fs'[k] || res < g < res + mem[res].size
    {
      ghost var m := mem[..];
      assert FreeListOk(m, cs[k].start - 1, cs[k].end, fs[k]) && ClusterIn(m, P, cs[k].start, cs[k].end);
      forall a | node <= a < node + size ensures !InFree(m, fs[k], a) {
        InFreeAny(m, fs, k, a);
      }
      ghost var F';
      res, F' := heap[k].LinkFreed(node, size, fs[k]);
      fs' := fs[k := F'];
      CellsReturned(m, mem[..], P, cs, fs, k, F', node, size);
      forall g | g in fs[k] ensures g in fs'[k] || res < g < res + mem[res].size {
        SurvivesReturn(m, mem[..], cs[k].start - 1, cs[k].end, fs[k], F', node, size, res, g);
      }
    }

    /** memmove to a lower address. */
    method CopyDown(dst: int, src: int, mv: nat)
      requires 0 <= dst < src && src + mv <= mem.Length
      modifies mem
      ensures Copied(old(mem[..]), mem[..], dst, src, mv)
    {
      ghost var m := mem[..];
      var i := 0;
      while i < mv
        invariant 0 <= i <= mv
        invariant Copied(m, mem[..], dst, src, i)
      {
        ghost var m1 := mem[..];
        mem[dst + i] := mem[src + i];
        assert (dst + i) + (src - dst) == src + i;
        assert mem[..] == m1[dst + i := m1[src + i]];
        i := i + 1;
      }
    }

    /** Move the run [src, src + mv) of cluster ci down into the free block at f in cluster fi: unlink the
        free block, copy the cells, give back what is left of it and, unless the run was adjacent, the
        cells that the run left.  The result is the free block to continue with, or the tail of the list. */
    method MoveRun(fi: int, f: int, ci: int, src: int, mv: nat, room: nat, slide: bool, ghost P: set<int>,
            ghost cs: seq<Extent>, ghost blk: Blocks)
      returns (freeRegion: int, ghost blk': Blocks)
      requires Wired(cs) && HeapOk(mem[..], P, cs, blk)
      requires IsFreeRegion(mem[..], cs, blk, fi, f) && Movable(mem[..], P, blk, f, src, mv)
      requires fi <= ci < |cs| && cs[ci].start <= src && src + mv <= cs[ci].end
      requires slide == (EndOf(blk, f) == src) && room == if slide then blk[f] else blk[f] - mv
      modifies mem
      ensures HeapOk(mem[..], P, cs, blk') && MovedRun(old(mem[..]), blk, mem[..], blk', f, src, mv)
      ensures Shifted(old(FreeCells(mem[..], P, blk)), FreeCells(mem[..], P, blk'), f, src, mv)
      ensures freeRegion == cs[fi].end || IsFreeRegion(mem[..], cs, blk', fi, freeRegion)
      ensures 0 < room ==> freeRegion <= f + mv
    {
      ghost var m0 := mem[..];
      ghost var fs0 := FreeSets(m0, cs, blk);
      FreeRegionFacts(m0, P, cs, blk, fi, f);
      ghost var fs;
      freeRegion, fs := CarryRun(fi, f, ci, src, mv, room, slide, P, cs, blk, fs0);
      blk' := NewBlocks(m0, mem[..], blk, fs, f, src, mv);
      MoveResult(m0, mem[..], P, cs, blk, fs, f, src, mv, fi);
      MovedFree(m0, mem[..], P, cs, blk, fs, f, src, mv);
    }

    lemma MoveResult(m: Memory, m': Memory, P: set<int>, cs: seq<Extent>, blk: Blocks, fs: seq<set<int>>, f: int,
            src: int, mv: int, fi: int)
      requires Layout(m, P, cs) && 0 <= fi < |cs|
      requires Move(m, m', P, blk, fs, f, src, mv) && FreeLists(m', cs, fs)
      ensures var blk' := NewBlocks(m, m', blk, fs, f, src, mv);
        && HeapOk(m', P, cs, blk') && MovedRun(m, blk, m', blk', f, src, mv)
        && FreeOf(m', blk', cs[fi].start, cs[fi].end) == fs[fi]
    {
      NewHeap(m, m', P, cs, blk, fs, f, src, mv);
      NewRun(m, m', P, cs, blk, fs, f, src, mv);
      FreeSetIsList(m, m', P, cs, blk, fs, f, src, mv, fi);
    }

    /** The steps of a move in memory; fs are the free sets of the clusters. */
    method CarryRun(fi: int, f: int, ci: int, src: int, mv: nat, room: nat, slide: bool, ghost P: set<int>,
            ghost cs: seq<Extent>, ghost blk: Blocks, ghost fs: seq<set<int>>)
      returns (freeRegion: int, ghost fs': seq<set<int>>)
      requires Wired(cs) && Layout(mem[..], P, cs) && FreeLists(mem[..], cs, fs)
      requires Movable(mem[..], P, blk, f, src, mv)
      requires forall a :: FreeAny(mem[..], fs, a) <==> FreeCell(mem[..], blk, a)
      requires 0 <= fi <= ci < |cs| && cs[ci].start <= src && src + mv <= cs[ci].end
      requires f in fs[fi] && 0 < f && cs[fi].start <= f && f + blk[f] <= cs[fi].end
      requires var n := NextOf(mem[..], f); n == cs[fi].end || (n in fs[fi] && n != f)
      requires slide == (EndOf(blk, f) == src) && room == if slide then blk[f] else blk[f] - mv
      modifies mem
      ensures FreeLists(mem[..], cs, fs') && MovedCells(old(mem[..]), mem[..], P, blk, fs', f, src, mv)
      ensures freeRegion == cs[fi].end || freeRegion in fs'[fi]
      ensures 0 < room ==> freeRegion <= f + mv
    {
      ghost var m0 := mem[..];
      ghost var m1, fs1, m3, fs2;
      freeRegion, m1, fs1 := UnlinkAndCopy(fi, f, src, mv, P, cs, blk, fs);
      ghost var m2 := mem[..];
      freeRegion, m3, fs2, fs' := GiveBack(fi, f, freeRegion, ci, src, mv, room, slide, P, cs, fs1);
      MoveEffect(m0, m1, m2, m3, mem[..], P, blk, fs, fs1, fs2, fs', f, src, mv, slide);
    }

    /** The second half: what is left of the free block, and the cells that the run left. */
    method GiveBack(fi: int, f: int, next: int, ci: int, src: int, mv: nat, room: nat, slide: bool, ghost P: set<int>,
            ghost cs: seq<Extent>, ghost fs1: seq<set<int>>)
      returns (freeRegion: int, ghost m3: Memory, ghost fs2: seq<set<int>>, ghost fs': seq<set<int>>)
      requires Wired(cs) && Layout(mem[..], P, cs) && FreeLists(mem[..], cs, fs1)
      requires 0 <= fi <= ci < |cs| && cs[fi].start <= f && f + mv + room <= cs[fi].end
      requires cs[ci].start <= src && 1 <= mv && src + mv <= cs[ci].end && (!slide ==> f + mv + room <= src)
      requires forall a :: f + mv <= a < f + mv + room || src <= a < src + mv ==> !FreeAny(mem[..], fs1, a)
      requires next == cs[fi].end || next in fs1[fi]
      modifies mem
      ensures if 0 < room then RefreedCells(old(mem[..]), m3, P, fs1, fs2, f + mv, f + mv + room, true) else m3 == old(mem[..]) && fs2 == fs1
      ensures if slide then mem[..] == m3 && fs' == fs2 else RefreedCells(m3, mem[..], P, fs2, fs', src, src + mv, true)
      ensures FreeLists(mem[..], cs, fs') && (freeRegion == cs[fi].end || freeRegion in fs'[fi])
      ensures 0 < room ==> freeRegion <= f + mv
    {
      fs2, freeRegion := fs1, next;
      if room > 0 {
        freeRegion, fs2 := ReturnCells(fi, f + mv, room, P, cs, fs1);
      }
      m3 := mem[..];
      fs' := fs2;
      if !slide {
        freeRegion, fs' := LeaveHole(fi, freeRegion, ci, src, mv, P, cs, fs2);
      }
    }

    /** The first half: the cells of the run are in place, and neither they nor the rest of the free block
        are on a list. */
    method UnlinkAndCopy(fi: int, f: int, src: int, mv: nat, ghost P: set<int>, ghost cs: seq<Extent>,
            ghost blk: Blocks, ghost fs: seq<set<int>>)
      returns (next: int, ghost m1: Memory, ghost fs1: seq<set<int>>)
      requires Wired(cs) && Layout(mem[..], P, cs) && FreeLists(mem[..], cs, fs)
      requires Movable(mem[..], P, blk, f, src, mv)
      requires forall a :: FreeAny(mem[..], fs, a) <==> FreeCell(mem[..], blk, a)
      requires 0 <= fi < |cs| && f in fs[fi] && 0 < f
      requires var n := NextOf(mem[..], f); n == cs[fi].end || (n in fs[fi] && n != f)
      requires src + mv <= mem.Length
      modifies mem
      ensures RefreedCells(old(mem[..]), m1, P, fs, fs1, f, f + blk[f], false) && Copied(m1, mem[..], f, src, mv)
      ensures FreeLists(mem[..], cs, fs1) && forall a :: FreeAny(mem[..], fs1, a) <==> FreeAny(m1, fs1, a)
      ensures forall a :: f <= a < f + blk[f] || src <= a < src + mv ==> !FreeAny(mem[..], fs1, a)
      ensures next == cs[fi].end || next in fs1[fi]
    {
      ghost var m0 := mem[..];
      next := heap[fi].Next(f);
      fs1 := UnlinkFree(fi, f, P, cs, fs);
      m1 := mem[..];
      CopyDown(f, src, mv);
      TargetOffList(m0, m1, P, cs, blk, fs, fs1, f, src, mv);
      CopyKeepsLists(m1, mem[..], P, cs, fs1, f, f + mv);
    }

    /** The cells that a run left become free; the free block to continue with may be absorbed by them. */
    method LeaveHole(fi: int, region: int, ci: int, src: int, mv: nat, ghost P: set<int>, ghost cs: seq<Extent>,
            ghost fs: seq<set<int>>)
      returns (freeRegion: int, ghost fs': seq<set<int>>)
      requires Wired(cs) && Layout(mem[..], P, cs) && FreeLists(mem[..], cs, fs)
      requires 0 <= fi <= ci < |cs| && cs[ci].start <= src && 1 <= mv && src + mv <= cs[ci].end
      requires forall a :: src <= a < src + mv ==> !FreeAny(mem[..], fs, a)
      requires region == cs[fi].end || region in fs[fi]
      modifies mem
      ensures Refreed(old(mem[..]), mem[..], P, cs, fs, fs', src, src + mv, true)
      ensures freeRegion == cs[fi].end || freeRegion in fs'[fi]
      ensures freeRegion <= region
    {
      var dst;
      dst, fs' := ReturnCells(ci, src, mv, P, cs, fs);
      freeRegion := region;
      assert FreeListOk(mem[..], cs[ci].start - 1, cs[ci].end, fs'[ci]);
      assert fi < ci ==> cs[fi].end + 1 < cs[ci].start;
      if dst < freeRegion && freeRegion < dst + mem[dst].size {
        RegionBelow(mem[..], cs, fs, fi, ci, freeRegion);
        freeRegion := dst;
      }
    }

    // ---------- The loops ----------

    /** The pending table holds the regions recorded since the last pass, and the root pointers are up to
        date with the regions before them. */
    ghost predicate Recorded(R: seq<Region>, k: nat, roots0: seq<int>)
      reads relocator, relocator.relocBlocks, relocator.rootPointers
    {
      && k <= |R| && relocator.Valid() && 0 < relocator.relocBlocks.Length
      && relocator.Table() == R[k..]
      && relocator.rootPointers.Length == |roots0|
      && (forall i :: 0 <= i < |roots0| ==> relocator.rootPointers[i] == RegionMap(R[..k], roots0[i]))
    }

    /** Rewrite all references and start a new table. */
    method Flush(ghost g: Memory, ghost P: set<int>, ghost cs: seq<Extent>, ghost blk0: Blocks, ghost blk: Blocks,
            ghost R: seq<Region>, ghost k: nat, ghost front: int, ghost roots0: seq<int>)
      requires Wired(cs) && Progress(g, blk0, mem[..], P, cs, blk, R, k, front)
      requires Recorded(R, k, roots0) && 0 < relocator.relocCount
      modifies mem, relocator, relocator.rootPointers
      ensures Progress(g, blk0, mem[..], P, cs, blk, R, |R|, front)
      ensures Recorded(R, |R|, roots0) && relocator.relocCount == 0
      ensures SameHeaders(old(mem[..]), mem[..], blk)
    {
      ghost var m := mem[..];
      ImageRefsOk(g, blk0, m, blk, P, R, R[..k]);
      relocator.Relocate(P, blk);
      ProgressPass(g, blk0, m, P, cs, blk, R, k, front, mem[..]);
      forall i | 0 <= i < |roots0| ensures relocator.rootPointers[i] == RegionMap(R, roots0[i]) {
        MapSplit(R, k, roots0[i]);
      }
      assert R[..|R|] == R;
    }

    method FlushIfFull(ghost g: Memory, ghost P: set<int>, ghost cs: seq<Extent>, ghost blk0: Blocks,
            ghost blk: Blocks, ghost R: seq<Region>, ghost k: nat, ghost front: int, ghost roots0: seq<int>)
      returns (ghost k': nat)
      requires Wired(cs) && Progress(g, blk0, mem[..], P, cs, blk, R, k, front) && Recorded(R, k, roots0)
      modifies mem, relocator, relocator.rootPointers
      ensures Progress(g, blk0, mem[..], P, cs, blk, R, k', front)
      ensures Recorded(R, k', roots0) && relocator.relocCount < relocator.relocBlocks.Length
      ensures SameHeaders(old(mem[..]), mem[..], blk)
    {
      k' := k;
      if relocator.relocCount >= relocator.relocBlocks.Length {
        Flush(g, P, cs, blk0, blk, R, k, front, roots0);
        k' := |R|;
      }
    }

    /** How far the run at src goes: all of it when it is adjacent to the free block, else what fits. */
    method MeasureRun(f: int, ci: int, src: int, ghost P: set<int>, ghost cs: seq<Extent>, ghost blk: Blocks)
      returns (pos: int, move: nat, room: nat, slide: bool)
      requires Wired(cs) && AtBlock(cs, blk, ci, src) && Walkable(mem[..], P, cs, blk, ci)
      requires src < cs[ci].end && !mem[src].flags.Unmovable() && f in blk
      ensures AtBlock(cs, blk, ci, pos) && pos == src + move
      ensures slide == (EndOf(blk, f) == src) && room == if slide then blk[f] else blk[f] - move
      ensures 0 < move ==> Run(mem[..], P, blk, src, move)
      ensures slide ==> 0 < move
    {
      var size := mem[f].size;
      if src == f + size {
        pos, move := SlideRun(ci, src, P, cs, blk);
        room, slide := size, true;
      } else {
        pos, move, room := FitRun(ci, src, size, P, cs, blk);
        slide := false;
      }
    }

    /** One round of the inner loop: move what can be moved of the run at src into the free block at f and
        record it, or give up on that free block. */
    method CompactRun(ci: int, src: int, fi: int, f: int, ghost g: Memory, ghost P: set<int>, ghost cs: seq<Extent>,
            ghost blk0: Blocks,
        ghost blk: Blocks, ghost R: seq<Region>, ghost k: nat, ghost roots0: seq<int>, ghost q: int)
      returns (pos: int, freeRegion: int, ghost blk': Blocks, ghost R': seq<Region>, ghost k': nat)
      requires Wired(cs) && Progress(g, blk0, mem[..], P, cs, blk, R, k, src) && Recorded(R, k, roots0)
      requires Neat(q, mem[..], P, cs, blk, ci, src, fi, f)
      requires AtBlock(cs, blk, ci, src) && src < cs[ci].end && !mem[src].flags.Unmovable()
      requires IsFreeRegion(mem[..], cs, blk, fi, f) && f < src
      modifies mem, relocator, relocator.rootPointers, relocator.relocBlocks
      ensures Progress(g, blk0, mem[..], P, cs, blk', R', k', pos) && Recorded(R', k', roots0)
      ensures AtBlock(cs, blk', ci, pos) && src <= pos
      ensures freeRegion == cs[fi].end || IsFreeRegion(mem[..], cs, blk', fi, freeRegion)
      ensures pos == src ==> f < freeRegion
      ensures NeatAfter(q, mem[..], P, cs, blk', ci, pos, fi, freeRegion)
    {
      ghost var m := mem[..];
      k' := FlushIfFull(g, P, cs, blk0, blk, R, k, src, roots0);
      NeatRewritten(q, m, mem[..], P, cs, blk, ci, src, fi, f);
      assert IsFreeRegion(mem[..], cs, blk, fi, f);
      relocator.Begin(f, src);
      pos, freeRegion, blk', R' := TryMove(ci, src, fi, f, g, P, cs, blk0, blk, R, k', roots0, q);
    }

    method TryMove(ci: int, src: int, fi: int, f: int, ghost g: Memory, ghost P: set<int>, ghost cs: seq<Extent>,
            ghost blk0: Blocks,
        ghost blk: Blocks, ghost R: seq<Region>, ghost k: nat, ghost roots0: seq<int>, ghost q: int)
      returns (pos: int, freeRegion: int, ghost blk': Blocks, ghost R': seq<Region>)
      requires Wired(cs) && Progress(g, blk0, mem[..], P, cs, blk, R, k, src) && Recorded(R, k, roots0)
      requires Neat(q, mem[..], P, cs, blk, ci, src, fi, f)
      requires relocator.relocCount < relocator.relocBlocks.Length
      requires var r := relocator.relocBlocks[relocator.relocCount]; r.start == src && r.destination == f && r.offset == f - src
      requires AtBlock(cs, blk, ci, src) && src < cs[ci].end && !mem[src].flags.Unmovable()
      requires IsFreeRegion(mem[..], cs, blk, fi, f) && f < src
      modifies mem, relocator, relocator.relocBlocks
      ensures Progress(g, blk0, mem[..], P, cs, blk', R', k, pos) && Recorded(R', k, roots0)
      ensures AtBlock(cs, blk', ci, pos) && src <= pos
      ensures freeRegion == cs[fi].end || IsFreeRegion(mem[..], cs, blk', fi, freeRegion)
      ensures pos == src ==> f < freeRegion
      ensures NeatAfter(q, mem[..], P, cs, blk', ci, pos, fi, freeRegion)
    {
      HeapWalkable(mem[..], P, cs, blk, ci);
      var move, room, slide;
      pos, move, room, slide := MeasureRun(f, ci, src, P, cs, blk);
      if move > 0 {
        pos := SkipUnmovable(ci, pos, P, cs, blk);
        freeRegion, blk', R' := RecordRun(fi, f, ci, src, move, room, slide, pos, g, P, cs, blk0, blk, R, k, roots0, q);
      } else {
        freeRegion, blk', R' := heap[fi].Next(f), blk, R;
        NextRegion(mem[..], P, cs, blk, fi, f);
        FreeBelow(mem[..], P, cs, blk, fi, f, ci, src);
        NeatGiveUp(q, mem[..], P, cs, blk, ci, src, fi, f, freeRegion);
      }
    }

    /** Move the run and make its region part of the table. */
    method RecordRun(fi: int, f: int, ci: int, src: int, move: nat, room: nat, slide: bool, ghost pos: int,
            ghost g: Memory, ghost P: set<int>, ghost cs: seq<Extent>,
        ghost blk0: Blocks, ghost blk: Blocks, ghost R: seq<Region>, ghost k: nat, ghost roots0: seq<int>, ghost q: int)
      returns (freeRegion: int, ghost blk': Blocks, ghost R': seq<Region>)
      requires Wired(cs) && Progress(g, blk0, mem[..], P, cs, blk, R, k, src) && Recorded(R, k, roots0)
      requires Neat(q, mem[..], P, cs, blk, ci, src, fi, f)
      requires forall s :: s in blk && src + move <= s < pos ==> mem[s].flags.Unmovable()
      requires src + move < pos ==> src + move in blk
      requires relocator.relocCount < relocator.relocBlocks.Length
      requires var r := relocator.relocBlocks[relocator.relocCount]; r.start == src && r.destination == f && r.offset == f - src
      requires IsFreeRegion(mem[..], cs, blk, fi, f) && f < src && Run(mem[..], P, blk, src, move)
      requires AtBlock(cs, blk, ci, src) && AtBlock(cs, blk, ci, pos) && src + move <= pos
      requires pos < cs[ci].end ==> !mem[pos].flags.Unmovable()
      requires slide == (EndOf(blk, f) == src) && room == if slide then blk[f] else blk[f] - move
      modifies mem, relocator, relocator.relocBlocks
      ensures Progress(g, blk0, mem[..], P, cs, blk', R', k, pos) && Recorded(R', k, roots0)
      ensures AtBlock(cs, blk', ci, pos)
      ensures freeRegion == cs[fi].end || IsFreeRegion(mem[..], cs, blk', fi, freeRegion)
      ensures NeatAfter(q, mem[..], P, cs, blk', ci, pos, fi, freeRegion)
    {
      R' := R + [Moving(f, src, move)];
      freeRegion, blk' := RunInto(fi, f, ci, src, move, room, slide, pos, g, P, cs, blk0, blk, R, k, q);
      CommitRun(f, src, move, R, k, roots0);
    }

    method CommitRun(ghost f: int, ghost src: int, move: nat, ghost R: seq<Region>, ghost k: nat, ghost roots0: seq<int>)
      requires Recorded(R, k, roots0) && RegionsOk(R) && Below(R, src) && 0 < f < src && 1 <= move
      requires relocator.relocCount < relocator.relocBlocks.Length
      requires var r := relocator.relocBlocks[relocator.relocCount]; r.start == src && r.destination == f && r.offset == f - src
      modifies relocator, relocator.relocBlocks
      ensures Recorded(R + [Moving(f, src, move)], k, roots0)
    {
      TableAppended(R, k, f, src, move);
      relocator.Commit(move);
    }

    /** The move itself, and what it means for the state of the compaction. */
    method RunInto(fi: int, f: int, ci: int, src: int, move: nat, room: nat, slide: bool, ghost pos: int,
            ghost g: Memory, ghost P: set<int>, ghost cs: seq<Extent>,
        ghost blk0: Blocks, ghost blk: Blocks, ghost R: seq<Region>, ghost k: nat, ghost q: int)
      returns (freeRegion: int, ghost blk': Blocks)
      requires Wired(cs) && Progress(g, blk0, mem[..], P, cs, blk, R, k, src)
      requires Neat(q, mem[..], P, cs, blk, ci, src, fi, f)
      requires forall s :: s in blk && src + move <= s < pos ==> mem[s].flags.Unmovable()
      requires src + move < pos ==> src + move in blk
      requires IsFreeRegion(mem[..], cs, blk, fi, f) && f < src && Run(mem[..], P, blk, src, move)
      requires AtBlock(cs, blk, ci, src) && AtBlock(cs, blk, ci, pos) && src + move <= pos
      requires pos < cs[ci].end ==> !mem[pos].flags.Unmovable()
      requires slide == (EndOf(blk, f) == src) && room == if slide then blk[f] else blk[f] - move
      modifies mem
      ensures Progress(g, blk0, mem[..], P, cs, blk', R + [Moving(f, src, move)], k, pos)
      ensures AtBlock(cs, blk', ci, pos)
      ensures freeRegion == cs[fi].end || IsFreeRegion(mem[..], cs, blk', fi, freeRegion)
      ensures NeatAfter(q, mem[..], P, cs, blk', ci, pos, fi, freeRegion)
    {
      ghost var m := mem[..];
      FreeBelow(m, P, cs, blk, fi, f, ci, src);
      freeRegion, blk' := MoveRun(fi, f, ci, src, move, room, slide, P, cs, blk);
      assert NeatAfter(q, mem[..], P, cs, blk', ci, pos, fi, freeRegion) by {
        NeatMove(q, m, blk, mem[..], blk', P, cs, ci, src, move, pos, fi, f, freeRegion);
      }
      assert Progress(g, blk0, mem[..], P, cs, blk', R + [Moving(f, src, move)], k, pos) by {
        ProgressMove(g, blk0, m, P, cs, blk, R, k, mem[..], blk', f, src, move);
        ProgressFront(g, blk0, mem[..], P, cs, blk', R + [Moving(f, src, move)], k, src + move, pos);
      }
      assert pos < cs[ci].end ==> KeptStart(m, blk, src, move, pos);
    }

    /** The inner loop: move runs down until the source reaches the end of a cluster or no free block is
        left above the ones that were given up. */
    method CompactFrom(ci0: int, fi0: int, f0: int, ghost g: Memory, ghost P: set<int>, ghost cs: seq<Extent>,
            ghost blk0: Blocks,
        ghost blk0': Blocks, ghost R0: seq<Region>, ghost k0: nat, ghost roots0: seq<int>, ghost q: int)
      returns (ci: int, fi: int, f: int, ghost blk: Blocks, ghost R: seq<Region>, ghost k: nat)
      requires Wired(cs) && 0 <= ci0 < |cs| && Progress(g, blk0, mem[..], P, cs, blk0', R0, k0, cs[ci0].start)
      requires Neat(q, mem[..], P, cs, blk0', ci0, cs[ci0].start, fi0, f0)
      requires Recorded(R0, k0, roots0) && IsFreeRegion(mem[..], cs, blk0', fi0, f0)
      modifies mem, relocator, relocator.rootPointers, relocator.relocBlocks
      ensures ci0 <= ci < |cs| && Progress(g, blk0, mem[..], P, cs, blk, R, k, cs[ci].end)
      ensures Recorded(R, k, roots0) && (f != NULL ==> IsFreeRegion(mem[..], cs, blk, fi, f))
      ensures NeatNow(q, mem[..], P, cs, blk, ci, cs[ci].end, fi, f)
    {
      ci, fi, f, blk, R, k := ci0, fi0, f0, blk0', R0, k0;
      var pos := heap[ci].payloadStart;
      StartAtBlock(mem[..], P, cs, blk, ci);
      var done := false;
      while !done && f != NULL
        invariant ci0 <= ci && AtBlock(cs, blk, ci, pos)
        invariant Progress(g, blk0, mem[..], P, cs, blk, R, k, pos) && Recorded(R, k, roots0)
        invariant f != NULL ==> IsFreeRegion(mem[..], cs, blk, fi, f)
        invariant NeatNow(q, mem[..], P, cs, blk, ci, pos, fi, f)
        invariant done ==> pos == cs[ci].end
        decreases mem.Length - pos, !done, f != NULL, mem.Length - f
      {
        ci, pos, fi, f, done, blk, R, k := CompactRound(ci, pos, fi, f, g, P, cs, blk0, blk, R, k, roots0, q);
      }
      ProgressFront(g, blk0, mem[..], P, cs, blk, R, k, pos, cs[ci].end);
    }

    /** The body of the inner loop. */
    method CompactRound(ci0: int, pos0: int, fi0: int, f0: int, ghost g: Memory, ghost P: set<int>,
            ghost cs: seq<Extent>, ghost blk0: Blocks,
        ghost blk0': Blocks, ghost R0: seq<Region>, ghost k0: nat, ghost roots0: seq<int>, ghost q: int)
      returns (ci: int, pos: int, fi: int, f: int, done: bool, ghost blk: Blocks, ghost R: seq<Region>, ghost k: nat)
      requires Wired(cs) && AtBlock(cs, blk0', ci0, pos0) && Progress(g, blk0, mem[..], P, cs, blk0', R0, k0, pos0)
      requires Neat(q, mem[..], P, cs, blk0', ci0, pos0, fi0, f0)
      requires Recorded(R0, k0, roots0) && IsFreeRegion(mem[..], cs, blk0', fi0, f0)
      modifies mem, relocator, relocator.rootPointers, relocator.relocBlocks
      ensures ci0 <= ci && AtBlock(cs, blk, ci, pos) && Progress(g, blk0, mem[..], P, cs, blk, R, k, pos)
      ensures Recorded(R, k, roots0) && (f != NULL ==> IsFreeRegion(mem[..], cs, blk, fi, f))
      ensures pos0 <= pos && (pos == pos0 && !done && f != NULL ==> f0 < f)
      ensures NeatNow(q, mem[..], P, cs, blk, ci, pos, fi, f)
      ensures done ==> pos == cs[ci].end
    {
      fi, f, blk, R, k := fi0, f0, blk0', R0, k0;
      ci, pos := NextSource(ci0, pos0, fi, f, P, cs, blk, q);
      ProgressFront(g, blk0, mem[..], P, cs, blk, R, k, pos0, pos);
      done := pos == heap[ci].payloadEnd;
      if !done {
        pos, fi, f, blk, R, k := RunAndNext(ci, pos, fi, f, g, P, cs, blk0, blk, R, k, roots0, q);
      }
    }

    method RunAndNext(ci: int, src: int, fi0: int, f0: int, ghost g: Memory, ghost P: set<int>, ghost cs: seq<Extent>,
            ghost blk0: Blocks,
        ghost blk0': Blocks, ghost R0: seq<Region>, ghost k0: nat, ghost roots0: seq<int>, ghost q: int)
      returns (pos: int, fi: int, f: int, ghost blk: Blocks, ghost R: seq<Region>, ghost k: nat)
      requires Wired(cs) && Progress(g, blk0, mem[..], P, cs, blk0', R0, k0, src) && Recorded(R0, k0, roots0)
      requires Neat(q, mem[..], P, cs, blk0', ci, src, fi0, f0)
      requires AtBlock(cs, blk0', ci, src) && src < cs[ci].end && !mem[src].flags.Unmovable()
      requires IsFreeRegion(mem[..], cs, blk0', fi0, f0) && f0 < src
      modifies mem, relocator, relocator.rootPointers, relocator.relocBlocks
      ensures AtBlock(cs, blk, ci, pos) && Progress(g, blk0, mem[..], P, cs, blk, R, k, pos)
      ensures Recorded(R, k, roots0) && (f != NULL ==> IsFreeRegion(mem[..], cs, blk, fi, f))
      ensures src <= pos && (pos == src && f != NULL ==> f0 < f)
      ensures NeatNow(q, mem[..], P, cs, blk, ci, pos, fi, f)
    {
      pos, f, blk, R, k := CompactRun(ci, src, fi0, f0, g, P, cs, blk0, blk0', R0, k0, roots0, q);
      fi, f := NextFree(fi0, f, ci, pos, P, cs, blk, q);
    }

    /** Blocks only move backward: the source jumps to the free block if it is behind it, and then to the
        next movable block. */
    method NextSource(ci0: int, pos0: int, fi: int, f: int, ghost P: set<int>, ghost cs: seq<Extent>,
            ghost blk: Blocks, ghost q: int) returns (ci: int, pos: int)
      requires Wired(cs) && HeapOk(mem[..], P, cs, blk) && AtBlock(cs, blk, ci0, pos0) && IsFreeRegion(mem[..], cs, blk, fi, f)
      requires Neat(q, mem[..], P, cs, blk, ci0, pos0, fi, f) && forall a :: a in P ==> 0 < a
      ensures Neat(q, mem[..], P, cs, blk, ci, pos, fi, f)
      ensures ci0 <= ci && AtBlock(cs, blk, ci, pos) && pos0 <= pos && f < pos
      ensures pos < cs[ci].end ==> !mem[pos].flags.Unmovable()
    {
      ci, pos := ci0, pos0;
      FreeRegionFacts(mem[..], P, cs, blk, fi, f);
      if pos < f {
        JumpForward(cs, ci, pos, fi, f);
        ci, pos := fi, f;
      }
      HeapWalkable(mem[..], P, cs, blk, ci);
      PinnedFree(mem[..], P, cs, blk, fi, f);
      ghost var pos1 := pos;
      pos := SkipUnmovable(ci, pos, P, cs, blk);
      NeatSource(q, mem[..], P, cs, blk, ci0, pos0, ci, pos1, pos, fi, f);
    }

    /** Past the last free block of a cluster, go on with the first one of a later cluster. */
    method NextFree(fi0: int, f0: int, ghost ci: int, ghost pos: int, ghost P: set<int>, ghost cs: seq<Extent>,
            ghost blk: Blocks, ghost q: int)
      returns (fi: int, f: int)
      requires Wired(cs) && HeapOk(mem[..], P, cs, blk) && 0 <= fi0 < |cs|
      requires f0 == cs[fi0].end || IsFreeRegion(mem[..], cs, blk, fi0, f0)
      requires NeatAfter(q, mem[..], P, cs, blk, ci, pos, fi0, f0)
      ensures f != NULL ==> IsFreeRegion(mem[..], cs, blk, fi, f) && f0 <= f
      ensures NeatNow(q, mem[..], P, cs, blk, ci, pos, fi, f)
    {
      fi, f := fi0, f0;
      if f == heap[fi].Tail() {
        fi, f := FirstFreeRegion(fi + 1, P, cs, blk);
        NeatNext(q, mem[..], P, cs, blk, ci, pos, fi0, fi, f);
      }
    }

    /** CLR_RT_GarbageCollector::Heap_Compact.  R are the regions over the whole run.  Below the first block that
        may not move, afterwards every cluster has all its cells in use in front of its free ones. */
    method HeapCompact(ghost P: set<int>, ghost cs: seq<Extent>, ghost blk0: Blocks) returns (ghost blk: Blocks,
            ghost R: seq<Region>)
      requires Wired(cs) && HeapOk(mem[..], P, cs, blk0) && RefsOk(mem[..], blk0) && 0 < relocator.relocBlocks.Length
      modifies mem, relocator, relocator.rootPointers, relocator.relocBlocks
      ensures HeapOk(mem[..], P, cs, blk) && Compacted(old(mem[..]), blk0, mem[..], blk, R)
      ensures forall q :: NothingPinned(old(mem[..]), blk0, q) ==> AllPackedBelow(FreeCells(mem[..], P, blk), cs, q)
      ensures var g, m := old(mem[..]), mem[..];
        forall b, a {:trigger Inside(blk0, b, a)} :: Inside(blk0, b, a) && b < |g| && g[b].dataType != FreeBlock ==>
          && 0 <= b <= a < |g| && 0 <= RegionMap(R, b) + (a - b) < |m|
          && m[RegionMap(R, b) + (a - b)] == if
               && g[a].word.Pointer? && g[a].dataType in {Object, ByRef, ArrayByRef, Class, ValueType, String}
               && (|| a == b || g[b].dataType in {Class, ValueType} || (g[b].dataType == DelegateHead && a == b + 1)
                   || (g[b].dataType == SzArray && g[b].word.ArrayHead? && g[b].word.fReference && a <= b + g[b].word.numOfElements)
                   || (g[b].dataType == DelegateListHead && g[b].word.ListHead? && a <= b + g[b].word.length)
                   || (g[b].dataType == StackFrame && g[b].word.Frame? && a <= b + g[b].word.values))
             then g[a].(word := Pointer(RegionMap(R, g[a].word.target))) else g[a]
      ensures forall b {:trigger blk0[b]} :: b in blk0 && old(mem[..])[b].dataType != FreeBlock ==>
        && RegionMap(R, b) <= b && RegionMap(R, b) in blk && blk[RegionMap(R, b)] == blk0[b]
        && (old(mem[..])[b].flags.pinned || old(mem[..])[b].flags.event ==> RegionMap(R, b) == b)
      ensures forall s :: s in blk && mem[s].dataType != FreeBlock ==>
        exists b :: b in blk0 && old(mem[..])[b].dataType != FreeBlock && RegionMap(R, b) == s
      ensures forall k, a, c :: 0 <= k < |cs| && cs[k].start <= a < c < cs[k].end && FreeCell(mem[..], blk, a) && !FreeCell(mem[..], blk, c) ==>
        exists b :: b in blk0 && b <= c && old(mem[..])[b].dataType != FreeBlock && (old(mem[..])[b].flags.pinned || old(mem[..])[b].flags.event)
      ensures forall i :: 0 <= i < relocator.rootPointers.Length ==>
        relocator.rootPointers[i] == RegionMap(R, old(relocator.rootPointers[i]))
    {
      ghost var g := mem[..];
      blk, R := CompactAndPack(P, cs, blk0);
      CompactedByBlock(g, blk0, mem[..], blk, P, R);
    }

    /** The same in terms of the map of addresses. */
    method CompactAndPack(ghost P: set<int>, ghost cs: seq<Extent>, ghost blk0: Blocks) returns (ghost blk: Blocks,
            ghost R: seq<Region>)
      requires Wired(cs) && HeapOk(mem[..], P, cs, blk0) && RefsOk(mem[..], blk0) && 0 < relocator.relocBlocks.Length
      modifies mem, relocator, relocator.rootPointers, relocator.relocBlocks
      ensures HeapOk(mem[..], P, cs, blk) && Compacted(old(mem[..]), blk0, mem[..], blk, R)
      ensures forall q :: NothingPinned(old(mem[..]), blk0, q) ==> AllPackedBelow(FreeCells(mem[..], P, blk), cs, q)
      ensures forall k, a, c :: 0 <= k < |cs| && cs[k].start <= a < c < cs[k].end && FreeCell(mem[..], blk, a) && !FreeCell(mem[..], blk, c) ==>
        exists b :: b in blk0 && b <= c && old(mem[..])[b].dataType != FreeBlock && (old(mem[..])[b].flags.pinned || old(mem[..])[b].flags.event)
      ensures forall i :: 0 <= i < relocator.rootPointers.Length ==>
        relocator.rootPointers[i] == RegionMap(R, old(relocator.rootPointers[i]))
    {
      ghost var g := mem[..];
      blk, R := CompactHeap(P, cs, blk0);
      AllHolesBehindPins(g, blk0, mem[..], P, blk, cs);
    }

    /** The loops of Heap_Compact. */
    method CompactHeap(ghost P: set<int>, ghost cs: seq<Extent>, ghost blk0: Blocks) returns (ghost blk: Blocks,
            ghost R: seq<Region>)
      requires Wired(cs) && HeapOk(mem[..], P, cs, blk0) && RefsOk(mem[..], blk0) && 0 < relocator.relocBlocks.Length
      modifies mem, relocator, relocator.rootPointers, relocator.relocBlocks
      ensures HeapOk(mem[..], P, cs, blk) && Compacted(old(mem[..]), blk0, mem[..], blk, R)
      ensures forall q :: NothingPinned(old(mem[..]), blk0, q) ==> AllPackedBelow(FreeCells(mem[..], P, blk), cs, q)
      ensures forall i :: 0 <= i < relocator.rootPointers.Length ==>
        relocator.rootPointers[i] == RegionMap(R, old(relocator.rootPointers[i]))
    {
      ghost var g := mem[..];
      ghost var roots0 := relocator.rootPointers[..];
      relocator.Prepare();
      ghost var k, front;
      ProgressStart(g, P, cs, blk0, 0);
      ghost var q0 := FirstPinned(g, blk0, |g|);
      blk, R, k, front := CompactAll(g, P, cs, blk0, roots0, q0);
      ghost var m := mem[..];
      assert k == |R| ==> R[..k] == R;
      if relocator.relocCount > 0 {
        Flush(g, P, cs, blk0, blk, R, k, front, roots0);
        NeatRewritten(q0, m, mem[..], P, cs, blk, 0, 0, 0, 0);
        assert R[..|R|] == R;
      }
      ProgressDone(g, blk0, mem[..], P, cs, blk, R, front);
      forall q | NothingPinned(g, blk0, q) ensures AllPackedBelow(FreeCells(mem[..], P, blk), cs, q) {
        PackedFurther(mem[..], P, cs, g, blk0, FreeCells(mem[..], P, blk), q0, q);
      }
    }

    /** Start again from the first free block of the heap. */
    method Restart(ghost ci: int, ghost P: set<int>, ghost cs: seq<Extent>, ghost blk: Blocks,
            ghost q: int) returns (fi: int, f: int)
      requires Wired(cs) && HeapOk(mem[..], P, cs, blk) && 0 <= ci < |cs| && NeatUpTo(q, mem[..], P, cs, blk, ci)
      ensures f != NULL ==> IsFreeRegion(mem[..], cs, blk, fi, f) && Neat(q, mem[..], P, cs, blk, ci, cs[ci].start, fi, f)
      ensures f == NULL ==> AllPackedBelow(FreeCells(mem[..], P, blk), cs, q)
    {
      fi, f := FirstFreeRegion(0, P, cs, blk);
      if f == NULL {
        NothingFree(mem[..], P, cs, blk, q);
      } else {
        NeatStart(q, mem[..], P, cs, blk, ci, fi, f);
      }
    }

    /** The outer loop, over the clusters. */
    method CompactAll(ghost g: Memory, ghost P: set<int>, ghost cs: seq<Extent>, ghost blk0: Blocks,
            ghost roots0: seq<int>, ghost q: int)
      returns (ghost blk: Blocks, ghost R: seq<Region>, ghost k: nat, ghost front: int)
      requires Wired(cs) && Progress(g, blk0, mem[..], P, cs, blk0, [], 0, 0) && Recorded([], 0, roots0)
      requires NothingPinned(mem[..], blk0, q)
      modifies mem, relocator, relocator.rootPointers, relocator.relocBlocks
      ensures Progress(g, blk0, mem[..], P, cs, blk, R, k, front) && Recorded(R, k, roots0)
      ensures AllPackedBelow(FreeCells(mem[..], P, blk), cs, q)
    {
      k, front, blk, R := 0, 0, blk0, [];
      var ci, fi, f := 0, 0, NULL;
      while ci < |heap|
        invariant 0 <= ci <= |cs| && Progress(g, blk0, mem[..], P, cs, blk, R, k, front) && Recorded(R, k, roots0)
        invariant ci < |cs| ==> front <= cs[ci].start
        invariant f != NULL ==> IsFreeRegion(mem[..], cs, blk, fi, f)
        invariant NeatUpTo(q, mem[..], P, cs, blk, ci)
        invariant f != NULL && ci < |cs| ==> Neat(q, mem[..], P, cs, blk, ci, cs[ci].start, fi, f)
      {
        if f == NULL {
          fi, f := Restart(ci, P, cs, blk, q);
          if f == NULL { break; }
        }
        ProgressFront(g, blk0, mem[..], P, cs, blk, R, k, front, cs[ci].start);
        ci, fi, f, blk, R, k, front := CompactNext(ci, fi, f, g, P, cs, blk0, blk, R, k, roots0, q);
      }
    }

    /** One round of the outer loop. */
    method CompactNext(ci0: int, fi0: int, f0: int, ghost g: Memory, ghost P: set<int>, ghost cs: seq<Extent>,
            ghost blk0: Blocks,
        ghost blk0': Blocks, ghost R0: seq<Region>, ghost k0: nat, ghost roots0: seq<int>, ghost q: int)
      returns (ci: int, fi: int, f: int, ghost blk: Blocks, ghost R: seq<Region>, ghost k: nat, ghost front: int)
      requires Wired(cs) && 0 <= ci0 < |cs| && Progress(g, blk0, mem[..], P, cs, blk0', R0, k0, cs[ci0].start)
      requires Neat(q, mem[..], P, cs, blk0', ci0, cs[ci0].start, fi0, f0)
      requires Recorded(R0, k0, roots0) && IsFreeRegion(mem[..], cs, blk0', fi0, f0)
      modifies mem, relocator, relocator.rootPointers, relocator.relocBlocks
      ensures ci0 < ci <= |cs| && Progress(g, blk0, mem[..], P, cs, blk, R, k, front) && Recorded(R, k, roots0)
      ensures (ci < |cs| ==> front <= cs[ci].start) && (f != NULL ==> IsFreeRegion(mem[..], cs, blk, fi, f))
      ensures NeatUpTo(q, mem[..], P, cs, blk, ci)
      ensures f != NULL && ci < |cs| ==> Neat(q, mem[..], P, cs, blk, ci, cs[ci].start, fi, f)
    {
      ci, fi, f, blk, R, k := CompactFrom(ci0, fi0, f0, g, P, cs, blk0, blk0', R0, k0, roots0, q);
      front := cs[ci].end;
      NextCluster(mem[..], P, cs, blk, ci);
      if f != NULL { NeatCluster(q, mem[..], P, cs, blk, ci, fi, f); }
      ci := ci + 1;
    }
  }

  lemma NextCluster(m: Memory, P: set<int>, cs: seq<Extent>, blk: Blocks, ci: int)
    requires HeapOk(m, P, cs, blk) && 0 <= ci < |cs|
    ensures ci + 1 < |cs| ==> cs[ci].end <= cs[ci + 1].start
  {
  }

  lemma StartAtBlock(m: Memory, P: set<int>, cs: seq<Extent>, blk: Blocks, ci: int)
    requires HeapOk(m, P, cs, blk) && 0 <= ci < |cs|
    ensures AtBlock(cs, blk, ci, cs[ci].start)
  {
    assert ClusterIn(m, P, cs[ci].start, cs[ci].end);
    var lo := cs[ci].start;
    var atStart := lo in blk;
  }

  /** A free block above the source position is in the same or in a higher cluster. */
  lemma JumpForward(cs: seq<Extent>, ci: int, pos: int, fi: int, f: int)
    requires 0 <= ci < |cs| && 0 <= fi < |cs| && cs[ci].start <= pos && pos < f && f < cs[fi].end
    requires forall j, k :: 0 <= j < k < |cs| ==> cs[j].end + 1 < cs[k].start
    ensures ci <= fi
  {
  }

  lemma PinnedFree(m: Memory, P: set<int>, cs: seq<Extent>, blk: Blocks, fi: int, f: int)
    requires HeapOk(m, P, cs, blk) && IsFreeRegion(m, cs, blk, fi, f)
    ensures m[f].flags.Unmovable()
  {
  }

  lemma TableAppended(R: seq<Region>, k: nat, f: int, src: int, mv: int)
    requires RegionsOk(R) && Below(R, src) && 0 < f < src && 1 <= mv && k <= |R|
    ensures var r := Moving(f, src, mv);
      (R + [r])[k..] == R[k..] + [r] && (R + [r])[..k] == R[..k] && RegionsOk(R[k..] + [r])
  {
    var r := Moving(f, src, mv);
    MapSlice(R, k, |R|, 0);
    assert R[k..|R|] == R[k..];
    forall i | 0 <= i < |R[k..]| ensures R[k..][i].end <= src {
      assert R[k..][i] == R[k + i];
    }
    RegionAppended(R[k..], f, src, mv);
  }

  lemma HeapWalkable(m: Memory, P: set<int>, cs: seq<Extent>, blk: Blocks, ci: int)
    requires HeapOk(m, P, cs, blk) && 0 <= ci < |cs|
    ensures Walkable(m, P, cs, blk, ci)
  {
  }

  /** A free block below a block ends at or before it, in the same or in a lower cluster. */
  lemma FreeBelow(m: Memory, P: set<int>, cs: seq<Extent>, blk: Blocks, fi: int, f: int, ci: int, src: int)
    requires HeapOk(m, P, cs, blk) && IsFreeRegion(m, cs, blk, fi, f) && f < src
    requires 0 <= ci < |cs| && cs[ci].start <= src < cs[ci].end && src in blk
    ensures fi <= ci && EndOf(blk, f) <= src
  {
  }

  lemma NextRegion(m: Memory, P: set<int>, cs: seq<Extent>, blk: Blocks, fi: int, f: int)
    requires HeapOk(m, P, cs, blk) && IsFreeRegion(m, cs, blk, fi, f)
    ensures f < NextOf(m, f)
    ensures NextOf(m, f) == cs[fi].end || IsFreeRegion(m, cs, blk, fi, NextOf(m, f))
  {
    FreeRegionFacts(m, P, cs, blk, fi, f);
    var F := FreeOf(m, blk, cs[fi].start, cs[fi].end);
    assert FreeListOk(m, cs[fi].start - 1, cs[fi].end, F);
    assert Node(cs[fi].start - 1, cs[fi].end, F, f);
  }

  /** A free region of a lower cluster, or the end of it, lies below every block of a higher one. */
  lemma RegionBelow(m: Memory, cs: seq<Extent>, fs: seq<set<int>>, fi: int, ci: int, region: int)
    requires 0 <= fi <= ci < |cs| == |fs|
    requires fi < ci ==> cs[fi].end + 1 < cs[ci].start
    requires region == cs[fi].end || (region in fs[fi] && region < cs[fi].end)
    ensures fi < ci ==> region < cs[ci].start
  {
  }

  lemma FreeRegionFacts(m: Memory, P: set<int>, cs: seq<Extent>, blk: Blocks, fi: int, f: int)
    requires HeapOk(m, P, cs, blk) && IsFreeRegion(m, cs, blk, fi, f)
    ensures FreeLists(m, cs, FreeSets(m, cs, blk)) && f in FreeSets(m, cs, blk)[fi]
    ensures forall a :: FreeAny(m, FreeSets(m, cs, blk), a) <==> FreeCell(m, blk, a)
    ensures var n := NextOf(m, f); n == cs[fi].end || (n in FreeSets(m, cs, blk)[fi] && n != f)
    ensures 0 < f && f + blk[f] <= cs[fi].end && cs[fi].start <= f
  {
    forall a ensures FreeAny(m, FreeSets(m, cs, blk), a) <==> FreeCell(m, blk, a) {
      FreeAnyIsFreeCell(m, P, cs, blk, a);
    }
    var F := FreeOf(m, blk, cs[fi].start, cs[fi].end);
    assert FreeListOk(m, cs[fi].start - 1, cs[fi].end, F);
    assert Node(cs[fi].start - 1, cs[fi].end, F, f);
  }

  /** Once the free block is unlinked, the target cells are on no list. */
  lemma TargetOffList(m0: Memory, m1: Memory, P: set<int>, cs: seq<Extent>, blk: Blocks, fs0: seq<set<int>>,
          fs1: seq<set<int>>, f: int, src: int, mv: int)
    requires Movable(m0, P, blk, f, src, mv)
    requires forall a :: FreeAny(m0, fs0, a) <==> FreeCell(m0, blk, a)
    requires RefreedCells(m0, m1, P, fs0, fs1, f, f + blk[f], false)
    ensures forall a :: f <= a < f + mv ==> a in P && !FreeAny(m1, fs1, a)
    ensures forall a :: f <= a < f + blk[f] ==> !FreeAny(m1, fs1, a)
    ensures forall a :: src <= a < src + mv ==> !FreeAny(m1, fs1, a)
  {
    forall a | src <= a < src + mv ensures !FreeAny(m1, fs1, a) {
      RunNotFree(m0, P, blk, src, mv, a);
    }
    forall a | f <= a < f + mv ensures a in P && !FreeAny(m1, fs1, a) {
      TargetCell(m0, P, blk, f, src, mv, a);
    }
  }

  lemma FirstNode(m: Memory, head: int, tail: int, F: set<int>)
    requires Linked(m, head, tail, F)
    ensures Node(head, tail, F, NextOf(m, head))
    ensures NextOf(m, NextOf(m, head)) != NULL ==> NextOf(m, head) in F && forall f :: f in F ==> NextOf(m, head) <= f
    ensures NextOf(m, NextOf(m, head)) == NULL ==> F == {}
  {
    var n := NextOf(m, head);
    assert Node(head, tail, F, head) && Node(head, tail, F, n);
    assert n != tail ==> n < NextOf(m, n);
    forall f | f in F ensures n <= f && n != tail {
      assert Node(head, tail, F, f);
    }
  }

  lemma RunExtended(m: Memory, P: set<int>, cs: seq<Extent>, blk: Blocks, ci: int, pos: int, move: nat)
    requires AtBlock(cs, blk, ci, pos) && AtBlock(cs, blk, ci, pos + move) && Walkable(m, P, cs, blk, ci)
    requires if move == 0 then true else Run(m, P, blk, pos, move)
    requires pos + move < cs[ci].end && !m[pos + move].flags.Unmovable()
    ensures Run(m, P, blk, pos, move + m[pos + move].size)
    ensures AtBlock(cs, blk, ci, pos + move + m[pos + move].size)
  {
    var e := pos + move;
    BlockFits(P, cs[ci].start, cs[ci].end, blk, e);
    assert m[e].dataType != FreeBlock;
    forall s, a | Inside(blk, s, a) && pos <= a < e + blk[e]
      ensures pos <= s && s + blk[s] <= e + blk[e] && m[s].dataType != FreeBlock && !m[s].flags.Unmovable()
    {
      assert a >= e ==> s == e;
    }
  }
}
