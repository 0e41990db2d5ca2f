/** The relocation pass: every reference in the heap and in the root pointers is looked up in the table
    of relocation regions and rewritten (CLR_RT_GarbageCollector::Heap_Relocate). */
module Relocating {
  import opened HeapCells
  import opened Partitions
  import opened Sweeping
  import opened Relocation

  class Relocator {
    const mem: array<Cell>
    const clusters: seq<Extent>
    /** Pointers into the heap that live outside it. */
    const rootPointers: array<int>
    const relocBlocks: array<Region>
    var relocCount: nat
    var relocMinimum: int
    var relocMaximum: int

    constructor (mem: array<Cell>, clusters: seq<Extent>, rootPointers: array<int>, relocBlocks: array<Region>)
      ensures this.mem == mem && this.clusters == clusters && this.rootPointers == rootPointers && this.relocBlocks == relocBlocks
      ensures relocCount == 0 && Valid()
    {
      this.mem, this.clusters, this.rootPointers, this.relocBlocks := mem, clusters, rootPointers, relocBlocks;
      relocCount, relocMinimum, relocMaximum := 0, 0, 0;
    }

    ghost predicate Valid()
      reads this, relocBlocks
    {
      && relocCount <= relocBlocks.Length
      && RegionsOk(Table())
    }

    /** The regions recorded since the last pass. */
    ghost function Table(): seq<Region>
      reads this, relocBlocks
      requires relocCount <= relocBlocks.Length
    {
      relocBlocks[..relocCount]
    }

    /** The interval that all regions lie in. */
    ghost predicate Bracketed()
      reads this, relocBlocks
      requires relocCount <= relocBlocks.Length
    {
      forall i :: 0 <= i < relocCount ==> relocMinimum <= relocBlocks[i].start && relocBlocks[i].end <= relocMaximum
    }

    /** Heap_Relocate_Prepare: an empty table. */
    method Prepare()
      requires 0 < relocBlocks.Length
      modifies this`relocCount
      ensures relocCount == 0 && Valid()
    {
      relocCount := 0;
    }

    /** Fill in the entry behind the table, all but its end. */
    method Begin(destination: int, start: int)
      requires Valid() && relocCount < relocBlocks.Length
      modifies relocBlocks
      ensures Valid() && Table() == old(Table())
      ensures relocBlocks[relocCount].destination == destination && relocBlocks[relocCount].start == start
      ensures relocBlocks[relocCount].offset == destination - start
    {
      relocBlocks[relocCount] := Region(start, start, destination, destination - start);
      assert Table() == old(Table());
    }

    /** Set the end of that entry and make it part of the table. */
    method Commit(move: nat)
      requires relocCount < relocBlocks.Length
      requires var r := relocBlocks[relocCount]; r.offset == r.destination - r.start
      requires var r := relocBlocks[relocCount]; RegionsOk(Table() + [r.(end := r.start + move)])
      modifies relocBlocks, this`relocCount
      ensures Valid() && relocCount == old(relocCount) + 1
      ensures var r := old(relocBlocks[relocCount]); Table() == old(Table()) + [r.(end := r.start + move)]
    {
      relocBlocks[relocCount] := relocBlocks[relocCount].(end := relocBlocks[relocCount].start + move);
      relocCount := relocCount + 1;
      assert Table() == old(Table()) + [relocBlocks[relocCount - 1]];
    }

    /** Heap_Relocate(void**): look one pointer up by binary search. */
    method RelocatePointer(dst: int) returns (ref: int)
      requires Valid() && Bracketed()
      ensures ref == RegionMap(Table(), dst)
    {
      ghost var T := Table();
      if relocMinimum <= dst < relocMaximum {
        var left, right := 0, relocCount;
        while left < right
          invariant 0 <= left <= right <= relocCount
          invariant forall i :: 0 <= i < left ==> T[i].end <= dst
          invariant forall i :: right <= i < relocCount ==> dst < T[i].start
        {
          var center := (left + right) / 2;
          var relocCurrent := relocBlocks[center];
          assert relocCurrent == T[center];
          if dst < relocCurrent.start {
            right := center;
          } else if dst >= relocCurrent.end {
            left := center + 1;
          } else {
            MapIn(T, center, dst);
            return dst + relocCurrent.offset;
          }
        }
      }
      forall i ensures !Holds(T, i, dst) {
        assert 0 <= i < |T| ==> T[i] == relocBlocks[i];
      }
      MapOut(T, dst);
      ref := dst;
    }

    /** Relocate the reference of one cell, if it has one. */
    method RelocateCell(ptr: int)
      requires Valid() && Bracketed() && 0 <= ptr < mem.Length
      modifies mem
      ensures mem[..] == old(mem[..])[ptr := Retarget(old(mem[ptr]), Table())]
    {
      if HasRef(mem[ptr]) {
        var ref := RelocatePointer(mem[ptr].word.target);
        mem[ptr] := mem[ptr].(word := Pointer(ref));
      }
    }

    /** CLR_RT_HEAPBLOCK_RELOCATE on the head of a block, with Heap_Relocate(lst, len) for what follows. */
    method RelocateBlock(b: int)
      requires Valid() && Bracketed()
      requires 0 <= b < mem.Length && b + RelocNum(mem[b]) < mem.Length
      modifies mem
      ensures BlockPassed(old(mem[..]), mem[..], b, Table())
    {
      ghost var m := mem[..];
      ghost var T := Table();
      var len := RelocNum(mem[b]);
      RelocateCell(b);
      var lst := b + 1;
      while len > 0
        invariant 0 <= len && lst + len == b + 1 + RelocNum(m[b]) && b < lst
        invariant Table() == T && Valid() && Bracketed()
        invariant forall a :: 0 <= a < |m| ==> mem[a] == if b <= a < lst then Retarget(m[a], T) else m[a]
      {
        RelocateCell(lst);
        lst, len := lst + 1, len - 1;
      }
    }

    /** Heap_Relocate_Pass: walk the blocks of every cluster. */
    method RelocatePass(ghost P: set<int>, ghost blk: Blocks)
      requires Valid() && Bracketed()
      requires HeapShape(mem[..], P, blk) && RefsOk(mem[..], blk) && Layout(mem[..], P, clusters)
      modifies mem
      ensures PassedUpTo(old(mem[..]), mem[..], blk, Table(), mem.Length)
    {
      ghost var m := mem[..];
      ghost var T := Table();
      ghost var done := 0;
      var i := 0;
      PassGap(m, m, P, blk, T, 0, 0);
      while i < |clusters|
        invariant 0 <= i <= |clusters| && Valid() && Bracketed() && Table() == T
        invariant PassedUpTo(m, mem[..], blk, T, done)
        invariant if i == 0 then done == 0 else done == clusters[i - 1].end
      {
        ClustersApart(m, P, clusters, i);
        PassGap(m, mem[..], P, blk, T, done, clusters[i].start);
        RelocateCluster(i, m, P, blk);
        done := clusters[i].end;
        i := i + 1;
      }
      ClustersApart(m, P, clusters, i);
      PassGap(m, mem[..], P, blk, T, done, mem.Length);
    }

    method RelocateCluster(i: int, ghost m: Memory, ghost P: set<int>, ghost blk: Blocks)
      requires Valid() && Bracketed() && 0 <= i < |clusters|
      requires HeapShape(m, P, blk) && RefsOk(m, blk) && Layout(m, P, clusters)
      requires PassedUpTo(m, mem[..], blk, Table(), clusters[i].start)
      modifies mem
      ensures PassedUpTo(m, mem[..], blk, Table(), clusters[i].end)
    {
      ghost var T := Table();
      var ptr, end := clusters[i].start, clusters[i].end;
      while ptr < end
        invariant clusters[i].start <= ptr <= end && (ptr < end ==> ptr in blk)
        invariant Valid() && Bracketed() && Table() == T
        invariant PassedUpTo(m, mem[..], blk, T, ptr)
        decreases end - ptr
      {
        ghost var m1 := mem[..];
        BlockFits(P, clusters[i].start, end, blk, ptr);
        assert m1[ptr] == m[ptr];
        RelocateBlock(ptr);
        PassBlock(m, m1, mem[..], P, blk, T, ptr);
        ptr := ptr + mem[ptr].size;
      }
    }

    /** The first loop of Heap_Relocate: the interval that all regions lie in. */
    method Bracket()
      requires Valid() && 0 < relocCount
      modifies this`relocMinimum, this`relocMaximum
      ensures Bracketed()
    {
      relocMinimum, relocMaximum := relocBlocks[0].start, relocBlocks[0].end;
      var i := 0;
      while i < relocCount
        invariant 0 <= i <= relocCount
        invariant forall j :: 0 <= j < i ==> relocMinimum <= relocBlocks[j].start && relocBlocks[j].end <= relocMaximum
      {
        if relocMinimum > relocBlocks[i].start { relocMinimum := relocBlocks[i].start; }
        if relocMaximum < relocBlocks[i].end { relocMaximum := relocBlocks[i].end; }
        i := i + 1;
      }
    }

    /** Heap_Relocate: bracket the table, rewrite every reference, and start a new table. */
    method Relocate(ghost P: set<int>, ghost blk: Blocks)
      requires Valid() && 0 < relocCount
      requires HeapShape(mem[..], P, blk) && RefsOk(mem[..], blk) && Layout(mem[..], P, clusters)
      modifies mem, rootPointers, this`relocCount, this`relocMinimum, this`relocMaximum
      ensures Valid() && relocCount == 0
      ensures PassedUpTo(old(mem[..]), mem[..], blk, old(Table()), mem.Length)
      ensures forall i :: 0 <= i < rootPointers.Length ==> rootPointers[i] == RegionMap(old(Table()), old(rootPointers[i]))
    {
      Bracket();
      RelocatePass(P, blk);
      RelocateRoots();
      relocCount := 0;
    }

    /** CLR_RT_ExecutionEngine::Relocate. */
    method RelocateRoots()
      requires Valid() && Bracketed()
      modifies rootPointers
      ensures forall i :: 0 <= i < rootPointers.Length ==> rootPointers[i] == RegionMap(Table(), old(rootPointers[i]))
    {
      ghost var T := Table();
      var i := 0;
      while i < rootPointers.Length
        invariant 0 <= i <= rootPointers.Length && Valid() && Bracketed() && Table() == T
        invariant forall j :: 0 <= j < rootPointers.Length ==>
            rootPointers[j] == if j < i then RegionMap(T, old(rootPointers[j])) else old(rootPointers[j])
      {
        rootPointers[i] := RelocatePointer(rootPointers[i]);
        i := i + 1;
      }
    }
  }

  /** Between the end of one cluster and the start of the next there is no payload. */
  lemma ClustersApart(m: Memory, P: set<int>, cs: seq<Extent>, i: int)
    requires Layout(m, P, cs) && 0 <= i <= |cs|
    ensures var p := if i == 0 then 0 else cs[i - 1].end;
            var q := if i == |cs| then |m| else cs[i].start;
            p <= q && forall a :: p <= a < q ==> a !in P
  {
    var p := if i == 0 then 0 else cs[i - 1].end;
    var q := if i == |cs| then |m| else cs[i].start;
    forall a | p <= a < q ensures a !in P {
      var inside := InSome(cs, a);
      forall k | 0 <= k < |cs| ensures !(cs[k].start <= a < cs[k].end) {
        assert k < i - 1 ==> cs[k].end + 1 < cs[i - 1].start;
        assert k > i ==> cs[i].end + 1 < cs[k].start;
      }
    }
  }
}
