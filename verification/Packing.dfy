/** How well a compaction packs the heap.  Fr is always the set of the free cells. */
module Packing {
  import opened HeapCells
  import opened FreeBlocks
  import opened Partitions
  import opened Sweeping
  import opened RunMoves

  ghost function FreeCells(m: Memory, P: set<int>, blk: Blocks): set<int>
    requires SizesMatch(m, blk)
  {
    set a | a in P && FreeCell(m, blk, a)
  }

  /** No block in use below q is pinned or an event. */
  ghost predicate NothingPinned(m: Memory, blk: Blocks, q: int)
    requires SizesMatch(m, blk)
  {
    forall b :: Used(m, blk, b) && b < q ==> !m[b].flags.Unmovable()
  }

  /** All cells in use of a cluster come before all its free cells. */
  ghost predicate Packed(Fr: set<int>, c: Extent) {
    forall a, b :: c.start <= a < b < c.end && a in Fr ==> b in Fr
  }

  ghost predicate Full(Fr: set<int>, c: Extent) {
    forall a :: c.start <= a < c.end ==> a !in Fr
  }

  /** The same for the part of the cluster below q. */
  ghost predicate PackedBelow(Fr: set<int>, c: Extent, q: int) {
    forall a, b :: c.start <= a < b < c.end && b < q && a in Fr ==> b in Fr
  }

  ghost predicate AllPackedBelow(Fr: set<int>, cs: seq<Extent>, q: int) {
    forall k :: 0 <= k < |cs| ==> PackedBelow(Fr, cs[k], q)
  }

  ghost predicate Ordered(cs: seq<Extent>) {
    && (forall k :: 0 <= k < |cs| ==> cs[k].start <= cs[k].end)
    && (forall j, k :: 0 <= j < k < |cs| ==> cs[j].end + 1 < cs[k].start)
  }

  // ---------- The state of the loops ----------

  /** The clusters before the source cluster ci are packed; the clusters from there to the one of the free
      block at f, in cluster fi, are full, and so is the part of that one below f; below the source position
      the source cluster has no cells in use but those below f. */
  ghost predicate Tidy(Fr: set<int>, cs: seq<Extent>, ci: int, pos: int, fi: int, f: int) {
    && 0 <= ci < |cs| && 0 <= fi < |cs|
    && (forall k :: 0 <= k < ci ==> Packed(Fr, cs[k]))
    && (forall k :: ci <= k < fi ==> Full(Fr, cs[k]))
    && (forall a :: cs[fi].start <= a < f ==> a !in Fr)
    && (forall a :: cs[ci].start <= a < pos && a !in Fr ==> ci < fi || (ci == fi && a < f))
  }

  /** The free blocks up to cluster fi are used up or given up, and it is packed like all others before ci. */
  ghost predicate Left(Fr: set<int>, cs: seq<Extent>, ci: int, pos: int, fi: int) {
    && 0 <= fi < ci < |cs|
    && (forall k :: 0 <= k < ci ==> Packed(Fr, cs[k]))
    && (forall a :: cs[ci].start <= a < pos ==> a in Fr)
  }

  /** f is the first free cell from cluster `from` on. */
  ghost predicate FirstFree(Fr: set<int>, cs: seq<Extent>, from: int, fi: int, f: int) {
    && 0 <= from <= fi < |cs| && (forall k :: from <= k < fi ==> Full(Fr, cs[k]))
    && (forall a :: cs[fi].start <= a < f ==> a !in Fr)
  }

  lemma TidyStart(Fr: set<int>, cs: seq<Extent>, ci: int, fi: int, f: int)
    requires 0 <= ci < |cs| && (forall k :: 0 <= k < ci ==> Packed(Fr, cs[k])) && FirstFree(Fr, cs, 0, fi, f)
    ensures Tidy(Fr, cs, ci, cs[ci].start, fi, f)
  {
  }

  /** The source jumps to a free block above it. */
  lemma TidyJump(Fr: set<int>, cs: seq<Extent>, ci: int, pos: int, fi: int, f: int)
    requires Tidy(Fr, cs, ci, pos, fi, f) && ci <= fi
    ensures Tidy(Fr, cs, fi, f, fi, f)
  {
    forall k | 0 <= k < fi ensures Packed(Fr, cs[k]) {
      if k >= ci { assert Full(Fr, cs[k]); }
    }
  }

  /** The source skips free cells. */
  lemma TidySkip(Fr: set<int>, cs: seq<Extent>, ci: int, pos: int, pos': int, fi: int, f: int)
    requires Tidy(Fr, cs, ci, pos, fi, f) && pos <= pos' && forall a :: pos <= a < pos' ==> a in Fr
    ensures Tidy(Fr, cs, ci, pos', fi, f)
  {
  }

  /** The source cluster is done. */
  lemma TidyPacked(Fr: set<int>, cs: seq<Extent>, ci: int, fi: int, f: int)
    requires 0 <= ci < |cs| && Tidy(Fr, cs, ci, cs[ci].end, fi, f)
    ensures Packed(Fr, cs[ci])
    ensures ci + 1 < |cs| ==> Tidy(Fr, cs, ci + 1, cs[ci + 1].start, fi, f)
  {
    if ci < fi { assert Full(Fr, cs[ci]); }
    forall a, b | cs[ci].start <= a < b < cs[ci].end && a in Fr ensures b in Fr { }
  }

  /** In its own cluster the free block is right before the source. */
  lemma TidyAdjacent(Fr: set<int>, cs: seq<Extent>, ci: int, src: int, f: int, size: nat)
    requires Tidy(Fr, cs, ci, src, ci, f) && cs[ci].start <= f < f + size <= src < cs[ci].end
    requires f + size !in Fr
    ensures f + size == src
  {
  }

  /** In an earlier cluster it reaches to the end. */
  lemma TidyLast(Fr: set<int>, cs: seq<Extent>, ci: int, src: int, fi: int, f: int, size: nat)
    requires Tidy(Fr, cs, ci, src, fi, f) && fi < ci && cs[fi].start <= f < f + size <= cs[fi].end
    requires f in Fr && (f + size < cs[fi].end ==> f + size !in Fr)
    ensures f + size == cs[fi].end
    ensures Left(Fr, cs, ci, src, fi)
  {
    assert Packed(Fr, cs[fi]);
  }

  lemma TidyNext(Fr: set<int>, cs: seq<Extent>, ci: int, pos: int, fi: int, fi': int, f: int)
    requires Left(Fr, cs, ci, pos, fi) && FirstFree(Fr, cs, fi + 1, fi', f)
    ensures Tidy(Fr, cs, ci, pos, fi', f)
  {
  }

  lemma LeftNone(Fr: set<int>, cs: seq<Extent>, ci: int, pos: int, fi: int, q: int)
    requires Left(Fr, cs, ci, pos, fi) && forall k :: fi < k < |cs| ==> Full(Fr, cs[k])
    ensures AllPackedBelow(Fr, cs, q)
  {
    forall k | 0 <= k < |cs| ensures PackedBelow(Fr, cs[k], q) {
      if k > fi { assert Full(Fr, cs[k]); } else { assert Packed(Fr, cs[k]); }
    }
  }

  // ---------- Past the first pinned block ----------

  /** Once the source has passed q, the heap below q is packed. */
  lemma TidyBelow(Fr: set<int>, cs: seq<Extent>, ci: int, pos: int, fi: int, f: int, q: int)
    requires Ordered(cs) && Tidy(Fr, cs, ci, pos, fi, f) && q <= pos <= cs[ci].end
    ensures AllPackedBelow(Fr, cs, q)
  {
    forall k | 0 <= k < |cs| ensures PackedBelow(Fr, cs[k], q) {
      if k < ci {
        assert Packed(Fr, cs[k]);
      } else if k == ci {
        if ci < fi { assert Full(Fr, cs[ci]); }
        forall a, b | cs[k].start <= a < b < cs[k].end && b < q && a in Fr ensures b in Fr { }
      }
    }
  }

  lemma LeftBelow(Fr: set<int>, cs: seq<Extent>, ci: int, pos: int, fi: int, q: int)
    requires Ordered(cs) && Left(Fr, cs, ci, pos, fi) && q <= pos <= cs[ci].end
    ensures AllPackedBelow(Fr, cs, q)
  {
    forall k | 0 <= k < |cs| ensures PackedBelow(Fr, cs[k], q) {
      if k < ci { assert Packed(Fr, cs[k]); }
    }
  }

  /** And moves from above q keep it so: they fill a free block from its front, and all in front of it is in
      use. */
  lemma BelowKept(Fr: set<int>, Fr': set<int>, cs: seq<Extent>, fi: int, f: int, src: int, mv: nat, q: int)
    requires Ordered(cs) && AllPackedBelow(Fr, cs, q) && 0 <= fi < |cs| && q <= src
    requires Shifted(Fr, Fr', f, src, mv) && cs[fi].start <= f && f + mv <= cs[fi].end && f in Fr
    requires cs[fi].start < f ==> f - 1 !in Fr
    ensures AllPackedBelow(Fr', cs, q)
  {
    forall k | 0 <= k < |cs| ensures PackedBelow(Fr', cs[k], q) {
      assert PackedBelow(Fr, cs[k], q) && PackedBelow(Fr, cs[fi], q);
      forall a, b | cs[k].start <= a < b < cs[k].end && b < q && a in Fr' ensures b in Fr' {
        var before := f - 1 in Fr;
      }
    }
  }

  // ---------- One move ----------

  /** What a move does to the free cells: the run [src, src + mv) is now at f. */
  ghost predicate Shifted(Fr: set<int>, Fr': set<int>, f: int, src: int, mv: int) {
    forall a :: a in Fr' <==> (a in Fr || src <= a < src + mv) && !(f <= a < f + mv)
  }

  /** A move within a cluster: what was free behind the run is now right behind the moved run. */
  lemma TidySlide(Fr: set<int>, Fr': set<int>, cs: seq<Extent>, ci: int, src: int, mv: nat, pos: int, f: int,
          size: nat, region: int)
    requires Ordered(cs) && Tidy(Fr, cs, ci, src, ci, f) && 1 <= mv && 1 <= size && f + size == src
    requires cs[ci].start <= f && src + mv <= pos <= cs[ci].end
    requires Shifted(Fr, Fr', f, src, mv) && forall a :: src <= a < src + mv ==> a !in Fr
    requires forall a :: src + mv <= a < pos ==> a in Fr
    requires region in Fr' && cs[ci].start <= region <= f + mv
    ensures Tidy(Fr', cs, ci, pos, ci, region)
  {
    assert region == f + mv;
    forall k | 0 <= k < ci ensures Packed(Fr', cs[k]) {
      assert Packed(Fr, cs[k]);
      SameElsewhere(Fr, Fr', cs[k], f, src, mv);
    }
    forall a | cs[ci].start <= a < pos && a !in Fr' ensures a < region { }
  }

  lemma SameElsewhere(Fr: set<int>, Fr': set<int>, c: Extent, f: int, src: int, mv: nat)
    requires Packed(Fr, c) && Shifted(Fr, Fr', f, src, mv) && c.end <= f && c.end <= src
    ensures Packed(Fr', c)
  {
    forall a, b | c.start <= a < b < c.end && a in Fr' ensures b in Fr' { }
  }

  /** A move to an earlier cluster, whose last cells were free. */
  lemma TidyFill(Fr: set<int>, Fr': set<int>, cs: seq<Extent>, ci: int, src: int, mv: nat, pos: int, fi: int, f: int,
          size: nat, region: int)
    requires Ordered(cs) && Tidy(Fr, cs, ci, src, fi, f) && fi < ci && 1 <= mv <= size
    requires cs[fi].start <= f && f + size == cs[fi].end && (forall a :: f <= a < f + size ==> a in Fr)
    requires cs[ci].start <= src && src + mv <= pos <= cs[ci].end
    requires Shifted(Fr, Fr', f, src, mv) && forall a :: src + mv <= a < pos ==> a in Fr
    requires region == cs[fi].end || (region in Fr' && cs[fi].start <= region < cs[fi].end)
    requires mv < size ==> region <= f + mv
    ensures if region == cs[fi].end then Left(Fr', cs, ci, pos, fi) else Tidy(Fr', cs, ci, pos, fi, region)
  {
    assert cs[fi].end + 1 < cs[ci].start;
    forall a | cs[fi].start <= a < cs[fi].end ensures a in Fr' <==> f + mv <= a { }
    forall k | 0 <= k < ci ensures Packed(Fr', cs[k]) {
      assert Packed(Fr, cs[k]);
      if k < fi {
        SameElsewhere(Fr, Fr', cs[k], f, src, mv);
      } else if k > fi {
        assert cs[fi].end < cs[k].start && cs[k].end < cs[ci].start;
        forall a, b | cs[k].start <= a < b < cs[k].end && a in Fr' ensures b in Fr' { }
      }
    }
    forall a | cs[ci].start <= a < pos ensures a in Fr' { }
  }

  // ---------- The free cells of a heap ----------

  lemma HeapOrdered(m: Memory, P: set<int>, cs: seq<Extent>)
    requires Layout(m, P, cs)
    ensures Ordered(cs)
  {
    forall k | 0 <= k < |cs| ensures cs[k].start <= cs[k].end {
      assert ClusterIn(m, P, cs[k].start, cs[k].end);
    }
  }

  /** A free block is a maximal run of free cells. */
  lemma FreeBlockCells(m: Memory, P: set<int>, cs: seq<Extent>, blk: Blocks, fi: int, f: int)
    requires HeapOk(m, P, cs, blk) && 0 <= fi < |cs| && f in FreeOf(m, blk, cs[fi].start, cs[fi].end)
    ensures forall a :: f <= a < f + blk[f] ==> a in FreeCells(m, P, blk)
    ensures f + blk[f] <= cs[fi].end && (f + blk[f] < cs[fi].end ==> f + blk[f] !in FreeCells(m, P, blk))
  {
    var F := FreeOf(m, blk, cs[fi].start, cs[fi].end);
    assert FreeListOk(m, cs[fi].start - 1, cs[fi].end, F);
    var e := f + blk[f];
    forall a | f <= a < e ensures a in FreeCells(m, P, blk) {
      assert Inside(blk, f, a);
    }
    if e < cs[fi].end && FreeCell(m, blk, e) {
      var s :| Inside(blk, s, e) && m[s].dataType == FreeBlock;
      var listed := s in F;
    }
  }

  /** Among the cells of a cluster, those of its free blocks are free. */
  lemma CellOfFree(m: Memory, P: set<int>, cs: seq<Extent>, blk: Blocks, k: int, a: int) returns (s: int)
    requires HeapOk(m, P, cs, blk) && 0 <= k < |cs| && cs[k].start <= a < cs[k].end && a in FreeCells(m, P, blk)
    ensures s in FreeOf(m, blk, cs[k].start, cs[k].end) && s <= a
  {
    s :| Inside(blk, s, a) && m[s].dataType == FreeBlock;
    assert ClusterIn(m, P, cs[k].start, cs[k].end);
    if s < cs[k].start {
      assert Inside(blk, s, cs[k].start - 1);
    }
  }

  lemma FirstFreeCells(m: Memory, P: set<int>, cs: seq<Extent>, blk: Blocks, from: int, fi: int, f: int)
    requires HeapOk(m, P, cs, blk) && 0 <= from <= fi < |cs|
    requires forall k :: from <= k < fi ==> FreeOf(m, blk, cs[k].start, cs[k].end) == {}
    requires f <= cs[fi].end && forall s :: s in FreeOf(m, blk, cs[fi].start, cs[fi].end) ==> f <= s
    ensures FirstFree(FreeCells(m, P, blk), cs, from, fi, f)
  {
    forall k | from <= k < fi ensures Full(FreeCells(m, P, blk), cs[k]) {
      NoFreeCells(m, P, cs, blk, k);
    }
    forall a | cs[fi].start <= a < f ensures a !in FreeCells(m, P, blk) {
      if a in FreeCells(m, P, blk) {
        var s := CellOfFree(m, P, cs, blk, fi, a);
      }
    }
  }

  lemma NoFreeCells(m: Memory, P: set<int>, cs: seq<Extent>, blk: Blocks, k: int)
    requires HeapOk(m, P, cs, blk) && 0 <= k < |cs| && FreeOf(m, blk, cs[k].start, cs[k].end) == {}
    ensures Full(FreeCells(m, P, blk), cs[k])
  {
    forall a | cs[k].start <= a < cs[k].end ensures a !in FreeCells(m, P, blk) {
      if a in FreeCells(m, P, blk) {
        var s := CellOfFree(m, P, cs, blk, k, a);
      }
    }
  }

  /** Where nothing in use is pinned, only free cells are skipped. */
  lemma SkippedCells(m: Memory, P: set<int>, cs: seq<Extent>, blk: Blocks, ci: int, pos: int, pos': int, q: int)
    requires HeapOk(m, P, cs, blk) && NothingPinned(m, blk, q) && (forall a :: a in P ==> 0 < a)
    requires 0 <= ci < |cs| && cs[ci].start <= pos <= pos' <= cs[ci].end && (pos < pos' ==> pos in blk)
    requires forall s :: s in blk && pos <= s < pos' ==> m[s].flags.Unmovable()
    ensures forall a :: pos <= a < pos' && a < q ==> a in FreeCells(m, P, blk)
  {
    forall a | pos <= a < pos' && a < q ensures a in FreeCells(m, P, blk) {
      assert ClusterIn(m, P, cs[ci].start, cs[ci].end);
      var s := Covered(P, blk, a);
      assert pos <= s;
      assert !Used(m, blk, s);
    }
  }

  /** The free cells and the pins after a move. */
  lemma MovedFree(m: Memory, m': Memory, P: set<int>, cs: seq<Extent>, blk: Blocks, fs': seq<set<int>>, f: int,
          src: int, mv: int)
    requires Layout(m, P, cs)
    requires Move(m, m', P, blk, fs', f, src, mv) && FreeLists(m', cs, fs')
    ensures var blk' := NewBlocks(m, m', blk, fs', f, src, mv);
      SizesMatch(m', blk') && Shifted(FreeCells(m, P, blk), FreeCells(m', P, blk'), f, src, mv)
  {
    NewHeap(m, m', P, cs, blk, fs', f, src, mv);
    var blk' := NewBlocks(m, m', blk, fs', f, src, mv);
    assert FreeSets(m', cs, blk') == fs' by {
      forall k | 0 <= k < |cs| ensures FreeSets(m', cs, blk')[k] == fs'[k] {
        FreeSetIsList(m, m', P, cs, blk, fs', f, src, mv, k);
      }
    }
    forall a ensures a in FreeCells(m', P, blk') <==> (a in FreeCells(m, P, blk) || src <= a < src + mv) && !(f <= a < f + mv) {
      FreeAnyIsFreeCell(m', P, cs, blk', a);
    }
  }

  lemma StillNothingPinned(m: Memory, blk: Blocks, m': Memory, blk': Blocks, P: set<int>, f: int, src: int, mv: int, q: int)
    requires SizesMatch(m, blk) && SizesMatch(m', blk') && Partition(P, blk)
    requires NothingPinned(m, blk, q) && MovedRun(m, blk, m', blk', f, src, mv) && Run(m, P, blk, src, mv)
    ensures NothingPinned(m', blk', q)
  {
    forall b | Used(m', blk', b) && b < q ensures !m'[b].flags.Unmovable() {
      if KeptStart(m, blk, src, mv, b) {
        assert Inside(blk, b, b);
      } else {
        assert MovedStart(blk, f, src, mv, b);
        assert Inside(blk, b + (src - f), b + (src - f));
      }
    }
  }

  lemma RunCells(m: Memory, P: set<int>, blk: Blocks, src: int, mv: int)
    requires SizesMatch(m, blk) && Run(m, P, blk, src, mv)
    ensures forall a :: src <= a < src + mv ==> a !in FreeCells(m, P, blk)
  {
    forall a | src <= a < src + mv ensures a !in FreeCells(m, P, blk) {
      RunNotFree(m, P, blk, src, mv, a);
    }
  }

  // ---------- The state of a compaction ----------

  /** Nothing in use below q is pinned.  Until the source has passed q the heap is tidy; from then on it is
      packed below q. */
  ghost predicate Neat(q: int, m: Memory, P: set<int>, cs: seq<Extent>, blk: Blocks, ci: int, pos: int, fi: int, f: int)
    requires SizesMatch(m, blk)
  {
    && NothingPinned(m, blk, q)
    && if pos < q then Tidy(FreeCells(m, P, blk), cs, ci, pos, fi, f) else AllPackedBelow(FreeCells(m, P, blk), cs, q)
  }

  /** After a move or a free block given up; region is the next free block in its cluster, or its end. */
  ghost predicate NeatAfter(q: int, m: Memory, P: set<int>, cs: seq<Extent>, blk: Blocks, ci: int, pos: int, fi: int,
          region: int)
    requires SizesMatch(m, blk)
  {
    && NothingPinned(m, blk, q) && 0 <= fi < |cs|
    && if pos >= q then AllPackedBelow(FreeCells(m, P, blk), cs, q)
       else if region == cs[fi].end then Left(FreeCells(m, P, blk), cs, ci, pos, fi)
       else Tidy(FreeCells(m, P, blk), cs, ci, pos, fi, region)
  }

  /** The clusters before ci are done. */
  ghost predicate NeatUpTo(q: int, m: Memory, P: set<int>, cs: seq<Extent>, blk: Blocks, ci: int)
    requires SizesMatch(m, blk)
  {
    NothingPinned(m, blk, q) && ci <= |cs| && forall k :: 0 <= k < ci ==> PackedBelow(FreeCells(m, P, blk), cs[k], q)
  }

  /** With a free block at f, or none left. */
  ghost predicate NeatNow(q: int, m: Memory, P: set<int>, cs: seq<Extent>, blk: Blocks, ci: int, pos: int, fi: int, f: int)
    requires SizesMatch(m, blk)
  {
    if f == NULL then NeatUpTo(q, m, P, cs, blk, |cs|) else Neat(q, m, P, cs, blk, ci, pos, fi, f)
  }

  lemma NeatSource(q: int, m: Memory, P: set<int>, cs: seq<Extent>, blk: Blocks, ci0: int, pos0: int, ci: int,
          pos1: int, pos: int, fi: int, f: int)
    requires HeapOk(m, P, cs, blk) && Neat(q, m, P, cs, blk, ci0, pos0, fi, f) && (forall a :: a in P ==> 0 < a)
    requires if ci == ci0 && pos1 == pos0 then true else ci0 <= fi && ci == fi && pos0 <= pos1 == f
    requires 0 <= ci < |cs| && cs[ci].start <= pos1 <= pos <= cs[ci].end && (pos1 < pos ==> pos1 in blk)
    requires forall s :: s in blk && pos1 <= s < pos ==> m[s].flags.Unmovable()
    ensures Neat(q, m, P, cs, blk, ci, pos, fi, f)
  {
    if pos0 < q {
      var Fr := FreeCells(m, P, blk);
      HeapOrdered(m, P, cs);
      assert Tidy(Fr, cs, ci, pos1, fi, f) by {
        if !(ci == ci0 && pos1 == pos0) { TidyJump(Fr, cs, ci0, pos0, fi, f); }
      }
      SkippedCells(m, P, cs, blk, ci, pos1, pos, q);
      NeatSkip(q, m, P, cs, blk, ci, pos1, pos, fi, f);
    }
  }

  /** The source moves on over free cells, and perhaps past q. */
  lemma NeatSkip(q: int, m: Memory, P: set<int>, cs: seq<Extent>, blk: Blocks, ci: int, pos1: int, pos: int, fi: int, f: int)
    requires SizesMatch(m, blk) && NothingPinned(m, blk, q) && Ordered(cs) && Tidy(FreeCells(m, P, blk), cs, ci, pos1, fi, f)
    requires pos1 <= pos <= cs[ci].end && forall a :: pos1 <= a < pos && a < q ==> a in FreeCells(m, P, blk)
    ensures Neat(q, m, P, cs, blk, ci, pos, fi, f)
  {
    var Fr := FreeCells(m, P, blk);
    var p := if pos < q then pos else if pos1 < q then q else pos1;
    TidySkip(Fr, cs, ci, pos1, p, fi, f);
    if q <= pos { TidyBelow(Fr, cs, ci, p, fi, f, q); }
  }

  /** Nothing of the run at src fits into the free block at f. */
  lemma NeatGiveUp(q: int, m: Memory, P: set<int>, cs: seq<Extent>, blk: Blocks, ci: int, src: int, fi: int, f: int,
          region: int)
    requires HeapOk(m, P, cs, blk) && Neat(q, m, P, cs, blk, ci, src, fi, f)
    requires 0 <= fi <= ci < |cs| && f in FreeOf(m, blk, cs[fi].start, cs[fi].end)
    requires f + blk[f] < src < cs[ci].end
    requires region == cs[fi].end || (region in FreeOf(m, blk, cs[fi].start, cs[fi].end) && f < region)
    ensures NeatAfter(q, m, P, cs, blk, ci, src, fi, region)
  {
    if src < q {
      FreeBlockCells(m, P, cs, blk, fi, f);
      var Fr, size: nat := FreeCells(m, P, blk), blk[f];
      if fi < ci {
        TidyLast(Fr, cs, ci, src, fi, f, size);
      }
    }
  }

  /** A run was moved. */
  lemma NeatMove(q: int, m: Memory, blk: Blocks, m': Memory, blk': Blocks, P: set<int>, cs: seq<Extent>, ci: int,
          src: int, mv: nat, pos: int, fi: int, f: int, region: int)
    requires HeapOk(m, P, cs, blk) && HeapOk(m', P, cs, blk') && Neat(q, m, P, cs, blk, ci, src, fi, f) && (forall a :: a in P ==> 0 < a)
    requires 0 <= fi <= ci < |cs| && f in FreeOf(m, blk, cs[fi].start, cs[fi].end) && f + blk[f] <= src
    requires Run(m, P, blk, src, mv) && cs[ci].start <= src && src + mv <= pos <= cs[ci].end && (src + mv < pos ==> src + mv in blk)
    requires forall s :: s in blk && src + mv <= s < pos ==> m[s].flags.Unmovable()
    requires mv <= blk[f] || f + blk[f] == src
    requires MovedRun(m, blk, m', blk', f, src, mv) && Shifted(FreeCells(m, P, blk), FreeCells(m', P, blk'), f, src, mv)
    requires region == cs[fi].end || region in FreeOf(m', blk', cs[fi].start, cs[fi].end)
    requires f + blk[f] == src || mv < blk[f] ==> region <= f + mv
    ensures NeatAfter(q, m', P, cs, blk', ci, pos, fi, region)
  {
    StillNothingPinned(m, blk, m', blk', P, f, src, mv, q);
    HeapOrdered(m, P, cs);
    FreeBlockCells(m, P, cs, blk, fi, f);
    if src < q {
      SkippedCells(m, P, cs, blk, ci, src + mv, pos, q);
      var p := if pos < q then pos else if src + mv < q then q else src + mv;
      TidyMove(m, blk, m', blk', P, cs, ci, src, mv, p, fi, f, region);
      if q <= pos { MoveBelow(FreeCells(m', P, blk'), cs, ci, p, fi, region, q); }
    } else {
      NothingBefore(m, P, cs, blk, fi, f);
      BelowKept(FreeCells(m, P, blk), FreeCells(m', P, blk'), cs, fi, f, src, mv, q);
    }
  }

  lemma MoveBelow(Fr: set<int>, cs: seq<Extent>, ci: int, pos: int, fi: int, region: int, q: int)
    requires Ordered(cs) && 0 <= ci < |cs| && 0 <= fi < |cs| && q <= pos <= cs[ci].end
    requires if region == cs[fi].end then Left(Fr, cs, ci, pos, fi) else Tidy(Fr, cs, ci, pos, fi, region)
    ensures AllPackedBelow(Fr, cs, q)
  {
    if region == cs[fi].end { LeftBelow(Fr, cs, ci, pos, fi, q); } else { TidyBelow(Fr, cs, ci, pos, fi, region, q); }
  }

  /** The cell in front of a free block is not free. */
  lemma NothingBefore(m: Memory, P: set<int>, cs: seq<Extent>, blk: Blocks, fi: int, f: int)
    requires HeapOk(m, P, cs, blk) && 0 <= fi < |cs| && f in FreeOf(m, blk, cs[fi].start, cs[fi].end)
    ensures f in FreeCells(m, P, blk) && (cs[fi].start < f ==> f - 1 !in FreeCells(m, P, blk))
  {
    FreeBlockCells(m, P, cs, blk, fi, f);
    if cs[fi].start < f && f - 1 in FreeCells(m, P, blk) {
      var s := CellOfFree(m, P, cs, blk, fi, f - 1);
      FreeBlockCells(m, P, cs, blk, fi, s);
    }
  }

  /** A move while the heap is tidy. */
  lemma TidyMove(m: Memory, blk: Blocks, m': Memory, blk': Blocks, P: set<int>, cs: seq<Extent>, ci: int, src: int,
          mv: nat, pos: int, fi: int, f: int, region: int)
    requires HeapOk(m, P, cs, blk) && HeapOk(m', P, cs, blk') && Tidy(FreeCells(m, P, blk), cs, ci, src, fi, f)
    requires 0 <= fi <= ci < |cs| && f in FreeOf(m, blk, cs[fi].start, cs[fi].end) && f + blk[f] <= src
    requires Run(m, P, blk, src, mv) && cs[ci].start <= src && src + mv <= pos <= cs[ci].end
    requires forall a :: src + mv <= a < pos ==> a in FreeCells(m, P, blk)
    requires mv <= blk[f] || f + blk[f] == src
    requires Shifted(FreeCells(m, P, blk), FreeCells(m', P, blk'), f, src, mv)
    requires region == cs[fi].end || region in FreeOf(m', blk', cs[fi].start, cs[fi].end)
    requires f + blk[f] == src || mv < blk[f] ==> region <= f + mv
    ensures if region == cs[fi].end then Left(FreeCells(m', P, blk'), cs, ci, pos, fi) else Tidy(FreeCells(m', P, blk'), cs, ci, pos, fi, region)
  {
    var Fr, Fr' := FreeCells(m, P, blk), FreeCells(m', P, blk');
    HeapOrdered(m, P, cs);
    FreeBlockCells(m, P, cs, blk, fi, f);
    RunCells(m, P, blk, src, mv);
    assert region != cs[fi].end ==> region in Fr' by {
      if region != cs[fi].end { FreeBlockCells(m', P, cs, blk', fi, region); }
    }
    if fi == ci {
      TidyAdjacent(Fr, cs, ci, src, f, blk[f]);
      TidySlide(Fr, Fr', cs, ci, src, mv, pos, f, blk[f], region);
    } else {
      TidyLast(Fr, cs, ci, src, fi, f, blk[f]);
      TidyFill(Fr, Fr', cs, ci, src, mv, pos, fi, f, blk[f], region);
    }
  }

  lemma NeatNext(q: int, m: Memory, P: set<int>, cs: seq<Extent>, blk: Blocks, ci: int, pos: int, fi0: int, fi: int, f: int)
    requires SizesMatch(m, blk) && 0 <= fi0 < |cs| && NeatAfter(q, m, P, cs, blk, ci, pos, fi0, cs[fi0].end)
    requires if f == NULL then forall k :: fi0 < k < |cs| ==> Full(FreeCells(m, P, blk), cs[k]) else FirstFree(FreeCells(m, P, blk), cs, fi0 + 1, fi, f)
    ensures NeatNow(q, m, P, cs, blk, ci, pos, fi, f)
  {
    if pos < q {
      if f == NULL {
        LeftNone(FreeCells(m, P, blk), cs, ci, pos, fi0, q);
      } else {
        TidyNext(FreeCells(m, P, blk), cs, ci, pos, fi0, fi, f);
      }
    }
  }

  lemma NeatStart(q: int, m: Memory, P: set<int>, cs: seq<Extent>, blk: Blocks, ci: int, fi: int, f: int)
    requires HeapOk(m, P, cs, blk) && 0 <= ci < |cs| && NeatUpTo(q, m, P, cs, blk, ci) && FirstFree(FreeCells(m, P, blk), cs, 0, fi, f)
    ensures Neat(q, m, P, cs, blk, ci, cs[ci].start, fi, f)
  {
    HeapOrdered(m, P, cs);
    if cs[ci].start < q {
      forall k | 0 <= k < ci ensures Packed(FreeCells(m, P, blk), cs[k]) {
        assert PackedBelow(FreeCells(m, P, blk), cs[k], q);
      }
      TidyStart(FreeCells(m, P, blk), cs, ci, fi, f);
    } else {
      forall k | 0 <= k < |cs| ensures PackedBelow(FreeCells(m, P, blk), cs[k], q) { }
    }
  }

  lemma NeatCluster(q: int, m: Memory, P: set<int>, cs: seq<Extent>, blk: Blocks, ci: int, fi: int, f: int)
    requires HeapOk(m, P, cs, blk) && 0 <= ci < |cs| && Neat(q, m, P, cs, blk, ci, cs[ci].end, fi, f)
    ensures NeatUpTo(q, m, P, cs, blk, ci + 1)
    ensures ci + 1 < |cs| ==> Neat(q, m, P, cs, blk, ci + 1, cs[ci + 1].start, fi, f)
  {
    HeapOrdered(m, P, cs);
    if cs[ci].end < q {
      var Fr := FreeCells(m, P, blk);
      assert Packed(Fr, cs[ci]) && (ci + 1 < |cs| ==> Tidy(Fr, cs, ci + 1, cs[ci + 1].start, fi, f)) by { TidyPacked(Fr, cs, ci, fi, f); }
      forall k | 0 <= k < ci + 1 ensures PackedBelow(Fr, cs[k], q) { assert Packed(Fr, cs[k]); }
      if ci + 1 < |cs| && q <= cs[ci + 1].start { TidyBelow(Fr, cs, ci + 1, cs[ci + 1].start, fi, f, q); }
    }
  }

  lemma NothingFree(m: Memory, P: set<int>, cs: seq<Extent>, blk: Blocks, q: int)
    requires SizesMatch(m, blk) && forall k :: 0 <= k < |cs| ==> Full(FreeCells(m, P, blk), cs[k])
    ensures AllPackedBelow(FreeCells(m, P, blk), cs, q)
  {
    forall k | 0 <= k < |cs| ensures PackedBelow(FreeCells(m, P, blk), cs[k], q) {
      assert Full(FreeCells(m, P, blk), cs[k]);
    }
  }

  /** Rewriting references keeps the heap as it is. */
  lemma NeatRewritten(q: int, m: Memory, m': Memory, P: set<int>, cs: seq<Extent>, blk: Blocks, ci: int, pos: int,
          fi: int, f: int)
    requires SizesMatch(m, blk) && SizesMatch(m', blk) && SameHeaders(m, m', blk)
    ensures Neat(q, m, P, cs, blk, ci, pos, fi, f) ==> Neat(q, m', P, cs, blk, ci, pos, fi, f)
    ensures FreeCells(m', P, blk) == FreeCells(m, P, blk) && NothingPinned(m, blk, q) == NothingPinned(m', blk, q)
  {
    assert FreeCells(m', P, blk) == FreeCells(m, P, blk);
  }

  /** The first block in use that may not move, or the end of memory. */
  lemma {:induction false} FirstPinned(m: Memory, blk: Blocks, n: int) returns (q: int)
    requires SizesMatch(m, blk) && 0 <= n
    ensures q <= n && NothingPinned(m, blk, q) && (q == n || (Used(m, blk, q) && m[q].flags.Unmovable()))
    decreases n
  {
    if b :| Used(m, blk, b) && b < n && m[b].flags.Unmovable() {
      q := FirstPinned(m, blk, b);
    } else {
      q := n;
    }
  }

  /** A heap that is packed below its first pinned block is packed below every address that no pinned block
      comes before. */
  lemma PackedFurther(m: Memory, P: set<int>, cs: seq<Extent>, g: Memory, blk0: Blocks, Fr: set<int>, q0: int, q: int)
    requires SizesMatch(g, blk0) && Layout(m, P, cs) && |g| == |m| && AllPackedBelow(Fr, cs, q0)
    requires q0 == |g| || (Used(g, blk0, q0) && g[q0].flags.Unmovable())
    requires NothingPinned(g, blk0, q)
    ensures AllPackedBelow(Fr, cs, q)
  {
    forall k | 0 <= k < |cs| ensures PackedBelow(Fr, cs[k], q) {
      assert PackedBelow(Fr, cs[k], q0) && ClusterIn(m, P, cs[k].start, cs[k].end);
    }
  }

  ghost predicate SameHeaders(m: Memory, m': Memory, blk: Blocks) {
    && |m'| == |m|
    && (forall s :: s in blk && 0 <= s < |m| ==>
          m'[s].dataType == m[s].dataType && m'[s].flags == m[s].flags && m'[s].size == m[s].size)
  }

  /** A cluster is packed exactly if it has no free block but one at its end. */
  lemma PackedIff(m: Memory, P: set<int>, cs: seq<Extent>, blk: Blocks, k: int)
    requires HeapOk(m, P, cs, blk) && 0 <= k < |cs|
    ensures Packed(FreeCells(m, P, blk), cs[k]) <==>
      forall f :: f in FreeOf(m, blk, cs[k].start, cs[k].end) ==> f + blk[f] == cs[k].end
  {
    var Fr, F := FreeCells(m, P, blk), FreeOf(m, blk, cs[k].start, cs[k].end);
    if f :| f in F && f + blk[f] != cs[k].end {
      FreeBlockCells(m, P, cs, blk, k, f);
      assert f + blk[f] - 1 in Fr && f + blk[f] !in Fr;
    } else {
      forall a, b | cs[k].start <= a < b < cs[k].end && a in Fr ensures b in Fr {
        var f := CellOfFree(m, P, cs, blk, k, a);
        FreeBlockCells(m, P, cs, blk, k, f);
      }
    }
  }
}
