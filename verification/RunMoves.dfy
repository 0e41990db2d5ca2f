/** Moving a run of blocks down into a free block, seen on the contents of memory. */
module RunMoves {
  import opened HeapCells
  import opened FreeBlocks
  import opened Partitions
  import opened Sweeping
  import opened Extraction

  /** The free sets of all clusters. */
  ghost predicate FreeLists(m: Memory, cs: seq<Extent>, fs: seq<set<int>>) {
    && |fs| == |cs|
    && (forall k :: 0 <= k < |cs| ==> FreeListOk(m, cs[k].start - 1, cs[k].end, fs[k]))
  }

  /** Block f covers address a. */
  ghost predicate Covering(m: Memory, f: int, a: int) {
    0 <= f < |m| && f <= a < f + m[f].size
  }

  ghost predicate FreeAny(m: Memory, fs: seq<set<int>>, a: int) {
    exists k, f :: 0 <= k < |fs| && f in fs[k] && Covering(m, f, a)
  }

  ghost function FreeSets(m: Memory, cs: seq<Extent>, blk: Blocks): seq<set<int>>
    requires SizesMatch(m, blk)
  {
    seq(|cs|, k requires 0 <= k < |cs| => FreeOf(m, blk, cs[k].start, cs[k].end))
  }

  lemma FreeAnyIsFreeCell(m: Memory, P: set<int>, cs: seq<Extent>, blk: Blocks, a: int)
    requires SizesMatch(m, blk) && Partition(P, blk)
    requires forall x {:trigger InSome(cs, x)} :: x in P ==> InSome(cs, x)
    ensures FreeAny(m, FreeSets(m, cs, blk), a) <==> FreeCell(m, blk, a)
  {
    var fs := FreeSets(m, cs, blk);
    if FreeCell(m, blk, a) {
      var s :| Inside(blk, s, a) && m[s].dataType == FreeBlock;
      assert Inside(blk, s, s);
      assert InSome(cs, s);
      var k :| 0 <= k < |cs| && cs[k].start <= s < cs[k].end;
      assert s in fs[k] && Covering(m, s, a);
    }
    if FreeAny(m, fs, a) {
      var k, f :| 0 <= k < |fs| && f in fs[k] && Covering(m, f, a);
      assert Inside(blk, f, a);
    }
  }

  /** The cells [lo, hi) became free, or stopped being free, and no other payload cell that is in use
      changed. */
  ghost predicate RefreedCells(m: Memory, m': Memory, P: set<int>, fs: seq<set<int>>, fs': seq<set<int>>, lo: int,
          hi: int, free: bool)
  {
    && |m'| == |m|
    && (forall a :: FreeAny(m', fs', a) <==> if lo <= a < hi then free else FreeAny(m, fs, a))
    && (forall a {:trigger m'[a]} :: a in P && 0 <= a < |m| && !FreeAny(m, fs, a) && !(lo <= a < hi) ==> m'[a] == m[a])
  }

  ghost predicate Refreed(m: Memory, m': Memory, P: set<int>, cs: seq<Extent>, fs: seq<set<int>>, fs': seq<set<int>>,
          lo: int, hi: int, free: bool)
  {
    FreeLists(m', cs, fs') && RefreedCells(m, m', P, fs, fs', lo, hi, free)
  }

  /** The list of cluster k changed from F to F', by adding or removing the cells [lo, hi). */
  ghost predicate ListChanged(m: Memory, m': Memory, head: int, tail: int, F: set<int>, F': set<int>, lo: int,
          hi: int, free: bool)
  {
    && |m'| == |m| && FreeListOk(m, head, tail, F) && FreeListOk(m', head, tail, F')
    && head < lo < hi <= tail
    && (forall a :: InFree(m', F', a) <==> if lo <= a < hi then free else InFree(m, F, a))
    && (forall a {:trigger m'[a]} :: 0 <= a < |m| && a !in F && a != lo && a != head && a != tail ==> m'[a] == m[a])
    && (free || lo in F)
  }

  /** The lists of the other clusters do not notice. */
  lemma OtherList(m: Memory, m': Memory, head: int, tail: int, F: set<int>, F': set<int>, lo: int, hi: int,
          free: bool, head': int, tail': int, G: set<int>)
    requires ListChanged(m, m', head, tail, F, F', lo, hi, free)
    requires FreeListOk(m, head', tail', G) && (tail < head' || tail' < head)
    ensures FreeListOk(m', head', tail', G)
    ensures Apart(m, m', G, lo, hi)
  {
    FreeBlocksFrame(m, m', head', tail', G);
    LinkedFrame(m, m', head', tail', G);
  }

  ghost predicate Apart(m: Memory, m': Memory, G: set<int>, lo: int, hi: int) {
    |m'| == |m| && forall f :: f in G ==> 0 <= f < |m| && m'[f] == m[f] && (f + m[f].size <= lo || hi <= f)
  }

  lemma OneListChanged(m: Memory, m': Memory, P: set<int>, cs: seq<Extent>, fs: seq<set<int>>, k: int, F': set<int>,
          lo: int, hi: int, free: bool)
    requires FreeLists(m, cs, fs) && 0 <= k < |cs|
    requires forall i, j :: 0 <= i < j < |cs| ==> cs[i].end + 1 < cs[j].start
    requires cs[k].start - 1 !in P && cs[k].end !in P
    requires ListChanged(m, m', cs[k].start - 1, cs[k].end, fs[k], F', lo, hi, free)
    ensures Refreed(m, m', P, cs, fs, fs[k := F'], lo, hi, free)
  {
    var fs' := fs[k := F'];
    forall j | 0 <= j < |cs| && j != k
      ensures FreeListOk(m', cs[j].start - 1, cs[j].end, fs[j]) && Apart(m, m', fs[j], lo, hi)
    {
      OtherList(m, m', cs[k].start - 1, cs[k].end, fs[k], F', lo, hi, free, cs[j].start - 1, cs[j].end, fs[j]);
    }
    assert RefreedCells(m, m', P, fs, fs', lo, hi, free) by {
      forall a ensures FreeAny(m', fs', a) <==> if lo <= a < hi then free else FreeAny(m, fs, a) {
        OneCoverChanged(m, m', fs, k, F', lo, hi, free, a);
      }
      forall a | a in P && 0 <= a < |m| && !FreeAny(m, fs, a) && !(lo <= a < hi) ensures m'[a] == m[a] {
        if a in fs[k] { assert Covering(m, a, a); }
      }
    }
  }

  lemma OneCoverChanged(m: Memory, m': Memory, fs: seq<set<int>>, k: int, F': set<int>, lo: int, hi: int, free: bool, a: int)
    requires 0 <= k < |fs| && |m'| == |m|
    requires (forall f :: f in fs[k] ==> 0 <= f < |m|) && (forall f :: f in F' ==> 0 <= f < |m|)
    requires forall x :: InFree(m', F', x) <==> if lo <= x < hi then free else InFree(m, fs[k], x)
    requires forall j :: 0 <= j < |fs| && j != k ==> Apart(m, m', fs[j], lo, hi)
    ensures FreeAny(m', fs[k := F'], a) <==> if lo <= a < hi then free else FreeAny(m, fs, a)
  {
    var fs' := fs[k := F'];
    if FreeAny(m', fs', a) {
      var j, f :| 0 <= j < |fs'| && f in fs'[j] && Covering(m', f, a);
      if j == k {
        assert InFree(m', F', a);
        InFreeAny(m, fs, k, a);
      } else {
        assert Apart(m, m', fs[j], lo, hi) && Covering(m, f, a);
      }
    }
    InFreeAny(m', fs', k, a);
    if FreeAny(m, fs, a) {
      var j, f :| 0 <= j < |fs| && f in fs[j] && Covering(m, f, a);
      if j == k {
        assert InFree(m, fs[k], a);
      } else {
        assert Apart(m, m', fs[j], lo, hi) && f in fs'[j] && Covering(m', f, a);
      }
    }
  }

  lemma InFreeAny(m: Memory, fs: seq<set<int>>, k: int, a: int)
    requires 0 <= k < |fs| && forall f :: f in fs[k] ==> 0 <= f < |m|
    ensures InFree(m, fs[k], a) ==> FreeAny(m, fs, a)
  {
    if InFree(m, fs[k], a) {
      var f :| f in fs[k] && f <= a < f + m[f].size;
      assert Covering(m, f, a);
    }
  }

  // ---------- The blocks of the heap after a move ----------

  ghost predicate Used(m: Memory, blk: Blocks, s: int)
    requires SizesMatch(m, blk)
  {
    s in blk && m[s].dataType != FreeBlock
  }

  /** The cells [src, src + mv) are a run of whole blocks in use, none of them unmovable. */
  ghost predicate Run(m: Memory, P: set<int>, blk: Blocks, src: int, mv: int)
    requires SizesMatch(m, blk)
  {
    && 1 <= mv
    && (forall a :: src <= a < src + mv ==> a in P)
    && (forall s, a {:trigger Inside(blk, s, a)} :: Inside(blk, s, a) && src <= a < src + mv ==>
          src <= s && s + blk[s] <= src + mv && m[s].dataType != FreeBlock && !m[s].flags.Unmovable())
  }

  /** The run may move down to the free block at f: into it, or, being adjacent, over it. */
  ghost predicate Movable(m: Memory, P: set<int>, blk: Blocks, f: int, src: int, mv: int) {
    && SizesMatch(m, blk) && Partition(P, blk) && Run(m, P, blk, src, mv)
    && (forall a :: a in P ==> 1 < a < |m|)
    && f in blk && m[f].dataType == FreeBlock && EndOf(blk, f) <= src
    && (mv <= blk[f] || EndOf(blk, f) == src)
  }

  /** The memory after the move. */
  ghost predicate MovedCells(m: Memory, m': Memory, P: set<int>, blk: Blocks, fs': seq<set<int>>, f: int, src: int, mv: int)
    requires SizesMatch(m, blk)
  {
    && |m'| == |m|
    && (forall a :: FreeAny(m', fs', a) <==> (FreeCell(m, blk, a) || src <= a < src + mv) && !(f <= a < f + mv))
    && (forall a {:trigger m'[a]} :: f <= a < f + mv && 0 <= a < |m| && 0 <= a + (src - f) < |m| ==> m'[a] == m[a + (src - f)])
    && (forall a {:trigger m'[a]} :: a in P && 0 <= a < |m| && !FreeCell(m, blk, a) && !(src <= a < src + mv) ==> m'[a] == m[a])
  }

  ghost function NewStarts(m: Memory, blk: Blocks, fs': seq<set<int>>, f: int, src: int, mv: int): set<int>
    requires SizesMatch(m, blk)
  {
    (set s | s in blk && m[s].dataType != FreeBlock && !(src <= s < src + mv))
    + (set s | s in blk && src <= s < src + mv :: s - (src - f))
    + (set k, s | 0 <= k < |fs'| && s in fs'[k] :: s)
  }

  ghost function NewBlocks(m: Memory, m': Memory, blk: Blocks, fs': seq<set<int>>, f: int, src: int, mv: int): Blocks
    requires SizesMatch(m, blk)
  {
    map s | s in NewStarts(m, blk, fs', f, src, mv) && 0 <= s < |m'| :: m'[s].size
  }

  ghost predicate KeptStart(m: Memory, blk: Blocks, src: int, mv: int, s: int)
    requires SizesMatch(m, blk)
  {
    Used(m, blk, s) && !(src <= s < src + mv)
  }

  ghost predicate MovedStart(blk: Blocks, f: int, src: int, mv: int, s: int) {
    s + (src - f) in blk && f <= s < f + mv
  }

  ghost predicate FreeStart(fs': seq<set<int>>, s: int) {
    exists k :: 0 <= k < |fs'| && s in fs'[k]
  }

  ghost predicate Move(m: Memory, m': Memory, P: set<int>, blk: Blocks, fs': seq<set<int>>, f: int, src: int, mv: int) {
    Movable(m, P, blk, f, src, mv) && MovedCells(m, m', P, blk, fs', f, src, mv)
  }

  /** The target cells lie in the free block or in the run. */
  lemma TargetCell(m: Memory, P: set<int>, blk: Blocks, f: int, src: int, mv: int, a: int)
    requires Movable(m, P, blk, f, src, mv) && f <= a < f + mv
    ensures a in P && (Inside(blk, f, a) || src <= a < src + mv)
    ensures FreeCell(m, blk, a) || src <= a < src + mv
  {
    assert a < EndOf(blk, f) ==> Inside(blk, f, a);
  }

  lemma KeptCell(m: Memory, m': Memory, P: set<int>, blk: Blocks, fs': seq<set<int>>, f: int, src: int, mv: int,
          s: int, a: int)
    requires Move(m, m', P, blk, fs', f, src, mv)
    requires KeptStart(m, blk, src, mv, s) && Inside(blk, s, a)
    ensures a in P && 0 <= a < |m| && m'[a] == m[a] && !FreeAny(m', fs', a) && !(f <= a < f + mv)
  {
    forall t ensures Inside(blk, t, a) ==> t == s { }
    assert !FreeCell(m, blk, a);
    assert !(src <= a < src + mv);
    if f <= a < f + mv { TargetCell(m, P, blk, f, src, mv, a); }
  }

  lemma RunBlock(m: Memory, P: set<int>, blk: Blocks, src: int, mv: int, t: int, x: int)
    requires SizesMatch(m, blk) && Run(m, P, blk, src, mv)
    requires src <= t < src + mv && Inside(blk, t, x)
    ensures src <= x < src + mv && Used(m, blk, t) && !m[t].flags.Unmovable()
  {
    assert Inside(blk, t, t);
  }

  /** Cell x of block t of the run is at x - (src - f) after the move. */
  lemma MovedCell(m: Memory, m': Memory, P: set<int>, blk: Blocks, fs': seq<set<int>>, f: int, src: int, mv: int,
          t: int, x: int)
    requires Move(m, m', P, blk, fs', f, src, mv)
    requires src <= t < src + mv && Inside(blk, t, x)
    ensures Used(m, blk, t)
    ensures var a := x - (src - f);
      a in P && f <= a < f + mv && 0 <= a < |m| && 0 <= x < |m| && m'[a] == m[x] && !FreeAny(m', fs', a)
  {
    var a := x - (src - f);
    RunBlock(m, P, blk, src, mv, t, x);
    TargetCell(m, P, blk, f, src, mv, a);
    assert a + (src - f) == x;
  }

  // The size of a new block.

  lemma KeptSize(m: Memory, m': Memory, P: set<int>, blk: Blocks, fs': seq<set<int>>, f: int, src: int, mv: int, s: int)
    requires Move(m, m', P, blk, fs', f, src, mv) && KeptStart(m, blk, src, mv, s)
    ensures 0 < s < |m'| && 1 <= m'[s].size == blk[s] && m'[s] == m[s]
  {
    assert Inside(blk, s, s);
    KeptCell(m, m', P, blk, fs', f, src, mv, s, s);
  }

  lemma MovedSize(m: Memory, m': Memory, P: set<int>, blk: Blocks, fs': seq<set<int>>, f: int, src: int, mv: int, s: int)
    requires Move(m, m', P, blk, fs', f, src, mv) && MovedStart(blk, f, src, mv, s)
    ensures var t := s + (src - f);
      Used(m, blk, t) && 0 < s < |m'| && m'[s] == m[t] && 1 <= m'[s].size == blk[t]
  {
    var t := s + (src - f);
    assert Inside(blk, t, t);
    MovedCell(m, m', P, blk, fs', f, src, mv, t, t);
  }

  lemma FreeSize(m': Memory, cs: seq<Extent>, fs': seq<set<int>>, s: int)
    requires FreeLists(m', cs, fs') && FreeStart(fs', s)
    ensures 0 < s < |m'| && 1 <= m'[s].size && IsFree(m'[s])
  {
    var k :| 0 <= k < |fs'| && s in fs'[k];
    assert FreeListOk(m', cs[k].start - 1, cs[k].end, fs'[k]);
  }

  lemma StartCases(m: Memory, m': Memory, P: set<int>, cs: seq<Extent>, blk: Blocks, fs': seq<set<int>>, f: int,
          src: int, mv: int, s: int)
    requires Move(m, m', P, blk, fs', f, src, mv) && FreeLists(m', cs, fs')
    ensures s in NewStarts(m, blk, fs', f, src, mv) <==>
      KeptStart(m, blk, src, mv, s) || MovedStart(blk, f, src, mv, s) || FreeStart(fs', s)
    ensures s in NewStarts(m, blk, fs', f, src, mv) ==> 0 < s < |m'| && 1 <= m'[s].size
  {
    assert MovedStart(blk, f, src, mv, s) ==> (s + (src - f)) - (src - f) == s;
    if KeptStart(m, blk, src, mv, s) { KeptSize(m, m', P, blk, fs', f, src, mv, s); }
    if MovedStart(blk, f, src, mv, s) { MovedSize(m, m', P, blk, fs', f, src, mv, s); }
    if FreeStart(fs', s) { FreeSize(m', cs, fs', s); }
  }

  // The new blocks tile the payload.

  /** How the cells of a new block are owned, by the kind of the block. */
  lemma OwnedCell(m: Memory, m': Memory, P: set<int>, cs: seq<Extent>, blk: Blocks, fs': seq<set<int>>, f: int,
          src: int, mv: int, s: int, a: int)
    requires Move(m, m', P, blk, fs', f, src, mv) && FreeLists(m', cs, fs')
    requires s in NewStarts(m, blk, fs', f, src, mv) && Covering(m', s, a)
    ensures FreeStart(fs', s) ==> FreeAny(m', fs', a)
    ensures KeptStart(m, blk, src, mv, s) ==> Inside(blk, s, a) && !FreeAny(m', fs', a) && !(f <= a < f + mv) && a in P
    ensures MovedStart(blk, f, src, mv, s) ==>
      Inside(blk, s + (src - f), a + (src - f)) && !FreeAny(m', fs', a) && f <= a < f + mv && a in P
  {
    StartCases(m, m', P, cs, blk, fs', f, src, mv, s);
    if KeptStart(m, blk, src, mv, s) {
      KeptSize(m, m', P, blk, fs', f, src, mv, s);
      KeptCell(m, m', P, blk, fs', f, src, mv, s, a);
    }
    if MovedStart(blk, f, src, mv, s) { OwnedMoved(m, m', P, cs, blk, fs', f, src, mv, s, a); }
  }

  lemma OwnedMoved(m: Memory, m': Memory, P: set<int>, cs: seq<Extent>, blk: Blocks, fs': seq<set<int>>, f: int,
          src: int, mv: int, s: int, a: int)
    requires Move(m, m', P, blk, fs', f, src, mv) && FreeLists(m', cs, fs')
    requires s in NewStarts(m, blk, fs', f, src, mv) && Covering(m', s, a) && MovedStart(blk, f, src, mv, s)
    ensures Inside(blk, s + (src - f), a + (src - f)) && !FreeAny(m', fs', a) && f <= a < f + mv && a in P
  {
    StartCases(m, m', P, cs, blk, fs', f, src, mv, s);
    var t, x := s + (src - f), a + (src - f);
    MovedSize(m, m', P, blk, fs', f, src, mv, s);
    assert Inside(blk, t, x);
    MovedCell(m, m', P, blk, fs', f, src, mv, t, x);
  }

  lemma OneOwner(m: Memory, m': Memory, P: set<int>, cs: seq<Extent>, blk: Blocks, fs': seq<set<int>>, f: int,
          src: int, mv: int, s: int, t: int, a: int)
    requires Move(m, m', P, blk, fs', f, src, mv) && FreeLists(m', cs, fs')
    requires forall i, j :: 0 <= i < j < |cs| ==> cs[i].end + 1 < cs[j].start
    requires s in NewStarts(m, blk, fs', f, src, mv) && t in NewStarts(m, blk, fs', f, src, mv)
    requires Covering(m', s, a) && Covering(m', t, a)
    ensures s == t
  {
    StartCases(m, m', P, cs, blk, fs', f, src, mv, s);
    StartCases(m, m', P, cs, blk, fs', f, src, mv, t);
    OwnedCell(m, m', P, cs, blk, fs', f, src, mv, s, a);
    OwnedCell(m, m', P, cs, blk, fs', f, src, mv, t, a);
    if FreeStart(fs', s) && FreeStart(fs', t) {
      OneFreeOwner(m', cs, fs', s, t, a);
    }
  }

  lemma OneFreeOwner(m: Memory, cs: seq<Extent>, fs: seq<set<int>>, s: int, t: int, a: int)
    requires FreeLists(m, cs, fs) && FreeStart(fs, s) && FreeStart(fs, t)
    requires forall i, j :: 0 <= i < j < |cs| ==> cs[i].end + 1 < cs[j].start
    requires Covering(m, s, a) && Covering(m, t, a)
    ensures s == t
  {
    var i :| 0 <= i < |fs| && s in fs[i];
    var j :| 0 <= j < |fs| && t in fs[j];
    assert FreeListOk(m, cs[i].start - 1, cs[i].end, fs[i]);
    assert FreeListOk(m, cs[j].start - 1, cs[j].end, fs[j]);
  }

  lemma HasOwner(m: Memory, m': Memory, P: set<int>, blk: Blocks, fs': seq<set<int>>, f: int, src: int, mv: int,
          a: int) returns (s: int)
    requires Move(m, m', P, blk, fs', f, src, mv) && a in P
    ensures s in NewStarts(m, blk, fs', f, src, mv) && Covering(m', s, a)
  {
    if FreeAny(m', fs', a) {
      var k;
      k, s :| 0 <= k < |fs'| && s in fs'[k] && Covering(m', s, a);
    } else if f <= a < f + mv {
      var x := a + (src - f);
      var t := Covered(P, blk, x);
      assert src <= t;
      RunBlock(m, P, blk, src, mv, t, x);
      MovedCell(m, m', P, blk, fs', f, src, mv, t, t);
      s := t - (src - f);
    } else {
      s := Covered(P, blk, a);
      if src <= s < src + mv { RunBlock(m, P, blk, src, mv, s, a); }
      assert m[s].dataType != FreeBlock;
      KeptSize(m, m', P, blk, fs', f, src, mv, s);
    }
  }

  lemma NewBlocksTile(m: Memory, m': Memory, P: set<int>, cs: seq<Extent>, blk: Blocks, fs': seq<set<int>>, f: int,
          src: int, mv: int)
    requires Move(m, m', P, blk, fs', f, src, mv) && FreeLists(m', cs, fs')
    requires Layout(m, P, cs)
    ensures Partition(P, NewBlocks(m, m', blk, fs', f, src, mv))
  {
    var S := NewStarts(m, blk, fs', f, src, mv);
    var blk' := NewBlocks(m, m', blk, fs', f, src, mv);
    forall s ensures s in blk' <==> s in S && 0 <= s < |m'| { }
    forall s, a ensures Inside(blk', s, a) <==> s in S && Covering(m', s, a) { }
    forall s | s in blk' ensures 1 <= blk'[s] {
      StartCases(m, m', P, cs, blk, fs', f, src, mv, s);
    }
    forall s, a | Inside(blk', s, a) ensures a in P {
      StartCases(m, m', P, cs, blk, fs', f, src, mv, s);
      OwnedCell(m, m', P, cs, blk, fs', f, src, mv, s, a);
      if FreeStart(fs', s) { FreeInPayload(m', P, cs, fs', s, a); }
    }
    forall a | a in P ensures exists s :: Inside(blk', s, a) {
      var s := HasOwner(m, m', P, blk, fs', f, src, mv, a);
      assert Inside(blk', s, a);
    }
    forall s, t, a | Inside(blk', s, a) && Inside(blk', t, a) ensures s == t {
      OneOwner(m, m', P, cs, blk, fs', f, src, mv, s, t, a);
    }
    TilingIsPartition(P, blk');
  }

  lemma FreeInPayload(m: Memory, P: set<int>, cs: seq<Extent>, fs: seq<set<int>>, s: int, a: int)
    requires FreeLists(m, cs, fs) && FreeStart(fs, s) && Covering(m, s, a)
    requires forall k :: 0 <= k < |cs| ==> ClusterIn(m, P, cs[k].start, cs[k].end)
    ensures a in P
  {
    var k :| 0 <= k < |fs| && s in fs[k];
    assert FreeListOk(m, cs[k].start - 1, cs[k].end, fs[k]) && ClusterIn(m, P, cs[k].start, cs[k].end);
  }

  // ---------- The effect of a move ----------

  /** The blocks of the run are at their new places, all other blocks in use are where they were, and
      the contents of all of them are unchanged. */
  ghost predicate MovedRun(m: Memory, blk: Blocks, m': Memory, blk': Blocks, f: int, src: int, mv: int)
    requires SizesMatch(m, blk) && SizesMatch(m', blk')
  {
    && |m'| == |m|
    && (forall s :: Used(m', blk', s) <==> KeptStart(m, blk, src, mv, s) || MovedStart(blk, f, src, mv, s))
    && (forall s :: KeptStart(m, blk, src, mv, s) ==> s in blk' && blk'[s] == blk[s] && !MovedStart(blk, f, src, mv, s))
    && (forall s :: MovedStart(blk, f, src, mv, s) ==> s in blk' && blk'[s] == blk[s + (src - f)])
    && (forall s, a {:trigger Inside(blk, s, a)} :: KeptStart(m, blk, src, mv, s) && Inside(blk, s, a) ==>
          0 <= a < |m| && m'[a] == m[a])
    && (forall t, x {:trigger Inside(blk, t, x)} :: src <= t < src + mv && Inside(blk, t, x) ==>
          0 <= x - (src - f) < |m| && 0 <= x < |m| && m'[x - (src - f)] == m[x])
  }

  lemma FreeStartIn(m: Memory, cs: seq<Extent>, fs: seq<set<int>>, k: int, s: int)
    requires FreeLists(m, cs, fs) && 0 <= k < |cs|
    requires forall i, j :: 0 <= i < j < |cs| ==> cs[i].end + 1 < cs[j].start
    ensures s in fs[k] <==> FreeStart(fs, s) && cs[k].start <= s < cs[k].end
  {
    assert FreeListOk(m, cs[k].start - 1, cs[k].end, fs[k]);
    if FreeStart(fs, s) {
      var j :| 0 <= j < |fs| && s in fs[j];
      assert FreeListOk(m, cs[j].start - 1, cs[j].end, fs[j]);
    }
  }

  lemma FreeSetIsList(m: Memory, m': Memory, P: set<int>, cs: seq<Extent>, blk: Blocks, fs': seq<set<int>>, f: int,
          src: int, mv: int, k: int)
    requires Move(m, m', P, blk, fs', f, src, mv) && FreeLists(m', cs, fs')
    requires forall i, j :: 0 <= i < j < |cs| ==> cs[i].end + 1 < cs[j].start
    requires 0 <= k < |cs|
    ensures var blk' := NewBlocks(m, m', blk, fs', f, src, mv);
      SizesMatch(m', blk') && FreeOf(m', blk', cs[k].start, cs[k].end) == fs'[k]
  {
    var blk' := NewBlocks(m, m', blk, fs', f, src, mv);
    forall s | s in blk' ensures 0 < s {
      StartCases(m, m', P, cs, blk, fs', f, src, mv, s);
    }
    forall s ensures s in FreeOf(m', blk', cs[k].start, cs[k].end) <==> s in fs'[k] {
      StartCases(m, m', P, cs, blk, fs', f, src, mv, s);
      FreeStartIn(m', cs, fs', k, s);
      if s in fs'[k] {
        FreeSize(m', cs, fs', s);
      }
      if s in FreeOf(m', blk', cs[k].start, cs[k].end) {
        OnlyFreeStart(m, m', P, blk, fs', f, src, mv, s);
      }
    }
  }

  /** A new block of the free type is on a free list. */
  lemma OnlyFreeStart(m: Memory, m': Memory, P: set<int>, blk: Blocks, fs': seq<set<int>>, f: int, src: int, mv: int, s: int)
    requires Move(m, m', P, blk, fs', f, src, mv)
    requires KeptStart(m, blk, src, mv, s) || MovedStart(blk, f, src, mv, s) || FreeStart(fs', s)
    requires 0 <= s < |m'| && m'[s].dataType == FreeBlock
    ensures FreeStart(fs', s)
  {
    if KeptStart(m, blk, src, mv, s) { KeptSize(m, m', P, blk, fs', f, src, mv, s); }
    if MovedStart(blk, f, src, mv, s) { MovedSize(m, m', P, blk, fs', f, src, mv, s); }
  }

  lemma NewShape(m: Memory, m': Memory, P: set<int>, cs: seq<Extent>, blk: Blocks, fs': seq<set<int>>, f: int,
          src: int, mv: int)
    requires Layout(m, P, cs)
    requires Move(m, m', P, blk, fs', f, src, mv) && FreeLists(m', cs, fs')
    ensures HeapShape(m', P, NewBlocks(m, m', blk, fs', f, src, mv))
  {
    var blk' := NewBlocks(m, m', blk, fs', f, src, mv);
    NewBlocksTile(m, m', P, cs, blk, fs', f, src, mv);
    forall s | s in blk' ensures 0 < s && (m'[s].dataType == FreeBlock ==> IsFree(m'[s])) {
      StartCases(m, m', P, cs, blk, fs', f, src, mv, s);
      if m'[s].dataType == FreeBlock {
        OnlyFreeStart(m, m', P, blk, fs', f, src, mv, s);
        FreeSize(m', cs, fs', s);
      }
    }
  }

  lemma NewHeap(m: Memory, m': Memory, P: set<int>, cs: seq<Extent>, blk: Blocks, fs': seq<set<int>>, f: int,
          src: int, mv: int)
    requires Layout(m, P, cs)
    requires Move(m, m', P, blk, fs', f, src, mv) && FreeLists(m', cs, fs')
    ensures HeapOk(m', P, cs, NewBlocks(m, m', blk, fs', f, src, mv))
  {
    var blk' := NewBlocks(m, m', blk, fs', f, src, mv);
    NewShape(m, m', P, cs, blk, fs', f, src, mv);
    forall k | 0 <= k < |cs|
      ensures FreeListOk(m', cs[k].start - 1, cs[k].end, FreeOf(m', blk', cs[k].start, cs[k].end))
    {
      FreeSetIsList(m, m', P, cs, blk, fs', f, src, mv, k);
    }
    assert Layout(m', P, cs) by {
      forall k | 0 <= k < |cs| ensures ClusterIn(m', P, cs[k].start, cs[k].end) { }
    }
  }

  lemma NewRun(m: Memory, m': Memory, P: set<int>, cs: seq<Extent>, blk: Blocks, fs': seq<set<int>>, f: int, src: int,
          mv: int)
    requires Move(m, m', P, blk, fs', f, src, mv) && FreeLists(m', cs, fs')
    requires SizesMatch(m', NewBlocks(m, m', blk, fs', f, src, mv))
    ensures MovedRun(m, blk, m', NewBlocks(m, m', blk, fs', f, src, mv), f, src, mv)
  {
    var blk' := NewBlocks(m, m', blk, fs', f, src, mv);
    forall s ensures Used(m', blk', s) <==> KeptStart(m, blk, src, mv, s) || MovedStart(blk, f, src, mv, s) {
      StartCases(m, m', P, cs, blk, fs', f, src, mv, s);
      if KeptStart(m, blk, src, mv, s) { KeptSize(m, m', P, blk, fs', f, src, mv, s); }
      if MovedStart(blk, f, src, mv, s) { MovedSize(m, m', P, blk, fs', f, src, mv, s); }
      if FreeStart(fs', s) { FreeSize(m', cs, fs', s); }
    }
    forall s | KeptStart(m, blk, src, mv, s) ensures s in blk' && blk'[s] == blk[s] && !MovedStart(blk, f, src, mv, s) {
      StartCases(m, m', P, cs, blk, fs', f, src, mv, s);
      KeptSize(m, m', P, blk, fs', f, src, mv, s);
      KeptCell(m, m', P, blk, fs', f, src, mv, s, s);
    }
    forall s | MovedStart(blk, f, src, mv, s) ensures s in blk' && blk'[s] == blk[s + (src - f)] {
      StartCases(m, m', P, cs, blk, fs', f, src, mv, s);
      MovedSize(m, m', P, blk, fs', f, src, mv, s);
    }
    forall s, a | KeptStart(m, blk, src, mv, s) && Inside(blk, s, a) ensures 0 <= a < |m| && m'[a] == m[a] {
      KeptCell(m, m', P, blk, fs', f, src, mv, s, a);
    }
    forall t, x | src <= t < src + mv && Inside(blk, t, x)
      ensures 0 <= x - (src - f) < |m| && 0 <= x < |m| && m'[x - (src - f)] == m[x]
    {
      MovedCell(m, m', P, blk, fs', f, src, mv, t, x);
    }
  }

  // ---------- The steps of a move ----------

  /** Taking the free block at f off its list. */
  lemma BlockUnlinked(m: Memory, m': Memory, P: set<int>, cs: seq<Extent>, fs: seq<set<int>>, k: int, f: int)
    requires FreeLists(m, cs, fs) && 0 <= k < |cs| && f in fs[k]
    requires Layout(m, P, cs)
    requires Linked(m', cs[k].start - 1, cs[k].end, fs[k] - {f})
    requires SameButWords(m, m', fs[k] + {cs[k].start - 1, cs[k].end})
    ensures Refreed(m, m', P, cs, fs, fs[k := fs[k] - {f}], f, f + m[f].size, false)
  {
    var head, tail, F := cs[k].start - 1, cs[k].end, fs[k];
    assert FreeListOk(m, head, tail, F);
    FreeBlocksFrame(m, m', head, tail, F);
    WholeCarved(m, m', head, tail, F, f);
    assert ListChanged(m, m', head, tail, F, F - {f}, f, f + m[f].size, false);
    assert ClusterIn(m, P, head + 1, tail);
    OneListChanged(m, m', P, cs, fs, k, F - {f}, f, f + m[f].size, false);
  }

  /** Overwriting payload cells that are on no list. */
  lemma CopyKeepsLists(m: Memory, m': Memory, P: set<int>, cs: seq<Extent>, fs: seq<set<int>>, lo: int, hi: int)
    requires FreeLists(m, cs, fs) && Layout(m, P, cs) && |m'| == |m|
    requires forall a :: lo <= a < hi ==> a in P && !FreeAny(m, fs, a)
    requires forall a :: 0 <= a < |m| && !(lo <= a < hi) ==> m'[a] == m[a]
    ensures FreeLists(m', cs, fs)
    ensures forall a :: FreeAny(m', fs, a) <==> FreeAny(m, fs, a)
  {
    forall k | 0 <= k < |cs|
      ensures FreeListOk(m', cs[k].start - 1, cs[k].end, fs[k])
      ensures forall f :: f in fs[k] ==> 0 <= f < |m| && m'[f] == m[f]
    {
      assert FreeListOk(m, cs[k].start - 1, cs[k].end, fs[k]) && ClusterIn(m, P, cs[k].start, cs[k].end);
      forall f | f in fs[k] ensures m'[f] == m[f] { assert Covering(m, f, f); assert FreeAny(m, fs, f); }
      CopyKeepsList(m, m', cs[k].start - 1, cs[k].end, fs[k]);
    }
    SameCover(m, m', fs);
  }

  lemma CopyKeepsList(m: Memory, m': Memory, head: int, tail: int, F: set<int>)
    requires FreeListOk(m, head, tail, F) && |m'| == |m|
    requires m'[head] == m[head] && m'[tail] == m[tail] && forall f :: f in F ==> m'[f] == m[f]
    ensures FreeListOk(m', head, tail, F)
  {
    FreeBlocksFrame(m, m', head, tail, F);
    LinkedFrame(m, m', head, tail, F);
  }

  lemma SameCover(m: Memory, m': Memory, fs: seq<set<int>>)
    requires |m'| == |m| && forall k, f :: 0 <= k < |fs| && f in fs[k] ==> 0 <= f < |m| && m'[f] == m[f]
    ensures forall a :: FreeAny(m', fs, a) <==> FreeAny(m, fs, a)
  {
    forall a ensures FreeAny(m', fs, a) <==> FreeAny(m, fs, a) {
      if FreeAny(m, fs, a) {
        var k, f :| 0 <= k < |fs| && f in fs[k] && Covering(m, f, a);
        assert Covering(m', f, a);
      }
      if FreeAny(m', fs, a) {
        var k, f :| 0 <= k < |fs| && f in fs[k] && Covering(m', f, a);
        assert Covering(m, f, a);
      }
    }
  }

  /** Giving cells back to the list of their cluster. */
  lemma CellsReturned(m: Memory, m': Memory, P: set<int>, cs: seq<Extent>, fs: seq<set<int>>, k: int, F': set<int>,
          node: int, size: int)
    requires FreeLists(m, cs, fs) && 0 <= k < |cs| && Layout(m, P, cs)
    requires FreeListOk(m', cs[k].start - 1, cs[k].end, F') && |m'| == |m|
    requires cs[k].start <= node && 1 <= size && node + size <= cs[k].end
    requires forall a :: InFree(m', F', a) <==> InFree(m, fs[k], a) || node <= a < node + size
    requires forall a {:trigger m'[a]} :: 0 <= a < |m| && a !in fs[k] + {node} && a != cs[k].start - 1 && a != cs[k].end ==> m'[a] == m[a]
    ensures Refreed(m, m', P, cs, fs, fs[k := F'], node, node + size, true)
  {
    assert FreeListOk(m, cs[k].start - 1, cs[k].end, fs[k]);
    assert ClusterIn(m, P, cs[k].start, cs[k].end);
    OneListChanged(m, m', P, cs, fs, k, F', node, node + size, true);
  }

  /** The cells [src, src + mv) of m are at dst in m'. */
  ghost predicate Copied(m: Memory, m': Memory, dst: int, src: int, mv: int) {
    && |m'| == |m|
    && (forall a {:trigger m'[a]} :: 0 <= a < |m| ==>
          m'[a] == if dst <= a < dst + mv && 0 <= a + (src - dst) < |m| then m[a + (src - dst)] else m[a])
  }

  /** Unlink, copy, give back the rest of the free block and, unless the run was adjacent, its old cells. */
  ghost predicate MoveSteps(m0: Memory, m1: Memory, m2: Memory, m3: Memory, m4: Memory, P: set<int>, blk: Blocks,
      fs0: seq<set<int>>, fs1: seq<set<int>>, fs2: seq<set<int>>, fs3: seq<set<int>>, f: int, src: int, mv: int, slide: bool)
  {
    && Movable(m0, P, blk, f, src, mv) && slide == (EndOf(blk, f) == src)
    && (forall a :: FreeAny(m0, fs0, a) <==> FreeCell(m0, blk, a))
    && RefreedCells(m0, m1, P, fs0, fs1, f, f + blk[f], false)
    && Copied(m1, m2, f, src, mv) && (forall a :: FreeAny(m2, fs1, a) <==> FreeAny(m1, fs1, a))
    && (var hi := if slide then src + mv else f + blk[f];
        if f + mv < hi then RefreedCells(m2, m3, P, fs1, fs2, f + mv, hi, true) else m3 == m2 && fs2 == fs1)
    && (if slide then m4 == m3 && fs3 == fs2 else RefreedCells(m3, m4, P, fs2, fs3, src, src + mv, true))
  }

  lemma MoveEffect(m0: Memory, m1: Memory, m2: Memory, m3: Memory, m4: Memory, P: set<int>, blk: Blocks,
      fs0: seq<set<int>>, fs1: seq<set<int>>, fs2: seq<set<int>>, fs3: seq<set<int>>, f: int, src: int, mv: int, slide: bool)
    requires MoveSteps(m0, m1, m2, m3, m4, P, blk, fs0, fs1, fs2, fs3, f, src, mv, slide)
    ensures MovedCells(m0, m4, P, blk, fs3, f, src, mv)
  {
    forall a ensures FreeAny(m4, fs3, a) <==> (FreeCell(m0, blk, a) || src <= a < src + mv) && !(f <= a < f + mv) {
      assert f <= a < f + blk[f] ==> Inside(blk, f, a);
    }
    forall a | f <= a < f + mv && 0 <= a < |m0| && 0 <= a + (src - f) < |m0| ensures m4[a] == m0[a + (src - f)] {
      CellMoved(m0, m1, m2, m3, m4, P, blk, fs0, fs1, fs2, fs3, f, src, mv, slide, a);
    }
    forall a | a in P && 0 <= a < |m0| && !FreeCell(m0, blk, a) && !(src <= a < src + mv) ensures m4[a] == m0[a] {
      CellStayed(m0, m1, m2, m3, m4, P, blk, fs0, fs1, fs2, fs3, f, src, mv, slide, a);
    }
  }

  lemma CellMoved(m0: Memory, m1: Memory, m2: Memory, m3: Memory, m4: Memory, P: set<int>, blk: Blocks,
      fs0: seq<set<int>>, fs1: seq<set<int>>, fs2: seq<set<int>>, fs3: seq<set<int>>, f: int, src: int, mv: int, slide: bool, a: int)
    requires MoveSteps(m0, m1, m2, m3, m4, P, blk, fs0, fs1, fs2, fs3, f, src, mv, slide)
    requires f <= a < f + mv && 0 <= a < |m0| && 0 <= a + (src - f) < |m0|
    ensures m4[a] == m0[a + (src - f)]
  {
    var x := a + (src - f);
    TargetCell(m0, P, blk, f, src, mv, a);
    RunNotFree(m0, P, blk, src, mv, x);
    assert m1[x] == m0[x];
    assert m2[a] == m1[x];
    assert !FreeAny(m2, fs1, a) by {
      if src <= a < src + mv { RunNotFree(m0, P, blk, src, mv, a); }
    }
    assert m3[a] == m2[a];
    assert !FreeAny(m3, fs2, a);
  }

  lemma CellStayed(m0: Memory, m1: Memory, m2: Memory, m3: Memory, m4: Memory, P: set<int>, blk: Blocks,
      fs0: seq<set<int>>, fs1: seq<set<int>>, fs2: seq<set<int>>, fs3: seq<set<int>>, f: int, src: int, mv: int, slide: bool, a: int)
    requires MoveSteps(m0, m1, m2, m3, m4, P, blk, fs0, fs1, fs2, fs3, f, src, mv, slide)
    requires a in P && 0 <= a < |m0| && !FreeCell(m0, blk, a) && !(src <= a < src + mv)
    ensures m4[a] == m0[a]
  {
    assert !Inside(blk, f, a);
    assert m1[a] == m0[a];
    assert m2[a] == m1[a];
    assert !FreeAny(m2, fs1, a);
    assert m3[a] == m2[a];
    assert !FreeAny(m3, fs2, a);
  }

  lemma RunNotFree(m: Memory, P: set<int>, blk: Blocks, src: int, mv: int, x: int)
    requires SizesMatch(m, blk) && Run(m, P, blk, src, mv) && src <= x < src + mv
    ensures x in P && !FreeCell(m, blk, x)
  {
  }

  /** A free block survives the return of cells, unless it is the one right behind them and is absorbed. */
  lemma SurvivesReturn(m: Memory, m': Memory, head: int, tail: int, F: set<int>, F': set<int>, node: int, size: int,
          res: int, g: int)
    requires FreeBlocksOk(m, head, tail, F) && FreeBlocksOk(m', head, tail, F')
    requires forall a :: InFree(m', F', a) <==> InFree(m, F, a) || node <= a < node + size
    requires res in F' && res <= node && node + size <= res + m'[res].size && 1 <= size
    requires g in F
    ensures g in F' || res < g < res + m'[res].size
  {
    var below := InFree(m, F, g - 1);
    var before := InFree(m', F', g - 1);
    assert InFree(m, F, g);
    var h :| h in F' && h <= g < h + m'[h].size;
  }
}
