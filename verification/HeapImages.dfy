/** How the heap during and after compaction relates to the heap before it: block by block, through the
    map of the relocation regions recorded so far. */
module HeapImages {
  import opened HeapCells
  import opened FreeBlocks
  import opened Partitions
  import opened Sweeping
  import opened Relocation
  import opened RunMoves

  /** Cell a of block b, with its reference mapped by R if it holds one. */
  function Seen(g: Memory, b: int, a: int, R: seq<Region>): Cell
    requires 0 <= b < |g| && 0 <= a < |g|
  {
    if Slot(g, b, a) then Retarget(g[a], R) else g[a]
  }

  /** Block b of g is found in m where R maps it, with its references mapped by the regions in Rf. */
  ghost predicate BlockImage(g: Memory, blk0: Blocks, m: Memory, R: seq<Region>, Rf: seq<Region>, b: int) {
    forall a {:trigger Inside(blk0, b, a)} :: Inside(blk0, b, a) ==>
      && 0 <= b <= a < |g| && RegionMap(R, a) == a + (RegionMap(R, b) - b)
      && 0 <= RegionMap(R, a) < |m| && m[RegionMap(R, a)] == Seen(g, b, a, Rf)
  }

  /** R maps the blocks in use of g one to one to those of m. */
  ghost predicate Image(g: Memory, blk0: Blocks, m: Memory, blk: Blocks, R: seq<Region>, Rf: seq<Region>) {
    && SizesMatch(g, blk0) && SizesMatch(m, blk) && |m| == |g|
    && (forall b :: Used(g, blk0, b) ==>
          Used(m, blk, RegionMap(R, b)) && blk[RegionMap(R, b)] == blk0[b] && BlockImage(g, blk0, m, R, Rf, b))
    && (forall s :: Used(m, blk, s) ==> exists b :: Used(g, blk0, b) && RegionMap(R, b) == s)
    && (forall b, c {:trigger RegionMap(R, b), RegionMap(R, c)} ::
          Used(g, blk0, b) && Used(g, blk0, c) && RegionMap(R, b) == RegionMap(R, c) ==> b == c)
  }

  /** Regions consist of whole blocks in use that may move. */
  ghost predicate OnlyMovable(g: Memory, blk0: Blocks, R: seq<Region>)
    requires SizesMatch(g, blk0)
  {
    forall i, b, a {:trigger Holds(R, i, a), Inside(blk0, b, a)} :: Holds(R, i, a) && Inside(blk0, b, a) ==>
      R[i].start <= b && b + blk0[b] <= R[i].end && Used(g, blk0, b) && !g[b].flags.Unmovable()
  }

  /** No region reaches beyond front. */
  ghost predicate Below(R: seq<Region>, front: int) {
    forall i :: 0 <= i < |R| ==> R[i].end <= front
  }

  /** Addresses from front on are unmoved, and nothing was moved there. */
  lemma Unmoved(R: seq<Region>, front: int, a: int)
    requires RegionsOk(R) && Below(R, front)
    ensures a >= front ==> RegionMap(R, a) == a
    ensures RegionMap(R, a) >= front ==> RegionMap(R, a) == a
  {
    var i := MapCases(R, a);
  }

  /** The blocks in use from front on are those of the original heap, as they were but for references. */
  lemma UnmovedBlock(g: Memory, blk0: Blocks, m: Memory, blk: Blocks, R: seq<Region>, Rf: seq<Region>, front: int, s: int)
    requires Image(g, blk0, m, blk, R, Rf) && RegionsOk(R) && Below(R, front) && s >= front
    ensures Used(m, blk, s) <==> Used(g, blk0, s)
    ensures Used(m, blk, s) ==> blk[s] == blk0[s]
    ensures Used(m, blk, s) && 1 <= blk[s] ==> m[s].flags == g[s].flags && m[s].dataType == g[s].dataType
  {
    Unmoved(R, front, s);
    if Used(m, blk, s) {
      var b :| Used(g, blk0, b) && RegionMap(R, b) == s;
      Unmoved(R, front, b);
    }
    if Used(g, blk0, s) && 1 <= blk0[s] {
      assert Inside(blk0, s, s);
      assert BlockImage(g, blk0, m, R, Rf, s);
    }
  }

  // ---------- A move ----------

  ghost predicate ImageStep(g: Memory, blk0: Blocks, m: Memory, blk: Blocks, m': Memory, blk': Blocks, P: set<int>,
          R: seq<Region>, Rf: seq<Region>, f: int, src: int, mv: int)
  {
    && Image(g, blk0, m, blk, R, Rf) && RegionsOk(R) && Below(R, src)
    && Partition(P, blk0) && Partition(P, blk) && SizesMatch(m', blk')
    && Run(m, P, blk, src, mv) && 0 < f < src
    && MovedRun(m, blk, m', blk', f, src, mv)
  }

  function Moving(f: int, src: int, mv: int): Region {
    Region(src, src + mv, f, f - src)
  }

  lemma InRun(g: Memory, blk0: Blocks, m: Memory, blk: Blocks, m': Memory, blk': Blocks, P: set<int>, R: seq<Region>,
          Rf: seq<Region>, f: int, src: int, mv: int, b: int)
    requires ImageStep(g, blk0, m, blk, m', blk', P, R, Rf, f, src, mv)
    requires Used(g, blk0, b) && src <= b < src + mv
    ensures var R' := R + [Moving(f, src, mv)];
      && RegionMap(R', b) == b - (src - f) && MovedStart(blk, f, src, mv, RegionMap(R', b))
      && blk'[RegionMap(R', b)] == blk0[b] && BlockImage(g, blk0, m', R', Rf, b)
  {
    var R' := R + [Moving(f, src, mv)];
    UnmovedBlock(g, blk0, m, blk, R, Rf, src, b);
    MapAppend(R, Moving(f, src, mv), b);
    assert (b - (src - f)) + (src - f) == b;
    assert MovedStart(blk, f, src, mv, b - (src - f));
    assert RegionMap(R, b) == b by { Unmoved(R, src, b); }
    forall a | Inside(blk0, b, a)
      ensures 0 <= b <= a < |g| && RegionMap(R', a) == a - (src - f) && 0 <= RegionMap(R', a) < |m'| && m'[RegionMap(R', a)] == Seen(g, b, a, Rf)
    {
      assert Inside(blk, b, a);
      RunBlock(m, P, blk, src, mv, b, a);
      MapAppend(R, Moving(f, src, mv), a);
      assert BlockImage(g, blk0, m, R, Rf, b);
      Unmoved(R, src, a);
    }
  }

  lemma OutOfRun(g: Memory, blk0: Blocks, m: Memory, blk: Blocks, m': Memory, blk': Blocks, P: set<int>,
          R: seq<Region>, Rf: seq<Region>, f: int, src: int, mv: int, b: int)
    requires ImageStep(g, blk0, m, blk, m', blk', P, R, Rf, f, src, mv)
    requires Used(g, blk0, b) && !(src <= b < src + mv)
    ensures var R' := R + [Moving(f, src, mv)];
      && RegionMap(R', b) == RegionMap(R, b) && KeptStart(m, blk, src, mv, RegionMap(R', b))
      && blk'[RegionMap(R', b)] == blk0[b] && BlockImage(g, blk0, m', R', Rf, b)
  {
    var R' := R + [Moving(f, src, mv)];
    var s := RegionMap(R, b);
    MapAppend(R, Moving(f, src, mv), b);
    Unmoved(R, src, b);
    assert KeptStart(m, blk, src, mv, s);
    assert BlockImage(g, blk0, m, R, Rf, b);
    forall a | Inside(blk0, b, a)
      ensures 0 <= b <= a < |g| && RegionMap(R', a) == RegionMap(R, a) && m'[RegionMap(R', a)] == Seen(g, b, a, Rf)
    {
      assert Inside(blk, s, RegionMap(R, a));
      MapAppend(R, Moving(f, src, mv), a);
      Unmoved(R, src, a);
    }
  }

  lemma ImageMove(g: Memory, blk0: Blocks, m: Memory, blk: Blocks, m': Memory, blk': Blocks, P: set<int>,
          R: seq<Region>, Rf: seq<Region>, f: int, src: int, mv: int)
    requires ImageStep(g, blk0, m, blk, m', blk', P, R, Rf, f, src, mv)
    ensures Image(g, blk0, m', blk', R + [Moving(f, src, mv)], Rf)
  {
    var R' := R + [Moving(f, src, mv)];
    forall b | Used(g, blk0, b)
      ensures Used(m', blk', RegionMap(R', b)) && blk'[RegionMap(R', b)] == blk0[b] && BlockImage(g, blk0, m', R', Rf, b)
    {
      if src <= b < src + mv {
        InRun(g, blk0, m, blk, m', blk', P, R, Rf, f, src, mv, b);
      } else {
        OutOfRun(g, blk0, m, blk, m', blk', P, R, Rf, f, src, mv, b);
      }
    }
    forall s | Used(m', blk', s) ensures exists b :: Used(g, blk0, b) && RegionMap(R', b) == s {
      var b := Preimage(g, blk0, m, blk, m', blk', P, R, Rf, f, src, mv, s);
    }
    forall b, c | Used(g, blk0, b) && Used(g, blk0, c) && RegionMap(R', b) == RegionMap(R', c) ensures b == c {
      OneImage(g, blk0, m, blk, m', blk', P, R, Rf, f, src, mv, b, c);
    }
  }

  lemma Preimage(g: Memory, blk0: Blocks, m: Memory, blk: Blocks, m': Memory, blk': Blocks, P: set<int>,
          R: seq<Region>, Rf: seq<Region>, f: int, src: int, mv: int, s: int)
    returns (b: int)
    requires ImageStep(g, blk0, m, blk, m', blk', P, R, Rf, f, src, mv) && Used(m', blk', s)
    ensures Used(g, blk0, b) && RegionMap(R + [Moving(f, src, mv)], b) == s
  {
    if KeptStart(m, blk, src, mv, s) {
      b :| Used(g, blk0, b) && RegionMap(R, b) == s;
      Unmoved(R, src, b);
      OutOfRun(g, blk0, m, blk, m', blk', P, R, Rf, f, src, mv, b);
    } else {
      b := s + (src - f);
      assert Inside(blk, b, b);
      RunBlock(m, P, blk, src, mv, b, b);
      UnmovedBlock(g, blk0, m, blk, R, Rf, src, b);
      InRun(g, blk0, m, blk, m', blk', P, R, Rf, f, src, mv, b);
    }
  }

  lemma OneImage(g: Memory, blk0: Blocks, m: Memory, blk: Blocks, m': Memory, blk': Blocks, P: set<int>,
          R: seq<Region>, Rf: seq<Region>, f: int, src: int, mv: int, b: int, c: int)
    requires ImageStep(g, blk0, m, blk, m', blk', P, R, Rf, f, src, mv)
    requires Used(g, blk0, b) && Used(g, blk0, c)
    requires RegionMap(R + [Moving(f, src, mv)], b) == RegionMap(R + [Moving(f, src, mv)], c)
    ensures b == c
  {
    if src <= b < src + mv {
      InRun(g, blk0, m, blk, m', blk', P, R, Rf, f, src, mv, b);
    } else {
      OutOfRun(g, blk0, m, blk, m', blk', P, R, Rf, f, src, mv, b);
    }
    if src <= c < src + mv {
      InRun(g, blk0, m, blk, m', blk', P, R, Rf, f, src, mv, c);
    } else {
      OutOfRun(g, blk0, m, blk, m', blk', P, R, Rf, f, src, mv, c);
    }
  }

  /** The new region extends the table in order, and again moves only whole movable blocks. */
  lemma RegionAppended(R: seq<Region>, f: int, src: int, mv: int)
    requires RegionsOk(R) && Below(R, src) && 0 < f < src && 1 <= mv
    ensures RegionsOk(R + [Moving(f, src, mv)]) && Below(R + [Moving(f, src, mv)], src + mv)
  {
    var R' := R + [Moving(f, src, mv)];
    forall i | 0 <= i < |R'| ensures R'[i].end <= src + mv {
      assert i < |R| ==> R'[i] == R[i];
    }
  }

  lemma MovableAppended(g: Memory, blk0: Blocks, m: Memory, blk: Blocks, m': Memory, blk': Blocks, P: set<int>,
          R: seq<Region>, Rf: seq<Region>, f: int, src: int, mv: int)
    requires ImageStep(g, blk0, m, blk, m', blk', P, R, Rf, f, src, mv) && OnlyMovable(g, blk0, R)
    requires forall a :: a in P ==> 0 < a
    ensures OnlyMovable(g, blk0, R + [Moving(f, src, mv)])
  {
    var R' := R + [Moving(f, src, mv)];
    forall i, b, a | Holds(R', i, a) && Inside(blk0, b, a)
      ensures R'[i].start <= b && b + blk0[b] <= R'[i].end && Used(g, blk0, b) && !g[b].flags.Unmovable()
    {
      if i < |R| {
        assert Holds(R, i, a);
      } else {
        var t := Covered(P, blk, a);
        RunBlock(m, P, blk, src, mv, t, a);
        UnmovedBlock(g, blk0, m, blk, R, Rf, src, t);
        assert Inside(blk0, t, a);
        assert t == b;
      }
    }
  }

  // ---------- A relocation pass ----------

  lemma SeenSlots(g: Memory, blk0: Blocks, m: Memory, blk: Blocks, R: seq<Region>, Rf: seq<Region>, b: int, a: int)
    requires Image(g, blk0, m, blk, R, Rf) && Used(g, blk0, b) && Inside(blk0, b, a)
    ensures Slot(m, RegionMap(R, b), RegionMap(R, a)) <==> Slot(g, b, a)
    ensures Inside(blk, RegionMap(R, b), RegionMap(R, a))
  {
    assert Inside(blk0, b, b);
    assert BlockImage(g, blk0, m, R, Rf, b);
  }

  /** The heap keeps its references in order, so that a relocation pass may be run on it. */
  lemma ImageRefsOk(g: Memory, blk0: Blocks, m: Memory, blk: Blocks, P: set<int>, R: seq<Region>, Rf: seq<Region>)
    requires Image(g, blk0, m, blk, R, Rf) && RefsOk(g, blk0) && Partition(P, blk)
    ensures RefsOk(m, blk)
  {
    forall s | s in blk
      ensures RelocNum(m[s]) < blk[s]
      ensures forall x {:trigger Inside(blk, s, x)} :: Inside(blk, s, x) && s < x && Slot(m, s, x) && x < |m| ==> RelocNum(m[x]) == 0
    {
      if Used(m, blk, s) {
        var b :| Used(g, blk0, b) && RegionMap(R, b) == s;
        ImageBlockRefs(g, blk0, m, blk, R, Rf, b);
      }
    }
  }

  lemma ImageBlockRefs(g: Memory, blk0: Blocks, m: Memory, blk: Blocks, R: seq<Region>, Rf: seq<Region>, b: int)
    requires Image(g, blk0, m, blk, R, Rf) && RefsOk(g, blk0) && Used(g, blk0, b)
    ensures var s := RegionMap(R, b);
      && RelocNum(m[s]) < blk[s]
      && forall x {:trigger Inside(blk, s, x)} :: Inside(blk, s, x) && s < x && Slot(m, s, x) && x < |m| ==> RelocNum(m[x]) == 0
  {
    var s := RegionMap(R, b);
    assert Inside(blk0, b, b);
    assert BlockImage(g, blk0, m, R, Rf, b);
    forall x | Inside(blk, s, x) && s < x && Slot(m, s, x) && x < |m| ensures RelocNum(m[x]) == 0 {
      var a := x - s + b;
      assert Inside(blk0, b, a);
      SeenSlots(g, blk0, m, blk, R, Rf, b, a);
    }
  }

  /** After a pass with the regions recorded since the last one, every reference is up to date. */
  lemma ImagePass(g: Memory, blk0: Blocks, m: Memory, blk: Blocks, m': Memory, P: set<int>, R: seq<Region>, k: nat)
    requires k <= |R| && RegionsOk(R) && Image(g, blk0, m, blk, R, R[..k]) && Partition(P, blk)
    requires PassedUpTo(m, m', blk, R[k..], |m|)
    ensures Image(g, blk0, m', blk, R, R)
  {
    forall s | s in blk ensures m'[s].size == m[s].size && m'[s].dataType == m[s].dataType { }
    forall b | Used(g, blk0, b) ensures BlockImage(g, blk0, m', R, R, b) {
      forall a | Inside(blk0, b, a)
        ensures 0 <= b <= a < |g| && RegionMap(R, a) == a + (RegionMap(R, b) - b)
        ensures 0 <= RegionMap(R, a) < |m'| && m'[RegionMap(R, a)] == Seen(g, b, a, R)
      {
        PassedCell(g, blk0, m, blk, m', P, R, k, b, a);
      }
    }
    forall s ensures Used(m', blk, s) <==> Used(m, blk, s) { }
  }

  lemma PassedCell(g: Memory, blk0: Blocks, m: Memory, blk: Blocks, m': Memory, P: set<int>, R: seq<Region>, k: nat,
          b: int, a: int)
    requires k <= |R| && RegionsOk(R) && Image(g, blk0, m, blk, R, R[..k]) && Partition(P, blk)
    requires PassedUpTo(m, m', blk, R[k..], |m|)
    requires Used(g, blk0, b) && Inside(blk0, b, a)
    ensures 0 <= b <= a < |g| && RegionMap(R, a) == a + (RegionMap(R, b) - b)
    ensures 0 <= RegionMap(R, a) < |m'| && m'[RegionMap(R, a)] == Seen(g, b, a, R)
  {
    assert BlockImage(g, blk0, m, R, R[..k], b);
    var s, x := RegionMap(R, b), RegionMap(R, a);
    SeenSlots(g, blk0, m, blk, R, R[..k], b, a);
    assert forall t :: Inside(blk, t, x) ==> t == s;
    assert SlotOf(m, blk, x) <==> Slot(m, s, x);
    if HasRef(g[a]) { MapSplit(R, k, g[a].word.target); }
  }

  /** A pass leaves blocks and free lists as they are. */
  lemma PassKeepsHeap(m: Memory, m': Memory, P: set<int>, cs: seq<Extent>, blk: Blocks, T: seq<Region>)
    requires HeapOk(m, P, cs, blk) && RefsOk(m, blk) && PassedUpTo(m, m', blk, T, |m|)
    ensures HeapOk(m', P, cs, blk)
  {
    forall s | s in blk ensures m'[s].size == m[s].size && m'[s].dataType == m[s].dataType && m'[s].flags == m[s].flags { }
    assert Layout(m', P, cs) by {
      forall k | 0 <= k < |cs| ensures ClusterIn(m', P, cs[k].start, cs[k].end) { }
    }
    forall k | 0 <= k < |cs|
      ensures FreeListOk(m', cs[k].start - 1, cs[k].end, FreeOf(m', blk, cs[k].start, cs[k].end))
    {
      PassKeepsList(m, m', P, blk, T, cs[k].start, cs[k].end);
    }
  }

  lemma PassKeepsList(m: Memory, m': Memory, P: set<int>, blk: Blocks, T: seq<Region>, lo: int, hi: int)
    requires HeapShape(m, P, blk) && PassedUpTo(m, m', blk, T, |m|)
    requires ClusterIn(m, P, lo, hi) && FreeListOk(m, lo - 1, hi, FreeOf(m, blk, lo, hi))
    ensures SizesMatch(m', blk) && FreeListOk(m', lo - 1, hi, FreeOf(m', blk, lo, hi))
  {
    var F := FreeOf(m, blk, lo, hi);
    forall s | s in blk ensures m'[s].size == m[s].size && m'[s].dataType == m[s].dataType { }
    assert FreeOf(m', blk, lo, hi) == F;
    forall a | Node(lo - 1, hi, F, a) ensures m'[a] == m[a] {
      assert !HasRef(m[a]) || a == lo - 1 || a == hi;
      assert a !in P ==> forall b :: !Inside(blk, b, a);
    }
    FreeBlocksFrame(m, m', lo - 1, hi, F);
    LinkedFrame(m, m', lo - 1, hi, F);
  }

  // ---------- The state of a compaction ----------

  /** Compaction has recorded the regions R, all below front, and relocated by the first k of them. */
  ghost predicate Progress(g: Memory, blk0: Blocks, m: Memory, P: set<int>, cs: seq<Extent>, blk: Blocks,
          R: seq<Region>, k: nat, front: int)
  {
    && k <= |R| && HeapOk(m, P, cs, blk)
    && RefsOk(g, blk0) && Partition(P, blk0) && (forall a :: a in P ==> 1 < a < |m|)
    && RegionsOk(R) && Below(R, front) && OnlyMovable(g, blk0, R)
    && Image(g, blk0, m, blk, R, R[..k])
  }

  lemma ProgressStart(g: Memory, P: set<int>, cs: seq<Extent>, blk0: Blocks, front: int)
    requires HeapOk(g, P, cs, blk0) && RefsOk(g, blk0)
    ensures Progress(g, blk0, g, P, cs, blk0, [], 0, front)
  {
    forall b | Used(g, blk0, b) ensures BlockImage(g, blk0, g, [], [], b) {
      forall a | Inside(blk0, b, a) ensures 0 <= b <= a < |g| && g[a] == Seen(g, b, a, []) {
        PayloadInMemory(g, P, cs, a);
      }
    }
    forall s | Used(g, blk0, s) ensures exists b :: Used(g, blk0, b) && RegionMap([], b) == s {
      assert RegionMap([], s) == s;
    }
    forall a | a in P ensures 1 < a < |g| { PayloadInMemory(g, P, cs, a); }
  }

  lemma PayloadInMemory(m: Memory, P: set<int>, cs: seq<Extent>, a: int)
    requires Layout(m, P, cs) && a in P
    ensures 1 < a < |m|
  {
    assert InSome(cs, a);
    var k :| 0 <= k < |cs| && cs[k].start <= a < cs[k].end;
    assert ClusterIn(m, P, cs[k].start, cs[k].end);
  }

  lemma ProgressFront(g: Memory, blk0: Blocks, m: Memory, P: set<int>, cs: seq<Extent>, blk: Blocks, R: seq<Region>,
          k: nat, front: int, front': int)
    requires Progress(g, blk0, m, P, cs, blk, R, k, front) && front <= front'
    ensures Progress(g, blk0, m, P, cs, blk, R, k, front')
  {
  }

  /** A run was moved and its region recorded. */
  lemma ProgressMove(g: Memory, blk0: Blocks, m: Memory, P: set<int>, cs: seq<Extent>, blk: Blocks, R: seq<Region>, k: nat,
      m': Memory, blk': Blocks, f: int, src: int, mv: int)
    requires Progress(g, blk0, m, P, cs, blk, R, k, src)
    requires Run(m, P, blk, src, mv) && 0 < f < src
    requires HeapOk(m', P, cs, blk') && MovedRun(m, blk, m', blk', f, src, mv)
    ensures Progress(g, blk0, m', P, cs, blk', R + [Moving(f, src, mv)], k, src + mv)
  {
    var R' := R + [Moving(f, src, mv)];
    assert R'[..k] == R[..k];
    RegionAppended(R, f, src, mv);
    ImageMove(g, blk0, m, blk, m', blk', P, R, R[..k], f, src, mv);
    MovableAppended(g, blk0, m, blk, m', blk', P, R, R[..k], f, src, mv);
  }

  /** All references were rewritten. */
  lemma ProgressPass(g: Memory, blk0: Blocks, m: Memory, P: set<int>, cs: seq<Extent>, blk: Blocks, R: seq<Region>,
          k: nat, front: int, m': Memory)
    requires Progress(g, blk0, m, P, cs, blk, R, k, front)
    requires RefsOk(m, blk) && PassedUpTo(m, m', blk, R[k..], |m|)
    ensures Progress(g, blk0, m', P, cs, blk, R, |R|, front)
  {
    assert R[..|R|] == R;
    ImagePass(g, blk0, m, blk, m', P, R, k);
    PassKeepsHeap(m, m', P, cs, blk, R[k..]);
  }

  /** The result of a compaction: through the map of R, every block in use of g is found, whole, at a place
      of its own in m, and no other block of m is in use; every reference is mapped too. */
  ghost predicate Compacted(g: Memory, blk0: Blocks, m: Memory, blk: Blocks, R: seq<Region>) {
    && SizesMatch(g, blk0) && RegionsOk(R) && OnlyMovable(g, blk0, R)
    && Image(g, blk0, m, blk, R, R)
  }

  lemma ProgressDone(g: Memory, blk0: Blocks, m: Memory, P: set<int>, cs: seq<Extent>, blk: Blocks, R: seq<Region>,
          front: int)
    requires Progress(g, blk0, m, P, cs, blk, R, |R|, front)
    ensures HeapOk(m, P, cs, blk) && Compacted(g, blk0, m, blk, R)
  {
    assert R[..|R|] == R;
  }

  /** Cell by cell and type by type: the header of a block, the fields of an object, the elements of an array of
      references, the target of a delegate, the members of a delegate list and the cells of a stack frame have their
      references mapped; all other cells are moved as they are. */
  lemma CellFound(g: Memory, blk0: Blocks, m: Memory, blk: Blocks, R: seq<Region>, b: int, a: int)
    requires Compacted(g, blk0, m, blk, R) && RefsOk(g, blk0)
    requires b in blk0 && g[b].dataType != FreeBlock && b <= a < b + blk0[b]
    ensures && a < |g| && 0 <= RegionMap(R, b) + (a - b) < |m|
      && m[RegionMap(R, b) + (a - b)] == if
           && g[a].word.Pointer? && g[a].dataType in {Object, ByRef, ArrayByRef, Class, ValueType, String}
           && (|| a == b || g[b].dataType in {Class, ValueType} || (g[b].dataType == DelegateHead && a == b + 1)
               || (g[b].dataType == SzArray && g[b].word.ArrayHead? && g[b].word.fReference && a <= b + g[b].word.numOfElements)
               || (g[b].dataType == DelegateListHead && g[b].word.ListHead? && a <= b + g[b].word.length)
               || (g[b].dataType == StackFrame && g[b].word.Frame? && a <= b + g[b].word.values))
         then g[a].(word := Pointer(RegionMap(R, g[a].word.target))) else g[a]
  {
    assert Used(g, blk0, b) && Inside(blk0, b, a) && Inside(blk0, b, b);
    assert BlockImage(g, blk0, m, R, R, b);
    assert m[RegionMap(R, a)] == Seen(g, b, a, R) && RegionMap(R, a) == RegionMap(R, b) + (a - b);
  }
}
