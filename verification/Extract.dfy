/** Carving a block out of a free one, seen on the contents of memory. */
module Extraction {
  import opened HeapCells
  import opened FreeBlocks
  import opened Partitions
  import opened Sweeping

  const ZERO_CELL := Cell(Other, NO_FLAGS, 0, Bits(0))

  /** The block that an allocation takes its cells from: the first one that fits, from the front, or
      from the back for event blocks. */
  ghost predicate Fit(m: Memory, F: set<int>, length: nat, backward: bool, f: int)
    requires forall x :: x in F ==> 0 <= x < |m|
  {
    && f in F && length <= m[f].size
    && (forall g :: g in F && length <= m[g].size ==> if backward then g <= f else f <= g)
  }

  ghost predicate NoFit(m: Memory, F: set<int>, length: nat)
    requires forall x :: x in F ==> 0 <= x < |m|
  {
    forall g :: g in F ==> m[g].size < length
  }

  /** The cells [res, res + length) leave the free list and nothing else does; every cell that was not
      free keeps its contents. */
  ghost predicate Carved(m: Memory, F: set<int>, m': Memory, F': set<int>, head: int, tail: int, res: int, length: nat)
    requires forall x :: x in F ==> 0 <= x < |m|
    requires forall x :: x in F' ==> 0 <= x < |m'|
  {
    && |m'| == |m|
    && (forall a :: res <= a < res + length ==> InFree(m, F, a))
    && (forall a :: InFree(m', F', a) <==> InFree(m, F, a) && !(res <= a < res + length))
    && (forall a {:trigger m'[a]} :: 0 <= a < |m| && !InFree(m, F, a) && a != head && a != tail ==> m'[a] == m[a])
  }

  /** The links around a block f are moved to its remainder at p. */
  lemma RelinkedToRemainder(m: Memory, m': Memory, head: int, tail: int, F: set<int>, f: int, p: int)
    requires FreeListOk(m, head, tail, F) && f in F && f < p < f + m[f].size
    requires |m'| == |m|
    requires var prev, next := PrevOf(m, f), NextOf(m, f);
      && 0 <= prev < |m| && 0 <= next < |m|
      && m'[p].word == Link(next, prev)
      && m'[prev].word == SetNext(m[prev], p).word && m'[next].word == SetPrev(m[next], p).word
      && (forall a :: 0 <= a < |m| && a != f && a != p && a != prev && a != next ==> m'[a].word == m[a].word)
    ensures Linked(m', head, tail, F - {f} + {p})
  {
    PrevIsNode(m, head, tail, F, f);
    var prev, next := PrevOf(m, f), NextOf(m, f);
    assert Node(head, tail, F, f) && Node(head, tail, F, next);
    assert p !in F && p < next;
    var mu := m[prev := SetNext(m[prev], next)][next := SetPrev(m[next], prev)];
    assert m[prev].word.Link? && m[next].word.Link? by {
      assert NextOf(m, prev) == f && PrevOf(m, next) == f;
    }
    LinkedAfterUnlink(m, mu, head, tail, F, f);
    var mi := mu[p := mu[p].(word := Link(next, prev))][prev := SetNext(mu[prev], p)][next := SetPrev(mu[next], p)];
    LinkedAfterInsert(mu, mi, head, tail, F - {f}, p, prev, next);
    LinkedFrame(mi, m', head, tail, F - {f} + {p});
  }

  /** A free block gives up its front and lives on as its remainder. */
  lemma FrontCarved(m: Memory, m': Memory, head: int, tail: int, F: set<int>, f: int, length: nat)
    requires FreeBlocksOk(m, head, tail, F) && f in F && 1 <= length < m[f].size
    requires |m'| == |m| && IsFree(m'[f + length]) && m'[f + length].size == m[f].size - length
    requires forall g :: g in F && g != f ==> m'[g].dataType == m[g].dataType && m'[g].flags == m[g].flags && m'[g].size == m[g].size
    ensures FreeBlocksOk(m', head, tail, F - {f} + {f + length})
    ensures forall a :: f <= a < f + length ==> InFree(m, F, a)
    ensures forall a :: InFree(m', F - {f} + {f + length}, a) <==> InFree(m, F, a) && !(f <= a < f + length)
  {
    var p := f + length;
    var F' := F - {f} + {p};
    forall a ensures InFree(m', F', a) <==> InFree(m, F, a) && !(f <= a < f + length) {
      if InFree(m', F', a) {
        var g :| g in F' && g <= a < g + m'[g].size;
        assert g == p ==> f <= a < f + m[f].size;
        assert g != p ==> g in F;
      }
      if InFree(m, F, a) && !(f <= a < f + length) {
        var g :| g in F && g <= a < g + m[g].size;
        assert g == f ==> p in F' && p <= a < p + m'[p].size;
        assert g != f ==> g in F';
      }
    }
  }

  /** A free block gives up its back and stays where it is. */
  lemma BackCarved(m: Memory, m': Memory, head: int, tail: int, F: set<int>, f: int, length: nat)
    requires FreeBlocksOk(m, head, tail, F) && f in F && 1 <= length < m[f].size
    requires |m'| == |m| && IsFree(m'[f]) && m'[f].size == m[f].size - length
    requires forall g :: g in F && g != f ==> m'[g].dataType == m[g].dataType && m'[g].flags == m[g].flags && m'[g].size == m[g].size
    ensures FreeBlocksOk(m', head, tail, F)
    ensures var res := f + m[f].size - length;
      && (forall a :: res <= a < res + length ==> InFree(m, F, a))
      && (forall a :: InFree(m', F, a) <==> InFree(m, F, a) && !(res <= a < res + length))
  {
    var res := f + m[f].size - length;
    forall a ensures InFree(m', F, a) <==> InFree(m, F, a) && !(res <= a < res + length) {
      if InFree(m', F, a) {
        var g :| g in F && g <= a < g + m'[g].size;
        assert g <= a < g + m[g].size;
      }
      if InFree(m, F, a) && !(res <= a < res + length) {
        var g :| g in F && g <= a < g + m[g].size;
        assert g <= a < g + m'[g].size;
      }
    }
  }

  /** A free block is given up as a whole. */
  lemma WholeCarved(m: Memory, m': Memory, head: int, tail: int, F: set<int>, f: int)
    requires FreeBlocksOk(m, head, tail, F) && f in F
    requires |m'| == |m|
    requires forall g :: g in F && g != f ==> m'[g].dataType == m[g].dataType && m'[g].flags == m[g].flags && m'[g].size == m[g].size
    ensures FreeBlocksOk(m', head, tail, F - {f})
    ensures forall a :: f <= a < f + m[f].size ==> InFree(m, F, a)
    ensures forall a :: InFree(m', F - {f}, a) <==> InFree(m, F, a) && !(f <= a < f + m[f].size)
  {
    forall a ensures InFree(m', F - {f}, a) <==> InFree(m, F, a) && !(f <= a < f + m[f].size) {
      if InFree(m', F - {f}, a) {
        var g :| g in F - {f} && g <= a < g + m'[g].size;
        assert g in F;
      }
      if InFree(m, F, a) && !(f <= a < f + m[f].size) {
        var g :| g in F && g <= a < g + m[g].size;
        assert g in F - {f};
      }
    }
  }

  /** blk' is the block map in which the cells [res, res + length) of one free block have become a block
      of their own and F' are the blocks that stay free, with the sizes they have in m1. */
  ghost predicate Replanned(m1: Memory, F: set<int>, blk: Blocks, F': set<int>, blk': Blocks, res: int, length: nat)
    requires forall x :: x in F' ==> 0 <= x < |m1|
  {
    && (forall s :: s in blk' <==> s == res || s in F' || (s in blk && s !in F))
    && res in blk' && blk'[res] == length
    && (forall s :: s in F' ==> s in blk' && blk'[s] == m1[s].size)
    && (forall s :: s in blk && s !in F && s != res ==> s in blk' && blk'[s] == blk[s])
  }

  /** The new block is stamped into cells that have left the free list. */
  lemma Stamped(m: Memory, m1: Memory, m': Memory, P: set<int>, blk: Blocks, blk': Blocks, lo: int, hi: int,
          F': set<int>, res: int, length: nat)
    requires ClusterOk(m, P, blk, lo, hi) && 1 <= length
    requires FreeListOk(m1, lo - 1, hi, F') && Carved(m, FreeOf(m, blk, lo, hi), m1, F', lo - 1, hi, res, length)
    requires Partition(P, blk') && Replanned(m1, FreeOf(m, blk, lo, hi), blk, F', blk', res, length)
    requires lo <= res < |m| && |m'| == |m| && m'[res].dataType != FreeBlock && m'[res].size == length
    requires forall a {:trigger m'[a]} :: 0 <= a < |m| && !(res <= a < res + length) ==> m'[a] == m1[a]
    ensures ClusterOk(m', P, blk', lo, hi)
    ensures FreeOf(m', blk', lo, hi) == F'
    ensures Carved(m, FreeOf(m, blk, lo, hi), m', F', lo - 1, hi, res, length)
  {
    var F := FreeOf(m, blk, lo, hi);
    forall g | g in F' ensures !(res <= g < res + length) {
      assert InFree(m1, F', g);
    }
    var tailFree := InFree(m, F, hi);
    FreeBlocksFrame(m1, m', lo - 1, hi, F');
    LinkedFrame(m1, m', lo - 1, hi, F');
    StampedShape(m, m1, m', P, blk, blk', lo, hi, F', res, length);
  }

  lemma StampedShape(m: Memory, m1: Memory, m': Memory, P: set<int>, blk: Blocks, blk': Blocks, lo: int, hi: int,
          F': set<int>, res: int, length: nat)
    requires ClusterOk(m, P, blk, lo, hi) && 1 <= length
    requires FreeBlocksOk(m1, lo - 1, hi, F') && Carved(m, FreeOf(m, blk, lo, hi), m1, F', lo - 1, hi, res, length)
    requires Partition(P, blk') && Replanned(m1, FreeOf(m, blk, lo, hi), blk, F', blk', res, length)
    requires lo <= res < |m| && |m'| == |m| && m'[res].dataType != FreeBlock && m'[res].size == length
    requires forall a {:trigger m'[a]} :: 0 <= a < |m| && !(res <= a < res + length) ==> m'[a] == m1[a]
    requires forall g :: g in F' ==> !(res <= g < res + length)
    ensures HeapShape(m', P, blk') && FreeOf(m', blk', lo, hi) == F'
  {
    var F := FreeOf(m, blk, lo, hi);
    PayloadBlock(P, blk, lo, hi);
    forall s | s in blk'
      ensures 0 < s < |m'| && m'[s].size == blk'[s]
      ensures m'[s].dataType == FreeBlock ==> IsFree(m'[s])
      ensures lo <= s < hi ==> (m'[s].dataType == FreeBlock <==> s in F')
    {
      if s != res && s !in F' {
        UntouchedBlock(m, P, blk, lo, hi, s);
        assert m'[s] == m1[s] && m1[s] == m[s];
      }
    }
    assert FreeOf(m', blk', lo, hi) == F';
  }

  /** A block that is not free has no free cell at its start. */
  lemma UntouchedBlock(m: Memory, P: set<int>, blk: Blocks, lo: int, hi: int, s: int)
    requires ClusterOk(m, P, blk, lo, hi)
    requires s in blk && s !in FreeOf(m, blk, lo, hi)
    ensures !InFree(m, FreeOf(m, blk, lo, hi), s)
  {
  }

  lemma ReplannedWhole(m: Memory, m1: Memory, P: set<int>, blk: Blocks, lo: int, hi: int, f: int)
    requires ClusterOk(m, P, blk, lo, hi) && f in FreeOf(m, blk, lo, hi) && |m1| == |m|
    requires forall g :: g in FreeOf(m, blk, lo, hi) && g != f ==> m1[g].size == m[g].size
    ensures Replanned(m1, FreeOf(m, blk, lo, hi), blk, FreeOf(m, blk, lo, hi) - {f}, blk, f, m[f].size)
  {
  }

  lemma ReplannedFront(m: Memory, m1: Memory, P: set<int>, blk: Blocks, lo: int, hi: int, f: int, length: nat)
    requires ClusterOk(m, P, blk, lo, hi) && f in FreeOf(m, blk, lo, hi) && 1 <= length < m[f].size && |m1| == |m|
    requires forall g :: g in FreeOf(m, blk, lo, hi) && g != f ==> m1[g].size == m[g].size
    requires hi < |m| && m1[f + length].size == m[f].size - length
    ensures f + length < hi && Partition(P, Split(blk, f, length))
    ensures Replanned(m1, FreeOf(m, blk, lo, hi), blk, FreeOf(m, blk, lo, hi) - {f} + {f + length}, Split(blk, f, length), f, length)
  {
    SplitKeepsPartition(P, blk, f, length);
  }

  lemma ReplannedBack(m: Memory, m1: Memory, P: set<int>, blk: Blocks, lo: int, hi: int, f: int, length: nat)
    requires ClusterOk(m, P, blk, lo, hi) && f in FreeOf(m, blk, lo, hi) && 1 <= length < m[f].size && |m1| == |m|
    requires forall g :: g in FreeOf(m, blk, lo, hi) && g != f ==> m1[g].size == m[g].size
    requires m1[f].size == m[f].size - length
    ensures Partition(P, Split(blk, f, m[f].size - length))
    ensures Replanned(m1, FreeOf(m, blk, lo, hi), blk, FreeOf(m, blk, lo, hi), Split(blk, f, m[f].size - length), f + m[f].size - length, length)
  {
    SplitKeepsPartition(P, blk, f, m[f].size - length);
  }

  /** A block of length cells at res was carved out of the free block that fits, and stamped; no other block
      has come into use. */
  ghost predicate Extracted(m: Memory, blk: Blocks, m': Memory, blk': Blocks, lo: int, hi: int, res: int,
          dataType: DataType, flags: Flags, length: nat)
    requires SizesMatch(m, blk) && SizesMatch(m', blk') && |m| == |m'|
  {
    var F := FreeOf(m, blk, lo, hi);
    && 0 < lo <= res && res + length <= hi < |m| && res in blk' && blk'[res] == length
    && m'[res].dataType == dataType && m'[res].flags == flags
    && Carved(m, F, m', FreeOf(m', blk', lo, hi), lo - 1, hi, res, length)
    && (exists f :: Fit(m, F, length, flags.event, f) && res == if flags.event then f + m[f].size - length else f)
    && (forall s :: s in blk && s !in F ==> s in blk' && blk'[s] == blk[s])
    && (forall s :: s in blk' && s != res && s !in FreeOf(m', blk', lo, hi) ==> s in blk)
  }

  /** The free blocks are those of m2, which covers the same cells. */
  lemma FreeAs(m: Memory, F: set<int>, m2: Memory, F2: set<int>, m': Memory, F': set<int>, lo: int, hi: int, res: int, length: nat)
    requires FreeBlocksOk(m, lo - 1, hi, F) && FreeBlocksOk(m2, lo - 1, hi, F2) && FreeBlocksOk(m', lo - 1, hi, F')
    requires Carved(m, F, m', F', lo - 1, hi, res, length)
    requires forall a :: InFree(m2, F2, a) <==> InFree(m, F, a) && !(res <= a < res + length)
    ensures F' == F2 && forall s :: s in F2 ==> m'[s].size == m2[s].size
  {
    FreeBlocksUnique(m2, m', lo - 1, hi, F2, F');
  }

  /** The free blocks after an allocation from the free block f: all others, and what f has left. */
  lemma FreeLeft(m: Memory, F: set<int>, m': Memory, F': set<int>, lo: int, hi: int, f: int, length: nat, backward: bool)
    requires FreeBlocksOk(m, lo - 1, hi, F) && FreeBlocksOk(m', lo - 1, hi, F') && 1 <= length && f in F && length <= m[f].size
    requires Carved(m, F, m', F', lo - 1, hi, if backward then f + m[f].size - length else f, length)
    ensures forall s :: s in F && s != f ==> s in F' && m'[s].size == m[s].size
    ensures length < m[f].size ==> var rest := if backward then f else f + length; rest in F' && m'[rest].size == m[f].size - length
  {
    var rest := Cell(FreeBlock, FREE_FLAGS, m[f].size - length, Bits(0));
    if length == m[f].size {
      WholeCarved(m, m, lo - 1, hi, F, f);
      FreeAs(m, F, m, F - {f}, m', F', lo, hi, f, length);
    } else if backward {
      BackCarved(m, m[f := rest], lo - 1, hi, F, f, length);
      FreeAs(m, F, m[f := rest], F, m', F', lo, hi, f + m[f].size - length, length);
    } else {
      var inside := InFree(m, F, f + length);
      FrontCarved(m, m[f + length := rest], lo - 1, hi, F, f, length);
      FreeAs(m, F, m[f + length := rest], F - {f} + {f + length}, m', F', lo, hi, f, length);
    }
  }

  /** What an allocation does to each block. */
  lemma ExtractedByBlock(m: Memory, blk: Blocks, m': Memory, blk': Blocks, P: set<int>, lo: int, hi: int, res: int,
          dataType: DataType, flags: Flags, length: nat)
    returns (f: int, rest: int)
    requires ClusterOk(m, P, blk, lo, hi) && ClusterOk(m', P, blk', lo, hi) && |m| == |m'| && 1 <= length && dataType != FreeBlock
    requires Extracted(m, blk, m', blk', lo, hi, res, dataType, flags, length)
    ensures f in blk && lo <= f < hi && m[f].dataType == FreeBlock && length <= blk[f]
    ensures forall g :: g in blk && lo <= g < hi && m[g].dataType == FreeBlock && length <= blk[g] ==> if flags.event then g <= f else f <= g
    ensures res == if flags.event then f + blk[f] - length else f
    ensures rest == if flags.event then f else f + length
    ensures length < blk[f] ==> rest in blk' && blk'[rest] == blk[f] - length && m'[rest].dataType == FreeBlock
    ensures forall s :: s in blk && s != f ==> s in blk' && blk'[s] == blk[s] && m'[s].dataType == m[s].dataType
    ensures forall s, a {:trigger Inside(blk, s, a)} :: Inside(blk, s, a) && m[s].dataType != FreeBlock && 0 <= a < |m| ==> m'[a] == m[a]
  {
    f := ChosenFit(m, blk, m', blk', lo, hi, res, dataType, flags, length);
    rest := if flags.event then f else f + length;
    Remainder(m, blk, m', blk', P, lo, hi, res, dataType, flags, length, f, rest);
    UsedKept(m, blk, m', P, lo, hi, FreeOf(m', blk', lo, hi), res, length);
    OthersStay(m, blk, m', blk', P, lo, hi, res, dataType, flags, length, f);
  }

  lemma ChosenFit(m: Memory, blk: Blocks, m': Memory, blk': Blocks, lo: int, hi: int, res: int, dataType: DataType,
          flags: Flags, length: nat)
    returns (f: int)
    requires SizesMatch(m, blk) && SizesMatch(m', blk') && |m| == |m'|
    requires Extracted(m, blk, m', blk', lo, hi, res, dataType, flags, length)
    ensures f in FreeOf(m, blk, lo, hi) && length <= m[f].size && res == if flags.event then f + m[f].size - length else f
    ensures forall g :: g in blk && lo <= g < hi && m[g].dataType == FreeBlock && length <= blk[g] ==> if flags.event then g <= f else f <= g
  {
    f :| Fit(m, FreeOf(m, blk, lo, hi), length, flags.event, f) && res == if flags.event then f + m[f].size - length else f;
    forall g | g in blk && lo <= g < hi && m[g].dataType == FreeBlock && length <= blk[g]
      ensures if flags.event then g <= f else f <= g
    {
      assert g in FreeOf(m, blk, lo, hi);
    }
  }

  lemma OthersStay(m: Memory, blk: Blocks, m': Memory, blk': Blocks, P: set<int>, lo: int, hi: int, res: int,
          dataType: DataType, flags: Flags, length: nat, f: int)
    requires ClusterOk(m, P, blk, lo, hi) && ClusterOk(m', P, blk', lo, hi) && |m| == |m'| && 1 <= length
    requires Extracted(m, blk, m', blk', lo, hi, res, dataType, flags, length)
    requires f in FreeOf(m, blk, lo, hi) && length <= m[f].size && res == if flags.event then f + m[f].size - length else f
    ensures forall s :: s in blk && s != f ==> s in blk' && blk'[s] == blk[s] && m'[s].dataType == m[s].dataType
  {
    forall s | s in blk && s != f ensures s in blk' && blk'[s] == blk[s] && m'[s].dataType == m[s].dataType {
      OtherBlock(m, blk, m', blk', P, lo, hi, res, dataType, flags, length, f, s);
    }
  }

  lemma Remainder(m: Memory, blk: Blocks, m': Memory, blk': Blocks, P: set<int>, lo: int, hi: int, res: int,
          dataType: DataType, flags: Flags, length: nat, f: int, rest: int)
    requires ClusterOk(m, P, blk, lo, hi) && ClusterOk(m', P, blk', lo, hi) && |m| == |m'| && 1 <= length
    requires Extracted(m, blk, m', blk', lo, hi, res, dataType, flags, length)
    requires f in FreeOf(m, blk, lo, hi) && length <= m[f].size && res == if flags.event then f + m[f].size - length else f
    requires rest == if flags.event then f else f + length
    ensures length < blk[f] ==> rest in blk' && blk'[rest] == blk[f] - length && m'[rest].dataType == FreeBlock
  {
    FreeLeft(m, FreeOf(m, blk, lo, hi), m', FreeOf(m', blk', lo, hi), lo, hi, f, length, flags.event);
  }

  lemma UsedKept(m: Memory, blk: Blocks, m': Memory, P: set<int>, lo: int, hi: int, F': set<int>, res: int, length: nat)
    requires ClusterOk(m, P, blk, lo, hi) && |m| == |m'| && forall x :: x in F' ==> 0 <= x < |m'|
    requires Carved(m, FreeOf(m, blk, lo, hi), m', F', lo - 1, hi, res, length)
    ensures forall s, a {:trigger Inside(blk, s, a)} :: Inside(blk, s, a) && m[s].dataType != FreeBlock && 0 <= a < |m| ==> m'[a] == m[a]
  {
    forall s, a {:trigger Inside(blk, s, a)} | Inside(blk, s, a) && m[s].dataType != FreeBlock && 0 <= a < |m| ensures m'[a] == m[a] {
      UsedUntouched(m, P, blk, lo, hi, s, a);
    }
  }

  /** The other blocks stay, free or in use. */
  lemma OtherBlock(m: Memory, blk: Blocks, m': Memory, blk': Blocks, P: set<int>, lo: int, hi: int, res: int,
          dataType: DataType, flags: Flags, length: nat, f: int, s: int)
    requires ClusterOk(m, P, blk, lo, hi) && ClusterOk(m', P, blk', lo, hi) && |m| == |m'| && 1 <= length
    requires Extracted(m, blk, m', blk', lo, hi, res, dataType, flags, length)
    requires f in FreeOf(m, blk, lo, hi) && length <= m[f].size && res == if flags.event then f + m[f].size - length else f
    requires s in blk && s != f
    ensures s in blk' && blk'[s] == blk[s] && m'[s].dataType == m[s].dataType
  {
    var F' := FreeOf(m', blk', lo, hi);
    FreeLeft(m, FreeOf(m, blk, lo, hi), m', F', lo, hi, f, length, flags.event);
    if s in FreeOf(m, blk, lo, hi) {
      assert s in F';
    } else {
      OtherUntouched(m, blk, m', blk', P, lo, hi, F', res, length, s);
    }
  }

  lemma UsedUntouched(m: Memory, P: set<int>, blk: Blocks, lo: int, hi: int, s: int, a: int)
    requires ClusterOk(m, P, blk, lo, hi) && Inside(blk, s, a) && m[s].dataType != FreeBlock
    ensures !InFree(m, FreeOf(m, blk, lo, hi), a) && a != lo - 1 && a != hi
  {
    forall g | g in FreeOf(m, blk, lo, hi) ensures !(g <= a < g + m[g].size) { }
  }

  lemma OtherUntouched(m: Memory, blk: Blocks, m': Memory, blk': Blocks, P: set<int>, lo: int, hi: int, F': set<int>,
          res: int, length: nat, s: int)
    requires ClusterOk(m, P, blk, lo, hi) && HeapShape(m', P, blk') && FreeBlocksOk(m', lo - 1, hi, F')
    requires Carved(m, FreeOf(m, blk, lo, hi), m', F', lo - 1, hi, res, length)
    requires s in blk && s !in FreeOf(m, blk, lo, hi)
    ensures m'[s] == m[s]
  {
    UntouchedBlock(m, P, blk, lo, hi, s);
    PayloadBlock(P, blk, lo, hi);
  }
}
