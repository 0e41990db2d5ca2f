/** Cells given back to the free list, seen on the contents of memory. */
module Returning {
  import opened HeapCells
  import opened FreeBlocks
  import opened Partitions
  import opened Sweeping

  /** The blocks in the run [node, node + size) are not in use any more, and their sizes need not be
      written in memory; all others are as they should be. */
  ghost predicate Vacated(m: Memory, P: set<int>, blk: Blocks, node: int, size: nat) {
    && Partition(P, blk) && node in blk && 1 <= size && Boundary(P, blk, node + size)
    && (forall s :: s in blk && !(node <= s < node + size) ==>
          0 < s < |m| && m[s].size == blk[s] && (m[s].dataType == FreeBlock ==> IsFree(m[s])))
  }

  /** The free blocks of the cluster, apart from the run. */
  ghost function FreeBeside(m: Memory, P: set<int>, blk: Blocks, lo: int, hi: int, node: int, size: nat): set<int>
    requires Vacated(m, P, blk, node, size)
  {
    set s | s in blk && lo <= s < hi && !(node <= s < node + size) && m[s].dataType == FreeBlock
  }

  /** What InsertInOrder does to the free list: the run joins it, and merges with its neighbours into the block
      at res. */
  ghost predicate Returned(m: Memory, F: set<int>, m': Memory, F': set<int>, head: int, tail: int, node: int,
          size: nat, res: int)
    requires forall x :: x in F ==> 0 <= x < |m|
  {
    && |m'| == |m| && F' <= F + {node} && res in F' && (forall f :: f in F' ==> 0 <= f < |m|)
    && res <= node && node + size <= res + m'[res].size
    && (forall f :: f in F' && f != res ==> m'[f].size == m[f].size)
    && (forall a :: InFree(m', F', a) <==> InFree(m, F, a) || node <= a < node + size)
    && (forall a {:trigger m'[a]} :: 0 <= a < |m| && a !in F + {node} && a != head && a != tail ==> m'[a] == m[a])
  }

  /** In blk' the blocks of blk that start in [a, b) have become one. */
  ghost predicate Joined(blk: Blocks, blk': Blocks, a: int, b: int) {
    && (forall s :: s in blk' <==> s == a || (s in blk && !(a <= s < b)))
    && (forall s :: s in blk' ==> blk'[s] == if s == a then b - a else blk[s])
  }

  lemma Join(P: set<int>, blk: Blocks, a: int, b: int) returns (blk': Blocks)
    requires Partition(P, blk) && a < b && a in blk && Boundary(P, blk, b) && forall x :: a <= x < b ==> x in P
    ensures Partition(P, blk') && Joined(blk, blk', a, b)
  {
    blk' := Merge(blk, a, b);
    MergeKeepsPartition(P, blk, a, b);
  }

  /** The free list is that of the heap in which the run has joined the block at res. */
  lemma ReturnedCluster(m: Memory, m': Memory, P: set<int>, blk: Blocks, lo: int, hi: int, node: int, size: nat,
          F': set<int>, res: int)
    returns (blk': Blocks)
    requires ClusterIn(m, P, lo, hi) && Vacated(m, P, blk, node, size) && lo <= node && node + size <= hi
    requires FreeListOk(m, lo - 1, hi, FreeBeside(m, P, blk, lo, hi, node, size)) && FreeListOk(m', lo - 1, hi, F')
    requires Returned(m, FreeBeside(m, P, blk, lo, hi, node, size), m', F', lo - 1, hi, node, size, res)
    ensures ClusterOk(m', P, blk', lo, hi) && FreeOf(m', blk', lo, hi) == F' && OnlyCluster(m, blk, m', blk', lo, hi)
    ensures Joined(blk, blk', res, res + m'[res].size)
  {
    ReturnedEnd(m, m', P, blk, lo, hi, node, size, F', res);
    blk' := Join(P, blk, res, res + m'[res].size);
    ReturnedShape(m, m', P, blk, lo, hi, node, size, F', res, blk');
    ReturnedOnly(m, m', P, blk, lo, hi, node, size, F', res, blk');
  }

  lemma ReturnedShape(m: Memory, m': Memory, P: set<int>, blk: Blocks, lo: int, hi: int, node: int, size: nat,
          F': set<int>, res: int, blk': Blocks)
    requires ClusterIn(m, P, lo, hi) && Vacated(m, P, blk, node, size) && lo <= node && node + size <= hi
    requires FreeListOk(m, lo - 1, hi, FreeBeside(m, P, blk, lo, hi, node, size)) && FreeListOk(m', lo - 1, hi, F')
    requires Returned(m, FreeBeside(m, P, blk, lo, hi, node, size), m', F', lo - 1, hi, node, size, res)
    requires res in blk && lo <= res < res + m'[res].size <= hi && Partition(P, blk')
    requires Joined(blk, blk', res, res + m'[res].size)
    ensures HeapShape(m', P, blk') && FreeOf(m', blk', lo, hi) == F'
  {
    forall s | s in blk'
      ensures 0 < s < |m'| && m'[s].size == blk'[s] && (m'[s].dataType == FreeBlock ==> IsFree(m'[s]))
      ensures lo <= s < hi ==> (m'[s].dataType == FreeBlock <==> s in F')
    {
      if s != res { ReturnedBlock(m, m', P, blk, lo, hi, node, size, F', res, s); }
    }
    forall f | f in F' ensures f in blk' { }
    assert FreeOf(m', blk', lo, hi) == F';
  }

  lemma ReturnedOnly(m: Memory, m': Memory, P: set<int>, blk: Blocks, lo: int, hi: int, node: int, size: nat,
          F': set<int>, res: int, blk': Blocks)
    requires Vacated(m, P, blk, node, size) && lo <= node && node + size <= hi
    requires Returned(m, FreeBeside(m, P, blk, lo, hi, node, size), m', F', lo - 1, hi, node, size, res)
    requires lo <= res < res + m'[res].size <= hi < |m|
    requires Joined(blk, blk', res, res + m'[res].size)
    ensures OnlyCluster(m, blk, m', blk', lo, hi)
  {
  }

  /** The block at res ends where another block starts. */
  lemma ReturnedEnd(m: Memory, m': Memory, P: set<int>, blk: Blocks, lo: int, hi: int, node: int, size: nat,
          F': set<int>, res: int)
    requires ClusterIn(m, P, lo, hi) && Vacated(m, P, blk, node, size) && lo <= node && node + size <= hi
    requires FreeListOk(m, lo - 1, hi, FreeBeside(m, P, blk, lo, hi, node, size)) && FreeListOk(m', lo - 1, hi, F')
    requires Returned(m, FreeBeside(m, P, blk, lo, hi, node, size), m', F', lo - 1, hi, node, size, res)
    ensures res in blk && lo <= res < res + m'[res].size <= hi && Boundary(P, blk, res + m'[res].size)
  {
    var e := res + m'[res].size;
    var F := FreeBeside(m, P, blk, lo, hi, node, size);
    assert InFree(m', F', e - 1);
    var covered := InFree(m', F', e);
    if InFree(m, F, e - 1) && e in P {
      var f :| f in F && f <= e - 1 < f + m[f].size;
      assert EndOf(blk, f) == e;
    }
  }

  /** A block away from res has not changed. */
  lemma ReturnedBlock(m: Memory, m': Memory, P: set<int>, blk: Blocks, lo: int, hi: int, node: int, size: nat,
          F': set<int>, res: int, s: int)
    requires ClusterIn(m, P, lo, hi) && Vacated(m, P, blk, node, size) && lo <= node && node + size <= hi
    requires FreeListOk(m, lo - 1, hi, FreeBeside(m, P, blk, lo, hi, node, size)) && FreeListOk(m', lo - 1, hi, F')
    requires Returned(m, FreeBeside(m, P, blk, lo, hi, node, size), m', F', lo - 1, hi, node, size, res)
    requires s in blk && !(res <= s < res + m'[res].size)
    ensures 0 < s < |m'| && m'[s].size == blk[s] && (m'[s].dataType == FreeBlock ==> IsFree(m'[s]))
    ensures lo <= s < hi ==> (m'[s].dataType == FreeBlock <==> s in F')
  {
    var F := FreeBeside(m, P, blk, lo, hi, node, size);
    PayloadBlock(P, blk, lo, hi);
    if s in F {
      assert InFree(m, F, s);
      var f :| f in F' && f <= s < f + m'[f].size;
      assert f in F && m'[f].size == m[f].size;
      assert f == s;
    }
  }

  /** Next to a free block there is no free cell. */
  lemma NoFreeBeside(m: Memory, head: int, tail: int, F: set<int>, f: int)
    requires FreeBlocksOk(m, head, tail, F) && f in F
    ensures !InFree(m, F, f - 1) && !InFree(m, F, f + m[f].size)
  {
  }

  /** The joined block starts at the run or at the free block that ends there. */
  lemma JoinedStart(m: Memory, F: set<int>, m': Memory, F': set<int>, head: int, tail: int, node: int, size: nat, res: int)
    requires FreeBlocksOk(m, head, tail, F) && FreeBlocksOk(m', head, tail, F') && 1 <= size
    requires Returned(m, F, m', F', head, tail, node, size, res) && forall a :: node <= a < node + size ==> !InFree(m, F, a)
    ensures res == node || (res in F && res + m[res].size == node)
    ensures forall f :: f in F && f + m[f].size == node ==> f == res
  {
    NoFreeBeside(m', head, tail, F', res);
    assert !InFree(m, F, res - 1);
    if res < node {
      assert InFree(m', F', res);
      var f :| f in F && f <= res < f + m[f].size;
      NoFreeBeside(m, head, tail, F, f);
      var beyond := f + m[f].size;
      assert res <= beyond < res + m'[res].size ==> InFree(m', F', beyond);
      assert !InFree(m, F, node);
    }
    forall f | f in F && f + m[f].size == node ensures f == res {
      assert InFree(m, F, node - 1);
    }
  }

  lemma JoinedEnd(m: Memory, F: set<int>, m': Memory, F': set<int>, head: int, tail: int, node: int, size: nat, res: int)
    requires FreeBlocksOk(m, head, tail, F) && FreeBlocksOk(m', head, tail, F') && 1 <= size
    requires Returned(m, F, m', F', head, tail, node, size, res) && forall a :: node <= a < node + size ==> !InFree(m, F, a)
    ensures var end := res + m'[res].size; end == node + size || (node + size in F && end == node + size + m[node + size].size)
    ensures node + size in F ==> res + m'[res].size > node + size
  {
    var end := res + m'[res].size;
    NoFreeBeside(m', head, tail, F', res);
    assert !InFree(m, F, end);
    if node + size < end {
      assert InFree(m', F', node + size);
      var g :| g in F && g <= node + size < g + m[g].size;
      assert !InFree(m, F, node + size - 1);
      NoFreeBeside(m, head, tail, F, g);
      var beyond := g + m[g].size;
      var covered := InFree(m', F', beyond);
    }
    if node + size in F { assert InFree(m, F, node + size); }
  }

  /** A free block outside the joined one stays. */
  lemma FreeStays(m: Memory, F: set<int>, m': Memory, F': set<int>, head: int, tail: int, node: int, size: nat, res: int, f: int)
    requires FreeBlocksOk(m, head, tail, F) && FreeBlocksOk(m', head, tail, F') && 1 <= size
    requires Returned(m, F, m', F', head, tail, node, size, res) && f in F && !(res <= f < res + m'[res].size)
    ensures f in F' && m'[f].size == m[f].size
  {
    assert InFree(m, F, f);
    var g :| g in F' && g <= f < g + m'[g].size;
    assert g != node;
  }

  /** What giving a run back does to each block. */
  lemma ReturnedByBlock(m: Memory, m': Memory, P: set<int>, blk: Blocks, blk': Blocks, lo: int, hi: int, node: int,
          size: nat, res: int)
    requires ClusterIn(m, P, lo, hi) && Vacated(m, P, blk, node, size) && lo <= node && node + size <= hi
    requires FreeListOk(m, lo - 1, hi, FreeBeside(m, P, blk, lo, hi, node, size)) && ClusterOk(m', P, blk', lo, hi)
    requires Returned(m, FreeBeside(m, P, blk, lo, hi, node, size), m', FreeOf(m', blk', lo, hi), lo - 1, hi, node, size, res)
    requires Joined(blk, blk', res, res + m'[res].size)
    requires forall a :: node <= a < node + size ==> !InFree(m, FreeBeside(m, P, blk, lo, hi, node, size), a)
    ensures res in blk' && m'[res].dataType == FreeBlock && m'[res].flags == Flags(false, false, false, true, false, false, false)
    ensures res == node || (lo <= res && res in blk && res + blk[res] == node && m[res].dataType == FreeBlock)
    ensures var end := res + blk'[res];
      end == node + size || (node + size in blk && end == node + size + blk[node + size] < |m| && m[node + size].dataType == FreeBlock)
    ensures forall s :: s in blk && lo <= s < node && s + blk[s] == node && m[s].dataType == FreeBlock ==> s == res
    ensures node + size in blk && node + size < hi && m[node + size].dataType == FreeBlock ==> node + size < res + blk'[res]
    ensures forall s :: s in blk && !(res <= s < res + blk'[res]) ==> s in blk' && blk'[s] == blk[s] && m'[s].dataType == m[s].dataType
    ensures forall s, a {:trigger Inside(blk, s, a)} ::
        Inside(blk, s, a) && !(node <= s < node + size) && m[s].dataType != FreeBlock && 0 <= a < |m| ==> m'[a] == m[a]
  {
    var F, F' := FreeBeside(m, P, blk, lo, hi, node, size), FreeOf(m', blk', lo, hi);
    JoinedStart(m, F, m', F', lo - 1, hi, node, size, res);
    JoinedEnd(m, F, m', F', lo - 1, hi, node, size, res);
    forall s | s in blk && !(res <= s < res + blk'[res]) ensures s in blk' && blk'[s] == blk[s] && m'[s].dataType == m[s].dataType {
      StaysWithType(m, m', P, blk, blk', lo, hi, node, size, res, s);
    }
    forall s, a {:trigger Inside(blk, s, a)} | Inside(blk, s, a) && !(node <= s < node + size) && m[s].dataType != FreeBlock && 0 <= a < |m|
      ensures m'[a] == m[a]
    {
      UsedStays(m, m', P, blk, blk', lo, hi, node, size, res, s, a);
    }
  }

  lemma StaysWithType(m: Memory, m': Memory, P: set<int>, blk: Blocks, blk': Blocks, lo: int, hi: int, node: int,
          size: nat, res: int, s: int)
    requires ClusterIn(m, P, lo, hi) && Vacated(m, P, blk, node, size) && lo <= node && node + size <= hi
    requires FreeListOk(m, lo - 1, hi, FreeBeside(m, P, blk, lo, hi, node, size)) && ClusterOk(m', P, blk', lo, hi)
    requires Returned(m, FreeBeside(m, P, blk, lo, hi, node, size), m', FreeOf(m', blk', lo, hi), lo - 1, hi, node, size, res)
    requires Joined(blk, blk', res, res + m'[res].size) && s in blk && !(res <= s < res + m'[res].size)
    ensures s in blk' && blk'[s] == blk[s] && 0 <= s < |m| && m'[s].dataType == m[s].dataType
  {
    var F, F' := FreeBeside(m, P, blk, lo, hi, node, size), FreeOf(m', blk', lo, hi);
    PayloadBlock(P, blk, lo, hi);
    if s in F { FreeStays(m, F, m', F', lo - 1, hi, node, size, res, s); }
  }

  lemma UsedStays(m: Memory, m': Memory, P: set<int>, blk: Blocks, blk': Blocks, lo: int, hi: int, node: int,
          size: nat, res: int, s: int, a: int)
    requires ClusterIn(m, P, lo, hi) && Vacated(m, P, blk, node, size)
    requires SizesMatch(m', blk')
    requires Returned(m, FreeBeside(m, P, blk, lo, hi, node, size), m', FreeOf(m', blk', lo, hi), lo - 1, hi, node, size, res)
    requires Inside(blk, s, a) && !(node <= s < node + size) && m[s].dataType != FreeBlock && 0 <= a < |m|
    ensures m'[a] == m[a]
  {
    var F := FreeBeside(m, P, blk, lo, hi, node, size);
    assert a !in F && a != node && a in P;
  }
}
