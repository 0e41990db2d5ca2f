/** The free blocks of a cluster: maximal runs of free cells, kept in a linked list. */
module FreeBlocks {
  import opened HeapCells

  /** The free blocks at the addresses F cover address a. */
  ghost predicate InFree(m: Memory, F: set<int>, a: int)
    requires forall f :: f in F ==> 0 <= f < |m|
  {
    exists f :: f in F && f <= a < f + m[f].size
  }

  /** The blocks at F are free, inside the payload, and no two of them touch. */
  ghost predicate FreeBlocksOk(m: Memory, head: int, tail: int, F: set<int>) {
    && Bounds(m, head, tail, F)
    && (forall f :: f in F ==> IsFree(m[f]) && 1 <= m[f].size && f + m[f].size <= tail)
    && (forall f, g :: f in F && g in F && f < g ==> f + m[f].size < g)
  }

  ghost predicate FreeListOk(m: Memory, head: int, tail: int, F: set<int>) {
    FreeBlocksOk(m, head, tail, F) && Linked(m, head, tail, F)
  }

  /** Two free lists that cover the same cells consist of the same blocks: the free list is the list of
      the maximal free runs and nothing else. */
  lemma FreeBlocksUnique(m: Memory, m': Memory, head: int, tail: int, F: set<int>, F': set<int>)
    requires FreeBlocksOk(m, head, tail, F) && FreeBlocksOk(m', head, tail, F')
    requires forall a :: InFree(m, F, a) <==> InFree(m', F', a)
    ensures F == F'
    ensures forall f :: f in F ==> m[f].size == m'[f].size
  {
    forall f | f in F ensures f in F' {
      FreeBlockIn(m, m', head, tail, F, F', f);
    }
    forall f | f in F' ensures f in F {
      FreeBlockIn(m', m, head, tail, F', F, f);
    }
    forall f | f in F ensures m[f].size == m'[f].size {
      FreeBlockIn(m, m', head, tail, F, F', f);
      FreeBlockIn(m', m, head, tail, F', F, f);
    }
  }

  lemma FreeBlockIn(m: Memory, m': Memory, head: int, tail: int, F: set<int>, F': set<int>, f: int)
    requires FreeBlocksOk(m, head, tail, F) && FreeBlocksOk(m', head, tail, F')
    requires forall a :: InFree(m, F, a) <==> InFree(m', F', a)
    requires f in F
    ensures f in F' && m[f].size <= m'[f].size
  {
    // The block of F' that covers f starts at f, or F' would cover f - 1; and it is at least as long.
    var below := InFree(m', F', f - 1);
    var beyond := InFree(m, F, f + (if 0 <= f < |m'| then m'[f].size else 0));
    assert InFree(m, F, f);
    var g :| g in F' && g <= f < g + m'[g].size;
  }

  /** Relinking blocks changes neither the free blocks nor what they cover. */
  lemma FreeBlocksFrame(m: Memory, m': Memory, head: int, tail: int, F: set<int>)
    requires FreeBlocksOk(m, head, tail, F)
    requires |m'| == |m| && forall f {:trigger m'[f]} :: f in F ==> m'[f] == m[f].(word := m'[f].word)
    ensures FreeBlocksOk(m', head, tail, F)
    ensures forall a :: InFree(m', F, a) <==> InFree(m, F, a)
  {
    forall a ensures InFree(m', F, a) <==> InFree(m, F, a) {
      if InFree(m, F, a) {
        var f :| f in F && f <= a < f + m[f].size;
        assert m'[f].size == m[f].size;
      }
    }
  }

  /** Taking one block out of a free list takes exactly its cells out of the cover. */
  lemma MergedCover(m: Memory, m': Memory, head: int, tail: int, F: set<int>, p: int)
    requires FreeBlocksOk(m, head, tail, F) && p in F
    requires |m'| == |m| && forall a :: 0 <= a < |m| ==> m'[a].size == m[a].size
    ensures forall a :: InFree(m, F, a) <==> InFree(m', F - {p}, a) || p <= a < p + m[p].size
  {
    forall a ensures InFree(m, F, a) <==> InFree(m', F - {p}, a) || p <= a < p + m[p].size {
      if InFree(m, F, a) {
        var f :| f in F && f <= a < f + m[f].size;
        if f != p { assert f in F - {p} && m'[f].size == m[f].size; }
      }
      if InFree(m', F - {p}, a) {
        var f :| f in F - {p} && f <= a < f + m'[f].size;
        assert f in F;
      }
    }
  }
}
