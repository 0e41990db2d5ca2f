/** What a collection leaves of the graph: which blocks stay, when a reference to the interior of a block
    is left dangling, and what the old marks on slots do to the next collection. */
module Survivors {
  import opened HeapCells
  import opened Partitions
  import opened Sweeping
  import opened HeapGraph
  import opened MarkPhase
  import opened Relocation

  /** Event blocks stay, and so do the blocks whose head the roots reach; a reference to the interior of a
      block does not hold the block. */
  ghost predicate BlockStays(g: Memory, gr: Graph, roots: set<int>, b: int)
    requires SizesMatch(g, gr.blk)
  {
    b in gr.blk && (g[b].flags.event || Reachable(g, gr, roots, b))
  }

  /** A slot stays with the block it is in. */
  ghost predicate Stays(g: Memory, gr: Graph, roots: set<int>, x: int)
    requires SizesMatch(g, gr.blk)
  {
    if x in gr.blk then BlockStays(g, gr, roots, x)
    else x in gr.slots && exists b :: Inside(gr.blk, b, x) && BlockStays(g, gr, roots, b)
  }

  /** Slot c is one of the values of a block in use, or a cell that an event block relocates: an argument, a local
      variable or an entry of the evaluation stack. */
  ghost predicate Housed(g: Memory, gr: Graph, c: int)
    requires SizesMatch(g, gr.blk)
  {
    exists b :: Inside(gr.blk, b, c) && g[b].dataType != FreeBlock && Slot(g, b, c) && (g[b].flags.event || ValueOf(g, b, c))
  }

  ghost predicate AllHoused(g: Memory, gr: Graph)
    requires SizesMatch(g, gr.blk)
  {
    forall c :: c in gr.slots ==> Housed(g, gr, c)
  }

  /** The block at b keeps its place and its contents; only marks may differ. */
  ghost predicate Kept(g: Memory, blk: Blocks, m: Memory, blk': Blocks, b: int) {
    && b in blk && b in blk' && blk'[b] == blk[b]
    && (forall a {:trigger Inside(blk, b, a)} :: Inside(blk, b, a) ==>
          0 <= a < |g| == |m| && m[a] == g[a].(flags := g[a].flags.(alive := m[a].flags.alive)))
  }

  /** A collection keeps the event blocks and the blocks that the roots reach, and turns all others, and
      nothing else, into free cells. */
  ghost predicate Collected(g: Memory, gr: Graph, m: Memory, blk': Blocks, roots: set<int>)
    requires SizesMatch(g, gr.blk) && SizesMatch(m, blk')
  {
    && (forall b :: b in gr.blk && BlockStays(g, gr, roots, b) ==> Kept(g, gr.blk, m, blk', b))
    && (forall b, a {:trigger Inside(gr.blk, b, a)} :: Inside(gr.blk, b, a) ==>
          (FreeCell(m, blk', a) <==> !BlockStays(g, gr, roots, b)))
    && (forall b :: b in blk' ==> m[b].dataType == FreeBlock || BlockStays(g, gr, roots, b))
  }

  /** The marks left behind: the sweep clears those on block heads only, so a slot that was marked before, or
      that this collection has reached, carries a mark for good. */
  ghost predicate MarksLeft(g: Memory, gr: Graph, m: Memory, roots: set<int>)
    requires SizesMatch(g, gr.blk)
  {
    && (forall b :: b in gr.blk && BlockStays(g, gr, roots, b) && b < |m| ==> m[b].flags.alive == g[b].flags.event)
    && (forall c :: c in gr.slots && Stays(g, gr, roots, c) && 0 <= c < |m| ==>
          (m[c].flags.alive <==> c !in gr.dim || Reachable(g, gr, roots, c)))
  }

  /** The graph after the collection. */
  ghost function GraphLeft(g: Memory, gr: Graph, roots: set<int>, blk': Blocks): Graph
    requires SizesMatch(g, gr.blk)
  {
    Graph(blk',
          set c | c in gr.slots && Stays(g, gr, roots, c),
          set c | c in gr.dim && c in gr.slots && Stays(g, gr, roots, c) && !Reachable(g, gr, roots, c))
  }

  /** Whatever stays refers to what stays. */
  ghost predicate NothingDangles(g: Memory, gr: Graph, roots: set<int>)
    requires SizesMatch(g, gr.blk)
  {
    forall x :: Stays(g, gr, roots, x) && 0 <= x < |g| && SubOf(g[x]) != NULL ==> Stays(g, gr, roots, SubOf(g[x]))
  }

  // ---------- When the graph is sound again ----------

  /** After a collection the references of the heap are sound again exactly if nothing that stays refers to
      what does not. */
  lemma SoundAgainIff(g: Memory, gr: Graph, m: Memory, P: set<int>, blk': Blocks, roots: set<int>)
    requires GraphOk(g, gr) && AllHoused(g, gr) && Partition(P, gr.blk) && Partition(P, blk') && SizesMatch(m, blk') && |m| == |g|
    requires forall b :: b in blk' && m[b].dataType == FreeBlock ==> IsFree(m[b])
    requires Collected(g, gr, m, blk', roots) && MarksLeft(g, gr, m, roots)
    ensures GraphOk(m, GraphLeft(g, gr, roots, blk')) <==> NothingDangles(g, gr, roots)
    ensures AllHoused(m, GraphLeft(g, gr, roots, blk'))
  {
    var gr' := GraphLeft(g, gr, roots, blk');
    forall x | Stays(g, gr, roots, x) && 0 <= x < |g|
      ensures SubOf(m[x]) == SubOf(g[x]) && (Target(m, gr', SubOf(m[x])) <==> SubOf(g[x]) == NULL || Stays(g, gr, roots, SubOf(g[x])))
      ensures x in gr.blk ==> x in blk' && m[x].dataType == g[x].dataType != FreeBlock && ScanNum(m[x]) == ScanNum(g[x])
      ensures x in gr.slots ==> ScanNum(m[x]) == 0 && x !in blk'
    {
      StaysSame(g, gr, m, P, blk', roots, x);
      StaysTarget(g, gr, m, P, blk', roots, SubOf(g[x]));
    }
    if GraphOk(m, gr') {
      forall x | Stays(g, gr, roots, x) && 0 <= x < |g| && SubOf(g[x]) != NULL ensures Stays(g, gr, roots, SubOf(g[x])) {
        assert x in gr.blk || SlotOk(m, gr', x);
      }
    }
    if NothingDangles(g, gr, roots) { SoundAgain(g, gr, m, P, blk', roots); }
    forall c | c in gr'.slots ensures Housed(m, gr', c) {
      HousedLeft(g, gr, m, P, blk', roots, c);
    }
  }

  lemma SoundAgain(g: Memory, gr: Graph, m: Memory, P: set<int>, blk': Blocks, roots: set<int>)
    requires GraphOk(g, gr) && AllHoused(g, gr) && Partition(P, gr.blk) && Partition(P, blk') && SizesMatch(m, blk') && |m| == |g|
    requires forall b :: b in blk' && m[b].dataType == FreeBlock ==> IsFree(m[b])
    requires Collected(g, gr, m, blk', roots) && MarksLeft(g, gr, m, roots) && NothingDangles(g, gr, roots)
    ensures GraphOk(m, GraphLeft(g, gr, roots, blk'))
  {
    var gr' := GraphLeft(g, gr, roots, blk');
    forall b | b in blk'
      ensures Target(m, gr', SubOf(m[b])) && Leaves(m, gr', b + 1, ScanNum(m[b])) && (m[b].flags.event ==> m[b].flags.alive)
    {
      LeavesLeft(g, gr, m, P, blk', roots, b);
      if m[b].dataType != FreeBlock { assert Inside(gr.blk, b, b) && Kept(g, gr.blk, m, blk', b); }
    }
    forall c | c in gr'.slots ensures SlotOk(m, gr', c) && (!m[c].flags.alive ==> c in gr'.dim) {
      assert SlotOk(g, gr, c);
      StaysSame(g, gr, m, P, blk', roots, c);
      StaysTarget(g, gr, m, P, blk', roots, SubOf(g[c]));
    }
  }

  /** What stays has not changed. */
  lemma StaysSame(g: Memory, gr: Graph, m: Memory, P: set<int>, blk': Blocks, roots: set<int>, x: int)
    requires GraphOk(g, gr) && Partition(P, gr.blk) && Partition(P, blk') && SizesMatch(m, blk') && |m| == |g|
    requires Collected(g, gr, m, blk', roots) && Stays(g, gr, roots, x)
    ensures 0 < x < |g| && SubOf(m[x]) == SubOf(g[x]) && ScanNum(m[x]) == ScanNum(g[x]) && m[x].dataType == g[x].dataType
    ensures x in gr.blk ==> x in blk' && m[x].dataType != FreeBlock
    ensures x !in gr.blk ==> x !in blk'
  {
    var b :| Inside(gr.blk, b, x) && BlockStays(g, gr, roots, b);
    assert Kept(g, gr.blk, m, blk', b);
    assert !FreeCell(m, blk', x);
    if x in blk' { assert Inside(blk', x, x); }
  }

  lemma StaysTarget(g: Memory, gr: Graph, m: Memory, P: set<int>, blk': Blocks, roots: set<int>, t: int)
    requires GraphOk(g, gr) && Partition(P, gr.blk) && Partition(P, blk') && SizesMatch(m, blk') && |m| == |g|
    requires Collected(g, gr, m, blk', roots) && Target(g, gr, t)
    ensures Target(m, GraphLeft(g, gr, roots, blk'), t) <==> t == NULL || Stays(g, gr, roots, t)
  {
    if Stays(g, gr, roots, t) { StaysSame(g, gr, m, P, blk', roots, t); }
  }

  /** The values of a block stay with it. */
  lemma LeavesLeft(g: Memory, gr: Graph, m: Memory, P: set<int>, blk': Blocks, roots: set<int>, b: int)
    requires GraphOk(g, gr) && AllHoused(g, gr) && Partition(P, gr.blk) && Partition(P, blk') && SizesMatch(m, blk') && |m| == |g|
    requires Collected(g, gr, m, blk', roots) && NothingDangles(g, gr, roots) && b in blk'
    ensures Target(m, GraphLeft(g, gr, roots, blk'), SubOf(m[b])) && Leaves(m, GraphLeft(g, gr, roots, blk'), b + 1, ScanNum(m[b]))
  {
    var gr' := GraphLeft(g, gr, roots, blk');
    if m[b].dataType != FreeBlock {
      assert Stays(g, gr, roots, b);
      StaysSame(g, gr, m, P, blk', roots, b);
      StaysTarget(g, gr, m, P, blk', roots, SubOf(g[b]));
      forall c | b + 1 <= c < b + 1 + ScanNum(m[b]) ensures Leaf(m, gr', c) {
        assert Leaf(g, gr, c);
        ValueInside(g, gr, P, b, c);
        assert Stays(g, gr, roots, c);
        StaysSame(g, gr, m, P, blk', roots, c);
        StaysTarget(g, gr, m, P, blk', roots, SubOf(g[c]));
      }
    }
  }

  /** The values of a block lie inside it. */
  lemma ValueInside(g: Memory, gr: Graph, P: set<int>, b: int, c: int)
    requires GraphOk(g, gr) && AllHoused(g, gr) && Partition(P, gr.blk) && b in gr.blk && ValueOf(g, b, c)
    ensures Inside(gr.blk, b, c)
  {
    assert Leaf(g, gr, c);
    assert Housed(g, gr, c);
    var s :| Inside(gr.blk, s, c) && g[s].dataType != FreeBlock;
    var within := s > b && Leaf(g, gr, s);
  }

  lemma HousedLeft(g: Memory, gr: Graph, m: Memory, P: set<int>, blk': Blocks, roots: set<int>, c: int)
    requires GraphOk(g, gr) && AllHoused(g, gr) && Partition(P, gr.blk) && Partition(P, blk') && SizesMatch(m, blk') && |m| == |g|
    requires Collected(g, gr, m, blk', roots) && c in GraphLeft(g, gr, roots, blk').slots
    ensures Housed(m, GraphLeft(g, gr, roots, blk'), c)
  {
    var b :| Inside(gr.blk, b, c) && BlockStays(g, gr, roots, b);
    assert Housed(g, gr, c) && Kept(g, gr.blk, m, blk', b);
    assert Inside(gr.blk, b, b) && Inside(blk', b, c);
    StaysSame(g, gr, m, P, blk', roots, b);
    assert m[b].flags.event == g[b].flags.event && (ValueOf(g, b, c) ==> ValueOf(m, b, c));
  }

  /** The marks left are the ones a collection may start with. */
  lemma ReadyAgain(g: Memory, gr: Graph, m: Memory, P: set<int>, blk': Blocks, roots: set<int>)
    requires GraphOk(g, gr) && Partition(P, gr.blk) && SizesMatch(m, blk') && |m| == |g|
    requires Collected(g, gr, m, blk', roots) && MarksLeft(g, gr, m, roots)
    requires forall b :: b in blk' && m[b].dataType == FreeBlock ==> IsFree(m[b])
    ensures StartMarks(m, GraphLeft(g, gr, roots, blk'))
  {
    forall b | b in blk' && m[b].flags.alive ensures m[b].flags.event {
      assert Kept(g, gr.blk, m, blk', b) && Inside(gr.blk, b, b);
    }
  }

  // ---------- What stays, kind by kind ----------

  /** What stays is in use afterwards. */
  lemma KeptInUse(g: Memory, gr: Graph, m: Memory, P: set<int>, blk': Blocks, roots: set<int>, b: int)
    requires GraphOk(g, gr) && SizesMatch(m, blk') && |m| == |g| && Partition(P, gr.blk) && Collected(g, gr, m, blk', roots)
    requires BlockStays(g, gr, roots, b)
    ensures b in blk' && m[b].dataType == g[b].dataType != FreeBlock && blk'[b] == gr.blk[b]
  {
    assert Kept(g, gr.blk, m, blk', b) && Inside(gr.blk, b, b);
    assert !FreeCell(m, blk', b);
    if m[b].dataType == FreeBlock { assert Inside(blk', b, b); }
  }

  /** What a block in use, or one of its values, refers to by the head is in use. */
  lemma HeldInUse(g: Memory, gr: Graph, m: Memory, P: set<int>, blk': Blocks, roots: set<int>, b: int, c: int)
    requires GraphOk(g, gr) && SizesMatch(m, blk') && |m| == |g| && Partition(P, gr.blk) && Collected(g, gr, m, blk', roots)
    requires b in gr.blk && b in blk' && m[b].dataType != FreeBlock && !g[b].flags.event
    requires (c == b || ValueOf(g, b, c)) && SubOf(g[c]) in gr.blk
    ensures SubOf(g[c]) in blk' && m[SubOf(g[c])].dataType != FreeBlock
  {
    var t := SubOf(g[c]);
    assert Names(g, c, t) && Edge(g, gr, b, t);
    EdgeReachable(g, gr, roots, b, t);
    KeptInUse(g, gr, m, P, blk', roots, t);
  }

  /** A block in use afterwards has its old place, size and contents; all other cells are free. */
  lemma KeptUnchanged(g: Memory, gr: Graph, m: Memory, P: set<int>, blk': Blocks, roots: set<int>)
    requires GraphOk(g, gr) && SizesMatch(m, blk') && |m| == |g| && Partition(P, gr.blk) && Collected(g, gr, m, blk', roots)
    ensures forall b, a {:trigger Inside(blk', b, a)} :: Inside(blk', b, a) && m[b].dataType != FreeBlock ==>
        && b in gr.blk && gr.blk[b] == blk'[b] && g[b].dataType != FreeBlock && 0 <= a < |m| == |g|
        && m[a] == g[a].(flags := g[a].flags.(alive := m[a].flags.alive))
    ensures forall b, a {:trigger Inside(gr.blk, b, a)} :: Inside(gr.blk, b, a) ==>
        || (b in blk' && m[b].dataType != FreeBlock)
        || (!g[b].flags.event && exists f :: Inside(blk', f, a) && m[f].dataType == FreeBlock)
  {
    forall b, a {:trigger Inside(blk', b, a)} | Inside(blk', b, a) && m[b].dataType != FreeBlock
      ensures && b in gr.blk && gr.blk[b] == blk'[b] && g[b].dataType != FreeBlock && 0 <= a < |m| == |g|
        && m[a] == g[a].(flags := g[a].flags.(alive := m[a].flags.alive))
    {
      KeptInUse(g, gr, m, P, blk', roots, b);
      assert Inside(gr.blk, b, a);
    }
    forall b, a {:trigger Inside(gr.blk, b, a)} | Inside(gr.blk, b, a)
      ensures || (b in blk' && m[b].dataType != FreeBlock)
        || (!g[b].flags.event && exists f :: Inside(blk', f, a) && m[f].dataType == FreeBlock)
    {
      assert Inside(gr.blk, b, a);
      if BlockStays(g, gr, roots, b) { KeptInUse(g, gr, m, P, blk', roots, b); } else { assert FreeCell(m, blk', a); }
    }
  }

  /** What a block in use holds by the head is in use. */
  lemma ValuesKept(g: Memory, gr: Graph, m: Memory, P: set<int>, blk': Blocks, roots: set<int>)
    requires GraphOk(g, gr) && SizesMatch(m, blk') && |m| == |g| && Partition(P, gr.blk) && Collected(g, gr, m, blk', roots)
    ensures forall b, c {:trigger gr.blk[b], g[c]} ::
        && b in gr.blk && b in blk' && m[b].dataType != FreeBlock && !g[b].flags.event && b <= c < |g|
        && (|| c == b || (g[b].dataType in {Class, ValueType} && c < b + g[b].size) || (g[b].dataType == DelegateHead && c == b + 1)
               || (g[b].dataType == SzArray && g[b].word.ArrayHead? && g[b].word.fReference && c <= b + g[b].word.numOfElements)
               || (g[b].dataType == DelegateListHead && g[b].word.ListHead? && !g[b].word.weak && c <= b + g[b].word.length))
        && g[c].dataType in {Object, ByRef, ArrayByRef} && g[c].word.Pointer? && g[c].word.target in gr.blk
        ==> g[c].word.target in blk' && m[g[c].word.target].dataType != FreeBlock
  {
    forall b, c {:trigger gr.blk[b], g[c]} |
      && b in gr.blk && b in blk' && m[b].dataType != FreeBlock && !g[b].flags.event && b <= c < |g|
      && (|| c == b || (g[b].dataType in {Class, ValueType} && c < b + g[b].size) || (g[b].dataType == DelegateHead && c == b + 1)
             || (g[b].dataType == SzArray && g[b].word.ArrayHead? && g[b].word.fReference && c <= b + g[b].word.numOfElements)
             || (g[b].dataType == DelegateListHead && g[b].word.ListHead? && !g[b].word.weak && c <= b + g[b].word.length))
      && g[c].dataType in {Object, ByRef, ArrayByRef} && g[c].word.Pointer? && g[c].word.target in gr.blk
      ensures g[c].word.target in blk' && m[g[c].word.target].dataType != FreeBlock
    {
      if c > b { ValuesByKind(g, b, c); }
      HeldInUse(g, gr, m, P, blk', roots, b, c);
    }
  }

  /** What the roots hold by the head is in use. */
  lemma RootsKept(g: Memory, gr: Graph, m: Memory, P: set<int>, blk': Blocks, protectedRoots: seq<Root>,
          globalRoots: seq<Root>, pending: seq<int>)
    requires GraphOk(g, gr) && SizesMatch(m, blk') && |m| == |g| && Partition(P, gr.blk)
    requires Collected(g, gr, m, blk', PhaseRoots(g, gr, protectedRoots, globalRoots, pending))
    requires forall s :: s in gr.blk ==> 0 < s
    ensures forall r :: r in protectedRoots + globalRoots && (r.Single? || r.Force?) && r.obj in gr.blk ==>
        r.obj in blk' && m[r.obj].dataType != FreeBlock
    ensures forall r, c {:trigger r in protectedRoots + globalRoots, g[c]} ::
        && r in protectedRoots + globalRoots && r.Multiple? && r.lst != NULL && r.lst <= c < r.lst + r.num && 0 <= c < |g|
        && g[c].dataType in {Object, ByRef, ArrayByRef} && g[c].word.Pointer? && g[c].word.target in gr.blk
        ==> g[c].word.target in blk' && m[g[c].word.target].dataType != FreeBlock
  {
    forall r | r in protectedRoots + globalRoots && (r.Single? || r.Force?) && r.obj in gr.blk
      ensures r.obj in blk' && m[r.obj].dataType != FreeBlock
    {
      RootInUse(g, gr, m, P, blk', protectedRoots, globalRoots, pending, r, r.obj);
    }
    forall r, c {:trigger r in protectedRoots + globalRoots, g[c]} |
      && r in protectedRoots + globalRoots && r.Multiple? && r.lst != NULL && r.lst <= c < r.lst + r.num && 0 <= c < |g|
      && g[c].dataType in {Object, ByRef, ArrayByRef} && g[c].word.Pointer? && g[c].word.target in gr.blk
      ensures g[c].word.target in blk' && m[g[c].word.target].dataType != FreeBlock
    {
      assert Names(g, c, g[c].word.target);
      RootInUse(g, gr, m, P, blk', protectedRoots, globalRoots, pending, r, g[c].word.target);
    }
  }

  lemma RootInUse(g: Memory, gr: Graph, m: Memory, P: set<int>, blk': Blocks, protectedRoots: seq<Root>,
          globalRoots: seq<Root>, pending: seq<int>, r: Root, t: int)
    requires GraphOk(g, gr) && SizesMatch(m, blk') && |m| == |g| && Partition(P, gr.blk)
    requires Collected(g, gr, m, blk', PhaseRoots(g, gr, protectedRoots, globalRoots, pending))
    requires r in protectedRoots + globalRoots && RootOf(g, r, t) && t in gr.blk
    ensures t in blk' && m[t].dataType != FreeBlock
  {
    var roots := PhaseRoots(g, gr, protectedRoots, globalRoots, pending);
    if r in protectedRoots {
      var i :| 0 <= i < |protectedRoots| && protectedRoots[i] == r;
    } else {
      var i :| 0 <= i < |globalRoots| && globalRoots[i] == r;
    }
    RootReachable(g, gr, roots, t);
    KeptInUse(g, gr, m, P, blk', roots, t);
  }

  /** What a collection keeps, kind by kind. */
  lemma KeptByKind(g: Memory, gr: Graph, m: Memory, P: set<int>, blk': Blocks, protectedRoots: seq<Root>,
          globalRoots: seq<Root>, pending: seq<int>)
    requires GraphOk(g, gr) && SizesMatch(m, blk') && |m| == |g| && Partition(P, gr.blk)
    requires Collected(g, gr, m, blk', PhaseRoots(g, gr, protectedRoots, globalRoots, pending))
    ensures forall b, a {:trigger Inside(blk', b, a)} :: Inside(blk', b, a) && m[b].dataType != FreeBlock ==>
        && b in gr.blk && gr.blk[b] == blk'[b] && g[b].dataType != FreeBlock && 0 <= a < |m| == |g|
        && m[a] == g[a].(flags := g[a].flags.(alive := m[a].flags.alive))
    ensures forall b, a {:trigger Inside(gr.blk, b, a)} :: Inside(gr.blk, b, a) ==>
        || (b in blk' && m[b].dataType != FreeBlock)
        || (!g[b].flags.event && exists f :: Inside(blk', f, a) && m[f].dataType == FreeBlock)
    ensures forall b, c {:trigger gr.blk[b], g[c]} ::
        && b in gr.blk && b in blk' && m[b].dataType != FreeBlock && !g[b].flags.event && b <= c < |g|
        && (|| c == b || (g[b].dataType in {Class, ValueType} && c < b + g[b].size) || (g[b].dataType == DelegateHead && c == b + 1)
               || (g[b].dataType == SzArray && g[b].word.ArrayHead? && g[b].word.fReference && c <= b + g[b].word.numOfElements)
               || (g[b].dataType == DelegateListHead && g[b].word.ListHead? && !g[b].word.weak && c <= b + g[b].word.length))
        && g[c].dataType in {Object, ByRef, ArrayByRef} && g[c].word.Pointer? && g[c].word.target in gr.blk
        ==> g[c].word.target in blk' && m[g[c].word.target].dataType != FreeBlock
    ensures forall r :: r in protectedRoots + globalRoots && (r.Single? || r.Force?) && r.obj in gr.blk ==>
        r.obj in blk' && m[r.obj].dataType != FreeBlock
    ensures forall r, c {:trigger r in protectedRoots + globalRoots, g[c]} ::
        && r in protectedRoots + globalRoots && r.Multiple? && r.lst != NULL && r.lst <= c < r.lst + r.num && 0 <= c < |g|
        && g[c].dataType in {Object, ByRef, ArrayByRef} && g[c].word.Pointer? && g[c].word.target in gr.blk
        ==> g[c].word.target in blk' && m[g[c].word.target].dataType != FreeBlock
  {
    var roots := PhaseRoots(g, gr, protectedRoots, globalRoots, pending);
    KeptUnchanged(g, gr, m, P, blk', roots);
    ValuesKept(g, gr, m, P, blk', roots);
    RootsKept(g, gr, m, P, blk', protectedRoots, globalRoots, pending);
  }

  // ---------- Finalizers ----------

  /** What a collection from the given roots does to the finalizers: those that are due stay so, and those of
      objects that neither the roots nor the objects due before reach become due.  An object whose finalizer is not
      due stays, and so does one whose finalizer is. */
  ghost predicate FinalizersSorted(g: Memory, gr: Graph, globals: set<int>, alive0: seq<int>, pending0: seq<int>,
          alive: seq<int>, pending: seq<int>)
    requires SizesMatch(g, gr.blk)
  {
    && pending0 <= pending
    && Separated(ReachSet(g, gr, globals + Elements(pending0)), alive0, alive, pending[|pending0|..])
    && (forall x :: x in alive ==> BlockStays(g, gr, globals + Elements(pending), x))
  }

  /** After a collection the finalizers stand for blocks in use again. */
  lemma FinalizersStay(g: Memory, gr: Graph, m: Memory, blk': Blocks, globals: set<int>, alive0: seq<int>,
          pending0: seq<int>, alive: seq<int>, pending: seq<int>)
    requires SizesMatch(g, gr.blk) && SizesMatch(m, blk') && |m| == |g| && forall s :: s in gr.blk ==> 1 <= gr.blk[s]
    requires FinalizersOk(g, gr, alive0) && FinalizersOk(g, gr, pending0)
    requires FinalizersSorted(g, gr, globals, alive0, pending0, alive, pending)
    requires Collected(g, gr, m, blk', globals + Elements(pending))
    ensures FinalizersOk(m, GraphLeft(g, gr, globals + Elements(pending), blk'), alive)
    ensures FinalizersOk(m, GraphLeft(g, gr, globals + Elements(pending), blk'), pending)
  {
    var roots, moved := globals + Elements(pending), pending[|pending0|..];
    forall x | x in alive || x in pending ensures x in blk' && 0 < x < |m| && m[x].dataType != FreeBlock {
      SeparatedFrom(ReachSet(g, gr, globals + Elements(pending0)), alive0, alive, moved, x);
      assert x in pending ==> x in pending0 || x in moved;
      if x in pending { RootReachable(g, gr, roots, x); }
      assert Kept(g, gr.blk, m, blk', x) && Inside(gr.blk, x, x);
    }
    assert forall i :: 0 <= i < |alive| ==> alive[i] in alive;
    assert forall i :: 0 <= i < |pending| ==> pending[i] in pending;
  }

  // ---------- When a reference to the interior of a block is safe ----------

  /** Cell c belongs to an event block: a thread, or a stack frame with its arguments and locals. */
  ghost predicate EventCell(g: Memory, gr: Graph, c: int)
    requires SizesMatch(g, gr.blk)
  {
    Vertex(gr, c) && exists b :: Inside(gr.blk, b, c) && g[b].flags.event
  }

  /** The roots hold the slots of the event blocks and whatever these blocks refer to; the slots among the
      roots come from there. */
  ghost predicate EventsRooted(g: Memory, gr: Graph, roots: set<int>)
    requires SizesMatch(g, gr.blk)
  {
    && (forall r :: r in roots ==> Vertex(gr, r))
    && (forall c :: EventCell(g, gr, c) && 0 <= c < |g| ==>
          (c in gr.slots ==> c in roots) && (SubOf(g[c]) != NULL ==> SubOf(g[c]) in roots))
    && (forall r :: r in roots && r in gr.slots ==>
          EventCell(g, gr, r) || exists c :: EventCell(g, gr, c) && 0 <= c < |g| && SubOf(g[c]) == r)
  }

  /** Every slot that is reached lies in a block that stays. */
  ghost predicate OwnersStay(g: Memory, gr: Graph, roots: set<int>)
    requires SizesMatch(g, gr.blk)
  {
    forall c :: c in gr.slots && Reachable(g, gr, roots, c) ==> Stays(g, gr, roots, c)
  }

  /** A collection leaves no reference dangling exactly if the blocks that interior references lead into are
      held by their heads too. */
  lemma InteriorSafeIff(g: Memory, gr: Graph, P: set<int>, roots: set<int>)
    requires GraphOk(g, gr) && AllHoused(g, gr) && Partition(P, gr.blk) && EventsRooted(g, gr, roots)
    ensures NothingDangles(g, gr, roots) <==> OwnersStay(g, gr, roots)
  {
    if OwnersStay(g, gr, roots) {
      forall x | Stays(g, gr, roots, x) && 0 <= x < |g| && SubOf(g[x]) != NULL ensures Stays(g, gr, roots, SubOf(g[x])) {
        ReferenceReached(g, gr, P, roots, x);
      }
    }
    if NothingDangles(g, gr, roots) {
      var X := StayingClosed(g, gr, P, roots);
      forall r | r in roots ensures r in X { RootStays(g, gr, P, roots, r); }
      forall c | c in gr.slots && Reachable(g, gr, roots, c) ensures Stays(g, gr, roots, c) {
        var p :| Path(g, gr, roots, p) && p[|p| - 1] == c;
        ClosedHoldsReachable(g, gr, roots, X, p);
      }
    }
  }

  /** What a cell that stays refers to is reached. */
  lemma ReferenceReached(g: Memory, gr: Graph, P: set<int>, roots: set<int>, x: int)
    requires GraphOk(g, gr) && AllHoused(g, gr) && Partition(P, gr.blk) && EventsRooted(g, gr, roots)
    requires Stays(g, gr, roots, x) && 0 <= x < |g| && SubOf(g[x]) != NULL
    ensures Reachable(g, gr, roots, SubOf(g[x])) && Vertex(gr, SubOf(g[x]))
  {
    var y := SubOf(g[x]);
    var b := Owner(g, gr, P, roots, x);
    assert x in gr.slots ==> SlotOk(g, gr, x);
    if g[b].flags.event {
      assert EventCell(g, gr, x);
      RootReachable(g, gr, roots, y);
    } else {
      assert x != b ==> ValueOf(g, b, x) && Names(g, x, y);
      assert Edge(g, gr, b, y);
      EdgeReachable(g, gr, roots, b, y);
    }
  }

  /** The block that something that stays belongs to. */
  lemma Owner(g: Memory, gr: Graph, P: set<int>, roots: set<int>, x: int) returns (b: int)
    requires GraphOk(g, gr) && AllHoused(g, gr) && Partition(P, gr.blk) && Stays(g, gr, roots, x)
    ensures BlockStays(g, gr, roots, b) && Inside(gr.blk, b, x)
    ensures if x in gr.blk then x == b else x in gr.slots && 0 <= x < |g| && (g[b].flags.event || ValueOf(g, b, x))
  {
    if x in gr.blk {
      b := x;
    } else {
      b :| Inside(gr.blk, b, x) && BlockStays(g, gr, roots, b);
      assert Housed(g, gr, x) && SlotOk(g, gr, x);
    }
  }

  lemma RootStays(g: Memory, gr: Graph, P: set<int>, roots: set<int>, r: int)
    requires GraphOk(g, gr) && AllHoused(g, gr) && Partition(P, gr.blk) && EventsRooted(g, gr, roots)
    requires NothingDangles(g, gr, roots) && r in roots
    ensures Stays(g, gr, roots, r)
  {
    RootReachable(g, gr, roots, r);
    if r !in gr.blk && !EventCell(g, gr, r) {
      assert SlotOk(g, gr, r);
      var c :| EventCell(g, gr, c) && 0 <= c < |g| && SubOf(g[c]) == r;
      assert Stays(g, gr, roots, c);
    }
  }

  lemma StayingClosed(g: Memory, gr: Graph, P: set<int>, roots: set<int>) returns (X: set<int>)
    requires GraphOk(g, gr) && AllHoused(g, gr) && Partition(P, gr.blk) && NothingDangles(g, gr, roots)
    ensures forall x :: x in X <==> Stays(g, gr, roots, x)
    ensures Closed(g, gr, X)
  {
    X := set x | x in gr.blk.Keys + gr.slots && Stays(g, gr, roots, x);
    forall x, y | x in X && Edge(g, gr, x, y) ensures y in X {
      if x in gr.blk && y != SubOf(g[x]) {
        var c :| ValueOf(g, x, c) && Names(g, c, y);
        ValueInside(g, gr, P, x, c);
        assert Leaf(g, gr, c);
        assert Stays(g, gr, roots, c);
      }
    }
  }

  // ---------- What old marks do ----------

  /** A slot that one collection has reached is a dead end for the next: an interior reference to it is not
      followed any more, whatever it refers to by then. */
  lemma DeadEnd(g: Memory, gr: Graph, roots: set<int>, blk': Blocks, m: Memory, c: int, y: int)
    requires SizesMatch(g, gr.blk) && c in gr.slots && c !in blk'
    requires Reachable(g, gr, roots, c) || c !in gr.dim
    ensures !Edge(m, GraphLeft(g, gr, roots, blk'), c, y)
  {
  }

  /** In particular every field of a block that is kept for being reached is one from then on. */
  lemma FieldsDeadEnd(g: Memory, gr: Graph, roots: set<int>, blk': Blocks, b: int, c: int)
    requires GraphOk(g, gr) && b in gr.blk && !g[b].flags.event && BlockStays(g, gr, roots, b) && ValueOf(g, b, c)
    ensures c !in GraphLeft(g, gr, roots, blk').dim
    ensures c !in blk' ==> forall m: Memory, y :: !Edge(m, GraphLeft(g, gr, roots, blk'), c, y)
  {
    assert Leaf(g, gr, c) && Names(g, c, c);
    assert Edge(g, gr, b, c);
    EdgeReachable(g, gr, roots, b, c);
    if c !in blk' {
      forall m: Memory, y ensures !Edge(m, GraphLeft(g, gr, roots, blk'), c, y) { DeadEnd(g, gr, roots, blk', m, c, y); }
    }
  }

  /** A block that stays is an event, a root, or what some cell refers to by its head. */
  lemma HeldByHead(g: Memory, gr: Graph, roots: set<int>, b: int)
    requires GraphOk(g, gr) && BlockStays(g, gr, roots, b) && !g[b].flags.event && b !in roots
    ensures exists c :: Vertex(gr, c) && 0 <= c < |g| && SubOf(g[c]) == b
  {
    var p :| Path(g, gr, roots, p) && p[|p| - 1] == b;
    assert StepAt(g, gr, p, |p| - 1);
    var x := p[|p| - 2];
    if x in gr.blk && b != SubOf(g[x]) {
      var c :| ValueOf(g, x, c) && Names(g, c, b);
      assert Leaf(g, gr, c);
    }
  }

  // ---------- A heap that loses a block ----------

  /** A stack frame at 1 whose local variable refers to the field at 4 of the object at 3; the field refers
      to the object at 5. */
  function LosingHeap(marked: bool): Memory {
    var flags := NO_FLAGS.(alive := marked);
    [Cell(Other, NO_FLAGS, 0, Bits(0)),
     Cell(StackFrame, NO_FLAGS.(alive := true, event := true), 2, Frame(1)), Cell(ByRef, flags, 0, Pointer(4)),
     Cell(Class, NO_FLAGS, 2, Bits(0)), Cell(Object, flags, 0, Pointer(5)),
     Cell(Class, NO_FLAGS, 1, Bits(0))]
  }

  const LOSING_BLOCKS: Blocks := map[1 := 2, 3 := 2, 5 := 1]

  function LosingGraph(marked: bool): Graph {
    Graph(LOSING_BLOCKS, {2, 4}, if marked then {} else {2, 4})
  }

  ghost predicate Losing(g: Memory, gr: Graph, marked: bool) {
    && |g| == 6 && gr == LosingGraph(marked)
    && g[1].flags.event && g[1].flags.alive && g[1].dataType == StackFrame
    && (forall a {:trigger g[a]} :: 2 <= a <= 5 ==> !g[a].flags.event && g[a].flags.alive == (marked && (a == 2 || a == 4)) && g[a].dataType != FreeBlock)
    && (forall a {:trigger g[a]} :: 1 <= a <= 5 ==> SubOf(g[a]) == (if a == 2 then 4 else if a == 4 then 5 else NULL))
    && (forall a {:trigger g[a]} :: 1 <= a <= 5 ==> ScanNum(g[a]) == (if a == 3 then 1 else 0))
    && g[1].size == 2 && g[3].size == 2 && g[5].size == 1 && RelocNum(g[1]) == 1 && RelocNum(g[3]) == 1
  }

  lemma LosingCells(marked: bool)
    ensures Losing(LosingHeap(marked), LosingGraph(marked), marked)
  {
  }

  /** That heap is a sound one; its root is the local variable. */
  lemma LosingSound(g: Memory, gr: Graph, marked: bool)
    requires Losing(g, gr, marked)
    ensures GraphOk(g, gr) && StartMarks(g, gr) && RootOk(g, gr, Multiple(2, 1)) && Partition({1, 2, 3, 4, 5}, gr.blk)
  {
    assert SizesMatch(g, gr.blk);
    assert SlotOk(g, gr, 2) && SlotOk(g, gr, 4);
    forall b | b in gr.blk ensures Target(g, gr, SubOf(g[b])) && Leaves(g, gr, b + 1, ScanNum(g[b])) {
      forall c | b + 1 <= c < b + 1 + ScanNum(g[b]) ensures Leaf(g, gr, c) { assert c == 4; }
    }
    assert Partition({1, 2, 3, 4, 5}, gr.blk) by { LosingBlocks(gr.blk); }
  }

  lemma LosingBlocks(blk: Blocks)
    requires blk == LOSING_BLOCKS
    ensures Partition({1, 2, 3, 4, 5}, blk)
  {
    forall s | s in blk ensures s in {1, 3, 5} && EndOf(blk, s) == (if s == 1 then 3 else if s == 3 then 5 else 6) { }
  }

  lemma LosingRoots(g: Memory, gr: Graph, marked: bool)
    requires Losing(g, gr, marked)
    ensures RootBlocks(g, gr, [Multiple(2, 1)]) == {2, 4}
  {
    assert [Multiple(2, 1)][0] == Multiple(2, 1);
    assert Names(g, 2, 2) && Names(g, 2, 4);
    assert RootOf(g, Multiple(2, 1), 2) && RootOf(g, Multiple(2, 1), 4);
    forall b | RootOf(g, Multiple(2, 1), b) ensures b in {2, 4} { }
  }

  lemma LosingHoused(g: Memory, gr: Graph, marked: bool)
    requires Losing(g, gr, marked)
    ensures SizesMatch(g, gr.blk) && AllHoused(g, gr) && EventsRooted(g, gr, {2, 4})
  {
    assert Inside(gr.blk, 1, 2) && Inside(gr.blk, 3, 4) && ValueOf(g, 3, 4);
    assert Housed(g, gr, 2) && Housed(g, gr, 4);
    assert EventCell(g, gr, 2) && SubOf(g[2]) == 4;
    forall c | EventCell(g, gr, c) ensures c in {1, 2} { }
  }

  lemma LosingFate(g: Memory, gr: Graph, marked: bool)
    requires Losing(g, gr, marked)
    ensures GraphOk(g, gr) && SubOf(g[2]) == 4 && Inside(gr.blk, 3, 4) && Reachable(g, gr, {2, 4}, 4)
    ensures !BlockStays(g, gr, {2, 4}, 3) && !NothingDangles(g, gr, {2, 4})
    ensures BlockStays(g, gr, {2, 4}, 5) <==> !marked
  {
    var roots := {2, 4};
    LosingSound(g, gr, marked);
    LosingHoused(g, gr, marked);
    RootReachable(g, gr, roots, 4);
    var X := if marked then {2, 4} else {2, 4, 5};
    assert Closed(g, gr, X) by {
      forall x, y | x in X && Edge(g, gr, x, y) ensures y in X { }
    }
    forall b | Reachable(g, gr, roots, b) ensures b in X {
      var p :| Path(g, gr, roots, p) && p[|p| - 1] == b;
      ClosedHoldsReachable(g, gr, roots, X, p);
    }
    assert !Stays(g, gr, roots, 4) by {
      forall b | Inside(gr.blk, b, 4) ensures b == 3 { }
    }
    InteriorSafeIff(g, gr, {1, 2, 3, 4, 5}, roots);
    if !marked {
      assert Edge(g, gr, 4, 5);
      EdgeReachable(g, gr, roots, 4, 5);
    }
  }

  ghost predicate Lost(g: Memory, gr: Graph, roots: set<int>, marked: bool) {
    && GraphOk(g, gr) && AllHoused(g, gr) && StartMarks(g, gr) && EventsRooted(g, gr, roots)
    && |g| == 6 && SubOf(g[2]) == 4 && Inside(gr.blk, 3, 4) && Reachable(g, gr, roots, 4)
    && !BlockStays(g, gr, roots, 3) && !NothingDangles(g, gr, roots)
    && (BlockStays(g, gr, roots, 5) <==> !marked)
  }

  lemma LosingLost(g: Memory, gr: Graph, marked: bool)
    requires Losing(g, gr, marked)
    ensures SizesMatch(g, gr.blk) && RootsOk(g, gr, [Multiple(2, 1)])
    ensures Lost(g, gr, PhaseRoots(g, gr, [Multiple(2, 1)], [], []), marked)
  {
    LosingSound(g, gr, marked);
    LosingHoused(g, gr, marked);
    LosingRoots(g, gr, marked);
    assert PhaseRoots(g, gr, [Multiple(2, 1)], [], []) == {2, 4};
    LosingFate(g, gr, marked);
  }

  /** With the local variable as the only root, the object at 3 is lost although the variable refers into it.  The
      object at 5 is kept on the first collection; once the field at 4 carries an old mark, it is lost as well. */
  lemma BlockLost(marked: bool)
    ensures var g, gr := LosingHeap(marked), LosingGraph(marked);
      SizesMatch(g, gr.blk) && RootsOk(g, gr, [Multiple(2, 1)]) && Lost(g, gr, PhaseRoots(g, gr, [Multiple(2, 1)], [], []), marked)
  {
    LosingCells(marked);
    LosingLost(LosingHeap(marked), LosingGraph(marked), marked);
  }
}
