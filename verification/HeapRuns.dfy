/** The heap over a whole run: allocations, writes by the program, collections and compactions in any order. */
module HeapRuns {
  import opened HeapCells
  import opened FreeBlocks
  import opened Partitions
  import opened Sweeping
  import opened Extraction
  import opened HeapGraph
  import opened MarkPhase
  import opened Survivors
  import opened Relocation
  import opened RunMoves
  import opened HeapImages
  import opened CompactedHeaps
  import opened HeapSetups
  import opened Sequences

  /** The heap, with the objects that have a finalizer and those whose finalizer is due. */
  datatype Heap = Heap(m: Memory, gr: Graph, alive: seq<int>, pending: seq<int>)

  /** What every operation on the heap asks for. */
  ghost predicate Sound(P: set<int>, cs: seq<Extent>, h: Heap) {
    && HeapOk(h.m, P, cs, h.gr.blk) && RefsOk(h.m, h.gr.blk)
    && GraphOk(h.m, h.gr) && AllHoused(h.m, h.gr) && StartMarks(h.m, h.gr)
    && FinalizersOk(h.m, h.gr, h.alive) && FinalizersOk(h.m, h.gr, h.pending)
  }

  /** An operation, with what it chose or was given: an allocation in cluster k; a write of a plain cell to a
      slot; a collection from some roots; a compaction that moved the regions R; a finalizer for a new object, the
      end of the finalizers of an object, and the start of the first one that is due. */
  datatype Op =
    | Allocate(k: nat, res: int, dataType: DataType, flags: Flags, length: nat)
    | Write(c: int, cell: Cell)
    | Collect(globals: set<int>)
    | Compact(R: seq<Region>)
    | Register(obj: int)
    | Suppress(obj: int)
    | Spawn

  /** A new block refers to nothing, and its values are clear. */
  ghost predicate Clear(m: Memory, res: int, length: nat) {
    && 0 <= res < |m| && SubOf(m[res]) == NULL && RelocNum(m[res]) < length
    && (forall c {:trigger m[c]} :: res < c <= res + RelocNum(m[res]) && c < |m| ==> m[c] == ZERO_CELL)
  }

  /** The cells of a block that references may lead to: its values, and all that an event block relocates, such as
      the arguments and local variables of a stack frame. */
  ghost function SlotsOf(m: Memory, b: int): set<int>
    requires 0 <= b < |m|
  {
    set c | b < c < |m| && Slot(m, b, c) && (m[b].flags.event || ValueOf(m, b, c))
  }

  /** The operations, as the contracts of ExtractBlocks, ExecuteGarbageCollection and HeapCompact give them. */
  ghost predicate Step(P: set<int>, cs: seq<Extent>, h: Heap, op: Op, h': Heap) {
    && SizesMatch(h.m, h.gr.blk) && SizesMatch(h'.m, h'.gr.blk) && |h'.m| == |h.m|
    && match op
       case Allocate(_, _, _, _, _) => Allocated(P, cs, h, op, h') && h'.alive == h.alive && h'.pending == h.pending
       case Write(_, _) => Written(h, op, h') && h'.alive == h.alive && h'.pending == h.pending
       case Collect(globals) =>
         var roots := globals + Elements(h'.pending);
         && HeapOk(h'.m, P, cs, h'.gr.blk) && h'.gr == GraphLeft(h.m, h.gr, roots, h'.gr.blk)
         && Collected(h.m, h.gr, h'.m, h'.gr.blk, roots) && MarksLeft(h.m, h.gr, h'.m, roots)
         && FinalizersSorted(h.m, h.gr, globals, h.alive, h.pending, h'.alive, h'.pending)
       case Compact(R) =>
         && HeapOk(h'.m, P, cs, h'.gr.blk) && h'.gr == GraphMoved(h.gr, h'.gr.blk, R)
         && Compacted(h.m, h.gr.blk, h'.m, h'.gr.blk, R)
         && Relocated(R, h.alive, h'.alive) && Relocated(R, h.pending, h'.pending)
       case Register(obj) => Used(h.m, h.gr.blk, obj) && h' == h.(alive := h.alive + [obj])
       case Suppress(obj) => h' == h.(alive := Minus(h.alive, obj), pending := Minus(h.pending, obj))
       case Spawn => h.pending != [] && h' == h.(pending := h.pending[1..])
  }

  /** The references in s are mapped one by one. */
  ghost predicate Relocated(R: seq<Region>, s: seq<int>, s': seq<int>) {
    |s'| == |s| && forall i :: 0 <= i < |s| ==> s'[i] == RegionMap(R, s[i])
  }

  ghost predicate Allocated(P: set<int>, cs: seq<Extent>, h: Heap, op: Op, h': Heap)
    requires SizesMatch(h.m, h.gr.blk) && SizesMatch(h'.m, h'.gr.blk) && |h'.m| == |h.m| && op.Allocate?
  {
    && op.k < |cs| && 1 <= op.length && op.dataType != FreeBlock && op.flags.alive == op.flags.event
    && Extracted(h.m, h.gr.blk, h'.m, h'.gr.blk, cs[op.k].start, cs[op.k].end, op.res, op.dataType, op.flags, op.length)
    && ClusterOk(h'.m, P, h'.gr.blk, cs[op.k].start, cs[op.k].end)
    && OnlyCluster(h.m, h.gr.blk, h'.m, h'.gr.blk, cs[op.k].start, cs[op.k].end)
    && Clear(h'.m, op.res, op.length)
    && h'.gr.slots == h.gr.slots + SlotsOf(h'.m, op.res) && h'.gr.dim == h.gr.dim + SlotsOf(h'.m, op.res)
  }

  /** The program writes a plain value or a reference to a slot, whose mark may come with the value. */
  ghost predicate Written(h: Heap, op: Op, h': Heap)
    requires SizesMatch(h.m, h.gr.blk) && op.Write?
  {
    && op.c in h.gr.slots && 0 <= op.c < |h.m|
    && ScanNum(op.cell) == 0 && RelocNum(op.cell) == 0 && Target(h.m, h.gr, SubOf(op.cell))
    && h'.m == h.m[op.c := op.cell]
    && h'.gr == h.gr.(dim := if op.cell.flags.alive then h.gr.dim - {op.c} else h.gr.dim + {op.c})
  }

  // ---------- Allocation ----------

  /** The cells of the blocks in use do not change. */
  lemma UsedKept(P: set<int>, cs: seq<Extent>, h: Heap, op: Op, h': Heap, b: int, a: int)
    requires Sound(P, cs, h) && op.Allocate? && Step(P, cs, h, op, h')
    requires Used(h.m, h.gr.blk, b) && Inside(h.gr.blk, b, a)
    ensures 0 < a < |h.m| && h'.m[a] == h.m[a] && b in h'.gr.blk && h'.gr.blk[b] == h.gr.blk[b] && Inside(h'.gr.blk, b, a)
    ensures a in h'.gr.blk ==> a == b
  {
    var lo, hi := cs[op.k].start, cs[op.k].end;
    assert ClusterIn(h.m, P, lo, hi) && InSome(cs, a);
    assert !InFree(h.m, FreeOf(h.m, h.gr.blk, lo, hi), a) by {
      forall f | f in FreeOf(h.m, h.gr.blk, lo, hi) ensures !(f <= a < f + h.m[f].size) {
        assert f != b;
      }
    }
    assert a in P;
    if a in h'.gr.blk { assert Inside(h'.gr.blk, a, a); }
  }

  /** A block in use after an allocation is the new one, or was one before. */
  lemma UsedBefore(P: set<int>, cs: seq<Extent>, h: Heap, op: Op, h': Heap, b: int)
    requires Sound(P, cs, h) && op.Allocate? && Step(P, cs, h, op, h')
    requires Used(h'.m, h'.gr.blk, b) && b != op.res
    ensures Used(h.m, h.gr.blk, b)
  {
    UsedCarved(h.m, h.gr.blk, h'.m, h'.gr.blk, P, cs[op.k].start, cs[op.k].end, op, b);
  }

  lemma UsedCarved(m: Memory, blk: Blocks, m': Memory, blk': Blocks, P: set<int>, lo: int, hi: int, op: Op, b: int)
    requires SizesMatch(m, blk) && SizesMatch(m', blk') && |m'| == |m| && Partition(P, blk) && Partition(P, blk') && lo - 1 !in P && hi !in P
    requires op.Allocate? && Extracted(m, blk, m', blk', lo, hi, op.res, op.dataType, op.flags, op.length)
    requires OnlyCluster(m, blk, m', blk', lo, hi) && Used(m', blk', b) && b != op.res
    ensures Used(m, blk, b)
  {
    var F, F' := FreeOf(m, blk, lo, hi), FreeOf(m', blk', lo, hi);
    PayloadBlock(P, blk', lo, hi);
    assert b in blk && !InFree(m, F, b) by { UsedApart(m', blk', P, lo, hi, op.res, b); }
    assert m'[b] == m[b];
  }

  lemma UsedApart(m: Memory, blk: Blocks, P: set<int>, lo: int, hi: int, res: int, b: int)
    requires Partition(P, blk) && SizesMatch(m, blk) && Used(m, blk, b) && res in blk && b != res
    ensures !InFree(m, FreeOf(m, blk, lo, hi), b) && !(res <= b < res + blk[res])
  {
    forall f | f in FreeOf(m, blk, lo, hi) ensures !(f <= b < f + m[f].size) { }
  }

  lemma ScanWithin(c: Cell)
    ensures ScanNum(c) <= RelocNum(c)
  {
  }

  /** The block that a slot belongs to. */
  lemma House(h: Heap, c: int) returns (b: int)
    requires SizesMatch(h.m, h.gr.blk) && Housed(h.m, h.gr, c)
    ensures Used(h.m, h.gr.blk, b) && Inside(h.gr.blk, b, c) && Inside(h.gr.blk, b, b) && Slot(h.m, b, c)
    ensures h.m[b].flags.event || ValueOf(h.m, b, c)
  {
    b :| Inside(h.gr.blk, b, c) && h.m[b].dataType != FreeBlock && Slot(h.m, b, c) && (h.m[b].flags.event || ValueOf(h.m, b, c));
  }

  /** The slots of the old blocks, after an allocation. */
  lemma OldHoused(P: set<int>, cs: seq<Extent>, h: Heap, op: Op, h': Heap, c: int) returns (b: int)
    requires Sound(P, cs, h) && op.Allocate? && Step(P, cs, h, op, h') && c in h.gr.slots
    ensures 0 < c < |h'.m| && h'.m[c] == h.m[c] && c !in h'.gr.blk && Housed(h'.m, h'.gr, c)
    ensures Used(h.m, h.gr.blk, b) && b in h'.gr.blk && Inside(h'.gr.blk, b, c)
  {
    assert c !in h.gr.blk by { assert SlotOk(h.m, h.gr, c); }
    b := House(h, c);
    UsedKept(P, cs, h, op, h', b, c);
    UsedKept(P, cs, h, op, h', b, b);
  }

  lemma OldSlot(P: set<int>, cs: seq<Extent>, h: Heap, op: Op, h': Heap, c: int)
    requires Sound(P, cs, h) && op.Allocate? && Step(P, cs, h, op, h') && c in h.gr.slots
    ensures 0 < c < |h'.m| && h'.m[c] == h.m[c] && SlotOk(h'.m, h'.gr, c) && Housed(h'.m, h'.gr, c)
    ensures c !in SlotsOf(h'.m, op.res)
  {
    var b := OldHoused(P, cs, h, op, h', c);
    assert Target(h'.m, h'.gr, SubOf(h'.m[c])) && ScanNum(h'.m[c]) == 0 by {
      assert SlotOk(h.m, h.gr, c);
      OldTarget(P, cs, h, op, h', SubOf(h.m[c]));
    }
    assert b != op.res by { NewIsNew(P, cs, h, op, h'); }
    NotValue(h'.m, h'.gr.blk, P, op.res, op.length, b, c);
  }

  /** What lies in another block is no value of the block at res. */
  lemma NotValue(m: Memory, blk: Blocks, P: set<int>, res: int, length: nat, b: int, c: int)
    requires Partition(P, blk) && res in blk && blk[res] == length && Clear(m, res, length) && b != res && Inside(blk, b, c)
    ensures c !in SlotsOf(m, res)
  {
    ScanWithin(m[res]);
    assert !Inside(blk, res, c);
  }

  lemma NewIsNew(P: set<int>, cs: seq<Extent>, h: Heap, op: Op, h': Heap)
    requires Sound(P, cs, h) && op.Allocate? && Step(P, cs, h, op, h')
    ensures !Used(h.m, h.gr.blk, op.res)
  {
    var lo, hi := cs[op.k].start, cs[op.k].end;
    assert InFree(h.m, FreeOf(h.m, h.gr.blk, lo, hi), op.res);
    FreeNotUsed(h.m, h.gr.blk, P, lo, hi, op.res);
  }

  lemma FreeNotUsed(m: Memory, blk: Blocks, P: set<int>, lo: int, hi: int, a: int)
    requires Partition(P, blk) && SizesMatch(m, blk) && InFree(m, FreeOf(m, blk, lo, hi), a)
    ensures !Used(m, blk, a)
  {
    var f :| f in FreeOf(m, blk, lo, hi) && f <= a < f + m[f].size;
  }

  lemma OldTarget(P: set<int>, cs: seq<Extent>, h: Heap, op: Op, h': Heap, t: int)
    requires Sound(P, cs, h) && op.Allocate? && Step(P, cs, h, op, h') && Target(h.m, h.gr, t)
    ensures Target(h'.m, h'.gr, t)
  {
    if Used(h.m, h.gr.blk, t) {
      assert Inside(h.gr.blk, t, t);
      UsedKept(P, cs, h, op, h', t, t);
    }
  }

  /** The values of the new block. */
  lemma NewSlot(m: Memory, gr: Graph, P: set<int>, res: int, length: nat, c: int)
    requires Partition(P, gr.blk) && SizesMatch(m, gr.blk) && Used(m, gr.blk, res) && gr.blk[res] == length
    requires Clear(m, res, length) && c in SlotsOf(m, res)
    ensures 0 < c < |m| && m[c] == ZERO_CELL && SlotOk(m, gr, c) && Housed(m, gr, c)
  {
    ScanWithin(m[res]);
    assert Inside(gr.blk, res, c);
    var head := Inside(gr.blk, c, c);
  }

  /** A block is in order: what it refers to and its values are, and it holds what is relocated with it. */
  ghost predicate BlockOk(m: Memory, gr: Graph, b: int)
    requires SizesMatch(m, gr.blk) && b in gr.blk
  {
    && Target(m, gr, SubOf(m[b])) && Leaves(m, gr, b + 1, ScanNum(m[b])) && m[b].flags.event == m[b].flags.alive
    && RelocNum(m[b]) < gr.blk[b]
    && (forall a {:trigger Inside(gr.blk, b, a)} :: Inside(gr.blk, b, a) && b < a && Slot(m, b, a) && a < |m| ==> RelocNum(m[a]) == 0)
  }

  lemma NewBlock(m: Memory, gr: Graph, P: set<int>, res: int, length: nat)
    requires Partition(P, gr.blk) && SizesMatch(m, gr.blk) && Used(m, gr.blk, res) && gr.blk[res] == length
    requires Clear(m, res, length) && SlotsOf(m, res) <= gr.slots && m[res].flags.alive == m[res].flags.event && res + length <= |m|
    ensures BlockOk(m, gr, res)
  {
    ScanWithin(m[res]);
    forall c | res + 1 <= c < res + 1 + ScanNum(m[res]) ensures Leaf(m, gr, c) {
      assert ValueOf(m, res, c);
      NewSlot(m, gr, P, res, length, c);
    }
  }

  lemma OldBlock(P: set<int>, cs: seq<Extent>, h: Heap, op: Op, h': Heap, b: int)
    requires Sound(P, cs, h) && op.Allocate? && Step(P, cs, h, op, h') && Used(h.m, h.gr.blk, b)
    ensures b in h'.gr.blk && BlockOk(h'.m, h'.gr, b)
  {
    assert Inside(h.gr.blk, b, b);
    UsedKept(P, cs, h, op, h', b, b);
    OldTarget(P, cs, h, op, h', SubOf(h.m[b]));
    assert Leaves(h'.m, h'.gr, b + 1, ScanNum(h'.m[b])) by {
      forall c | b + 1 <= c < b + 1 + ScanNum(h'.m[b]) ensures Leaf(h'.m, h'.gr, c) {
        assert Leaf(h.m, h.gr, c);
        OldSlot(P, cs, h, op, h', c);
      }
    }
    forall a | Inside(h'.gr.blk, b, a) && b < a && Slot(h'.m, b, a) && a < |h'.m| ensures RelocNum(h'.m[a]) == 0 {
      assert Inside(h.gr.blk, b, a);
      UsedKept(P, cs, h, op, h', b, a);
    }
  }

  /** Every block after an allocation. */
  lemma BlockAllocated(P: set<int>, cs: seq<Extent>, h: Heap, op: Op, h': Heap, b: int)
    requires Sound(P, cs, h) && op.Allocate? && Step(P, cs, h, op, h') && b in h'.gr.blk
    requires HeapShape(h'.m, P, h'.gr.blk)
    ensures BlockOk(h'.m, h'.gr, b)
  {
    if b == op.res {
      NewBlock(h'.m, h'.gr, P, op.res, op.length);
    } else if Used(h'.m, h'.gr.blk, b) {
      UsedBefore(P, cs, h, op, h', b);
      OldBlock(P, cs, h, op, h', b);
    } else {
      FreeBlockOk(h'.m, h'.gr, P, b);
    }
  }

  lemma FreeBlockOk(m: Memory, gr: Graph, P: set<int>, b: int)
    requires HeapShape(m, P, gr.blk) && b in gr.blk && m[b].dataType == FreeBlock
    ensures BlockOk(m, gr, b)
  {
  }

  /** Blocks and slots in order make a sound heap. */
  lemma SoundParts(P: set<int>, cs: seq<Extent>, h: Heap)
    requires HeapOk(h.m, P, cs, h.gr.blk) && h.gr.dim <= h.gr.slots
    requires forall b :: b in h.gr.blk ==> BlockOk(h.m, h.gr, b)
    requires forall c :: c in h.gr.slots ==> SlotOk(h.m, h.gr, c) && Housed(h.m, h.gr, c) && (!h.m[c].flags.alive <==> c in h.gr.dim)
    requires FinalizersOk(h.m, h.gr, h.alive) && FinalizersOk(h.m, h.gr, h.pending)
    ensures Sound(P, cs, h)
  {
    assert RefsOk(h.m, h.gr.blk) by {
      forall b, a | Inside(h.gr.blk, b, a) && b < a && Slot(h.m, b, a) && a < |h.m| ensures RelocNum(h.m[a]) == 0 {
        assert BlockOk(h.m, h.gr, b);
      }
    }
  }

  lemma FinalizersAllocated(P: set<int>, cs: seq<Extent>, h: Heap, op: Op, h': Heap, fins: seq<int>)
    requires Sound(P, cs, h) && op.Allocate? && Step(P, cs, h, op, h') && FinalizersOk(h.m, h.gr, fins)
    ensures FinalizersOk(h'.m, h'.gr, fins)
  {
    forall i | 0 <= i < |fins| ensures fins[i] in h'.gr.blk && 0 < fins[i] < |h'.m| && h'.m[fins[i]].dataType != FreeBlock {
      assert Used(h.m, h.gr.blk, fins[i]) && Inside(h.gr.blk, fins[i], fins[i]);
      UsedKept(P, cs, h, op, h', fins[i], fins[i]);
    }
  }

  lemma AllocateSound(P: set<int>, cs: seq<Extent>, h: Heap, op: Op, h': Heap)
    requires Sound(P, cs, h) && op.Allocate? && Step(P, cs, h, op, h')
    ensures Sound(P, cs, h')
  {
    ClusterChanged(h.m, h.gr.blk, h'.m, h'.gr.blk, P, cs, op.k);
    forall c | c in h'.gr.slots
      ensures SlotOk(h'.m, h'.gr, c) && Housed(h'.m, h'.gr, c) && (!h'.m[c].flags.alive <==> c in h'.gr.dim)
    {
      if c in h.gr.slots { OldSlot(P, cs, h, op, h', c); } else { NewSlot(h'.m, h'.gr, P, op.res, op.length, c); }
    }
    forall b | b in h'.gr.blk ensures BlockOk(h'.m, h'.gr, b) {
      BlockAllocated(P, cs, h, op, h', b);
    }
    FinalizersAllocated(P, cs, h, op, h', h.alive);
    FinalizersAllocated(P, cs, h, op, h', h.pending);
    SoundParts(P, cs, h');
  }

  // ---------- Writes ----------

  lemma WriteSound(P: set<int>, cs: seq<Extent>, h: Heap, op: Op, h': Heap)
    requires Sound(P, cs, h) && op.Write? && Step(P, cs, h, op, h')
    ensures Sound(P, cs, h')
  {
    assert op.c in P && op.c !in h.gr.blk by {
      var b := House(h, op.c);
      assert SlotOk(h.m, h.gr, op.c);
    }
    WriteKeepsHeap(P, cs, h.m, h'.m, h.gr.blk, op.c);
    forall t | Target(h.m, h.gr, t) ensures Target(h'.m, h'.gr, t) { }
    forall c | c in h'.gr.slots
      ensures SlotOk(h'.m, h'.gr, c) && Housed(h'.m, h'.gr, c) && (!h'.m[c].flags.alive <==> c in h'.gr.dim)
    {
      assert SlotOk(h.m, h.gr, c);
      var b := House(h, c);
      assert h'.m[b] == h.m[b];
    }
    forall b | b in h'.gr.blk ensures BlockOk(h'.m, h'.gr, b) {
      assert h'.m[b] == h.m[b];
      forall c | b + 1 <= c < b + 1 + ScanNum(h'.m[b]) ensures Leaf(h'.m, h'.gr, c) {
        assert Leaf(h.m, h.gr, c);
      }
    }
    SoundParts(P, cs, h');
  }

  /** A write to a cell that is no block does not touch the free lists. */
  lemma WriteKeepsHeap(P: set<int>, cs: seq<Extent>, m: Memory, m': Memory, blk: Blocks, c: int)
    requires HeapOk(m, P, cs, blk) && c in P && c !in blk && 0 <= c < |m| == |m'| && m' == m[c := m'[c]]
    ensures HeapOk(m', P, cs, blk)
  {
    forall k | 0 <= k < |cs| ensures FreeListOk(m', cs[k].start - 1, cs[k].end, FreeOf(m', blk, cs[k].start, cs[k].end)) {
      assert ClusterIn(m, P, cs[k].start, cs[k].end);
      var F := FreeOf(m, blk, cs[k].start, cs[k].end);
      assert FreeOf(m', blk, cs[k].start, cs[k].end) == F;
      FreeBlocksFrame(m, m', cs[k].start - 1, cs[k].end, F);
      LinkedFrame(m, m', cs[k].start - 1, cs[k].end, F);
    }
    forall k | 0 <= k < |cs| ensures ClusterIn(m', P, cs[k].start, cs[k].end) {
      assert ClusterIn(m, P, cs[k].start, cs[k].end);
    }
  }

  // ---------- Collections ----------

  lemma CollectSoundIff(P: set<int>, cs: seq<Extent>, h: Heap, op: Op, h': Heap)
    requires Sound(P, cs, h) && op.Collect? && Step(P, cs, h, op, h')
    ensures Sound(P, cs, h') <==> NothingDangles(h.m, h.gr, op.globals + Elements(h'.pending))
  {
    var roots := op.globals + Elements(h'.pending);
    SoundAgainIff(h.m, h.gr, h'.m, P, h'.gr.blk, roots);
    ReadyAgain(h.m, h.gr, h'.m, P, h'.gr.blk, roots);
    CollectRefs(P, h, h', roots);
    FinalizersStay(h.m, h.gr, h'.m, h'.gr.blk, op.globals, h.alive, h.pending, h'.alive, h'.pending);
  }

  /** What stays still holds what is relocated with it. */
  lemma CollectRefs(P: set<int>, h: Heap, h': Heap, roots: set<int>)
    requires SizesMatch(h.m, h.gr.blk) && RefsOk(h.m, h.gr.blk) && HeapShape(h'.m, P, h'.gr.blk) && Partition(P, h.gr.blk)
    requires Collected(h.m, h.gr, h'.m, h'.gr.blk, roots)
    ensures RefsOk(h'.m, h'.gr.blk)
  {
    forall b | b in h'.gr.blk
      ensures RelocNum(h'.m[b]) < h'.gr.blk[b]
      ensures forall a {:trigger Inside(h'.gr.blk, b, a)} :: Inside(h'.gr.blk, b, a) && b < a && Slot(h'.m, b, a) && a < |h'.m| ==> RelocNum(h'.m[a]) == 0
    {
      if h'.m[b].dataType != FreeBlock {
        assert Kept(h.m, h.gr.blk, h'.m, h'.gr.blk, b) && Inside(h.gr.blk, b, b);
        forall a | Inside(h'.gr.blk, b, a) && b < a && Slot(h'.m, b, a) && a < |h'.m| ensures RelocNum(h'.m[a]) == 0 {
          assert Inside(h.gr.blk, b, a) && Slot(h.m, b, a);
        }
      }
    }
  }

  // ---------- Compactions ----------

  lemma CompactSound(P: set<int>, cs: seq<Extent>, h: Heap, op: Op, h': Heap)
    requires Sound(P, cs, h) && op.Compact? && Step(P, cs, h, op, h')
    ensures Sound(P, cs, h')
  {
    HousedMovable(h);
    MovedSound(h.m, h.gr, h'.m, h'.gr.blk, P, op.R);
    forall b | b in h'.gr.blk && h'.m[b].flags.alive ensures h'.m[b].flags.event {
      if Used(h'.m, h'.gr.blk, b) {
        var x := LiveBefore(h.m, h.gr, h'.m, h'.gr.blk, op.R, b);
        LiveAfter(h.m, h.gr, h'.m, h'.gr.blk, P, op.R, x);
      }
    }
    forall d | d in h'.gr.dim && 0 <= d < |h'.m| ensures !h'.m[d].flags.alive {
      var c :| c in h.gr.dim && RegionMap(op.R, c) == d;
      LiveAfter(h.m, h.gr, h'.m, h'.gr.blk, P, op.R, c);
    }
    forall d | d in h'.gr.slots ensures Housed(h'.m, h'.gr, d) {
      var c :| c in h.gr.slots && RegionMap(op.R, c) == d;
      HousedMoved(P, h, h', op.R, c);
    }
    FinalizersMoved(P, h, h', op.R, h.alive, h'.alive);
    FinalizersMoved(P, h, h', op.R, h.pending, h'.pending);
  }

  lemma FinalizersMoved(P: set<int>, h: Heap, h': Heap, R: seq<Region>, fins: seq<int>, fins': seq<int>)
    requires Relocatable(h.m, h.gr) && Partition(P, h.gr.blk) && Partition(P, h'.gr.blk)
    requires Compacted(h.m, h.gr.blk, h'.m, h'.gr.blk, R) && h'.gr == GraphMoved(h.gr, h'.gr.blk, R)
    requires FinalizersOk(h.m, h.gr, fins) && Relocated(R, fins, fins')
    ensures FinalizersOk(h'.m, h'.gr, fins')
  {
    forall i | 0 <= i < |fins'| ensures fins'[i] in h'.gr.blk && 0 < fins'[i] < |h'.m| && h'.m[fins'[i]].dataType != FreeBlock {
      assert Live(h.m, h.gr, fins[i]);
      LiveAfter(h.m, h.gr, h'.m, h'.gr.blk, P, R, fins[i]);
    }
  }

  lemma HousedMovable(h: Heap)
    requires SizesMatch(h.m, h.gr.blk) && GraphOk(h.m, h.gr) && RefsOk(h.m, h.gr.blk) && AllHoused(h.m, h.gr)
    ensures Relocatable(h.m, h.gr)
  {
    forall c | c in h.gr.slots ensures Anchored(h.m, h.gr.blk, c) {
      var b := House(h, c);
    }
  }

  lemma HousedMoved(P: set<int>, h: Heap, h': Heap, R: seq<Region>, c: int)
    requires Relocatable(h.m, h.gr) && Compacted(h.m, h.gr.blk, h'.m, h'.gr.blk, R) && Housed(h.m, h.gr, c)
    ensures Housed(h'.m, h'.gr, RegionMap(R, c))
  {
    var b := House(h, c);
    SlotAfter(h.m, h.gr.blk, h'.m, h'.gr.blk, R, b, b);
    SlotAfter(h.m, h.gr.blk, h'.m, h'.gr.blk, R, b, c);
    assert h'.m[RegionMap(R, b)].dataType == h.m[b].dataType && RelocNum(h'.m[RegionMap(R, b)]) == RelocNum(h.m[b]);
  }

  // ---------- Runs ----------

  /** The operation leaves nothing dangling. */
  ghost predicate Careful(h: Heap, op: Op, h': Heap) {
    op.Collect? ==> SizesMatch(h.m, h.gr.blk) && NothingDangles(h.m, h.gr, op.globals + Elements(h'.pending))
  }

  /** One operation keeps the heap sound, exactly if it is not a collection that leaves a reference dangling. */
  lemma StepSoundIff(P: set<int>, cs: seq<Extent>, h: Heap, op: Op, h': Heap)
    requires Sound(P, cs, h) && Step(P, cs, h, op, h')
    ensures Sound(P, cs, h') <==> Careful(h, op, h')
  {
    match op
    case Allocate(_, _, _, _, _) => AllocateSound(P, cs, h, op, h');
    case Write(_, _) => WriteSound(P, cs, h, op, h');
    case Collect(_) => CollectSoundIff(P, cs, h, op, h');
    case Compact(_) => CompactSound(P, cs, h, op, h');
    case _ => FinalizersChanged(h, op, h');
  }

  /** The operations on finalizers leave them standing for blocks in use. */
  lemma FinalizersChanged(h: Heap, op: Op, h': Heap)
    requires FinalizersOk(h.m, h.gr, h.alive) && FinalizersOk(h.m, h.gr, h.pending) && h'.m == h.m && h'.gr == h.gr && SizesMatch(h.m, h.gr.blk)
    requires match op
      case Register(obj) => Used(h.m, h.gr.blk, obj) && h' == h.(alive := h.alive + [obj])
      case Suppress(obj) => h' == h.(alive := Minus(h.alive, obj), pending := Minus(h.pending, obj))
      case Spawn => h.pending != [] && h' == h.(pending := h.pending[1..])
      case _ => false
    ensures FinalizersOk(h'.m, h'.gr, h'.alive) && FinalizersOk(h'.m, h'.gr, h'.pending)
  {
    if op.Suppress? {
      MinusFrom(h.alive, op.obj);
      MinusFrom(h.pending, op.obj);
    }
    forall i | 0 <= i < |h'.alive| ensures h'.alive[i] in h.alive || Used(h.m, h.gr.blk, h'.alive[i]) { }
    forall i | 0 <= i < |h'.pending| ensures h'.pending[i] in h.pending { }
  }

  /** A run of operations: the heap before each of them, and after the last. */
  ghost predicate Run(P: set<int>, cs: seq<Extent>, hs: seq<Heap>, ops: seq<Op>) {
    |hs| == |ops| + 1 && forall i :: 0 <= i < |ops| ==> Step(P, cs, hs[i], ops[i], hs[i + 1])
  }

  /** The first n heaps after the start are sound. */
  ghost predicate SoundUpTo(P: set<int>, cs: seq<Extent>, hs: seq<Heap>, n: nat)
    requires n < |hs|
  {
    forall i :: 0 <= i <= n ==> Sound(P, cs, hs[i])
  }

  ghost predicate CarefulUpTo(hs: seq<Heap>, ops: seq<Op>, n: nat)
    requires n <= |ops| < |hs|
  {
    forall i :: 0 <= i < n ==> Careful(hs[i], ops[i], hs[i + 1])
  }

  /** Over a whole run the heap stays sound exactly if every collection in it leaves nothing dangling. */
  lemma {:induction false} RunSoundIff(P: set<int>, cs: seq<Extent>, hs: seq<Heap>, ops: seq<Op>, n: nat)
    requires Run(P, cs, hs, ops) && Sound(P, cs, hs[0]) && n <= |ops|
    ensures SoundUpTo(P, cs, hs, n) <==> CarefulUpTo(hs, ops, n)
  {
    if n > 0 {
      RunSoundIff(P, cs, hs, ops, n - 1);
      OneMore(P, cs, hs, ops, n);
      if SoundUpTo(P, cs, hs, n - 1) {
        assert Sound(P, cs, hs[n - 1]) && Step(P, cs, hs[n - 1], ops[n - 1], hs[n - 1 + 1]);
        StepSoundIff(P, cs, hs[n - 1], ops[n - 1], hs[n]);
      }
    }
  }

  lemma OneMore(P: set<int>, cs: seq<Extent>, hs: seq<Heap>, ops: seq<Op>, n: nat)
    requires 0 < n <= |ops| < |hs|
    ensures SoundUpTo(P, cs, hs, n) <==> SoundUpTo(P, cs, hs, n - 1) && Sound(P, cs, hs[n])
    ensures CarefulUpTo(hs, ops, n) <==> CarefulUpTo(hs, ops, n - 1) && Careful(hs[n - 1], ops[n - 1], hs[n])
  {
    if CarefulUpTo(hs, ops, n) {
      assert Careful(hs[n - 1], ops[n - 1], hs[n - 1 + 1]);
    }
    if CarefulUpTo(hs, ops, n - 1) && Careful(hs[n - 1], ops[n - 1], hs[n]) {
      forall i | 0 <= i < n ensures Careful(hs[i], ops[i], hs[i + 1]) { }
    }
  }

  // ---------- The start ----------

  /** A heap that has just been set up: nothing is in use. */
  ghost function Start(m: Memory, blk: Blocks): Heap { Heap(m, Graph(blk, {}, {}), [], []) }

  lemma StartSound(P: set<int>, cs: seq<Extent>, m: Memory, blk: Blocks)
    requires SetUp(m, P, cs, blk)
    ensures Sound(P, cs, Start(m, blk))
  {
    forall b | b in blk ensures BlockOk(m, Graph(blk, {}, {}), b) {
      FreeBlockOk(m, Graph(blk, {}, {}), P, b);
    }
    SoundParts(P, cs, Start(m, blk));
  }

  /** From the start on the heap is sound for as long as no collection has left a reference dangling. */
  lemma RunFromStart(P: set<int>, cs: seq<Extent>, m: Memory, blk: Blocks, hs: seq<Heap>, ops: seq<Op>, n: nat)
    requires SetUp(m, P, cs, blk) && Run(P, cs, hs, ops) && hs[0] == Start(m, blk) && n <= |ops|
    ensures SoundUpTo(P, cs, hs, n) <==> CarefulUpTo(hs, ops, n)
  {
    StartSound(P, cs, m, blk);
    RunSoundIff(P, cs, hs, ops, n);
  }

  // ---------- No finalizer is lost ----------

  function Times(s: seq<int>, x: int): nat { if x in s then 1 else 0 }

  /** How many finalizers an operation adds, less how many it takes off. */
  function Balance(h: Heap, op: Op): int {
    match op
    case Register(_) => 1
    case Suppress(obj) => 0 - Times(h.alive, obj) - Times(h.pending, obj)
    case Spawn => -1
    case _ => 0
  }

  function TotalBalance(hs: seq<Heap>, ops: seq<Op>, n: nat): int
    requires n <= |ops| <= |hs|
  {
    if n == 0 then 0 else TotalBalance(hs, ops, n - 1) + Balance(hs[n - 1], ops[n - 1])
  }

  lemma StepBalance(P: set<int>, cs: seq<Extent>, h: Heap, op: Op, h': Heap)
    requires Step(P, cs, h, op, h')
    ensures |h'.alive| + |h'.pending| == |h.alive| + |h.pending| + Balance(h, op)
  {
    match op
    case Collect(globals) =>
      var moved := h'.pending[|h.pending|..];
      assert |multiset(h'.alive)| + |multiset(moved)| == |multiset(h'.alive) + multiset(moved)| == |multiset(h.alive)|;
    case Suppress(obj) =>
      MinusFrom(h.alive, obj);
      MinusFrom(h.pending, obj);
    case _ =>
  }

  ghost predicate Balanced(hs: seq<Heap>, ops: seq<Op>, i: nat)
    requires i < |ops| && |hs| == |ops| + 1
  {
    |hs[i + 1].alive| + |hs[i + 1].pending| == |hs[i].alive| + |hs[i].pending| + Balance(hs[i], ops[i])
  }

  lemma BalanceAt(P: set<int>, cs: seq<Extent>, hs: seq<Heap>, ops: seq<Op>, i: nat)
    requires Run(P, cs, hs, ops) && i < |ops|
    ensures Balanced(hs, ops, i)
  {
    StepBalance(P, cs, hs[i], ops[i], hs[i + 1]);
  }

  lemma {:induction false} BalanceSum(hs: seq<Heap>, ops: seq<Op>, n: nat)
    requires |hs| == |ops| + 1 && n <= |ops| && forall i :: 0 <= i < n ==> Balanced(hs, ops, i)
    ensures |hs[n].alive| + |hs[n].pending| == |hs[0].alive| + |hs[0].pending| + TotalBalance(hs, ops, n)
  {
    if n > 0 {
      BalanceSum(hs, ops, n - 1);
      assert Balanced(hs, ops, n - 1);
    }
  }

  /** Over a whole run, finalizers come only by registration, and go only when they are started or suppressed. */
  lemma RunBalance(P: set<int>, cs: seq<Extent>, hs: seq<Heap>, ops: seq<Op>, n: nat)
    requires Run(P, cs, hs, ops) && n <= |ops|
    ensures |hs[n].alive| + |hs[n].pending| == |hs[0].alive| + |hs[0].pending| + TotalBalance(hs, ops, n)
  {
    forall i | 0 <= i < n ensures Balanced(hs, ops, i) { BalanceAt(P, cs, hs, ops, i); }
    BalanceSum(hs, ops, n);
  }
}
