/** Relocation regions: how a run of moved cells maps old addresses to new ones, and what it means to
    rewrite the references of a heap by such a map. */
module Relocation {
  import opened HeapCells
  import opened Partitions
  import opened Sweeping

  /** The cells [start, end) were moved to destination; offset is destination - start. */
  datatype Region = Region(start: int, end: int, destination: int, offset: int)

  ghost predicate Holds(R: seq<Region>, i: int, a: int) {
    0 <= i < |R| && R[i].start <= a < R[i].end
  }

  /** The map that a table of regions stands for, read off by a linear scan. */
  function RegionMap(R: seq<Region>, a: int): int {
    if R == [] then a
    else if R[|R| - 1].start <= a < R[|R| - 1].end then a + R[|R| - 1].offset
    else RegionMap(R[..|R| - 1], a)
  }

  /** The regions are non-empty, sorted by source and disjoint, and move cells to lower addresses. */
  ghost predicate RegionsOk(R: seq<Region>) {
    && (forall i :: 0 <= i < |R| ==> R[i].start < R[i].end && R[i].offset < 0 && 0 < R[i].destination == R[i].start + R[i].offset)
    && (forall i, j :: 0 <= i < j < |R| ==> R[i].end <= R[j].start)
  }

  lemma {:induction false} MapIn(R: seq<Region>, i: int, a: int)
    requires RegionsOk(R) && Holds(R, i, a)
    ensures RegionMap(R, a) == a + R[i].offset
    decreases |R|
  {
    if i < |R| - 1 {
      assert R[i].end <= R[|R| - 1].start;
      MapIn(R[..|R| - 1], i, a);
    }
  }

  lemma {:induction false} MapOut(R: seq<Region>, a: int)
    requires forall i :: !Holds(R, i, a)
    ensures RegionMap(R, a) == a
  {
    if R != [] {
      var S := R[..|R| - 1];
      assert !Holds(R, |R| - 1, a);
      forall i ensures !Holds(S, i, a) {
        assert !Holds(R, i, a);
      }
      MapOut(S, a);
    }
  }

  /** An address is either moved by one region or stays. */
  lemma MapCases(R: seq<Region>, a: int) returns (i: int)
    requires RegionsOk(R)
    ensures -1 <= i < |R|
    ensures if i < 0 then RegionMap(R, a) == a && (forall j :: !Holds(R, j, a))
            else Holds(R, i, a) && RegionMap(R, a) == a + R[i].offset
  {
    if j :| Holds(R, j, a) {
      MapIn(R, j, a);
      i := j;
    } else {
      MapOut(R, a);
      i := -1;
    }
  }

  /** A slice of a table maps the addresses in its own regions as the table does. */
  lemma MapSlice(R: seq<Region>, lo: nat, hi: nat, a: int)
    requires RegionsOk(R) && lo <= hi <= |R|
    ensures RegionsOk(R[lo..hi])
    ensures (exists i :: lo <= i < hi && Holds(R, i, a)) ==> RegionMap(R[lo..hi], a) == RegionMap(R, a)
    ensures (forall i :: lo <= i < hi ==> !Holds(R, i, a)) ==> RegionMap(R[lo..hi], a) == a
  {
    var S := R[lo..hi];
    if i :| lo <= i < hi && Holds(R, i, a) {
      assert S[i - lo] == R[i];
      MapIn(R, i, a);
      MapIn(S, i - lo, a);
    } else {
      forall j ensures !Holds(S, j, a) {
        assert 0 <= j < |S| ==> S[j] == R[j + lo] && !Holds(R, j + lo, a);
      }
      MapOut(S, a);
    }
  }

  /** Relocating by the regions of a first batch and then by those of a second one is relocating by all
      of them: no address is moved twice. */
  lemma MapSplit(R: seq<Region>, k: nat, a: int)
    requires RegionsOk(R) && k <= |R|
    ensures RegionMap(R[k..], RegionMap(R[..k], a)) == RegionMap(R, a)
  {
    var i := MapCases(R, a);
    MapSlice(R, 0, k, a);
    MapSlice(R, k, |R|, a);
    assert R[0..k] == R[..k] && R[k..|R|] == R[k..];
    if 0 <= i < k {
      MovedBelow(R, i, a);
      MapSlice(R, k, |R|, a + R[i].offset);
    } else {
      forall j | 0 <= j < k ensures !Holds(R, j, a) {
        assert i >= 0 ==> R[j].end <= R[i].start;
      }
    }
  }

  /** The new address of a moved cell lies below all later regions. */
  lemma MovedBelow(R: seq<Region>, i: int, a: int)
    requires RegionsOk(R) && Holds(R, i, a)
    ensures forall j :: i < j < |R| ==> a + R[i].offset < R[j].start
  {
    forall j | i < j < |R| ensures a + R[i].offset < R[j].start {
      assert R[i].end <= R[j].start;
    }
  }

  /** One more region moves the addresses inside it and no others. */
  lemma MapAppend(R: seq<Region>, r: Region, a: int)
    ensures RegionMap(R + [r], a) == if r.start <= a < r.end then a + r.offset else RegionMap(R, a)
  {
    assert (R + [r])[..|R|] == R;
  }

  // ---------- References ----------

  /** A cell whose word is rewritten by relocation: a reference, the lock of an object, the text of a string. */
  predicate HasRef(c: Cell) {
    c.word.Pointer? && c.dataType in {Object, ByRef, ArrayByRef, Class, ValueType, String}
  }

  /** The number of cells behind a cell that are relocated with it. */
  function RelocNum(c: Cell): nat {
    match c.dataType
    case Class => if c.size >= 1 then c.size - 1 else 0
    case ValueType => if c.size >= 1 then c.size - 1 else 0
    case SzArray => if c.word.ArrayHead? && c.word.fReference then c.word.numOfElements else 0
    case DelegateHead => 1
    case DelegateListHead => if c.word.ListHead? then c.word.length else 0
    case StackFrame => if c.word.Frame? then c.word.values else 0
    case _ => 0
  }

  /** The cell with its reference mapped. */
  function Retarget(c: Cell, R: seq<Region>): Cell {
    if HasRef(c) then c.(word := Pointer(RegionMap(R, c.word.target))) else c
  }

  /** Cell a is the head of block b or one of the references behind it. */
  predicate Slot(m: Memory, b: int, a: int)
    requires 0 <= b < |m|
  {
    b <= a <= b + RelocNum(m[b])
  }

  /** References stay inside their block and have nothing further behind them. */
  ghost predicate RefsOk(m: Memory, blk: Blocks) {
    && SizesMatch(m, blk)
    && (forall b :: b in blk ==> RelocNum(m[b]) < blk[b])
    && (forall b, a {:trigger Inside(blk, b, a)} :: Inside(blk, b, a) && b < a && Slot(m, b, a) && a < |m| ==> RelocNum(m[a]) == 0)
  }

  /** Cell a is a slot of the block it is in. */
  ghost predicate SlotOf(m: Memory, blk: Blocks, a: int)
    requires SizesMatch(m, blk)
  {
    exists b :: Inside(blk, b, a) && Slot(m, b, a)
  }

  /** The references below ptr have been mapped by T. */
  ghost predicate PassedUpTo(m: Memory, m': Memory, blk: Blocks, T: seq<Region>, ptr: int)
    requires SizesMatch(m, blk)
  {
    && |m'| == |m|
    && (forall a {:trigger m'[a]} :: 0 <= a < |m| ==>
          m'[a] == if a < ptr && SlotOf(m, blk, a) then Retarget(m[a], T) else m[a])
  }

  /** The effect of relocating one block. */
  ghost predicate BlockPassed(m: Memory, m': Memory, b: int, T: seq<Region>)
    requires 0 <= b < |m|
  {
    && |m'| == |m|
    && (forall a {:trigger m'[a]} :: 0 <= a < |m| ==> m'[a] == if Slot(m, b, a) then Retarget(m[a], T) else m[a])
  }

  lemma PassBlock(m: Memory, m1: Memory, m2: Memory, P: set<int>, blk: Blocks, T: seq<Region>, b: int)
    requires Partition(P, blk) && RefsOk(m, blk) && b in blk
    requires PassedUpTo(m, m1, blk, T, b) && BlockPassed(m1, m2, b, T)
    ensures PassedUpTo(m, m2, blk, T, b + blk[b])
  {
    assert m1[b] == m[b];
    forall a | 0 <= a < |m|
      ensures m2[a] == if a < b + blk[b] && SlotOf(m, blk, a) then Retarget(m[a], T) else m[a]
    {
      if Inside(blk, b, a) {
        assert forall s :: Inside(blk, s, a) ==> s == b;
        assert SlotOf(m, blk, a) <==> Slot(m, b, a);
      } else {
        assert !Slot(m1, b, a);
      }
    }
  }

  /** Addresses outside the payload hold no slots, so the walk may skip the headers between clusters. */
  lemma PassGap(m: Memory, m': Memory, P: set<int>, blk: Blocks, T: seq<Region>, p: int, q: int)
    requires Partition(P, blk) && SizesMatch(m, blk)
    requires PassedUpTo(m, m', blk, T, p) && p <= q && forall a :: p <= a < q ==> a !in P
    ensures PassedUpTo(m, m', blk, T, q)
  {
    forall a | p <= a < q ensures !SlotOf(m, blk, a) {
      forall b ensures !Inside(blk, b, a) { }
    }
  }
}
