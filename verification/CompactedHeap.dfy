/** What compaction means for the program: objects keep their identity, their contents and everything
    they can reach. */
module CompactedHeaps {
  import opened HeapCells
  import opened Partitions
  import opened Sweeping
  import opened HeapGraph
  import opened Relocation
  import opened RunMoves
  import opened HeapImages
  import opened Packing

  /** Blocks never move up, and blocks that may not move stay. */
  lemma Places(g: Memory, blk0: Blocks, m: Memory, blk: Blocks, R: seq<Region>, b: int)
    requires Compacted(g, blk0, m, blk, R) && Used(g, blk0, b) && 1 <= blk0[b]
    ensures RegionMap(R, b) <= b
    ensures g[b].flags.Unmovable() ==> RegionMap(R, b) == b
  {
    var i := MapCases(R, b);
    assert Inside(blk0, b, b);
    if i >= 0 {
      assert Holds(R, i, b);
    }
  }

  /** An address inside a block is mapped with its block, so interior references stay interior. */
  lemma InteriorAddress(g: Memory, blk0: Blocks, m: Memory, blk: Blocks, R: seq<Region>, b: int, a: int)
    requires Compacted(g, blk0, m, blk, R) && Used(g, blk0, b) && Inside(blk0, b, a)
    ensures RegionMap(R, a) == RegionMap(R, b) + (a - b) && Inside(blk, RegionMap(R, b), RegionMap(R, a))
  {
    assert BlockImage(g, blk0, m, R, R, b);
  }

  lemma NullStays(R: seq<Region>)
    requires RegionsOk(R)
    ensures RegionMap(R, NULL) == NULL
  {
    var i := MapCases(R, NULL);
  }

  /** A cell that is relocated with its block, after compaction. */
  lemma SlotAfter(g: Memory, blk0: Blocks, m: Memory, blk: Blocks, R: seq<Region>, b: int, c: int)
    requires Compacted(g, blk0, m, blk, R)
    requires Used(g, blk0, b) && Inside(blk0, b, c) && Slot(g, b, c)
    ensures var c' := RegionMap(R, c);
      && c' == RegionMap(R, b) + (c - b) && 0 <= c < |g| && 0 < c' < |m| && Inside(blk, RegionMap(R, b), c')
      && m[c'] == Retarget(g[c], R)
      && SubOf(m[c']) == RegionMap(R, SubOf(g[c])) && ScanNum(m[c']) == ScanNum(g[c]) && m[c'].flags == g[c].flags
  {
    assert Inside(blk0, b, b);
    assert BlockImage(g, blk0, m, R, R, b);
    NullStays(R);
    assert m[RegionMap(R, c)] == Seen(g, b, c, R) == Retarget(g[c], R);
  }

  // ---------- References ----------

  /** Cell c is relocated with the block in use that it lies in: a field, an element, a cell of a stack frame. */
  ghost predicate Anchored(g: Memory, blk0: Blocks, c: int)
    requires SizesMatch(g, blk0)
  {
    exists b :: Used(g, blk0, b) && Inside(blk0, b, c) && Slot(g, b, c)
  }

  /** What the compaction needs of the graph: the slots are cells that it relocates. */
  ghost predicate Relocatable(g: Memory, gr: Graph) {
    && GraphOk(g, gr) && RefsOk(g, gr.blk)
    && (forall c :: c in gr.slots ==> Anchored(g, gr.blk, c))
  }

  /** The graph after compaction. */
  ghost function GraphMoved(gr: Graph, blk: Blocks, R: seq<Region>): Graph {
    Graph(blk, set c | c in gr.slots :: RegionMap(R, c), set c | c in gr.dim :: RegionMap(R, c))
  }

  /** A block in use or a slot. */
  ghost predicate Live(g: Memory, gr: Graph, x: int)
    requires SizesMatch(g, gr.blk)
  {
    Used(g, gr.blk, x) || x in gr.slots
  }

  /** Everything of interest is relocated with some block. */
  lemma LiveAnchored(g: Memory, gr: Graph, P: set<int>, x: int) returns (b: int)
    requires Relocatable(g, gr) && Partition(P, gr.blk) && Live(g, gr, x)
    ensures Used(g, gr.blk, b) && Inside(gr.blk, b, x) && Slot(g, b, x) && (x in gr.blk ==> b == x)
  {
    if x in gr.blk {
      b := x;
    } else {
      assert Anchored(g, gr.blk, x);
      b :| Used(g, gr.blk, b) && Inside(gr.blk, b, x) && Slot(g, b, x);
    }
  }

  /** The map keeps apart what it moves. */
  lemma MapApart(g: Memory, gr: Graph, m: Memory, blk: Blocks, P: set<int>, R: seq<Region>, x: int, y: int)
    requires Compacted(g, gr.blk, m, blk, R) && Relocatable(g, gr) && Partition(P, gr.blk) && Partition(P, blk)
    requires Live(g, gr, x) && Live(g, gr, y) && RegionMap(R, x) == RegionMap(R, y)
    ensures x == y
  {
    var b := LiveAnchored(g, gr, P, x);
    var c := LiveAnchored(g, gr, P, y);
    SlotAfter(g, gr.blk, m, blk, R, b, x);
    SlotAfter(g, gr.blk, m, blk, R, c, y);
    assert RegionMap(R, b) == RegionMap(R, c);
  }

  /** Blocks go to blocks and slots to slots, with their references and their marks. */
  lemma LiveAfter(g: Memory, gr: Graph, m: Memory, blk: Blocks, P: set<int>, R: seq<Region>, x: int)
    requires Compacted(g, gr.blk, m, blk, R) && Relocatable(g, gr) && Partition(P, gr.blk) && Partition(P, blk) && Live(g, gr, x)
    ensures var x' := RegionMap(R, x); var gr' := GraphMoved(gr, blk, R);
      && 0 < x < |g| && 0 < x' < |m| && Live(m, gr', x')
      && SubOf(m[x']) == RegionMap(R, SubOf(g[x])) && ScanNum(m[x']) == ScanNum(g[x]) && m[x'].flags == g[x].flags
      && (x in gr.blk <==> x' in blk) && (x in gr.dim <==> x' in gr'.dim)
  {
    var b := LiveAnchored(g, gr, P, x);
    SlotAfter(g, gr.blk, m, blk, R, b, x);
    var x' := RegionMap(R, x);
    if x' in blk {
      assert Used(m, blk, RegionMap(R, b)) && Inside(blk, x', x');
      assert x' == RegionMap(R, b) && x == b;
    }
    if x' in GraphMoved(gr, blk, R).dim {
      var d :| d in gr.dim && RegionMap(R, d) == x';
      MapApart(g, gr, m, blk, P, R, x, d);
    }
  }

  /** What was at x' comes from a block or a slot of the original heap. */
  lemma LiveBefore(g: Memory, gr: Graph, m: Memory, blk: Blocks, R: seq<Region>, x': int) returns (x: int)
    requires Compacted(g, gr.blk, m, blk, R) && GraphOk(g, gr) && Live(m, GraphMoved(gr, blk, R), x')
    ensures Live(g, gr, x) && RegionMap(R, x) == x'
  {
    if Used(m, blk, x') {
      x :| Used(g, gr.blk, x) && RegionMap(R, x) == x';
    } else {
      x :| x in gr.slots && RegionMap(R, x) == x';
    }
  }

  /** The values of a block move with it. */
  lemma ValueMoved(g: Memory, gr: Graph, m: Memory, blk: Blocks, R: seq<Region>, b: int, c: int)
    requires Compacted(g, gr.blk, m, blk, R) && Relocatable(g, gr) && Used(g, gr.blk, b) && b < c <= b + ScanNum(g[b])
    ensures Leaf(g, gr, c) && Inside(gr.blk, b, c) && Slot(g, b, c) && RegionMap(R, c) == RegionMap(R, b) + (c - b)
  {
    assert Leaf(g, gr, c);
    SlotAfter(g, gr.blk, m, blk, R, b, c);
  }

  /** References are those of the original heap, mapped. */
  lemma EdgeForward(g: Memory, gr: Graph, m: Memory, blk: Blocks, P: set<int>, R: seq<Region>, x: int, y: int)
    requires Compacted(g, gr.blk, m, blk, R) && Relocatable(g, gr) && Partition(P, gr.blk) && Partition(P, blk)
    requires Live(g, gr, x) && Edge(g, gr, x, y)
    ensures Live(g, gr, y) && Edge(m, GraphMoved(gr, blk, R), RegionMap(R, x), RegionMap(R, y))
  {
    LiveAfter(g, gr, m, blk, P, R, x);
    if x in gr.blk && y != SubOf(g[x]) {
      var c :| ValueOf(g, x, c) && Names(g, c, y);
      ValueMoved(g, gr, m, blk, R, x, c);
      LiveAfter(g, gr, m, blk, P, R, c);
      LiveAfter(g, gr, m, blk, P, R, y);
      assert ValueOf(m, RegionMap(R, x), RegionMap(R, c)) && Names(m, RegionMap(R, c), RegionMap(R, y));
    } else {
      LiveAfter(g, gr, m, blk, P, R, y);
    }
  }

  lemma EdgeBack(g: Memory, gr: Graph, m: Memory, blk: Blocks, P: set<int>, R: seq<Region>, x: int, z: int) returns (y: int)
    requires Compacted(g, gr.blk, m, blk, R) && Relocatable(g, gr) && Partition(P, gr.blk) && Partition(P, blk)
    requires Live(g, gr, x) && Edge(m, GraphMoved(gr, blk, R), RegionMap(R, x), z)
    ensures Live(g, gr, y) && Edge(g, gr, x, y) && RegionMap(R, y) == z
  {
    LiveAfter(g, gr, m, blk, P, R, x);
    NullStays(R);
    var x' := RegionMap(R, x);
    if z == SubOf(m[x']) {
      y := SubOf(g[x]);
      assert Target(g, gr, y);
    } else {
      y := ValueBack(g, gr, m, blk, P, R, x, z);
    }
  }

  lemma ValueBack(g: Memory, gr: Graph, m: Memory, blk: Blocks, P: set<int>, R: seq<Region>, x: int, z: int) returns (y: int)
    requires Compacted(g, gr.blk, m, blk, R) && Relocatable(g, gr) && Partition(P, gr.blk) && Partition(P, blk)
    requires Used(g, gr.blk, x) && 0 <= RegionMap(R, x) < |m| && ScanNum(m[RegionMap(R, x)]) == ScanNum(g[x])
    requires z != NULL && exists d :: ValueOf(m, RegionMap(R, x), d) && Names(m, d, z)
    ensures Live(g, gr, y) && RegionMap(R, y) == z && exists c :: ValueOf(g, x, c) && Names(g, c, y)
  {
    var d :| ValueOf(m, RegionMap(R, x), d) && Names(m, d, z);
    var c := x + (d - RegionMap(R, x));
    ValueMoved(g, gr, m, blk, R, x, c);
    LiveAfter(g, gr, m, blk, P, R, c);
    y := if z == d then c else SubOf(g[c]);
    NullStays(R);
    assert ValueOf(g, x, c) && Names(g, c, y);
  }

  lemma TargetAfter(g: Memory, gr: Graph, m: Memory, blk: Blocks, P: set<int>, R: seq<Region>, t: int)
    requires Compacted(g, gr.blk, m, blk, R) && Relocatable(g, gr) && Partition(P, gr.blk) && Partition(P, blk) && Target(g, gr, t)
    ensures Target(m, GraphMoved(gr, blk, R), RegionMap(R, t))
  {
    if t == NULL { NullStays(R); } else { LiveAfter(g, gr, m, blk, P, R, t); }
  }

  lemma SlotMoved(g: Memory, gr: Graph, m: Memory, blk: Blocks, P: set<int>, R: seq<Region>, c: int)
    requires Compacted(g, gr.blk, m, blk, R) && Relocatable(g, gr) && Partition(P, gr.blk) && Partition(P, blk) && c in gr.slots
    ensures var c', gr' := RegionMap(R, c), GraphMoved(gr, blk, R);
      Leaf(m, gr', c') && (!m[c'].flags.alive ==> c' in gr'.dim)
  {
    LiveAfter(g, gr, m, blk, P, R, c);
    TargetAfter(g, gr, m, blk, P, R, SubOf(g[c]));
    assert RegionMap(R, c) in GraphMoved(gr, blk, R).slots;
  }

  lemma AnchorMoved(g: Memory, gr: Graph, m: Memory, blk: Blocks, P: set<int>, R: seq<Region>, c: int)
    requires Compacted(g, gr.blk, m, blk, R) && Relocatable(g, gr) && Partition(P, gr.blk) && Partition(P, blk) && c in gr.slots
    ensures Anchored(m, blk, RegionMap(R, c))
  {
    var b := LiveAnchored(g, gr, P, c);
    SlotAfter(g, gr.blk, m, blk, R, b, c);
    assert Used(m, blk, RegionMap(R, b)) && Slot(m, RegionMap(R, b), RegionMap(R, c)) by {
      assert Inside(gr.blk, b, b);
      SlotAfter(g, gr.blk, m, blk, R, b, b);
    }
  }

  lemma BlockMoved(g: Memory, gr: Graph, m: Memory, blk: Blocks, P: set<int>, R: seq<Region>, b: int)
    requires Compacted(g, gr.blk, m, blk, R) && Relocatable(g, gr) && Partition(P, gr.blk) && Partition(P, blk) && Used(g, gr.blk, b)
    ensures var b', gr' := RegionMap(R, b), GraphMoved(gr, blk, R);
      Target(m, gr', SubOf(m[b'])) && Leaves(m, gr', b' + 1, ScanNum(m[b'])) && (m[b'].flags.event ==> m[b'].flags.alive)
  {
    assert Target(m, GraphMoved(gr, blk, R), RegionMap(R, SubOf(g[b]))) by { TargetAfter(g, gr, m, blk, P, R, SubOf(g[b])); }
    assert Leaves(m, GraphMoved(gr, blk, R), RegionMap(R, b) + 1, ScanNum(g[b])) by { LeavesMoved(g, gr, m, blk, P, R, b, RegionMap(R, b)); }
    LiveAfter(g, gr, m, blk, P, R, b);
  }

  lemma LeavesMoved(g: Memory, gr: Graph, m: Memory, blk: Blocks, P: set<int>, R: seq<Region>, b: int, s: int)
    requires Compacted(g, gr.blk, m, blk, R) && Relocatable(g, gr) && Partition(P, gr.blk) && Partition(P, blk) && Used(g, gr.blk, b)
    requires s == RegionMap(R, b)
    ensures Leaves(m, GraphMoved(gr, blk, R), s + 1, ScanNum(g[b]))
  {
    forall c' | s + 1 <= c' < s + 1 + ScanNum(g[b]) ensures Leaf(m, GraphMoved(gr, blk, R), c') {
      var c := b + (c' - s);
      assert RegionMap(R, c) == c' && Leaf(m, GraphMoved(gr, blk, R), RegionMap(R, c)) by { LeafMoved(g, gr, m, blk, P, R, b, c); }
    }
  }

  lemma LeafMoved(g: Memory, gr: Graph, m: Memory, blk: Blocks, P: set<int>, R: seq<Region>, b: int, c: int)
    requires Compacted(g, gr.blk, m, blk, R) && Relocatable(g, gr) && Partition(P, gr.blk) && Partition(P, blk)
    requires Used(g, gr.blk, b) && b < c <= b + ScanNum(g[b])
    ensures RegionMap(R, c) == RegionMap(R, b) + (c - b) && Leaf(m, GraphMoved(gr, blk, R), RegionMap(R, c))
  {
    assert c in gr.slots && RegionMap(R, c) == RegionMap(R, b) + (c - b) by {
      ValueMoved(g, gr, m, blk, R, b, c);
    }
    SlotMoved(g, gr, m, blk, P, R, c);
  }

  /** The references of the compacted heap are sound. */
  lemma MovedSound(g: Memory, gr: Graph, m: Memory, blk: Blocks, P: set<int>, R: seq<Region>)
    requires Compacted(g, gr.blk, m, blk, R) && Relocatable(g, gr) && Partition(P, gr.blk) && Partition(P, blk)
    requires forall b :: b in blk && m[b].dataType == FreeBlock ==> IsFree(m[b])
    ensures Relocatable(m, GraphMoved(gr, blk, R))
  {
    var gr' := GraphMoved(gr, blk, R);
    forall c' | c' in gr'.slots ensures Leaf(m, gr', c') && (!m[c'].flags.alive ==> c' in gr'.dim) && Anchored(m, blk, c') {
      var c :| c in gr.slots && RegionMap(R, c) == c';
      SlotMoved(g, gr, m, blk, P, R, c);
      AnchorMoved(g, gr, m, blk, P, R, c);
    }
    forall s | s in blk
      ensures Target(m, gr', SubOf(m[s])) && Leaves(m, gr', s + 1, ScanNum(m[s])) && (m[s].flags.event ==> m[s].flags.alive)
    {
      if Used(m, blk, s) {
        var b :| Used(g, gr.blk, b) && RegionMap(R, b) == s;
        BlockMoved(g, gr, m, blk, P, R, b);
      }
    }
    assert RefsOk(m, blk) by { ImageRefsOk(g, gr.blk, m, blk, P, R, R); }
  }

  // ---------- Reachability ----------

  /** The roots after compaction. */
  ghost function Mapped(R: seq<Region>, roots: set<int>): set<int> {
    set r | r in roots :: RegionMap(R, r)
  }

  /** A block or a slot is reachable after compaction exactly if it was before. */
  lemma ReachabilityKept(g: Memory, gr: Graph, m: Memory, blk: Blocks, P: set<int>, R: seq<Region>, roots: set<int>, x: int)
    requires Compacted(g, gr.blk, m, blk, R) && Relocatable(g, gr) && Partition(P, gr.blk) && Partition(P, blk)
    requires forall r :: r in roots ==> Live(g, gr, r)
    requires Live(g, gr, x)
    ensures Reachable(g, gr, roots, x) <==> Reachable(m, GraphMoved(gr, blk, R), Mapped(R, roots), RegionMap(R, x))
  {
    if Reachable(g, gr, roots, x) {
      var p :| Path(g, gr, roots, p) && p[|p| - 1] == x;
      var X := ReachForward(g, gr, m, blk, P, R, roots);
      ClosedHoldsReachable(g, gr, roots, X, p);
    }
    if Reachable(m, GraphMoved(gr, blk, R), Mapped(R, roots), RegionMap(R, x)) {
      var q :| Path(m, GraphMoved(gr, blk, R), Mapped(R, roots), q) && q[|q| - 1] == RegionMap(R, x);
      var Y := ReachBack(g, gr, m, blk, P, R, roots);
      ClosedHoldsReachable(m, GraphMoved(gr, blk, R), Mapped(R, roots), Mapped(R, Y), q);
      var y :| y in Y && RegionMap(R, y) == RegionMap(R, x);
      MapApart(g, gr, m, blk, P, R, x, y);
    }
  }

  /** What maps to something reachable is closed under references. */
  lemma ReachForward(g: Memory, gr: Graph, m: Memory, blk: Blocks, P: set<int>, R: seq<Region>,
          roots: set<int>) returns (X: set<int>)
    requires Compacted(g, gr.blk, m, blk, R) && Relocatable(g, gr) && Partition(P, gr.blk) && Partition(P, blk)
    requires forall r :: r in roots ==> Live(g, gr, r)
    ensures roots <= X && Closed(g, gr, X)
    ensures forall x :: x in X ==> Reachable(m, GraphMoved(gr, blk, R), Mapped(R, roots), RegionMap(R, x))
  {
    X := set x | x in gr.blk.Keys + gr.slots && Live(g, gr, x) && Reachable(m, GraphMoved(gr, blk, R), Mapped(R, roots), RegionMap(R, x));
    forall x, y | x in X && Edge(g, gr, x, y) ensures y in X {
      EdgeForward(g, gr, m, blk, P, R, x, y);
      EdgeReachable(m, GraphMoved(gr, blk, R), Mapped(R, roots), RegionMap(R, x), RegionMap(R, y));
    }
    forall r | r in roots ensures r in X {
      assert RegionMap(R, r) in Mapped(R, roots);
      RootReachable(m, GraphMoved(gr, blk, R), Mapped(R, roots), RegionMap(R, r));
    }
  }

  /** The image of what is reachable is closed under references. */
  lemma ReachBack(g: Memory, gr: Graph, m: Memory, blk: Blocks, P: set<int>, R: seq<Region>,
          roots: set<int>) returns (Y: set<int>)
    requires Compacted(g, gr.blk, m, blk, R) && Relocatable(g, gr) && Partition(P, gr.blk) && Partition(P, blk)
    requires forall r :: r in roots ==> Live(g, gr, r)
    ensures Mapped(R, roots) <= Mapped(R, Y) && Closed(m, GraphMoved(gr, blk, R), Mapped(R, Y))
    ensures forall y :: y in Y ==> Live(g, gr, y) && Reachable(g, gr, roots, y)
  {
    Y := set y | y in gr.blk.Keys + gr.slots && Live(g, gr, y) && Reachable(g, gr, roots, y);
    forall w, z | w in Mapped(R, Y) && Edge(m, GraphMoved(gr, blk, R), w, z) ensures z in Mapped(R, Y) {
      var x :| x in Y && RegionMap(R, x) == w;
      var y := EdgeBack(g, gr, m, blk, P, R, x, z);
      EdgeReachable(g, gr, roots, x, y);
    }
    forall r | r in roots ensures r in Y { RootReachable(g, gr, roots, r); }
  }

  // ---------- Conservation ----------

  ghost function UsedCells(P: set<int>, m: Memory, blk: Blocks): set<int>
    requires SizesMatch(m, blk)
  {
    set a | a in P && !FreeCell(m, blk, a)
  }

  /** The free cells after compaction are as many as before. */
  lemma CellsConserved(g: Memory, blk0: Blocks, m: Memory, blk: Blocks, P: set<int>, R: seq<Region>)
    requires Compacted(g, blk0, m, blk, R) && Partition(P, blk0) && Partition(P, blk)
    requires forall a :: a in P ==> 0 < a
    ensures |P - UsedCells(P, g, blk0)| == |P - UsedCells(P, m, blk)|
  {
    var U, V := UsedCells(P, g, blk0), UsedCells(P, m, blk);
    forall a | a in U ensures RegionMap(R, a) in V {
      CellForward(g, blk0, m, blk, P, R, a);
    }
    forall x | x in V ensures exists a :: a in U && RegionMap(R, a) == x {
      var a := CellBack(g, blk0, m, blk, P, R, x);
    }
    forall a, a' | a in U && a' in U && RegionMap(R, a) == RegionMap(R, a') ensures a == a' {
      OneCell(g, blk0, m, blk, P, R, a, a');
    }
    SameSize(R, U, V);
    assert |P - U| == |P| - |U| by { SubsetSize(P, U); }
    assert |P - V| == |P| - |V| by { SubsetSize(P, V); }
  }

  lemma SubsetSize(P: set<int>, U: set<int>)
    requires U <= P
    ensures |P - U| == |P| - |U|
  {
    assert P == U + (P - U);
  }

  lemma UsedOwner(g: Memory, blk: Blocks, P: set<int>, a: int) returns (b: int)
    requires SizesMatch(g, blk) && Partition(P, blk) && a in UsedCells(P, g, blk)
    requires forall x :: x in P ==> 0 < x
    ensures Used(g, blk, b) && Inside(blk, b, a)
  {
    b := Covered(P, blk, a);
  }

  lemma CellForward(g: Memory, blk0: Blocks, m: Memory, blk: Blocks, P: set<int>, R: seq<Region>, a: int)
    requires Compacted(g, blk0, m, blk, R) && Partition(P, blk0) && Partition(P, blk)
    requires forall x :: x in P ==> 0 < x
    requires a in UsedCells(P, g, blk0)
    ensures RegionMap(R, a) in UsedCells(P, m, blk)
  {
    var b := UsedOwner(g, blk0, P, a);
    InteriorAddress(g, blk0, m, blk, R, b, a);
    assert forall t :: Inside(blk, t, RegionMap(R, a)) ==> t == RegionMap(R, b);
  }

  lemma CellBack(g: Memory, blk0: Blocks, m: Memory, blk: Blocks, P: set<int>, R: seq<Region>, x: int) returns (a: int)
    requires Compacted(g, blk0, m, blk, R) && Partition(P, blk0) && Partition(P, blk)
    requires forall y :: y in P ==> 0 < y
    requires x in UsedCells(P, m, blk)
    ensures a in UsedCells(P, g, blk0) && RegionMap(R, a) == x
  {
    var s := UsedOwner(m, blk, P, x);
    var b :| Used(g, blk0, b) && RegionMap(R, b) == s;
    a := b + (x - s);
    assert Inside(blk0, b, a);
    InteriorAddress(g, blk0, m, blk, R, b, a);
    assert forall t :: Inside(blk0, t, a) ==> t == b;
  }

  lemma OneCell(g: Memory, blk0: Blocks, m: Memory, blk: Blocks, P: set<int>, R: seq<Region>, a: int, a': int)
    requires Compacted(g, blk0, m, blk, R) && Partition(P, blk0) && Partition(P, blk)
    requires forall x :: x in P ==> 0 < x
    requires a in UsedCells(P, g, blk0) && a' in UsedCells(P, g, blk0) && RegionMap(R, a) == RegionMap(R, a')
    ensures a == a'
  {
    var b := UsedOwner(g, blk0, P, a);
    var c := UsedOwner(g, blk0, P, a');
    InteriorAddress(g, blk0, m, blk, R, b, a);
    InteriorAddress(g, blk0, m, blk, R, c, a');
    assert RegionMap(R, b) == RegionMap(R, c);
  }

  lemma Member<T>(U: set<T>) returns (a: T)
    requires U != {}
    ensures a in U
  {
    a :| a in U;
  }

  /** A one-to-one map between two sets. */
  lemma {:induction false} SameSize(R: seq<Region>, U: set<int>, V: set<int>)
    requires forall a :: a in U ==> RegionMap(R, a) in V
    requires forall x :: x in V ==> exists a :: a in U && RegionMap(R, a) == x
    requires forall a, a' {:trigger RegionMap(R, a), RegionMap(R, a')} :: a in U && a' in U && RegionMap(R, a) == RegionMap(R, a') ==> a == a'
    ensures |U| == |V|
    decreases U
  {
    if U == {} {
      forall x ensures x !in V { }
      assert V == {};
    } else {
      var a := Member(U);
      var U', V' := U - {a}, V - {RegionMap(R, a)};
      forall x | x in V' ensures exists c :: c in U' && RegionMap(R, c) == x {
        var c :| c in U && RegionMap(R, c) == x;
        assert c in U';
      }
      SameSize(R, U', V');
    }
  }

  // ---------- What a pinned block costs ----------

  ghost function Below(S: set<int>, p: int): set<int> {
    set a | a in S && a < p
  }

  /** No block above p that may move is short enough for the free cells below p. */
  ghost predicate NothingFits(g: Memory, blk0: Blocks, P: set<int>, p: int)
    requires SizesMatch(g, blk0)
  {
    forall b :: Used(g, blk0, b) && p < b && !g[b].flags.Unmovable() ==> |Below(FreeCells(g, P, blk0), p)| < blk0[b]
  }

  /** A cell of a block that lies below p, or of one that has been moved there. */
  lemma CellBelow(g: Memory, blk0: Blocks, m: Memory, blk: Blocks, P: set<int>, R: seq<Region>, p: int, b: int, a: int)
    requires Compacted(g, blk0, m, blk, R) && Partition(P, blk0) && Partition(P, blk) && forall x :: x in P ==> 0 < x
    requires Used(g, blk0, p) && g[p].flags.Unmovable() && Used(g, blk0, b) && Inside(blk0, b, a)
    ensures a in UsedCells(P, g, blk0)
    ensures RegionMap(R, a) in UsedCells(P, m, blk)
    ensures b != p ==> (RegionMap(R, a) < p <==> RegionMap(R, b) < p)
    ensures b < p <==> a < p
    ensures b < p ==> RegionMap(R, b) < p
  {
    assert forall t :: Inside(blk0, t, a) ==> t == b;
    assert Inside(blk0, p, p) && Inside(blk0, b, b);
    CellForward(g, blk0, m, blk, P, R, a);
    InteriorAddress(g, blk0, m, blk, R, b, a);
    InteriorAddress(g, blk0, m, blk, R, p, p);
    Places(g, blk0, m, blk, R, p);
    Places(g, blk0, m, blk, R, b);
    var x := RegionMap(R, b);
    assert Used(m, blk, x) && Used(m, blk, p);
    var over := Inside(blk, x, p);
    assert b != p ==> x != p;
  }

  /** The cells in use below p and those of a block that has come below p are all below p now. */
  lemma LandsBelow(g: Memory, blk0: Blocks, m: Memory, blk: Blocks, P: set<int>, R: seq<Region>, p: int, b: int, a: int)
    requires Compacted(g, blk0, m, blk, R) && Partition(P, blk0) && Partition(P, blk) && forall x :: x in P ==> 0 < x
    requires Used(g, blk0, p) && g[p].flags.Unmovable() && Used(g, blk0, b) && p < b && RegionMap(R, b) < p
    requires a in Below(UsedCells(P, g, blk0), p) || b <= a < b + blk0[b]
    ensures a in UsedCells(P, g, blk0) && RegionMap(R, a) in Below(P, p)
  {
    var c := b;
    if a in Below(UsedCells(P, g, blk0), p) { c := UsedOwner(g, blk0, P, a); } else { assert Inside(blk0, b, a); }
    CellBelow(g, blk0, m, blk, P, R, p, c, a);
  }

  ghost predicate Into(R: seq<Region>, S: set<int>, Q: set<int>) {
    forall a :: a in S ==> RegionMap(R, a) in Q
  }

  ghost predicate OneToOne(R: seq<Region>, S: set<int>) {
    forall a, a' {:trigger RegionMap(R, a), RegionMap(R, a')} :: a in S && a' in S && RegionMap(R, a) == RegionMap(R, a') ==> a == a'
  }

  lemma UsedOneToOne(g: Memory, blk0: Blocks, m: Memory, blk: Blocks, P: set<int>, R: seq<Region>, S: set<int>)
    requires Compacted(g, blk0, m, blk, R) && Partition(P, blk0) && Partition(P, blk) && forall x :: x in P ==> 0 < x
    requires S <= UsedCells(P, g, blk0)
    ensures OneToOne(R, S)
  {
    forall a, a' | a in S && a' in S && RegionMap(R, a) == RegionMap(R, a') ensures a == a' {
      OneCell(g, blk0, m, blk, P, R, a, a');
    }
  }

  lemma AllLandBelow(g: Memory, blk0: Blocks, m: Memory, blk: Blocks, P: set<int>, R: seq<Region>, p: int, b: int, S: set<int>)
    requires Compacted(g, blk0, m, blk, R) && Partition(P, blk0) && Partition(P, blk) && forall x :: x in P ==> 0 < x
    requires Used(g, blk0, p) && g[p].flags.Unmovable() && Used(g, blk0, b) && p < b && RegionMap(R, b) < p
    requires forall a :: a in S ==> a in Below(UsedCells(P, g, blk0), p) || b <= a < b + blk0[b]
    ensures Into(R, S, Below(P, p)) && OneToOne(R, S)
  {
    forall a | a in S ensures RegionMap(R, a) in Below(P, p) {
      LandsBelow(g, blk0, m, blk, P, R, p, b, a);
    }
    forall a | a in S ensures a in UsedCells(P, g, blk0) {
      LandsBelow(g, blk0, m, blk, P, R, p, b, a);
    }
    UsedOneToOne(g, blk0, m, blk, P, R, S);
  }

  lemma RoomBelow(g: Memory, blk0: Blocks, m: Memory, blk: Blocks, P: set<int>, R: seq<Region>, p: int, b: int, U: set<int>)
    requires Compacted(g, blk0, m, blk, R) && Partition(P, blk0) && Partition(P, blk) && forall x :: x in P ==> 0 < x
    requires Used(g, blk0, p) && g[p].flags.Unmovable() && Used(g, blk0, b) && p < b && RegionMap(R, b) < p
    requires U == Below(UsedCells(P, g, blk0), p)
    ensures |U| + blk0[b] <= |Below(P, p)|
  {
    AllLandBelow(g, blk0, m, blk, P, R, p, b, U + Span(b, b + blk0[b]));
    assert forall a :: a in U ==> a < p;
    RoomFor(R, U, p, b, blk0[b], Below(P, p));
  }

  /** A set that is mapped one-to-one into another is not larger. */
  lemma {:induction false} NotLarger(R: seq<Region>, S: set<int>, Q: set<int>)
    requires Into(R, S, Q) && OneToOne(R, S)
    ensures |S| <= |Q|
    decreases S
  {
    if S != {} {
      var a := Member(S);
      var x := RegionMap(R, a);
      forall c | c in S - {a} ensures RegionMap(R, c) in Q - {x} { }
      NotLarger(R, S - {a}, Q - {x});
    }
  }

  /** A set below p and a span above it that are mapped one-to-one into a third set. */
  lemma RoomFor(R: seq<Region>, U: set<int>, p: int, b: int, n: int, Q: set<int>)
    requires p < b && 0 <= n && forall a :: a in U ==> a < p
    requires Into(R, U + Span(b, b + n), Q) && OneToOne(R, U + Span(b, b + n))
    ensures |U| + n <= |Q|
  {
    NotLarger(R, U + Span(b, b + n), Q);
    SpanSize(b, b + n);
    UnionSize(U, Span(b, b + n));
  }

  lemma UnionSize(U: set<int>, C: set<int>)
    requires U !! C
    ensures |U + C| == |U| + |C|
  {
  }

  /** No block comes to lie below p that was not there before. */
  lemma NothingComesBelow(g: Memory, blk0: Blocks, m: Memory, blk: Blocks, P: set<int>, R: seq<Region>, p: int, b: int)
    requires Compacted(g, blk0, m, blk, R) && Partition(P, blk0) && Partition(P, blk) && forall x :: x in P ==> 0 < x
    requires Used(g, blk0, p) && g[p].flags.Unmovable() && NothingFits(g, blk0, P, p) && Used(g, blk0, b) && p < b
    ensures p <= RegionMap(R, b)
  {
    Places(g, blk0, m, blk, R, b);
    if RegionMap(R, b) < p {
      RoomBelow(g, blk0, m, blk, P, R, p, b, Below(UsedCells(P, g, blk0), p));
      UsedAndFree(g, P, blk0, p);
    }
  }

  lemma UsedAndFree(m: Memory, P: set<int>, blk: Blocks, p: int)
    requires SizesMatch(m, blk)
    ensures |Below(UsedCells(P, m, blk), p)| + |Below(FreeCells(m, P, blk), p)| == |Below(P, p)|
  {
    var U, F := Below(UsedCells(P, m, blk), p), Below(FreeCells(m, P, blk), p);
    assert U + F == Below(P, p) && U !! F;
  }

  /** When nothing above a block that may not move fits below it, there are as many free cells below it after a
      compaction as before. */
  lemma HolesStay(g: Memory, blk0: Blocks, m: Memory, blk: Blocks, P: set<int>, R: seq<Region>, p: int)
    requires Compacted(g, blk0, m, blk, R) && Partition(P, blk0) && Partition(P, blk) && forall x :: x in P ==> 0 < x
    requires Used(g, blk0, p) && g[p].flags.Unmovable() && NothingFits(g, blk0, P, p)
    ensures |Below(FreeCells(m, P, blk), p)| == |Below(FreeCells(g, P, blk0), p)|
  {
    var U, V := Below(UsedCells(P, g, blk0), p), Below(UsedCells(P, m, blk), p);
    forall a | a in U ensures RegionMap(R, a) in V {
      var b := UsedOwner(g, blk0, P, a);
      CellBelow(g, blk0, m, blk, P, R, p, b, a);
    }
    forall x | x in V ensures exists a :: a in U && RegionMap(R, a) == x {
      var a := CellBack(g, blk0, m, blk, P, R, x);
      var b := UsedOwner(g, blk0, P, a);
      CellBelow(g, blk0, m, blk, P, R, p, b, a);
      Places(g, blk0, m, blk, R, p);
      InteriorAddress(g, blk0, m, blk, R, b, a);
      if p < b { NothingComesBelow(g, blk0, m, blk, P, R, p, b); }
    }
    forall a, a' | a in U && a' in U && RegionMap(R, a) == RegionMap(R, a') ensures a == a' {
      OneCell(g, blk0, m, blk, P, R, a, a');
    }
    SameSize(R, U, V);
    UsedAndFree(g, P, blk0, p);
    UsedAndFree(m, P, blk, p);
  }

  /** Then, with such a block at p in the first cluster, the cluster gets packed up to that block exactly if there was
      no free cell below it: no compaction, whatever it moves, closes a hole there. */
  lemma PinLeavesHole(g: Memory, blk0: Blocks, m: Memory, blk: Blocks, P: set<int>, R: seq<Region>, p: int, c: Extent)
    requires Compacted(g, blk0, m, blk, R) && Partition(P, blk0) && Partition(P, blk) && forall x :: x in P ==> 0 < x
    requires Used(g, blk0, p) && g[p].flags.Unmovable() && NothingFits(g, blk0, P, p)
    requires c.start <= p < c.end && forall a :: a in P ==> c.start <= a
    ensures PackedBelow(FreeCells(m, P, blk), c, p + 1) <==> Below(FreeCells(g, P, blk0), p) == {}
  {
    HolesStay(g, blk0, m, blk, P, R, p);
    var F := FreeCells(m, P, blk);
    assert p !in F by {
      assert Inside(blk0, p, p);
      CellBelow(g, blk0, m, blk, P, R, p, p, p);
      Places(g, blk0, m, blk, R, p);
    }
    if PackedBelow(F, c, p + 1) {
      forall a ensures a !in Below(F, p) { }
      assert Below(F, p) == {};
    }
    if Below(FreeCells(g, P, blk0), p) == {} {
      assert Below(F, p) == {};
      assert forall a :: a in F ==> a >= p || a in Below(F, p);
    }
  }

  /** A free cell at 2, a pinned block of one cell at 3, and a movable one of two cells at 4. */
  ghost predicate Holed(g: Memory, blk0: Blocks) {
    && |g| == 8 && blk0 == map[2 := 1, 3 := 1, 4 := 2] && SizesMatch(g, blk0)
    && g[2].dataType == FreeBlock && g[3].dataType != FreeBlock && g[4].dataType != FreeBlock
    && g[3].flags.Unmovable()
  }

  /** Such a heap. */
  lemma HoledStays(g: Memory, blk0: Blocks, m: Memory, blk: Blocks, R: seq<Region>)
    requires Holed(g, blk0) && Compacted(g, blk0, m, blk, R) && Partition({2, 3, 4, 5}, blk0) && Partition({2, 3, 4, 5}, blk)
    ensures !PackedBelow(FreeCells(m, {2, 3, 4, 5}, blk), Extent(2, 6), 4)
  {
    var P := {2, 3, 4, 5};
    assert blk0[3] == 1 && blk0[4] == 2 && Used(g, blk0, 3) && Used(g, blk0, 4);
    assert Below(FreeCells(g, P, blk0), 3) == {2} by {
      assert Inside(blk0, 2, 2) && FreeCell(g, blk0, 2);
    }
    PinLeavesHole(g, blk0, m, blk, P, R, 3, Extent(2, 6));
  }
}
