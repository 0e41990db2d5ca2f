/** The mark phase of the garbage collector (CLR_RT_GarbageCollector::Mark and what it calls). */
module Marking {
  import opened HeapCells
  import opened Partitions
  import opened Sweeping
  import opened HeapGraph
  import opened MarkSteps
  import opened MarkPhase

  /** Nothing but marks has changed, and the marked blocks and the newly marked slots are exactly the reachable
      ones. */
  ghost predicate Marked(g: Memory, gr: Graph, m: Memory, roots: set<int>)
    requires SizesMatch(g, gr.blk)
  {
    && SameButMarks(g, m)
    && (forall b :: b in gr.blk && !g[b].flags.event ==> (m[b].flags.alive <==> Reachable(g, gr, roots, b)))
    && (forall c :: c in gr.dim && 0 <= c < |g| ==> (m[c].flags.alive <==> Reachable(g, gr, roots, c)))
    && (forall b :: b in gr.blk && !g[b].flags.event && m[b].flags.alive ==> g[b].dataType != FreeBlock)
  }

  lemma MarkedExactly(g: Memory, gr: Graph, roots: set<int>, m: Memory)
    requires GraphOk(g, gr) && StartMarks(g, gr) && MarkState(g, gr, roots, m, false) && AllMarked(m, gr, roots)
    ensures Marked(g, gr, m, roots)
  {
    ExactlyReachable(g, gr, roots, m);
    assert forall b :: b in gr.blk && !g[b].flags.event && m[b].flags.alive ==> Fresh(g, m, b);
  }

  /** What is reachable is marked, or has been marked before. */
  lemma ReachedMarked(g: Memory, gr: Graph, m: Memory, roots: set<int>, x: int)
    requires GraphOk(g, gr) && Marked(g, gr, m, roots) && Reachable(g, gr, roots, x) && Vertex(gr, x)
    ensures 0 <= x < |m| && m[x].flags.alive
  {
    assert x in gr.slots ==> SlotOk(g, gr, x);
  }

  lemma HolderComplete(g: Memory, gr: Graph, m: Memory, roots: set<int>, b: int, c: int)
    requires GraphOk(g, gr) && Marked(g, gr, m, roots) && b in gr.blk && !g[b].flags.event && m[b].flags.alive && ValueOf(g, b, c)
    ensures m[c].flags.alive && (SubOf(g[c]) != NULL ==> 0 <= SubOf(g[c]) < |m| && m[SubOf(g[c])].flags.alive)
  {
    assert Leaf(g, gr, c) && Names(g, c, c) && Edge(g, gr, b, c);
    EdgeReachable(g, gr, roots, b, c);
    ReachedMarked(g, gr, m, roots, c);
    var t := SubOf(g[c]);
    if t != NULL {
      assert Names(g, c, t) && Edge(g, gr, b, t);
      EdgeReachable(g, gr, roots, b, t);
      ReachedMarked(g, gr, m, roots, t);
    }
  }

  lemma ReferenceComplete(g: Memory, gr: Graph, m: Memory, roots: set<int>, x: int)
    requires GraphOk(g, gr) && Marked(g, gr, m, roots) && 0 <= x < |g| && ((x in gr.blk && !g[x].flags.event) || x in gr.dim)
    requires m[x].flags.alive && SubOf(g[x]) != NULL
    ensures 0 <= SubOf(g[x]) < |m| && m[SubOf(g[x])].flags.alive
  {
    var t := SubOf(g[x]);
    if x in gr.blk { assert Target(g, gr, t); } else { assert SlotOk(g, gr, x); }
    assert Edge(g, gr, x, t);
    EdgeReachable(g, gr, roots, x, t);
    ReachedMarked(g, gr, m, roots, t);
  }

  lemma HoldersComplete(g: Memory, gr: Graph, m: Memory, roots: set<int>)
    requires GraphOk(g, gr) && Marked(g, gr, m, roots)
    ensures forall b, c {:trigger gr.blk[b], g[c]} ::
        && b in gr.blk && !g[b].flags.event && m[b].flags.alive && b < c < |g|
        && (|| (g[b].dataType in {Class, ValueType} && c < b + g[b].size) || (g[b].dataType == DelegateHead && c == b + 1)
               || (g[b].dataType == SzArray && g[b].word.ArrayHead? && g[b].word.fReference && c <= b + g[b].word.numOfElements)
               || (g[b].dataType == DelegateListHead && g[b].word.ListHead? && !g[b].word.weak && c <= b + g[b].word.length))
        ==> m[c].flags.alive && (g[c].dataType in {Object, ByRef, ArrayByRef} && g[c].word.Pointer? && g[c].word.target != NULL ==>
              0 <= g[c].word.target < |m| && m[g[c].word.target].flags.alive)
    ensures forall x {:trigger g[x]} ::
        && 0 <= x < |g| && ((x in gr.blk && !g[x].flags.event) || x in gr.dim) && m[x].flags.alive
        && g[x].dataType in {Object, ByRef, ArrayByRef} && g[x].word.Pointer? && g[x].word.target != NULL
        ==> 0 <= g[x].word.target < |m| && m[g[x].word.target].flags.alive
  {
    forall b, c {:trigger gr.blk[b], g[c]} | b in gr.blk && !g[b].flags.event && m[b].flags.alive && b < c < |g|
      && (|| (g[b].dataType in {Class, ValueType} && c < b + g[b].size) || (g[b].dataType == DelegateHead && c == b + 1)
            || (g[b].dataType == SzArray && g[b].word.ArrayHead? && g[b].word.fReference && c <= b + g[b].word.numOfElements)
            || (g[b].dataType == DelegateListHead && g[b].word.ListHead? && !g[b].word.weak && c <= b + g[b].word.length))
      ensures m[c].flags.alive && (g[c].dataType in {Object, ByRef, ArrayByRef} && g[c].word.Pointer? && g[c].word.target != NULL ==>
        0 <= g[c].word.target < |m| && m[g[c].word.target].flags.alive)
    {
      ValuesByKind(g, b, c);
      HolderComplete(g, gr, m, roots, b, c);
    }
    forall x {:trigger g[x]} | 0 <= x < |g| && ((x in gr.blk && !g[x].flags.event) || x in gr.dim) && m[x].flags.alive
      && g[x].dataType in {Object, ByRef, ArrayByRef} && g[x].word.Pointer? && g[x].word.target != NULL
      ensures 0 <= g[x].word.target < |m| && m[g[x].word.target].flags.alive
    {
      ReferenceComplete(g, gr, m, roots, x);
    }
  }

  lemma RootMarked(g: Memory, gr: Graph, m: Memory, protectedRoots: seq<Root>, globalRoots: seq<Root>,
          pending: seq<int>, r: Root, x: int)
    requires GraphOk(g, gr) && Marked(g, gr, m, PhaseRoots(g, gr, protectedRoots, globalRoots, pending))
    requires r in protectedRoots + globalRoots && RootOf(g, r, x) && Vertex(gr, x)
    ensures 0 <= x < |m| && m[x].flags.alive
  {
    var roots := PhaseRoots(g, gr, protectedRoots, globalRoots, pending);
    if r in protectedRoots {
      var i :| 0 <= i < |protectedRoots| && protectedRoots[i] == r;
    } else {
      var i :| 0 <= i < |globalRoots| && globalRoots[i] == r;
    }
    RootReachable(g, gr, roots, x);
    ReachedMarked(g, gr, m, roots, x);
  }

  lemma CellRootMarked(g: Memory, gr: Graph, m: Memory, protectedRoots: seq<Root>, globalRoots: seq<Root>,
          pending: seq<int>, r: Root, c: int)
    requires GraphOk(g, gr) && Marked(g, gr, m, PhaseRoots(g, gr, protectedRoots, globalRoots, pending))
    requires r in protectedRoots + globalRoots && RootOk(g, gr, r) && r.Multiple? && r.lst != NULL && r.lst <= c < r.lst + r.num
    ensures 0 <= c < |m| && m[c].flags.alive
    ensures SubOf(g[c]) != NULL ==> 0 <= SubOf(g[c]) < |m| && m[SubOf(g[c])].flags.alive
  {
    assert Leaf(g, gr, c) && Names(g, c, c);
    RootMarked(g, gr, m, protectedRoots, globalRoots, pending, r, c);
    if SubOf(g[c]) != NULL {
      assert Names(g, c, SubOf(g[c]));
      RootMarked(g, gr, m, protectedRoots, globalRoots, pending, r, SubOf(g[c]));
    }
  }

  lemma RootsMarked(g: Memory, gr: Graph, m: Memory, protectedRoots: seq<Root>, globalRoots: seq<Root>, pending: seq<int>)
    requires GraphOk(g, gr) && RootsOk(g, gr, protectedRoots) && RootsOk(g, gr, globalRoots)
    requires Marked(g, gr, m, PhaseRoots(g, gr, protectedRoots, globalRoots, pending))
    ensures forall r :: r in protectedRoots + globalRoots && (r.Single? || r.Force?) && r.obj != NULL ==> 0 <= r.obj < |m| && m[r.obj].flags.alive
    ensures forall r, c {:trigger r in protectedRoots + globalRoots, g[c]} ::
        && r in protectedRoots + globalRoots && r.Multiple? && r.lst != NULL && r.lst <= c < r.lst + r.num && 0 <= c < |g|
        ==> m[c].flags.alive && (g[c].dataType in {Object, ByRef, ArrayByRef} && g[c].word.Pointer? && g[c].word.target != NULL ==>
              0 <= g[c].word.target < |m| && m[g[c].word.target].flags.alive)
  {
    forall r | r in protectedRoots + globalRoots ensures RootOk(g, gr, r) {
      if r in protectedRoots {
        var i :| 0 <= i < |protectedRoots| && protectedRoots[i] == r;
      } else {
        var i :| 0 <= i < |globalRoots| && globalRoots[i] == r;
      }
    }
    forall r | r in protectedRoots + globalRoots && (r.Single? || r.Force?) && r.obj != NULL ensures 0 <= r.obj < |m| && m[r.obj].flags.alive {
      RootMarked(g, gr, m, protectedRoots, globalRoots, pending, r, r.obj);
    }
    forall r, c {:trigger r in protectedRoots + globalRoots, g[c]} |
      && r in protectedRoots + globalRoots && r.Multiple? && r.lst != NULL && r.lst <= c < r.lst + r.num && 0 <= c < |g|
      ensures m[c].flags.alive && (g[c].dataType in {Object, ByRef, ArrayByRef} && g[c].word.Pointer? && g[c].word.target != NULL ==>
        0 <= g[c].word.target < |m| && m[g[c].word.target].flags.alive)
    {
      CellRootMarked(g, gr, m, protectedRoots, globalRoots, pending, r, c);
    }
  }

  lemma PendingBlocks(g: Memory, gr: Graph, reached: set<int>, alive0: seq<int>, pending0: seq<int>, alive: seq<int>, pending: seq<int>)
    requires FinalizersOk(g, gr, alive0) && FinalizersOk(g, gr, pending0) && pending0 <= pending
    requires Separated(reached, alive0, alive, pending[|pending0|..])
    ensures forall x :: x in pending || x in alive ==> x in gr.blk
  {
    forall x | x in pending || x in alive ensures x in gr.blk {
      SeparatedFrom(reached, alive0, alive, pending[|pending0|..], x);
      assert x in pending ==> x in pending0 || x in pending[|pending0|..];
    }
  }

  lemma FinalizersMarkedToo(g: Memory, gr: Graph, m: Memory, roots: set<int>, alive: seq<int>, pending: seq<int>)
    requires GraphOk(g, gr) && Marked(g, gr, m, roots) && Elements(pending) <= roots && MarkedUpTo(m, alive, |alive|)
    requires forall x :: x in pending ==> x in gr.blk
    ensures forall x :: x in pending || x in alive ==> 0 <= x < |m| && m[x].flags.alive
  {
    forall x | x in pending ensures 0 <= x < |m| && m[x].flags.alive {
      assert x in Elements(pending);
      RootReachable(g, gr, roots, x);
      ReachedMarked(g, gr, m, roots, x);
    }
    forall x | x in alive ensures 0 <= x < |m| && m[x].flags.alive {
      var k :| 0 <= k < |alive| && alive[k] == x;
    }
  }

  /** What has become marked is a root, or something that has become marked holds it. */
  lemma Held(g: Memory, gr: Graph, m: Memory, roots: set<int>, b: int)
    requires GraphOk(g, gr) && StartMarks(g, gr) && Marked(g, gr, m, roots)
    requires 0 <= b < |g| && ((b in gr.blk && !g[b].flags.event) || b in gr.dim) && m[b].flags.alive
    ensures || b in roots
      || (exists x {:trigger g[x]} :: 0 <= x < |g| && ((x in gr.blk && !g[x].flags.event) || x in gr.dim) && m[x].flags.alive
           && g[x].dataType in {Object, ByRef, ArrayByRef} && g[x].word.Pointer? && g[x].word.target != NULL && g[x].word.target == b)
      || (exists h, c {:trigger gr.blk[h], g[c]} ::
           && h in gr.blk && !g[h].flags.event && m[h].flags.alive && h < c < |g|
           && (|| (g[h].dataType in {Class, ValueType} && c < h + g[h].size) || (g[h].dataType == DelegateHead && c == h + 1)
               || (g[h].dataType == SzArray && g[h].word.ArrayHead? && g[h].word.fReference && c <= h + g[h].word.numOfElements)
               || (g[h].dataType == DelegateListHead && g[h].word.ListHead? && !g[h].word.weak && c <= h + g[h].word.length))
           && (c == b || (g[c].dataType in {Object, ByRef, ArrayByRef} && g[c].word.Pointer? && g[c].word.target != NULL && g[c].word.target == b)))
  {
    var p :| Path(g, gr, roots, p) && p[|p| - 1] == b;
    if |p| > 1 {
      assert StepAt(g, gr, p, |p| - 1);
      var x := p[|p| - 2];
      PathPrefix(g, gr, roots, p);
      assert x in gr.slots ==> SlotOk(g, gr, x);
      ReachedMarked(g, gr, m, roots, x);
      if b == SubOf(g[x]) {
        assert g[x].word.target == b;
      } else {
        var c :| ValueOf(g, x, c) && Names(g, c, b);
        ValuesByKind(g, x, c);
        assert gr.blk[x] == gr.blk[x] && (c == b || g[c].word.target == b);
      }
    }
  }

  lemma PathPrefix(g: Memory, gr: Graph, roots: set<int>, p: seq<int>)
    requires Path(g, gr, roots, p) && |p| > 1
    ensures Reachable(g, gr, roots, p[|p| - 2])
  {
    var q := p[..|p| - 1];
    forall i | 0 < i < |q| ensures StepAt(g, gr, q, i) { assert StepAt(g, gr, p, i); }
    assert Path(g, gr, roots, q) && q[|q| - 1] == p[|p| - 2];
  }

  /** After the marking whatever is marked has what it holds marked, kind by kind, and so have the roots. */
  lemma MarkedByKind(g: Memory, gr: Graph, m: Memory, protectedRoots: seq<Root>, globalRoots: seq<Root>,
          alive0: seq<int>, pending0: seq<int>, alive: seq<int>, pending: seq<int>)
    requires GraphOk(g, gr) && RootsOk(g, gr, protectedRoots) && RootsOk(g, gr, globalRoots)
    requires FinalizersOk(g, gr, alive0) && FinalizersOk(g, gr, pending0) && pending0 <= pending
    requires Marked(g, gr, m, PhaseRoots(g, gr, protectedRoots, globalRoots, pending)) && MarkedUpTo(m, alive, |alive|)
    requires Separated(ReachSet(g, gr, PhaseRoots(g, gr, protectedRoots, globalRoots, pending0)), alive0, alive, pending[|pending0|..])
    ensures forall b, c {:trigger gr.blk[b], g[c]} ::
        && b in gr.blk && !g[b].flags.event && m[b].flags.alive && b < c < |g|
        && (|| (g[b].dataType in {Class, ValueType} && c < b + g[b].size) || (g[b].dataType == DelegateHead && c == b + 1)
               || (g[b].dataType == SzArray && g[b].word.ArrayHead? && g[b].word.fReference && c <= b + g[b].word.numOfElements)
               || (g[b].dataType == DelegateListHead && g[b].word.ListHead? && !g[b].word.weak && c <= b + g[b].word.length))
        ==> m[c].flags.alive && (g[c].dataType in {Object, ByRef, ArrayByRef} && g[c].word.Pointer? && g[c].word.target != NULL ==>
              0 <= g[c].word.target < |m| && m[g[c].word.target].flags.alive)
    ensures forall x {:trigger g[x]} ::
        && 0 <= x < |g| && ((x in gr.blk && !g[x].flags.event) || x in gr.dim) && m[x].flags.alive
        && g[x].dataType in {Object, ByRef, ArrayByRef} && g[x].word.Pointer? && g[x].word.target != NULL
        ==> 0 <= g[x].word.target < |m| && m[g[x].word.target].flags.alive
    ensures forall r :: r in protectedRoots + globalRoots && (r.Single? || r.Force?) && r.obj != NULL ==> 0 <= r.obj < |m| && m[r.obj].flags.alive
    ensures forall r, c {:trigger r in protectedRoots + globalRoots, g[c]} ::
        && r in protectedRoots + globalRoots && r.Multiple? && r.lst != NULL && r.lst <= c < r.lst + r.num && 0 <= c < |g|
        ==> m[c].flags.alive && (g[c].dataType in {Object, ByRef, ArrayByRef} && g[c].word.Pointer? && g[c].word.target != NULL ==>
              0 <= g[c].word.target < |m| && m[g[c].word.target].flags.alive)
    ensures forall x :: x in pending || x in alive ==> 0 <= x < |m| && m[x].flags.alive
  {
    var roots := PhaseRoots(g, gr, protectedRoots, globalRoots, pending);
    HoldersComplete(g, gr, m, roots);
    RootsMarked(g, gr, m, protectedRoots, globalRoots, pending);
    PendingBlocks(g, gr, ReachSet(g, gr, PhaseRoots(g, gr, protectedRoots, globalRoots, pending0)), alive0, pending0, alive, pending);
    FinalizersMarkedToo(g, gr, m, roots, alive, pending);
  }

  class Marker {
    const mem: array<Cell>
    /** The only segment of the mark stack; its first element is the sentinel. */
    const markStack: array<MarkStackElement>
    var fOutOfStackSpaceForGC: bool
    /** The clusters of the heap. */
    const clusters: seq<Extent>
    /** The objects that have a finalizer, and those whose finalizer is due to run. */
    var finalizersAlive: seq<int>
    var finalizersPending: seq<int>

    ghost predicate Ready()
      reads this, markStack
    {
      markStack.Length >= 2 && markStack[0].num == 0
    }

    /** CLR_RT_GarbageCollector::ComputeReachabilityGraphForMultipleBlocks: visit the cells
        [lst0, lst0 + num0) and whatever hangs off them, with an explicit stack of ranges.  R is any set
        of blocks and slots that holds the range with what it refers to and is closed under references. */
    method ComputeReachabilityGraphForMultipleBlocks(lst0: int, num0: nat, ghost gr: Graph, ghost R: set<int>)
      requires Ready() && GraphOk(mem[..], gr) && Closed(mem[..], gr, R)
      requires StartOk(mem[..], gr, R, lst0, num0) && (0 <= lst0 < mem.Length || num0 == 0)
      modifies mem, markStack, this`fOutOfStackSpaceForGC
      ensures Ready() && Walked(old(mem[..]), gr, R, mem[..], lst0, num0, old(fOutOfStackSpaceForGC), fOutOfStackSpaceForGC)
    {
      ghost var g := mem[..];
      ghost var out0 := fOutOfStackSpaceForGC;
      ghost var q := StartQuest(g, gr, lst0, num0);
      ghost var begun := !(num0 == 1 && lst0 in gr.blk);
      if begun { RangeStart(g, gr, R, Work(markStack[..], 0, lst0, num0), out0); }
      var lst, num, stack, done := lst0, num0, 0, false;
      while !done
        invariant Ready() && 0 <= stack < markStack.Length
        invariant !begun ==> num0 == 1 && lst0 in gr.blk && mem[..] == g && !done
        invariant Walking(g, gr, R, lst, num, stack, begun, lst0, out0, q)
        invariant q == StartQuest(g, gr, lst0, num0).(pos := q.pos)
        invariant begun && num0 == 1 && lst0 in gr.blk ==> mem[lst0].flags.alive
        invariant done ==> num == 0 && stack == 0
        decreases !begun, !done, UnmarkedNodes(mem[..], gr), RangeInHand(mem[..], Work(markStack[..], stack, lst, num)), stack, markStack[stack].num
      {
        done, lst, num, stack, q := Advance(lst, num, stack, g, gr, R, begun, lst0, out0, q);
        begun := true;
      }
      WalkDone(g, gr, R, mem[..], Work(markStack[..], stack, lst, num), lst0, num0, out0, fOutOfStackSpaceForGC, q);
    }

    /** The state of the loop; before the first visit nothing has happened yet. */
    ghost predicate Walking(g: Memory, gr: Graph, R: set<int>, lst: int, num: nat, stack: int, begun: bool,
            start: int, out0: bool, q: Quest)
      requires GraphOk(g, gr)
      reads this, mem, markStack
    {
      if begun then LoopInv(g, gr, R, mem[..], Work(markStack[..], stack, lst, num), out0, fOutOfStackSpaceForGC, q)
      else lst == start && num == 1 && stack == 0 && mem[..] == g && fOutOfStackSpaceForGC == out0 && StartOk(g, gr, R, start, 1) && start in gr.blk && q == QuestOf(g[start], start)
    }

    /** One turn of the loop. */
    method Advance(lst0: int, num0: nat, stack0: int, ghost g: Memory, ghost gr: Graph, ghost R: set<int>,
            ghost begun: bool, ghost start: int, ghost out0: bool, ghost q: Quest)
      returns (done: bool, lst: int, num: nat, stack: int, ghost q': Quest)
      requires Ready() && 0 <= stack0 < markStack.Length && GraphOk(g, gr) && Closed(g, gr, R)
      requires Walking(g, gr, R, lst0, num0, stack0, begun, start, out0, q)
      modifies mem, markStack, this`fOutOfStackSpaceForGC
      ensures Ready() && 0 <= stack < markStack.Length
      ensures Walking(g, gr, R, lst, num, stack, true, start, out0, q') && q' == q.(pos := q'.pos)
      ensures done ==> num == 0 && stack == 0
      ensures forall a :: 0 <= a < mem.Length && old(mem[a]).flags.alive ==> mem[a].flags.alive
      ensures !begun ==> mem[start].flags.alive
      ensures begun && !done ==> Shrinks(gr, old(mem[..]), Work(old(markStack[..]), stack0, lst0, num0), mem[..], Work(markStack[..], stack, lst, num))
      ensures begun && done ==> mem[..] == old(mem[..])
    {
      ghost var m := mem[..];
      ghost var w := Work(markStack[..], stack0, lst0, num0);
      ghost var out := fOutOfStackSpaceForGC;
      var ptr, go;
      done, go, ptr, stack, q' := TakeCell(lst0, num0, stack0, g, gr, R, begun, start, out0, q);
      lst, num := NULL, 0;
      if go { lst, num := Visit(ptr); }
    }

    /** Choose the cell to visit: the next one of the stack, or the first of the range in hand, whose rest
        goes on the stack.  There is none when all is done, or when the stack has no room for the rest. */
    method TakeCell(lst0: int, num0: nat, stack0: int, ghost g: Memory, ghost gr: Graph, ghost R: set<int>,
            ghost begun: bool, ghost start: int, ghost out0: bool, ghost q: Quest)
      returns (done: bool, go: bool, ptr: int, stack: int, ghost q': Quest)
      requires Ready() && 0 <= stack0 < markStack.Length && GraphOk(g, gr) && Closed(g, gr, R)
      requires Walking(g, gr, R, lst0, num0, stack0, begun, start, out0, q)
      modifies markStack, this`fOutOfStackSpaceForGC
      ensures Ready() && 0 <= stack < markStack.Length && q' == q.(pos := q'.pos)
      ensures !begun ==> go && ptr == start && 0 <= SubOf(mem[ptr]) < mem.Length
      ensures !begun ==>
        LoopInv(g, gr, R, MarkedAt(mem[..], ptr), AfterVisit(mem[..], Work(markStack[..], stack, NULL, 0), ptr), out0, fOutOfStackSpaceForGC, q')
      ensures begun && !done ==>
        Taken(g, gr, R, mem[..], Work(old(markStack[..]), stack0, lst0, num0), out0, fOutOfStackSpaceForGC, go, ptr, Work(markStack[..], stack, NULL, 0), q')
      ensures done ==> begun && !go && stack == 0 && num0 == 0 && stack0 == 0
      ensures done ==> markStack[..] == old(markStack[..]) && q' == q && fOutOfStackSpaceForGC == old(fOutOfStackSpaceForGC)
    {
      done, go, ptr, stack, q' := false, true, lst0, stack0, q;
      if num0 == 0 {
        if markStack[stack].num == 0 {
          done, go := true, false;
        } else {
          ptr, stack, q' := TakeFromStack(lst0, stack0, g, gr, R, out0, q);
        }
      } else if num0 > 1 {
        go, stack, q' := TakeFromRange(lst0, num0, stack0, g, gr, R, out0, q);
      } else {
        q' := SingleStep(mem[..], Work(markStack[..], stack0, lst0, num0), g, gr, R, begun, start, out0, fOutOfStackSpaceForGC, q);
      }
    }

    method TakeFromStack(ghost lst0: int, stack0: int, ghost g: Memory, ghost gr: Graph, ghost R: set<int>,
            ghost out0: bool, ghost q: Quest)
      returns (ptr: int, stack: int, ghost q': Quest)
      requires 1 <= stack0 < markStack.Length && GraphOk(g, gr) && Closed(g, gr, R)
      requires LoopInv(g, gr, R, mem[..], Work(markStack[..], stack0, lst0, 0), out0, fOutOfStackSpaceForGC, q)
      modifies markStack
      ensures q' == q.(pos := q'.pos)
      ensures Taken(g, gr, R, mem[..], Work(old(markStack[..]), stack0, lst0, 0), out0, fOutOfStackSpaceForGC, true, ptr, Work(markStack[..], stack, NULL, 0), q')
    {
      PopStep(g, gr, R, mem[..], Work(markStack[..], stack0, lst0, 0), out0, fOutOfStackSpaceForGC, q);
      q' := Advanced(q, stack0 == 1);
      ptr, stack := PopCell(stack0, lst0);
    }

    method TakeFromRange(lst0: int, num0: nat, stack0: int, ghost g: Memory, ghost gr: Graph, ghost R: set<int>,
            ghost out0: bool, ghost q: Quest)
      returns (go: bool, stack: int, ghost q': Quest)
      requires Ready() && 0 <= stack0 < markStack.Length && GraphOk(g, gr) && Closed(g, gr, R) && num0 > 1
      requires LoopInv(g, gr, R, mem[..], Work(markStack[..], stack0, lst0, num0), out0, fOutOfStackSpaceForGC, q)
      modifies markStack, this`fOutOfStackSpaceForGC
      ensures q' == q.(pos := q'.pos)
      ensures Taken(g, gr, R, mem[..], Work(old(markStack[..]), stack0, lst0, num0), out0, fOutOfStackSpaceForGC, go, lst0, Work(markStack[..], stack, NULL, 0), q')
    {
      ghost var w := Work(markStack[..], stack0, lst0, num0);
      if stack0 == markStack.Length - 1 {
        // Out of stack space: drop the range; MarkSlow will complete the marking.
        DropStep(g, gr, R, mem[..], w, out0, fOutOfStackSpaceForGC, q);
        fOutOfStackSpaceForGC := true;
        go, stack, q' := false, stack0, q;
      } else {
        PushStep(g, gr, R, mem[..], w, out0, fOutOfStackSpaceForGC, q);
        go, q' := true, Advanced(q, stack0 == 0);
        stack := PushRest(stack0, lst0, num0);
      }
    }

    method PopCell(stack0: int, ghost lst0: int) returns (ptr: int, stack: int)
      requires 1 <= stack0 < markStack.Length && markStack[stack0].num >= 1
      modifies markStack
      ensures ptr == old(markStack[stack0]).ptr
      ensures Work(markStack[..], stack, NULL, 0) == Popped(Work(old(markStack[..]), stack0, lst0, 0))
      ensures markStack[0] == old(markStack[0])
    {
      stack := stack0;
      ptr := markStack[stack].ptr;
      markStack[stack] := MarkStackElement(markStack[stack].ptr + 1, markStack[stack].num - 1);
      if markStack[stack].num == 0 {
        stack := stack - 1;
      }
    }

    method PushRest(stack0: int, lst: int, num: nat) returns (stack: int)
      requires 0 <= stack0 && stack0 + 1 < markStack.Length && num > 1
      modifies markStack
      ensures Work(markStack[..], stack, NULL, 0) == Pushed(Work(old(markStack[..]), stack0, lst, num))
      ensures markStack[0] == old(markStack[0])
    {
      stack := stack0 + 1;
      markStack[stack] := MarkStackElement(lst + 1, num - 1);
    }

    lemma SingleStep(m: Memory, w: Work, g: Memory, gr: Graph, R: set<int>, begun: bool, start: int, out0: bool,
            out: bool, q: Quest) returns (q': Quest)
      requires GraphOk(g, gr) && Closed(g, gr, R) && w.num == 1 && |m| == |g| && 0 <= w.top < |w.st| && w.st[0].num == 0
      requires begun ==> LoopInv(g, gr, R, m, w, out0, out, q)
      requires !begun ==> w.lst == start && w.top == 0 && m == g && out == out0 && StartOk(g, gr, R, start, 1) && start in gr.blk && q == QuestOf(g[start], start)
      ensures 0 <= w.lst < |m| && Target(g, gr, SubOf(m[w.lst])) && q' == q.(pos := q'.pos)
      ensures !begun ==> LoopInv(g, gr, R, MarkedAt(m, w.lst), AfterVisit(m, w.(lst := NULL, num := 0), w.lst), out0, out, q')
      ensures begun ==> Taken(g, gr, R, m, w, out0, out, true, w.lst, w.(lst := NULL, num := 0), q')
    {
      q' := q;
      if !begun {
        ForcedStep(g, gr, R, w.st, start, out);
      } else if w.lst in gr.blk {
        BlockStep(g, gr, R, m, w, out0, out, q);
      } else {
        PushStep(g, gr, R, m, w, out0, out, q);
        q' := Advanced(q, w.top == 0);
      }
    }

    /** MarkAlive, and the choice of what to visit next. */
    method Visit(ptr: int) returns (lst: int, num: nat)
      requires 0 <= ptr < mem.Length && 0 <= SubOf(mem[ptr]) < mem.Length
      modifies mem
      ensures mem[..] == MarkedAt(old(mem[..]), ptr)
      ensures (lst, num) == NextRange(mem[..], ptr)
    {
      mem[ptr] := mem[ptr].(flags := mem[ptr].flags.(alive := true));
      lst, num := NULL, 0;
      var sub := NULL;
      match mem[ptr].dataType {
        case Object => sub := SubOf(mem[ptr]);
        case ByRef => sub := SubOf(mem[ptr]);
        case ArrayByRef => sub := SubOf(mem[ptr]);
        case _ =>
          num := ScanNum(mem[ptr]);
          if num > 0 { lst := ptr + 1; }
      }
      if sub != NULL {
        if !mem[sub].flags.alive {
          lst, num := sub, 1;
        }
      }
    }

    /** One walk inside the mark phase: R is what the roots reach. */
    method Walk(lst: int, num: nat, ghost g: Memory, ghost gr: Graph, ghost roots: set<int>)
      requires Ready() && GraphOk(g, gr) && |g| == mem.Length
      requires MarkState(g, gr, roots, mem[..], fOutOfStackSpaceForGC)
      requires StartOk(g, gr, ReachSet(g, gr, roots), lst, num) && (0 <= lst < mem.Length || num == 0)
      modifies mem, markStack, this`fOutOfStackSpaceForGC
      ensures Ready() && MarkState(g, gr, roots, mem[..], fOutOfStackSpaceForGC)
      ensures Walked(old(mem[..]), gr, ReachSet(g, gr, roots), mem[..], lst, num, old(fOutOfStackSpaceForGC), fOutOfStackSpaceForGC)
    {
      ghost var m := mem[..];
      ghost var out := fOutOfStackSpaceForGC;
      ReachSetClosed(g, gr, roots);
      GraphKept(g, m, gr, ReachSet(g, gr, roots));
      ComputeReachabilityGraphForMultipleBlocks(lst, num, gr, ReachSet(g, gr, roots));
      WalkKeepsState(g, gr, roots, m, out, mem[..], lst, num, fOutOfStackSpaceForGC);
    }

    /** CLR_RT_GarbageCollector::MarkSlow: as long as work was dropped, walk again from every marked block. */
    method MarkSlow(ghost g: Memory, ghost P: set<int>, ghost gr: Graph, ghost roots: set<int>)
      requires Ready() && GraphOk(g, gr) && StartMarks(g, gr) && |g| == mem.Length && Partition(P, gr.blk) && Layout(g, P, clusters)
      requires MarkState(g, gr, roots, mem[..], fOutOfStackSpaceForGC)
      modifies mem, markStack, this`fOutOfStackSpaceForGC
      ensures Ready() && !fOutOfStackSpaceForGC && MarkState(g, gr, roots, mem[..], false)
      ensures SameButMarks(old(mem[..]), mem[..])
    {
      while fOutOfStackSpaceForGC
        invariant Ready() && MarkState(g, gr, roots, mem[..], fOutOfStackSpaceForGC)
        invariant SameButMarks(old(mem[..]), mem[..])
        decreases UnmarkedBlocks(mem[..], gr), fOutOfStackSpaceForGC
      {
        MarkSlowPass(g, P, gr, roots);
      }
    }

    method MarkSlowPass(ghost g: Memory, ghost P: set<int>, ghost gr: Graph, ghost roots: set<int>)
      requires Ready() && GraphOk(g, gr) && StartMarks(g, gr) && |g| == mem.Length && Partition(P, gr.blk) && Layout(g, P, clusters)
      requires MarkState(g, gr, roots, mem[..], true)
      modifies mem, markStack, this`fOutOfStackSpaceForGC
      ensures Ready() && MarkState(g, gr, roots, mem[..], fOutOfStackSpaceForGC)
      ensures SameButMarks(old(mem[..]), mem[..])
      ensures UnmarkedBlocks(mem[..], gr) <= old(UnmarkedBlocks(mem[..], gr))
      ensures fOutOfStackSpaceForGC ==> UnmarkedBlocks(mem[..], gr) < old(UnmarkedBlocks(mem[..], gr))
    {
      ghost var mp := mem[..];
      fOutOfStackSpaceForGC := false;
      ghost var visited: set<int> := {};
      var i := 0;
      while i < |clusters|
        invariant 0 <= i <= |clusters| && Ready()
        invariant PassInv(g, gr, roots, mp, mem[..], fOutOfStackSpaceForGC, visited)
        invariant forall b, k :: b in gr.blk && 0 <= k < i && clusters[k].start <= b < clusters[k].end ==> b in visited
      {
        visited := MarkSlowCluster(clusters[i].start, clusters[i].end, mp, g, P, gr, roots, visited);
        i := i + 1;
      }
      forall b | b in gr.blk ensures b in visited {
        assert Inside(gr.blk, b, b);
        assert InSome(clusters, b);
        var k :| 0 <= k < |clusters| && clusters[k].start <= b < clusters[k].end;
      }
      PassDone(g, gr, roots, mp, mem[..], fOutOfStackSpaceForGC, visited);
    }

    method MarkSlowCluster(start: int, end: int, ghost mp: Memory, ghost g: Memory, ghost P: set<int>,
            ghost gr: Graph, ghost roots: set<int>, ghost visited: set<int>)
      returns (ghost visited': set<int>)
      requires Ready() && GraphOk(g, gr) && StartMarks(g, gr) && |g| == mem.Length == |mp| && Partition(P, gr.blk) && ClusterIn(g, P, start, end)
      requires PassInv(g, gr, roots, mp, mem[..], fOutOfStackSpaceForGC, visited)
      modifies mem, markStack, this`fOutOfStackSpaceForGC
      ensures Ready() && PassInv(g, gr, roots, mp, mem[..], fOutOfStackSpaceForGC, visited')
      ensures visited <= visited' && forall b :: b in gr.blk && start <= b < end ==> b in visited'
    {
      visited' := visited;
      var ptr := start;
      while ptr < end
        invariant start <= ptr <= end && Ready() && (ptr < end ==> ptr in gr.blk)
        invariant PassInv(g, gr, roots, mp, mem[..], fOutOfStackSpaceForGC, visited')
        invariant visited <= visited' && forall b :: b in gr.blk && start <= b < ptr ==> b in visited'
      {
        BlockFits(P, start, end, gr.blk, ptr);
        MarkSlowBlock(ptr, mp, g, gr, roots, visited');
        visited' := visited' + {ptr};
        ptr := ptr + mem[ptr].size;
      }
    }

    method MarkSlowBlock(ptr: int, ghost mp: Memory, ghost g: Memory, ghost gr: Graph, ghost roots: set<int>,
            ghost visited: set<int>)
      requires Ready() && GraphOk(g, gr) && StartMarks(g, gr) && |g| == mem.Length == |mp| && ptr in gr.blk
      requires PassInv(g, gr, roots, mp, mem[..], fOutOfStackSpaceForGC, visited)
      modifies mem, markStack, this`fOutOfStackSpaceForGC
      ensures Ready() && PassInv(g, gr, roots, mp, mem[..], fOutOfStackSpaceForGC, visited + {ptr})
      ensures mem[ptr].size == gr.blk[ptr]
    {
      ghost var m := mem[..];
      ghost var out := fOutOfStackSpaceForGC;
      if mem[ptr].flags.alive && !mem[ptr].flags.event {
        assert Fresh(g, m, ptr);
        ReachSetClosed(g, gr, roots);
        GraphKept(g, m, gr, ReachSet(g, gr, roots));
        ComputeReachabilityGraphForMultipleBlocks(ptr, 1, gr, ReachSet(g, gr, roots));
        PassVisit(g, gr, roots, mp, m, out, mem[..], ptr, fOutOfStackSpaceForGC, visited);
      } else {
        PassSkip(g, gr, roots, mp, m, out, ptr, visited);
      }
    }

    /** CLR_RT_GarbageCollector::Mark.  What the global markers (protected blocks; static fields, threads,
        locks, wait objects) enumerate before and after the pending finalizers is passed in.
        Whatever is marked has what it holds marked, kind by kind. */
    method Mark(protectedRoots: seq<Root>, globalRoots: seq<Root>, ghost P: set<int>, ghost gr: Graph)
      requires Ready() && GraphOk(mem[..], gr) && Partition(P, gr.blk) && Layout(mem[..], P, clusters)
      requires StartMarks(mem[..], gr)
      requires RootsOk(mem[..], gr, protectedRoots) && RootsOk(mem[..], gr, globalRoots)
      requires FinalizersOk(mem[..], gr, finalizersAlive) && FinalizersOk(mem[..], gr, finalizersPending)
      modifies mem, markStack, this`fOutOfStackSpaceForGC, this`finalizersAlive, this`finalizersPending
      ensures Ready() && !fOutOfStackSpaceForGC
      ensures Marked(old(mem[..]), gr, mem[..], PhaseRoots(old(mem[..]), gr, protectedRoots, globalRoots, finalizersPending))
      ensures old(finalizersPending) <= finalizersPending
      ensures Separated(ReachSet(old(mem[..]), gr, PhaseRoots(old(mem[..]), gr, protectedRoots, globalRoots, old(finalizersPending))),
                    old(finalizersAlive), finalizersAlive, finalizersPending[|old(finalizersPending)|..])
      ensures MarkedUpTo(mem[..], finalizersAlive, |finalizersAlive|)
      ensures var g, m := old(mem[..]), mem[..];
        forall b, c {:trigger gr.blk[b], g[c]} ::
          && b in gr.blk && !g[b].flags.event && m[b].flags.alive && b < c < |g|
          && (|| (g[b].dataType in {Class, ValueType} && c < b + g[b].size) || (g[b].dataType == DelegateHead && c == b + 1)
                 || (g[b].dataType == SzArray && g[b].word.ArrayHead? && g[b].word.fReference && c <= b + g[b].word.numOfElements)
                 || (g[b].dataType == DelegateListHead && g[b].word.ListHead? && !g[b].word.weak && c <= b + g[b].word.length))
          ==> m[c].flags.alive && (g[c].dataType in {Object, ByRef, ArrayByRef} && g[c].word.Pointer? && g[c].word.target != NULL ==>
                0 <= g[c].word.target < |m| && m[g[c].word.target].flags.alive)
      ensures var g, m := old(mem[..]), mem[..];
        forall x {:trigger g[x]} ::
          && 0 <= x < |g| && ((x in gr.blk && !g[x].flags.event) || x in gr.dim) && m[x].flags.alive
          && g[x].dataType in {Object, ByRef, ArrayByRef} && g[x].word.Pointer? && g[x].word.target != NULL
          ==> 0 <= g[x].word.target < |m| && m[g[x].word.target].flags.alive
      ensures var m := mem[..];
        forall r :: r in protectedRoots + globalRoots && (r.Single? || r.Force?) && r.obj != NULL ==> 0 <= r.obj < |m| && m[r.obj].flags.alive
      ensures var g, m := old(mem[..]), mem[..];
        forall r, c {:trigger r in protectedRoots + globalRoots, g[c]} ::
          && r in protectedRoots + globalRoots && r.Multiple? && r.lst != NULL && r.lst <= c < r.lst + r.num && 0 <= c < |g|
          ==> m[c].flags.alive && (g[c].dataType in {Object, ByRef, ArrayByRef} && g[c].word.Pointer? && g[c].word.target != NULL ==>
                0 <= g[c].word.target < |m| && m[g[c].word.target].flags.alive)
      ensures forall x :: x in finalizersPending || x in finalizersAlive ==> 0 <= x < mem.Length && mem[x].flags.alive
    {
      ghost var g, alive0, pending0 := mem[..], finalizersAlive, finalizersPending;
      MarkAll(protectedRoots, globalRoots, P, gr);
      MarkedByKind(g, gr, mem[..], protectedRoots, globalRoots, alive0, pending0, finalizersAlive, finalizersPending);
    }

    /** Mark, in terms of the graph. */
    method MarkAll(protectedRoots: seq<Root>, globalRoots: seq<Root>, ghost P: set<int>, ghost gr: Graph)
      requires Ready() && GraphOk(mem[..], gr) && Partition(P, gr.blk) && Layout(mem[..], P, clusters)
      requires StartMarks(mem[..], gr)
      requires RootsOk(mem[..], gr, protectedRoots) && RootsOk(mem[..], gr, globalRoots)
      requires FinalizersOk(mem[..], gr, finalizersAlive) && FinalizersOk(mem[..], gr, finalizersPending)
      modifies mem, markStack, this`fOutOfStackSpaceForGC, this`finalizersAlive, this`finalizersPending
      ensures Ready() && !fOutOfStackSpaceForGC
      ensures Marked(old(mem[..]), gr, mem[..], PhaseRoots(old(mem[..]), gr, protectedRoots, globalRoots, finalizersPending))
      ensures old(finalizersPending) <= finalizersPending
      ensures Separated(ReachSet(old(mem[..]), gr, PhaseRoots(old(mem[..]), gr, protectedRoots, globalRoots, old(finalizersPending))),
                    old(finalizersAlive), finalizersAlive, finalizersPending[|old(finalizersPending)|..])
      ensures MarkedUpTo(mem[..], finalizersAlive, |finalizersAlive|)
    {
      ghost var g := mem[..];
      ghost var pending0 := finalizersPending;
      ghost var roots := PhaseRoots(g, gr, protectedRoots, globalRoots, finalizersPending);
      ghost var roots', moved;
      MarkGlobals(protectedRoots, globalRoots, g, P, gr, roots);
      roots', moved := PrepareFinalizers(g, gr, roots);
      if fOutOfStackSpaceForGC { MarkSlow(g, P, gr, roots'); }
      MarkedExactly(g, gr, roots', mem[..]);
      assert finalizersPending[|pending0|..] == moved;
      assert Elements(finalizersPending) == Elements(pending0) + Elements(moved);
      assert roots' == PhaseRoots(g, gr, protectedRoots, globalRoots, finalizersPending);
    }

    method MarkGlobals(protectedRoots: seq<Root>, globalRoots: seq<Root>, ghost g: Memory, ghost P: set<int>,
            ghost gr: Graph, ghost roots: set<int>)
      requires Ready() && mem[..] == g && GraphOk(g, gr) && Partition(P, gr.blk) && Layout(g, P, clusters)
      requires StartMarks(g, gr)
      requires RootsOk(g, gr, protectedRoots) && RootsOk(g, gr, globalRoots) && FinalizersOk(g, gr, finalizersPending)
      requires roots == PhaseRoots(g, gr, protectedRoots, globalRoots, finalizersPending)
      modifies mem, markStack, this`fOutOfStackSpaceForGC
      ensures Ready() && !fOutOfStackSpaceForGC && MarkState(g, gr, roots, mem[..], false) && AllMarked(mem[..], gr, roots)
    {
      fOutOfStackSpaceForGC := false;
      StartState(g, gr, roots);
      WalkGlobals(protectedRoots, globalRoots, g, gr, roots);
      if fOutOfStackSpaceForGC { MarkSlow(g, P, gr, roots); }
    }

    method WalkGlobals(protectedRoots: seq<Root>, globalRoots: seq<Root>, ghost g: Memory, ghost gr: Graph,
            ghost roots: set<int>)
      requires Ready() && GraphOk(g, gr) && |g| == mem.Length
      requires RootsOk(g, gr, protectedRoots) && RootsOk(g, gr, globalRoots) && FinalizersOk(g, gr, finalizersPending)
      requires roots == PhaseRoots(g, gr, protectedRoots, globalRoots, finalizersPending)
      requires MarkState(g, gr, roots, mem[..], fOutOfStackSpaceForGC)
      modifies mem, markStack, this`fOutOfStackSpaceForGC
      ensures Ready() && MarkState(g, gr, roots, mem[..], fOutOfStackSpaceForGC) && AllMarked(mem[..], gr, roots)
    {
      MarkRoots(protectedRoots, g, gr, roots);
      ghost var m1 := mem[..];
      MarkPending(g, gr, roots);
      ghost var m2 := mem[..];
      MarkRoots(globalRoots, g, gr, roots);
      PhaseMarked(gr, RootBlocks(g, gr, protectedRoots), Elements(finalizersPending), RootBlocks(g, gr, globalRoots), m1, m2, mem[..]);
    }

    method MarkRoots(rs: seq<Root>, ghost g: Memory, ghost gr: Graph, ghost roots: set<int>)
      requires Ready() && GraphOk(g, gr) && |g| == mem.Length && RootsOk(g, gr, rs)
      requires MarkState(g, gr, roots, mem[..], fOutOfStackSpaceForGC) && RootBlocks(g, gr, rs) <= roots
      modifies mem, markStack, this`fOutOfStackSpaceForGC
      ensures Ready() && MarkState(g, gr, roots, mem[..], fOutOfStackSpaceForGC) && SameButMarks(old(mem[..]), mem[..])
      ensures AllMarked(mem[..], gr, RootBlocks(g, gr, rs))
    {
      var i := 0;
      while i < |rs|
        invariant 0 <= i <= |rs| && Ready()
        invariant MarkState(g, gr, roots, mem[..], fOutOfStackSpaceForGC) && SameButMarks(old(mem[..]), mem[..])
        invariant forall b, k :: Vertex(gr, b) && 0 <= k < i && RootOf(g, rs[k], b) ==> mem[b].flags.alive
      {
        forall b | Vertex(gr, b) && RootOf(g, rs[i], b) ensures b in roots {
          assert b in RootBlocks(g, gr, rs);
        }
        MarkRoot(rs[i], g, gr, roots);
        i := i + 1;
      }
    }

    method MarkRoot(r: Root, ghost g: Memory, ghost gr: Graph, ghost roots: set<int>)
      requires Ready() && GraphOk(g, gr) && |g| == mem.Length && RootOk(g, gr, r)
      requires MarkState(g, gr, roots, mem[..], fOutOfStackSpaceForGC)
      requires forall b :: Vertex(gr, b) && RootOf(g, r, b) ==> b in roots
      modifies mem, markStack, this`fOutOfStackSpaceForGC
      ensures Ready() && MarkState(g, gr, roots, mem[..], fOutOfStackSpaceForGC) && SameButMarks(old(mem[..]), mem[..])
      ensures forall b :: Vertex(gr, b) && RootOf(g, r, b) ==> mem[b].flags.alive
    {
      match r {
        case Single(obj) => CheckSingleBlock(obj, g, gr, roots);
        case Force(obj) =>
          if obj != NULL {
            SingleStarts(g, gr, roots, mem[..], obj);
            Walk(obj, 1, g, gr, roots);
          }
        case Multiple(lst, num) =>
          if lst != NULL {
            ghost var m := mem[..];
            RangeStarts(g, gr, roots, lst, num);
            Walk(lst, num, g, gr, roots);
            forall b | Vertex(gr, b) && RootOf(g, r, b) ensures mem[b].flags.alive {
              var c :| 0 <= c < |g| && lst <= c < lst + num && Names(g, c, b);
              assert SubOf(m[c]) == SubOf(g[c]);
            }
          }
      }
    }

    /** CLR_RT_GarbageCollector::ComputeReachabilityGraphForSingleBlock. */
    method CheckSingleBlock(obj: int, ghost g: Memory, ghost gr: Graph, ghost roots: set<int>)
      requires Ready() && GraphOk(g, gr) && |g| == mem.Length && Target(g, gr, obj)
      requires MarkState(g, gr, roots, mem[..], fOutOfStackSpaceForGC)
      requires obj != NULL ==> obj in roots
      modifies mem, markStack, this`fOutOfStackSpaceForGC
      ensures Ready() && MarkState(g, gr, roots, mem[..], fOutOfStackSpaceForGC) && SameButMarks(old(mem[..]), mem[..])
      ensures obj != NULL ==> mem[obj].flags.alive
    {
      if obj == NULL || mem[obj].flags.alive { return; }
      SingleStarts(g, gr, roots, mem[..], obj);
      Walk(obj, 1, g, gr, roots);
    }

    method MarkPending(ghost g: Memory, ghost gr: Graph, ghost roots: set<int>)
      requires Ready() && GraphOk(g, gr) && |g| == mem.Length && FinalizersOk(g, gr, finalizersPending)
      requires MarkState(g, gr, roots, mem[..], fOutOfStackSpaceForGC) && Elements(finalizersPending) <= roots
      modifies mem, markStack, this`fOutOfStackSpaceForGC
      ensures Ready() && MarkState(g, gr, roots, mem[..], fOutOfStackSpaceForGC) && SameButMarks(old(mem[..]), mem[..])
      ensures AllMarked(mem[..], gr, Elements(finalizersPending))
    {
      var i := 0;
      while i < |finalizersPending|
        invariant 0 <= i <= |finalizersPending| && Ready()
        invariant MarkState(g, gr, roots, mem[..], fOutOfStackSpaceForGC) && SameButMarks(old(mem[..]), mem[..])
        invariant forall k :: 0 <= k < i ==> mem[finalizersPending[k]].flags.alive
      {
        assert finalizersPending[i] in Elements(finalizersPending);
        CheckSingleBlock(finalizersPending[i], g, gr, roots);
        i := i + 1;
      }
    }

    /** Prepare the finalization of objects: a finalizer whose object is still not marked moves to the
        pending list, and its object is marked one last time. */
    method PrepareFinalizers(ghost g: Memory, ghost gr: Graph, ghost roots: set<int>) returns (ghost roots': set<int>,
            ghost moved: seq<int>)
      requires Ready() && GraphOk(g, gr) && |g| == mem.Length && FinalizersOk(g, gr, finalizersAlive)
      requires StartMarks(g, gr) && !fOutOfStackSpaceForGC && MarkState(g, gr, roots, mem[..], false) && AllMarked(mem[..], gr, roots)
      modifies mem, markStack, this`fOutOfStackSpaceForGC, this`finalizersAlive, this`finalizersPending
      ensures Ready() && MarkState(g, gr, roots', mem[..], fOutOfStackSpaceForGC) && AllMarked(mem[..], gr, roots')
      ensures roots' == roots + Elements(moved) && finalizersPending == old(finalizersPending) + moved
      ensures Separated(ReachSet(g, gr, roots), old(finalizersAlive), finalizersAlive, moved)
      ensures MarkedUpTo(mem[..], finalizersAlive, |finalizersAlive|)
    {
      ghost var alive0, pending0 := finalizersAlive, finalizersPending;
      FinalizerReached(g, gr, roots, mem[..]);
      roots', moved := roots, [];
      var i := 0;
      while i < |finalizersAlive|
        invariant Ready() && Preparing(g, gr, roots, roots', ReachSet(g, gr, roots), alive0, pending0, moved, i)
        decreases |finalizersAlive| - i
      {
        if !mem[finalizersAlive[i]].flags.alive {
          roots', moved := MoveToPending(i, g, gr, roots, roots', ReachSet(g, gr, roots), alive0, pending0, moved);
        } else {
          SkipMarked(g, gr, roots, roots', ReachSet(g, gr, roots), alive0, pending0, moved, i);
          i := i + 1;
        }
      }
    }

    lemma SkipMarked(g: Memory, gr: Graph, roots: set<int>, roots': set<int>, reached: set<int>, alive0: seq<int>,
            pending0: seq<int>, moved: seq<int>, i: int)
      requires SizesMatch(g, gr.blk) && |g| == mem.Length
      requires Preparing(g, gr, roots, roots', reached, alive0, pending0, moved, i)
      requires i < |finalizersAlive| && mem[finalizersAlive[i]].flags.alive
      ensures Preparing(g, gr, roots, roots', reached, alive0, pending0, moved, i + 1)
    {
      MarkedNext(g, gr, mem[..], finalizersAlive, i);
    }

    ghost predicate Preparing(g: Memory, gr: Graph, roots: set<int>, roots': set<int>, reached: set<int>,
            alive0: seq<int>, pending0: seq<int>, moved: seq<int>, i: int)
      requires SizesMatch(g, gr.blk) && |g| == mem.Length
      reads this, mem
    {
      && FinalizersOk(g, gr, finalizersAlive)
      && MarkState(g, gr, roots', mem[..], fOutOfStackSpaceForGC)
      && AllMarked(mem[..], gr, roots' + reached)
      && roots' == roots + Elements(moved) && finalizersPending == pending0 + moved
      && Separated(reached, alive0, finalizersAlive, moved)
      && MarkedUpTo(mem[..], finalizersAlive, i)
    }

    method MoveToPending(i: int, ghost g: Memory, ghost gr: Graph, ghost roots: set<int>, ghost roots0: set<int>,
            ghost reached: set<int>, ghost alive0: seq<int>, ghost pending0: seq<int>, ghost moved0: seq<int>)
      returns (ghost roots': set<int>, ghost moved: seq<int>)
      requires Ready() && GraphOk(g, gr) && |g| == mem.Length
      requires Preparing(g, gr, roots, roots0, reached, alive0, pending0, moved0, i)
      requires i < |finalizersAlive| && !mem[finalizersAlive[i]].flags.alive
      modifies mem, markStack, this`fOutOfStackSpaceForGC, this`finalizersAlive, this`finalizersPending
      ensures Ready() && Preparing(g, gr, roots, roots', reached, alive0, pending0, moved, i)
      ensures |finalizersAlive| == old(|finalizersAlive|) - 1
    {
      var fin := finalizersAlive[i];
      SeparatedStep(g, gr, mem[..], reached, alive0, finalizersAlive, moved0, i);
      Resurrect(fin, g, gr, roots0, reached);
      finalizersAlive := finalizersAlive[..i] + finalizersAlive[i + 1..];
      finalizersPending := finalizersPending + [fin];
      roots', moved := roots0 + {fin}, moved0 + [fin];
      assert roots' + reached == roots0 + {fin} + reached;
    }

    method Resurrect(fin: int, ghost g: Memory, ghost gr: Graph, ghost roots: set<int>, ghost reached: set<int>)
      requires Ready() && GraphOk(g, gr) && |g| == mem.Length && Target(g, gr, fin) && fin != NULL
      requires MarkState(g, gr, roots, mem[..], fOutOfStackSpaceForGC) && AllMarked(mem[..], gr, roots + reached)
      modifies mem, markStack, this`fOutOfStackSpaceForGC
      ensures Ready() && MarkState(g, gr, roots + {fin}, mem[..], fOutOfStackSpaceForGC)
      ensures AllMarked(mem[..], gr, roots + {fin} + reached) && SameButMarks(old(mem[..]), mem[..])
    {
      MoreRoots(g, gr, roots, roots + {fin}, mem[..], fOutOfStackSpaceForGC);
      CheckSingleBlock(fin, g, gr, roots + {fin});
    }
  }
}
