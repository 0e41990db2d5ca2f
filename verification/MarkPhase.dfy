/** What holds between two walks of the mark phase. */
module MarkPhase {
  import opened HeapCells
  import opened Partitions
  import opened Sweeping
  import opened HeapGraph
  import opened MarkSteps

  /** The blocks and the slots that can be reached from the roots. */
  ghost function ReachSet(g: Memory, gr: Graph, roots: set<int>): set<int> {
    set x | x in gr.blk.Keys + gr.slots && Reachable(g, gr, roots, x)
  }

  lemma ReachSetClosed(g: Memory, gr: Graph, roots: set<int>)
    requires GraphOk(g, gr)
    ensures Closed(g, gr, ReachSet(g, gr, roots))
  {
    forall x, y | x in ReachSet(g, gr, roots) && Edge(g, gr, x, y) ensures y in ReachSet(g, gr, roots) {
      EdgeReachable(g, gr, roots, x, y);
      EdgeTarget(g, gr, x, y);
    }
  }

  lemma EdgeTarget(g: Memory, gr: Graph, x: int, y: int)
    requires GraphOk(g, gr) && Vertex(gr, x) && Edge(g, gr, x, y)
    ensures y != NULL && Target(g, gr, y) && Vertex(gr, y) && 0 < y < |g|
  {
    if x in gr.blk && y != SubOf(g[x]) {
      var c :| ValueOf(g, x, c) && Names(g, c, y);
      assert Leaf(g, gr, c);
    }
  }

  /** More roots reach more. */
  lemma ReachSetGrows(g: Memory, gr: Graph, roots: set<int>, more: set<int>)
    requires roots <= more
    ensures ReachSet(g, gr, roots) <= ReachSet(g, gr, more)
  {
    forall b | b in ReachSet(g, gr, roots) ensures b in ReachSet(g, gr, more) {
      var p :| Path(g, gr, roots, p) && p[|p| - 1] == b;
      assert Path(g, gr, more, p);
    }
  }

  /** The marks before the phase: on event blocks and, from earlier collections, on slots that are not dim. */
  ghost predicate StartMarks(g: Memory, gr: Graph)
    requires SizesMatch(g, gr.blk)
  {
    && (forall b :: b in gr.blk && g[b].flags.alive ==> g[b].flags.event)
    && (forall c :: c in gr.dim && 0 <= c < |g| ==> !g[c].flags.alive)
  }

  /** The marks so far, on a heap that started out as g. */
  ghost predicate MarkState(g: Memory, gr: Graph, roots: set<int>, m: Memory, out: bool) {
    && SameButMarks(g, m)
    && (forall x :: Vertex(gr, x) && Fresh(g, m, x) ==> x in ReachSet(g, gr, roots) && (x in gr.blk ==> g[x].dataType != FreeBlock))
    && (forall c :: c in gr.slots && Fresh(g, m, c) ==> MarkedOrNull(m, SubOf(g[c])))
    && (out || forall b :: b in gr.blk && Fresh(g, m, b) ==> Complete(g, gr, m, b))
  }

  /** One more walk keeps the state. */
  lemma WalkKeepsState(g: Memory, gr: Graph, roots: set<int>, m: Memory, out: bool, m': Memory, lst: int, num: nat,
          out': bool)
    requires GraphOk(g, gr) && MarkState(g, gr, roots, m, out)
    requires 0 <= lst && lst + num <= |m|
    requires Walked(m, gr, ReachSet(g, gr, roots), m', lst, num, out, out')
    ensures MarkState(g, gr, roots, m', out')
    ensures forall b :: Complete(g, gr, m, b) ==> Complete(g, gr, m', b)
  {
    GraphKept(g, m, gr, {});
    assert forall x :: Fresh(g, m', x) ==> Fresh(g, m, x) || Fresh(m, m', x);
    forall x | Vertex(gr, x) && Fresh(g, m', x)
      ensures x in ReachSet(g, gr, roots) && (x in gr.blk ==> g[x].dataType != FreeBlock && (out' || Complete(g, gr, m', x)))
      ensures x in gr.slots ==> MarkedOrNull(m', SubOf(g[x]))
    {
      if Fresh(m, m', x) {
        assert x in gr.blk && !out' ==> Complete(m, gr, m', x);
        assert SubOf(m[x]) == SubOf(g[x]);
      }
    }
  }

  /** When every marked block is complete, the blocks and slots that have become marked are exactly the
      reachable ones. */
  lemma ExactlyReachable(g: Memory, gr: Graph, roots: set<int>, m: Memory)
    requires GraphOk(g, gr) && StartMarks(g, gr) && MarkState(g, gr, roots, m, false) && AllMarked(m, gr, roots)
    ensures forall x :: Vertex(gr, x) && 0 <= x < |g| && !g[x].flags.alive ==> (m[x].flags.alive <==> Reachable(g, gr, roots, x))
  {
    forall x | Vertex(gr, x) && 0 <= x < |g| && !g[x].flags.alive ensures m[x].flags.alive <==> Reachable(g, gr, roots, x) {
      if Reachable(g, gr, roots, x) { ReachableMarked(g, gr, roots, m, x); }
      if m[x].flags.alive { assert Fresh(g, m, x); }
    }
  }

  lemma ReachableMarked(g: Memory, gr: Graph, roots: set<int>, m: Memory, x: int)
    requires GraphOk(g, gr) && StartMarks(g, gr) && MarkState(g, gr, roots, m, false) && AllMarked(m, gr, roots)
    requires Reachable(g, gr, roots, x)
    ensures Vertex(gr, x) && 0 <= x < |m| && m[x].flags.alive
  {
    var X := MarkedClosed(g, gr, roots, m);
    forall r | r in roots ensures r in X { }
    var p :| Path(g, gr, roots, p) && p[|p| - 1] == x;
    ClosedHoldsReachable(g, gr, roots, X, p);
  }

  lemma MarkedClosed(g: Memory, gr: Graph, roots: set<int>, m: Memory) returns (X: set<int>)
    requires GraphOk(g, gr) && StartMarks(g, gr) && MarkState(g, gr, roots, m, false)
    ensures forall x :: x in X <==> Vertex(gr, x) && 0 <= x < |m| && m[x].flags.alive
    ensures Closed(g, gr, X)
  {
    X := set x | x in gr.blk.Keys + gr.slots && 0 <= x < |m| && m[x].flags.alive;
    forall x, y | x in X && Edge(g, gr, x, y) ensures y in X {
      EdgeTarget(g, gr, x, y);
      assert Fresh(g, m, x);
      assert x in gr.blk ==> Complete(g, gr, m, x);
    }
  }

  // ---------- The slow pass ----------

  /** In the middle of a slow pass over the heap, which began with the marks mp: the blocks that are not
      complete yet have not been visited yet, or the flag is set and something has been marked. */
  ghost predicate PassInv(g: Memory, gr: Graph, roots: set<int>, mp: Memory, m: Memory, out: bool, visited: set<int>)
    requires SizesMatch(g, gr.blk) && |mp| == |g|
  {
    && MarkState(g, gr, roots, m, true)
    && SameButMarks(mp, m)
    && (out || forall b :: b in gr.blk && Fresh(g, m, b) && !Complete(g, gr, m, b) ==> b !in visited)
    && (out ==> AnyFresh(mp, gr, m))
  }

  lemma PassVisit(g: Memory, gr: Graph, roots: set<int>, mp: Memory, m: Memory, out: bool, m': Memory, b: int,
          out': bool, visited: set<int>)
    requires GraphOk(g, gr) && |mp| == |g| && PassInv(g, gr, roots, mp, m, out, visited) && b in gr.blk
    requires Walked(m, gr, ReachSet(g, gr, roots), m', b, 1, out, out')
    ensures PassInv(g, gr, roots, mp, m', out', visited + {b})
  {
    GraphKept(g, m, gr, {});
    WalkKeepsState(g, gr, roots, m, true, m', b, 1, true);
    if !out' {
      forall x | x in gr.blk && Fresh(g, m', x) && !Complete(g, gr, m', x) ensures x !in visited + {b} {
        assert Fresh(m, m', x) ==> Complete(m, gr, m', x);
        assert Complete(m, gr, m', b);
      }
    }
    if out' {
      if out {
        var x :| x in gr.blk && Fresh(mp, m, x);
        assert Fresh(mp, m', x);
      } else {
        var x :| x in gr.blk && Fresh(m, m', x);
        assert Fresh(mp, m', x);
      }
    }
  }

  /** Skipping a block that is not marked, or is an event. */
  lemma PassSkip(g: Memory, gr: Graph, roots: set<int>, mp: Memory, m: Memory, out: bool, b: int, visited: set<int>)
    requires GraphOk(g, gr) && |mp| == |g| && PassInv(g, gr, roots, mp, m, out, visited) && b in gr.blk
    requires !m[b].flags.alive || g[b].flags.event
    ensures PassInv(g, gr, roots, mp, m, out, visited + {b})
  {
  }

  lemma PassDone(g: Memory, gr: Graph, roots: set<int>, mp: Memory, m: Memory, out: bool, visited: set<int>)
    requires GraphOk(g, gr) && |mp| == |g| && SameButMarks(g, mp) && PassInv(g, gr, roots, mp, m, out, visited)
    requires forall b :: b in gr.blk ==> b in visited
    ensures MarkState(g, gr, roots, m, out)
    ensures UnmarkedBlocks(m, gr) <= UnmarkedBlocks(mp, gr)
    ensures out ==> UnmarkedBlocks(m, gr) < UnmarkedBlocks(mp, gr)
  {
    if out {
      var x :| x in gr.blk && Fresh(mp, m, x);
      assert x in UnmarkedBlocks(mp, gr) && x !in UnmarkedBlocks(m, gr);
    }
  }

  // ---------- Roots ----------

  /** How the global markers hand out roots: CheckSingleBlock, CheckSingleBlock_Force on an object, and
      CheckMultipleBlocks on a range of cells. */
  datatype Root = Single(obj: int) | Force(obj: int) | Multiple(lst: int, num: nat)

  ghost predicate RootOk(g: Memory, gr: Graph, r: Root)
    requires SizesMatch(g, gr.blk)
  {
    match r
    case Single(o) => Target(g, gr, o)
    case Force(o) => o == NULL || (o in gr.blk && g[o].dataType != FreeBlock && !g[o].flags.event)
    case Multiple(lst, num) => lst == NULL || (0 < lst && lst + num <= |g| && (num > 0 ==> lst < |g|) && Leaves(g, gr, lst, num))
  }

  /** The blocks and the slots a root stands for. */
  ghost predicate RootOf(g: Memory, r: Root, b: int) {
    b != NULL &&
    match r
    case Single(o) => b == o
    case Force(o) => b == o
    case Multiple(lst, num) => lst != NULL && exists c :: 0 <= c < |g| && lst <= c < lst + num && Names(g, c, b)
  }

  ghost function RootBlocks(g: Memory, gr: Graph, roots: seq<Root>): set<int> {
    set b | b in gr.blk.Keys + gr.slots && exists i :: 0 <= i < |roots| && RootOf(g, roots[i], b)
  }

  ghost predicate RootsOk(g: Memory, gr: Graph, roots: seq<Root>)
    requires SizesMatch(g, gr.blk)
  {
    forall i :: 0 <= i < |roots| ==> RootOk(g, gr, roots[i])
  }

  /** The objects that finalizers stand for are blocks in use. */
  ghost predicate FinalizersOk(g: Memory, gr: Graph, fins: seq<int>) {
    forall i :: 0 <= i < |fins| ==> fins[i] in gr.blk && 0 < fins[i] < |g| && g[fins[i]].dataType != FreeBlock
  }

  ghost function Elements(s: seq<int>): set<int> {
    set x | x in s
  }

  /** The roots of the mark phase: what the global markers hand out, and the objects whose finalizers
      are due. */
  ghost function PhaseRoots(g: Memory, gr: Graph, protectedRoots: seq<Root>, globalRoots: seq<Root>,
          pending: seq<int>): set<int>
  {
    RootBlocks(g, gr, protectedRoots) + RootBlocks(g, gr, globalRoots) + Elements(pending)
  }

  lemma StartState(g: Memory, gr: Graph, roots: set<int>)
    ensures MarkState(g, gr, roots, g, false)
  {
  }

  lemma MoreRoots(g: Memory, gr: Graph, roots: set<int>, more: set<int>, m: Memory, out: bool)
    requires MarkState(g, gr, roots, m, out) && roots <= more
    ensures MarkState(g, gr, more, m, out)
  {
    ReachSetGrows(g, gr, roots, more);
  }

  /** An object or a slot among the roots that is not marked yet makes a good start for a walk; so does a block
      that is. */
  lemma SingleStarts(g: Memory, gr: Graph, roots: set<int>, m: Memory, o: int)
    requires GraphOk(g, gr) && SameButMarks(g, m) && Target(g, gr, o) && o != NULL && o in roots
    requires if o in gr.blk then !g[o].flags.event else !m[o].flags.alive
    ensures StartOk(g, gr, ReachSet(g, gr, roots), o, 1)
  {
    RootReachable(g, gr, roots, o);
    if o !in gr.blk {
      assert SlotOk(g, gr, o) && !g[o].flags.alive;
      if SubOf(g[o]) != NULL {
        assert Edge(g, gr, o, SubOf(g[o]));
        EdgeReachable(g, gr, roots, o, SubOf(g[o]));
        EdgeTarget(g, gr, o, SubOf(g[o]));
      }
    }
  }

  /** So does a range of cells that are among the roots with what they refer to. */
  lemma RangeStarts(g: Memory, gr: Graph, roots: set<int>, lst: int, num: nat)
    requires GraphOk(g, gr) && 0 < lst && lst + num <= |g| && Leaves(g, gr, lst, num)
    requires forall b :: Vertex(gr, b) && RootOf(g, Multiple(lst, num), b) ==> b in roots
    ensures StartOk(g, gr, ReachSet(g, gr, roots), lst, num) && !(num == 1 && lst in gr.blk)
  {
    assert num >= 1 ==> Leaf(g, gr, lst);
    forall c | lst <= c < lst + num
      ensures c in ReachSet(g, gr, roots) && (SubOf(g[c]) != NULL ==> SubOf(g[c]) in ReachSet(g, gr, roots))
    {
      assert Leaf(g, gr, c) && Names(g, c, c) && Names(g, c, SubOf(g[c]));
      RootReachable(g, gr, roots, c);
      if SubOf(g[c]) != NULL {
        assert RootOf(g, Multiple(lst, num), SubOf(g[c])) && Vertex(gr, SubOf(g[c]));
        RootReachable(g, gr, roots, SubOf(g[c]));
      }
    }
  }

  // ---------- Finalizers ----------

  ghost predicate AllMarked(m: Memory, gr: Graph, bs: set<int>) {
    forall b :: b in bs ==> Vertex(gr, b) && 0 <= b < |m| && m[b].flags.alive
  }

  ghost predicate MarkedUpTo(m: Memory, fins: seq<int>, i: int) {
    0 <= i <= |fins| && forall k :: 0 <= k < i ==> 0 < fins[k] < |m| && m[fins[k]].flags.alive
  }

  lemma MarkedNext(g: Memory, gr: Graph, m: Memory, fins: seq<int>, i: int)
    requires FinalizersOk(g, gr, fins) && |m| == |g| && MarkedUpTo(m, fins, i) && i < |fins| && m[fins[i]].flags.alive
    ensures MarkedUpTo(m, fins, i + 1)
  {
  }

  /** What one part of the marking has reached stays marked in the next. */
  lemma PhaseMarked(gr: Graph, a: set<int>, b: set<int>, c: set<int>, m1: Memory, m2: Memory, m3: Memory)
    requires AllMarked(m1, gr, a) && AllMarked(m2, gr, b) && AllMarked(m3, gr, c)
    requires SameButMarks(m1, m2) && SameButMarks(m2, m3)
    ensures AllMarked(m3, gr, a + c + b)
  {
    forall x | x in a + c + b ensures Vertex(gr, x) && 0 <= x < |m3| && m3[x].flags.alive {
      assert x in b || x in a ==> m2[x].flags.alive;
    }
  }

  /** The alive list was split: the finalizers in moved went to the back of the pending list, and none of
      their objects was reached before. */
  ghost predicate Separated(reached: set<int>, alive0: seq<int>, alive: seq<int>, moved: seq<int>) {
    && multiset(alive) + multiset(moved) == multiset(alive0)
    && (forall k :: 0 <= k < |moved| ==> moved[k] !in reached)
  }

  /** Nobody joins the lists from elsewhere. */
  lemma SeparatedFrom(reached: set<int>, alive0: seq<int>, alive: seq<int>, moved: seq<int>, x: int)
    requires Separated(reached, alive0, alive, moved)
    ensures x in alive || x in moved <==> x in alive0
  {
    assert x in multiset(alive) + multiset(moved) <==> x in multiset(alive0);
  }

  lemma SeparatedStep(g: Memory, gr: Graph, m: Memory, reached: set<int>, alive0: seq<int>, alive: seq<int>,
          moved: seq<int>, i: nat)
    requires Separated(reached, alive0, alive, moved) && i < |alive| && alive[i] !in reached
    requires FinalizersOk(g, gr, alive) && MarkedUpTo(m, alive, i)
    ensures Separated(reached, alive0, alive[..i] + alive[i + 1..], moved + [alive[i]])
    ensures FinalizersOk(g, gr, alive[..i] + alive[i + 1..]) && MarkedUpTo(m, alive[..i] + alive[i + 1..], i)
    ensures Elements(moved + [alive[i]]) == Elements(moved) + {alive[i]}
  {
    assert alive == alive[..i] + [alive[i]] + alive[i + 1..];
  }

  lemma FinalizerReached(g: Memory, gr: Graph, roots: set<int>, m: Memory)
    requires GraphOk(g, gr) && StartMarks(g, gr) && MarkState(g, gr, roots, m, false) && AllMarked(m, gr, roots)
    ensures AllMarked(m, gr, ReachSet(g, gr, roots))
  {
    forall b | b in ReachSet(g, gr, roots) ensures Vertex(gr, b) && 0 <= b < |m| && m[b].flags.alive {
      ReachableMarked(g, gr, roots, m, b);
    }
  }
}
