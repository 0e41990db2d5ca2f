/** The invariant of the marking loop, and why each kind of iteration keeps it. */
module MarkSteps {
  import opened HeapCells
  import opened Partitions
  import opened Sweeping
  import opened HeapGraph

  /** A range of cells that still has to be visited. */
  datatype MarkStackElement = MarkStackElement(ptr: int, num: nat)

  type Stack = seq<MarkStackElement>

  /** The state of the loop: the stack up to its top, and the range in hand. */
  datatype Work = Work(st: Stack, top: int, lst: int, num: nat)

  /** The element at the bottom of the stack is a sentinel; the others hold plain cells. */
  ghost predicate StackOk(g: Memory, gr: Graph, w: Work)
    requires SizesMatch(g, gr.blk)
  {
    && 0 <= w.top < |w.st| && w.st[0].num == 0
    && (forall k :: 1 <= k <= w.top ==> 1 <= w.st[k].num && Leaves(g, gr, w.st[k].ptr, w.st[k].num))
  }

  /** The range in hand is one block. */
  ghost predicate AtBlock(gr: Graph, w: Work) {
    w.num == 1 && w.lst in gr.blk
  }

  ghost predicate CurrentOk(g: Memory, gr: Graph, m: Memory, w: Work)
    requires SizesMatch(g, gr.blk) && |m| == |g|
  {
    if AtBlock(gr, w) then !m[w.lst].flags.alive && g[w.lst].dataType != FreeBlock
    else Leaves(g, gr, w.lst, w.num)
  }

  /** y is in the range, or a cell of the range refers to it. */
  ghost predicate InRange(g: Memory, e: MarkStackElement, y: int) {
    exists c :: 0 <= c < |g| && e.ptr <= c < e.ptr + e.num && Names(g, c, y)
  }

  ghost predicate OnStack(g: Memory, st: Stack, top: int, y: int)
    requires 0 <= top < |st|
  {
    exists k {:trigger st[k]} :: 1 <= k <= top && InRange(g, st[k], y)
  }

  /** y still has to be visited, or something does that refers to it. */
  ghost predicate Awaited(g: Memory, w: Work, y: int)
    requires 0 <= w.top < |w.st|
  {
    InRange(g, MarkStackElement(w.lst, w.num), y) || OnStack(g, w.st, w.top, y)
  }

  /** What this walk has marked. */
  ghost predicate Fresh(g: Memory, m: Memory, b: int)
    requires |m| == |g|
  {
    0 <= b < |g| && m[b].flags.alive && !g[b].flags.alive
  }

  /** Whatever a freshly marked block refers to is marked or still awaited. */
  ghost predicate Grey(g: Memory, gr: Graph, m: Memory, w: Work)
    requires 0 <= w.top < |w.st| && |m| == |g|
  {
    forall b, y {:trigger Edge(g, gr, b, y)} :: b in gr.blk && Fresh(g, m, b) && Edge(g, gr, b, y) && 0 <= y < |g| ==>
      m[y].flags.alive || Awaited(g, w, y)
  }

  /** y is marked or it is in hand. */
  ghost predicate Met(m: Memory, w: Work, y: int) {
    MarkedOrNull(m, y) || (w.num == 1 && w.lst == y)
  }

  /** Whatever a freshly marked slot refers to is marked or in hand, also when the stack overflows. */
  ghost predicate SlotsMet(g: Memory, gr: Graph, m: Memory, w: Work)
    requires |m| == |g|
  {
    forall c :: c in gr.slots && Fresh(g, m, c) ==> Met(m, w, SubOf(g[c]))
  }

  /** Everything marked or awaited belongs to the closed set R. */
  ghost predicate Within(g: Memory, gr: Graph, R: set<int>, m: Memory, w: Work)
    requires 0 <= w.top < |w.st| && |m| == |g|
  {
    && (forall x :: Vertex(gr, x) && Fresh(g, m, x) ==> x in R)
    && (forall y :: y != NULL && Awaited(g, w, y) ==> y in R)
  }

  // ---------- Taking the next cell from the stack ----------

  function Popped(w: Work): Work
    requires 0 <= w.top < |w.st| && w.st[w.top].num >= 1
  {
    var e := w.st[w.top];
    Work(w.st[w.top := MarkStackElement(e.ptr + 1, e.num - 1)], if e.num == 1 then w.top - 1 else w.top, NULL, 0)
  }

  /** Taking the first cell off a range. */
  lemma FirstCell(g: Memory, e: MarkStackElement, y: int)
    requires 1 <= e.num && 0 <= e.ptr < |g|
    ensures InRange(g, e, y) <==> Names(g, e.ptr, y) || InRange(g, MarkStackElement(e.ptr + 1, e.num - 1), y)
  {
    if InRange(g, e, y) {
      var c :| 0 <= c < |g| && e.ptr <= c < e.ptr + e.num && Names(g, c, y);
    }
    assert Names(g, e.ptr, y) ==> InRange(g, e, y);
  }

  /** Only the cell that was popped is no longer awaited. */
  lemma PoppedAwaits(g: Memory, gr: Graph, w: Work, y: int)
    requires SizesMatch(g, gr.blk) && StackOk(g, gr, w) && w.num == 0 && w.top >= 1
    ensures Leaf(g, gr, w.st[w.top].ptr)
    ensures Awaited(g, w, y) <==> Awaited(g, Popped(w), y) || Names(g, w.st[w.top].ptr, y)
  {
    var w' := Popped(w);
    var e := w.st[w.top];
    assert Leaf(g, gr, e.ptr);
    FirstCell(g, e, y);
    if OnStack(g, w.st, w.top, y) {
      var k :| 1 <= k <= w.top && InRange(g, w.st[k], y);
      assert k < w.top ==> w'.st[k] == w.st[k];
      assert k == w.top && w'.top == w.top ==> w'.st[k] == MarkStackElement(e.ptr + 1, e.num - 1);
    }
    if OnStack(g, w'.st, w'.top, y) {
      var k :| 1 <= k <= w'.top && InRange(g, w'.st[k], y);
      assert InRange(g, w.st[k], y);
    }
    assert Names(g, e.ptr, y) ==> InRange(g, w.st[w.top], y);
  }

  lemma PoppedStack(g: Memory, gr: Graph, w: Work)
    requires SizesMatch(g, gr.blk) && StackOk(g, gr, w) && w.num == 0 && w.top >= 1
    ensures StackOk(g, gr, Popped(w))
  {
  }

  // ---------- Putting the rest of a range on the stack ----------

  function Pushed(w: Work): Work
    requires 0 <= w.top && w.num >= 1 && (w.num > 1 ==> w.top + 1 < |w.st|)
  {
    if w.num == 1 then w.(lst := NULL, num := 0)
    else Work(w.st[w.top + 1 := MarkStackElement(w.lst + 1, w.num - 1)], w.top + 1, NULL, 0)
  }

  lemma PushedAwaits(g: Memory, gr: Graph, w: Work, y: int)
    requires SizesMatch(g, gr.blk) && StackOk(g, gr, w) && (w.num > 1 ==> w.top + 1 < |w.st|)
    requires w.num >= 1 && Leaves(g, gr, w.lst, w.num)
    ensures Leaf(g, gr, w.lst)
    ensures Awaited(g, w, y) <==> Awaited(g, Pushed(w), y) || Names(g, w.lst, y)
  {
    var w' := Pushed(w);
    var e := MarkStackElement(w.lst, w.num);
    assert Leaf(g, gr, w.lst);
    FirstCell(g, e, y);
    if OnStack(g, w.st, w.top, y) {
      var k :| 1 <= k <= w.top && InRange(g, w.st[k], y);
      assert w'.st[k] == w.st[k];
    }
    if OnStack(g, w'.st, w'.top, y) {
      var k :| 1 <= k <= w'.top && InRange(g, w'.st[k], y);
      assert k <= w.top ==> w'.st[k] == w.st[k];
    }
    if w.num > 1 && InRange(g, MarkStackElement(w.lst + 1, w.num - 1), y) {
      assert InRange(g, w'.st[w'.top], y);
    }
  }

  lemma PushedStack(g: Memory, gr: Graph, w: Work)
    requires SizesMatch(g, gr.blk) && StackOk(g, gr, w) && (w.num > 1 ==> w.top + 1 < |w.st|)
    requires w.num >= 1 && Leaves(g, gr, w.lst, w.num)
    ensures StackOk(g, gr, Pushed(w))
  {
  }

  // ---------- Visiting one cell ----------

  function MarkedAt(m: Memory, a: int): Memory
    requires 0 <= a < |m|
  {
    m[a := m[a].(flags := m[a].flags.(alive := true))]
  }

  /** What to visit after cell a: the object it refers to, unless that is marked; or its own cells. */
  function NextRange(m: Memory, a: int): (int, nat)
    requires 0 <= a < |m|
  {
    var sub := SubOf(m[a]);
    if sub != NULL && 0 <= sub < |m| then (if m[sub].flags.alive then (NULL, 0) else (sub, 1))
    else if ScanNum(m[a]) > 0 then (a + 1, ScanNum(m[a]))
    else (NULL, 0)
  }

  function WithRange(w: Work, r: (int, nat)): Work {
    w.(lst := r.0, num := r.1)
  }

  /** The invariant of the loop.  It speaks of the memory g at the start of the walk, and of any set R
      that holds the targets of the walk and is closed under references. */
  ghost predicate MarkInv(g: Memory, gr: Graph, R: set<int>, m: Memory, w: Work, out: bool)
    requires GraphOk(g, gr)
  {
    && SameButMarks(g, m)
    && StackOk(g, gr, w) && CurrentOk(g, gr, m, w)
    && (out || Grey(g, gr, m, w)) && SlotsMet(g, gr, m, w)
    && Within(g, gr, R, m, w)
    && (forall b :: b in gr.blk && Fresh(g, m, b) ==> g[b].dataType != FreeBlock)
  }

  /** What an unmarked block or slot in R refers to is in R. */
  lemma SubWithin(g: Memory, gr: Graph, R: set<int>, m: Memory, s: int)
    requires GraphOk(g, gr) && SameButMarks(g, m) && Closed(g, gr, R) && s in R && Vertex(gr, s) && 0 <= s < |g| && !m[s].flags.alive
    ensures SubOf(g[s]) != NULL ==> SubOf(g[s]) in R
  {
    assert !g[s].flags.alive;
    if SubOf(g[s]) != NULL { assert Edge(g, gr, s, SubOf(g[s])); }
  }

  /** The range in hand after a visit: nothing, or what the visited cell refers to, which is not marked yet. */
  ghost predicate InHand(gr: Graph, g: Memory, m': Memory, w1: Work, w': Work, sub: int)
    requires |m'| == |g|
  {
    && w' == w1.(lst := w'.lst, num := w'.num)
    && if w'.num == 0 then MarkedOrNull(m', sub)
       else w'.num == 1 && w'.lst == sub && sub != NULL && Vertex(gr, sub) && 0 <= sub < |g| && !m'[sub].flags.alive
  }

  lemma InHandAwaits(g: Memory, gr: Graph, m': Memory, w1: Work, w': Work, sub: int, y: int)
    requires w1.num == 0 && 0 <= w1.top < |w1.st| && |m'| == |g| && InHand(gr, g, m', w1, w', sub)
    ensures Awaited(g, w1, y) ==> Awaited(g, w', y)
    ensures Awaited(g, w', y) ==> Awaited(g, w1, y) || (w'.num == 1 && Names(g, sub, y))
    ensures y == sub ==> MarkedOrNull(m', y) || Awaited(g, w', y)
  {
    if w'.num == 1 {
      var e := MarkStackElement(sub, 1);
      if y == sub { assert 0 <= sub < |g| ==> Names(g, sub, y); }
    }
  }

  /** After a plain cell: w1 is the work left without the cell, which awaits all that w does but for the
      cell and what it refers to. */
  lemma LeafVisited(g: Memory, gr: Graph, R: set<int>, m: Memory, w: Work, out: bool, w1: Work, a: int)
    requires GraphOk(g, gr) && MarkInv(g, gr, R, m, w, out) && Closed(g, gr, R) && !AtBlock(gr, w)
    requires Leaf(g, gr, a) && StackOk(g, gr, w1) && w1.num == 0 && (w.num == 1 ==> w.lst == a)
    requires forall y :: Awaited(g, w, y) <==> Awaited(g, w1, y) || Names(g, a, y)
    ensures MarkInv(g, gr, R, MarkedAt(m, a), WithRange(w1, NextRange(MarkedAt(m, a), a)), out)
  {
    var m' := MarkedAt(m, a);
    var w' := WithRange(w1, NextRange(m', a));
    var sub := SubOf(g[a]);
    LeafNext(g, gr, m, w1, a);
    assert Awaited(g, w, a) && Awaited(g, w, sub);
    assert forall b :: b in gr.blk ==> m'[b] == m[b];
    forall b, y | b in gr.blk && Fresh(g, m', b) && Edge(g, gr, b, y) && 0 <= y < |g| && !out
      ensures m'[y].flags.alive || Awaited(g, w', y)
    {
      assert Fresh(g, m, b);
      InHandAwaits(g, gr, m', w1, w', sub, y);
      assert m[y].flags.alive || Awaited(g, w, y);
    }
    forall y | y != NULL && Awaited(g, w', y) ensures y in R {
      InHandAwaits(g, gr, m', w1, w', sub, y);
      if w'.num == 1 { SubWithin(g, gr, R, m', sub); }
    }
    assert SlotsMet(g, gr, m', w') by {
      forall c | c in gr.slots && Fresh(g, m', c) ensures Met(m', w', SubOf(g[c])) {
        if c != a { assert Fresh(g, m, c) && Met(m, w, SubOf(g[c])); }
      }
    }
    assert CurrentOk(g, gr, m', w');
  }

  lemma LeafNext(g: Memory, gr: Graph, m: Memory, w1: Work, a: int)
    requires GraphOk(g, gr) && SameButMarks(g, m) && Leaf(g, gr, a) && w1.num == 0
    ensures InHand(gr, g, MarkedAt(m, a), w1, WithRange(w1, NextRange(MarkedAt(m, a), a)), SubOf(g[a]))
    ensures SameButMarks(g, MarkedAt(m, a))
  {
    assert SubOf(m[a]) == SubOf(g[a]) && ScanNum(m[a]) == 0;
  }

  /** Visiting a block awaits whatever it refers to, and no longer awaits the block. */
  lemma BlockAwaits(g: Memory, gr: Graph, m': Memory, w: Work, b: int, w': Work, y: int)
    requires GraphOk(g, gr) && SameButMarks(g, m') && StackOk(g, gr, w)
    requires b in gr.blk && !g[b].flags.event && g[b].dataType != FreeBlock
    requires w' == WithRange(w, NextRange(m', b))
    ensures StackOk(g, gr, w') && CurrentOk(g, gr, m', w')
    ensures Edge(g, gr, b, y) && 0 <= y < |g| ==> m'[y].flags.alive || Awaited(g, w', y)
    ensures Awaited(g, w', y) && y != NULL ==>
      || Edge(g, gr, b, y) || OnStack(g, w.st, w.top, y)
      || (Edge(g, gr, b, w'.lst) && Vertex(gr, w'.lst) && 0 <= w'.lst < |g| && !m'[w'.lst].flags.alive && y == SubOf(g[w'.lst]))
    ensures OnStack(g, w.st, w.top, y) ==> Awaited(g, w', y)
  {
    assert SubOf(m'[b]) == SubOf(g[b]) && ScanNum(m'[b]) == ScanNum(g[b]);
    assert Target(g, gr, SubOf(g[b]));
    if ScanNum(g[b]) > 0 {
      assert Leaf(g, gr, b + 1);
      assert w'.lst == b + 1 && w'.num == ScanNum(g[b]) && !AtBlock(gr, w');
      if InRange(g, MarkStackElement(w'.lst, w'.num), y) {
        var c :| 0 <= c < |g| && w'.lst <= c < w'.lst + w'.num && Names(g, c, y);
        assert ValueOf(g, b, c);
      }
      if Edge(g, gr, b, y) && y != SubOf(g[b]) {
        var c :| ValueOf(g, b, c) && Names(g, c, y);
        assert InRange(g, MarkStackElement(w'.lst, w'.num), y);
      }
    } else if w'.num == 1 {
      var e := MarkStackElement(w'.lst, 1);
      if Edge(g, gr, b, y) && 0 <= y < |g| { assert Names(g, y, y); }
    }
  }

  lemma BlockVisited(g: Memory, gr: Graph, R: set<int>, m: Memory, w: Work, out: bool)
    requires GraphOk(g, gr) && MarkInv(g, gr, R, m, w, out) && AtBlock(gr, w) && Closed(g, gr, R)
    ensures MarkInv(g, gr, R, MarkedAt(m, w.lst), WithRange(w, NextRange(MarkedAt(m, w.lst), w.lst)), out)
    ensures Fresh(g, MarkedAt(m, w.lst), w.lst)
  {
    var b := w.lst;
    var m' := MarkedAt(m, b);
    var w' := WithRange(w, NextRange(m', b));
    assert Names(g, b, b);
    assert InRange(g, MarkStackElement(w.lst, w.num), b);
    BlockAwaits(g, gr, m', w, b, w', b);
    forall x, y | x in gr.blk && Fresh(g, m', x) && Edge(g, gr, x, y) && 0 <= y < |g| && !out
      ensures m'[y].flags.alive || Awaited(g, w', y)
    {
      BlockAwaits(g, gr, m', w, b, w', y);
      if x != b {
        assert Fresh(g, m, x);
        if !m[y].flags.alive { OneInHand(g, gr, w, y); }
      }
    }
    forall y | y != NULL && Awaited(g, w', y) ensures y in R {
      BlockAwaits(g, gr, m', w, b, w', y);
      assert OnStack(g, w.st, w.top, y) ==> Awaited(g, w, y);
      if Edge(g, gr, b, w'.lst) && Vertex(gr, w'.lst) && 0 <= w'.lst < |g| && !m'[w'.lst].flags.alive {
        SubWithin(g, gr, R, m', w'.lst);
      }
    }
    forall x | Vertex(gr, x) && Fresh(g, m', x) ensures x in R && (x in gr.blk ==> g[x].dataType != FreeBlock) {
      assert x != b ==> Fresh(g, m, x);
    }
    assert SlotsMet(g, gr, m', w') by {
      forall c | c in gr.slots && Fresh(g, m', c) ensures Met(m', w', SubOf(g[c])) {
        assert Fresh(g, m, c) && Met(m, w, SubOf(g[c]));
      }
    }
  }

  /** With a block in hand, what is awaited is the block, what it refers to, or on the stack. */
  lemma OneInHand(g: Memory, gr: Graph, w: Work, y: int)
    requires 0 <= w.top < |w.st| && w.num == 1 && 0 <= w.lst < |g| && Awaited(g, w, y)
    ensures Names(g, w.lst, y) || OnStack(g, w.st, w.top, y)
  {
  }

  /** The first visit, when the walk starts at a block, marked or not. */
  lemma ForcedVisited(g: Memory, gr: Graph, R: set<int>, st: Stack, b: int, out: bool)
    requires GraphOk(g, gr) && Closed(g, gr, R)
    requires b in R && b in gr.blk && !g[b].flags.event && g[b].dataType != FreeBlock
    requires |st| > 0 && st[0].num == 0
    ensures MarkInv(g, gr, R, MarkedAt(g, b), Work(st, 0, NextRange(MarkedAt(g, b), b).0, NextRange(MarkedAt(g, b), b).1), out)
  {
    var m' := MarkedAt(g, b);
    var w := Work(st, 0, NULL, 0);
    var w' := WithRange(w, NextRange(m', b));
    BlockAwaits(g, gr, m', w, b, w', b);
    forall x, y | x in gr.blk && Fresh(g, m', x) && Edge(g, gr, x, y) && 0 <= y < |g|
      ensures m'[y].flags.alive || Awaited(g, w', y)
    {
      BlockAwaits(g, gr, m', w, b, w', y);
    }
    forall y | y != NULL && Awaited(g, w', y) ensures y in R {
      BlockAwaits(g, gr, m', w, b, w', y);
      if Edge(g, gr, b, w'.lst) && Vertex(gr, w'.lst) && 0 <= w'.lst < |g| && !m'[w'.lst].flags.alive {
        SubWithin(g, gr, R, m', w'.lst);
      }
    }
  }

  /** With no room on the stack the range in hand is dropped, and the flag says so. */
  lemma RangeDropped(g: Memory, gr: Graph, R: set<int>, m: Memory, w: Work, out: bool)
    requires GraphOk(g, gr) && MarkInv(g, gr, R, m, w, out) && w.num > 1
    ensures MarkInv(g, gr, R, m, w.(lst := NULL, num := 0), true)
  {
    var w' := w.(lst := NULL, num := 0);
    forall y | y != NULL && Awaited(g, w', y) ensures y in R {
      assert Awaited(g, w, y);
    }
    forall c | c in gr.slots && Fresh(g, m, c) ensures Met(m, w', SubOf(g[c])) {
      assert Met(m, w, SubOf(g[c]));
    }
  }

  // ---------- What the walk was asked to visit is never dropped ----------

  /** The walk was asked to follow the reference sub and the references in the cells [lo, end); it has
      got to pos. */
  datatype Quest = Quest(sub: int, lo: int, pos: int, end: int)

  ghost predicate QuestInv(g: Memory, gr: Graph, m: Memory, w: Work, q: Quest)
    requires 0 <= w.top < |w.st| && |m| == |g|
  {
    && 0 <= q.lo <= q.pos <= q.end <= |g|
    && Met(m, w, q.sub)
    && (forall c :: q.lo <= c < q.pos ==> m[c].flags.alive && Met(m, w, SubOf(g[c])))
    && (|| q.pos == q.end
        || (w.top == 0 && w.num >= 1 && !AtBlock(gr, w) && w.lst == q.pos && w.num == q.end - q.pos)
        || (w.top >= 1 && w.st[1] == MarkStackElement(q.pos, q.end - q.pos)))
  }

  function Advanced(q: Quest, bottom: bool): Quest {
    if bottom && q.pos < q.end then q.(pos := q.pos + 1) else q
  }

  lemma QuestVisited(g: Memory, gr: Graph, R: set<int>, m: Memory, w: Work, w1: Work, out: bool, a: int, q: Quest,
          bottom: bool)
    requires GraphOk(g, gr) && MarkInv(g, gr, R, m, w, out) && QuestInv(g, gr, m, w, q)
    requires !AtBlock(gr, w) && Leaf(g, gr, a) && StackOk(g, gr, w1) && w1.num == 0
    requires if w.num == 0
      then w.top >= 1 && w1 == Popped(w) && a == w.st[w.top].ptr && bottom == (w.top == 1)
      else (w.num > 1 ==> w.top + 1 < |w.st|) && w1 == Pushed(w) && a == w.lst && bottom == (w.top == 0)
    ensures QuestInv(g, gr, MarkedAt(m, a), WithRange(w1, NextRange(MarkedAt(m, a), a)), Advanced(q, bottom))
  {
    var m' := MarkedAt(m, a);
    var w' := WithRange(w1, NextRange(m', a));
    LeafNext(g, gr, m, w1, a);
    assert Met(m', w', SubOf(g[a]));
    assert forall y :: Met(m, w, y) ==> Met(m', w', y);
  }

  lemma QuestBlock(g: Memory, gr: Graph, R: set<int>, m: Memory, w: Work, out: bool, q: Quest)
    requires GraphOk(g, gr) && MarkInv(g, gr, R, m, w, out) && QuestInv(g, gr, m, w, q) && AtBlock(gr, w)
    ensures QuestInv(g, gr, MarkedAt(m, w.lst), WithRange(w, NextRange(MarkedAt(m, w.lst), w.lst)), q)
  {
    var m' := MarkedAt(m, w.lst);
    var w' := WithRange(w, NextRange(m', w.lst));
    assert forall y :: Met(m, w, y) ==> Met(m', w', y);
  }

  /** The quest of a walk that starts at block b. */
  function QuestOf(c: Cell, b: int): Quest {
    Quest(SubOf(c), b + 1, b + 1, b + 1 + ScanNum(c))
  }

  lemma QuestForced(g: Memory, gr: Graph, st: Stack, b: int)
    requires GraphOk(g, gr) && b in gr.blk && !g[b].flags.event && |st| > 0
    ensures QuestInv(g, gr, MarkedAt(g, b), Work(st, 0, NextRange(MarkedAt(g, b), b).0, NextRange(MarkedAt(g, b), b).1), QuestOf(g[b], b))
  {
    var m' := MarkedAt(g, b);
    assert SubOf(m'[b]) == SubOf(g[b]) && ScanNum(m'[b]) == ScanNum(g[b]);
    assert Target(g, gr, SubOf(g[b]));
    if ScanNum(g[b]) > 0 {
      assert Leaf(g, gr, b + ScanNum(g[b]));
      assert Leaf(g, gr, b + 1);
    }
  }

  /** When nothing is left, the quest is fulfilled. */
  lemma QuestDone(g: Memory, gr: Graph, m: Memory, w: Work, q: Quest, b: int)
    requires GraphOk(g, gr) && |m| == |g| && w.top == 0 && w.num == 0 && |w.st| > 0
    requires QuestInv(g, gr, m, w, q)
    ensures forall c :: q.lo <= c < q.end ==> m[c].flags.alive && MarkedOrNull(m, SubOf(g[c]))
    ensures b in gr.blk && q == QuestOf(g[b], b).(pos := q.pos) ==> Complete(g, gr, m, b)
  {
  }

  // ---------- Running out of room means progress ----------

  ghost predicate AnyFresh(g: Memory, gr: Graph, m: Memory)
    requires |m| == |g|
  {
    exists b :: b in gr.blk && Fresh(g, m, b)
  }

  /** The stack grows past its first element only below blocks that this walk has marked. */
  ghost predicate DeepInv(g: Memory, gr: Graph, m: Memory, w: Work, out0: bool, out: bool)
    requires |m| == |g|
  {
    && (w.top >= 2 || (w.top >= 1 && w.num > 1) ==> AnyFresh(g, gr, m))
    && (out != out0 ==> AnyFresh(g, gr, m))
  }

  lemma FreshKept(g: Memory, gr: Graph, m: Memory, a: int)
    requires |m| == |g| && 0 <= a < |m|
    ensures AnyFresh(g, gr, m) ==> AnyFresh(g, gr, MarkedAt(m, a))
  {
    if AnyFresh(g, gr, m) {
      var b :| b in gr.blk && Fresh(g, m, b);
      assert Fresh(g, MarkedAt(m, a), b);
    }
  }

  // ---------- One iteration ----------

  ghost predicate LoopInv(g: Memory, gr: Graph, R: set<int>, m: Memory, w: Work, out0: bool, out: bool, q: Quest)
    requires GraphOk(g, gr)
  {
    && MarkInv(g, gr, R, m, w, out)
    && QuestInv(g, gr, m, w, q)
    && DeepInv(g, gr, m, w, out0, out)
    && (out0 ==> out)
  }

  /** Whether there is a range in hand, other than a single cell that is not marked. */
  ghost function RangeInHand(m: Memory, w: Work): int {
    if w.num == 0 || (w.num == 1 && 0 <= w.lst < |m| && !m[w.lst].flags.alive) then 0 else 1
  }

  /** Either fewer blocks and slots are unmarked, or the work left has become smaller. */
  ghost predicate Shrinks(gr: Graph, m: Memory, w: Work, m': Memory, w': Work)
    requires 0 <= w.top < |w.st| && 0 <= w'.top < |w'.st|
  {
    || UnmarkedNodes(m', gr) < UnmarkedNodes(m, gr)
    || (UnmarkedNodes(m', gr) == UnmarkedNodes(m, gr) &&
        (|| RangeInHand(m', w') < RangeInHand(m, w)
         || (RangeInHand(m', w') == RangeInHand(m, w) &&
             (w'.top < w.top || (w'.top == w.top && w'.st[w'.top].num < w.st[w.top].num)))))
  }

  function AfterVisit(m: Memory, w1: Work, a: int): Work
    requires 0 <= a < |m|
  {
    WithRange(w1, NextRange(MarkedAt(m, a), a))
  }

  /** A turn of the loop on work w has settled on the next cell ptr, with w1 as the rest of the work
      (go), or on none; after the visit the invariant holds again with less work left. */
  ghost predicate Taken(g: Memory, gr: Graph, R: set<int>, m: Memory, w: Work, out0: bool, out: bool, go: bool,
          ptr: int, w1: Work, q: Quest)
    requires GraphOk(g, gr) && |m| == |g| && SizesMatch(m, gr.blk) && 0 <= w.top < |w.st|
  {
    && 0 <= w1.top < |w1.st| && w1.st[0].num == 0
    && if go then
         && 0 <= ptr < |m| && 0 <= SubOf(m[ptr]) < |m| && SizesMatch(MarkedAt(m, ptr), gr.blk)
         && LoopInv(g, gr, R, MarkedAt(m, ptr), AfterVisit(m, w1, ptr), out0, out, q)
         && Shrinks(gr, m, w, MarkedAt(m, ptr), AfterVisit(m, w1, ptr))
       else
         LoopInv(g, gr, R, m, w1, out0, out, q) && Shrinks(gr, m, w, m, w1)
  }

  lemma PopStep(g: Memory, gr: Graph, R: set<int>, m: Memory, w: Work, out0: bool, out: bool, q: Quest)
    requires GraphOk(g, gr) && LoopInv(g, gr, R, m, w, out0, out, q) && w.num == 0 && w.top >= 1 && Closed(g, gr, R)
    ensures Taken(g, gr, R, m, w, out0, out, true, w.st[w.top].ptr, Popped(w), Advanced(q, w.top == 1))
  {
    var a := w.st[w.top].ptr;
    assert Leaf(g, gr, a);
    var w1 := Popped(w);
    PoppedStack(g, gr, w);
    forall y ensures Awaited(g, w, y) <==> Awaited(g, w1, y) || Names(g, a, y) {
      PoppedAwaits(g, gr, w, y);
    }
    LeafVisited(g, gr, R, m, w, out, w1, a);
    QuestVisited(g, gr, R, m, w, w1, out, a, q, w.top == 1);
    FreshKept(g, gr, m, a);
    LeafShrinks(g, gr, m, w1, a);
  }

  lemma LeafShrinks(g: Memory, gr: Graph, m: Memory, w1: Work, a: int)
    requires GraphOk(g, gr) && SameButMarks(g, m) && Leaf(g, gr, a) && w1.num == 0
    ensures SizesMatch(MarkedAt(m, a), gr.blk)
    ensures UnmarkedNodes(MarkedAt(m, a), gr) == UnmarkedNodes(m, gr) - {a}
    ensures a in UnmarkedNodes(m, gr) <==> !m[a].flags.alive
    ensures RangeInHand(MarkedAt(m, a), AfterVisit(m, w1, a)) == 0
    ensures 0 <= SubOf(m[a]) < |m| && SubOf(m[a]) == SubOf(g[a])
  {
    LeafNext(g, gr, m, w1, a);
    MarkedShrinks(gr, m, a);
    assert Target(g, gr, SubOf(g[a]));
  }

  lemma MarkedShrinks(gr: Graph, m: Memory, a: int)
    requires 0 <= a < |m| && Vertex(gr, a)
    ensures UnmarkedNodes(MarkedAt(m, a), gr) == UnmarkedNodes(m, gr) - {a}
    ensures a in UnmarkedNodes(m, gr) <==> !m[a].flags.alive
  {
  }

  lemma PushStep(g: Memory, gr: Graph, R: set<int>, m: Memory, w: Work, out0: bool, out: bool, q: Quest)
    requires GraphOk(g, gr) && LoopInv(g, gr, R, m, w, out0, out, q) && Closed(g, gr, R)
    requires w.num >= 1 && !AtBlock(gr, w) && (w.num > 1 ==> w.top + 1 < |w.st|)
    ensures Leaf(g, gr, w.lst) && SubOf(m[w.lst]) == SubOf(g[w.lst])
    ensures LoopInv(g, gr, R, MarkedAt(m, w.lst), AfterVisit(m, Pushed(w), w.lst), out0, out, Advanced(q, w.top == 0))
    ensures Shrinks(gr, m, w, MarkedAt(m, w.lst), AfterVisit(m, Pushed(w), w.lst))
  {
    var a := w.lst;
    assert Leaf(g, gr, a);
    var w1 := Pushed(w);
    PushedStack(g, gr, w);
    forall y ensures Awaited(g, w, y) <==> Awaited(g, w1, y) || Names(g, a, y) {
      PushedAwaits(g, gr, w, y);
    }
    LeafVisited(g, gr, R, m, w, out, w1, a);
    QuestVisited(g, gr, R, m, w, w1, out, a, q, w.top == 0);
    FreshKept(g, gr, m, a);
    LeafShrinks(g, gr, m, w1, a);
  }

  lemma BlockStep(g: Memory, gr: Graph, R: set<int>, m: Memory, w: Work, out0: bool, out: bool, q: Quest)
    requires GraphOk(g, gr) && LoopInv(g, gr, R, m, w, out0, out, q) && AtBlock(gr, w) && Closed(g, gr, R)
    ensures SubOf(m[w.lst]) == SubOf(g[w.lst])
    ensures LoopInv(g, gr, R, MarkedAt(m, w.lst), AfterVisit(m, w, w.lst), out0, out, q)
    ensures Shrinks(gr, m, w, MarkedAt(m, w.lst), AfterVisit(m, w, w.lst))
  {
    BlockVisited(g, gr, R, m, w, out);
    QuestBlock(g, gr, R, m, w, out, q);
    MarkedShrinks(gr, m, w.lst);
  }

  lemma DropStep(g: Memory, gr: Graph, R: set<int>, m: Memory, w: Work, out0: bool, out: bool, q: Quest)
    requires GraphOk(g, gr) && LoopInv(g, gr, R, m, w, out0, out, q)
    requires w.num > 1 && w.top == |w.st| - 1 && w.top >= 1
    ensures LoopInv(g, gr, R, m, w.(lst := NULL, num := 0), out0, true, q)
    ensures Shrinks(gr, m, w, m, w.(lst := NULL, num := 0))
  {
    RangeDropped(g, gr, R, m, w, out);
  }

  // ---------- The whole walk ----------

  /** A walk starts at one block in use, or at a range of slots; R holds what it is to follow. */
  ghost predicate StartOk(g: Memory, gr: Graph, R: set<int>, lst: int, num: nat)
    requires SizesMatch(g, gr.blk)
  {
    && 0 <= lst && lst + num <= |g|
    && if num == 1 && lst in gr.blk then lst in R && !g[lst].flags.event && g[lst].dataType != FreeBlock
       else Leaves(g, gr, lst, num) && forall c :: lst <= c < lst + num ==> c in R && (SubOf(g[c]) != NULL ==> SubOf(g[c]) in R)
  }

  /** What the walk was asked to visit is marked, with what it refers to. */
  ghost predicate Followed(g: Memory, gr: Graph, m: Memory, lst: int, num: nat)
    requires |m| == |g| && 0 <= lst && lst + num <= |g|
  {
    if num == 1 && lst in gr.blk then m[lst].flags.alive && Complete(g, gr, m, lst)
    else forall c {:trigger g[c]} :: lst <= c < lst + num ==> m[c].flags.alive && MarkedOrNull(m, SubOf(g[c]))
  }

  /** What one walk achieves, even when the stack overflows: its own references are followed; it marks only
      what is in R; what a slot that it marked refers to is marked, and, unless the flag is set, all that a
      block that it marked refers to; and it sets the flag only after having marked some block. */
  ghost predicate Walked(g: Memory, gr: Graph, R: set<int>, m: Memory, lst: int, num: nat, out0: bool, out: bool)
    requires 0 <= lst && lst + num <= |g|
  {
    && SameButMarks(g, m)
    && Followed(g, gr, m, lst, num)
    && (forall x :: Vertex(gr, x) && Fresh(g, m, x) ==> x in R && (x in gr.blk ==> g[x].dataType != FreeBlock))
    && (forall c :: c in gr.slots && Fresh(g, m, c) ==> MarkedOrNull(m, SubOf(g[c])))
    && (out || forall b :: b in gr.blk && Fresh(g, m, b) ==> Complete(g, gr, m, b))
    && (out0 ==> out) && (out != out0 ==> AnyFresh(g, gr, m))
  }

  function StartQuest(g: Memory, gr: Graph, lst: int, num: nat): Quest
    requires 0 <= lst < |g| || num == 0
  {
    if num == 1 && lst in gr.blk then QuestOf(g[lst], lst) else Quest(NULL, lst, lst, lst + num)
  }

  lemma RangeStart(g: Memory, gr: Graph, R: set<int>, w: Work, out: bool)
    requires GraphOk(g, gr) && StartOk(g, gr, R, w.lst, w.num) && !AtBlock(gr, w)
    requires |w.st| > 0 && w.st[0].num == 0 && w.top == 0
    ensures LoopInv(g, gr, R, g, w, out, out, StartQuest(g, gr, w.lst, w.num))
  {
  }

  lemma ForcedStep(g: Memory, gr: Graph, R: set<int>, st: Stack, b: int, out: bool)
    requires GraphOk(g, gr) && Closed(g, gr, R) && StartOk(g, gr, R, b, 1) && b in gr.blk
    requires |st| > 0 && st[0].num == 0
    ensures LoopInv(g, gr, R, MarkedAt(g, b), AfterVisit(g, Work(st, 0, b, 1), b), out, out, QuestOf(g[b], b))
  {
    ForcedVisited(g, gr, R, st, b, out);
    QuestForced(g, gr, st, b);
  }

  lemma WalkDone(g: Memory, gr: Graph, R: set<int>, m: Memory, w: Work, lst: int, num: nat, out0: bool, out: bool, q: Quest)
    requires GraphOk(g, gr) && StartOk(g, gr, R, lst, num) && (0 <= lst < |g| || num == 0)
    requires LoopInv(g, gr, R, m, w, out0, out, q) && q == StartQuest(g, gr, lst, num).(pos := q.pos)
    requires w.num == 0 && w.top == 0
    requires num == 1 && lst in gr.blk ==> m[lst].flags.alive
    ensures Walked(g, gr, R, m, lst, num, out0, out)
  {
    QuestDone(g, gr, m, w, q, lst);
    if !out {
      forall b | b in gr.blk && Fresh(g, m, b) ensures Complete(g, gr, m, b) {
        forall y | Edge(g, gr, b, y) && 0 <= y < |g| ensures m[y].flags.alive {
          assert !Awaited(g, w, y);
        }
      }
    }
  }

  /** Marks do not change the graph. */
  lemma GraphKept(g: Memory, m: Memory, gr: Graph, R: set<int>)
    requires GraphOk(g, gr) && SameButMarks(g, m)
    ensures GraphOk(m, gr)
    ensures forall b, y {:trigger Edge(m, gr, b, y)} {:trigger Edge(g, gr, b, y)} :: Edge(m, gr, b, y) <==> Edge(g, gr, b, y)
    ensures Closed(g, gr, R) ==> Closed(m, gr, R)
    ensures forall lst: int, num: nat {:trigger StartOk(m, gr, R, lst, num)} :: StartOk(g, gr, R, lst, num) <==> StartOk(m, gr, R, lst, num)
  {
    forall a | 0 <= a < |g| ensures SubOf(m[a]) == SubOf(g[a]) && ScanNum(m[a]) == ScanNum(g[a]) { }
    forall c ensures Leaf(m, gr, c) <==> Leaf(g, gr, c) { }
    forall b, y ensures Edge(m, gr, b, y) <==> Edge(g, gr, b, y) {
      EdgeKept(g, m, gr, b, y);
      EdgeKept(m, g, gr, b, y);
    }
  }

  lemma EdgeKept(g: Memory, m: Memory, gr: Graph, b: int, y: int)
    requires |m| == |g| && forall a {:trigger m[a]} {:trigger g[a]} :: 0 <= a < |g| ==>
      m[a] == g[a].(flags := g[a].flags.(alive := m[a].flags.alive))
    ensures Edge(g, gr, b, y) ==> Edge(m, gr, b, y)
  {
    if Edge(g, gr, b, y) && b in gr.blk && y != SubOf(g[b]) {
      var c :| ValueOf(g, b, c) && Names(g, c, y);
      assert ValueOf(m, b, c) && Names(m, c, y);
    }
  }
}
