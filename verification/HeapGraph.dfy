/** The graph of the blocks and the plain cells of a heap, and what it means for one to be reachable. */
module HeapGraph {
  import opened HeapCells
  import opened Partitions
  import opened Sweeping

  /** The reference that a cell holds itself, if any. */
  function SubOf(c: Cell): int {
    if (c.dataType == Object || c.dataType == ByRef || c.dataType == ArrayByRef) && c.word.Pointer?
    then c.word.target else NULL
  }

  /** The number of cells behind a cell that are values in their own right: the fields of an object,
      the elements of an array of references, the target of a delegate, the members of a (strong)
      delegate list.  They start at the next cell. */
  function ScanNum(c: Cell): nat {
    match c.dataType
    case Class => if c.size >= 1 then c.size - 1 else 0
    case ValueType => if c.size >= 1 then c.size - 1 else 0
    case SzArray => if c.word.ArrayHead? && c.word.fReference then c.word.numOfElements else 0
    case DelegateHead => 1
    case DelegateListHead => if c.word.ListHead? && !c.word.weak then c.word.length else 0
    case _ => 0
  }

  /** The blocks; the slots, which are the plain cells that references may lead to: the fields and elements
      of blocks and the cells of stack frames; and the dim slots, which carry no mark before marking begins. */
  datatype Graph = Graph(blk: Blocks, slots: set<int>, dim: set<int>)

  /** A block or a slot. */
  ghost predicate Vertex(gr: Graph, x: int) {
    x in gr.blk || x in gr.slots
  }

  /** A reference target: nothing, the start of a block in use, or a slot, that is the interior of a block. */
  ghost predicate Target(g: Memory, gr: Graph, t: int)
    requires SizesMatch(g, gr.blk)
  {
    t == NULL || (t in gr.blk && g[t].dataType != FreeBlock) || t in gr.slots
  }

  /** A cell that is a plain value or reference, not the start of a block. */
  ghost predicate SlotOk(g: Memory, gr: Graph, c: int)
    requires SizesMatch(g, gr.blk)
  {
    0 < c < |g| && c !in gr.blk && ScanNum(g[c]) == 0 && Target(g, gr, SubOf(g[c]))
  }

  ghost predicate Leaf(g: Memory, gr: Graph, c: int)
    requires SizesMatch(g, gr.blk)
  {
    c in gr.slots && SlotOk(g, gr, c)
  }

  ghost predicate Leaves(g: Memory, gr: Graph, lst: int, num: nat)
    requires SizesMatch(g, gr.blk)
  {
    forall c :: lst <= c < lst + num ==> Leaf(g, gr, c)
  }

  /** The values of every block are slots inside it, and what they and it refer to is in use; event blocks
      are always marked, which is what keeps the collector from following them. */
  ghost predicate GraphOk(g: Memory, gr: Graph) {
    && SizesMatch(g, gr.blk)
    && (forall c :: c in gr.slots ==> SlotOk(g, gr, c))
    && gr.dim <= gr.slots && (forall c :: c in gr.slots && !g[c].flags.alive ==> c in gr.dim)
    && (forall b :: b in gr.blk ==> Target(g, gr, SubOf(g[b])) && Leaves(g, gr, b + 1, ScanNum(g[b])))
    && (forall b :: b in gr.blk && g[b].flags.event ==> g[b].flags.alive)
  }

  /** Cell c is one of the values of block b. */
  predicate ValueOf(g: Memory, b: int, c: int)
    requires 0 <= b < |g|
  {
    b < c <= b + ScanNum(g[b]) && c < |g|
  }

  /** Visiting cell a takes care of a, and leads to what a refers to. */
  predicate Names(g: Memory, a: int, y: int)
    requires 0 <= a < |g|
  {
    y == a || y == SubOf(g[a])
  }

  /** What the marking follows.  From a block that is not an event it goes to its values and to all that they
      and it refer to.  From a slot, which it enters through an interior reference, it goes on only if the
      slot is dim: the collector takes one with a mark, even an old one, for visited. */
  ghost predicate Edge(g: Memory, gr: Graph, x: int, y: int) {
    && 0 <= x < |g| && y != NULL
    && if x in gr.blk
       then !g[x].flags.event && (y == SubOf(g[x]) || exists c :: ValueOf(g, x, c) && Names(g, c, y))
       else x in gr.dim && y == SubOf(g[x])
  }

  /** The values of a block, kind by kind, and what a cell refers to. */
  lemma ValuesByKind(g: Memory, b: int, c: int)
    requires 0 <= b < c < |g|
    ensures ValueOf(g, b, c) <==>
      (|| (g[b].dataType in {Class, ValueType} && c < b + g[b].size) || (g[b].dataType == DelegateHead && c == b + 1)
          || (g[b].dataType == SzArray && g[b].word.ArrayHead? && g[b].word.fReference && c <= b + g[b].word.numOfElements)
          || (g[b].dataType == DelegateListHead && g[b].word.ListHead? && !g[b].word.weak && c <= b + g[b].word.length))
    ensures SubOf(g[c]) == if g[c].dataType in {Object, ByRef, ArrayByRef} && g[c].word.Pointer? then g[c].word.target else NULL
    ensures SubOf(g[b]) == if g[b].dataType in {Object, ByRef, ArrayByRef} && g[b].word.Pointer? then g[b].word.target else NULL
  {
  }

  // ---------- Reachability ----------

  ghost predicate StepAt(g: Memory, gr: Graph, p: seq<int>, i: int) {
    0 < i < |p| && Edge(g, gr, p[i - 1], p[i])
  }

  /** A path along references that starts in one of the roots. */
  ghost predicate Path(g: Memory, gr: Graph, roots: set<int>, p: seq<int>) {
    && |p| > 0 && p[0] in roots
    && (forall i {:trigger StepAt(g, gr, p, i)} :: 0 < i < |p| ==> StepAt(g, gr, p, i))
  }

  ghost predicate Reachable(g: Memory, gr: Graph, roots: set<int>, b: int) {
    exists p :: Path(g, gr, roots, p) && p[|p| - 1] == b
  }

  lemma RootReachable(g: Memory, gr: Graph, roots: set<int>, b: int)
    requires b in roots
    ensures Reachable(g, gr, roots, b)
  {
    assert Path(g, gr, roots, [b]);
  }

  lemma EdgeReachable(g: Memory, gr: Graph, roots: set<int>, b: int, y: int)
    requires Reachable(g, gr, roots, b) && Edge(g, gr, b, y)
    ensures Reachable(g, gr, roots, y)
  {
    var p :| Path(g, gr, roots, p) && p[|p| - 1] == b;
    var q := p + [y];
    forall i | 0 < i < |q| ensures StepAt(g, gr, q, i) {
      assert i < |p| ==> StepAt(g, gr, p, i);
    }
    assert Path(g, gr, roots, q) && q[|q| - 1] == y;
  }

  /** A set that holds the roots and is closed under references holds everything reachable. */
  lemma {:induction false} ClosedHoldsReachable(g: Memory, gr: Graph, roots: set<int>, X: set<int>, p: seq<int>)
    requires roots <= X && Closed(g, gr, X)
    requires Path(g, gr, roots, p)
    ensures p[|p| - 1] in X
    decreases |p|
  {
    if |p| > 1 {
      var q := p[..|p| - 1];
      forall i | 0 < i < |q| ensures StepAt(g, gr, q, i) {
        assert StepAt(g, gr, p, i);
      }
      ClosedHoldsReachable(g, gr, roots, X, q);
      assert StepAt(g, gr, p, |p| - 1);
    }
  }

  ghost predicate Closed(g: Memory, gr: Graph, R: set<int>) {
    forall x, y {:trigger Edge(g, gr, x, y)} :: x in R && Edge(g, gr, x, y) ==> y in R
  }

  // ---------- Marks ----------

  /** m differs from g in marks only, and no mark is missing. */
  ghost predicate SameButMarks(g: Memory, m: Memory) {
    && |m| == |g|
    && (forall a {:trigger m[a]} :: 0 <= a < |g| ==> m[a] == g[a].(flags := g[a].flags.(alive := m[a].flags.alive)))
    && (forall a {:trigger m[a]} :: 0 <= a < |g| && g[a].flags.alive ==> m[a].flags.alive)
  }

  ghost predicate MarkedOrNull(m: Memory, y: int) {
    y == NULL || (0 <= y < |m| && m[y].flags.alive)
  }

  /** Everything that the marking follows from x is marked. */
  ghost predicate Complete(g: Memory, gr: Graph, m: Memory, x: int)
    requires |m| == |g|
  {
    forall y :: Edge(g, gr, x, y) && 0 <= y < |g| ==> m[y].flags.alive
  }

  /** The blocks that are not marked. */
  ghost function UnmarkedBlocks(m: Memory, gr: Graph): set<int>
    requires SizesMatch(m, gr.blk)
  {
    set b | b in gr.blk && !m[b].flags.alive
  }

  /** The blocks and the slots that are not marked. */
  ghost function UnmarkedNodes(m: Memory, gr: Graph): set<int> {
    set x | x in gr.blk.Keys + gr.slots && 0 <= x < |m| && !m[x].flags.alive
  }
}
