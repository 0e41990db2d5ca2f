/** The cells of the managed heap, and the doubly linked lists threaded through them.

    Memory is an array of cells and an address is an index into it.  A cell is one
    CLR_RT_HeapBlock: an identifier (type, flags, size in cells) and one word of data, which is a
    union in the source and a datatype here.  A block is a run of cells whose first cell carries
    the size of the run. */
module HeapCells {

  /** The null pointer.  No cell of a cluster lives at address 0. */
  const NULL := 0

  /** Sizes are kept in 16 bits. */
  const SIZE_LIMIT := 0x10000

  datatype DataType =
    | FreeBlock | CachedBlock
    | Object | ByRef | ArrayByRef
    | Class | ValueType | SzArray | String
    | DelegateHead | DelegateListHead
    | StackFrame
    | Other

  datatype Flags = Flags(alive: bool, keepAlive: bool, event: bool, pinned: bool, boxed: bool,
                         signaled: bool, autoReset: bool)
  {
    /** HB_Unmovable is HB_Pinned | HB_Event. */
    predicate Unmovable() { pinned || event }
  }

  const NO_FLAGS := Flags(false, false, false, false, false, false, false)
  const FREE_FLAGS := NO_FLAGS.(pinned := true)

  datatype Word =
    | Link(next: int, prev: int)
    | Pointer(target: int)
    | ArrayHead(fReference: bool, numOfElements: nat)
    | ListHead(weak: bool, length: nat)
    | Frame(values: nat)
    | Bits(value: int)

  datatype Cell = Cell(dataType: DataType, flags: Flags, size: nat, word: Word)

  type Memory = seq<Cell>

  function NextOf(m: Memory, a: int): int
    requires 0 <= a < |m|
  {
    if m[a].word.Link? then m[a].word.next else NULL
  }

  function PrevOf(m: Memory, a: int): int
    requires 0 <= a < |m|
  {
    if m[a].word.Link? then m[a].word.prev else NULL
  }

  /** CLR_RT_HEAPBLOCK_RAW_ID keeps the low 16 bits of the size. */
  function FreeId(c: Cell, size: nat): Cell {
    Cell(FreeBlock, FREE_FLAGS, size % SIZE_LIMIT, c.word)
  }

  ghost predicate IsFree(c: Cell) {
    c.dataType == FreeBlock && c.flags == FREE_FLAGS
  }

  // ---------- Linked lists whose nodes are cells ----------

  /** A list is delimited by two pseudo-nodes that overlay the cluster header; here they are the cells
      at head and at tail.  Only the address order of real nodes matters, so tail may be any address
      above the nodes. */
  ghost predicate Node(head: int, tail: int, F: set<int>, a: int) {
    a == head || a in F || a == tail
  }

  ghost predicate Bounds(m: Memory, head: int, tail: int, F: set<int>) {
    && 0 < head < tail < |m|
    && (forall f :: f in F ==> head < f < tail)
  }

  /** The list links exactly the nodes in F, in address order, in both directions. */
  ghost predicate Linked(m: Memory, head: int, tail: int, F: set<int>) {
    && Bounds(m, head, tail, F)
    && LinkSteps(m, head, tail, F) && NextIsNearest(m, head, tail, F)
    && NextOf(m, tail) == NULL
    && PrevOf(m, head) == NULL
  }

  /** The next node is above this one and points back to it. */
  ghost predicate LinkSteps(m: Memory, head: int, tail: int, F: set<int>)
    requires Bounds(m, head, tail, F)
  {
    forall a {:trigger NextOf(m, a)} :: Node(head, tail, F, a) && a != tail ==>
      Node(head, tail, F, NextOf(m, a)) && a < NextOf(m, a) && PrevOf(m, NextOf(m, a)) == a
  }

  /** No node is skipped. */
  ghost predicate NextIsNearest(m: Memory, head: int, tail: int, F: set<int>)
    requires Bounds(m, head, tail, F)
  {
    forall a, b {:trigger NextOf(m, a), Node(head, tail, F, b)} ::
      Node(head, tail, F, a) && Node(head, tail, F, b) && a < b ==> NextOf(m, a) <= b
  }

  /** m2 differs from m1 only in the words of the cells in X. */
  ghost predicate SameButWords(m1: Memory, m2: Memory, X: set<int>) {
    && |m1| == |m2|
    && (forall a {:trigger m2[a]} :: 0 <= a < |m1| ==> m2[a] == m1[a].(word := m2[a].word))
    && (forall a {:trigger m2[a]} :: 0 <= a < |m1| && a !in X ==> m2[a] == m1[a])
  }

  /** The predecessor of a node is the closest node below it, and links to it. */
  lemma PrevIsNode(m: Memory, head: int, tail: int, F: set<int>, n: int)
    requires Linked(m, head, tail, F)
    requires Node(head, tail, F, n) && n != head
    ensures Node(head, tail, F, PrevOf(m, n)) && PrevOf(m, n) < n && NextOf(m, PrevOf(m, n)) == n
    ensures forall b {:trigger Node(head, tail, F, b)} :: Node(head, tail, F, b) && b < n ==> b <= PrevOf(m, n)
  {
    var S := set f | f in F && f < n;
    var p := MaxBelow(S, head);
    assert Node(head, tail, F, p) && p < n;
    var q := NextOf(m, p);
    assert Node(head, tail, F, q);
    assert q == n || q in S;
    forall b | Node(head, tail, F, b) && b < n ensures b <= p {
      if b in F { assert b in S; }
    }
  }

  /** The largest element of S, or low when S is empty. */
  lemma MaxBelow(S: set<int>, low: int) returns (p: int)
    requires forall s :: s in S ==> low < s
    ensures p == low || p in S
    ensures forall s :: s in S ==> s <= p
    ensures low <= p
  {
    if x: int :| x in S {
      var q := MaxBelow(S - {x}, low);
      p := if x > q then x else q;
      forall s | s in S ensures s <= p {
        if s != x { assert s in S - {x}; }
      }
    } else {
      p := low;
    }
  }

  /** n was linked in between the neighbours p and q. */
  ghost predicate LinkedIn(m: Memory, m': Memory, head: int, tail: int, F: set<int>, n: int, p: int, q: int) {
    && Linked(m, head, tail, F)
    && head < n < tail && n !in F
    && Node(head, tail, F, p) && Node(head, tail, F, q) && p < n < q && NextOf(m, p) == q
    && |m'| == |m| && m'[n].word == Link(q, p)
    && NextOf(m', p) == n && PrevOf(m', p) == PrevOf(m, p)
    && PrevOf(m', q) == n && NextOf(m', q) == NextOf(m, q)
    && (forall a :: 0 <= a < |m| && a != n && a != p && a != q ==> m'[a] == m[a])
  }

  lemma InsertedStep(m: Memory, m': Memory, head: int, tail: int, F: set<int>, n: int, p: int, q: int, a: int)
    requires LinkedIn(m, m', head, tail, F, n, p, q)
    requires Node(head, tail, F + {n}, a) && a != tail
    ensures 0 <= a < |m| && NextOf(m', a) == (if a == n then q else if a == p then n else NextOf(m, a))
    ensures Node(head, tail, F + {n}, NextOf(m', a)) && a < NextOf(m', a) && PrevOf(m', NextOf(m', a)) == a
  {
    if a != n && a != p {
      var x := NextOf(m, a);
      assert Node(head, tail, F, a) && Node(head, tail, F, x);
      assert PrevOf(m, x) == a && PrevOf(m, q) == p;
      assert NextOf(m', a) == x;
      if x != p { assert m'[x] == m[x]; }
    }
  }

  lemma InsertedNearest(m: Memory, m': Memory, head: int, tail: int, F: set<int>, n: int, p: int, q: int, a: int, b: int)
    requires LinkedIn(m, m', head, tail, F, n, p, q)
    requires Node(head, tail, F + {n}, a) && Node(head, tail, F + {n}, b) && a < b
    ensures 0 <= a < |m| && NextOf(m', a) <= b
  {
    InsertedStep(m, m', head, tail, F, n, p, q, a);
    if a == n {
      assert Node(head, tail, F, b) && NextOf(m, p) <= b;
    } else if a == p {
      if b != n { assert Node(head, tail, F, b) && NextOf(m, p) <= b; }
    } else if b == n {
      assert Node(head, tail, F, a) && Node(head, tail, F, p) && NextOf(m, a) <= p;
    } else {
      assert Node(head, tail, F, a) && Node(head, tail, F, b);
    }
  }

  lemma LinkedAfterInsert(m: Memory, m': Memory, head: int, tail: int, F: set<int>, n: int, p: int, q: int)
    requires LinkedIn(m, m', head, tail, F, n, p, q)
    ensures Linked(m', head, tail, F + {n})
  {
    var F' := F + {n};
    assert LinkSteps(m', head, tail, F') by {
      forall a | Node(head, tail, F', a) && a != tail
        ensures Node(head, tail, F', NextOf(m', a)) && a < NextOf(m', a) && PrevOf(m', NextOf(m', a)) == a
      {
        InsertedStep(m, m', head, tail, F, n, p, q, a);
      }
    }
    assert NextIsNearest(m', head, tail, F') by {
      forall a, b | Node(head, tail, F', a) && Node(head, tail, F', b) && a < b
        ensures NextOf(m', a) <= b
      {
        InsertedNearest(m, m', head, tail, F, n, p, q, a, b);
      }
    }
  }

  lemma LinkedAfterUnlink(m: Memory, m': Memory, head: int, tail: int, F: set<int>, n: int)
    requires Linked(m, head, tail, F)
    requires n in F
    requires |m'| == |m|
    requires var p := PrevOf(m, n); var q := NextOf(m, n);
             && 0 <= p < |m| && 0 <= q < |m|
             && NextOf(m', p) == q && PrevOf(m', p) == PrevOf(m, p)
             && PrevOf(m', q) == p && NextOf(m', q) == NextOf(m, q)
             && (forall a :: 0 <= a < |m| && a != n && a != p && a != q ==> m'[a] == m[a])
    ensures Linked(m', head, tail, F - {n})
  {
    PrevIsNode(m, head, tail, F, n);
    var p := PrevOf(m, n);
    var q := NextOf(m, n);
    assert Node(head, tail, F, n);
    var F' := F - {n};
    forall a | Node(head, tail, F', a) && a != tail
      ensures Node(head, tail, F', NextOf(m', a)) && a < NextOf(m', a) && PrevOf(m', NextOf(m', a)) == a
    {
      assert Node(head, tail, F, a);
      if a != p {
        var x := NextOf(m, a);
        assert NextOf(m', a) == x && Node(head, tail, F, x) && PrevOf(m, x) == a;
        assert x != n && x != q;
        if x != p { assert m'[x] == m[x]; }
      }
    }
    forall a, b | Node(head, tail, F', a) && Node(head, tail, F', b) && a < b
      ensures NextOf(m', a) <= b
    {
      assert Node(head, tail, F, a) && Node(head, tail, F, b);
      if a == p {
        assert n <= b;
        assert NextOf(m, n) <= b;
      } else {
        assert NextOf(m', a) == NextOf(m, a);
      }
    }
  }

  /** Changes outside the words of a list's nodes leave the list linked. */
  lemma LinkedFrame(m: Memory, m': Memory, head: int, tail: int, F: set<int>)
    requires Linked(m, head, tail, F)
    requires |m'| == |m|
    requires forall a :: Node(head, tail, F, a) ==> m'[a].word == m[a].word
    ensures Linked(m', head, tail, F)
  {
    forall a | Node(head, tail, F, a)
      ensures NextOf(m', a) == NextOf(m, a) && PrevOf(m', a) == PrevOf(m, a)
    {
    }
    forall a | Node(head, tail, F, a) && a != tail
      ensures Node(head, tail, F, NextOf(m', a)) && a < NextOf(m', a) && PrevOf(m', NextOf(m', a)) == a
    {
      var x := NextOf(m, a);
      assert Node(head, tail, F, x);
    }
  }

  // ---------- A list under construction ----------

  /** A list that is built front to back and still open after its last node. */
  ghost predicate OpenLinked(m: Memory, head: int, last: int, F: set<int>) {
    && OpenBounds(m, head, last, F) && OpenSteps(m, head, last, F)
    && PrevOf(m, head) == NULL
  }

  ghost predicate OpenBounds(m: Memory, head: int, last: int, F: set<int>) {
    && 0 < head < |m|
    && (forall f :: f in F ==> head < f <= last && f < |m|)
    && (last == head || last in F)
  }

  ghost predicate OpenSteps(m: Memory, head: int, last: int, F: set<int>)
    requires OpenBounds(m, head, last, F)
  {
    && (forall a {:trigger NextOf(m, a)} :: (a == head || a in F) && a != last ==>
          NextOf(m, a) in F && a < NextOf(m, a) && PrevOf(m, NextOf(m, a)) == a)
    && (forall a, b {:trigger NextOf(m, a), b in F} :: (a == head || a in F) && b in F && a < b ==> NextOf(m, a) <= b)
  }

  function SetNext(c: Cell, next: int): Cell {
    c.(word := Link(next, if c.word.Link? then c.word.prev else NULL))
  }

  function SetPrev(c: Cell, prev: int): Cell {
    c.(word := Link(if c.word.Link? then c.word.next else NULL, prev))
  }

  lemma OpenLinkedFrame(m: Memory, m': Memory, head: int, last: int, F: set<int>)
    requires OpenLinked(m, head, last, F)
    requires |m'| == |m| && forall a :: a == head || a in F ==> m'[a].word == m[a].word
    ensures OpenLinked(m', head, last, F)
  {
    forall a | a == head || a in F ensures NextOf(m', a) == NextOf(m, a) && PrevOf(m', a) == PrevOf(m, a) { }
    forall a | (a == head || a in F) && a != last
      ensures NextOf(m', a) in F && a < NextOf(m', a) && PrevOf(m', NextOf(m', a)) == a
    {
      var x := NextOf(m, a);
    }
  }

  lemma OpenLinkedAppend(m: Memory, m': Memory, head: int, last: int, F: set<int>, n: int)
    requires OpenLinked(m, head, last, F)
    requires last < n < |m| && |m'| == |m|
    requires NextOf(m', last) == n && PrevOf(m', last) == PrevOf(m, last)
    requires PrevOf(m', n) == last
    requires forall a :: (a == head || a in F) && a != last ==> m'[a].word == m[a].word
    ensures OpenLinked(m', head, n, F + {n})
  {
    var F' := F + {n};
    assert OpenBounds(m', head, n, F');
    assert OpenSteps(m', head, n, F') by {
      forall a | (a == head || a in F') && a != n
        ensures NextOf(m', a) in F' && a < NextOf(m', a) && PrevOf(m', NextOf(m', a)) == a
      {
        AppendedStep(m, m', head, last, F, n, a);
      }
      forall a, b | (a == head || a in F') && b in F' && a < b ensures NextOf(m', a) <= b {
        AppendedStep(m, m', head, last, F, n, a);
      }
    }
    assert PrevOf(m', head) == NULL;
  }

  lemma AppendedStep(m: Memory, m': Memory, head: int, last: int, F: set<int>, n: int, a: int)
    requires OpenLinked(m, head, last, F)
    requires last < n < |m| && |m'| == |m|
    requires NextOf(m', last) == n && PrevOf(m', last) == PrevOf(m, last)
    requires PrevOf(m', n) == last
    requires forall a :: (a == head || a in F) && a != last ==> m'[a].word == m[a].word
    requires a == head || a in F
    ensures NextOf(m', a) in F + {n} && a < NextOf(m', a) && PrevOf(m', NextOf(m', a)) == a
    ensures forall b :: b in F + {n} && a < b ==> NextOf(m', a) <= b
  {
    if a != last {
      var x := NextOf(m, a);
      assert NextOf(m', a) == x && x in F;
      assert PrevOf(m', x) == PrevOf(m, x);
    }
  }

  lemma OpenLinkedClose(m: Memory, m': Memory, head: int, last: int, tail: int, F: set<int>)
    requires OpenLinked(m, head, last, F)
    requires last < tail < |m| && |m'| == |m|
    requires NextOf(m', last) == tail && PrevOf(m', last) == PrevOf(m, last)
    requires m'[tail].word == Link(NULL, last)
    requires forall a :: (a == head || a in F) && a != last ==> m'[a].word == m[a].word
    ensures Linked(m', head, tail, F)
  {
    forall a | Node(head, tail, F, a) && a != tail
      ensures Node(head, tail, F, NextOf(m', a)) && a < NextOf(m', a) && PrevOf(m', NextOf(m', a)) == a
    {
      if a != last {
        var x := NextOf(m, a);
        assert NextOf(m', a) == x && x in F;
        assert PrevOf(m', x) == PrevOf(m, x);
      }
    }
    forall a, b | Node(head, tail, F, a) && Node(head, tail, F, b) && a < b ensures NextOf(m', a) <= b {
      assert a != tail ==> a == last || (NextOf(m', a) == NextOf(m, a) && NextOf(m, a) in F);
    }
  }

  // ---------- The list operations ----------

  /** CLR_RT_HeapBlock_Node::Unlink. */
  method Unlink(mem: array<Cell>, node: int, ghost head: int, ghost tail: int, ghost F: set<int>)
    requires Linked(mem[..], head, tail, F)
    requires node in F
    modifies mem
    ensures Linked(mem[..], head, tail, F - {node})
    ensures mem[node] == old(mem[node]).(word := Link(NULL, NULL))
    ensures SameButWords(old(mem[..]), mem[..], F + {head, tail})
  {
    ghost var m := mem[..];
    PrevIsNode(m, head, tail, F, node);
    assert Node(head, tail, F, node);
    assert m[node].word.Link?;
    var prev := mem[node].word.prev;
    var next := mem[node].word.next;
    assert prev == PrevOf(m, node) && next == NextOf(m, node);
    assert Node(head, tail, F, next);
    assert m[prev].word.Link? && m[next].word.Link?;
    if prev != NULL { mem[prev] := mem[prev].(word := Link(next, mem[prev].word.prev)); }
    if next != NULL { mem[next] := mem[next].(word := Link(mem[next].word.next, prev)); }
    mem[node] := mem[node].(word := Link(NULL, NULL));
    LinkedAfterUnlink(m, mem[..], head, tail, F, node);
  }

  /** CLR_RT_DblLinkedList::InsertBeforeNode, for a node that is in no list. */
  method InsertBeforeNode(mem: array<Cell>, node: int, nodeNew: int, ghost head: int, ghost tail: int, ghost F: set<int>)
    requires Linked(mem[..], head, tail, F)
    requires Node(head, tail, F, node) && node != head
    requires head < nodeNew < node && nodeNew !in F
    requires PrevOf(mem[..], node) < nodeNew
    modifies mem
    ensures Linked(mem[..], head, tail, F + {nodeNew})
    ensures mem[nodeNew].word == Link(node, old(PrevOf(mem[..], node)))
    ensures SameButWords(old(mem[..]), mem[..], F + {head, tail, nodeNew})
  {
    ghost var m := mem[..];
    PrevIsNode(m, head, tail, F, node);
    var prev := mem[node].word.prev;
    assert prev == PrevOf(m, node);
    mem[nodeNew] := mem[nodeNew].(word := Link(node, prev));
    mem[node] := mem[node].(word := Link(mem[node].word.next, nodeNew));
    mem[prev] := mem[prev].(word := Link(nodeNew, mem[prev].word.prev));
    LinkedAfterInsert(m, mem[..], head, tail, F, nodeNew, prev, node);
  }
}
