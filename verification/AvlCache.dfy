/** The virtual-method cache over an AVL tree whose nodes come from a fixed pool: tree operations that
    rewire the pool in place (CLR_RT_AVLTree), and the lookup that keeps the entries in
    most-recently-used order (VirtualMethodTable). */
module AvlCaches {
  import opened AvlTrees
  import opened LruModel
  import opened Sequences

  /** A pool node.  The references to it are its index in the pool; NIL is the null pointer. */
  datatype Entry = Entry(left: int, right: int, skew: Skew, item: Payload)

  /** The nodes from n on form the tree t. */
  ghost predicate Rep(nodes: seq<Entry>, n: int, t: Tree)
    decreases t
  {
    match t
    case Leaf => n == NIL
    case Node(l, id, item, s, r) =>
      && n == id && 0 <= id < |nodes| && nodes[id].item == item && nodes[id].skew == s
      && Rep(nodes, nodes[id].left, l) && Rep(nodes, nodes[id].right, r)
  }

  lemma {:induction false} RepFrame(nodes: seq<Entry>, nodes': seq<Entry>, n: int, t: Tree)
    requires Rep(nodes, n, t)
    requires |nodes'| == |nodes| && forall i :: i in Ids(t) && 0 <= i < |nodes| ==> nodes'[i] == nodes[i]
    ensures Rep(nodes', n, t)
    decreases t
  {
    if t.Node? {
      IdsParts(t);
      RepFrame(nodes, nodes', nodes[n].left, t.left);
      RepFrame(nodes, nodes', nodes[n].right, t.right);
    }
  }

  lemma {:induction false} RepIds(nodes: seq<Entry>, n: int, t: Tree)
    requires Rep(nodes, n, t)
    ensures forall i :: i in Ids(t) ==> 0 <= i < |nodes|
    ensures n == NIL <==> t.Leaf?
    decreases t
  {
    if t.Node? {
      IdsParts(t);
      RepIds(nodes, nodes[n].left, t.left);
      RepIds(nodes, nodes[n].right, t.right);
    }
  }

  /** Links and flags may differ, but only in the nodes X; items are the same everywhere. */
  ghost predicate Rewired(nodes: seq<Entry>, nodes': seq<Entry>, X: seq<int>) {
    && |nodes'| == |nodes|
    && (forall i {:trigger nodes'[i]} :: 0 <= i < |nodes| && i !in X ==> nodes'[i] == nodes[i])
    && (forall i {:trigger nodes'[i]} :: 0 <= i < |nodes| ==> nodes'[i].item == nodes[i].item)
  }

  /** Replacing the root node of a tree: a new flag, and new subtrees that do not use it. */
  lemma {:induction false} RepRoot(nodes: seq<Entry>, nodes': seq<Entry>, t: Tree)
    requires t.Node? && 0 <= t.id < |nodes| == |nodes'|
    requires t.id !in Ids(t.left) && t.id !in Ids(t.right)
    requires Rep(nodes, nodes'[t.id].left, t.left) && Rep(nodes, nodes'[t.id].right, t.right)
    requires nodes'[t.id].item == t.item && nodes'[t.id].skew == t.skew
    requires forall i {:trigger nodes'[i]} :: 0 <= i < |nodes| && i != t.id ==> nodes'[i] == nodes[i]
    ensures Rep(nodes', t.id, t)
  {
    RepFrame(nodes, nodes', nodes'[t.id].left, t.left);
    RepFrame(nodes, nodes', nodes'[t.id].right, t.right);
  }

  /** The node that the owner hands out next. */
  function Spare(freeItems: seq<int>): int {
    if freeItems == [] then NIL else freeItems[0]
  }

  /** The list with y linked behind x. */
  function InsertAfter(s: seq<int>, x: int, y: int): seq<int> {
    if s == [] then [] else if s[0] == x then [x, y] + s[1..] else [s[0]] + InsertAfter(s[1..], x, y)
  }

  /** The list after target took over the item, and the place, of the victim. */
  function TakenOver(s: seq<int>, target: int, victim: int): seq<int> {
    if target == victim then Minus(s, victim) else Minus(InsertAfter(Minus(s, target), victim, target), victim)
  }

  /** As Rewired, except that target got a new item. */
  ghost predicate Retold(nodes: seq<Entry>, nodes': seq<Entry>, X: seq<int>, target: int, item: Payload) {
    && |nodes'| == |nodes| && 0 <= target < |nodes| && nodes'[target].item == item
    && (forall i {:trigger nodes'[i]} :: 0 <= i < |nodes| && i !in X ==> nodes'[i] == nodes[i].(item := nodes'[i].item))
    && (forall i {:trigger nodes'[i]} :: 0 <= i < |nodes| && i != target ==> nodes'[i].item == nodes[i].item)
  }

  lemma RetoldRewired(s: seq<Entry>, s1: seq<Entry>, s2: seq<Entry>, X: seq<int>, Y: seq<int>, Z: seq<int>,
          target: int, item: Payload)
    requires Retold(s, s1, X, target, item) && Rewired(s1, s2, Y)
    requires forall i :: i in X || i in Y ==> i in Z
    ensures Retold(s, s2, Z, target, item)
  {
  }

  /** What is left of a subtree after one node was taken out. */
  lemma HighestRest(t: Tree)
    requires t.Node? && Distinct(t)
    ensures Distinct(TakeHighest(t).0) && forall i :: i in Ids(t) <==> i in Ids(TakeHighest(t).0) || i == TakeHighest(t).2.id
  {
    TakeHighestContents(t);
    TakenNode(Ids(t), Ids(TakeHighest(t).0), [], TakeHighest(t).2.id);
  }

  lemma LowestRest(t: Tree)
    requires t.Node? && Distinct(t)
    ensures Distinct(TakeLowest(t).0) && forall i :: i in Ids(t) <==> i in Ids(TakeLowest(t).0) || i == TakeLowest(t).2.id
  {
    TakeLowestContents(t);
    TakenNode(Ids(t), [], Ids(TakeLowest(t).0), TakeLowest(t).2.id);
  }

  /** The effect of an insertion on the pool and its lists; X are the nodes of the tree. */
  ghost predicate Inserted(s: seq<Entry>, s': seq<Entry>, free: seq<int>, free': seq<int>, used: seq<int>,
          used': seq<int>, X: seq<int>, item: Payload, res: Result)
  {
    if res == ResOk || res == ResBalance then
      free != [] && free' == free[1..] && used' == [free[0]] + used && Retold(s, s', X + [free[0]], free[0], item)
    else
      free' == free && used' == used && Rewired(s, s', X)
  }

  lemma InsertedUp(s: seq<Entry>, s1: seq<Entry>, s2: seq<Entry>, free: seq<int>, free': seq<int>, used: seq<int>,
          used': seq<int>,
      X: seq<int>, Y: seq<int>, Z: seq<int>, item: Payload, res: Result, res': Result)
    requires Inserted(s, s1, free, free', used, used', X, item, res) && Rewired(s1, s2, Y)
    requires forall i :: i in X ==> i in Z
    requires forall i :: i in Y ==> i in Z || ((res == ResOk || res == ResBalance) && i == Spare(free))
    requires (res in {ResOk, ResBalance} && res' in {ResOk, ResBalance}) || res' == res
    ensures Inserted(s, s2, free, free', used, used', Z, item, res')
  {
    if res == ResOk || res == ResBalance {
      RetoldRewired(s, s1, s2, X + [free[0]], Y, Z + [free[0]], free[0], item);
    }
  }

  /** The effect of a removal; x held the removed key, and the victim is the node that was freed. */
  ghost predicate Removed(s: seq<Entry>, s': seq<Entry>, free: seq<int>, free': seq<int>, used: seq<int>,
          used': seq<int>, X: seq<int>, x: int, victim: Victim, res: Result)
  {
    if res == ResNotFound then
      free' == free && used' == used && Rewired(s, s', X)
    else
      && Retold(s, s', X, x, victim.item)
      && used' == TakenOver(used, x, victim.id) && free' == Minus(free, victim.id) + [victim.id]
  }

  lemma RemovedUp(s: seq<Entry>, s1: seq<Entry>, s2: seq<Entry>, free: seq<int>, free': seq<int>, used: seq<int>,
          used': seq<int>,
      X: seq<int>, Y: seq<int>, Z: seq<int>, x: int, victim: Victim, res: Result, res': Result)
    requires Removed(s, s1, free, free', used, used', X, x, victim, res) && Rewired(s1, s2, Y)
    requires forall i :: i in X || i in Y ==> i in Z
    requires res == ResNotFound <==> res' == ResNotFound
    ensures Removed(s, s2, free, free', used, used', Z, x, victim, res')
  {
    if res != ResNotFound {
      RetoldRewired(s, s1, s2, X, Y, Z, x, victim.item);
    }
  }

  class VirtualMethodTable {
    const nodes: array<Entry>
    var root: int
    /** The unused nodes, and the nodes in use from the most to the least recently used one. */
    var freeItems: seq<int>
    var inUse: seq<int>
    /** The keys that were looked up, but for those that a shortcut answered or that name no method. */
    ghost var asked: seq<Key>

    // ---------- Rotations ----------

    /** RotateLeft; the caller stores the result where it found n. */
    method RotateLeftAt(n: int, ghost t: Tree) returns (n': int)
      requires Rep(nodes[..], n, t) && Distinct(t) && t.Node? && t.right.Node?
      modifies nodes
      ensures Rep(nodes[..], n', RotateLeft(t)) && Rewired(old(nodes[..]), nodes[..], Ids(t))
    {
      ghost var s := nodes[..];
      DistinctParts(t);
      DistinctParts(t.right);
      IdsParts(t.right);
      var top, bottom := n, nodes[n].right;
      nodes[top] := nodes[top].(right := nodes[bottom].left);
      ghost var s1 := nodes[..];
      nodes[bottom] := nodes[bottom].(left := top);
      n' := bottom;
      ghost var u := t.(right := t.right.left);
      RepRoot(s, s1, u);
      RepFrame(s, s1, s[bottom].right, t.right.right);
      RepRoot(s1, nodes[..], RotateLeft(t));
    }

    method RotateRightAt(n: int, ghost t: Tree) returns (n': int)
      requires Rep(nodes[..], n, t) && Distinct(t) && t.Node? && t.left.Node?
      modifies nodes
      ensures Rep(nodes[..], n', RotateRight(t)) && Rewired(old(nodes[..]), nodes[..], Ids(t))
    {
      ghost var s := nodes[..];
      DistinctParts(t);
      DistinctParts(t.left);
      IdsParts(t.left);
      var top, bottom := n, nodes[n].left;
      nodes[top] := nodes[top].(left := nodes[bottom].right);
      ghost var s1 := nodes[..];
      nodes[bottom] := nodes[bottom].(right := top);
      n' := bottom;
      ghost var u := t.(left := t.left.right);
      RepRoot(s, s1, u);
      RepFrame(s, s1, s[bottom].left, t.left.left);
      RepRoot(s1, nodes[..], RotateRight(t));
    }

    /** Set the flag of a node. */
    method Flag(n: int, skew: Skew, ghost t: Tree)
      requires Rep(nodes[..], n, t) && Distinct(t) && t.Node?
      modifies nodes
      ensures Rep(nodes[..], n, SetSkew(t, skew)) && Rewired(old(nodes[..]), nodes[..], [n])
      ensures nodes[n] == old(nodes[n]).(skew := skew)
    {
      ghost var s := nodes[..];
      DistinctParts(t);
      nodes[n] := nodes[n].(skew := skew);
      RepRoot(s, nodes[..], SetSkew(t, skew));
    }

    /** Flag a node and its left child, and rotate the child over it. */
    method FlagsAndRotateRight(n: int, skew: Skew, leftSkew: Skew, ghost t: Tree) returns (n': int)
      requires Rep(nodes[..], n, t) && Distinct(t) && t.Node? && t.left.Node?
      modifies nodes
      ensures Rep(nodes[..], n', RotateRight(t.(skew := skew, left := SetSkew(t.left, leftSkew))))
      ensures Rewired(old(nodes[..]), nodes[..], Ids(t))
    {
      ghost var s := nodes[..];
      DistinctParts(t);
      var left := nodes[n].left;
      nodes[n] := nodes[n].(skew := skew);
      RepRoot(s, nodes[..], t.(skew := skew));
      ghost var s1 := nodes[..];
      Flag(left, leftSkew, t.left);
      RepFrame(s1, nodes[..], nodes[n].right, t.right);
      ghost var u := t.(skew := skew, left := SetSkew(t.left, leftSkew));
      SetSkewKeeps(t.left, leftSkew);
      IdsParts(u);
      assert Ids(u) == Ids(t);
      n' := RotateRightAt(n, u);
    }

    method FlagsAndRotateLeft(n: int, skew: Skew, rightSkew: Skew, ghost t: Tree) returns (n': int)
      requires Rep(nodes[..], n, t) && Distinct(t) && t.Node? && t.right.Node?
      modifies nodes
      ensures Rep(nodes[..], n', RotateLeft(t.(skew := skew, right := SetSkew(t.right, rightSkew))))
      ensures Rewired(old(nodes[..]), nodes[..], Ids(t))
    {
      ghost var s := nodes[..];
      DistinctParts(t);
      var right := nodes[n].right;
      nodes[n] := nodes[n].(skew := skew);
      RepRoot(s, nodes[..], t.(skew := skew));
      ghost var s1 := nodes[..];
      Flag(right, rightSkew, t.right);
      RepFrame(s1, nodes[..], nodes[n].left, t.left);
      ghost var u := t.(skew := skew, right := SetSkew(t.right, rightSkew));
      SetSkewKeeps(t.right, rightSkew);
      IdsParts(u);
      assert Ids(u) == Ids(t);
      n' := RotateLeftAt(n, u);
    }

    /** The double rotation that brings the inner grandchild of the left child to the top. */
    method LiftLeftAt(n: int, ghost t: Tree) returns (n': int)
      requires Rep(nodes[..], n, t) && Distinct(t) && t.Node? && t.left.Node? && t.left.right.Node?
      modifies nodes
      ensures Rep(nodes[..], n', LiftLeft(t)) && Rewired(old(nodes[..]), nodes[..], Ids(t))
    {
      ghost var s := nodes[..];
      DistinctParts(t);
      var left := nodes[n].left;
      var inner := nodes[left].right;
      assert Rep(s, left, t.left) && Rep(s, inner, t.left.right);
      var skew := nodes[inner].skew;
      var s' := if skew == SkewLeft then SkewRight else SkewNone;
      var ls' := if skew == SkewRight then SkewLeft else SkewNone;
      ghost var l := t.left.(skew := ls', right := SetSkew(t.left.right, SkewNone));
      SetSkewKeeps(t.left.right, SkewNone);
      assert Ids(l) == Ids(t.left);
      RotateLeftKeeps(l);
      var left' := FlagsAndRotateLeft(left, ls', SkewNone, t.left);
      RepFrame(s, nodes[..], nodes[n].right, t.right);
      assert LiftLeft(t) == RotateRight(t.(left := RotateLeft(l), skew := s'));
      n' := HangLeftAndRotate(n, left', s', RotateLeft(l), t);
    }

    method LiftRightAt(n: int, ghost t: Tree) returns (n': int)
      requires Rep(nodes[..], n, t) && Distinct(t) && t.Node? && t.right.Node? && t.right.left.Node?
      modifies nodes
      ensures Rep(nodes[..], n', LiftRight(t)) && Rewired(old(nodes[..]), nodes[..], Ids(t))
    {
      ghost var s := nodes[..];
      DistinctParts(t);
      var right := nodes[n].right;
      var inner := nodes[right].left;
      assert Rep(s, right, t.right) && Rep(s, inner, t.right.left);
      var skew := nodes[inner].skew;
      var s' := if skew == SkewRight then SkewLeft else SkewNone;
      var rs' := if skew == SkewLeft then SkewRight else SkewNone;
      ghost var r := t.right.(skew := rs', left := SetSkew(t.right.left, SkewNone));
      SetSkewKeeps(t.right.left, SkewNone);
      assert Ids(r) == Ids(t.right);
      RotateRightKeeps(r);
      var right' := FlagsAndRotateRight(right, rs', SkewNone, t.right);
      RepFrame(s, nodes[..], nodes[n].left, t.left);
      assert LiftRight(t) == RotateLeft(t.(right := RotateRight(r), skew := s'));
      n' := HangRightAndRotate(n, right', s', RotateRight(r), t);
    }

    /** Hang a rebuilt left subtree under n, set the flag of n, and rotate. */
    method HangLeftAndRotate(n: int, left: int, skew: Skew, ghost l: Tree, ghost t: Tree) returns (n': int)
      requires t.Node? && t.id == n && 0 <= n < nodes.Length && nodes[n].item == t.item
      requires Rep(nodes[..], left, l) && Rep(nodes[..], nodes[n].right, t.right) && l.Node?
      requires Distinct(t) && Ids(l) == Ids(t.left)
      modifies nodes
      ensures Rep(nodes[..], n', RotateRight(t.(left := l, skew := skew))) && Rewired(old(nodes[..]), nodes[..], Ids(t))
    {
      ghost var s := nodes[..];
      DistinctParts(t);
      ghost var u := t.(left := l, skew := skew);
      assert Ids(u) == Ids(t);
      nodes[n] := nodes[n].(left := left, skew := skew);
      RepRoot(s, nodes[..], u);
      n' := RotateRightAt(n, u);
    }

    method HangRightAndRotate(n: int, right: int, skew: Skew, ghost r: Tree, ghost t: Tree) returns (n': int)
      requires t.Node? && t.id == n && 0 <= n < nodes.Length && nodes[n].item == t.item
      requires Rep(nodes[..], right, r) && Rep(nodes[..], nodes[n].left, t.left) && r.Node?
      requires Distinct(t) && Ids(r) == Ids(t.right)
      modifies nodes
      ensures Rep(nodes[..], n', RotateLeft(t.(right := r, skew := skew))) && Rewired(old(nodes[..]), nodes[..], Ids(t))
    {
      ghost var s := nodes[..];
      DistinctParts(t);
      ghost var u := t.(right := r, skew := skew);
      assert Ids(u) == Ids(t);
      nodes[n] := nodes[n].(right := right, skew := skew);
      RepRoot(s, nodes[..], u);
      n' := RotateLeftAt(n, u);
    }

    // ---------- The rebalancing steps ----------

    method LeftGrownAt(n: int, ghost t: Tree) returns (n': int, res: Result)
      requires Rep(nodes[..], n, t) && Distinct(t) && LeftOneHigher(t)
      modifies nodes
      ensures Rep(nodes[..], n', LeftGrown(t).0) && res == LeftGrown(t).1 && Rewired(old(nodes[..]), nodes[..], Ids(t))
    {
      match nodes[n].skew {
        case SkewLeft =>
          var left := nodes[n].left;
          if nodes[left].skew == SkewLeft {
            n' := FlagsAndRotateRight(n, SkewNone, SkewNone, t);
          } else {
            assert t.left.right.Node?;
            n' := LiftLeftAt(n, t);
          }
          res := ResOk;
        case SkewRight =>
          n' := FlagRoot(n, SkewNone, t);
          res := ResOk;
        case SkewNone =>
          n' := FlagRoot(n, SkewLeft, t);
          res := ResBalance;
      }
    }

    method RightGrownAt(n: int, ghost t: Tree) returns (n': int, res: Result)
      requires Rep(nodes[..], n, t) && Distinct(t) && RightOneHigher(t)
      modifies nodes
      ensures Rep(nodes[..], n', RightGrown(t).0) && res == RightGrown(t).1 && Rewired(old(nodes[..]), nodes[..], Ids(t))
    {
      match nodes[n].skew {
        case SkewLeft =>
          n' := FlagRoot(n, SkewNone, t);
          res := ResOk;
        case SkewRight =>
          var right := nodes[n].right;
          if nodes[right].skew == SkewRight {
            n' := FlagsAndRotateLeft(n, SkewNone, SkewNone, t);
          } else {
            assert t.right.left.Node?;
            n' := LiftRightAt(n, t);
          }
          res := ResOk;
        case SkewNone =>
          n' := FlagRoot(n, SkewRight, t);
          res := ResBalance;
      }
    }

    method LeftShrunkAt(n: int, ghost t: Tree) returns (n': int, res: Result)
      requires Rep(nodes[..], n, t) && Distinct(t) && LeftOneLower(t)
      modifies nodes
      ensures Rep(nodes[..], n', LeftShrunk(t).0) && res == LeftShrunk(t).1 && Rewired(old(nodes[..]), nodes[..], Ids(t))
    {
      match nodes[n].skew {
        case SkewLeft =>
          n' := FlagRoot(n, SkewNone, t);
          res := ResBalance;
        case SkewRight =>
          assert t.right.Node?;
          var right := nodes[n].right;
          if nodes[right].skew == SkewRight {
            n' := FlagsAndRotateLeft(n, SkewNone, SkewNone, t);
            res := ResBalance;
          } else if nodes[right].skew == SkewNone {
            n' := FlagsAndRotateLeft(n, SkewRight, SkewLeft, t);
            res := ResOk;
          } else {
            assert t.right.left.Node?;
            n' := LiftRightAt(n, t);
            res := ResBalance;
          }
        case SkewNone =>
          n' := FlagRoot(n, SkewRight, t);
          res := ResOk;
      }
    }

    method RightShrunkAt(n: int, ghost t: Tree) returns (n': int, res: Result)
      requires Rep(nodes[..], n, t) && Distinct(t) && RightOneLower(t)
      modifies nodes
      ensures Rep(nodes[..], n', RightShrunk(t).0) && res == RightShrunk(t).1 && Rewired(old(nodes[..]), nodes[..], Ids(t))
    {
      match nodes[n].skew {
        case SkewRight =>
          n' := FlagRoot(n, SkewNone, t);
          res := ResBalance;
        case SkewLeft =>
          assert t.left.Node?;
          var left := nodes[n].left;
          if nodes[left].skew == SkewLeft {
            n' := FlagsAndRotateRight(n, SkewNone, SkewNone, t);
            res := ResBalance;
          } else if nodes[left].skew == SkewNone {
            n' := FlagsAndRotateRight(n, SkewLeft, SkewRight, t);
            res := ResOk;
          } else {
            assert t.left.right.Node?;
            n' := LiftLeftAt(n, t);
            res := ResBalance;
          }
        case SkewNone =>
          n' := FlagRoot(n, SkewLeft, t);
          res := ResOk;
      }
    }

    /** A step that only changes the flag of the root. */
    method FlagRoot(n: int, skew: Skew, ghost t: Tree) returns (n': int)
      requires Rep(nodes[..], n, t) && Distinct(t) && t.Node?
      modifies nodes
      ensures n' == n && Rep(nodes[..], n', t.(skew := skew)) && Rewired(old(nodes[..]), nodes[..], Ids(t))
    {
      IdsParts(t);
      Flag(n, skew, t);
      n' := n;
    }

    // ---------- The owner's callbacks ----------

    method NewNode(payload: Payload) returns (en: int)
      requires forall i :: i in freeItems ==> 0 <= i < nodes.Length
      modifies nodes, this`freeItems, this`inUse
      ensures en == Spare(old(freeItems))
      ensures en == NIL || old(freeItems) == [] ==>
        old(freeItems) == [] && freeItems == [] && inUse == old(inUse) && nodes[..] == old(nodes[..])
      ensures old(freeItems) != [] ==>
        freeItems == old(freeItems)[1..] && inUse == [en] + old(inUse) && Retold(old(nodes[..]), nodes[..], [], en, payload)
    {
      en := NIL;
      if freeItems != [] {
        en := freeItems[0];
        assert en in freeItems;
        freeItems := freeItems[1..];
        nodes[en] := nodes[en].(item := payload);
        inUse := [en] + inUse;
      }
    }

    method FreeNode(node: int)
      modifies this`freeItems, this`inUse
      ensures inUse == Minus(old(inUse), node) && freeItems == Minus(old(freeItems), node) + [node]
    {
      inUse := Minus(inUse, node);
      freeItems := Minus(freeItems, node) + [node];
    }

    method Reassign(from: int, to: int)
      requires from != to && 0 <= from < nodes.Length && 0 <= to < nodes.Length
      modifies nodes, this`inUse
      ensures inUse == InsertAfter(Minus(old(inUse), to), from, to)
      ensures Retold(old(nodes[..]), nodes[..], [], to, old(nodes[from].item))
    {
      inUse := InsertAfter(Minus(inUse, to), from, to);
      nodes[to] := nodes[to].(item := nodes[from].item);
    }

    // ---------- Storing a changed subtree ----------

    /** Store a changed left subtree, and rebalance if it has grown. */
    method SettleLeftGrown(n: int, left: int, res: Result, ghost t: Tree) returns (n': int, res': Result)
      requires t.Node? && t.id == n && 0 <= n < nodes.Length && nodes[n].item == t.item && nodes[n].skew == t.skew
      requires Rep(nodes[..], left, t.left) && Rep(nodes[..], nodes[n].right, t.right) && Distinct(t)
      requires res == ResBalance ==> LeftOneHigher(t)
      modifies nodes
      ensures if res == ResBalance then Rep(nodes[..], n', LeftGrown(t).0) && res' == LeftGrown(t).1 else Rep(nodes[..], n', t) && res' == res
      ensures Rewired(old(nodes[..]), nodes[..], Ids(t))
    {
      ghost var s := nodes[..];
      DistinctParts(t);
      nodes[n] := nodes[n].(left := left);
      RepRoot(s, nodes[..], t);
      n', res' := n, res;
      if res == ResBalance {
        n', res' := LeftGrownAt(n, t);
      }
    }

    /** Store a changed right subtree, and rebalance if it has grown. */
    method SettleRightGrown(n: int, right: int, res: Result, ghost t: Tree) returns (n': int, res': Result)
      requires t.Node? && t.id == n && 0 <= n < nodes.Length && nodes[n].item == t.item && nodes[n].skew == t.skew
      requires Rep(nodes[..], right, t.right) && Rep(nodes[..], nodes[n].left, t.left) && Distinct(t)
      requires res == ResBalance ==> RightOneHigher(t)
      modifies nodes
      ensures if res == ResBalance then Rep(nodes[..], n', RightGrown(t).0) && res' == RightGrown(t).1 else Rep(nodes[..], n', t) && res' == res
      ensures Rewired(old(nodes[..]), nodes[..], Ids(t))
    {
      ghost var s := nodes[..];
      DistinctParts(t);
      nodes[n] := nodes[n].(right := right);
      RepRoot(s, nodes[..], t);
      n', res' := n, res;
      if res == ResBalance {
        n', res' := RightGrownAt(n, t);
      }
    }

    /** Store a changed left subtree, and rebalance if it has shrunk. */
    method SettleLeftShrunk(n: int, left: int, res: Result, ghost t: Tree) returns (n': int, res': Result)
      requires t.Node? && t.id == n && 0 <= n < nodes.Length && nodes[n].item == t.item && nodes[n].skew == t.skew
      requires Rep(nodes[..], left, t.left) && Rep(nodes[..], nodes[n].right, t.right) && Distinct(t)
      requires res == ResBalance ==> LeftOneLower(t)
      modifies nodes
      ensures if res == ResBalance then Rep(nodes[..], n', LeftShrunk(t).0) && res' == LeftShrunk(t).1 else Rep(nodes[..], n', t) && res' == res
      ensures Rewired(old(nodes[..]), nodes[..], Ids(t))
    {
      ghost var s := nodes[..];
      DistinctParts(t);
      nodes[n] := nodes[n].(left := left);
      RepRoot(s, nodes[..], t);
      n', res' := n, res;
      if res == ResBalance {
        n', res' := LeftShrunkAt(n, t);
      }
    }

    /** Store a changed right subtree, and rebalance if it has shrunk. */
    method SettleRightShrunk(n: int, right: int, res: Result, ghost t: Tree) returns (n': int, res': Result)
      requires t.Node? && t.id == n && 0 <= n < nodes.Length && nodes[n].item == t.item && nodes[n].skew == t.skew
      requires Rep(nodes[..], right, t.right) && Rep(nodes[..], nodes[n].left, t.left) && Distinct(t)
      requires res == ResBalance ==> RightOneLower(t)
      modifies nodes
      ensures if res == ResBalance then Rep(nodes[..], n', RightShrunk(t).0) && res' == RightShrunk(t).1 else Rep(nodes[..], n', t) && res' == res
      ensures Rewired(old(nodes[..]), nodes[..], Ids(t))
    {
      ghost var s := nodes[..];
      DistinctParts(t);
      nodes[n] := nodes[n].(right := right);
      RepRoot(s, nodes[..], t);
      n', res' := n, res;
      if res == ResBalance {
        n', res' := RightShrunkAt(n, t);
      }
    }

    // ---------- Replacing a node's item by the highest or the lowest one of a subtree ----------

    method FindHighest(n: int, target: int, ghost t: Tree) returns (found: bool, n': int, res: Result)
      requires Rep(nodes[..], n, t) && Distinct(t) && Balanced(t) && target !in Ids(t) && 0 <= target < nodes.Length
      modifies nodes, this`freeItems, this`inUse
      ensures found == t.Node?
      ensures !found ==> n' == n && nodes[..] == old(nodes[..]) && inUse == old(inUse) && freeItems == old(freeItems)
      ensures found ==>
        var (t', r, e) := TakeHighest(t);
        && Rep(nodes[..], n', t') && res == r && Retold(old(nodes[..]), nodes[..], Ids(t), target, e.item)
        && inUse == TakenOver(old(inUse), target, e.id) && freeItems == Minus(old(freeItems), e.id) + [e.id]
      decreases t
    {
      res := ResBalance;
      n' := n;
      found := n != NIL;
      if found {
        RepIds(nodes[..], n, t);
        if nodes[n].right != NIL {
          n', res := HighestOfRight(n, target, t);
        } else {
          n' := GiveUpNode(n, nodes[n].left, target, t);
        }
      }
    }

    /** The highest item is in the right subtree. */
    method HighestOfRight(n: int, target: int, ghost t: Tree) returns (n': int, res: Result)
      requires Rep(nodes[..], n, t) && Distinct(t) && Balanced(t) && target !in Ids(t) && 0 <= target < nodes.Length
      requires t.Node? && t.right.Node?
      modifies nodes, this`freeItems, this`inUse
      ensures var (t', r, e) := TakeHighest(t);
        && Rep(nodes[..], n', t') && res == r && Retold(old(nodes[..]), nodes[..], Ids(t), target, e.item)
        && inUse == TakenOver(old(inUse), target, e.id) && freeItems == Minus(old(freeItems), e.id) + [e.id]
      decreases t, 0
    {
      ghost var s := nodes[..];
      ghost var u := t.(right := TakeHighest(t.right).0);
      DistinctParts(t);
      HighestRest(t.right);
      DistinctWhole(u);
      TakeHighestBalances(t.right);
      var found, right;
      found, right, res := FindHighest(nodes[n].right, target, t.right);
      ghost var s1 := nodes[..];
      RepFrame(s, s1, nodes[n].left, t.left);
      n', res := SettleRightShrunk(n, right, res, u);
      RetoldRewired(s, s1, nodes[..], Ids(t.right), Ids(u), Ids(t), target, TakeHighest(t.right).2.item);
    }

    /** n itself is the node to free: its item goes to the target, its other subtree takes its place. */
    method GiveUpNode(n: int, rest: int, target: int, ghost t: Tree) returns (n': int)
      requires Rep(nodes[..], n, t) && Distinct(t) && target !in Ids(t) && 0 <= target < nodes.Length && t.Node?
      modifies nodes, this`freeItems, this`inUse
      ensures n' == rest && Retold(old(nodes[..]), nodes[..], [], target, t.item)
      ensures inUse == TakenOver(old(inUse), target, n) && freeItems == Minus(old(freeItems), n) + [n]
      ensures forall u: Tree :: (u == t.left || u == t.right) && Rep(old(nodes[..]), rest, u) ==> Rep(nodes[..], rest, u)
    {
      ghost var s := nodes[..];
      IdsParts(t);
      Reassign(n, target);
      n' := rest;
      forall u: Tree | (u == t.left || u == t.right) && Rep(s, rest, u) ensures Rep(nodes[..], rest, u) {
        RepFrame(s, nodes[..], rest, u);
      }
      FreeNode(n);
    }

    method FindLowest(n: int, target: int, ghost t: Tree) returns (found: bool, n': int, res: Result)
      requires Rep(nodes[..], n, t) && Distinct(t) && Balanced(t) && target !in Ids(t) && 0 <= target < nodes.Length
      modifies nodes, this`freeItems, this`inUse
      ensures found == t.Node?
      ensures !found ==> n' == n && nodes[..] == old(nodes[..]) && inUse == old(inUse) && freeItems == old(freeItems)
      ensures found ==>
        var (t', r, e) := TakeLowest(t);
        && Rep(nodes[..], n', t') && res == r && Retold(old(nodes[..]), nodes[..], Ids(t), target, e.item)
        && inUse == TakenOver(old(inUse), target, e.id) && freeItems == Minus(old(freeItems), e.id) + [e.id]
      decreases t
    {
      res := ResBalance;
      n' := n;
      found := n != NIL;
      if found {
        RepIds(nodes[..], n, t);
        if nodes[n].left != NIL {
          n', res := LowestOfLeft(n, target, t);
        } else {
          n' := GiveUpNode(n, nodes[n].right, target, t);
        }
      }
    }

    method LowestOfLeft(n: int, target: int, ghost t: Tree) returns (n': int, res: Result)
      requires Rep(nodes[..], n, t) && Distinct(t) && Balanced(t) && target !in Ids(t) && 0 <= target < nodes.Length
      requires t.Node? && t.left.Node?
      modifies nodes, this`freeItems, this`inUse
      ensures var (t', r, e) := TakeLowest(t);
        && Rep(nodes[..], n', t') && res == r && Retold(old(nodes[..]), nodes[..], Ids(t), target, e.item)
        && inUse == TakenOver(old(inUse), target, e.id) && freeItems == Minus(old(freeItems), e.id) + [e.id]
      decreases t, 0
    {
      ghost var s := nodes[..];
      ghost var u := t.(left := TakeLowest(t.left).0);
      DistinctParts(t);
      LowestRest(t.left);
      DistinctWhole(u);
      TakeLowestBalances(t.left);
      var found, left;
      found, left, res := FindLowest(nodes[n].left, target, t.left);
      ghost var s1 := nodes[..];
      RepFrame(s, s1, nodes[n].right, t.right);
      n', res := SettleLeftShrunk(n, left, res, u);
      RetoldRewired(s, s1, nodes[..], Ids(t.left), Ids(u), Ids(t), target, TakeLowest(t.left).2.item);
    }

    // ---------- Insertion, removal, search ----------

    method InsertAt(n: int, newDatum: Payload, ghost t: Tree) returns (n': int, res: Result)
      requires Rep(nodes[..], n, t) && Distinct(t) && Balanced(t)
      requires forall i :: i in freeItems ==> 0 <= i < nodes.Length && i !in Ids(t)
      modifies nodes, this`freeItems, this`inUse
      ensures Rep(nodes[..], n', Insert(t, newDatum, Spare(old(freeItems))).0) && res == Insert(t, newDatum, Spare(old(freeItems))).1
      ensures Inserted(old(nodes[..]), nodes[..], old(freeItems), freeItems, old(inUse), inUse, Ids(t), newDatum, res)
      decreases t
    {
      ghost var s := nodes[..];
      ghost var spare := Spare(freeItems);
      InsertBalances(t, newDatum, spare);
      if n == NIL {
        n', res := PlantNode(newDatum);
        return;
      }
      RepIds(s, n, t);
      DistinctParts(t);
      var cmp := Compare(nodes[n].item.key, newDatum.key);
      if cmp > 0 {
        n', res := InsertLeft(n, newDatum, t);
      } else if cmp < 0 {
        n', res := InsertRight(n, newDatum, t);
      } else {
        n', res := n, ResDuplicate;
      }
    }

    /** A new leaf. */
    method PlantNode(newDatum: Payload) returns (n': int, res: Result)
      requires forall i :: i in freeItems ==> 0 <= i < nodes.Length
      modifies nodes, this`freeItems, this`inUse
      ensures Rep(nodes[..], n', Insert(Leaf, newDatum, Spare(old(freeItems))).0) && res == Insert(Leaf, newDatum, Spare(old(freeItems))).1
      ensures res == ResBalance ==>
        && old(freeItems) != [] && freeItems == old(freeItems)[1..] && inUse == [Spare(old(freeItems))] + old(inUse)
        && Retold(old(nodes[..]), nodes[..], [Spare(old(freeItems))], Spare(old(freeItems)), newDatum)
      ensures res != ResBalance ==> freeItems == old(freeItems) && inUse == old(inUse) && nodes[..] == old(nodes[..])
    {
      assert freeItems != [] ==> freeItems[0] in freeItems;
      n' := NewNode(newDatum);
      res := ResError;
      if n' != NIL {
        nodes[n'] := nodes[n'].(left := NIL, right := NIL, skew := SkewNone);
        res := ResBalance;
      }
    }

    method InsertLeft(n: int, newDatum: Payload, ghost t: Tree) returns (n': int, res: Result)
      requires Rep(nodes[..], n, t) && Distinct(t) && Balanced(t) && t.Node? && Compare(t.item.key, newDatum.key) > 0
      requires forall i :: i in freeItems ==> 0 <= i < nodes.Length && i !in Ids(t)
      modifies nodes, this`freeItems, this`inUse
      ensures Rep(nodes[..], n', Insert(t, newDatum, Spare(old(freeItems))).0) && res == Insert(t, newDatum, Spare(old(freeItems))).1
      ensures Inserted(old(nodes[..]), nodes[..], old(freeItems), freeItems, old(inUse), inUse, Ids(t), newDatum, res)
      decreases t, 0
    {
      ghost var s, free, used := nodes[..], freeItems, inUse;
      ghost var spare := Spare(freeItems);
      ghost var u := t.(left := Insert(t.left, newDatum, spare).0);
      assert freeItems != [] ==> spare in freeItems;
      RepIds(s, n, t);
      InsertLeftPlan(t, newDatum, spare);
      var left, r;
      left, r := InsertAt(nodes[n].left, newDatum, t.left);
      ghost var s1 := nodes[..];
      RepFrame(s, s1, nodes[n].right, t.right);
      n', res := SettleLeftGrown(n, left, r, u);
      InsertedUp(s, s1, nodes[..], free, freeItems, used, inUse, Ids(t.left), Ids(u), Ids(t), newDatum, r, res);
    }

    method InsertRight(n: int, newDatum: Payload, ghost t: Tree) returns (n': int, res: Result)
      requires Rep(nodes[..], n, t) && Distinct(t) && Balanced(t) && t.Node? && Compare(t.item.key, newDatum.key) < 0
      requires forall i :: i in freeItems ==> 0 <= i < nodes.Length && i !in Ids(t)
      modifies nodes, this`freeItems, this`inUse
      ensures Rep(nodes[..], n', Insert(t, newDatum, Spare(old(freeItems))).0) && res == Insert(t, newDatum, Spare(old(freeItems))).1
      ensures Inserted(old(nodes[..]), nodes[..], old(freeItems), freeItems, old(inUse), inUse, Ids(t), newDatum, res)
      decreases t, 0
    {
      ghost var s, free, used := nodes[..], freeItems, inUse;
      ghost var spare := Spare(freeItems);
      ghost var u := t.(right := Insert(t.right, newDatum, spare).0);
      assert freeItems != [] ==> spare in freeItems;
      RepIds(s, n, t);
      InsertRightPlan(t, newDatum, spare);
      var right, r;
      right, r := InsertAt(nodes[n].right, newDatum, t.right);
      ghost var s1 := nodes[..];
      RepFrame(s, s1, nodes[n].left, t.left);
      n', res := SettleRightGrown(n, right, r, u);
      InsertedUp(s, s1, nodes[..], free, freeItems, used, inUse, Ids(t.right), Ids(u), Ids(t), newDatum, r, res);
    }

    method RemoveAt(n: int, key: Key, ghost t: Tree) returns (n': int, res: Result)
      requires Rep(nodes[..], n, t) && Distinct(t) && Balanced(t)
      modifies nodes, this`freeItems, this`inUse
      ensures Rep(nodes[..], n', Remove(t, key).0) && res == Remove(t, key).1
      ensures Removed(old(nodes[..]), nodes[..], old(freeItems), freeItems, old(inUse), inUse, Ids(t), Holder(t, key), Freed(t, key), res)
      decreases t
    {
      RepIds(nodes[..], n, t);
      if n == NIL { return n, ResNotFound; }
      RepIds(nodes[..], nodes[n].left, t.left);
      RepIds(nodes[..], nodes[n].right, t.right);
      var cmp := Compare(nodes[n].item.key, key);
      if cmp > 0 {
        n', res := RemoveLeft(n, key, t);
      } else if cmp < 0 {
        n', res := RemoveRight(n, key, t);
      } else if nodes[n].left != NIL {
        n', res := ReplaceLeft(n, key, t);
      } else if nodes[n].right != NIL {
        n', res := ReplaceRight(n, key, t);
      } else {
        FreeNode(n);
        n', res := NIL, ResBalance;
      }
    }

    method RemoveLeft(n: int, key: Key, ghost t: Tree) returns (n': int, res: Result)
      requires Rep(nodes[..], n, t) && Distinct(t) && Balanced(t) && t.Node? && Compare(t.item.key, key) > 0
      modifies nodes, this`freeItems, this`inUse
      ensures Rep(nodes[..], n', Remove(t, key).0) && res == Remove(t, key).1
      ensures Removed(old(nodes[..]), nodes[..], old(freeItems), freeItems, old(inUse), inUse, Ids(t), Holder(t, key), Freed(t, key), res)
      decreases t, 0
    {
      ghost var s, free, used := nodes[..], freeItems, inUse;
      ghost var u := t.(left := Remove(t.left, key).0);
      RepIds(s, n, t);
      RemoveLeftPlan(t, key);
      var left, r;
      left, r := RemoveAt(nodes[n].left, key, t.left);
      ghost var s1 := nodes[..];
      RepFrame(s, s1, nodes[n].right, t.right);
      n', res := SettleLeftShrunk(n, left, r, u);
      RemovedUp(s, s1, nodes[..], free, freeItems, used, inUse, Ids(t.left), Ids(u), Ids(t), Holder(t, key), Freed(t, key), r, res);
    }

    method RemoveRight(n: int, key: Key, ghost t: Tree) returns (n': int, res: Result)
      requires Rep(nodes[..], n, t) && Distinct(t) && Balanced(t) && t.Node? && Compare(t.item.key, key) < 0
      modifies nodes, this`freeItems, this`inUse
      ensures Rep(nodes[..], n', Remove(t, key).0) && res == Remove(t, key).1
      ensures Removed(old(nodes[..]), nodes[..], old(freeItems), freeItems, old(inUse), inUse, Ids(t), Holder(t, key), Freed(t, key), res)
      decreases t, 0
    {
      ghost var s, free, used := nodes[..], freeItems, inUse;
      ghost var u := t.(right := Remove(t.right, key).0);
      RepIds(s, n, t);
      RemoveRightPlan(t, key);
      var right, r;
      right, r := RemoveAt(nodes[n].right, key, t.right);
      ghost var s1 := nodes[..];
      RepFrame(s, s1, nodes[n].left, t.left);
      n', res := SettleRightShrunk(n, right, r, u);
      RemovedUp(s, s1, nodes[..], free, freeItems, used, inUse, Ids(t.right), Ids(u), Ids(t), Holder(t, key), Freed(t, key), r, res);
    }

    /** The removed node takes over the highest item of its left subtree. */
    method ReplaceLeft(n: int, key: Key, ghost t: Tree) returns (n': int, res: Result)
      requires Rep(nodes[..], n, t) && Distinct(t) && Balanced(t) && t.Node? && Compare(t.item.key, key) == 0
      requires t.left.Node?
      modifies nodes, this`freeItems, this`inUse
      ensures Rep(nodes[..], n', Remove(t, key).0) && res == Remove(t, key).1
      ensures Removed(old(nodes[..]), nodes[..], old(freeItems), freeItems, old(inUse), inUse, Ids(t), Holder(t, key), Freed(t, key), res)
    {
      ghost var s, free, used := nodes[..], freeItems, inUse;
      ghost var e := TakeHighest(t.left).2;
      ghost var u := t.(left := TakeHighest(t.left).0, item := e.item);
      ReplaceLeftPlan(t, key);
      var found, left, r;
      found, left, r := FindHighest(nodes[n].left, n, t.left);
      ghost var s1 := nodes[..];
      RepFrame(s, s1, nodes[n].right, t.right);
      n', res := SettleLeftShrunk(n, left, r, u);
      RemovedUp(s, s1, nodes[..], free, freeItems, used, inUse, Ids(t.left), Ids(u), Ids(t), n, e, r, res);
    }

    /** The removed node takes over the lowest item of its right subtree. */
    method ReplaceRight(n: int, key: Key, ghost t: Tree) returns (n': int, res: Result)
      requires Rep(nodes[..], n, t) && Distinct(t) && Balanced(t) && t.Node? && Compare(t.item.key, key) == 0
      requires t.right.Node? && t.left.Leaf?
      modifies nodes, this`freeItems, this`inUse
      ensures Rep(nodes[..], n', Remove(t, key).0) && res == Remove(t, key).1
      ensures Removed(old(nodes[..]), nodes[..], old(freeItems), freeItems, old(inUse), inUse, Ids(t), Holder(t, key), Freed(t, key), res)
    {
      ghost var s, free, used := nodes[..], freeItems, inUse;
      ghost var e := TakeLowest(t.right).2;
      ghost var u := t.(right := TakeLowest(t.right).0, item := e.item);
      ReplaceRightPlan(t, key);
      var found, right, r;
      found, right, r := FindLowest(nodes[n].right, n, t.right);
      ghost var s1 := nodes[..];
      RepFrame(s, s1, nodes[n].left, t.left);
      n', res := SettleRightShrunk(n, right, r, u);
      RemovedUp(s, s1, nodes[..], free, freeItems, used, inUse, Ids(t.right), Ids(u), Ids(t), n, e, r, res);
    }

    // ---------- The cache ----------

    ghost predicate Valid(t: Tree)
      reads this, nodes
    {
      && Rep(nodes[..], root, t) && Distinct(t) && Balanced(t) && Sorted(t)
      && Pool(freeItems, inUse, nodes.Length) && (forall i :: i in inUse <==> i in Ids(t))
    }

    /** The remembered entries, most recently used first. */
    ghost function Remembered(): seq<Payload>
      reads this, nodes
      requires Pool(freeItems, inUse, nodes.Length)
    {
      MruOf(nodes[..], inUse)
    }

    /** VirtualMethodTable::Initialize: all nodes are free. */
    constructor (n: nat)
      ensures Valid(Leaf) && Remembered() == [] && nodes.Length == n && fresh(nodes) && asked == [] && Recent(Remembered(), asked, n)
    {
      nodes := new Entry[n](_ => Entry(NIL, NIL, SkewNone, Payload(Key(0, 0), 0)));
      root, inUse, asked := NIL, [], [];
      freeItems := seq(n, i => i);
    }

    /** CLR_RT_AVLTree::Find. */
    method Find(key: Key, ghost t: Tree) returns (node: int)
      requires Rep(nodes[..], root, t)
      ensures node == Holder(t, key)
    {
      node := root;
      ghost var u := t;
      while node != NIL
        invariant Rep(nodes[..], node, u) && Holder(u, key) == Holder(t, key)
        decreases u
      {
        RepIds(nodes[..], node, u);
        var cmp := Compare(nodes[node].item.key, key);
        if cmp == 0 { return; }
        if cmp > 0 {
          node, u := nodes[node].left, u.left;
        } else {
          node, u := nodes[node].right, u.right;
        }
      }
      RepIds(nodes[..], node, u);
    }

    /** The cached lookup.  Either a shortcut answers, and nothing changes, or one step of a cache that
        evicts the least recently used entry is taken; the answer is that of the uncached lookup. */
    method FindVirtualMethod(cls: int, mdVirtual: int, ts: TypeSystem, ghost t: Tree) returns (found: bool, md: int,
            ghost t': Tree)
      requires Valid(t) && Terminal(ts) && Coherent(Remembered(), ts)
      modifies this`root, this`freeItems, this`inUse, this`asked, nodes
      ensures Valid(t') && Coherent(Remembered(), ts)
      ensures found == ts.resolve(Key(mdVirtual, cls)).Some? && (found ==> ts.resolve(Key(mdVirtual, cls)) == Some(md))
      ensures CallStep(old(Remembered()), Remembered(), nodes.Length, Key(mdVirtual, cls), ts.owner(mdVirtual) == cls && !ts.isAbstract(mdVirtual), ts)
      ensures asked == AskedAfter(old(asked), Key(mdVirtual, cls), ts.owner(mdVirtual) == cls && !ts.isAbstract(mdVirtual), ts)
      ensures old(Recent(Remembered(), asked, nodes.Length)) ==> Recent(Remembered(), asked, nodes.Length)
      ensures (ts.owner(mdVirtual) == cls && !ts.isAbstract(mdVirtual)) || ts.resolve(Key(mdVirtual, cls)).None? ==> Remembered() == old(Remembered())
      ensures var s := old(Remembered()); (ts.owner(mdVirtual) != cls || ts.isAbstract(mdVirtual)) ==>
        && (forall i :: 0 <= i < |s| && s[i].key == Key(mdVirtual, cls) ==> Remembered() == [s[i]] + s[..i] + s[i + 1..])
        && (found && 0 < nodes.Length && (forall i :: 0 <= i < |s| ==> s[i].key != Key(mdVirtual, cls)) ==>
              Remembered() == [Payload(Key(mdVirtual, cls), md)] + if |s| < nodes.Length then s else s[..|s| - 1])
    {
      ghost var s0 := Remembered();
      MruUnique(nodes[..], root, t, freeItems, inUse);
      found, md, t' := Search(cls, mdVirtual, ts, t);
      ghost var shortcut := ts.owner(mdVirtual) == cls && !ts.isAbstract(mdVirtual);
      CallWrittenOut(s0, Remembered(), nodes.Length, Key(mdVirtual, cls), shortcut, ts);
      if Recent(old(Remembered()), asked, nodes.Length) {
        CallRecency(old(Remembered()), Remembered(), nodes.Length, Key(mdVirtual, cls), shortcut, ts, asked);
      }
      asked := AskedAfter(asked, Key(mdVirtual, cls), shortcut, ts);
    }

    /** The body of FindVirtualMethod, without its account of what was asked. */
    method Search(cls: int, mdVirtual: int, ts: TypeSystem, ghost t: Tree) returns (found: bool, md: int, ghost t': Tree)
      requires Valid(t) && Terminal(ts) && Coherent(Remembered(), ts)
      modifies this`root, this`freeItems, this`inUse, nodes
      ensures Valid(t') && Coherent(Remembered(), ts)
      ensures found == ts.resolve(Key(mdVirtual, cls)).Some? && (found ==> ts.resolve(Key(mdVirtual, cls)) == Some(md))
      ensures CallStep(old(Remembered()), Remembered(), nodes.Length, Key(mdVirtual, cls), ts.owner(mdVirtual) == cls && !ts.isAbstract(mdVirtual), ts)
    {
      t' := t;
      ghost var s0 := Remembered();
      var key := Key(mdVirtual, cls);
      if cls == ts.owner(mdVirtual) {
        if !ts.isAbstract(mdVirtual) { return true, mdVirtual, t; }
      }
      MruUnique(nodes[..], root, t, freeItems, inUse);
      var en := Find(key, t);
      ghost var i := Lookup(nodes[..], root, t, freeItems, inUse, key);
      if en != NIL {
        md := nodes[en].item.md;
        Touch(en, i, t);
        LruStepKeeps(s0, Remembered(), nodes.Length, key, ts);
        return true, md, t;
      }
      match ts.resolve(key) {
        case None => return false, 0, t;
        case Some(value) =>
          md := value;
          t' := Remember(Payload(key, value), t);
          LruStepKeeps(s0, Remembered(), nodes.Length, key, ts);
          found := true;
      }
    }

    /** A hit: m_list_inUse.LinkAtFront. */
    method Touch(en: int, ghost i: int, ghost t: Tree)
      requires Valid(t) && 0 <= i < |inUse| && inUse[i] == en
      modifies this`inUse
      ensures Valid(t) && Remembered() == Promoted(old(Remembered()), i)
    {
      ToFront(nodes[..], freeItems, inUse, i);
      inUse := [en] + Minus(inUse, en);
    }

    /** A miss: evict the last entry if there is no spare node, and insert the new one. */
    method Remember(payload: Payload, ghost t: Tree) returns (ghost t': Tree)
      requires Valid(t) && !Cached(Remembered(), payload.key)
      modifies this`root, this`freeItems, this`inUse, nodes
      ensures Valid(t') && Remembered() == Admitted(old(Remembered()), nodes.Length, payload)
    {
      t' := t;
      if freeItems == [] {
        if inUse == [] { return; }
        ghost var s0 := Remembered();
        t' := Evict(t);
        ghost var s1 := s0[..|s0| - 1];
        forall i ensures !LruModel.Holds(s1, i, payload.key) {
          assert !LruModel.Holds(s0, i, payload.key);
        }
      }
      t' := Admit(payload, t');
    }

    /** m_tree.Remove of the last entry in use. */
    method Evict(ghost t: Tree) returns (ghost t': Tree)
      requires Valid(t) && inUse != []
      modifies this`root, this`freeItems, this`inUse, nodes
      ensures Valid(t') && Remembered() == old(Remembered())[..|old(Remembered())| - 1]
      ensures freeItems != []
    {
      ghost var s, free, used, n := nodes[..], freeItems, inUse, root;
      var en := inUse[|inUse| - 1];
      assert en in inUse;
      var key := nodes[en].item.key;
      var res;
      root, res := RemoveAt(root, key, t);
      t' := Remove(t, key).0;
      RemoveBalances(t, key);
      RemovedOrder(t, key);
      RemoveKeepsOrder(s, nodes[..], n, t, free, freeItems, used, inUse, |used| - 1, key, res);
    }

    method Admit(payload: Payload, ghost t: Tree) returns (ghost t': Tree)
      requires Valid(t) && freeItems != [] && !Cached(Remembered(), payload.key)
      modifies this`root, this`freeItems, this`inUse, nodes
      ensures Valid(t') && Remembered() == [payload] + old(Remembered())
    {
      ghost var s, free, used, n := nodes[..], freeItems, inUse, root;
      ghost var spare := freeItems[0];
      assert spare in freeItems;
      var res;
      root, res := InsertAt(root, payload, t);
      t' := Insert(t, payload, spare).0;
      InsertBalances(t, payload, spare);
      InsertKeepsOrder(s, nodes[..], n, t, free, freeItems, used, inUse, payload, res);
    }
  }

  /** The tree stays in search order when an item goes. */
  lemma RemovedOrder(t: Tree, key: Key)
    requires Sorted(t)
    ensures Sorted(Remove(t, key).0)
  {
    RemoveIsWithout(t, key);
    WithoutKeyKeys(Items(t), key);
  }

  /** The freed node held the item that was moved. */
  lemma {:induction false} FreedHolds(nodes: seq<Entry>, n: int, t: Tree, key: Key)
    requires Rep(nodes, n, t) && Holder(t, key) != NIL
    ensures 0 <= Freed(t, key).id < |nodes| && nodes[Freed(t, key).id].item == Freed(t, key).item
    decreases t
  {
    var cmp := Compare(t.item.key, key);
    if cmp > 0 {
      FreedHolds(nodes, nodes[n].left, t.left, key);
    } else if cmp < 0 {
      FreedHolds(nodes, nodes[n].right, t.right, key);
    } else if t.left.Node? {
      RepItems(nodes, nodes[n].left, t.left);
      TakeHighestContents(t.left);
      var k := |Ids(t.left)| - 1;
      assert Ids(t.left)[k] == TakeHighest(t.left).2.id && Items(t.left)[k] == TakeHighest(t.left).2.item;
    } else if t.right.Node? {
      RepItems(nodes, nodes[n].right, t.right);
      TakeLowestContents(t.right);
      assert Ids(t.right)[0] == TakeLowest(t.right).2.id && Items(t.right)[0] == TakeLowest(t.right).2.item;
    }
  }

  lemma ToFront(nodes: seq<Entry>, free: seq<int>, used: seq<int>, i: int)
    requires Pool(free, used, |nodes|) && 0 <= i < |used|
    ensures var used' := [used[i]] + Minus(used, used[i]);
      && Pool(free, used', |nodes|) && (forall x :: x in used' <==> x in used)
      && MruOf(nodes, used') == Promoted(MruOf(nodes, used), i)
  {
    MinusCut(used, i);
    UsedToFront(free, used, i, |nodes|);
    MruToFront(nodes, used, i);
  }

  lemma UsedToFront(free: seq<int>, used: seq<int>, i: int, n: int)
    requires Pool(free, used, n) && 0 <= i < |used|
    ensures var used' := [used[i]] + (used[..i] + used[i + 1..]);
      Pool(free, used', n) && (forall x :: x in used' <==> x in used)
  {
    var w := used[..i] + used[i + 1..];
    CutAt(used, used[..i] + used[i + 1..], i);
    NoneTwiceInserted(w, 0, used[i]);
    assert w[..0] + [used[i]] + w[0..] == [used[i]] + w;
  }

  lemma MruToFront(nodes: seq<Entry>, used: seq<int>, i: int)
    requires InRange(used, |nodes|) && 0 <= i < |used| && InRange([used[i]] + (used[..i] + used[i + 1..]), |nodes|)
    ensures MruOf(nodes, [used[i]] + (used[..i] + used[i + 1..])) == Promoted(MruOf(nodes, used), i)
  {
    var used' := [used[i]] + (used[..i] + used[i + 1..]);
    var p := Promoted(MruOf(nodes, used), i);
    forall k | 0 <= k < |used'| ensures nodes[used'[k]].item == p[k] {
      var k' := if k == 0 then i else if k <= i then k - 1 else k;
      assert used'[k] == used[k'] && p[k] == MruOf(nodes, used)[k'];
    }
  }

  lemma NoneTwiceInserted(w: seq<int>, p: int, y: int)
    requires NoneTwice(w) && y !in w && 0 <= p <= |w|
    ensures NoneTwice(w[..p] + [y] + w[p..])
  {
    var u := w[..p] + [y] + w[p..];
    forall a, b | 0 <= a < b < |u| ensures u[a] != u[b] {
      assert a != p ==> u[a] == w[if a < p then a else a - 1];
      assert b != p ==> u[b] == w[if b < p then b else b - 1];
    }
  }

  /** Whichever node is freed, the order of the remaining entries does not change. */
  lemma TakenOverAt(used: seq<int>, i: int, j: int)
    requires 0 <= i < |used| && 0 <= j < |used| && NoneTwice(used)
    ensures var w := used[..i] + used[i + 1..];
      TakenOver(used, used[i], used[j]) == if i == j then w else w[(if j < i then j else j - 1) := used[i]]
  {
    MinusCut(used, i);
    if i != j {
      var w := used[..i] + used[i + 1..];
      var p := if j < i then j else j - 1;
      CutAt(used, used[..i] + used[i + 1..], i);
      assert w[p] == used[j];
      ReplacedAt(w, p, used[i]);
    }
  }

  /** Linking x behind an entry and taking that entry out puts x in its place. */
  lemma ReplacedAt(w: seq<int>, p: int, x: int)
    requires NoneTwice(w) && x !in w && 0 <= p < |w|
    ensures Minus(InsertAfter(w, w[p], x), w[p]) == w[p := x]
  {
    InsertAfterAt(w, p, x);
    var u := w[..p + 1] + [x] + w[p + 1..];
    NoneTwiceInserted(w, p + 1, x);
    assert u[p] == w[p];
    MinusCut(u, p);
    assert u[..p] + u[p + 1..] == w[p := x];
  }

  /** The nodes in use after a removal. */
  lemma UsedAfterRemoval(used: seq<int>, i: int, j: int)
    requires 0 <= i < |used| && 0 <= j < |used| && NoneTwice(used)
    ensures var used' := TakenOver(used, used[i], used[j]);
      NoneTwice(used') && |used'| == |used| - 1 && (forall x :: x in used' <==> x in used && x != used[j])
  {
    TakenOverAt(used, i, j);
    CutAt(used, used[..i] + used[i + 1..], i);
    var w := used[..i] + used[i + 1..];
    if i != j {
      var p := if j < i then j else j - 1;
      assert w[p] == used[j];
      NoneTwiceReplaced(w, p, used[i]);
    }
  }

  lemma NoneTwiceReplaced(w: seq<int>, p: int, y: int)
    requires NoneTwice(w) && y !in w && 0 <= p < |w|
    ensures NoneTwice(w[p := y]) && forall x :: x in w[p := y] <==> x == y || (x in w && x != w[p])
  {
    var u := w[p := y];
    forall x | x in w && x != w[p] ensures x in u {
      var k :| 0 <= k < |w| && w[k] == x;
      assert u[k] == x;
    }
    forall x | x in u ensures x == y || (x in w && x != w[p]) {
      var k :| 0 <= k < |u| && u[k] == x;
      assert k != p ==> w[k] == x;
    }
    assert u[p] == y;
  }

  /** And the items in them. */
  lemma MruAfterRemoval(s: seq<Entry>, s': seq<Entry>, X: seq<int>, used: seq<int>, i: int, j: int)
    requires NoneTwice(used) && InRange(used, |s|) && 0 <= i < |used| && 0 <= j < |used|
    requires Retold(s, s', X, used[i], s[used[j]].item)
    ensures var used' := TakenOver(used, used[i], used[j]);
      InRange(used', |s'|) && MruOf(s', used') == MruOf(s, used)[..i] + MruOf(s, used)[i + 1..]
  {
    var used' := TakenOver(used, used[i], used[j]);
    var m := MruOf(s, used);
    var rest := m[..i] + m[i + 1..];
    assert |used'| == |used| - 1 by { TakenOverAt(used, i, j); }
    forall k | 0 <= k < |used'| ensures 0 <= used'[k] < |s'| && s'[used'[k]].item == rest[k] {
      TakenAt(used, i, j, k);
      assert rest[k] == m[if k < i then k else k + 1];
    }
  }

  lemma TakenAt(used: seq<int>, i: int, j: int, k: int)
    requires 0 <= i < |used| && 0 <= j < |used| && 0 <= k < |used| - 1 && NoneTwice(used)
    ensures var used', k' := TakenOver(used, used[i], used[j]), if k < i then k else k + 1;
      |used'| == |used| - 1 && used'[k] == (if k' == j then used[i] else used[k']) && used[k'] != used[i]
  {
    TakenOverAt(used, i, j);
  }

  lemma RemoveKeepsOrder(s: seq<Entry>, s': seq<Entry>, n: int, t: Tree, free: seq<int>, free': seq<int>,
          used: seq<int>, used': seq<int>, i: int, key: Key, res: Result)
    requires Rep(s, n, t) && Sorted(t) && Distinct(t)
    requires Pool(free, used, |s|) && (forall x :: x in used <==> x in Ids(t))
    requires 0 <= i < |used| && s[used[i]].item.key == key && res == Remove(t, key).1
    requires Removed(s, s', free, free', used, used', Ids(t), Holder(t, key), Freed(t, key), res)
    ensures Pool(free', used', |s|) && |s'| == |s| && free' != []
    ensures Distinct(Remove(t, key).0) && (forall x :: x in used' <==> x in Ids(Remove(t, key).0))
    ensures MruOf(s', used') == MruOf(s, used)[..i] + MruOf(s, used)[i + 1..]
  {
    var z := used[i];
    assert z in used;
    HolderOf(s, n, t, z);
    FreedHolds(s, n, t, key);
    RemoveIsWithout(t, key);
    RemoveNodes(t, key);
    var y := Freed(t, key).id;
    var j :| 0 <= j < |used| && used[j] == y;
    MruAfterRemoval(s, s', Ids(t), used, i, j);
    UsedAfterRemoval(used, i, j);
    MinusNone(free, y);
    NoneTwiceInserted(free, |free|, y);
    assert free[..|free|] + [y] + free[|free|..] == free';
  }

  lemma HolderOf(s: seq<Entry>, n: int, t: Tree, z: int)
    requires Rep(s, n, t) && Sorted(t) && z in Ids(t) && 0 <= z < |s|
    ensures Holder(t, s[z].item.key) == z && HasKey(Items(t), s[z].item.key) && z != NIL
  {
    var key := s[z].item.key;
    RepItems(s, n, t);
    var k :| 0 <= k < |Ids(t)| && Ids(t)[k] == z;
    assert Items(t)[k].key == key;
    HolderHolds(s, n, t, key);
    OneNodePerKey(s, n, t, z, Holder(t, key));
  }

  lemma InsertKeepsOrder(s: seq<Entry>, s': seq<Entry>, n: int, t: Tree, free: seq<int>, free': seq<int>,
          used: seq<int>, used': seq<int>, p: Payload, res: Result)
    requires Rep(s, n, t) && Sorted(t) && Distinct(t)
    requires Pool(free, used, |s|) && (forall x :: x in used <==> x in Ids(t)) && free != []
    requires !Cached(MruOf(s, used), p.key) && res == Insert(t, p, free[0]).1
    requires res in {ResOk, ResBalance, ResDuplicate, ResError}
    requires Inserted(s, s', free, free', used, used', Ids(t), p, res)
    ensures Pool(free', used', |s|) && |s'| == |s| && (forall x :: x in used' <==> x in Ids(Insert(t, p, free[0]).0))
    ensures Distinct(Insert(t, p, free[0]).0) && Sorted(Insert(t, p, free[0]).0)
    ensures MruOf(s', used') == [p] + MruOf(s, used)
  {
    var spare := free[0];
    assert spare in free;
    NotRemembered(s, n, t, free, used, p.key);
    InsertResult(t, p, spare);
    InsertNodes(t, p, spare);
    InsertIsSorted(t, p, spare);
    InsertSortedKeys(Items(t), p);
    SparePool(free, used, |s|);
    MruAfterInsert(s, s', Ids(t) + [spare], used, spare, p);
  }

  lemma SparePool(free: seq<int>, used: seq<int>, n: int)
    requires Pool(free, used, n) && free != []
    ensures Pool(free[1..], [free[0]] + used, n)
  {
    var f := free[1..];
    assert free[0] in free;
    NoneTwiceInserted(used, 0, free[0]);
    assert used[..0] + [free[0]] + used[0..] == [free[0]] + used;
    forall x | x in f ensures x in free && x != free[0] {
      var k :| 0 <= k < |f| && f[k] == x;
      assert free[k + 1] == x;
    }
  }

  lemma MruAfterInsert(s: seq<Entry>, s': seq<Entry>, X: seq<int>, used: seq<int>, spare: int, p: Payload)
    requires InRange(used, |s|) && spare !in used && Retold(s, s', X, spare, p)
    ensures InRange([spare] + used, |s'|) && MruOf(s', [spare] + used) == [p] + MruOf(s, used)
  {
    var used' := [spare] + used;
    forall k | 0 <= k < |used'| ensures 0 <= used'[k] < |s'| && s'[used'[k]].item == ([p] + MruOf(s, used))[k] {
      if k > 0 { assert used'[k] == used[k - 1] && used[k - 1] in used; }
    }
  }

  lemma NotRemembered(s: seq<Entry>, n: int, t: Tree, free: seq<int>, used: seq<int>, key: Key)
    requires Rep(s, n, t) && Sorted(t) && Pool(free, used, |s|) && (forall x :: x in used <==> x in Ids(t))
    requires !Cached(MruOf(s, used), key)
    ensures !HasKey(Items(t), key)
  {
    HolderHolds(s, n, t, key);
    if Holder(t, key) != NIL {
      var k :| 0 <= k < |used| && used[k] == Holder(t, key);
      assert LruModel.Holds(MruOf(s, used), k, key);
    }
  }

  ghost predicate InRange(s: seq<int>, n: int) {
    forall a :: 0 <= a < |s| ==> 0 <= s[a] < n
  }

  /** The two lists share out the nodes of the pool. */
  ghost predicate Pool(freeItems: seq<int>, inUse: seq<int>, n: int) {
    && NoneTwice(inUse) && NoneTwice(freeItems) && InRange(inUse, n) && InRange(freeItems, n)
    && (forall i :: i in freeItems ==> i !in inUse)
    && |inUse| + |freeItems| == n
  }

  ghost function MruOf(nodes: seq<Entry>, inUse: seq<int>): seq<Payload>
    requires InRange(inUse, |nodes|)
  {
    seq(|inUse|, k requires 0 <= k < |inUse| => nodes[inUse[k]].item)
  }

  lemma {:induction false} InsertAfterAt(s: seq<int>, i: int, y: int)
    requires 0 <= i < |s| && NoneTwice(s)
    ensures InsertAfter(s, s[i], y) == s[..i + 1] + [y] + s[i + 1..]
  {
    if i > 0 {
      var t := s[1..];
      InsertAfterAt(t, i - 1, y);
      assert t[i - 1] == s[i] && s[0] != s[i];
      assert s[..i + 1] == [s[0]] + t[..i];
      assert s[i + 1..] == t[i..];
    }
  }

  /** Items and nodes of a tree correspond by position. */
  lemma {:induction false} RepItems(nodes: seq<Entry>, n: int, t: Tree)
    requires Rep(nodes, n, t)
    ensures |Items(t)| == |Ids(t)|
    ensures forall k :: 0 <= k < |Ids(t)| ==> 0 <= Ids(t)[k] < |nodes| && nodes[Ids(t)[k]].item == Items(t)[k]
    decreases t
  {
    if t.Node? {
      RepItems(nodes, nodes[n].left, t.left);
      RepItems(nodes, nodes[n].right, t.right);
      var a := |Ids(t.left)|;
      forall k | 0 <= k < |Ids(t)| ensures 0 <= Ids(t)[k] < |nodes| && nodes[Ids(t)[k]].item == Items(t)[k] {
        if k > a {
          assert Ids(t)[k] == Ids(t.right)[k - a - 1] && Items(t)[k] == Items(t.right)[k - a - 1];
        } else if k < a {
          assert Ids(t)[k] == Ids(t.left)[k] && Items(t)[k] == Items(t.left)[k];
        }
      }
    }
  }

  /** In a search tree, nodes with the same key are the same. */
  lemma OneNodePerKey(nodes: seq<Entry>, n: int, t: Tree, i: int, j: int)
    requires Rep(nodes, n, t) && Sorted(t) && i in Ids(t) && j in Ids(t)
    requires 0 <= i < |nodes| && 0 <= j < |nodes| && nodes[i].item.key == nodes[j].item.key
    ensures i == j
  {
    RepItems(nodes, n, t);
    var a :| 0 <= a < |Ids(t)| && Ids(t)[a] == i;
    var b :| 0 <= b < |Ids(t)| && Ids(t)[b] == j;
    CompareIsOrder(nodes[i].item.key, nodes[j].item.key, nodes[i].item.key);
    assert Items(t)[a].key == Items(t)[b].key;
  }

  lemma {:induction false} HolderHolds(nodes: seq<Entry>, n: int, t: Tree, key: Key)
    requires Rep(nodes, n, t) && Sorted(t)
    ensures Holder(t, key) == NIL <==> !HasKey(Items(t), key)
    ensures Holder(t, key) != NIL ==> Holder(t, key) in Ids(t) && 0 <= Holder(t, key) < |nodes| && nodes[Holder(t, key)].item.key == key
    decreases t
  {
    if t.Node? {
      SortedParts(t);
      KeyInParts(t, key);
      IdsParts(t);
      CompareIsOrder(t.item.key, key, key);
      HolderHolds(nodes, nodes[n].left, t.left, key);
      HolderHolds(nodes, nodes[n].right, t.right, key);
    }
  }

  lemma MruUnique(nodes: seq<Entry>, n: int, t: Tree, freeItems: seq<int>, inUse: seq<int>)
    requires Rep(nodes, n, t) && Sorted(t) && Pool(freeItems, inUse, |nodes|) && forall i :: i in inUse <==> i in Ids(t)
    ensures Unique(MruOf(nodes, inUse))
  {
    var s := MruOf(nodes, inUse);
    forall i, j | 0 <= i < j < |s| ensures s[i].key != s[j].key {
      assert inUse[i] in inUse && inUse[j] in inUse;
      if s[i].key == s[j].key { OneNodePerKey(nodes, n, t, inUse[i], inUse[j]); }
    }
  }

  /** The node that Find returns is the remembered entry with that key, if there is one. */
  lemma Lookup(nodes: seq<Entry>, n: int, t: Tree, freeItems: seq<int>, inUse: seq<int>, key: Key) returns (i: int)
    requires Rep(nodes, n, t) && Sorted(t) && Pool(freeItems, inUse, |nodes|) && forall i :: i in inUse <==> i in Ids(t)
    ensures Holder(t, key) == NIL ==> !Cached(MruOf(nodes, inUse), key)
    ensures Holder(t, key) != NIL ==> 0 <= i < |inUse| && inUse[i] == Holder(t, key) && LruModel.Holds(MruOf(nodes, inUse), i, key)
  {
    HolderHolds(nodes, n, t, key);
    var s := MruOf(nodes, inUse);
    if Holder(t, key) == NIL {
      RepItems(nodes, n, t);
      forall j | 0 <= j < |s| ensures s[j].key != key {
        assert inUse[j] in inUse;
        var k :| 0 <= k < |Ids(t)| && Ids(t)[k] == inUse[j];
        assert nodes[Ids(t)[k]].item == Items(t)[k];
      }
      i := 0;
    } else {
      i :| 0 <= i < |inUse| && inUse[i] == Holder(t, key);
    }
  }

  lemma InsertLeftPlan(t: Tree, item: Payload, spare: int)
    requires t.Node? && Distinct(t) && Balanced(t) && spare !in Ids(t) && Compare(t.item.key, item.key) > 0
    ensures Distinct(t.left) && (forall i :: i in Ids(t.right) ==> i !in Ids(t.left) && i in Ids(t))
    ensures t.id in Ids(t) && t.id !in Ids(t.left) && forall i :: i in Ids(t.left) ==> i in Ids(t)
    ensures var (c, r) := Insert(t.left, item, spare);
      var u := t.(left := c);
      && Distinct(u) && (r == ResBalance ==> LeftOneHigher(u)) && r in {ResOk, ResBalance, ResDuplicate, ResError}
      && Insert(t, item, spare) == (if r == ResBalance then LeftGrown(u) else (u, r))
      && (LeftGrown(u).1 in {ResOk, ResBalance})
      && (forall i :: i in Ids(u) ==> i in Ids(t) || (i == spare && (r == ResOk || r == ResBalance)))
  {
    DistinctParts(t);
    InsertBalances(t.left, item, spare);
    InsertNodes(t.left, item, spare);
    DistinctWhole(t.(left := Insert(t.left, item, spare).0));
  }

  lemma InsertRightPlan(t: Tree, item: Payload, spare: int)
    requires t.Node? && Distinct(t) && Balanced(t) && spare !in Ids(t) && Compare(t.item.key, item.key) < 0
    ensures Distinct(t.right) && (forall i :: i in Ids(t.left) ==> i !in Ids(t.right) && i in Ids(t))
    ensures t.id in Ids(t) && t.id !in Ids(t.right) && forall i :: i in Ids(t.right) ==> i in Ids(t)
    ensures var (c, r) := Insert(t.right, item, spare);
      var u := t.(right := c);
      && Distinct(u) && (r == ResBalance ==> RightOneHigher(u)) && r in {ResOk, ResBalance, ResDuplicate, ResError}
      && Insert(t, item, spare) == (if r == ResBalance then RightGrown(u) else (u, r))
      && (RightGrown(u).1 in {ResOk, ResBalance})
      && (forall i :: i in Ids(u) ==> i in Ids(t) || (i == spare && (r == ResOk || r == ResBalance)))
  {
    DistinctParts(t);
    InsertBalances(t.right, item, spare);
    InsertNodes(t.right, item, spare);
    DistinctWhole(t.(right := Insert(t.right, item, spare).0));
  }

  /** The nodes of a tree after a removal that may have found nothing. */
  lemma RemovedNodes(t: Tree, key: Key)
    requires Distinct(t) && Balanced(t)
    ensures Distinct(Remove(t, key).0) && forall i :: i in Ids(Remove(t, key).0) ==> i in Ids(t)
    ensures Holder(t, key) == NIL || Holder(t, key) in Ids(t)
  {
    RemoveBalances(t, key);
    HolderInTree(t, key);
    if Remove(t, key).1 != ResNotFound { RemoveNodes(t, key); }
  }

  lemma {:induction false} HolderInTree(t: Tree, key: Key)
    ensures Holder(t, key) == NIL || Holder(t, key) in Ids(t)
  {
    if t.Node? {
      IdsParts(t);
      HolderInTree(t.left, key);
      HolderInTree(t.right, key);
    }
  }

  lemma RemoveLeftPlan(t: Tree, key: Key)
    requires t.Node? && Distinct(t) && Balanced(t) && Compare(t.item.key, key) > 0 && NIL !in Ids(t)
    ensures Distinct(t.left) && (forall i :: i in Ids(t.right) ==> i !in Ids(t.left) && i in Ids(t) && i != Holder(t, key))
    ensures t.id in Ids(t) && t.id !in Ids(t.left) && t.id != Holder(t, key) && forall i :: i in Ids(t.left) ==> i in Ids(t)
    ensures Holder(t, key) == Holder(t.left, key) && Freed(t, key) == Freed(t.left, key)
    ensures var (c, r) := Remove(t.left, key);
      var u := t.(left := c);
      && Distinct(u) && (r == ResBalance ==> LeftOneLower(u)) && r in {ResOk, ResBalance, ResNotFound}
      && Remove(t, key) == (if r == ResBalance then LeftShrunk(u) else (u, r))
      && LeftShrunk(u).1 in {ResOk, ResBalance}
      && (forall i :: i in Ids(u) ==> i in Ids(t))
  {
    DistinctParts(t);
    RemoveBalances(t.left, key);
    RemovedNodes(t.left, key);
    DistinctWhole(t.(left := Remove(t.left, key).0));
  }

  lemma RemoveRightPlan(t: Tree, key: Key)
    requires t.Node? && Distinct(t) && Balanced(t) && Compare(t.item.key, key) < 0 && NIL !in Ids(t)
    ensures Distinct(t.right) && (forall i :: i in Ids(t.left) ==> i !in Ids(t.right) && i in Ids(t) && i != Holder(t, key))
    ensures t.id in Ids(t) && t.id !in Ids(t.right) && t.id != Holder(t, key) && forall i :: i in Ids(t.right) ==> i in Ids(t)
    ensures Holder(t, key) == Holder(t.right, key) && Freed(t, key) == Freed(t.right, key)
    ensures var (c, r) := Remove(t.right, key);
      var u := t.(right := c);
      && Distinct(u) && (r == ResBalance ==> RightOneLower(u)) && r in {ResOk, ResBalance, ResNotFound}
      && Remove(t, key) == (if r == ResBalance then RightShrunk(u) else (u, r))
      && RightShrunk(u).1 in {ResOk, ResBalance}
      && (forall i :: i in Ids(u) ==> i in Ids(t))
  {
    DistinctParts(t);
    RemoveBalances(t.right, key);
    RemovedNodes(t.right, key);
    DistinctWhole(t.(right := Remove(t.right, key).0));
  }

  lemma ReplaceLeftPlan(t: Tree, key: Key)
    requires t.Node? && Distinct(t) && Balanced(t) && Compare(t.item.key, key) == 0 && t.left.Node?
    ensures Distinct(t.left) && (forall i :: i in Ids(t.right) ==> i !in Ids(t.left) && i in Ids(t) && i != t.id)
    ensures t.id in Ids(t) && t.id !in Ids(t.left) && forall i :: i in Ids(t.left) ==> i in Ids(t)
    ensures Holder(t, key) == t.id && Freed(t, key) == TakeHighest(t.left).2
    ensures var (c, r, e) := TakeHighest(t.left);
      var u := t.(left := c, item := e.item);
      && Distinct(u) && (r == ResBalance ==> LeftOneLower(u)) && r in {ResOk, ResBalance}
      && Remove(t, key) == (if r == ResBalance then LeftShrunk(u) else (u, r))
      && LeftShrunk(u).1 in {ResOk, ResBalance}
      && (forall i :: i in Ids(u) ==> i in Ids(t))
  {
    DistinctParts(t);
    TakeHighestBalances(t.left);
    HighestRest(t.left);
    DistinctWhole(t.(left := TakeHighest(t.left).0, item := TakeHighest(t.left).2.item));
  }

  lemma ReplaceRightPlan(t: Tree, key: Key)
    requires t.Node? && Distinct(t) && Balanced(t) && Compare(t.item.key, key) == 0 && t.right.Node? && t.left.Leaf?
    ensures Distinct(t.right)
    ensures t.id in Ids(t) && t.id !in Ids(t.right) && forall i :: i in Ids(t.right) ==> i in Ids(t)
    ensures Holder(t, key) == t.id && Freed(t, key) == TakeLowest(t.right).2
    ensures var (c, r, e) := TakeLowest(t.right);
      var u := t.(right := c, item := e.item);
      && Distinct(u) && (r == ResBalance ==> RightOneLower(u)) && r in {ResOk, ResBalance}
      && Remove(t, key) == (if r == ResBalance then RightShrunk(u) else (u, r))
      && RightShrunk(u).1 in {ResOk, ResBalance}
      && (forall i :: i in Ids(u) ==> i in Ids(t))
  {
    DistinctParts(t);
    TakeLowestBalances(t.right);
    LowestRest(t.right);
    DistinctWhole(t.(right := TakeLowest(t.right).0, item := TakeLowest(t.right).2.item));
  }
}
