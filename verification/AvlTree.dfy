/** The shapes an AVL tree goes through: what the rebalancing steps, insertion and removal of
    CLR_RT_AVLTree make of a tree, and why search order and balance survive. */
module AvlTrees {
  import opened LruModel
  import opened Sequences

  datatype Skew = SkewNone | SkewLeft | SkewRight
  datatype Result = ResOk | ResBalance | ResNotFound | ResDuplicate | ResError

  /** No node. */
  const NIL := -1

  /** id is the node that holds the item. */
  datatype Tree = Leaf | Node(left: Tree, id: int, item: Payload, skew: Skew, right: Tree)

  /** Payload::Compare. */
  function Compare(a: Key, b: Key): int {
    if a.mdVirtual == b.mdVirtual then
      if a.cls == b.cls then 0 else if a.cls < b.cls then -1 else 1
    else if a.mdVirtual < b.mdVirtual then -1 else 1
  }

  predicate Less(a: Key, b: Key) {
    Compare(a, b) < 0
  }

  lemma CompareIsOrder(a: Key, b: Key, c: Key)
    ensures Compare(a, b) == 0 <==> a == b
    ensures Compare(a, b) == -Compare(b, a)
    ensures Less(a, b) && Less(b, c) ==> Less(a, c)
  {
  }

  // ---------- What a tree holds ----------

  /** The items, in tree order. */
  function Items(t: Tree): seq<Payload> {
    match t
    case Leaf => []
    case Node(l, _, item, _, r) => Items(l) + [item] + Items(r)
  }

  /** The nodes, in tree order. */
  function Ids(t: Tree): seq<int> {
    match t
    case Leaf => []
    case Node(l, id, _, _, r) => Ids(l) + [id] + Ids(r)
  }

  /** Keys strictly increase. */
  ghost predicate Increasing(s: seq<Payload>) {
    forall i, j :: 0 <= i < j < |s| ==> Less(s[i].key, s[j].key)
  }

  ghost predicate Sorted(t: Tree) {
    Increasing(Items(t))
  }

  /** No node occurs twice. */
  ghost predicate Distinct(t: Tree) {
    forall i, j :: 0 <= i < j < |Ids(t)| ==> Ids(t)[i] != Ids(t)[j]
  }

  function Max(a: nat, b: nat): nat { if a > b then a else b }

  function Height(t: Tree): nat {
    match t
    case Leaf => 0
    case Node(l, _, _, _, r) => 1 + Max(Height(l), Height(r))
  }

  /** A skew flag describes two subtree heights. */
  predicate Describes(skew: Skew, l: int, r: int) {
    match skew
    case SkewNone => l == r
    case SkewLeft => l == r + 1
    case SkewRight => r == l + 1
  }

  /** Every skew flag is the real height difference, which is at most one. */
  predicate Balanced(t: Tree) {
    match t
    case Leaf => true
    case Node(l, _, _, skew, r) => Balanced(l) && Balanced(r) && Describes(skew, Height(l), Height(r))
  }

  function Size(t: Tree): nat {
    match t
    case Leaf => 0
    case Node(l, _, _, _, r) => Size(l) + 1 + Size(r)
  }

  // ---------- The rebalancing steps ----------

  function SetSkew(t: Tree, skew: Skew): Tree {
    match t
    case Leaf => Leaf
    case Node(l, id, item, _, r) => Node(l, id, item, skew, r)
  }

  function RotateLeft(t: Tree): Tree {
    match t
    case Node(l, id, item, s, Node(rl, rid, ritem, rs, rr)) => Node(Node(l, id, item, s, rl), rid, ritem, rs, rr)
    case _ => t
  }

  function RotateRight(t: Tree): Tree {
    match t
    case Node(Node(ll, lid, litem, ls, lr), id, item, s, r) => Node(ll, lid, litem, ls, Node(lr, id, item, s, r))
    case _ => t
  }

  /** The left subtree has a left-leaning, or a right-leaning, grandchild to bring to the top. */
  function LiftLeft(t: Tree): Tree {
    match t
    case Node(Node(ll, lid, litem, ls, Node(rl, rid, ritem, rs, rr)), id, item, s, r) =>
      var s' := if rs == SkewLeft then SkewRight else SkewNone;
      var ls' := if rs == SkewRight then SkewLeft else SkewNone;
      RotateRight(Node(RotateLeft(Node(ll, lid, litem, ls', Node(rl, rid, ritem, SkewNone, rr))), id, item, s', r))
    case _ => t
  }

  function LiftRight(t: Tree): Tree {
    match t
    case Node(l, id, item, s, Node(Node(ll, lid, litem, ls, lr), rid, ritem, rs, rr)) =>
      var s' := if ls == SkewRight then SkewLeft else SkewNone;
      var rs' := if ls == SkewLeft then SkewRight else SkewNone;
      RotateLeft(Node(l, id, item, s', RotateRight(Node(Node(ll, lid, litem, SkewNone, lr), rid, ritem, rs', rr))))
    case _ => t
  }

  function LeftGrown(t: Tree): (Tree, Result)
    requires t.Node?
  {
    match t.skew
    case SkewLeft =>
      if t.left.Node? && t.left.skew == SkewLeft
      then (RotateRight(t.(skew := SkewNone, left := SetSkew(t.left, SkewNone))), ResOk)
      else (LiftLeft(t), ResOk)
    case SkewRight => (t.(skew := SkewNone), ResOk)
    case SkewNone => (t.(skew := SkewLeft), ResBalance)
  }

  function RightGrown(t: Tree): (Tree, Result)
    requires t.Node?
  {
    match t.skew
    case SkewRight =>
      if t.right.Node? && t.right.skew == SkewRight
      then (RotateLeft(t.(skew := SkewNone, right := SetSkew(t.right, SkewNone))), ResOk)
      else (LiftRight(t), ResOk)
    case SkewLeft => (t.(skew := SkewNone), ResOk)
    case SkewNone => (t.(skew := SkewRight), ResBalance)
  }

  function LeftShrunk(t: Tree): (Tree, Result)
    requires t.Node?
  {
    match t.skew
    case SkewLeft => (t.(skew := SkewNone), ResBalance)
    case SkewRight =>
      if t.right.Leaf? then (t, ResOk)
      else if t.right.skew == SkewRight then
        (RotateLeft(t.(skew := SkewNone, right := SetSkew(t.right, SkewNone))), ResBalance)
      else if t.right.skew == SkewNone then
        (RotateLeft(t.(skew := SkewRight, right := SetSkew(t.right, SkewLeft))), ResOk)
      else (LiftRight(t), ResBalance)
    case SkewNone => (t.(skew := SkewRight), ResOk)
  }

  function RightShrunk(t: Tree): (Tree, Result)
    requires t.Node?
  {
    match t.skew
    case SkewRight => (t.(skew := SkewNone), ResBalance)
    case SkewLeft =>
      if t.left.Leaf? then (t, ResOk)
      else if t.left.skew == SkewLeft then
        (RotateRight(t.(skew := SkewNone, left := SetSkew(t.left, SkewNone))), ResBalance)
      else if t.left.skew == SkewNone then
        (RotateRight(t.(skew := SkewLeft, left := SetSkew(t.left, SkewRight))), ResOk)
      else (LiftLeft(t), ResBalance)
    case SkewNone => (t.(skew := SkewLeft), ResOk)
  }

  // ---------- Insertion and removal ----------

  /** spare is the node that the owner provides, or NIL if it has none. */
  function Insert(t: Tree, item: Payload, spare: int): (Tree, Result) {
    match t
    case Leaf => if spare == NIL then (Leaf, ResError) else (Node(Leaf, spare, item, SkewNone, Leaf), ResBalance)
    case Node(l, id, it, s, r) =>
      var cmp := Compare(it.key, item.key);
      if cmp > 0 then
        var (l', res) := Insert(l, item, spare);
        if res == ResBalance then LeftGrown(t.(left := l')) else (t.(left := l'), res)
      else if cmp < 0 then
        var (r', res) := Insert(r, item, spare);
        if res == ResBalance then RightGrown(t.(right := r')) else (t.(right := r'), res)
      else (t, ResDuplicate)
  }

  /** A node taken out of a subtree, and its item. */
  datatype Victim = Victim(id: int, item: Payload)

  /** The subtree without its highest item, and that item with its node. */
  function TakeHighest(t: Tree): (Tree, Result, Victim)
    requires t.Node?
  {
    if t.right.Node? then
      var (r', res, e) := TakeHighest(t.right);
      if res == ResBalance then var (t', res') := RightShrunk(t.(right := r')); (t', res', e) else (t.(right := r'), res, e)
    else (t.left, ResBalance, Victim(t.id, t.item))
  }

  function TakeLowest(t: Tree): (Tree, Result, Victim)
    requires t.Node?
  {
    if t.left.Node? then
      var (l', res, e) := TakeLowest(t.left);
      if res == ResBalance then var (t', res') := LeftShrunk(t.(left := l')); (t', res', e) else (t.(left := l'), res, e)
    else (t.right, ResBalance, Victim(t.id, t.item))
  }

  /** The node that held the removed key lives on with the item of the freed node, unless it is freed itself. */
  function Remove(t: Tree, key: Key): (Tree, Result) {
    match t
    case Leaf => (Leaf, ResNotFound)
    case Node(l, id, it, s, r) =>
      var cmp := Compare(it.key, key);
      if cmp > 0 then
        var (l', res) := Remove(l, key);
        if res == ResBalance then LeftShrunk(t.(left := l')) else (t.(left := l'), res)
      else if cmp < 0 then
        var (r', res) := Remove(r, key);
        if res == ResBalance then RightShrunk(t.(right := r')) else (t.(right := r'), res)
      else if l.Node? then
        var (l', res, e) := TakeHighest(l);
        var t' := Node(l', id, e.item, s, r);
        if res == ResBalance then LeftShrunk(t') else (t', res)
      else if r.Node? then
        var (r', res, e) := TakeLowest(r);
        var t' := Node(l, id, e.item, s, r');
        if res == ResBalance then RightShrunk(t') else (t', res)
      else (Leaf, ResBalance)
  }

  // ---------- Rebalancing keeps contents ----------

  ghost predicate SameContents(t: Tree, t': Tree) {
    Items(t') == Items(t) && Ids(t') == Ids(t)
  }

  lemma RotateLeftKeeps(t: Tree)
    ensures SameContents(t, RotateLeft(t))
  {
    if t.Node? && t.right.Node? {
      var l, r := t.left, t.right;
      var top := Node(l, t.id, t.item, t.skew, r.left);
      assert Items(t) == Items(top) + [r.item] + Items(r.right);
      assert Ids(t) == Ids(top) + [r.id] + Ids(r.right);
    }
  }

  lemma RotateRightKeeps(t: Tree)
    ensures SameContents(t, RotateRight(t))
  {
    if t.Node? && t.left.Node? {
      var l, r := t.left, t.right;
      var top := Node(l.right, t.id, t.item, t.skew, r);
      assert Items(t) == Items(l.left) + [l.item] + Items(top);
      assert Ids(t) == Ids(l.left) + [l.id] + Ids(top);
    }
  }

  lemma SetSkewKeeps(t: Tree, s: Skew)
    ensures SameContents(t, SetSkew(t, s))
  {
  }

  lemma LiftLeftKeeps(t: Tree)
    ensures SameContents(t, LiftLeft(t))
  {
    if t.Node? && t.left.Node? && t.left.right.Node? {
      var s' := if t.left.right.skew == SkewLeft then SkewRight else SkewNone;
      var ls' := if t.left.right.skew == SkewRight then SkewLeft else SkewNone;
      var l1 := Node(t.left.left, t.left.id, t.left.item, ls', SetSkew(t.left.right, SkewNone));
      SetSkewKeeps(t.left.right, SkewNone);
      assert SameContents(t.left, l1);
      RotateLeftKeeps(l1);
      RotateRightKeeps(Node(RotateLeft(l1), t.id, t.item, s', t.right));
    }
  }

  lemma LiftRightKeeps(t: Tree)
    ensures SameContents(t, LiftRight(t))
  {
    if t.Node? && t.right.Node? && t.right.left.Node? {
      var s' := if t.right.left.skew == SkewRight then SkewLeft else SkewNone;
      var rs' := if t.right.left.skew == SkewLeft then SkewRight else SkewNone;
      var r1 := Node(SetSkew(t.right.left, SkewNone), t.right.id, t.right.item, rs', t.right.right);
      SetSkewKeeps(t.right.left, SkewNone);
      assert SameContents(t.right, r1);
      RotateRightKeeps(r1);
      RotateLeftKeeps(Node(t.left, t.id, t.item, s', RotateRight(r1)));
    }
  }

  /** Whatever the flags say, the steps keep contents and order. */
  lemma StepsKeep(t: Tree)
    requires t.Node?
    ensures SameContents(t, LeftGrown(t).0) && SameContents(t, RightGrown(t).0)
    ensures SameContents(t, LeftShrunk(t).0) && SameContents(t, RightShrunk(t).0)
  {
    LeftStepKeeps(t, SkewNone, SkewNone);
    LeftStepKeeps(t, SkewLeft, SkewRight);
    RightStepKeeps(t, SkewNone, SkewNone);
    RightStepKeeps(t, SkewRight, SkewLeft);
  }

  lemma LeftStepKeeps(t: Tree, s: Skew, ls: Skew)
    requires t.Node?
    ensures SameContents(t, RotateRight(t.(skew := s, left := SetSkew(t.left, ls)))) && SameContents(t, LiftLeft(t))
  {
    SetSkewKeeps(t.left, ls);
    RotateRightKeeps(t.(skew := s, left := SetSkew(t.left, ls)));
    LiftLeftKeeps(t);
  }

  lemma RightStepKeeps(t: Tree, s: Skew, rs: Skew)
    requires t.Node?
    ensures SameContents(t, RotateLeft(t.(skew := s, right := SetSkew(t.right, rs)))) && SameContents(t, LiftRight(t))
  {
    SetSkewKeeps(t.right, rs);
    RotateLeftKeeps(t.(skew := s, right := SetSkew(t.right, rs)));
    LiftRightKeeps(t);
  }

  // ---------- Rebalancing restores balance ----------

  /** The height that t has according to its flag, if its left subtree had height l before it changed. */
  function HeightWith(l: nat, r: nat): nat { 1 + Max(l, r) }

  /** The left subtree grew by one, and the flag is still the old one. */
  ghost predicate LeftOneHigher(t: Tree) {
    && t.Node? && Balanced(t.left) && Balanced(t.right) && 1 <= Height(t.left)
    && Describes(t.skew, Height(t.left) - 1, Height(t.right))
    && (1 < Height(t.left) ==> t.left.skew != SkewNone)
  }

  ghost predicate RightOneHigher(t: Tree) {
    && t.Node? && Balanced(t.left) && Balanced(t.right) && 1 <= Height(t.right)
    && Describes(t.skew, Height(t.left), Height(t.right) - 1)
    && (1 < Height(t.right) ==> t.right.skew != SkewNone)
  }

  /** The left subtree shrank by one, and the flag is still the old one. */
  ghost predicate LeftOneLower(t: Tree) {
    && t.Node? && Balanced(t.left) && Balanced(t.right)
    && Describes(t.skew, Height(t.left) + 1, Height(t.right))
  }

  ghost predicate RightOneLower(t: Tree) {
    && t.Node? && Balanced(t.left) && Balanced(t.right)
    && Describes(t.skew, Height(t.left), Height(t.right) + 1)
  }

  /** A tree that was h high has grown: it is balanced again, and one higher exactly if the result says so. */
  ghost predicate Regrown(t: Tree, res: Result, h: nat) {
    && Balanced(t) && (res == ResOk || res == ResBalance)
    && Height(t) == (if res == ResBalance then h + 1 else h)
    && (res == ResBalance && 1 < Height(t) ==> t.skew != SkewNone)
  }

  /** A tree that was h high has shrunk. */
  ghost predicate Reshrunk(t: Tree, res: Result, h: nat) {
    && Balanced(t) && (res == ResOk || res == ResBalance)
    && Height(t) == (if res == ResBalance then h - 1 else h)
  }

  /** Bringing the inner grandchild to the top evens out a difference of two. */
  lemma LiftLeftBalances(t: Tree)
    requires t.Node? && Balanced(t.left) && Balanced(t.right)
    requires t.left.Node? && t.left.skew == SkewRight && Height(t.left) == Height(t.right) + 2
    ensures Balanced(LiftLeft(t)) && Height(LiftLeft(t)) == Height(t.left)
  {
    var l := t.left;
    var x := l.right;
    assert x.Node?;
    var s' := if x.skew == SkewLeft then SkewRight else SkewNone;
    var ls' := if x.skew == SkewRight then SkewLeft else SkewNone;
    var a := Node(l.left, l.id, l.item, ls', x.left);
    var b := Node(x.right, t.id, t.item, s', t.right);
    assert LiftLeft(t) == Node(a, x.id, x.item, SkewNone, b);
    assert Balanced(a) && Balanced(b) && Height(a) == Height(b) == Height(x);
  }

  lemma LiftRightBalances(t: Tree)
    requires t.Node? && Balanced(t.left) && Balanced(t.right)
    requires t.right.Node? && t.right.skew == SkewLeft && Height(t.right) == Height(t.left) + 2
    ensures Balanced(LiftRight(t)) && Height(LiftRight(t)) == Height(t.right)
  {
    var r := t.right;
    var x := r.left;
    assert x.Node?;
    var s' := if x.skew == SkewRight then SkewLeft else SkewNone;
    var rs' := if x.skew == SkewLeft then SkewRight else SkewNone;
    var a := Node(t.left, t.id, t.item, s', x.left);
    var b := Node(x.right, r.id, r.item, rs', r.right);
    assert LiftRight(t) == Node(a, x.id, x.item, SkewNone, b);
    assert Balanced(a) && Balanced(b) && Height(a) == Height(b) == Height(x);
  }

  lemma LeftGrownBalances(t: Tree)
    requires LeftOneHigher(t)
    ensures Regrown(LeftGrown(t).0, LeftGrown(t).1, HeightWith(Height(t.left) - 1, Height(t.right)))
  {
    if t.skew == SkewLeft && t.left.skew == SkewRight { LiftLeftBalances(t); }
  }

  lemma RightGrownBalances(t: Tree)
    requires RightOneHigher(t)
    ensures Regrown(RightGrown(t).0, RightGrown(t).1, HeightWith(Height(t.left), Height(t.right) - 1))
  {
    if t.skew == SkewRight && t.right.skew == SkewLeft { LiftRightBalances(t); }
  }

  lemma LeftShrunkBalances(t: Tree)
    requires LeftOneLower(t)
    ensures Reshrunk(LeftShrunk(t).0, LeftShrunk(t).1, HeightWith(Height(t.left) + 1, Height(t.right)))
  {
    if t.skew == SkewRight && t.right.skew == SkewLeft { LiftRightBalances(t); }
  }

  lemma RightShrunkBalances(t: Tree)
    requires RightOneLower(t)
    ensures Reshrunk(RightShrunk(t).0, RightShrunk(t).1, HeightWith(Height(t.left), Height(t.right) + 1))
  {
    if t.skew == SkewLeft && t.left.skew == SkewRight { LiftLeftBalances(t); }
  }

  // ---------- Insertion ----------

  /** The reference: insertion into a sorted list. */
  function InsertSorted(s: seq<Payload>, item: Payload): seq<Payload> {
    if s == [] then [item]
    else if Compare(s[0].key, item.key) == 0 then s
    else if Less(item.key, s[0].key) then [item] + s
    else [s[0]] + InsertSorted(s[1..], item)
  }

  ghost predicate HasKey(s: seq<Payload>, key: Key) {
    exists i :: 0 <= i < |s| && s[i].key == key
  }

  /** The reference keeps the list sorted and adds exactly one key, unless it is there already. */
  lemma {:induction false} InsertSortedKeys(s: seq<Payload>, item: Payload)
    requires Increasing(s)
    ensures Increasing(InsertSorted(s, item))
    ensures forall p :: p in InsertSorted(s, item) <==> p in s || (p == item && !HasKey(s, item.key))
    ensures HasKey(s, item.key) ==> InsertSorted(s, item) == s
  {
    if s != [] {
      var s' := s[1..];
      assert s == [s[0]] + s';
      CompareIsOrder(s[0].key, item.key, item.key);
      InsertSortedKeys(s', item);
      HasKeyTail(s, item.key);
      if Less(item.key, s[0].key) {
        forall i | 0 <= i < |s| ensures Less(item.key, s[i].key) {
          if i > 0 { CompareIsOrder(item.key, s[0].key, s[i].key); }
          CompareIsOrder(item.key, s[i].key, item.key);
        }
      } else if s[0].key != item.key {
        var r := InsertSorted(s', item);
        forall i | 0 <= i < |r| ensures Less(s[0].key, r[i].key) {
          assert r[i] in r;
          if r[i] != item {
            var j :| 0 <= j < |s'| && s'[j] == r[i];
            assert s[j + 1] == r[i];
          }
        }
        assert Increasing([s[0]] + r);
      }
    }
  }

  lemma HasKeyTail(s: seq<Payload>, key: Key)
    requires s != []
    ensures HasKey(s, key) <==> s[0].key == key || HasKey(s[1..], key)
  {
    if HasKey(s, key) {
      var i :| 0 <= i < |s| && s[i].key == key;
      assert i > 0 ==> s[1..][i - 1].key == key;
    }
    if HasKey(s[1..], key) {
      var i :| 0 <= i < |s[1..]| && s[1..][i].key == key;
      assert s[i + 1].key == key;
    }
  }

  /** Insertion into a list whose halves are sorted around x goes to the half where it belongs. */
  lemma {:induction false} InsertLow(a: seq<Payload>, x: Payload, b: seq<Payload>, item: Payload)
    requires Less(item.key, x.key)
    ensures InsertSorted(a + [x] + b, item) == InsertSorted(a, item) + [x] + b
  {
    var s := a + [x] + b;
    if a == [] {
      assert s[0] == x;
      CompareIsOrder(item.key, x.key, x.key);
    } else {
      assert s[0] == a[0] && s[1..] == a[1..] + [x] + b;
      InsertLow(a[1..], x, b, item);
    }
  }

  lemma {:induction false} InsertHigh(a: seq<Payload>, x: Payload, b: seq<Payload>, item: Payload)
    requires Less(x.key, item.key) && Increasing(a + [x] + b)
    ensures InsertSorted(a + [x] + b, item) == a + [x] + InsertSorted(b, item)
  {
    var s := a + [x] + b;
    CompareIsOrder(item.key, x.key, x.key);
    if a == [] {
      assert s[0] == x && s[1..] == b;
    } else {
      assert s[0] == a[0] && s[1..] == a[1..] + [x] + b;
      assert s[|a|] == x && Less(a[0].key, x.key);
      CompareIsOrder(a[0].key, x.key, item.key);
      CompareIsOrder(a[0].key, item.key, item.key);
      assert Increasing(s[1..]);
      InsertHigh(a[1..], x, b, item);
    }
  }

  lemma {:induction false} InsertSame(a: seq<Payload>, x: Payload, b: seq<Payload>, item: Payload)
    requires item.key == x.key && Increasing(a + [x] + b)
    ensures InsertSorted(a + [x] + b, item) == a + [x] + b
  {
    var s := a + [x] + b;
    if a == [] {
      assert s[0] == x;
    } else {
      assert s[0] == a[0] && s[1..] == a[1..] + [x] + b;
      assert Compare(s[0].key, item.key) < 0 by {
        assert s[|a|] == x && Less(a[0].key, x.key);
        CompareIsOrder(a[0].key, x.key, item.key);
      }
      assert InsertSorted(s[1..], item) == s[1..] by {
        assert Increasing(s[1..]);
        InsertSame(a[1..], x, b, item);
      }
      assert s == [s[0]] + s[1..];
    }
  }

  lemma SortedParts(t: Tree)
    requires t.Node? && Sorted(t)
    ensures Sorted(t.left) && Sorted(t.right)
  {
    var s := Items(t);
    var n := |Items(t.left)|;
    assert Items(t.left) == s[..n] && Items(t.right) == s[n + 1..];
  }

  /** Insertion into the tree is insertion into the sorted list of its items. */
  lemma {:induction false} InsertIsSorted(t: Tree, item: Payload, spare: int)
    requires Sorted(t) && spare != NIL
    ensures Items(Insert(t, item, spare).0) == InsertSorted(Items(t), item)
  {
    if t.Node? {
      SortedParts(t);
      CompareIsOrder(t.item.key, item.key, item.key);
      var cmp := Compare(t.item.key, item.key);
      if cmp > 0 {
        InsertIsSorted(t.left, item, spare);
        InsertLow(Items(t.left), t.item, Items(t.right), item);
        StepsKeep(t.(left := Insert(t.left, item, spare).0));
      } else if cmp < 0 {
        InsertIsSorted(t.right, item, spare);
        InsertHigh(Items(t.left), t.item, Items(t.right), item);
        StepsKeep(t.(right := Insert(t.right, item, spare).0));
      } else {
        InsertSame(Items(t.left), t.item, Items(t.right), item);
      }
    }
  }

  /** Insertion keeps the tree balanced, and reports exactly whether it became higher, found the key, or
      had no node to put it in. */
  lemma {:induction false} InsertBalances(t: Tree, item: Payload, spare: int)
    requires Balanced(t)
    ensures var (t', res) := Insert(t, item, spare);
      && Balanced(t') && Height(t') == (if res == ResBalance then Height(t) + 1 else Height(t))
      && (res == ResBalance && 1 < Height(t') ==> t'.skew != SkewNone)
      && (res == ResDuplicate || res == ResError ==> t' == t)
      && res in {ResOk, ResBalance, ResDuplicate, ResError}
  {
    if t.Node? {
      var cmp := Compare(t.item.key, item.key);
      if cmp > 0 {
        InsertBalances(t.left, item, spare);
        var (l', res) := Insert(t.left, item, spare);
        if res == ResBalance { LeftGrownBalances(t.(left := l')); }
      } else if cmp < 0 {
        InsertBalances(t.right, item, spare);
        var (r', res) := Insert(t.right, item, spare);
        if res == ResBalance { RightGrownBalances(t.(right := r')); }
      }
    }
  }

  /** Searching the sorted list from the node in the middle. */
  lemma KeyInParts(t: Tree, key: Key)
    requires t.Node? && Sorted(t)
    ensures HasKey(Items(t), key) <==> t.item.key == key || HasKey(Items(if Less(key, t.item.key) then t.left else t.right), key)
  {
    var s, a, b := Items(t), Items(t.left), Items(t.right);
    CompareIsOrder(key, t.item.key, key);
    assert s[|a|] == t.item;
    if HasKey(s, key) {
      var i :| 0 <= i < |s| && s[i].key == key;
      if i < |a| {
        assert a[i] == s[i] && Less(s[i].key, s[|a|].key);
      } else if i > |a| {
        assert b[i - |a| - 1] == s[i] && Less(s[|a|].key, s[i].key);
      }
    }
    if HasKey(a, key) {
      var i :| 0 <= i < |a| && a[i].key == key;
      assert s[i] == a[i];
    }
    if HasKey(b, key) {
      var i :| 0 <= i < |b| && b[i].key == key;
      assert s[|a| + 1 + i] == b[i];
    }
  }

  /** An insertion changes nothing exactly if the key is there already or there is no node to use. */
  lemma {:induction false} InsertResult(t: Tree, item: Payload, spare: int)
    requires Sorted(t)
    ensures var res := Insert(t, item, spare).1;
      && (res == ResDuplicate <==> HasKey(Items(t), item.key))
      && (res == ResError <==> !HasKey(Items(t), item.key) && spare == NIL)
  {
    if t.Node? {
      SortedParts(t);
      KeyInParts(t, item.key);
      CompareIsOrder(t.item.key, item.key, item.key);
      var cmp := Compare(t.item.key, item.key);
      if cmp > 0 {
        InsertResult(t.left, item, spare);
      } else if cmp < 0 {
        InsertResult(t.right, item, spare);
      }
    }
  }

  /** The nodes in use after an insertion: the old ones, and the spare one if it was used. */
  lemma {:induction false} InsertNodes(t: Tree, item: Payload, spare: int)
    requires Distinct(t) && spare !in Ids(t)
    ensures var (t', res) := Insert(t, item, spare);
      && Distinct(t') && (forall i :: i in Ids(t') <==> i in Ids(t) || (i == spare && (res == ResOk || res == ResBalance)))
  {
    if t.Node? {
      DistinctParts(t);
      var cmp := Compare(t.item.key, item.key);
      if cmp > 0 {
        InsertNodes(t.left, item, spare);
        var u := t.(left := Insert(t.left, item, spare).0);
        DistinctWhole(u);
        StepsKeep(u);
      } else if cmp < 0 {
        InsertNodes(t.right, item, spare);
        var u := t.(right := Insert(t.right, item, spare).0);
        DistinctWhole(u);
        StepsKeep(u);
      }
    }
  }

  lemma IdsParts(t: Tree)
    requires t.Node?
    ensures forall i :: i in Ids(t) <==> i in Ids(t.left) || i == t.id || i in Ids(t.right)
  {
  }

  lemma DistinctParts(t: Tree)
    requires t.Node? && Distinct(t)
    ensures Distinct(t.left) && Distinct(t.right) && t.id !in Ids(t.left) && t.id !in Ids(t.right)
    ensures forall i :: i in Ids(t.left) ==> i !in Ids(t.right)
    ensures forall i :: i in Ids(t) <==> i in Ids(t.left) || i == t.id || i in Ids(t.right)
  {
    IdsParts(t);
    var s, a, b := Ids(t), Ids(t.left), Ids(t.right);
    assert forall k :: 0 <= k < |a| ==> s[k] == a[k];
    assert s[|a|] == t.id && b == s[|a| + 1..];
    forall i | i in b ensures i != t.id && i !in a {
      var k :| 0 <= k < |b| && b[k] == i;
      assert s[|a| + 1 + k] == i;
    }
  }

  lemma DistinctWhole(t: Tree)
    requires t.Node? && Distinct(t.left) && Distinct(t.right) && t.id !in Ids(t.left) && t.id !in Ids(t.right)
    requires forall i :: i in Ids(t.left) ==> i !in Ids(t.right)
    ensures Distinct(t)
    ensures forall i :: i in Ids(t) <==> i in Ids(t.left) || i == t.id || i in Ids(t.right)
  {
    var s, a, b := Ids(t), Ids(t.left), Ids(t.right);
    forall i, j | 0 <= i < j < |s| ensures s[i] != s[j] {
      if i < |a| {
        assert s[i] == a[i] && s[i] in a;
        if j > |a| { assert s[j] == b[j - |a| - 1] && s[j] in b; }
      } else {
        assert s[j] == b[j - |a| - 1] && s[j] in b;
        if i > |a| { assert s[i] == b[i - |a| - 1]; }
      }
    }
  }

  // ---------- Removal ----------

  /** The list without the item of a key. */
  function WithoutKey(s: seq<Payload>, key: Key): seq<Payload> {
    if s == [] then []
    else if s[0].key == key then s[1..]
    else [s[0]] + WithoutKey(s[1..], key)
  }

  /** The reference keeps the list sorted and takes out exactly the item of the key. */
  lemma {:induction false} WithoutKeyKeys(s: seq<Payload>, key: Key)
    requires Increasing(s)
    ensures Increasing(WithoutKey(s, key)) && forall p :: p in WithoutKey(s, key) <==> p in s && p.key != key
  {
    if s != [] {
      var s' := s[1..];
      assert s == [s[0]] + s';
      WithoutKeyKeys(s', key);
      if s[0].key == key {
        forall p | p in s' ensures p.key != key {
          var j :| 0 <= j < |s'| && s'[j] == p;
          assert Less(s[0].key, s[j + 1].key);
        }
      } else {
        var r := WithoutKey(s', key);
        forall i | 0 <= i < |r| ensures Less(s[0].key, r[i].key) {
          assert r[i] in r;
          var j :| 0 <= j < |s'| && s'[j] == r[i];
          assert Less(s[0].key, s[j + 1].key);
        }
      }
    }
  }

  lemma TailLacks(s: seq<Payload>, key: Key)
    requires s != [] && !HasKey(s, key)
    ensures s[0].key != key && !HasKey(s[1..], key)
  {
    forall i | 0 <= i < |s[1..]| ensures s[1..][i].key != key {
      assert s[1..][i] == s[i + 1];
    }
  }

  lemma {:induction false} WithoutAbsent(s: seq<Payload>, key: Key)
    requires !HasKey(s, key)
    ensures WithoutKey(s, key) == s
  {
    if s != [] {
      assert s[0].key != key;
      TailLacks(s, key);
      WithoutAbsent(s[1..], key);
    }
  }

  lemma {:induction false} WithoutLow(a: seq<Payload>, x: Payload, b: seq<Payload>, key: Key)
    requires HasKey(a, key)
    ensures WithoutKey(a + [x] + b, key) == WithoutKey(a, key) + [x] + b
  {
    var s := a + [x] + b;
    assert s[0] == a[0] && s[1..] == a[1..] + [x] + b;
    if a[0].key != key {
      var i :| 0 <= i < |a| && a[i].key == key;
      assert a[1..][i - 1].key == key;
      WithoutLow(a[1..], x, b, key);
    }
  }

  lemma {:induction false} WithoutHigh(a: seq<Payload>, b: seq<Payload>, key: Key)
    requires !HasKey(a, key)
    ensures WithoutKey(a + b, key) == a + WithoutKey(b, key)
  {
    var s := a + b;
    if a == [] {
      assert s == b;
    } else {
      assert s[0] == a[0] && s[1..] == a[1..] + b;
      assert a[0].key != key;
      TailLacks(a, key);
      WithoutHigh(a[1..], b, key);
    }
  }

  lemma {:induction false} TakeHighestContents(t: Tree)
    requires t.Node?
    ensures var (t', res, e) := TakeHighest(t);
      Items(t) == Items(t') + [e.item] && Ids(t) == Ids(t') + [e.id] && res in {ResOk, ResBalance}
  {
    if t.right.Node? {
      TakeHighestContents(t.right);
      var (r', res, e) := TakeHighest(t.right);
      var u := t.(right := r');
      assert Items(t) == Items(u) + [e.item] && Ids(t) == Ids(u) + [e.id];
      StepsKeep(u);
    }
  }

  lemma {:induction false} TakeLowestContents(t: Tree)
    requires t.Node?
    ensures var (t', res, e) := TakeLowest(t);
      Items(t) == [e.item] + Items(t') && Ids(t) == [e.id] + Ids(t') && res in {ResOk, ResBalance}
  {
    if t.left.Node? {
      TakeLowestContents(t.left);
      var (l', res, e) := TakeLowest(t.left);
      var u := t.(left := l');
      assert Items(t) == [e.item] + Items(u) && Ids(t) == [e.id] + Ids(u);
      StepsKeep(u);
    }
  }

  lemma {:induction false} TakeHighestBalances(t: Tree)
    requires t.Node? && Balanced(t)
    ensures Reshrunk(TakeHighest(t).0, TakeHighest(t).1, Height(t))
  {
    if t.right.Node? {
      TakeHighestBalances(t.right);
      var (r', res, e) := TakeHighest(t.right);
      if res == ResBalance { RightShrunkBalances(t.(right := r')); }
    }
  }

  lemma {:induction false} TakeLowestBalances(t: Tree)
    requires t.Node? && Balanced(t)
    ensures Reshrunk(TakeLowest(t).0, TakeLowest(t).1, Height(t))
  {
    if t.left.Node? {
      TakeLowestBalances(t.left);
      var (l', res, e) := TakeLowest(t.left);
      if res == ResBalance { LeftShrunkBalances(t.(left := l')); }
    }
  }

  /** Removal from the tree is removal from the list of its items. */
  lemma {:induction false} RemoveIsWithout(t: Tree, key: Key)
    requires Sorted(t)
    ensures Items(Remove(t, key).0) == WithoutKey(Items(t), key)
    ensures Remove(t, key).1 == ResNotFound <==> !HasKey(Items(t), key)
  {
    if t.Node? {
      SortedParts(t);
      KeyInParts(t, key);
      CompareIsOrder(t.item.key, key, key);
      var cmp := Compare(t.item.key, key);
      if cmp > 0 {
        RemoveIsWithout(t.left, key);
        WithoutLeft(t, key);
        StepsKeep(t.(left := Remove(t.left, key).0));
      } else if cmp < 0 {
        RemoveIsWithout(t.right, key);
        WithoutRight(t, key);
        StepsKeep(t.(right := Remove(t.right, key).0));
      } else {
        WithoutRight(t, key);
        RemoveTopContents(t, key);
      }
    }
  }

  lemma WithoutLeft(t: Tree, key: Key)
    requires t.Node? && Sorted(t) && Compare(t.item.key, key) > 0
    ensures WithoutKey(Items(t), key) == WithoutKey(Items(t.left), key) + [t.item] + Items(t.right)
  {
    var a, b := Items(t.left), Items(t.right);
    KeyInParts(t, key);
    CompareIsOrder(t.item.key, key, key);
    if HasKey(a, key) {
      WithoutLow(a, t.item, b, key);
    } else {
      WithoutAbsent(Items(t), key);
      WithoutAbsent(a, key);
    }
  }

  lemma WithoutRight(t: Tree, key: Key)
    requires t.Node? && Sorted(t) && Compare(t.item.key, key) <= 0
    ensures WithoutKey(Items(t), key) ==
      if t.item.key == key then Items(t.left) + Items(t.right) else Items(t.left) + [t.item] + WithoutKey(Items(t.right), key)
  {
    var a, b := Items(t.left), Items(t.right);
    var rest := [t.item] + b;
    assert Items(t) == a + rest;
    assert WithoutKey(a + rest, key) == a + WithoutKey(rest, key) by {
      KeySides(t, key);
      WithoutHigh(a, rest, key);
    }
    assert rest[1..] == b;
    assert a + ([t.item] + WithoutKey(b, key)) == a + [t.item] + WithoutKey(b, key);
  }

  lemma KeySides(t: Tree, key: Key)
    requires t.Node? && Sorted(t)
    ensures Compare(t.item.key, key) <= 0 ==> !HasKey(Items(t.left), key)
  {
    var s, a := Items(t), Items(t.left);
    if i :| 0 <= i < |a| && a[i].key == key {
      assert s[i] == a[i] && s[|a|] == t.item;
      CompareIsOrder(a[i].key, t.item.key, key);
    }
  }

  lemma RemoveTopContents(t: Tree, key: Key)
    requires t.Node? && Compare(t.item.key, key) == 0
    ensures Items(Remove(t, key).0) == Items(t.left) + Items(t.right)
    ensures Remove(t, key).1 != ResNotFound
  {
    if t.left.Node? {
      TakeHighestContents(t.left);
      var (l', res, e) := TakeHighest(t.left);
      StepsKeep(Node(l', t.id, e.item, t.skew, t.right));
    } else if t.right.Node? {
      TakeLowestContents(t.right);
      var (r', res, e) := TakeLowest(t.right);
      StepsKeep(Node(t.left, t.id, e.item, t.skew, r'));
    }
  }

  /** Removal keeps the tree balanced, and reports exactly whether it became lower. */
  lemma {:induction false} RemoveBalances(t: Tree, key: Key)
    requires Balanced(t)
    ensures var (t', res) := Remove(t, key);
      && Balanced(t') && Height(t') == (if res == ResBalance then Height(t) - 1 else Height(t))
      && (res == ResNotFound ==> t' == t) && res in {ResOk, ResBalance, ResNotFound}
  {
    if t.Node? {
      var cmp := Compare(t.item.key, key);
      if cmp > 0 {
        RemoveBalances(t.left, key);
        var (l', res) := Remove(t.left, key);
        if res == ResBalance { LeftShrunkBalances(t.(left := l')); }
      } else if cmp < 0 {
        RemoveBalances(t.right, key);
        var (r', res) := Remove(t.right, key);
        if res == ResBalance { RightShrunkBalances(t.(right := r')); }
      } else if t.left.Node? {
        TakeHighestBalances(t.left);
        var (l', res, e) := TakeHighest(t.left);
        if res == ResBalance { LeftShrunkBalances(Node(l', t.id, e.item, t.skew, t.right)); }
      } else if t.right.Node? {
        TakeLowestBalances(t.right);
        var (r', res, e) := TakeLowest(t.right);
        if res == ResBalance { RightShrunkBalances(Node(t.left, t.id, e.item, t.skew, r')); }
      }
    }
  }

  // ---------- The nodes that a removal touches ----------

  /** The node that holds a key. */
  function Holder(t: Tree, key: Key): int {
    match t
    case Leaf => NIL
    case Node(l, id, it, _, r) =>
      if Compare(it.key, key) > 0 then Holder(l, key) else if Compare(it.key, key) < 0 then Holder(r, key) else id
  }

  /** The node that a removal frees, and the item it held. */
  function Freed(t: Tree, key: Key): Victim {
    match t
    case Leaf => Victim(NIL, Payload(key, 0))
    case Node(l, id, it, _, r) =>
      if Compare(it.key, key) > 0 then Freed(l, key) else if Compare(it.key, key) < 0 then Freed(r, key)
      else if l.Node? then TakeHighest(l).2
      else if r.Node? then TakeLowest(r).2
      else Victim(id, it)
  }

  /** Exactly one node is freed. */
  lemma {:induction false} RemoveNodes(t: Tree, key: Key)
    requires Distinct(t) && Remove(t, key).1 != ResNotFound
    ensures var t' := Remove(t, key).0;
      && Distinct(t') && Freed(t, key).id in Ids(t) && Holder(t, key) in Ids(t)
      && (forall i :: i in Ids(t') <==> i in Ids(t) && i != Freed(t, key).id)
  {
    DistinctParts(t);
    var cmp := Compare(t.item.key, key);
    if cmp > 0 {
      RemoveNodes(t.left, key);
      var u := t.(left := Remove(t.left, key).0);
      DistinctWhole(u);
      StepsKeep(u);
    } else if cmp < 0 {
      RemoveNodes(t.right, key);
      var u := t.(right := Remove(t.right, key).0);
      DistinctWhole(u);
      StepsKeep(u);
    } else {
      RemoveTopNodes(t, key);
    }
  }

  lemma RemoveTopNodes(t: Tree, key: Key)
    requires t.Node? && Distinct(t) && Compare(t.item.key, key) == 0
    ensures var t' := Remove(t, key).0;
      && Distinct(t') && Freed(t, key).id in Ids(t) && Holder(t, key) in Ids(t)
      && (forall i :: i in Ids(t') <==> i in Ids(t) && i != Freed(t, key).id)
  {
    DistinctParts(t);
    if t.left.Node? {
      TakeHighestContents(t.left);
      var (l', res, e) := TakeHighest(t.left);
      TakenNode(Ids(t.left), Ids(l'), [], e.id);
      var u := Node(l', t.id, e.item, t.skew, t.right);
      DistinctWhole(u);
      StepsKeep(u);
    } else if t.right.Node? {
      TakeLowestContents(t.right);
      var (r', res, e) := TakeLowest(t.right);
      TakenNode(Ids(t.right), [], Ids(r'), e.id);
      var u := Node(t.left, t.id, e.item, t.skew, r');
      DistinctWhole(u);
      StepsKeep(u);
    }
  }

  lemma TakenNode(s: seq<int>, a: seq<int>, b: seq<int>, x: int)
    requires s == a + [x] + b && forall i, j :: 0 <= i < j < |s| ==> s[i] != s[j]
    ensures x in s && x !in a && x !in b
    ensures forall i, j :: 0 <= i < j < |a| ==> a[i] != a[j]
    ensures forall i, j :: 0 <= i < j < |b| ==> b[i] != b[j]
    ensures forall i :: i in s <==> i in a || i == x || i in b
  {
    assert forall k :: 0 <= k < |a| ==> s[k] == a[k];
    assert s[|a|] == x;
    assert b == s[|a| + 1..];
  }

  // ---------- Height ----------

  /** The fewest nodes that a balanced tree of a height can have. */
  function MinSize(h: nat): nat {
    if h == 0 then 0 else if h == 1 then 1 else 1 + MinSize(h - 1) + MinSize(h - 2)
  }

  lemma {:induction false} BalancedSize(t: Tree)
    requires Balanced(t)
    ensures MinSize(Height(t)) <= Size(t)
  {
    if t.Node? {
      BalancedSize(t.left);
      BalancedSize(t.right);
    }
  }

  lemma {:induction false} MinSizeDoubles(h: nat)
    ensures Pow2(h / 2) <= MinSize(h) + 1
  {
    if h >= 2 {
      MinSizeDoubles(h - 2);
      assert h / 2 == (h - 2) / 2 + 1;
      MinSizeGrows(h - 2);
    }
  }

  lemma {:induction false} MinSizeGrows(h: nat)
    ensures MinSize(h) <= MinSize(h + 1)
  {
    if h >= 2 {
      MinSizeGrows(h - 1);
      MinSizeGrows(h - 2);
    }
  }

  /** The height of a balanced tree is logarithmic in its size. */
  lemma HeightIsLogarithmic(t: Tree)
    requires Balanced(t)
    ensures Pow2(Height(t) / 2) <= Size(t) + 1
  {
    BalancedSize(t);
    MinSizeDoubles(Height(t));
  }
}
