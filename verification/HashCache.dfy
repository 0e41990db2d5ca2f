/** The virtual-method cache over hash chains: one circular chain per bucket and one ring in
    most-recently-used order, both threaded through the same entries (VirtualMethodTable). */
module HashCaches {
  import opened LruModel
  import opened Rings
  import opened Sequences

  /** The ring of bucket h: its head lies behind the n entries. */
  function Chain(n: int, chains: seq<seq<int>>, h: int): seq<int>
    requires 0 <= h < |chains|
  {
    [n + h] + chains[h]
  }

  ghost predicate InChain(chains: seq<seq<int>>, h: int, i: int) {
    0 <= h < |chains| && i in chains[h]
  }

  ghost predicate Chained(chains: seq<seq<int>>, i: int) {
    exists h :: InChain(chains, h, i)
  }

  /** The chains are disjoint rings of entries, one per bucket; entries in no chain are linked to themselves. */
  ghost predicate ChainsOk(entries: seq<Link>, n: int, chains: seq<seq<int>>) {
    && 0 <= n && |entries| == n + |chains|
    && (forall h :: 0 <= h < |chains| ==> Ring(entries, Chain(n, chains, h)))
    && (forall h, i :: InChain(chains, h, i) ==> 0 <= i < n)
    && (forall h, g, i {:trigger InChain(chains, h, i), InChain(chains, g, i)} :: InChain(chains, h, i) && InChain(chains, g, i) ==> h == g)
    && (forall i :: 0 <= i < n && !Chained(chains, i) ==> entries[i] == Link(i, i))
  }

  /** The MRU ring visits all n entries behind its head n. */
  ghost predicate MruOk(mru: seq<Link>, n: int, order: seq<int>) {
    && |mru| == n + 1 && |order| == n && Ring(mru, [n] + order)
    && (forall k :: 0 <= k < n ==> 0 <= order[k] < n)
  }

  /** The entries in use are the first ones in MRU order; each is in the chain of the bucket of its key. */
  ghost predicate UseOk(payloads: seq<Payload>, chains: seq<seq<int>>, order: seq<int>, used: int, crc: Key -> nat) {
    && |order| == |payloads| && 0 <= used <= |order|
    && (forall k :: 0 <= k < |order| ==> 0 <= order[k] < |payloads|)
    && UsedFirst(chains, order, used) && InBuckets(payloads, chains, crc)
  }

  ghost predicate UsedFirst(chains: seq<seq<int>>, order: seq<int>, used: int) {
    forall k :: 0 <= k < |order| ==> (Chained(chains, order[k]) <==> k < used)
  }

  ghost predicate InBuckets(payloads: seq<Payload>, chains: seq<seq<int>>, crc: Key -> nat) {
    forall h, i :: InChain(chains, h, i) && 0 <= i < |payloads| ==> crc(payloads[i].key) % |chains| == h
  }

  /** The remembered entries, most recently used first. */
  ghost function Entries(payloads: seq<Payload>, order: seq<int>, used: int): seq<Payload>
    requires 0 <= used <= |order| && forall k :: 0 <= k < |order| ==> 0 <= order[k] < |payloads|
  {
    seq(used, k requires 0 <= k < used => payloads[order[k]])
  }

  /** The chains after idx moved to the top of bucket h. */
  ghost function MovedTo(chains: seq<seq<int>>, h: int, idx: int): seq<seq<int>>
    requires 0 <= h < |chains|
  {
    seq(|chains|, g requires 0 <= g < |chains| => if g == h then [idx] + Minus(chains[g], idx) else Minus(chains[g], idx))
  }

  /** The ring in which an entry is before it is moved. */
  ghost function Home(n: int, chains: seq<seq<int>>, idx: int): seq<int> {
    if g :| InChain(chains, g, idx) then Chain(n, chains, g) else [idx]
  }

  lemma HomeIsMovable(entries: seq<Link>, n: int, chains: seq<seq<int>>, h: int, idx: int)
    requires ChainsOk(entries, n, chains) && 0 <= h < |chains| && 0 <= idx < n
    ensures Movable(entries, Chain(n, chains, h), Home(n, chains, idx), idx)
    ensures idx in Chain(n, chains, h) <==> InChain(chains, h, idx)
  {
    if Chained(chains, idx) {
      var g :| InChain(chains, g, idx) && Home(n, chains, idx) == Chain(n, chains, g);
      if g != h {
        forall x | x in Chain(n, chains, g) ensures x !in Chain(n, chains, h) {
          assert x in chains[g] ==> InChain(chains, g, x);
          assert x in chains[h] ==> InChain(chains, h, x);
        }
      }
    } else {
      assert !InChain(chains, h, idx);
      Lone(entries, idx);
    }
  }

  lemma MovedMembers(chains: seq<seq<int>>, h: int, idx: int)
    requires 0 <= h < |chains| && forall g :: 0 <= g < |chains| ==> NoneTwice(chains[g])
    ensures forall g, i :: InChain(MovedTo(chains, h, idx), g, i) <==> if i == idx then g == h else InChain(chains, g, i)
  {
    forall g, i ensures InChain(MovedTo(chains, h, idx), g, i) <==> if i == idx then g == h else InChain(chains, g, i) {
      if 0 <= g < |chains| {
        MinusMembers(chains[g], idx);
      }
    }
  }

  lemma ChainUnique(entries: seq<Link>, n: int, chains: seq<seq<int>>)
    requires ChainsOk(entries, n, chains)
    ensures forall g :: 0 <= g < |chains| ==> NoneTwice(chains[g])
  {
    forall g | 0 <= g < |chains| ensures NoneTwice(chains[g]) {
      var r := Chain(n, chains, g);
      assert Ring(entries, r);
      assert forall k :: 0 <= k < |chains[g]| ==> chains[g][k] == r[k + 1];
    }
  }

  lemma ChainsMoved(entries: seq<Link>, entries': seq<Link>, n: int, chains: seq<seq<int>>, h: int, idx: int)
    requires ChainsOk(entries, n, chains) && 0 <= h < |chains| && 0 <= idx < n && |entries'| == |entries|
    requires var a, c := Chain(n, chains, h), Home(n, chains, idx);
      && Ring(entries', OnTop(a, idx))
      && (idx !in a && c != [idx] ==> Ring(entries', [c[0]] + Minus(c[1..], idx)))
      && (forall i :: 0 <= i < |entries| && i !in a && (idx in a || i !in c) ==> entries'[i] == entries[i])
    ensures ChainsOk(entries', n, MovedTo(chains, h, idx))
  {
    var chains' := MovedTo(chains, h, idx);
    ChainUnique(entries, n, chains);
    MovedMembers(chains, h, idx);
    HomeIsMovable(entries, n, chains, h, idx);
    forall g | 0 <= g < |chains'| ensures Ring(entries', Chain(n, chains', g)) {
      ChainMoved(entries, entries', n, chains, h, idx, g);
    }
    forall i | 0 <= i < n && !Chained(chains', i) ensures entries'[i] == Link(i, i) {
      assert !InChain(chains', h, i);
      forall g ensures !InChain(chains, g, i) {
        assert !InChain(chains', g, i);
      }
      assert InChain(chains', h, idx);
      assert i !in Chain(n, chains, h) by { assert !InChain(chains, h, i); }
      LoneOutsideHome(n, chains, idx, i);
    }
  }

  lemma LoneOutsideHome(n: int, chains: seq<seq<int>>, idx: int, i: int)
    requires !Chained(chains, i) && 0 <= i < n && i != idx
    ensures i !in Home(n, chains, idx)
  {
    if g :| InChain(chains, g, idx) && Home(n, chains, idx) == Chain(n, chains, g) {
      assert !InChain(chains, g, i);
    }
  }

  lemma ChainMoved(entries: seq<Link>, entries': seq<Link>, n: int, chains: seq<seq<int>>, h: int, idx: int, g: int)
    requires ChainsOk(entries, n, chains) && 0 <= h < |chains| && 0 <= g < |chains| && 0 <= idx < n && |entries'| == |entries|
    requires forall f :: 0 <= f < |chains| ==> NoneTwice(chains[f])
    requires var a, c := Chain(n, chains, h), Home(n, chains, idx);
      && Ring(entries', OnTop(a, idx))
      && (idx !in a && c != [idx] ==> Ring(entries', [c[0]] + Minus(c[1..], idx)))
      && (forall i :: 0 <= i < |entries| && i !in a && (idx in a || i !in c) ==> entries'[i] == entries[i])
    ensures Ring(entries', Chain(n, MovedTo(chains, h, idx), g))
  {
    if g == h {
      HeadRing(n, chains, h, idx);
    } else if InChain(chains, g, idx) {
      HomeRingMoved(n, chains, h, idx, g);
    } else {
      forall i | i in Chain(n, chains, g) ensures i !in Chain(n, chains, h) && i !in Home(n, chains, idx) {
        OtherChain(n, chains, h, idx, g, i);
      }
      OtherRingKept(entries, entries', n, chains, h, idx, g);
    }
  }

  lemma HeadRing(n: int, chains: seq<seq<int>>, h: int, idx: int)
    requires 0 <= h < |chains|
    ensures OnTop(Chain(n, chains, h), idx) == Chain(n, MovedTo(chains, h, idx), h)
  {
    assert Chain(n, chains, h)[1..] == chains[h];
  }

  lemma OtherRingKept(entries: seq<Link>, entries': seq<Link>, n: int, chains: seq<seq<int>>, h: int, idx: int, g: int)
    requires 0 <= h < |chains| && 0 <= g < |chains| && g != h && |entries'| == |entries| && idx !in chains[g]
    requires Ring(entries, Chain(n, chains, g))
    requires forall i :: i in Chain(n, chains, g) ==> i !in Chain(n, chains, h) && i !in Home(n, chains, idx)
    requires forall i :: 0 <= i < |entries| && i !in Chain(n, chains, h) && i !in Home(n, chains, idx) ==> entries'[i] == entries[i]
    ensures Ring(entries', Chain(n, MovedTo(chains, h, idx), g))
  {
    var r := Chain(n, chains, g);
    MinusNone(chains[g], idx);
    forall i | i in r ensures entries'[i] == entries[i] {
      var k :| 0 <= k < |r| && r[k] == i;
    }
    RingFrame(entries, entries', r);
  }

  lemma HomeRingMoved(n: int, chains: seq<seq<int>>, h: int, idx: int, g: int)
    requires (forall h, i :: InChain(chains, h, i) ==> 0 <= i < n) && 0 <= idx < n
    requires forall h, g, i {:trigger InChain(chains, h, i), InChain(chains, g, i)} :: InChain(chains, h, i) && InChain(chains, g, i) ==> h == g
    requires 0 <= h < |chains| && InChain(chains, g, idx) && g != h
    ensures var c := Home(n, chains, idx);
      && c == Chain(n, chains, g) && c != [idx] && idx !in Chain(n, chains, h)
      && [c[0]] + Minus(c[1..], idx) == Chain(n, MovedTo(chains, h, idx), g)
  {
    var f :| InChain(chains, f, idx) && Home(n, chains, idx) == Chain(n, chains, f);
    assert f == g;
    assert !InChain(chains, h, idx);
    assert Chain(n, chains, g)[1..] == chains[g];
  }

  lemma OtherChain(n: int, chains: seq<seq<int>>, h: int, idx: int, g: int, i: int)
    requires (forall h, i :: InChain(chains, h, i) ==> 0 <= i < n) && 0 <= idx < n
    requires forall h, g, i {:trigger InChain(chains, h, i), InChain(chains, g, i)} :: InChain(chains, h, i) && InChain(chains, g, i) ==> h == g
    requires 0 <= g < |chains| && 0 <= h < |chains| && g != h && i in Chain(n, chains, g) && !InChain(chains, g, idx)
    ensures i !in Chain(n, chains, h) && i !in Home(n, chains, idx)
  {
    assert i in chains[g] ==> InChain(chains, g, i);
    assert i in chains[h] ==> InChain(chains, h, i);
    if f :| InChain(chains, f, idx) && Home(n, chains, idx) == Chain(n, chains, f) {
      assert i in chains[f] ==> InChain(chains, f, i);
    }
  }

  lemma MruMoved(mru: seq<Link>, mru': seq<Link>, n: int, order: seq<int>, idx: int)
    requires MruOk(mru, n, order) && |mru'| == |mru| && 0 <= idx < n && idx in order
    requires Ring(mru', OnTop([n] + order, idx))
    ensures MruOk(mru', n, [idx] + Minus(order, idx))
  {
    OrderUnique(mru, n, order);
    OrderMoved(n, order, idx);
    OnTopOfRest(n, order, idx);
  }

  lemma OnTopOfRest(n: int, order: seq<int>, idx: int)
    ensures OnTop([n] + order, idx) == [n] + ([idx] + Minus(order, idx))
  {
    assert ([n] + order)[1..] == order;
  }

  lemma OrderMoved(n: int, order: seq<int>, idx: int)
    requires |order| == n && NoneTwice(order) && idx in order && forall k :: 0 <= k < n ==> 0 <= order[k] < n
    ensures var order' := [idx] + Minus(order, idx);
      |order'| == n && (forall k :: 0 <= k < n ==> 0 <= order'[k] < n)
  {
    var k :| 0 <= k < n && order[k] == idx;
    MinusCut(order, k);
    CutAt(order, Minus(order, idx), k);
  }

  lemma OrderUnique(mru: seq<Link>, n: int, order: seq<int>)
    requires MruOk(mru, n, order)
    ensures NoneTwice(order)
  {
    var r := [n] + order;
    assert forall k :: 0 <= k < n ==> order[k] == r[k + 1];
  }

  /** All n entries are in the MRU ring: it visits n different ones. */
  lemma {:induction false} AllVisited(order: seq<int>, n: int, i: int)
    requires NoneTwice(order) && |order| == n && (forall k :: 0 <= k < n ==> 0 <= order[k] < n) && 0 <= i < n
    ensures i in order
  {
    if i !in order {
      Pigeons(order + [i], n);
    }
  }

  lemma {:induction false} MinusShorter(s: seq<int>, x: int)
    ensures |Minus(s, x)| >= |s| - 1
  {
    if s != [] {
      MinusShorter(s[1..], x);
    }
  }

  /** More than n different numbers below n do not exist. */
  lemma {:induction false} Pigeons(s: seq<int>, n: int)
    requires 0 <= n && NoneTwice(s) && forall k :: 0 <= k < |s| ==> 0 <= s[k] < n
    ensures |s| <= n
    decreases n
  {
    if n > 0 {
      var t := Minus(s, n - 1);
      MinusMembers(s, n - 1);
      MinusShorter(s, n - 1);
      forall k | 0 <= k < |t| ensures 0 <= t[k] < n - 1 {
        assert t[k] in t;
      }
      Pigeons(t, n - 1);
    }
  }

  // ---------- The use of the entries ----------

  lemma MovedOrder(order: seq<int>, k: int)
    requires NoneTwice(order) && 0 <= k < |order|
    ensures var order' := [order[k]] + Minus(order, order[k]);
      |order'| == |order| && forall a :: 0 <= a < |order'| ==> order'[a] == order[Before(a, k)]
  {
    MinusCut(order, k);
    var m := order[..k] + order[k + 1..];
    forall a | 0 < a < |order| ensures ([order[k]] + m)[a] == order[Before(a, k)] {
      assert ([order[k]] + m)[a] == m[a - 1];
    }
  }

  /** Chain membership and use agree after the entry at k was moved to the top of bucket h. */
  lemma MovedUse(chains: seq<seq<int>>, order: seq<int>, used: int, used': int, h: int, k: int)
    requires NoneTwice(order) && 0 <= k < |order| && 0 <= h < |chains| && forall g :: 0 <= g < |chains| ==> NoneTwice(chains[g])
    requires UsedFirst(chains, order, used)
    requires 0 <= used && if k < used then used' == used else used' == used + 1 && k == |order| - 1
    ensures UsedFirst(MovedTo(chains, h, order[k]), [order[k]] + Minus(order, order[k]), used')
  {
    var order' := [order[k]] + Minus(order, order[k]);
    MovedOrder(order, k);
    forall a | 0 <= a < |order'| ensures Chained(MovedTo(chains, h, order[k]), order'[a]) <==> a < used' {
      var b := Before(a, k);
      SameChained(chains, h, order[k], order[b]);
      assert b != k ==> order[b] != order[k];
    }
  }

  /** Asking for an entry again. */
  lemma UsePromoted(payloads: seq<Payload>, chains: seq<seq<int>>, order: seq<int>, used: int, crc: Key -> nat,
          h: int, k: int)
    requires UseOk(payloads, chains, order, used, crc) && NoneTwice(order) && 0 <= k < used && InChain(chains, h, order[k])
    requires forall g :: 0 <= g < |chains| ==> NoneTwice(chains[g])
    ensures var order' := [order[k]] + Minus(order, order[k]);
      && UseOk(payloads, MovedTo(chains, h, order[k]), order', used, crc)
      && Entries(payloads, order', used) == Promoted(Entries(payloads, order, used), k)
  {
    MovedOrder(order, k);
    MovedUse(chains, order, used, used, h, k);
    MovedMembers(chains, h, order[k]);
    PromotedEntries(payloads, order, used, k);
  }

  lemma PromotedEntries(payloads: seq<Payload>, order: seq<int>, used: int, k: int)
    requires |order| == |payloads| && 0 <= k < used <= |order| && NoneTwice(order)
    requires forall a :: 0 <= a < |order| ==> 0 <= order[a] < |payloads|
    ensures var order' := [order[k]] + Minus(order, order[k]);
      && |order'| == |order| && (forall a :: 0 <= a < |order'| ==> 0 <= order'[a] < |payloads|)
      && Entries(payloads, order', used) == Promoted(Entries(payloads, order, used), k)
  {
    MovedOrder(order, k);
    var e := Entries(payloads, order, used);
    var e' := Entries(payloads, [order[k]] + Minus(order, order[k]), used);
    forall a | 0 <= a < used ensures e'[a] == Promoted(e, k)[a] {
      assert e'[a] == e[Before(a, k)];
    }
  }

  lemma SameChained(chains: seq<seq<int>>, h: int, idx: int, i: int)
    requires 0 <= h < |chains| && forall g :: 0 <= g < |chains| ==> NoneTwice(chains[g])
    ensures Chained(MovedTo(chains, h, idx), i) <==> i == idx || Chained(chains, i)
  {
    MovedMembers(chains, h, idx);
    var chains' := MovedTo(chains, h, idx);
    if Chained(chains, i) && i != idx {
      var g :| InChain(chains, g, i);
      assert InChain(chains', g, i);
    }
    assert InChain(chains', h, idx);
    if Chained(chains', i) && i != idx {
      var g :| InChain(chains', g, i);
      assert InChain(chains, g, i);
    }
  }

  /** The least recently used entry, or an unused one, gets a new payload. */
  lemma UseAdmitted(payloads: seq<Payload>, chains: seq<seq<int>>, order: seq<int>, used: int, crc: Key -> nat,
          h: int, p: Payload)
    requires UseOk(payloads, chains, order, used, crc) && NoneTwice(order) && 0 < |order|
    requires 0 <= h < |chains| && crc(p.key) % |chains| == h
    requires forall g :: 0 <= g < |chains| ==> NoneTwice(chains[g])
    ensures var idx := order[|order| - 1];
      var order' := [idx] + Minus(order, idx);
      var used' := if used < |order| then used + 1 else used;
      && UseOk(payloads[idx := p], MovedTo(chains, h, idx), order', used', crc)
      && Entries(payloads[idx := p], order', used') == Admitted(Entries(payloads, order, used), |order|, p)
  {
    UseOkAdmitted(payloads, chains, order, used, crc, h, p);
    AdmittedEntries(payloads, order, used, p);
  }

  lemma UseOkAdmitted(payloads: seq<Payload>, chains: seq<seq<int>>, order: seq<int>, used: int, crc: Key -> nat,
          h: int, p: Payload)
    requires UseOk(payloads, chains, order, used, crc) && NoneTwice(order) && 0 < |order|
    requires 0 <= h < |chains| && crc(p.key) % |chains| == h
    requires forall g :: 0 <= g < |chains| ==> NoneTwice(chains[g])
    ensures var idx := order[|order| - 1];
      var used' := if used < |order| then used + 1 else used;
      UseOk(payloads[idx := p], MovedTo(chains, h, idx), [idx] + Minus(order, idx), used', crc)
  {
    var n := |order|;
    var idx := order[n - 1];
    var used' := if used < n then used + 1 else used;
    var order' := [idx] + Minus(order, idx);
    assert |order'| == n && forall k :: 0 <= k < n ==> 0 <= order'[k] < n by {
      OrderMoved(n, order, idx);
    }
    assert UsedFirst(MovedTo(chains, h, idx), order', used') by {
      MovedUse(chains, order, used, used', h, n - 1);
    }
    assert InBuckets(payloads[idx := p], MovedTo(chains, h, idx), crc) by {
      AdmittedBuckets(payloads, chains, crc, h, idx, p);
    }
  }

  lemma AdmittedBuckets(payloads: seq<Payload>, chains: seq<seq<int>>, crc: Key -> nat, h: int, idx: int, p: Payload)
    requires 0 <= h < |chains| && crc(p.key) % |chains| == h && 0 <= idx < |payloads|
    requires InBuckets(payloads, chains, crc)
    requires forall g :: 0 <= g < |chains| ==> NoneTwice(chains[g])
    ensures InBuckets(payloads[idx := p], MovedTo(chains, h, idx), crc)
  {
    MovedMembers(chains, h, idx);
  }

  lemma AdmittedEntries(payloads: seq<Payload>, order: seq<int>, used: int, p: Payload)
    requires |order| == |payloads| && 0 <= used <= |order| && NoneTwice(order) && 0 < |order|
    requires forall k :: 0 <= k < |order| ==> 0 <= order[k] < |payloads|
    ensures var idx := order[|order| - 1];
      var order' := [idx] + Minus(order, idx);
      var used' := if used < |order| then used + 1 else used;
      && |order'| == |order| && (forall k :: 0 <= k < |order'| ==> 0 <= order'[k] < |payloads|)
      && Entries(payloads[idx := p], order', used') == Admitted(Entries(payloads, order, used), |order|, p)
  {
    var n := |order|;
    var idx := order[n - 1];
    var order' := [idx] + Minus(order, idx);
    OrderMoved(n, order, idx);
    MovedOrder(order, n - 1);
    var used' := if used < n then used + 1 else used;
    var e' := Entries(payloads[idx := p], order', used');
    var f := Admitted(Entries(payloads, order, used), n, p);
    assert |e'| == |f|;
    forall a | 0 <= a < |e'| ensures e'[a] == f[a] {
      assert a > 0 ==> order'[a] == order[a - 1] && order[a - 1] != idx;
    }
  }

  /** The walk finds what is remembered. */
  lemma WalkIsLookup(payloads: seq<Payload>, chains: seq<seq<int>>, order: seq<int>, used: int, crc: Key -> nat, key: Key)
    requires UseOk(payloads, chains, order, used, crc) && 0 < |chains|
    requires forall i :: InChain(chains, crc(key) % |chains|, i) && 0 <= i < |payloads| ==> payloads[i].key != key
    ensures !Cached(Entries(payloads, order, used), key)
  {
    var s := Entries(payloads, order, used);
    forall k | 0 <= k < |s| ensures s[k].key != key {
      assert Chained(chains, order[k]);
      var h :| InChain(chains, h, order[k]);
    }
  }

  // ---------- The table ----------

  class VirtualMethodTable {
    const entries: array<Link>
    const entriesMRU: array<Link>
    const payloads: array<Payload>
    /** SUPPORT_ComputeCRC of the key. */
    const crc: Key -> nat
    ghost var chains: seq<seq<int>>
    ghost var order: seq<int>
    ghost var used: int
    /** The keys that were looked up, but for those that a shortcut answered or that name no method. */
    ghost var asked: seq<Key>

    ghost predicate Valid()
      reads this, entries, entriesMRU, payloads
    {
      && 0 < payloads.Length && 0 < |chains| && entries != entriesMRU
      && ChainsOk(entries[..], payloads.Length, chains)
      && MruOk(entriesMRU[..], payloads.Length, order)
      && UseOk(payloads[..], chains, order, used, crc)
      && Unique(Entries(payloads[..], order, used))
    }

    ghost function Remembered(): seq<Payload>
      reads this, entries, entriesMRU, payloads
      requires Valid()
    {
      Entries(payloads[..], order, used)
    }

    /** The slot of the bucket of a key. */
    function Head(key: Key): int
      requires entries.Length > payloads.Length
    {
      crc(key) % (entries.Length - payloads.Length) + payloads.Length
    }

    /** VirtualMethodTable::Initialize: all chains are empty, all entries are in the MRU ring. */
    constructor (n: nat, buckets: nat, crc: Key -> nat)
      requires 0 < n && 0 < buckets
      ensures Valid() && Remembered() == [] && asked == [] && Recent(Remembered(), asked, n)
      ensures fresh(entries) && fresh(entriesMRU) && fresh(payloads) && payloads.Length == n
    {
      entries := new Link[n + buckets](i => Link(i, i));
      entriesMRU := new Link[n + 1](i => Link(if i == n then 0 else i + 1, if i == 0 then n else i - 1));
      payloads := new Payload[n](_ => Payload(Key(0, 0), 0));
      this.crc := crc;
      chains := seq(buckets, _ => []);
      order := seq(n, i => i);
      used, asked := 0, [];
      new;
      EmptyChains(entries[..], n, chains);
      FullRing(entriesMRU[..], n, order);
    }

    /** The loop over a bucket's chain: the entry with the key, or the head when it comes around. */
    method Walk(key: Key) returns (idx: int)
      requires Valid()
      ensures if idx == Head(key) then !Cached(Remembered(), key)
              else InChain(chains, Head(key) - payloads.Length, idx) && 0 <= idx < payloads.Length && payloads[idx].key == key
    {
      var idxHead := Head(key);
      ghost var h := idxHead - payloads.Length;
      ghost var r := Chain(payloads.Length, chains, h);
      assert Ring(entries[..], r) && Joined(entries[..], r, 0);
      idx := entries[idxHead].next;
      ghost var k := Succ(0, |r|);
      while idx != idxHead
        invariant 0 <= k < |r| && idx == r[k]
        invariant forall j :: 1 <= j < (if k == 0 then |r| else k) ==> 0 <= r[j] < payloads.Length && payloads[r[j]].key != key
        decreases if k == 0 then 0 else |r| - k
      {
        assert InChain(chains, h, idx);
        if payloads[idx].key == key { return; }
        assert Joined(entries[..], r, k);
        idx := entries[idx].next;
        k := Succ(k, |r|);
      }
      forall i | InChain(chains, h, i) && 0 <= i < payloads.Length ensures payloads[i].key != key {
        var j :| 0 <= j < |chains[h]| && chains[h][j] == i;
        assert r[j + 1] == i;
      }
      WalkIsLookup(payloads[..], chains, order, used, crc, key);
    }

    /** Both calls of MoveEntryToTop at the end of a lookup. */
    method MoveToTop(idxHead: int, idx: int)
      requires entries != entriesMRU && 0 < payloads.Length
      requires ChainsOk(entries[..], payloads.Length, chains) && MruOk(entriesMRU[..], payloads.Length, order)
      requires payloads.Length <= idxHead < entries.Length && 0 <= idx < payloads.Length
      modifies entries, entriesMRU, this`chains, this`order
      ensures ChainsOk(entries[..], payloads.Length, chains) && MruOk(entriesMRU[..], payloads.Length, order)
      ensures chains == MovedTo(old(chains), idxHead - payloads.Length, idx)
      ensures order == [idx] + Minus(old(order), idx)
    {
      ghost var n, h := payloads.Length, idxHead - payloads.Length;
      ghost var s, m := entries[..], entriesMRU[..];
      HomeIsMovable(s, n, chains, h, idx);
      MoveEntryToTop(entries, idxHead, idx, Chain(n, chains, h), Home(n, chains, idx));
      ChainsMoved(s, entries[..], n, chains, h, idx);
      OrderUnique(m, n, order);
      AllVisited(order, n, idx);
      MoveEntryToTop(entriesMRU, entriesMRU.Length - 1, idx, [n] + order, []);
      MruMoved(m, entriesMRU[..], n, order, idx);
      chains := MovedTo(chains, h, idx);
      order := [idx] + Minus(order, idx);
    }

    /** The cached lookup, as for the AVL variant, except that the shortcut is taken for every method that
        the class itself declares. */
    method FindVirtualMethod(cls: int, mdVirtual: int, ts: TypeSystem) returns (found: bool, md: int)
      requires Valid() && Terminal(ts) && Coherent(Remembered(), ts)
      modifies this`chains, this`order, this`used, this`asked, entries, entriesMRU, payloads
      ensures Valid() && Coherent(Remembered(), ts)
      ensures found == ts.resolve(Key(mdVirtual, cls)).Some? && (found ==> ts.resolve(Key(mdVirtual, cls)) == Some(md))
      ensures CallStep(old(Remembered()), Remembered(), payloads.Length, Key(mdVirtual, cls), ts.owner(mdVirtual) == cls, ts)
      ensures asked == AskedAfter(old(asked), Key(mdVirtual, cls), ts.owner(mdVirtual) == cls, ts)
      ensures old(Recent(Remembered(), asked, payloads.Length)) ==> Recent(Remembered(), asked, payloads.Length)
      ensures ts.owner(mdVirtual) == cls || ts.resolve(Key(mdVirtual, cls)).None? ==> Remembered() == old(Remembered())
      ensures var s := old(Remembered()); ts.owner(mdVirtual) != cls ==>
        && (forall i :: 0 <= i < |s| && s[i].key == Key(mdVirtual, cls) ==> Remembered() == [s[i]] + s[..i] + s[i + 1..])
        && (found && 0 < payloads.Length && (forall i :: 0 <= i < |s| ==> s[i].key != Key(mdVirtual, cls)) ==>
              Remembered() == [Payload(Key(mdVirtual, cls), md)] + if |s| < payloads.Length then s else s[..|s| - 1])
    {
      ghost var s0 := Remembered();
      if cls == ts.owner(mdVirtual) {
        found, md := true, mdVirtual;
      } else {
        found, md := Resolve(Key(mdVirtual, cls), ts);
      }
      CallWrittenOut(s0, Remembered(), payloads.Length, Key(mdVirtual, cls), ts.owner(mdVirtual) == cls, ts);
      if Recent(s0, asked, payloads.Length) {
        CallRecency(s0, Remembered(), payloads.Length, Key(mdVirtual, cls), ts.owner(mdVirtual) == cls, ts, asked);
      }
      asked := AskedAfter(asked, Key(mdVirtual, cls), ts.owner(mdVirtual) == cls, ts);
    }

    /** What follows the shortcut. */
    method Resolve(key: Key, ts: TypeSystem) returns (found: bool, md: int)
      requires Valid() && Coherent(Remembered(), ts)
      modifies this`chains, this`order, this`used, entries, entriesMRU, payloads
      ensures Valid() && Coherent(Remembered(), ts)
      ensures found == ts.resolve(key).Some? && (found ==> ts.resolve(key) == Some(md))
      ensures LruStep(old(Remembered()), Remembered(), payloads.Length, key, ts)
    {
      ghost var s0 := Remembered();
      var idx := Walk(key);
      found := true;
      if idx != Head(key) {
        md := payloads[idx].md;
        ghost var k := Touch(idx, key);
        assert s0[k] == Payload(key, md) && s0[k] in s0;
      } else {
        match ts.resolve(key) {
          case None => found, md := false, 0;
          case Some(value) =>
            md := value;
            Remember(Payload(key, value));
        }
      }
      LruStepKeeps(s0, Remembered(), payloads.Length, key, ts);
    }

    /** A hit. */
    method Touch(idx: int, key: Key) returns (ghost k: int)
      requires Valid() && InChain(chains, Head(key) - payloads.Length, idx) && 0 <= idx < payloads.Length && payloads[idx].key == key
      modifies this`chains, this`order, entries, entriesMRU
      ensures Valid() && LruModel.Holds(old(Remembered()), k, key) && old(Remembered())[k] == payloads[idx]
      ensures Remembered() == Promoted(old(Remembered()), k)
    {
      ghost var s0 := Remembered();
      ghost var h := Head(key) - payloads.Length;
      OrderUnique(entriesMRU[..], payloads.Length, order);
      AllVisited(order, payloads.Length, idx);
      k :| 0 <= k < |order| && order[k] == idx;
      assert Chained(chains, idx);
      ChainUnique(entries[..], payloads.Length, chains);
      UsePromoted(payloads[..], chains, order, used, crc, h, k);
      MoveToTop(Head(key), idx);
      PromotedUnique(s0, k);
    }

    /** A miss: take the entry at the end of the MRU ring, whatever chain it is in. */
    method Remember(p: Payload)
      requires Valid() && !Cached(Remembered(), p.key)
      modifies this`chains, this`order, this`used, entries, entriesMRU, payloads
      ensures Valid() && Remembered() == Admitted(old(Remembered()), payloads.Length, p)
    {
      ghost var s0 := Remembered();
      var n := payloads.Length;
      var idx := GetNewEntry();
      OrderUnique(entriesMRU[..], n, order);
      ChainUnique(entries[..], n, chains);
      UseAdmitted(payloads[..], chains, order, used, crc, Head(p.key) - n, p);
      AdmittedUnique(s0, n, p);
      ghost var ps, cs, os := payloads[..], chains, order;
      payloads[idx] := p;
      assert payloads[..] == ps[idx := p];
      MoveToTop(Head(p.key), idx);
      used := if used < n then used + 1 else used;
      assert chains == MovedTo(cs, Head(p.key) - n, idx) && order == [idx] + Minus(os, idx) && payloads[..] == ps[idx := p];
      assert UseOk(payloads[..], chains, order, used, crc);
    }

    method GetNewEntry() returns (idx: int)
      requires 0 < payloads.Length && MruOk(entriesMRU[..], payloads.Length, order)
      ensures idx == order[payloads.Length - 1]
    {
      ghost var n := payloads.Length;
      ghost var r := [n] + order;
      assert Joined(entriesMRU[..], r, n);
      assert r[n] == order[n - 1] && Succ(n, |r|) == 0;
      idx := entriesMRU[entriesMRU.Length - 1].prev;
    }
  }

  lemma PromotedUnique(s: seq<Payload>, i: int)
    requires Unique(s) && 0 <= i < |s|
    ensures Unique(Promoted(s, i))
  {
    var t := Promoted(s, i);
    forall a, b | 0 <= a < b < |t| ensures t[a].key != t[b].key {
      assert t[a] == s[Before(a, i)] && t[b] == s[Before(b, i)];
    }
  }

  lemma AdmittedUnique(s: seq<Payload>, capacity: nat, p: Payload)
    requires Unique(s) && !Cached(s, p.key)
    ensures Unique(Admitted(s, capacity, p))
  {
    forall i | 0 <= i < |s| ensures s[i].key != p.key {
      assert !LruModel.Holds(s, i, p.key);
    }
  }

  lemma EmptyChains(entries: seq<Link>, n: int, chains: seq<seq<int>>)
    requires 0 <= n && |entries| == n + |chains| && (forall i :: 0 <= i < |entries| ==> entries[i] == Link(i, i))
    requires forall h :: 0 <= h < |chains| ==> chains[h] == []
    ensures ChainsOk(entries, n, chains)
  {
    forall h | 0 <= h < |chains| ensures Ring(entries, Chain(n, chains, h)) {
      Lone(entries, n + h);
      assert Chain(n, chains, h) == [n + h];
    }
  }

  lemma FullRing(mru: seq<Link>, n: int, order: seq<int>)
    requires 0 < n && |mru| == n + 1 && |order| == n && (forall i :: 0 <= i < n ==> order[i] == i)
    requires forall i :: 0 <= i <= n ==> mru[i] == Link(if i == n then 0 else i + 1, if i == 0 then n else i - 1)
    ensures MruOk(mru, n, order)
  {
    var r := [n] + order;
    forall k | 0 <= k < |r| ensures 0 <= r[k] < |mru| && r[k] == if k == 0 then n else k - 1 { }
    forall k | 0 <= k < |r| ensures Joined(mru, r, k) {
      var j := Succ(k, |r|);
      assert r[j] == if j == 0 then n else j - 1;
    }
  }
}
