/** Circular lists of array indices, linked by 16-bit indices in both directions. */
module Rings {
  import opened Sequences

  datatype Link = Link(next: int, prev: int)

  function Succ(k: int, n: int): int {
    if k + 1 == n then 0 else k + 1
  }

  /** Position k of the ring and the position behind it point at each other. */
  ghost predicate Joined(links: seq<Link>, r: seq<int>, k: int)
    requires 0 <= k < |r| && forall i :: 0 <= i < |r| ==> 0 <= r[i] < |links|
  {
    links[r[k]].next == r[Succ(k, |r|)] && links[r[Succ(k, |r|)]].prev == r[k]
  }

  /** The indices in r form a ring, in this order. */
  ghost predicate Ring(links: seq<Link>, r: seq<int>) {
    && 1 <= |r| && NoneTwice(r) && (forall i :: 0 <= i < |r| ==> 0 <= r[i] < |links|)
    && (forall k :: 0 <= k < |r| ==> Joined(links, r, k))
  }

  /** Links of other indices do not matter. */
  lemma RingFrame(links: seq<Link>, links': seq<Link>, r: seq<int>)
    requires Ring(links, r) && |links'| == |links| && forall i :: i in r ==> links'[i] == links[i]
    ensures Ring(links', r)
  {
    forall k | 0 <= k < |r| ensures Joined(links', r, k) {
      assert Joined(links, r, k) && r[k] in r && r[Succ(k, |r|)] in r;
    }
  }

  /** The neighbours of position i are linked to each other. */
  ghost predicate Bridged(links: seq<Link>, links': seq<Link>, next: int, prev: int) {
    && 0 <= next < |links| && 0 <= prev < |links|
    && links' == links[next := links[next].(prev := prev)][prev := links[next := links[next].(prev := prev)][prev].(next := next)]
  }

  lemma RingUnlink(links: seq<Link>, links': seq<Link>, r: seq<int>, i: int)
    requires Ring(links, r) && 0 < i < |r|
    requires Bridged(links, links', links[r[i]].next, links[r[i]].prev)
    ensures Ring(links', r[..i] + r[i + 1..])
  {
    var n := |r|;
    var r' := r[..i] + r[i + 1..];
    assert Joined(links, r, i) && Joined(links, r, i - 1);
    assert links[r[i]].prev == r[i - 1] && links[r[i]].next == r[Succ(i, n)];
    forall k | 0 <= k < |r'| ensures 0 <= r'[k] < |links'| && r'[k] == r[if k < i then k else k + 1] { }
    forall k | 0 <= k < |r'| ensures Joined(links', r', k) {
      var a := if k < i then k else k + 1;
      var b := if k == i - 1 then Succ(i, n) else Succ(a, n);
      assert r'[k] == r[a] && r'[Succ(k, n - 1)] == r[b];
      assert Joined(links, r, a);
    }
  }

  /** idx is linked in behind the head of the ring. */
  ghost predicate Hooked(links: seq<Link>, links': seq<Link>, slot: int, idx: int, next: int) {
    && |links'| == |links| && 0 <= slot < |links| && 0 <= idx < |links| && 0 <= next < |links|
    && links'[idx] == Link(next, slot)
    && links'[slot].next == idx && links'[next].prev == idx
    && (slot != next ==> links'[slot].prev == links[slot].prev && links'[next].next == links[next].next)
    && (forall i :: 0 <= i < |links| && i != idx && i != slot && i != next ==> links'[i] == links[i])
  }

  lemma RingInsert(links: seq<Link>, links': seq<Link>, r: seq<int>, idx: int)
    requires Ring(links, r) && idx !in r && 0 <= idx < |links|
    requires Hooked(links, links', r[0], idx, links[r[0]].next)
    ensures Ring(links', [r[0], idx] + r[1..])
  {
    var n := |r|;
    var r' := [r[0], idx] + r[1..];
    assert Joined(links, r, 0);
    assert links[r[0]].next == r[Succ(0, n)];
    forall k | 0 <= k < |r'| ensures r'[k] == if k == 0 then r[0] else if k == 1 then idx else r[k - 1] { }
    forall a, b | 0 <= a < b < |r'| ensures r'[a] != r'[b] {
      assert forall k :: 0 <= k < n ==> r[k] in r;
    }
    forall k | 0 <= k < |r'| ensures Joined(links', r', k) {
      if k >= 2 {
        assert Joined(links, r, k - 1);
        assert r'[Succ(k, n + 1)] == r[Succ(k - 1, n)];
      }
    }
  }

  /** An index that is linked to itself is a ring of its own. */
  lemma Lone(links: seq<Link>, i: int)
    requires 0 <= i < |links|
    ensures Ring(links, [i]) <==> links[i] == Link(i, i)
  {
    if links[i] == Link(i, i) {
      assert Joined(links, [i], 0);
    }
    if Ring(links, [i]) {
      assert Joined(links, [i], 0);
    }
  }

  /** The ring of slot after idx, which may be in it already, has moved behind slot. */
  function OnTop(r: seq<int>, idx: int): seq<int>
    requires r != []
  {
    [r[0], idx] + Minus(r[1..], idx)
  }

  /** Where an entry may be before it is moved: in the ring a of the slot, or in another ring c behind its
      first element, or alone. */
  ghost predicate Movable(links: seq<Link>, a: seq<int>, c: seq<int>, idx: int) {
    && Ring(links, a) && a[0] != idx && 0 <= idx < |links|
    && (idx in a || (Ring(links, c) && idx in c && (forall x :: x in c ==> x !in a) && (c[0] != idx || c == [idx])))
  }

  lemma TailMinus(r: seq<int>, i: int)
    requires NoneTwice(r) && 0 < i < |r|
    ensures [r[0]] + Minus(r[1..], r[i]) == r[..i] + r[i + 1..]
  {
    var t := r[1..];
    MinusCut(t, i - 1);
    assert t[i - 1] == r[i];
    assert r[..i] == [r[0]] + t[..i - 1];
    assert r[i + 1..] == t[i..];
  }

  lemma NeighboursIn(links: seq<Link>, r: seq<int>, i: int)
    requires Ring(links, r) && 0 <= i < |r|
    ensures links[r[i]].next in r && links[r[i]].prev in r
    ensures 0 <= links[r[i]].next < |links| && 0 <= links[r[i]].prev < |links|
  {
    assert Joined(links, r, i);
    var j := if i == 0 then |r| - 1 else i - 1;
    assert Joined(links, r, j) && Succ(j, |r|) == i;
  }

  lemma HomeRing(links: seq<Link>, a: seq<int>, c: seq<int>, idx: int) returns (r: seq<int>, i: int)
    requires Movable(links, a, c, idx)
    ensures r == (if idx in a then a else c) && 0 <= i < |r| && r[i] == idx && Ring(links, r) && (i == 0 ==> r == [idx] && idx !in a)
    ensures links[idx].next in r && links[idx].prev in r
    ensures 0 <= links[idx].next < |links| && 0 <= links[idx].prev < |links|
  {
    r := if idx in a then a else c;
    i :| 0 <= i < |r| && r[i] == idx;
    NeighboursIn(links, r, i);
  }

  lemma UnlinkedFrom(s: seq<Link>, s1: seq<Link>, r: seq<int>, i: int)
    requires Ring(s, r) && 0 < i < |r| && Bridged(s, s1, s[r[i]].next, s[r[i]].prev)
    ensures Ring(s1, [r[0]] + Minus(r[1..], r[i])) && r[i] !in [r[0]] + Minus(r[1..], r[i])
    ensures forall x :: 0 <= x < |s| && x !in r ==> s1[x] == s[x]
  {
    NeighboursIn(s, r, i);
    RingUnlink(s, s1, r, i);
    var t := r[..i] + r[i + 1..];
    assert [r[0]] + Minus(r[1..], r[i]) == t && r[i] !in t by {
      TailMinus(r, i);
      CutAt(r, t, i);
    }
  }

  /** After the unlinking the entry is in neither ring. */
  lemma Unlinked(s: seq<Link>, s1: seq<Link>, a: seq<int>, c: seq<int>, idx: int)
    requires Movable(s, a, c, idx) && Bridged(s, s1, s[idx].next, s[idx].prev)
    ensures Ring(s1, [a[0]] + Minus(a[1..], idx)) && idx !in [a[0]] + Minus(a[1..], idx)
    ensures idx !in a && c != [idx] ==> Ring(s1, [c[0]] + Minus(c[1..], idx))
    ensures forall i :: 0 <= i < |s| && i !in (if idx in a then a else c) ==> s1[i] == s[i]
  {
    var r, i := HomeRing(s, a, c, idx);
    if i > 0 {
      UnlinkedFrom(s, s1, r, i);
    } else {
      assert r == [idx];
      LoneBridged(s, s1, idx);
    }
    if idx !in a {
      KeptRing(s, s1, a, c, idx);
    }
  }

  /** Unlinking an entry that is alone changes nothing. */
  lemma LoneBridged(s: seq<Link>, s1: seq<Link>, idx: int)
    requires 0 <= idx < |s| && Ring(s, [idx]) && Bridged(s, s1, s[idx].next, s[idx].prev)
    ensures s1 == s
  {
    Lone(s, idx);
  }

  lemma KeptRing(s: seq<Link>, s1: seq<Link>, a: seq<int>, c: seq<int>, idx: int)
    requires Ring(s, a) && idx !in a && |s1| == |s| && (forall x :: x in c ==> x !in a)
    requires forall i :: 0 <= i < |s| && i !in c ==> s1[i] == s[i]
    ensures Ring(s1, [a[0]] + Minus(a[1..], idx)) && idx !in [a[0]] + Minus(a[1..], idx)
  {
    MinusNone(a[1..], idx);
    assert [a[0]] + a[1..] == a;
    forall x | x in a ensures 0 <= x < |s| && s1[x] == s[x] {
      var k :| 0 <= k < |a| && a[k] == x;
    }
    RingFrame(s, s1, a);
  }

  /** VirtualMethodTable::MoveEntryToTop. */
  method MoveEntryToTop(entries: array<Link>, slot: int, idx: int, ghost a: seq<int>, ghost c: seq<int>)
    requires Movable(entries[..], a, c, idx) && a[0] == slot
    modifies entries
    ensures Ring(entries[..], OnTop(a, idx))
    ensures idx !in a && c != [idx] ==> Ring(entries[..], [c[0]] + Minus(c[1..], idx))
    ensures forall i :: 0 <= i < entries.Length && i !in a && (idx in a || i !in c) ==> entries[i] == old(entries[i])
  {
    ghost var s := entries[..];
    assert Joined(s, a, 0);
    if entries[slot].next != idx {
      UnlinkEntry(entries, idx, a, c);
      ghost var s1 := entries[..];
      ghost var a1 := [slot] + Minus(a[1..], idx);
      HookIn(entries, slot, idx, a1);
      assert [slot, idx] + a1[1..] == OnTop(a, idx);
      KeepRest(s1, entries[..], a, c, idx);
    } else {
      AlreadyOnTop(s, a, c, idx);
    }
  }

  /** The unlinking half: the neighbours of idx are linked to each other. */
  method UnlinkEntry(entries: array<Link>, idx: int, ghost a: seq<int>, ghost c: seq<int>)
    requires Movable(entries[..], a, c, idx)
    modifies entries
    ensures Ring(entries[..], [a[0]] + Minus(a[1..], idx)) && idx !in [a[0]] + Minus(a[1..], idx)
    ensures idx !in a && c != [idx] ==> Ring(entries[..], [c[0]] + Minus(c[1..], idx))
    ensures forall i :: 0 <= i < entries.Length && i !in (if idx in a then a else c) ==> entries[i] == old(entries[i])
  {
    ghost var s := entries[..];
    ghost var r, k := HomeRing(s, a, c, idx);
    var next, prev := entries[idx].next, entries[idx].prev;
    entries[next] := entries[next].(prev := prev);
    entries[prev] := entries[prev].(next := next);
    Unlinked(s, entries[..], a, c, idx);
  }

  /** Insert idx behind the head of the ring a. */
  method HookIn(entries: array<Link>, slot: int, idx: int, ghost a: seq<int>)
    requires Ring(entries[..], a) && a[0] == slot && idx !in a && 0 <= idx < entries.Length
    modifies entries
    ensures Ring(entries[..], [slot, idx] + a[1..])
    ensures forall i :: 0 <= i < entries.Length && i !in a && i != idx ==> entries[i] == old(entries[i])
  {
    ghost var s := entries[..];
    NeighboursIn(s, a, 0);
    assert slot in a;
    var next := entries[slot].next;
    entries[idx] := Link(next, slot);
    entries[slot] := entries[slot].(next := idx);
    entries[next] := entries[next].(prev := idx);
    RingInsert(s, entries[..], a, idx);
  }

  lemma KeepRest(s1: seq<Link>, s2: seq<Link>, a: seq<int>, c: seq<int>, idx: int)
    requires 1 <= |a| && NoneTwice(a[1..]) && |s2| == |s1|
    requires idx in a || (1 <= |c| && NoneTwice(c) && idx in c && forall x :: x in c ==> x !in a)
    requires forall i :: 0 <= i < |s1| && i !in [a[0]] + Minus(a[1..], idx) && i != idx ==> s2[i] == s1[i]
    requires idx !in a && c != [idx] ==> c[0] != idx && Ring(s1, [c[0]] + Minus(c[1..], idx))
    ensures idx !in a && c != [idx] ==> Ring(s2, [c[0]] + Minus(c[1..], idx))
    ensures forall i :: 0 <= i < |s1| && i !in a && i != idx ==> s2[i] == s1[i]
  {
    MinusMembers(a[1..], idx);
    forall i | 0 <= i < |s1| && i !in a && i != idx ensures s2[i] == s1[i] {
      assert i !in [a[0]] + Minus(a[1..], idx);
    }
    if idx !in a && c != [idx] {
      MinusMembers(c[1..], idx);
      var c' := [c[0]] + Minus(c[1..], idx);
      forall i | i in c' ensures i in c && i != idx { }
      RingFrame(s1, s2, c');
    }
  }

  /** Nothing to do: the entry is right behind the slot. */
  lemma AlreadyOnTop(s: seq<Link>, a: seq<int>, c: seq<int>, idx: int)
    requires Movable(s, a, c, idx) && s[a[0]].next == idx
    ensures idx in a && Ring(s, OnTop(a, idx))
  {
    assert Joined(s, a, 0);
    assert a[Succ(0, |a|)] == idx;
    assert OnTop(a, idx) == a;
  }
}
