/** Sequences without repetitions, and powers of two. */
module Sequences {

  ghost predicate NoneTwice<T>(s: seq<T>) {
    forall a, b :: 0 <= a < b < |s| ==> s[a] != s[b]
  }

  /** The first occurrence of x is taken out. */
  function Minus<T(==)>(s: seq<T>, x: T): seq<T> {
    if s == [] then [] else if s[0] == x then s[1..] else [s[0]] + Minus(s[1..], x)
  }

  lemma {:induction false} MinusNone<T>(s: seq<T>, x: T)
    requires x !in s
    ensures Minus(s, x) == s
  {
    if s != [] {
      MinusNone(s[1..], x);
      assert s == [s[0]] + s[1..];
    }
  }

  /** Taking an element out closes the gap. */
  lemma {:induction false} MinusCut<T>(s: seq<T>, i: int)
    requires NoneTwice(s) && 0 <= i < |s|
    ensures Minus(s, s[i]) == s[..i] + s[i + 1..]
  {
    if i > 0 {
      var t := s[1..];
      MinusCut(t, i - 1);
      assert t[i - 1] == s[i] && s[0] != s[i];
      assert s[..i] == [s[0]] + t[..i - 1];
      assert s[i + 1..] == t[i..];
    }
  }

  /** At most one element is taken out, whether or not others are equal to it. */
  lemma {:induction false} MinusFrom<T>(s: seq<T>, x: T)
    ensures forall y :: y in Minus(s, x) ==> y in s
    ensures |Minus(s, x)| == if x in s then |s| - 1 else |s|
  {
    if s != [] && s[0] != x { MinusFrom(s[1..], x); }
  }

  lemma {:induction false} OnceIn<T>(s: seq<T>, x: T)
    requires NoneTwice(s)
    ensures multiset(s)[x] == if x in s then 1 else 0
  {
    if s != [] {
      assert s == [s[0]] + s[1..];
      assert forall k :: 0 <= k < |s| - 1 ==> s[1..][k] == s[k + 1];
      OnceIn(s[1..], x);
    }
  }

  /** The elements left over, by position. */
  lemma CutAt<T>(s: seq<T>, t: seq<T>, i: int)
    requires NoneTwice(s) && 0 <= i < |s| && t == s[..i] + s[i + 1..]
    ensures |t| == |s| - 1 && forall k :: 0 <= k < |t| ==> t[k] == s[if k < i then k else k + 1]
    ensures NoneTwice(t)
    ensures forall y :: y in t <==> y in s && y != s[i]
  {
    var n := |t|;
    forall k | 0 <= k < n ensures t[k] == s[if k < i then k else k + 1] { }
    forall y | y in s && y != s[i] ensures y in t {
      var k :| 0 <= k < |s| && s[k] == y;
      assert t[if k < i then k else k - 1] == y;
    }
  }

  lemma MinusMembers<T>(s: seq<T>, x: T)
    requires NoneTwice(s)
    ensures forall y :: y in Minus(s, x) <==> y in s && y != x
    ensures NoneTwice(Minus(s, x))
  {
    if x in s {
      var i :| 0 <= i < |s| && s[i] == x;
      MinusCut(s, i);
      CutAt(s, Minus(s, x), i);
    } else {
      MinusNone(s, x);
    }
  }

  function Pow2(n: nat): (r: nat)
    ensures 1 <= r
  {
    if n == 0 then 1 else 2 * Pow2(n - 1)
  }

  /** The quotient and the remainder of a division. */
  lemma DivisionUnique(x: int, d: int, q: int, r: int)
    requires x == d * q + r && 0 <= r < d
    ensures x / d == q
  {
    var e := q - x / d;
    assert d * e == x % d - r;
    assert e >= 1 ==> d * e >= d;
    assert e <= -1 ==> d * e <= -d;
  }

  /** To divide by a power of two, halve first. */
  lemma HalvedFirst(x: int, k: nat)
    ensures x / 2 / Pow2(k) == x / Pow2(k + 1)
  {
    var p, h := Pow2(k), x / 2;
    var q, r := h / p, h % p;
    assert x == 2 * p * q + (2 * r + x % 2) by {
      assert h == p * q + r;
      assert 2 * (p * q) == 2 * p * q;
    }
    DivisionUnique(x, 2 * p, q, 2 * r + x % 2);
  }
}
