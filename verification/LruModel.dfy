/** What a method cache is meant to do: remember resolved virtual methods in most-recently-used order, and
    forget the least recently used one when it is full. */
module LruModel {
  import opened Sequences

  /** The question: which implementation does class cls have for the virtual method mdVirtual? */
  datatype Key = Key(mdVirtual: int, cls: int)
  datatype Payload = Payload(key: Key, md: int)

  datatype Option<T> = None | Some(value: T)

  /** The uncached lookup, and which class declares a method. */
  datatype TypeSystem = TypeSystem(resolve: Key -> Option<int>, owner: int -> int, isAbstract: int -> bool)

  /** A method is its own implementation in the class that declares it. */
  ghost predicate Terminal(ts: TypeSystem) {
    forall k: Key :: ts.owner(k.mdVirtual) == k.cls ==> ts.resolve(k) == Some(k.mdVirtual)
  }

  ghost predicate Holds(s: seq<Payload>, i: int, key: Key) {
    0 <= i < |s| && s[i].key == key
  }

  ghost predicate Cached(s: seq<Payload>, key: Key) {
    exists i :: Holds(s, i, key)
  }

  /** No key twice. */
  ghost predicate Unique(s: seq<Payload>) {
    forall i, j :: 0 <= i < j < |s| ==> s[i].key != s[j].key
  }

  /** Every remembered answer is the one that the uncached lookup gives. */
  ghost predicate Coherent(s: seq<Payload>, ts: TypeSystem) {
    forall p :: p in s ==> ts.resolve(p.key) == Some(p.md)
  }

  /** The entry at i moves to the front. */
  function Promoted(s: seq<Payload>, i: int): seq<Payload>
    requires 0 <= i < |s|
  {
    [s[i]] + s[..i] + s[i + 1..]
  }

  /** A new entry comes in at the front; when the cache is full the last one goes. */
  function Admitted(s: seq<Payload>, capacity: nat, p: Payload): seq<Payload> {
    if |s| < capacity then [p] + s
    else if s == [] then s
    else [p] + s[..|s| - 1]
  }

  /** What one lookup does to the remembered entries, unless a shortcut answers it. */
  ghost predicate LruStep(s: seq<Payload>, s': seq<Payload>, capacity: nat, key: Key, ts: TypeSystem) {
    if Cached(s, key) then exists i :: Holds(s, i, key) && s' == Promoted(s, i)
    else match ts.resolve(key)
      case None => s' == s
      case Some(md) => s' == Admitted(s, capacity, Payload(key, md))
  }

  /** A lookup keeps the cache coherent and its keys unique. */
  lemma LruStepKeeps(s: seq<Payload>, s': seq<Payload>, capacity: nat, key: Key, ts: TypeSystem)
    requires LruStep(s, s', capacity, key, ts) && Unique(s) && Coherent(s, ts)
    ensures Unique(s') && Coherent(s', ts)
    ensures |s| <= capacity ==> |s'| <= capacity
  {
    if Cached(s, key) {
      var i :| Holds(s, i, key) && s' == Promoted(s, i);
      PromotedKeeps(s, i, ts);
    } else if ts.resolve(key).Some? {
      forall a | 0 <= a < |s| ensures s[a].key != key {
        assert !Holds(s, a, key);
      }
    }
  }

  lemma PromotedKeeps(s: seq<Payload>, i: int, ts: TypeSystem)
    requires 0 <= i < |s| && Unique(s) && Coherent(s, ts)
    ensures Unique(Promoted(s, i)) && Coherent(Promoted(s, i), ts) && |Promoted(s, i)| == |s|
  {
    var s' := Promoted(s, i);
    FrontAt(s, i);
    forall a, b | 0 <= a < b < |s'| ensures s'[a].key != s'[b].key {
      assert Before(a, i) != Before(b, i);
    }
    forall p | p in s' ensures ts.resolve(p.key) == Some(p.md) {
      var a :| 0 <= a < |s'| && s'[a] == p;
      assert s[Before(a, i)] in s;
    }
  }

  // ---------- Runs ----------

  function Keys(s: seq<Payload>): seq<Key> {
    seq(|s|, i requires 0 <= i < |s| => s[i].key)
  }

  /** The keys of a history, each once, the one asked for last in front. */
  function ByRecency(history: seq<Key>): seq<Key> {
    if history == [] then []
    else var k := history[|history| - 1]; [k] + Minus(ByRecency(history[..|history| - 1]), k)
  }

  function Take(s: seq<Key>, n: nat): seq<Key> {
    if |s| <= n then s else s[..n]
  }

  /** What one call does to the remembered entries: nothing if a shortcut answers it. */
  ghost predicate CallStep(s: seq<Payload>, s': seq<Payload>, capacity: nat, key: Key, shortcut: bool, ts: TypeSystem) {
    if shortcut then s' == s else LruStep(s, s', capacity, key, ts)
  }

  /** What one call does, written out. */
  lemma CallWrittenOut(s: seq<Payload>, s': seq<Payload>, capacity: nat, key: Key, shortcut: bool, ts: TypeSystem)
    requires CallStep(s, s', capacity, key, shortcut, ts) && Unique(s) && |s| <= capacity && Coherent(s, ts)
    ensures shortcut || ts.resolve(key).None? ==> s' == s
    ensures !shortcut ==> forall i :: 0 <= i < |s| && s[i].key == key ==> s' == [s[i]] + s[..i] + s[i + 1..]
    ensures !shortcut && ts.resolve(key).Some? && 0 < capacity && (forall i :: 0 <= i < |s| ==> s[i].key != key) ==>
      s' == [Payload(key, ts.resolve(key).value)] + if |s| < capacity then s else s[..|s| - 1]
  {
    if ts.resolve(key).None? {
      forall i ensures !Holds(s, i, key) { assert 0 <= i < |s| ==> s[i] in s; }
    }
    assert forall i :: 0 <= i < |s| && s[i].key == key ==> Holds(s, i, key);
  }

  /** The keys that count: those that no shortcut answers and that name a method. */
  function AskedAfter(asked: seq<Key>, key: Key, shortcut: bool, ts: TypeSystem): seq<Key> {
    if shortcut || ts.resolve(key).None? then asked else asked + [key]
  }

  function Asked(keys: seq<Key>, shortcut: Key -> bool, ts: TypeSystem): seq<Key> {
    if keys == [] then []
    else var k := keys[|keys| - 1]; AskedAfter(Asked(keys[..|keys| - 1], shortcut, ts), k, shortcut(k), ts)
  }

  /** A run of calls from the empty cache. */
  ghost predicate Run(states: seq<seq<Payload>>, keys: seq<Key>, shortcut: Key -> bool, capacity: nat, ts: TypeSystem) {
    && |states| == |keys| + 1 && states[0] == []
    && (forall i :: 0 <= i < |keys| ==> CallStep(states[i], states[i + 1], capacity, keys[i], shortcut(keys[i]), ts))
  }

  lemma {:induction false} RecencyUnique(history: seq<Key>)
    ensures NoneTwice(ByRecency(history))
  {
    if history != [] {
      var h := history[..|history| - 1];
      RecencyUnique(h);
      var k := history[|history| - 1];
      MinusMembers(ByRecency(h), k);
      var rest := Minus(ByRecency(h), k);
      forall i | 0 <= i < |rest| ensures rest[i] != k {
        assert rest[i] in rest;
      }
    }
  }

  /** Of two keys the one in front is the one that was asked for after the other one for the last time; and
      every key that was asked for is there. */
  lemma {:induction false} RecencyIs(history: seq<Key>)
    ensures forall k :: k in ByRecency(history) <==> k in history
    ensures forall i, j :: 0 <= i < j < |ByRecency(history)| ==> AskedLater(history, ByRecency(history)[i], ByRecency(history)[j])
  {
    if history != [] {
      var h, k := history[..|history| - 1], history[|history| - 1];
      RecencyIs(h);
      RecencyUnique(h);
      var r := ByRecency(h);
      MinusMembers(r, k);
      assert history == h + [k];
      var rest := Minus(r, k);
      assert ByRecency(history) == [k] + rest;
      forall i, j | 0 <= i < j < |rest| + 1 ensures AskedLater(history, ([k] + rest)[i], ([k] + rest)[j]) {
        assert rest[j - 1] in rest;
        if i == 0 {
          assert history[|history| - 1] == k;
        } else {
          RestLater(h, r, k, i - 1, j - 1);
        }
      }
    }
  }

  /** Some time k was asked for, and k2 not since. */
  ghost predicate AskedLater(history: seq<Key>, k: Key, k2: Key) {
    exists x :: 0 <= x < |history| && history[x] == k && forall y :: x <= y < |history| ==> history[y] != k2
  }

  lemma RestLater(h: seq<Key>, r: seq<Key>, k: Key, i: int, j: int)
    requires NoneTwice(r) && 0 <= i < j < |Minus(r, k)|
    requires forall a, b :: 0 <= a < b < |r| ==> AskedLater(h, r[a], r[b])
    ensures AskedLater(h + [k], Minus(r, k)[i], Minus(r, k)[j])
  {
    var a, b := RestAt(r, k, i, j);
    LaterStill(h, k, r[a], r[b]);
  }

  /** Where two of the keys that are left over were. */
  lemma RestAt(r: seq<Key>, k: Key, i: int, j: int) returns (a: int, b: int)
    requires NoneTwice(r) && 0 <= i < j < |Minus(r, k)|
    ensures 0 <= a < b < |r| && r[a] == Minus(r, k)[i] && r[b] == Minus(r, k)[j] && r[b] != k
  {
    a, b := i, j;
    if k in r {
      var c :| 0 <= c < |r| && r[c] == k;
      MinusCut(r, c);
      a, b := if i < c then i else i + 1, if j < c then j else j + 1;
    } else {
      MinusNone(r, k);
    }
  }

  lemma LaterStill(h: seq<Key>, k: Key, p: Key, q: Key)
    requires AskedLater(h, p, q) && q != k
    ensures AskedLater(h + [k], p, q)
  {
    var x :| 0 <= x < |h| && h[x] == p && forall y :: x <= y < |h| ==> h[y] != q;
    assert (h + [k])[x] == p;
  }

  /** The cache holds exactly the keys that were asked for most recently, as many as fit, in order. */
  ghost predicate Recent(s: seq<Payload>, asked: seq<Key>, capacity: nat) {
    Keys(s) == Take(ByRecency(asked), capacity)
  }

  /** A call keeps it so; a lookup that fails, and one that a shortcut answers, do not count. */
  lemma CallRecency(s: seq<Payload>, s': seq<Payload>, capacity: nat, key: Key, shortcut: bool, ts: TypeSystem,
          asked: seq<Key>)
    requires CallStep(s, s', capacity, key, shortcut, ts) && Coherent(s, ts) && Recent(s, asked, capacity)
    ensures Recent(s', AskedAfter(asked, key, shortcut, ts), capacity)
  {
    if !shortcut {
      if ts.resolve(key).None? {
        forall i ensures !Holds(s, i, key) {
          assert 0 <= i < |s| ==> s[i] in s;
        }
      } else {
        var asked' := asked + [key];
        assert asked'[..|asked'| - 1] == asked;
        RecencyUnique(asked);
        RecencyStep(s, s', capacity, key, ts, ByRecency(asked));
      }
    }
  }

  /** Over any run of calls: what the cache evicts is always the least recently used entry. */
  lemma {:induction false} RunIsRecency(states: seq<seq<Payload>>, keys: seq<Key>, shortcut: Key -> bool,
          capacity: nat, ts: TypeSystem, n: nat)
    requires Run(states, keys, shortcut, capacity, ts) && n <= |keys|
    ensures Unique(states[n]) && Coherent(states[n], ts) && |states[n]| <= capacity
    ensures Recent(states[n], Asked(keys[..n], shortcut, ts), capacity)
  {
    if n > 0 {
      var k := keys[n - 1];
      RunIsRecency(states, keys, shortcut, capacity, ts, n - 1);
      assert CallStep(states[n - 1], states[n - 1 + 1], capacity, k, shortcut(k), ts);
      if !shortcut(k) { LruStepKeeps(states[n - 1], states[n], capacity, k, ts); }
      CallRecency(states[n - 1], states[n], capacity, k, shortcut(k), ts, Asked(keys[..n - 1], shortcut, ts));
      assert keys[..n][..n - 1] == keys[..n - 1];
    }
  }

  lemma RecencyStep(s: seq<Payload>, s': seq<Payload>, capacity: nat, key: Key, ts: TypeSystem, recent: seq<Key>)
    requires LruStep(s, s', capacity, key, ts) && ts.resolve(key).Some?
    requires Keys(s) == Take(recent, capacity) && NoneTwice(recent)
    ensures Keys(s') == Take([key] + Minus(recent, key), capacity)
  {
    if Cached(s, key) {
      var i :| Holds(s, i, key) && s' == Promoted(s, i);
      PromotedRecency(s, capacity, i, recent);
    } else {
      forall i | 0 <= i < |s| ensures s[i].key != key {
        assert !Holds(s, i, key);
      }
      AdmittedRecency(s, capacity, Payload(key, ts.resolve(key).value), recent);
    }
  }

  /** Where the entry at j was before the one at i came to the front. */
  function Before(j: int, i: int): int {
    if j == 0 then i else if j <= i then j - 1 else j
  }

  lemma FrontAt<T>(s: seq<T>, i: int)
    requires 0 <= i < |s|
    ensures forall j :: 0 <= j < |s| ==> ([s[i]] + s[..i] + s[i + 1..])[j] == s[Before(j, i)]
  {
  }

  lemma PromotedRecency(s: seq<Payload>, capacity: nat, i: int, recent: seq<Key>)
    requires 0 <= i < |s| && Keys(s) == Take(recent, capacity) && NoneTwice(recent)
    ensures Keys(Promoted(s, i)) == Take([s[i].key] + Minus(recent, s[i].key), capacity)
  {
    assert Keys(s)[i] == recent[i] == s[i].key;
    MinusCut(recent, i);
    var front := [recent[i]] + recent[..i] + recent[i + 1..];
    assert front == [recent[i]] + Minus(recent, recent[i]);
    var a, b := Keys(Promoted(s, i)), Take(front, capacity);
    assert |a| == |b|;
    forall j | 0 <= j < |a| ensures a[j] == b[j] {
      assert a[j] == s[Before(j, i)].key by { FrontAt(s, i); }
      assert Keys(s)[Before(j, i)] == recent[Before(j, i)];
      assert front[j] == recent[Before(j, i)] by { FrontAt(recent, i); }
    }
  }

  lemma AdmittedRecency(s: seq<Payload>, capacity: nat, p: Payload, recent: seq<Key>)
    requires Keys(s) == Take(recent, capacity) && NoneTwice(recent)
    requires forall i :: 0 <= i < |s| ==> s[i].key != p.key
    ensures Keys(Admitted(s, capacity, p)) == Take([p.key] + Minus(recent, p.key), capacity)
  {
    forall i | 0 <= i < |s| ensures recent[i] == s[i].key {
      assert Keys(s)[i] == recent[i];
    }
    var rest := Minus(recent, p.key);
    assert |s| <= |rest| <= |recent| && rest[..|s|] == recent[..|s|] && (|s| == |recent| ==> rest == recent) by {
      HeadKept(recent, p.key, |s|);
    }
    var m := if |s| < capacity then |s| else |s| - 1;
    if m >= 0 {
      var a, b := Keys(Admitted(s, capacity, p)), Take([p.key] + rest, capacity);
      assert |a| == m + 1 == |b|;
      forall j | 0 <= j < |a| ensures a[j] == b[j] {
        if j > 0 {
          assert rest[..|s|][j - 1] == recent[..|s|][j - 1] == s[j - 1].key;
        }
      }
    }
  }

  lemma HeadKept(recent: seq<Key>, key: Key, n: nat)
    requires NoneTwice(recent) && n <= |recent| && forall i :: 0 <= i < n ==> recent[i] != key
    ensures n <= |Minus(recent, key)| <= |recent| && Minus(recent, key)[..n] == recent[..n]
    ensures n == |recent| ==> Minus(recent, key) == recent
  {
    if key in recent {
      var i :| 0 <= i < |recent| && recent[i] == key;
      MinusCut(recent, i);
    } else {
      MinusNone(recent, key);
    }
  }
}
