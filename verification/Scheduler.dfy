/** The ready queue: threads run in turn, ordered by a counter that every run lowers, so that no thread
    can be passed over for long. */
module Schedulers {
  import opened Sequences

  const SYSTEM_HIGHEST := 5

  /** priority is 0 (lowest) to SYSTEM_HIGHEST. */
  datatype Thread = Thread(id: int, priority: int, executionCounter: int)
  {
    /** GetExecutionCounter. */
    function Counter(): int { priority + executionCounter }

    /** GetQuantumDebit: what one run costs. */
    function Debit(): (d: int)
      ensures 1 <= d
    {
      Pow2(if priority <= SYSTEM_HIGHEST then SYSTEM_HIGHEST - priority else 0)
    }
  }

  /** m_threadsReady and m_GlobalExecutionCounter. */
  datatype State = State(ready: seq<Thread>, global: int)

  /** BringExecCounterToDate: a thread that was away for long does not keep all its credit. */
  function UpToDate(th: Thread, global: int): Thread {
    if th.executionCounter - global > Pow2(SYSTEM_HIGHEST) + 1
    then th.(executionCounter := global + Pow2(SYSTEM_HIGHEST) + 1)
    else th
  }

  /** The thread after one more run. */
  function Charged(th: Thread, global: int): Thread {
    var up := UpToDate(th, global);
    up.(executionCounter := up.executionCounter - th.Debit())
  }

  /** Put a thread before the first one with a smaller counter. */
  function Insert(ready: seq<Thread>, th: Thread): seq<Thread> {
    if ready == [] then [th]
    else if ready[0].Counter() < th.Counter() then [th] + ready
    else [ready[0]] + Insert(ready[1..], th)
  }

  /** One round of ScheduleThreads in which the first thread uses its quantum and stays ready. */
  function Step(s: State): State
    requires s.ready != []
  {
    var th := Charged(s.ready[0], s.global);
    State(Insert(s.ready[1..], th), if th.executionCounter < s.global then th.executionCounter else s.global)
  }

  ghost predicate Sorted(ready: seq<Thread>) {
    forall i, j :: 0 <= i < j < |ready| ==> ready[i].Counter() >= ready[j].Counter()
  }

  ghost predicate DistinctIds(ready: seq<Thread>) {
    forall i, j :: 0 <= i < j < |ready| ==> ready[i].id != ready[j].id
  }

  /** The thread comes after all that have at least its counter, and before all that have less. */
  lemma {:induction false} InsertPlace(ready: seq<Thread>, th: Thread) returns (i: int)
    requires Sorted(ready)
    ensures 0 <= i <= |ready| && Insert(ready, th) == ready[..i] + [th] + ready[i..]
    ensures forall j :: 0 <= j < |ready| ==> (j < i <==> ready[j].Counter() >= th.Counter())
  {
    if ready == [] || ready[0].Counter() < th.Counter() {
      i := 0;
      assert ready[..0] + [th] + ready[0..] == [th] + ready;
    } else {
      assert Sorted(ready[1..]);
      var k := InsertPlace(ready[1..], th);
      i := k + 1;
      assert ready[..i] == [ready[0]] + ready[1..][..k] && ready[i..] == ready[1..][k..];
      forall j | 0 <= j < |ready| ensures j < i <==> ready[j].Counter() >= th.Counter() {
        if j > 0 { assert ready[j] == ready[1..][j - 1]; }
      }
    }
  }

  lemma InsertKeepsSorted(ready: seq<Thread>, th: Thread)
    requires Sorted(ready)
    ensures Sorted(Insert(ready, th)) && multiset(Insert(ready, th)) == multiset(ready) + multiset{th}
  {
    var i := InsertPlace(ready, th);
    var r := ready[..i] + [th] + ready[i..];
    assert Sorted(r) by {
      forall j, k | 0 <= j < k < |r| ensures r[j].Counter() >= r[k].Counter() {
        var a, b := if j < i then j else j - 1, if k < i then k else k - 1;
        assert r[j] == if j == i then th else ready[a];
        assert r[k] == if k == i then th else ready[b];
      }
    }
    assert multiset(r) == multiset(ready) + multiset{th} by {
      assert ready == ready[..i] + ready[i..];
    }
  }

  lemma {:induction false} InsertBehind(ready: seq<Thread>, th: Thread, i: int)
    requires 0 <= i <= |ready| && forall j :: 0 <= j < i ==> ready[j].Counter() >= th.Counter()
    requires i < |ready| ==> ready[i].Counter() < th.Counter()
    ensures Insert(ready, th) == ready[..i] + [th] + ready[i..]
  {
    if i == 0 {
      assert ready[..0] + [th] + ready[0..] == [th] + ready;
    } else {
      var rest := ready[1..];
      InsertBehind(rest, th, i - 1);
      assert ready[0].Counter() >= th.Counter();
      assert ready[..i] == [ready[0]] + rest[..i - 1];
      assert ready[i..] == rest[i - 1..];
    }
  }

  /** Every round hands on a queue in order of the counters, with the same threads. */
  lemma StepKeepsSorted(s: State)
    requires s.ready != [] && Sorted(s.ready)
    ensures Sorted(Step(s).ready) && |Step(s).ready| == |s.ready|
    ensures Step(s).global <= s.global
  {
    InsertKeepsSorted(s.ready[1..], Charged(s.ready[0], s.global));
    InsertLength(s.ready[1..], Charged(s.ready[0], s.global));
  }

  lemma {:induction false} InsertLength(ready: seq<Thread>, th: Thread)
    ensures |Insert(ready, th)| == |ready| + 1
  {
    if ready != [] { InsertLength(ready[1..], th); }
  }

  // ---------- How long a thread can be passed over ----------

  /** How many steps of size d lead from gap to below zero. */
  function StepsBelow(gap: int, d: int): nat
    requires 1 <= d
    decreases if gap < 0 then 0 else gap + 1
  {
    if gap < 0 then 0 else 1 + StepsBelow(gap - d, d)
  }

  /** How many runs a thread gets before its counter is below c. */
  function Runs(th: Thread, c: int): nat {
    StepsBelow(th.Counter() - c, th.Debit())
  }

  /** The runs of all threads but x. */
  function Bound(ready: seq<Thread>, x: int, c: int): nat {
    if ready == [] then 0 else (if ready[0].id == x then 0 else Runs(ready[0], c)) + Bound(ready[1..], x, c)
  }

  lemma {:induction false} BoundConcat(a: seq<Thread>, b: seq<Thread>, x: int, c: int)
    ensures Bound(a + b, x, c) == Bound(a, x, c) + Bound(b, x, c)
  {
    if a == [] {
      assert a + b == b;
    } else {
      assert (a + b)[1..] == a[1..] + b;
      BoundConcat(a[1..], b, x, c);
    }
  }

  lemma BoundInsert(ready: seq<Thread>, th: Thread, x: int, c: int)
    requires Sorted(ready)
    ensures Bound(Insert(ready, th), x, c) == Bound(ready, x, c) + if th.id == x then 0 else Runs(th, c)
  {
    var i := InsertPlace(ready, th);
    BoundConcat(ready[..i], [th] + ready[i..], x, c);
    BoundConcat(ready[..i], ready[i..], x, c);
    assert ready == ready[..i] + ready[i..];
    assert ready[..i] + ([th] + ready[i..]) == Insert(ready, th);
    assert ([th] + ready[i..])[1..] == ready[i..];
  }

  lemma {:induction false} StepsBelowMonotone(a: int, b: int, d: int)
    requires 1 <= d && a <= b
    ensures StepsBelow(a, d) <= StepsBelow(b, d)
    decreases if b < 0 then 0 else b + 1
  {
    if b >= 0 { StepsBelowMonotone(a - d, b - d, d); }
  }

  /** A run costs a thread at least one of the runs it may have before c. */
  lemma ChargedRuns(th: Thread, global: int, c: int)
    requires th.Counter() >= c
    ensures Runs(Charged(th, global), c) <= Runs(th, c) - 1 && Charged(th, global).Counter() < th.Counter()
  {
    var th' := Charged(th, global);
    StepsBelowMonotone(th'.Counter() - c, th.Counter() - th.Debit() - c, th.Debit());
  }

  function Steps(s: State, n: nat): State
    requires s.ready != []
    ensures Steps(s, n).ready != []
    decreases n
  {
    if n == 0 then s
    else
      InsertLength(s.ready[1..], Charged(s.ready[0], s.global));
      Steps(Step(s), n - 1)
  }

  ghost predicate At(ready: seq<Thread>, i: int, x: Thread) {
    0 <= i < |ready| && ready[i] == x
  }

  /** While x does not run it keeps its counter, and every other thread that runs uses up one of the runs
      that it can have before x: so x runs after at most Bound rounds. */
  lemma {:induction false} BoundedBypass(s: State, x: Thread) returns (n: nat)
    requires Sorted(s.ready) && DistinctIds(s.ready) && exists i :: At(s.ready, i, x)
    ensures n <= Bound(s.ready, x.id, x.Counter()) && Steps(s, n).ready[0] == x
    decreases Bound(s.ready, x.id, x.Counter())
  {
    var i :| At(s.ready, i, x);
    if i == 0 {
      n := 0;
    } else {
      OtherRuns(s, x, i);
      var k := BoundedBypass(Step(s), x);
      n := k + 1;
    }
  }

  /** One round in which another thread than x is first. */
  lemma OtherRuns(s: State, x: Thread, i: int)
    requires Sorted(s.ready) && DistinctIds(s.ready) && At(s.ready, i, x) && 0 < i
    ensures Sorted(Step(s).ready) && DistinctIds(Step(s).ready) && exists j :: At(Step(s).ready, j, x)
    ensures Bound(Step(s).ready, x.id, x.Counter()) < Bound(s.ready, x.id, x.Counter())
  {
    var head, rest := s.ready[0], s.ready[1..];
    var th := Charged(head, s.global);
    assert head.Counter() >= x.Counter() && head.id != x.id;
    ChargedRuns(head, s.global, x.Counter());
    StepKeepsSorted(s);
    assert Sorted(rest) && DistinctIds(rest) && At(rest, i - 1, x);
    BoundInsert(rest, th, x.id, x.Counter());
    StaysIn(rest, th, x, i - 1);
  }

  lemma StaysIn(rest: seq<Thread>, th: Thread, x: Thread, i: int)
    requires Sorted(rest) && DistinctIds(rest) && At(rest, i, x) && forall j :: 0 <= j < |rest| ==> rest[j].id != th.id
    ensures DistinctIds(Insert(rest, th)) && exists j :: At(Insert(rest, th), j, x)
  {
    var k := InsertPlace(rest, th);
    StillDistinct(rest, th, k, rest[..k] + [th] + rest[k..]);
    assert At(Insert(rest, th), if i < k then i else i + 1, x);
  }

  lemma StillDistinct(rest: seq<Thread>, th: Thread, k: int, ready: seq<Thread>)
    requires DistinctIds(rest) && 0 <= k <= |rest| && ready == rest[..k] + [th] + rest[k..]
    requires forall j :: 0 <= j < |rest| ==> rest[j].id != th.id
    ensures DistinctIds(ready)
  {
    forall j | 0 <= j < |ready| ensures ready[j] == if j < k then rest[j] else if j == k then th else rest[j - 1] { }
  }

  // ---------- Shares ----------

  /** The highest priority pays 1 for a run, and each lower one twice as much. */
  lemma DebitTable(th: Thread)
    ensures th.priority == 5 ==> th.Debit() == 1
    ensures th.priority == 4 ==> th.Debit() == 2
    ensures th.priority == 3 ==> th.Debit() == 4
    ensures th.priority == 2 ==> th.Debit() == 8
    ensures th.priority == 1 ==> th.Debit() == 16
    ensures th.priority == 0 ==> th.Debit() == 32
    ensures Pow2(SYSTEM_HIGHEST) + 1 == 33
  {
    assert Pow2(1) == 2 && Pow2(2) == 4 && Pow2(3) == 8;
    assert Pow2(4) == 16 && Pow2(5) == 32;
  }

  /** All counters lie within b of the highest one, and the first thread has not been away for long. */
  ghost predicate Level(s: State, b: int) {
    && 32 <= b && s.ready != [] && Sorted(s.ready) && DistinctIds(s.ready)
    && (forall i :: 0 <= i < |s.ready| ==> 0 <= s.ready[i].priority <= 5)
    && (forall i :: 0 <= i < |s.ready| ==> s.ready[0].Counter() - s.ready[i].Counter() <= b)
    && s.ready[0].Counter() - s.global <= 33
  }

  /** The first thread is charged in full, and stays within 32 of its counter. */
  lemma FirstCharged(s: State, b: int)
    requires Level(s, b)
    ensures var head, th := s.ready[0], Charged(s.ready[0], s.global);
      && th.id == head.id && th.priority == head.priority && th.Counter() == head.Counter() - head.Debit()
      && head.Counter() - 32 <= th.executionCounter && th.Counter() <= head.Counter()
  {
    DebitTable(s.ready[0]);
  }

  /** A round keeps the counters together. */
  lemma LevelStep(s: State, b: int)
    requires Level(s, b)
    ensures Level(Step(s), b)
  {
    var head, rest, th := s.ready[0], s.ready[1..], Charged(s.ready[0], s.global);
    FirstCharged(s, b);
    StepKeepsSorted(s);
    var k := InsertPlace(rest, th);
    LevelKept(s.ready, Step(s).ready, k, th, b);
  }

  lemma LevelKept(ready: seq<Thread>, ready': seq<Thread>, k: int, th: Thread, b: int)
    requires ready != [] && Sorted(ready) && DistinctIds(ready) && 0 <= k < |ready| && 32 <= b
    requires ready' == ready[1..][..k] + [th] + ready[1..][k..]
    requires th.id == ready[0].id && th.priority == ready[0].priority && ready[0].Counter() - 32 <= th.Counter() <= ready[0].Counter()
    requires forall i :: 0 <= i < |ready| ==> 0 <= ready[i].priority <= 5 && ready[0].Counter() - ready[i].Counter() <= b
    ensures DistinctIds(ready') && ready'[0].Counter() <= ready[0].Counter()
    ensures forall i :: 0 <= i < |ready'| ==> 0 <= ready'[i].priority <= 5 && ready'[0].Counter() - ready'[i].Counter() <= b
  {
    forall j | 0 <= j < |ready'| ensures ready'[j] == if j < k then ready[j + 1] else if j == k then th else ready[j] { }
  }

  /** How often a thread is first in n rounds. */
  function TimesRun(s: State, id: int, n: nat): nat
    requires s.ready != []
    decreases n
  {
    if n == 0 then 0
    else
      InsertLength(s.ready[1..], Charged(s.ready[0], s.global));
      (if s.ready[0].id == id then 1 else 0) + TimesRun(Step(s), id, n - 1)
  }

  /** One round for the thread x. */
  lemma OneRound(s: State, b: int, x: Thread) returns (x': Thread)
    requires Level(s, b) && exists i :: At(s.ready, i, x)
    ensures exists i :: At(Step(s).ready, i, x')
    ensures x'.id == x.id && x'.priority == x.priority
    ensures x'.Counter() == x.Counter() - if s.ready[0].id == x.id then x.Debit() else 0
  {
    FirstCharged(s, b);
    var i :| At(s.ready, i, x);
    var rest, th := s.ready[1..], Charged(s.ready[0], s.global);
    var k := InsertPlace(rest, th);
    if i == 0 {
      x' := th;
      assert At(Step(s).ready, k, x');
    } else {
      x' := x;
      assert At(Step(s).ready, if i - 1 < k then i - 1 else i, x');
    }
  }

  lemma Paid(one: int, more: int, d: int)
    ensures (one + more) * d == one * d + more * d
  {
  }

  /** The counter of a thread tells how often it ran. */
  lemma {:induction false} CounterAfter(s: State, b: int, x: Thread, n: nat) returns (x': Thread)
    requires Level(s, b) && exists i :: At(s.ready, i, x)
    ensures Level(Steps(s, n), b) && exists i :: At(Steps(s, n).ready, i, x')
    ensures x'.id == x.id && x'.priority == x.priority
    ensures x'.Counter() == x.Counter() - TimesRun(s, x.id, n) * x.Debit()
    decreases n
  {
    if n == 0 {
      x' := x;
    } else {
      var y := OneRound(s, b, x);
      LevelStep(s, b);
      x' := CounterAfter(Step(s), b, y, n - 1);
      Paid(if s.ready[0].id == x.id then 1 else 0, TimesRun(Step(s), x.id, n - 1), x.Debit());
    }
  }

  lemma Within(s: State, b: int, x: Thread, y: Thread)
    requires Level(s, b) && (exists i :: At(s.ready, i, x)) && exists i :: At(s.ready, i, y)
    ensures -b <= x.Counter() - y.Counter() <= b
  {
    var i :| At(s.ready, i, x);
    var j :| At(s.ready, j, y);
  }

  /** In any number of rounds, what two threads that are always ready have paid differs by no more than twice the
      distance of the counters: each gets its share. */
  lemma Share(s: State, b: int, x: Thread, y: Thread, n: nat)
    requires Level(s, b) && (exists i :: At(s.ready, i, x)) && exists i :: At(s.ready, i, y)
    ensures -2 * b <= TimesRun(s, x.id, n) * x.Debit() - TimesRun(s, y.id, n) * y.Debit() <= 2 * b
  {
    var x' := CounterAfter(s, b, x, n);
    var y' := CounterAfter(s, b, y, n);
    Within(s, b, x, y);
    Within(Steps(s, n), b, x', y');
  }

  /** So a thread runs twice as often as one of the next lower priority, up to that distance. */
  lemma ShareOfNext(s: State, b: int, x: Thread, y: Thread, n: nat)
    requires Level(s, b) && (exists i :: At(s.ready, i, x)) && (exists i :: At(s.ready, i, y)) && x.priority == y.priority + 1
    ensures -2 * b <= TimesRun(s, x.id, n) - 2 * TimesRun(s, y.id, n) <= 2 * b
  {
    Share(s, b, x, y, n);
    NextPays(s, b, x, y);
    Scaled(TimesRun(s, x.id, n), TimesRun(s, y.id, n), x.Debit(), y.Debit(), 2 * b);
  }

  lemma NextPays(s: State, b: int, x: Thread, y: Thread)
    requires Level(s, b) && (exists i :: At(s.ready, i, x)) && (exists i :: At(s.ready, i, y)) && x.priority == y.priority + 1
    ensures y.Debit() == 2 * x.Debit()
  {
    var i :| At(s.ready, i, x);
    var j :| At(s.ready, j, y);
    DebitTable(x);
    DebitTable(y);
  }

  lemma Scaled(rx: int, ry: int, d: int, e: int, b: int)
    requires 1 <= d && e == 2 * d && -b <= rx * d - ry * e <= b
    ensures -b <= rx - 2 * ry <= b
  {
    var v := rx - 2 * ry;
    assert ry * e == (2 * ry) * d && rx * d - (2 * ry) * d == v * d;
    if v >= 0 { MoreThan(v, d); } else { MoreThan(-v, d); }
  }

  lemma MoreThan(v: int, d: int)
    requires 1 <= d && 0 <= v
    ensures v <= v * d && -v * d == -(v * d)
  {
    assert v * d == v * (d - 1) + v && 0 <= v * (d - 1);
  }

  // ---------- The scheduler ----------

  class Scheduler {
    var threadsReady: seq<Thread>
    var globalExecutionCounter: int

    constructor ()
      ensures threadsReady == []
    {
      threadsReady, globalExecutionCounter := [], 0;
    }

    function Now(): State
      reads this
    {
      State(threadsReady, globalExecutionCounter)
    }

    /** InsertThreadRoundRobin, for a thread that is in no list: it comes behind all that have at least its counter. */
    method InsertThreadRoundRobin(th: Thread) returns (ghost place: nat)
      requires Sorted(threadsReady)
      modifies this`threadsReady
      ensures threadsReady == Insert(old(threadsReady), th) && Sorted(threadsReady)
      ensures place <= |old(threadsReady)| && threadsReady == old(threadsReady)[..place] + [th] + old(threadsReady)[place..]
      ensures forall t :: t in old(threadsReady)[..place] ==> t.priority + t.executionCounter >= th.priority + th.executionCounter
      ensures forall t :: t in old(threadsReady)[place..] ==> t.priority + t.executionCounter < th.priority + th.executionCounter
    {
      var i := 0;
      while i < |threadsReady| && threadsReady[i].Counter() >= th.Counter()
        invariant 0 <= i <= |threadsReady|
        invariant forall j :: 0 <= j < i ==> threadsReady[j].Counter() >= th.Counter()
      {
        i := i + 1;
      }
      InsertBehind(threadsReady, th, i);
      InsertKeepsSorted(threadsReady, th);
      threadsReady := threadsReady[..i] + [th] + threadsReady[i..];
      place := i;
    }

    /** One round of ScheduleThreads: the first thread is charged, runs, and goes back into the queue.  The highest
        priority pays 1, each lower one twice as much as the next higher; nobody keeps more than 33 above the
        global counter. */
    method RunFirst() returns (ghost place: nat, ghost price: int)
      requires threadsReady != [] && Sorted(threadsReady)
      modifies this
      ensures Now() == Step(old(Now())) && Sorted(threadsReady)
      ensures var p := old(threadsReady[0]).priority;
        && (p == 5 ==> price == 1) && (p == 4 ==> price == 2) && (p == 3 ==> price == 4)
        && (p == 2 ==> price == 8) && (p == 1 ==> price == 16) && (p == 0 ==> price == 32)
      ensures var th, global, rest := old(threadsReady[0]), old(globalExecutionCounter), old(threadsReady)[1..];
        var c := (if th.executionCounter > global + 33 then global + 33 else th.executionCounter) - price;
        && globalExecutionCounter == (if c < global then c else global)
        && place <= |rest| && threadsReady == rest[..place] + [Thread(th.id, th.priority, c)] + rest[place..]
        && (forall t :: t in rest[..place] ==> t.priority + t.executionCounter >= th.priority + c)
        && (forall t :: t in rest[place..] ==> t.priority + t.executionCounter < th.priority + c)
    {
      var th;
      th, price := ChargeFirst();
      threadsReady := threadsReady[1..];
      place := InsertThreadRoundRobin(th);
    }

    /** The counter of the first thread is brought up to date and charged, and the global one kept at the least. */
    method ChargeFirst() returns (th: Thread, ghost price: int)
      requires threadsReady != []
      modifies this`globalExecutionCounter
      ensures var p := threadsReady[0].priority;
        && (p == 5 ==> price == 1) && (p == 4 ==> price == 2) && (p == 3 ==> price == 4)
        && (p == 2 ==> price == 8) && (p == 1 ==> price == 16) && (p == 0 ==> price == 32)
      ensures var first, global := threadsReady[0], old(globalExecutionCounter);
        var c := (if first.executionCounter > global + 33 then global + 33 else first.executionCounter) - price;
        && th == Thread(first.id, first.priority, c) && globalExecutionCounter == (if c < global then c else global)
        && th == Charged(first, global)
    {
      th := threadsReady[0];
      DebitTable(th);
      var debitForEachRun := th.Debit();
      price := debitForEachRun;
      if th.executionCounter - globalExecutionCounter > Pow2(SYSTEM_HIGHEST) + 1 {
        th := th.(executionCounter := globalExecutionCounter + Pow2(SYSTEM_HIGHEST) + 1);
      }
      th := th.(executionCounter := th.executionCounter - debitForEachRun);
      if th.executionCounter < globalExecutionCounter {
        globalExecutionCounter := th.executionCounter;
      }
    }
  }
}
