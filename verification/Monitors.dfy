/** Monitors: locks that belong to one thread at a time, with recursion counted per subthread and waiting
    subthreads served in arrival order. */
module Monitors {
  import opened Sequences

  datatype Owner = Owner(subThread: int, recursion: int)
  datatype Request = Request(subThread: int, timeExpire: int, force: bool)

  datatype Lock = Lock(resource: int, owningThread: int, owners: seq<Owner>, requests: seq<Request>)

  datatype HResult = Ok | ThreadWaiting | OutOfMemory | LockSynchronizationException

  // ---------- Counting requests ----------

  /** Whose requests are counted: a subthread's, or all those of a thread's subthreads. */
  datatype Who = SubThread(s: int) | Thread(t: int, threadOf: int -> int)

  predicate Matches(who: Who, req: Request) {
    match who
    case SubThread(s) => req.subThread == s
    case Thread(t, threadOf) => threadOf(req.subThread) == t
  }

  /** The requests of the subthreads that who singles out. */
  function Count(reqs: seq<Request>, who: Who): nat {
    if reqs == [] then 0 else (if Matches(who, reqs[0]) then 1 else 0) + Count(reqs[1..], who)
  }

  function Pending(locks: seq<Lock>, who: Who): nat {
    if locks == [] then 0 else Count(locks[0].requests, who) + Pending(locks[1..], who)
  }

  lemma {:induction false} CountConcat(a: seq<Request>, b: seq<Request>, who: Who)
    ensures Count(a + b, who) == Count(a, who) + Count(b, who)
  {
    if a == [] {
      assert a + b == b;
    } else {
      assert (a + b)[1..] == a[1..] + b;
      CountConcat(a[1..], b, who);
    }
  }

  lemma {:induction false} PendingConcat(a: seq<Lock>, b: seq<Lock>, who: Who)
    ensures Pending(a + b, who) == Pending(a, who) + Pending(b, who)
  {
    if a == [] {
      assert a + b == b;
    } else {
      assert (a + b)[1..] == a[1..] + b;
      PendingConcat(a[1..], b, who);
    }
  }

  lemma PendingSplit(locks: seq<Lock>, i: int, who: Who)
    requires 0 <= i < |locks|
    ensures Pending(locks, who) == Pending(locks[..i], who) + Count(locks[i].requests, who) + Pending(locks[i + 1..], who)
  {
    assert locks == locks[..i] + ([locks[i]] + locks[i + 1..]);
    PendingConcat(locks[..i], [locks[i]] + locks[i + 1..], who);
    assert ([locks[i]] + locks[i + 1..])[1..] == locks[i + 1..];
  }

  lemma PendingUpdate(locks: seq<Lock>, i: int, lock: Lock, who: Who)
    requires 0 <= i < |locks|
    ensures Pending(locks[i := lock], who) == Pending(locks, who) - Count(locks[i].requests, who) + Count(lock.requests, who)
  {
    var locks' := locks[i := lock];
    PendingSplit(locks, i, who);
    PendingSplit(locks', i, who);
    assert locks'[..i] == locks[..i] && locks'[i + 1..] == locks[i + 1..];
  }

  lemma PendingRemove(locks: seq<Lock>, i: int, who: Who)
    requires 0 <= i < |locks| && locks[i].requests == []
    ensures Pending(locks[..i] + locks[i + 1..], who) == Pending(locks, who)
  {
    PendingSplit(locks, i, who);
    PendingConcat(locks[..i], locks[i + 1..], who);
  }

  // ---------- Ownership ----------

  /** How often a subthread has entered a lock and not left it. */
  function Recursion(owners: seq<Owner>, sth: int): int {
    if owners == [] then 0 else if owners[0].subThread == sth then owners[0].recursion else Recursion(owners[1..], sth)
  }

  ghost predicate OwnersOk(owners: seq<Owner>, th: int, threadOf: int -> int) {
    && (forall k :: 0 <= k < |owners| ==> threadOf(owners[k].subThread) == th && 1 <= owners[k].recursion)
    && (forall j, k :: 0 <= j < k < |owners| ==> owners[j].subThread != owners[k].subThread)
  }

  lemma {:induction false} RecursionIs(owners: seq<Owner>, th: int, threadOf: int -> int, sth: int)
    requires OwnersOk(owners, th, threadOf)
    ensures forall k :: 0 <= k < |owners| && owners[k].subThread == sth ==> Recursion(owners, sth) == owners[k].recursion
    ensures (forall k :: 0 <= k < |owners| ==> owners[k].subThread != sth) <==> Recursion(owners, sth) == 0
    ensures 0 <= Recursion(owners, sth)
  {
    if owners != [] {
      var rest := owners[1..];
      assert forall k :: 0 <= k < |rest| ==> rest[k] == owners[k + 1];
      assert OwnersOk(rest, th, threadOf);
      RecursionIs(rest, th, threadOf, sth);
      if owners[0].subThread != sth {
        forall k | 0 <= k < |owners| && owners[k].subThread == sth ensures Recursion(owners, sth) == owners[k].recursion {
          assert rest[k - 1] == owners[k];
        }
        if Recursion(rest, sth) != 0 {
          var k :| 0 <= k < |rest| && rest[k].subThread == sth;
          assert owners[k + 1].subThread == sth;
        }
      }
    }
  }

  ghost predicate LockOk(lock: Lock, threadOf: int -> int) {
    OwnersOk(lock.owners, lock.owningThread, threadOf)
  }

  // ---------- The lists of the threads ----------

  function Links(lists: map<int, seq<int>>, th: int): seq<int> { if th in lists then lists[th] else [] }

  /** There is a lock of the resource, and it belongs to thread th. */
  ghost predicate Belongs(locks: seq<Lock>, resource: int, th: int) {
    exists i :: 0 <= i < |locks| && locks[i].resource == resource && locks[i].owningThread == th
  }

  /** Every thread links exactly the locks that belong to it, each once. */
  ghost predicate ListsOk(lists: map<int, seq<int>>, locks: seq<Lock>) {
    && (forall th :: NoneTwice(Links(lists, th)))
    && (forall th, r :: r in Links(lists, th) <==> Belongs(locks, r, th))
  }

  /** The same but for the lock at i, which is in no list. */
  ghost predicate ListsBut(lists: map<int, seq<int>>, locks: seq<Lock>, i: int)
    requires 0 <= i < |locks|
  {
    && (forall th :: NoneTwice(Links(lists, th)))
    && (forall th, r :: r in Links(lists, th) <==> r != locks[i].resource && Belongs(locks, r, th))
  }

  lemma ListsKept(lists: map<int, seq<int>>, locks: seq<Lock>, locks': seq<Lock>)
    requires ListsOk(lists, locks) && |locks'| == |locks|
    requires forall k :: 0 <= k < |locks| ==> locks'[k].resource == locks[k].resource && locks'[k].owningThread == locks[k].owningThread
    ensures ListsOk(lists, locks')
  {
    forall th, r ensures Belongs(locks', r, th) <==> Belongs(locks, r, th) { }
  }

  lemma ListsUnlinked(lists: map<int, seq<int>>, lists': map<int, seq<int>>, locks: seq<Lock>, i: int)
    requires Resources(locks) && ListsOk(lists, locks) && 0 <= i < |locks|
    requires var th, r := locks[i].owningThread, locks[i].resource; lists' == lists[th := Minus(Links(lists, th), r)]
    ensures ListsBut(lists', locks, i)
  {
    MinusMembers(Links(lists, locks[i].owningThread), locks[i].resource);
    forall th ensures NoneTwice(Links(lists', th)) { assert NoneTwice(Links(lists, th)); }
    forall th, r ensures r in Links(lists', th) <==> r != locks[i].resource && Belongs(locks, r, th) {
      assert r in Links(lists, th) <==> Belongs(locks, r, th);
      if Belongs(locks, locks[i].resource, th) {
        var k :| 0 <= k < |locks| && locks[k].resource == locks[i].resource && locks[k].owningThread == th;
        assert k == i;
      }
    }
  }

  lemma ListsLinked(lists: map<int, seq<int>>, lists': map<int, seq<int>>, locks0: seq<Lock>, locks: seq<Lock>, i: int)
    requires 0 <= i < |locks| == |locks0| && ListsBut(lists, locks0, i) && Resources(locks) && locks[i].resource == locks0[i].resource
    requires forall k :: 0 <= k < |locks| && k != i ==> locks[k] == locks0[k]
    requires var th, r := locks[i].owningThread, locks[i].resource; lists' == lists[th := Links(lists, th) + [r]]
    ensures ListsOk(lists', locks)
  {
    forall th, r ensures r in Links(lists', th) <==> Belongs(locks, r, th) {
      assert r in Links(lists, th) <==> r != locks[i].resource && Belongs(locks0, r, th);
      if Belongs(locks0, r, th) && r != locks[i].resource {
        var k :| 0 <= k < |locks0| && locks0[k].resource == r && locks0[k].owningThread == th;
        assert locks[k] == locks0[k];
      }
      if Belongs(locks, r, th) && r != locks[i].resource {
        var k :| 0 <= k < |locks| && locks[k].resource == r && locks[k].owningThread == th;
        assert locks[k] == locks0[k];
      }
      assert th == locks[i].owningThread ==> Belongs(locks, locks[i].resource, th);
      if Belongs(locks, locks[i].resource, th) {
        var k :| 0 <= k < |locks| && locks[k].resource == locks[i].resource && locks[k].owningThread == th;
        assert k == i;
      }
    }
    forall th ensures NoneTwice(Links(lists', th)) {
      assert NoneTwice(Links(lists, th));
      assert locks[i].resource !in Links(lists, th);
    }
  }

  lemma ListsRemoved(lists: map<int, seq<int>>, locks0: seq<Lock>, locks: seq<Lock>, i: int)
    requires 0 <= i < |locks0| && Resources(locks0) && ListsBut(lists, locks0, i) && locks == locks0[..i] + locks0[i + 1..]
    ensures ListsOk(lists, locks)
  {
    forall th, r ensures Belongs(locks, r, th) <==> r != locks0[i].resource && Belongs(locks0, r, th) {
      if Belongs(locks, r, th) {
        var k :| 0 <= k < |locks| && locks[k].resource == r && locks[k].owningThread == th;
        assert locks[k] == locks0[if k < i then k else k + 1];
      }
      if r != locks0[i].resource && Belongs(locks0, r, th) {
        var k :| 0 <= k < |locks0| && locks0[k].resource == r && locks0[k].owningThread == th;
        assert locks[if k < i then k else k - 1] == locks0[k];
      }
    }
  }

  /** A lock that has just been made is in no list. */
  lemma ListsMore(lists: map<int, seq<int>>, locks: seq<Lock>, lock: Lock)
    requires ListsOk(lists, locks) && forall k :: 0 <= k < |locks| ==> locks[k].resource != lock.resource
    ensures ListsBut(lists, locks + [lock], |locks|)
  {
    var more := locks + [lock];
    forall th, r ensures r in Links(lists, th) <==> r != more[|locks|].resource && Belongs(more, r, th) {
      assert r in Links(lists, th) <==> Belongs(locks, r, th);
      if Belongs(locks, r, th) {
        var k :| 0 <= k < |locks| && locks[k].resource == r && locks[k].owningThread == th;
        assert more[k] == locks[k];
      }
      if r != lock.resource && Belongs(more, r, th) {
        var k :| 0 <= k < |more| && more[k].resource == r && more[k].owningThread == th;
        assert more[k] == locks[k];
      }
    }
  }

  /** Each lock is in exactly one of the lists, and there only once. */
  lemma InOneList(lists: map<int, seq<int>>, locks: seq<Lock>, i: int, th: int)
    requires Resources(locks) && ListsOk(lists, locks) && 0 <= i < |locks|
    ensures locks[i].resource in Links(lists, th) <==> th == locks[i].owningThread
    ensures multiset(Links(lists, th))[locks[i].resource] == if th == locks[i].owningThread then 1 else 0
  {
    var r := locks[i].resource;
    assert r in Links(lists, th) <==> Belongs(locks, r, th);
    if Belongs(locks, r, th) {
      var k :| 0 <= k < |locks| && locks[k].resource == r && locks[k].owningThread == th;
      assert k == i;
    }
    assert th == locks[i].owningThread ==> Belongs(locks, r, th);
    assert NoneTwice(Links(lists, th));
    OnceIn(Links(lists, th), r);
  }

  function Get(m: map<int, int>, k: int): int { if k in m then m[k] else 0 }

  /** The counters of subthreads and threads agree with the queues, and a thread is stopped exactly while it
      has requests. */
  ghost predicate CountersOk(locks: seq<Lock>, subs: map<int, int>, threads: map<int, int>, blocked: set<int>,
          threadOf: int -> int)
  {
    && (forall s :: Get(subs, s) == Pending(locks, SubThread(s)))
    && (forall t :: Get(threads, t) == Pending(locks, Thread(t, threadOf)))
    && (forall t :: t in blocked <==> Get(threads, t) > 0)
  }

  /** The queues gained, or lost, one request of a subthread. */
  ghost predicate Shifted(locks: seq<Lock>, locks': seq<Lock>, req: Request, diff: int) {
    forall who {:trigger Pending(locks', who)} :: Pending(locks', who) == Pending(locks, who) + (if Matches(who, req) then diff else 0)
  }

  lemma CountersStep(locks: seq<Lock>, locks': seq<Lock>, subs: map<int, int>, threads: map<int, int>,
          blocked: set<int>, threadOf: int -> int, req: Request, diff: int)
    requires CountersOk(locks, subs, threads, blocked, threadOf) && Shifted(locks, locks', req, diff)
    ensures var sth := req.subThread;
      var th := threadOf(sth);
      var n := Get(threads, th) + diff;
      CountersOk(locks', subs[sth := Get(subs, sth) + diff], threads[th := n], if n == 0 then blocked - {th} else blocked + {th}, threadOf)
  {
    var th := threadOf(req.subThread);
    var n := Get(threads, th) + diff;
    var threads' := threads[th := n];
    assert n == Pending(locks', Thread(th, threadOf));
    forall t ensures Get(threads', t) == Pending(locks', Thread(t, threadOf)) {
      assert Matches(Thread(t, threadOf), req) <==> t == th;
    }
    var subs' := subs[req.subThread := Get(subs, req.subThread) + diff];
    forall s ensures Get(subs', s) == Pending(locks', SubThread(s)) {
      assert Matches(SubThread(s), req) <==> s == req.subThread;
    }
  }

  /** Queueing a request at the back. */
  lemma Enqueued(locks: seq<Lock>, i: int, req: Request)
    requires 0 <= i < |locks|
    ensures Shifted(locks, locks[i := locks[i].(requests := locks[i].requests + [req])], req, 1)
  {
    var lock := locks[i].(requests := locks[i].requests + [req]);
    forall who ensures Pending(locks[i := lock], who) == Pending(locks, who) + (if Matches(who, req) then 1 else 0) {
      PendingUpdate(locks, i, lock, who);
      CountConcat(locks[i].requests, [req], who);
    }
  }

  /** Taking the request at j out of a queue. */
  lemma Dequeued(locks: seq<Lock>, i: int, j: int, lock: Lock)
    requires 0 <= i < |locks| && 0 <= j < |locks[i].requests|
    requires lock.requests == locks[i].requests[..j] + locks[i].requests[j + 1..]
    ensures Shifted(locks, locks[i := lock], locks[i].requests[j], -1)
  {
    var q := locks[i].requests;
    forall who ensures Pending(locks[i := lock], who) == Pending(locks, who) + (if Matches(who, q[j]) then -1 else 0) {
      PendingUpdate(locks, i, lock, who);
      CountConcat(q[..j], q[j + 1..], who);
      CountConcat(q[..j], [q[j]] + q[j + 1..], who);
      assert q == q[..j] + ([q[j]] + q[j + 1..]);
      assert ([q[j]] + q[j + 1..])[1..] == q[j + 1..];
    }
  }

  // ---------- The execution engine's locks ----------

  class ExecutionEngine {
    /** m_owningThread of a subthread. */
    const threadOf: int -> int
    var locks: seq<Lock>
    /** The resources of the locks in the list m_locks of each thread. */
    var threadLocks: map<int, seq<int>>
    var subRequests: map<int, int>
    var threadRequests: map<int, int>
    /** Threads that wait for a lock. */
    var blocked: set<int>

    /** Everything that happened to locks, for the specification. */
    ghost var history: seq<Event>

    constructor (threadOf: int -> int)
      ensures Valid() && locks == [] && this.threadOf == threadOf
    {
      this.threadOf := threadOf;
      locks, threadLocks, subRequests, threadRequests, blocked := [], map[], map[], map[], {};
      history := [];
    }

    /** What holds between any two steps: the structure is sound, and a subthread holds a lock as often as
        it acquired it and did not release it. */
    ghost predicate Valid()
      reads this
    {
      Sound() && Ledger(locks, history)
    }

    ghost predicate Sound()
      reads this
    {
      && LocksOk(locks, threadOf) && ListsOk(threadLocks, locks)
      && CountersOk(locks, subRequests, threadRequests, blocked, threadOf)
    }

    /** CLR_RT_SubThread::ChangeLockRequestCount, after a request of the subthread has come to the queues or has
        left them: the counters agree with the queues again, and the thread may run again exactly if no
        subthread of it has a request left. */
    method ChangeLockRequestCount(sth: int, diff: int, ghost locks0: seq<Lock>, ghost req: Request) returns (restarted: bool)
      requires CountersOk(locks0, subRequests, threadRequests, blocked, threadOf)
      requires req.subThread == sth && Shifted(locks0, locks, req, diff)
      modifies this`subRequests, this`threadRequests, this`blocked
      ensures CountersOk(locks, subRequests, threadRequests, blocked, threadOf)
      ensures restarted <==> Pending(locks, Thread(threadOf(sth), threadOf)) == 0
      ensures forall t :: t != threadOf(sth) ==> (t in blocked <==> t in old(blocked))
    {
      CountersStep(locks0, locks, subRequests, threadRequests, blocked, threadOf, req, diff);
      var th := threadOf(sth);
      subRequests := subRequests[sth := Get(subRequests, sth) + diff];
      threadRequests := threadRequests[th := Get(threadRequests, th) + diff];
      restarted := threadRequests[th] == 0;
      blocked := if restarted then blocked - {th} else blocked + {th};
    }

    /** FindLockObject: the position of the lock of a resource, or -1. */
    method FindLockObject(resource: int) returns (i: int)
      ensures if i == -1 then forall k :: 0 <= k < |locks| ==> locks[k].resource != resource
              else 0 <= i < |locks| && locks[i].resource == resource
    {
      i := 0;
      while i < |locks|
        invariant 0 <= i <= |locks|
        invariant forall k :: 0 <= k < i ==> locks[k].resource != resource
      {
        if locks[i].resource == resource { return; }
        i := i + 1;
      }
      i := -1;
    }

    /** LockRequest::CreateInstance. */
    method CreateRequest(i: int, sth: int, timeExpire: int, force: bool, available: bool) returns (hr: HResult)
      requires Sound() && 0 <= i < |locks|
      modifies this`locks, this`subRequests, this`threadRequests, this`blocked
      ensures Sound()
      ensures available ==> hr == ThreadWaiting
      ensures available ==> locks == old(locks)[i := old(locks[i]).(requests := old(locks[i]).requests + [Request(sth, timeExpire, force)])]
      ensures !available ==> hr == OutOfMemory && locks == old(locks)
    {
      hr := OutOfMemory;
      if available {
        ghost var locks0 := locks;
        var req := Request(sth, timeExpire, force);
        locks := locks[i := locks[i].(requests := locks[i].requests + [req])];
        ListsKept(threadLocks, locks0, locks);
        Enqueued(locks0, i, req);
        var restarted := ChangeLockRequestCount(sth, 1, locks0, req);
        hr := ThreadWaiting;
      }
    }

    /** Lock::IncrementOwnership.  The flags say which allocations succeed. */
    method IncrementOwnership(i: int, sth: int, timeExpire: int, force: bool, ownerAvailable: bool,
            requestAvailable: bool) returns (hr: HResult)
      requires Sound() && 0 <= i < |locks|
      modifies this`locks, this`subRequests, this`threadRequests, this`blocked
      ensures Sound() && |locks| == |old(locks)|
      ensures forall k :: 0 <= k < |locks| && k != i ==> locks[k] == old(locks[k])
      ensures Entered(old(locks[i]), locks[i], sth, timeExpire, force, threadOf, ownerAvailable, requestAvailable, hr)
      ensures var lock := old(locks)[i];
        if lock.owningThread != threadOf(sth) then
          if requestAvailable
          then hr == ThreadWaiting && locks == old(locks)[i := lock.(requests := lock.requests + [Request(sth, timeExpire, force)])]
          else hr == OutOfMemory && locks == old(locks)
        else
          && (forall k :: 0 <= k < |lock.owners| && lock.owners[k].subThread == sth ==>
                hr == Ok && locks == old(locks)[i := lock.(owners := lock.owners[k := Owner(sth, lock.owners[k].recursion + 1)])])
          && ((forall k :: 0 <= k < |lock.owners| ==> lock.owners[k].subThread != sth) ==>
                if ownerAvailable then hr == Ok && locks == old(locks)[i := lock.(owners := [Owner(sth, 1)] + lock.owners)]
                else hr == OutOfMemory && locks == old(locks))
    {
      var lock := locks[i];
      RecursionIs(lock.owners, lock.owningThread, threadOf, sth);
      if lock.owningThread == threadOf(sth) {
        var k := FindOwner(i, sth);
        if k != -1 {
          Reenter(i, k);
          assert forall j :: 0 <= j < |lock.owners| && lock.owners[j].subThread == sth ==> j == k;
          return Ok;
        }
        hr := OutOfMemory;
        if ownerAvailable {
          NewOwner(i, sth);
          hr := Ok;
        }
      } else {
        hr := CreateRequest(i, sth, timeExpire, force, requestAvailable);
      }
    }

    method FindOwner(i: int, sth: int) returns (k: int)
      requires 0 <= i < |locks|
      ensures var owners := locks[i].owners;
        if k == -1 then forall j :: 0 <= j < |owners| ==> owners[j].subThread != sth
        else 0 <= k < |owners| && owners[k].subThread == sth
    {
      k := 0;
      while k < |locks[i].owners|
        invariant 0 <= k <= |locks[i].owners|
        invariant forall j :: 0 <= j < k ==> locks[i].owners[j].subThread != sth
      {
        if locks[i].owners[k].subThread == sth { return; }
        k := k + 1;
      }
      k := -1;
    }

    /** owner->m_recursion++. */
    method Reenter(i: int, k: int)
      requires Sound() && 0 <= i < |locks| && 0 <= k < |locks[i].owners|
      modifies this`locks
      ensures Sound() && |locks| == |old(locks)| && locks == old(locks)[i := locks[i]] && locks[i] == old(locks[i]).(owners := locks[i].owners)
      ensures var owners := old(locks[i]).owners; locks[i].owners == owners[k := Owner(owners[k].subThread, owners[k].recursion + 1)]
      ensures Adjusted(old(locks[i]).owners, locks[i].owners, old(locks[i]).owners[k].subThread, 1)
    {
      var owners := locks[i].owners;
      var owners' := owners[k := owners[k].(recursion := owners[k].recursion + 1)];
      OwnerChanged(owners, owners', locks[i].owningThread, threadOf, k);
      SetOwners(i, owners');
    }

    /** m_owners.LinkAtFront. */
    method NewOwner(i: int, sth: int)
      requires Sound() && 0 <= i < |locks| && locks[i].owningThread == threadOf(sth)
      requires forall j :: 0 <= j < |locks[i].owners| ==> locks[i].owners[j].subThread != sth
      modifies this`locks
      ensures Sound() && |locks| == |old(locks)| && locks == old(locks)[i := locks[i]] && locks[i] == old(locks[i]).(owners := [Owner(sth, 1)] + old(locks[i]).owners)
      ensures Adjusted(old(locks[i]).owners, locks[i].owners, sth, 1)
    {
      var owners := locks[i].owners;
      OwnerAdded(owners, locks[i].owningThread, threadOf, sth);
      SetOwners(i, [Owner(sth, 1)] + owners);
    }

    method SetOwners(i: int, owners: seq<Owner>)
      requires Sound() && 0 <= i < |locks| && OwnersOk(owners, locks[i].owningThread, threadOf)
      modifies this`locks
      ensures Sound() && locks == old(locks)[i := old(locks[i]).(owners := owners)]
    {
      ghost var locks0 := locks;
      locks := locks[i := locks[i].(owners := owners)];
      ListsKept(threadLocks, locks0, locks);
      SameQueues(locks0, i, locks[i]);
    }

    /** Lock::ChangeOwner: the request that has waited longest gets the lock; without requests the lock goes. */
    method ChangeOwner(i: int, ownerAvailable: bool)
      requires Sound() && 0 <= i < |locks| && locks[i].owners == []
      modifies this`locks, this`threadLocks, this`subRequests, this`threadRequests, this`blocked
      ensures Sound() && HandedOver(old(locks), locks, i, threadOf, ownerAvailable)
      ensures var lock := old(locks)[i];
        locks == if lock.requests == [] then old(locks)[..i] + old(locks)[i + 1..]
                 else old(locks)[i := Lock(lock.resource, threadOf(lock.requests[0].subThread),
                   if ownerAvailable then [Owner(lock.requests[0].subThread, 1)] else [], lock.requests[1..])]
    {
      ghost var locks0 := locks;
      if locks[i].requests == [] {
        RemoveLock(i);
      } else {
        var req := locks[i].requests[0];
        var sth := req.subThread;
        var th := threadOf(sth);
        PassOn(i, req, th);
        if ownerAvailable {
          NewOwner(i, sth);
          assert [Owner(sth, 1)] + [] == [Owner(sth, 1)];
        }
      }
    }

    /** Take the first request off the queue and give its thread the lock. */
    method PassOn(i: int, req: Request, th: int)
      requires Sound() && 0 <= i < |locks| && locks[i].owners == [] && locks[i].requests != []
      requires req == locks[i].requests[0] && th == threadOf(req.subThread)
      modifies this`locks, this`threadLocks, this`subRequests, this`threadRequests, this`blocked
      ensures Sound() && locks == old(locks)[i := Lock(old(locks[i]).resource, th, [], old(locks[i]).requests[1..])]
    {
      ghost var locks0 := locks;
      Unlink(i);
      locks := locks[i := locks[i].(requests := locks[i].requests[1..], owningThread := th)];
      LinkAtBack(locks0, i);
      Dequeued(locks0, i, 0, locks[i]);
      var restarted := ChangeLockRequestCount(req.subThread, -1, locks0, req);
    }

    /** The lock leaves the list that it is in. */
    method Unlink(i: int)
      requires LocksOk(locks, threadOf) && ListsOk(threadLocks, locks) && 0 <= i < |locks|
      modifies this`threadLocks
      ensures ListsBut(threadLocks, locks, i)
    {
      var th, resource := locks[i].owningThread, locks[i].resource;
      MinusMembers(Links(threadLocks, th), resource);
      ghost var lists0 := threadLocks;
      threadLocks := threadLocks[th := Minus(Links(threadLocks, th), resource)];
      ListsUnlinked(lists0, threadLocks, locks, i);
    }

    /** m_locks.LinkAtBack of the thread that owns the lock now. */
    method LinkAtBack(ghost locks0: seq<Lock>, i: int)
      requires 0 <= i < |locks| == |locks0| && ListsBut(threadLocks, locks0, i)
      requires forall k :: 0 <= k < |locks| && k != i ==> locks[k] == locks0[k]
      requires LocksOk(locks, threadOf) && locks[i].resource == locks0[i].resource
      modifies this`threadLocks
      ensures ListsOk(threadLocks, locks)
    {
      var th, resource := locks[i].owningThread, locks[i].resource;
      ghost var lists0 := threadLocks;
      threadLocks := threadLocks[th := Links(threadLocks, th) + [resource]];
      ListsLinked(lists0, threadLocks, locks0, locks, i);
    }

    method RemoveLock(i: int)
      requires Sound() && 0 <= i < |locks| && locks[i].requests == []
      modifies this`locks, this`threadLocks
      ensures Sound() && locks == old(locks)[..i] + old(locks)[i + 1..]
    {
      ghost var locks0 := locks;
      Unlink(i);
      locks := locks[..i] + locks[i + 1..];
      ListsRemoved(threadLocks, locks0, locks, i);
      forall who ensures Pending(locks, who) == Pending(locks0, who) {
        PendingRemove(locks0, i, who);
      }
      forall k | 0 <= k < |locks| ensures locks[k] == locks0[if k < i then k else k + 1] { }
    }

    /** Lock::DecrementOwnership. */
    method DecrementOwnership(i: int, sth: int, ownerAvailable: bool) returns (hr: HResult)
      requires Sound() && -1 <= i < |locks|
      modifies this`locks, this`threadLocks, this`subRequests, this`threadRequests, this`blocked
      ensures Sound()
      ensures if i == -1 then hr == LockSynchronizationException && locks == old(locks)
              else Released(old(locks), locks, i, sth, threadOf, ownerAvailable, hr)
      ensures i == -1 || (forall k :: 0 <= k < |old(locks)[i].owners| ==> old(locks)[i].owners[k].subThread != sth) ==>
        hr == LockSynchronizationException && locks == old(locks)
      ensures i != -1 ==> var lock := old(locks)[i];
        forall k :: 0 <= k < |lock.owners| && lock.owners[k].subThread == sth ==>
          && hr == Ok
          && locks == if lock.owners[k].recursion > 1 then
                        old(locks)[i := lock.(owners := lock.owners[k := Owner(sth, lock.owners[k].recursion - 1)])]
                      else if |lock.owners| > 1 then
                        old(locks)[i := lock.(owners := lock.owners[..k] + lock.owners[k + 1..])]
                      else if lock.requests == [] then
                        old(locks)[..i] + old(locks)[i + 1..]
                      else
                        old(locks)[i := Lock(lock.resource, threadOf(lock.requests[0].subThread),
                          if ownerAvailable then [Owner(lock.requests[0].subThread, 1)] else [], lock.requests[1..])]
    {
      hr := LockSynchronizationException;
      if i != -1 {
        RecursionIs(locks[i].owners, locks[i].owningThread, threadOf, sth);
        if locks[i].owningThread == threadOf(sth) {
          var k := FindOwner(i, sth);
          if k != -1 {
            assert forall j :: 0 <= j < |locks[i].owners| && locks[i].owners[j].subThread == sth ==> j == k;
            LeaveAndPassOn(i, k, ownerAvailable);
            hr := Ok;
          }
        }
      }
    }

    /** One level less, and the lock is handed over when its last owner has gone. */
    method LeaveAndPassOn(i: int, k: int, ownerAvailable: bool)
      requires Sound() && 0 <= i < |locks| && 0 <= k < |locks[i].owners|
      modifies this`locks, this`threadLocks, this`subRequests, this`threadRequests, this`blocked
      ensures Sound()
      ensures exists owners :: (
        && OwnersOk(owners, old(locks[i]).owningThread, threadOf)
        && Adjusted(old(locks[i]).owners, owners, old(locks[i]).owners[k].subThread, -1)
        && var mid := old(locks)[i := old(locks)[i].(owners := owners)];
           if owners == [] then HandedOver(mid, locks, i, threadOf, ownerAvailable) else locks == mid)
      ensures var lock := old(locks)[i];
        locks == if lock.owners[k].recursion > 1 then
                   old(locks)[i := lock.(owners := lock.owners[k := Owner(lock.owners[k].subThread, lock.owners[k].recursion - 1)])]
                 else if |lock.owners| > 1 then
                   old(locks)[i := lock.(owners := lock.owners[..k] + lock.owners[k + 1..])]
                 else if lock.requests == [] then
                   old(locks)[..i] + old(locks)[i + 1..]
                 else
                   old(locks)[i := Lock(lock.resource, threadOf(lock.requests[0].subThread),
                     if ownerAvailable then [Owner(lock.requests[0].subThread, 1)] else [], lock.requests[1..])]
    {
      ghost var locks0 := locks;
      Leave(i, k);
      ghost var owners := locks[i].owners;
      assert OwnersOk(owners, locks0[i].owningThread, threadOf);
      ghost var mid := locks;
      if locks[i].owners == [] {
        ChangeOwner(i, ownerAvailable);
        assert mid[..i] == locks0[..i] && mid[i + 1..] == locks0[i + 1..];
      }
    }

    /** --owner->m_recursion; the owner goes when it reaches zero. */
    method Leave(i: int, k: int)
      requires Sound() && 0 <= i < |locks| && 0 <= k < |locks[i].owners|
      modifies this`locks
      ensures Sound() && |locks| == |old(locks)| && locks == old(locks)[i := old(locks[i]).(owners := locks[i].owners)]
      ensures var owners := old(locks[i]).owners;
        locks[i].owners == if owners[k].recursion == 1 then owners[..k] + owners[k + 1..]
                           else owners[k := Owner(owners[k].subThread, owners[k].recursion - 1)]
      ensures Adjusted(old(locks[i]).owners, locks[i].owners, old(locks[i]).owners[k].subThread, -1)
    {
      var owners := locks[i].owners;
      if owners[k].recursion == 1 {
        OwnerGone(owners, locks[i].owningThread, threadOf, k);
        SetOwners(i, owners[..k] + owners[k + 1..]);
      } else {
        var owners' := owners[k := owners[k].(recursion := owners[k].recursion - 1)];
        OwnerChanged(owners, owners', locks[i].owningThread, threadOf, k);
        SetOwners(i, owners');
      }
    }

    /** CLR_RT_ExecutionEngine::LockObject. */
    method LockObject(resource: int, sth: int, timeExpire: int, force: bool, lockAvailable: bool,
            ownerAvailable: bool, requestAvailable: bool)
      returns (hr: HResult)
      requires Valid()
      modifies this
      ensures Valid()
      ensures LockStep(old(locks), locks, resource, sth, timeExpire, force, threadOf, lockAvailable, ownerAvailable, requestAvailable, hr)
      ensures history == old(history) + if hr == Ok then [Acquired(resource, sth)] else []
      ensures forall i :: 0 <= i < |old(locks)| && old(locks)[i].resource == resource ==>
        var lock := old(locks)[i];
        if lock.owningThread != threadOf(sth) then
          if requestAvailable
          then hr == ThreadWaiting && locks == old(locks)[i := lock.(requests := lock.requests + [Request(sth, timeExpire, force)])]
          else hr == OutOfMemory && locks == old(locks)
        else
          && (forall k :: 0 <= k < |lock.owners| && lock.owners[k].subThread == sth ==>
                hr == Ok && locks == old(locks)[i := lock.(owners := lock.owners[k := Owner(sth, lock.owners[k].recursion + 1)])])
          && ((forall k :: 0 <= k < |lock.owners| ==> lock.owners[k].subThread != sth) ==>
                if ownerAvailable then hr == Ok && locks == old(locks)[i := lock.(owners := [Owner(sth, 1)] + lock.owners)]
                else hr == OutOfMemory && locks == old(locks))
      ensures (forall i :: 0 <= i < |old(locks)| ==> old(locks)[i].resource != resource) ==>
        if !lockAvailable then hr == OutOfMemory && locks == old(locks)
        else && hr == (if ownerAvailable then Ok else OutOfMemory)
             && locks == old(locks) + [Lock(resource, threadOf(sth), if ownerAvailable then [Owner(sth, 1)] else [], [])]
    {
      ghost var locks0 := locks;
      hr := Enter(resource, sth, timeExpire, force, lockAvailable, ownerAvailable, requestAvailable);
      LockStepHeld(locks0, locks, history, resource, sth, timeExpire, force, threadOf, lockAvailable, ownerAvailable, requestAvailable, hr);
      history := history + if hr == Ok then [Acquired(resource, sth)] else [];
    }

    method Enter(resource: int, sth: int, timeExpire: int, force: bool, lockAvailable: bool, ownerAvailable: bool,
            requestAvailable: bool)
      returns (hr: HResult)
      requires Sound()
      modifies this`locks, this`threadLocks, this`subRequests, this`threadRequests, this`blocked
      ensures Sound()
      ensures LockStep(old(locks), locks, resource, sth, timeExpire, force, threadOf, lockAvailable, ownerAvailable, requestAvailable, hr)
      ensures forall i :: 0 <= i < |old(locks)| && old(locks)[i].resource == resource ==>
        var lock := old(locks)[i];
        if lock.owningThread != threadOf(sth) then
          if requestAvailable
          then hr == ThreadWaiting && locks == old(locks)[i := lock.(requests := lock.requests + [Request(sth, timeExpire, force)])]
          else hr == OutOfMemory && locks == old(locks)
        else
          && (forall k :: 0 <= k < |lock.owners| && lock.owners[k].subThread == sth ==>
                hr == Ok && locks == old(locks)[i := lock.(owners := lock.owners[k := Owner(sth, lock.owners[k].recursion + 1)])])
          && ((forall k :: 0 <= k < |lock.owners| ==> lock.owners[k].subThread != sth) ==>
                if ownerAvailable then hr == Ok && locks == old(locks)[i := lock.(owners := [Owner(sth, 1)] + lock.owners)]
                else hr == OutOfMemory && locks == old(locks))
      ensures (forall i :: 0 <= i < |old(locks)| ==> old(locks)[i].resource != resource) ==>
        if !lockAvailable then hr == OutOfMemory && locks == old(locks)
        else && hr == (if ownerAvailable then Ok else OutOfMemory)
             && locks == old(locks) + [Lock(resource, threadOf(sth), if ownerAvailable then [Owner(sth, 1)] else [], [])]
    {
      var i := FindLockObject(resource);
      if i == -1 {
        if !lockAvailable { return OutOfMemory; }
        hr := EnterNew(resource, sth, timeExpire, force, ownerAvailable, requestAvailable);
      } else {
        hr := EnterOld(i, resource, sth, timeExpire, force, ownerAvailable, requestAvailable, lockAvailable);
      }
    }

    method EnterOld(i: int, resource: int, sth: int, timeExpire: int, force: bool, ownerAvailable: bool,
            requestAvailable: bool, ghost lockAvailable: bool)
      returns (hr: HResult)
      requires Sound() && 0 <= i < |locks| && locks[i].resource == resource
      modifies this`locks, this`subRequests, this`threadRequests, this`blocked
      ensures Sound()
      ensures forall j :: 0 <= j < |old(locks)| && old(locks)[j].resource == resource ==> j == i
      ensures LockStep(old(locks), locks, resource, sth, timeExpire, force, threadOf, lockAvailable, ownerAvailable, requestAvailable, hr)
      ensures var lock := old(locks)[i];
        if lock.owningThread != threadOf(sth) then
          if requestAvailable
          then hr == ThreadWaiting && locks == old(locks)[i := lock.(requests := lock.requests + [Request(sth, timeExpire, force)])]
          else hr == OutOfMemory && locks == old(locks)
        else
          && (forall k :: 0 <= k < |lock.owners| && lock.owners[k].subThread == sth ==>
                hr == Ok && locks == old(locks)[i := lock.(owners := lock.owners[k := Owner(sth, lock.owners[k].recursion + 1)])])
          && ((forall k :: 0 <= k < |lock.owners| ==> lock.owners[k].subThread != sth) ==>
                if ownerAvailable then hr == Ok && locks == old(locks)[i := lock.(owners := [Owner(sth, 1)] + lock.owners)]
                else hr == OutOfMemory && locks == old(locks))
    {
      assert forall j :: 0 <= j < |locks| && locks[j].resource == resource ==> j == i;
      hr := IncrementOwnership(i, sth, timeExpire, force, ownerAvailable, requestAvailable);
    }

    method EnterNew(resource: int, sth: int, timeExpire: int, force: bool, ownerAvailable: bool, requestAvailable: bool)
      returns (hr: HResult)
      requires Sound() && forall k :: 0 <= k < |locks| ==> locks[k].resource != resource
      modifies this`locks, this`threadLocks, this`subRequests, this`threadRequests, this`blocked
      ensures Sound()
      ensures LockStep(old(locks), locks, resource, sth, timeExpire, force, threadOf, true, ownerAvailable, requestAvailable, hr)
      ensures hr == if ownerAvailable then Ok else OutOfMemory
      ensures locks == old(locks) + [Lock(resource, threadOf(sth), if ownerAvailable then [Owner(sth, 1)] else [], [])]
    {
      var i := |locks|;
      CreateLock(resource, threadOf(sth));
      hr := IncrementOwnership(i, sth, timeExpire, force, ownerAvailable, requestAvailable);
      assert [Owner(sth, 1)] + [] == [Owner(sth, 1)];
    }

    /** Lock::CreateInstance. */
    method CreateLock(resource: int, th: int)
      requires Sound() && forall k :: 0 <= k < |locks| ==> locks[k].resource != resource
      modifies this`locks, this`threadLocks
      ensures Sound() && locks == old(locks) + [Lock(resource, th, [], [])]
    {
      ghost var locks0 := locks;
      var lock := Lock(resource, th, [], []);
      locks := locks + [lock];
      ListsMore(threadLocks, locks0, lock);
      LinkAtBack(locks, |locks| - 1);
      forall who ensures Pending(locks, who) == Pending(locks0, who) {
        PendingConcat(locks0, [lock], who);
      }
    }

    /** CLR_RT_ExecutionEngine::UnlockObject. */
    method UnlockObject(resource: int, sth: int, ownerAvailable: bool) returns (hr: HResult)
      requires Valid()
      modifies this
      ensures Valid()
      ensures UnlockStep(old(locks), locks, resource, sth, threadOf, ownerAvailable, hr)
      ensures history == old(history) + UnlockEvents(old(locks), resource, sth, ownerAvailable, hr)
      ensures forall i :: 0 <= i < |old(locks)| && old(locks)[i].resource == resource ==>
        var lock := old(locks)[i];
        && ((forall k :: 0 <= k < |lock.owners| ==> lock.owners[k].subThread != sth) ==>
              hr == LockSynchronizationException && locks == old(locks))
        && (forall k :: 0 <= k < |lock.owners| && lock.owners[k].subThread == sth ==>
              && hr == Ok
              && locks == if lock.owners[k].recursion > 1 then
                            old(locks)[i := lock.(owners := lock.owners[k := Owner(sth, lock.owners[k].recursion - 1)])]
                          else if |lock.owners| > 1 then
                            old(locks)[i := lock.(owners := lock.owners[..k] + lock.owners[k + 1..])]
                          else if lock.requests == [] then
                            old(locks)[..i] + old(locks)[i + 1..]
                          else
                            old(locks)[i := Lock(lock.resource, threadOf(lock.requests[0].subThread),
                              if ownerAvailable then [Owner(lock.requests[0].subThread, 1)] else [], lock.requests[1..])])
      ensures (forall i :: 0 <= i < |old(locks)| ==> old(locks)[i].resource != resource) ==>
        hr == LockSynchronizationException && locks == old(locks)
    {
      ghost var locks0 := locks;
      hr := Exit(resource, sth, ownerAvailable);
      UnlockStepHeld(locks0, locks, history, resource, sth, threadOf, ownerAvailable, hr);
      history := history + UnlockEvents(locks0, resource, sth, ownerAvailable, hr);
    }

    method Exit(resource: int, sth: int, ownerAvailable: bool) returns (hr: HResult)
      requires Sound()
      modifies this`locks, this`threadLocks, this`subRequests, this`threadRequests, this`blocked
      ensures Sound() && UnlockStep(old(locks), locks, resource, sth, threadOf, ownerAvailable, hr)
      ensures forall i :: 0 <= i < |old(locks)| && old(locks)[i].resource == resource ==>
        var lock := old(locks)[i];
        && ((forall k :: 0 <= k < |lock.owners| ==> lock.owners[k].subThread != sth) ==>
              hr == LockSynchronizationException && locks == old(locks))
        && (forall k :: 0 <= k < |lock.owners| && lock.owners[k].subThread == sth ==>
              && hr == Ok
              && locks == if lock.owners[k].recursion > 1 then
                            old(locks)[i := lock.(owners := lock.owners[k := Owner(sth, lock.owners[k].recursion - 1)])]
                          else if |lock.owners| > 1 then
                            old(locks)[i := lock.(owners := lock.owners[..k] + lock.owners[k + 1..])]
                          else if lock.requests == [] then
                            old(locks)[..i] + old(locks)[i + 1..]
                          else
                            old(locks)[i := Lock(lock.resource, threadOf(lock.requests[0].subThread),
                              if ownerAvailable then [Owner(lock.requests[0].subThread, 1)] else [], lock.requests[1..])])
      ensures (forall i :: 0 <= i < |old(locks)| ==> old(locks)[i].resource != resource) ==>
        hr == LockSynchronizationException && locks == old(locks)
    {
      var i := FindLockObject(resource);
      if i == -1 { return LockSynchronizationException; }
      hr := ExitHeld(i, resource, sth, ownerAvailable);
    }

    method ExitHeld(i: int, resource: int, sth: int, ownerAvailable: bool) returns (hr: HResult)
      requires Sound() && 0 <= i < |locks| && locks[i].resource == resource
      modifies this`locks, this`threadLocks, this`subRequests, this`threadRequests, this`blocked
      ensures Sound() && UnlockStep(old(locks), locks, resource, sth, threadOf, ownerAvailable, hr)
      ensures forall j :: 0 <= j < |old(locks)| && old(locks)[j].resource == resource ==> j == i
      ensures (forall k :: 0 <= k < |old(locks)[i].owners| ==> old(locks)[i].owners[k].subThread != sth) ==>
        hr == LockSynchronizationException && locks == old(locks)
      ensures var lock := old(locks)[i];
        forall k :: 0 <= k < |lock.owners| && lock.owners[k].subThread == sth ==>
          && hr == Ok
          && locks == if lock.owners[k].recursion > 1 then
                        old(locks)[i := lock.(owners := lock.owners[k := Owner(sth, lock.owners[k].recursion - 1)])]
                      else if |lock.owners| > 1 then
                        old(locks)[i := lock.(owners := lock.owners[..k] + lock.owners[k + 1..])]
                      else if lock.requests == [] then
                        old(locks)[..i] + old(locks)[i + 1..]
                      else
                        old(locks)[i := Lock(lock.resource, threadOf(lock.requests[0].subThread),
                          if ownerAvailable then [Owner(lock.requests[0].subThread, 1)] else [], lock.requests[1..])]
    {
      assert forall j :: 0 <= j < |locks| && locks[j].resource == resource ==> j == i;
      hr := DecrementOwnership(i, sth, ownerAvailable);
    }

    // ---------- Requests that are given up ----------

    /** One request leaves the queue; its thread may be able to run again. */
    method DropRequest(i: int, j: int) returns (restarted: bool)
      requires Sound() && 0 <= i < |locks| && 0 <= j < |locks[i].requests|
      modifies this`locks, this`subRequests, this`threadRequests, this`blocked
      ensures Sound()
      ensures var q := old(locks[i].requests);
        && locks == old(locks)[i := old(locks[i]).(requests := q[..j] + q[j + 1..])]
        && (restarted ==> Get(threadRequests, threadOf(q[j].subThread)) == 0)
    {
      ghost var locks0 := locks;
      var q := locks[i].requests;
      locks := locks[i := locks[i].(requests := q[..j] + q[j + 1..])];
      ListsKept(threadLocks, locks0, locks);
      Dequeued(locks0, i, j, locks[i]);
      restarted := ChangeLockRequestCount(q[j].subThread, -1, locks0, q[j]);
    }

    /** One round of a walk over a queue: the request at j is dropped or passed.  q0 is the queue before
        the walk, and n how many of its requests were looked at. */
    method Sift(i: int, j: int, d: Doom, ghost q0: seq<Request>, ghost n: int) returns (j': int, restarted: bool)
      requires Sound() && 0 <= i < |locks| && 0 <= n < |q0|
      requires locks[i].requests == Surviving(q0[..n], d) + q0[n..] && j == |Surviving(q0[..n], d)|
      modifies this`locks, this`subRequests, this`threadRequests, this`blocked
      ensures Sound() && |locks| == |old(locks)| && locks == old(locks)[i := old(locks[i]).(requests := locks[i].requests)]
      ensures locks[i].requests == Surviving(q0[..n + 1], d) + q0[n + 1..] && j' == |Surviving(q0[..n + 1], d)|
      ensures restarted ==> Doomed(d, q0[n]) && Get(threadRequests, threadOf(q0[n].subThread)) == 0
    {
      var q := locks[i].requests;
      Sifted(q0, n, d, q, j);
      j', restarted := j + 1, false;
      if Doomed(d, q[j]) {
        restarted := DropRequest(i, j);
        j' := j;
      }
    }

    /** The lock-request part of CheckThreads, for one lock: requests whose time is over are dropped. */
    method ExpireRequests(i: int, now: int)
      requires Valid() && 0 <= i < |locks|
      modifies this`locks, this`subRequests, this`threadRequests, this`blocked
      ensures Valid() && |locks| == |old(locks)|
      ensures locks == old(locks)[i := old(locks[i]).(requests := Surviving(old(locks[i].requests), Expired(now)))]
      ensures forall r :: multiset(locks[i].requests)[r] == if r.timeExpire > now then multiset(old(locks[i].requests))[r] else 0
      ensures InOldOrder(old(locks)[i].requests, locks[i].requests)
    {
      ghost var q0 := locks[i].requests;
      DropOverdue(i, now);
      forall r ensures multiset(locks[i].requests)[r] == if r.timeExpire > now then multiset(q0)[r] else 0 {
        SurvivingCounts(q0, Expired(now), r);
      }
      ghost var at := SurvivingPicked(q0, Expired(now));
    }

    /** The walk over the queue. */
    method DropOverdue(i: int, now: int)
      requires Valid() && 0 <= i < |locks|
      modifies this`locks, this`subRequests, this`threadRequests, this`blocked
      ensures Valid() && |locks| == |old(locks)|
      ensures locks == old(locks)[i := old(locks[i]).(requests := Surviving(old(locks[i].requests), Expired(now)))]
    {
      ghost var locks0, q0 := locks, locks[i].requests;
      var j := 0;
      ghost var n := 0;
      while j < |locks[i].requests|
        invariant Sound() && 0 <= n <= |q0| && |locks| == |locks0| && locks == locks0[i := locks0[i].(requests := locks[i].requests)]
        invariant j == |Surviving(q0[..n], Expired(now))| && locks[i].requests == Surviving(q0[..n], Expired(now)) + q0[n..]
        decreases |q0| - n
      {
        var restarted;
        j, restarted := Sift(i, j, Expired(now), q0, n);
        n := n + 1;
      }
      WalkDone(q0, n, Expired(now), locks[i].requests);
      SameOwners(locks0, locks, i);
    }

    /** DeleteLockRequests for a subthread: all its requests are dropped, in whatever queue they are; the
        walk stops as soon as its thread has none left. */
    method DeleteLockRequests(sth: int)
      requires Valid()
      modifies this`locks, this`subRequests, this`threadRequests, this`blocked
      ensures Valid() && |locks| == |old(locks)| && Get(subRequests, sth) == 0
      ensures forall k :: 0 <= k < |locks| ==> locks[k] == old(locks[k]).(requests := Surviving(old(locks[k].requests), OfSubThread(sth)))
      ensures forall k, r :: 0 <= k < |locks| ==>
        multiset(locks[k].requests)[r] == if r.subThread != sth then multiset(old(locks)[k].requests)[r] else 0
      ensures forall k :: 0 <= k < |locks| ==> InOldOrder(old(locks)[k].requests, locks[k].requests)
    {
      ghost var locks0 := locks;
      DropAll(sth);
      forall k, r | 0 <= k < |locks|
        ensures multiset(locks[k].requests)[r] == if r.subThread != sth then multiset(locks0[k].requests)[r] else 0
      {
        SurvivingCounts(locks0[k].requests, OfSubThread(sth), r);
      }
      forall k | 0 <= k < |locks| ensures InOldOrder(locks0[k].requests, locks[k].requests) {
        var at := SurvivingPicked(locks0[k].requests, OfSubThread(sth));
      }
    }

    /** The walk over all queues. */
    method DropAll(sth: int)
      requires Valid()
      modifies this`locks, this`subRequests, this`threadRequests, this`blocked
      ensures Valid() && |locks| == |old(locks)| && Get(subRequests, sth) == 0
      ensures forall k :: 0 <= k < |locks| ==> locks[k] == old(locks[k]).(requests := Surviving(old(locks[k].requests), OfSubThread(sth)))
    {
      ghost var locks0 := locks;
      var stop := Get(subRequests, sth) == 0;
      if stop { NothingQueued(locks, SubThread(sth), sth); }
      var i := 0;
      while i < |locks| && !stop
        invariant 0 <= i <= |locks| && Valid() && |locks| == |locks0|
        invariant forall k :: 0 <= k < i ==> locks[k] == locks0[k].(requests := Surviving(locks0[k].requests, OfSubThread(sth)))
        invariant forall k :: i <= k < |locks| ==> locks[k] == locks0[k]
        invariant stop ==> forall k :: i <= k < |locks| ==> NoneOf(locks[k].requests, sth)
      {
        stop := DeleteFrom(i, sth);
        i := i + 1;
      }
      forall k | i <= k < |locks| ensures Surviving(locks[k].requests, OfSubThread(sth)) == locks[k].requests {
        AllSurvive(locks[k].requests, sth);
      }
      NoneLeft(locks, locks0, sth);
    }

    method DeleteFrom(i: int, sth: int) returns (stop: bool)
      requires Valid() && 0 <= i < |locks|
      modifies this`locks, this`subRequests, this`threadRequests, this`blocked
      ensures Valid() && |locks| == |old(locks)|
      ensures locks == old(locks)[i := old(locks[i]).(requests := Surviving(old(locks[i].requests), OfSubThread(sth)))]
      ensures stop ==> forall k :: 0 <= k < |locks| ==> NoneOf(locks[k].requests, sth)
    {
      ghost var locks0, q0 := locks, locks[i].requests;
      var j := 0;
      ghost var n := 0;
      stop := false;
      while j < |locks[i].requests| && !stop
        invariant Sound() && 0 <= n <= |q0| && |locks| == |locks0| && locks == locks0[i := locks0[i].(requests := locks[i].requests)]
        invariant j == |Surviving(q0[..n], OfSubThread(sth))| && locks[i].requests == Surviving(q0[..n], OfSubThread(sth)) + q0[n..]
        invariant stop ==> forall k :: 0 <= k < |locks| ==> NoneOf(locks[k].requests, sth)
        decreases |q0| - n
      {
        j, stop := Sift(i, j, OfSubThread(sth), q0, n);
        if stop { NothingQueued(locks, Thread(threadOf(sth), threadOf), sth); }
        n := n + 1;
      }
      if stop {
        SurvivingRest(q0, n, sth);
      } else {
        WalkDone(q0, n, OfSubThread(sth), locks[i].requests);
      }
      SameOwners(locks0, locks, i);
    }

    /** Lock::DestroyOwner: a subthread that ends gives up the lock whatever its recursion. */
    method DestroyOwner(i: int, sth: int, ownerAvailable: bool)
      requires Valid() && 0 <= i < |locks|
      modifies this
      ensures Valid()
      ensures var owners := Others(old(locks[i].owners), sth);
        var mid := old(locks)[i := old(locks[i]).(owners := owners)];
        if owners == [] then HandedOver(mid, locks, i, threadOf, ownerAvailable) else locks == mid
      ensures history == old(history) + EndEvents(old(locks[i]), sth, ownerAvailable)
    {
      ghost var locks0, resource := locks, locks[i].resource;
      var owners := Others(locks[i].owners, sth);
      OthersOk(locks[i].owners, locks[i].owningThread, threadOf, sth);
      SetOwners(i, owners);
      AbandonedHeld(locks0, locks, history, i, sth, threadOf);
      history := history + [Abandoned(resource, sth)];
      if locks[i].owners == [] {
        ghost var mid := locks;
        ghost var events := GrantEvents(locks[i], ownerAvailable);
        ChangeOwner(i, ownerAvailable);
        HandedOverHeld(mid, locks, history, i, threadOf, ownerAvailable);
        history := history + events;
      }
    }
  }

  /** Which requests are to go. */
  datatype Doom = Expired(now: int) | OfSubThread(sth: int)

  predicate Doomed(d: Doom, req: Request) {
    match d
    case Expired(now) => req.timeExpire <= now
    case OfSubThread(sth) => req.subThread == sth
  }

  /** The requests that stay, in the order in which they arrived. */
  function Surviving(reqs: seq<Request>, d: Doom): seq<Request> {
    if reqs == [] then []
    else Surviving(reqs[..|reqs| - 1], d) + if Doomed(d, reqs[|reqs| - 1]) then [] else [reqs[|reqs| - 1]]
  }

  /** The elements of q are those of q0 at the places in at, in the same order. */
  ghost predicate Picked(q0: seq<Request>, q: seq<Request>, at: seq<int>) {
    && |at| == |q|
    && (forall k :: 0 <= k < |q| ==> 0 <= at[k] < |q0| && q[k] == q0[at[k]])
    && (forall j, k :: 0 <= j < k < |at| ==> at[j] < at[k])
  }

  ghost predicate InOldOrder(q0: seq<Request>, q: seq<Request>) {
    exists at: seq<int> :: Picked(q0, q, at)
  }

  lemma {:induction false} SurvivingCounts(reqs: seq<Request>, d: Doom, r: Request)
    ensures multiset(Surviving(reqs, d))[r] == if Doomed(d, r) then 0 else multiset(reqs)[r]
  {
    if reqs != [] {
      var n := |reqs| - 1;
      SurvivingCounts(reqs[..n], d, r);
      assert reqs == reqs[..n] + [reqs[n]];
    }
  }

  lemma {:induction false} SurvivingPicked(reqs: seq<Request>, d: Doom) returns (at: seq<int>)
    ensures Picked(reqs, Surviving(reqs, d), at)
  {
    if reqs == [] {
      at := [];
    } else {
      var n := |reqs| - 1;
      at := SurvivingPicked(reqs[..n], d);
      if !Doomed(d, reqs[n]) { at := at + [n]; }
    }
  }

  lemma SurvivingNext(q: seq<Request>, n: int, d: Doom)
    requires 0 <= n < |q|
    ensures Surviving(q[..n + 1], d) == Surviving(q[..n], d) + if Doomed(d, q[n]) then [] else [q[n]]
    ensures q[n..] == [q[n]] + q[n + 1..]
  {
    assert q[..n + 1][..n] == q[..n];
  }

  /** What one round of a walk over a queue does to it. */
  lemma Sifted(q0: seq<Request>, n: int, d: Doom, q: seq<Request>, j: int)
    requires 0 <= n < |q0| && q == Surviving(q0[..n], d) + q0[n..] && j == |Surviving(q0[..n], d)|
    ensures 0 <= j < |q| && q[j] == q0[n]
    ensures Doomed(d, q0[n]) ==> q[..j] + q[j + 1..] == Surviving(q0[..n + 1], d) + q0[n + 1..] && j == |Surviving(q0[..n + 1], d)|
    ensures !Doomed(d, q0[n]) ==> q == Surviving(q0[..n + 1], d) + q0[n + 1..] && j + 1 == |Surviving(q0[..n + 1], d)|
  {
    SurvivingNext(q0, n, d);
    assert q[..j] == Surviving(q0[..n], d) && q[j + 1..] == q0[n + 1..];
  }

  lemma WalkDone(q: seq<Request>, n: int, d: Doom, rest: seq<Request>)
    requires 0 <= n <= |q| && rest == Surviving(q[..n], d) + q[n..] && |rest| <= |Surviving(q[..n], d)|
    ensures rest == Surviving(q, d)
  {
    assert q[..n] == q && q[n..] == [];
  }

  ghost predicate NoneOf(reqs: seq<Request>, sth: int) {
    forall j :: 0 <= j < |reqs| ==> reqs[j].subThread != sth
  }

  lemma {:induction false} AllSurvive(reqs: seq<Request>, sth: int)
    requires NoneOf(reqs, sth)
    ensures Surviving(reqs, OfSubThread(sth)) == reqs
  {
    if reqs != [] { AllSurvive(reqs[..|reqs| - 1], sth); }
  }

  lemma {:induction false} SurvivingConcat(a: seq<Request>, b: seq<Request>, d: Doom)
    ensures Surviving(a + b, d) == Surviving(a, d) + Surviving(b, d)
  {
    if b == [] {
      assert a + b == a;
    } else {
      assert (a + b)[..|a + b| - 1] == a + b[..|b| - 1];
      SurvivingConcat(a, b[..|b| - 1], d);
    }
  }

  lemma SurvivingRest(q: seq<Request>, n: int, sth: int)
    requires 0 <= n <= |q| && NoneOf(Surviving(q[..n], OfSubThread(sth)) + q[n..], sth)
    ensures Surviving(q[..n], OfSubThread(sth)) + q[n..] == Surviving(q, OfSubThread(sth))
  {
    var a, b := q[..n], q[n..];
    NoneOfTail(Surviving(a, OfSubThread(sth)), b, sth);
    AllSurvive(b, sth);
    SurvivingConcat(a, b, OfSubThread(sth));
    assert q == a + b;
  }

  lemma NoneOfTail(a: seq<Request>, b: seq<Request>, sth: int)
    requires NoneOf(a + b, sth)
    ensures NoneOf(b, sth)
  {
    forall j | 0 <= j < |b| ensures b[j].subThread != sth {
      assert (a + b)[|a| + j] == b[j];
    }
  }

  /** When a counter is zero, no queue holds a request that it counts. */
  lemma {:induction false} NothingQueued(locks: seq<Lock>, who: Who, sth: int)
    requires Pending(locks, who) == 0 && forall req: Request :: req.subThread == sth ==> Matches(who, req)
    ensures forall k :: 0 <= k < |locks| ==> NoneOf(locks[k].requests, sth)
  {
    if locks != [] {
      NoneCounted(locks[0].requests, who, sth);
      NothingQueued(locks[1..], who, sth);
      assert forall k :: 0 < k < |locks| ==> locks[k] == locks[1..][k - 1];
    }
  }

  lemma {:induction false} NoneCounted(reqs: seq<Request>, who: Who, sth: int)
    requires Count(reqs, who) == 0 && forall req: Request :: req.subThread == sth ==> Matches(who, req)
    ensures NoneOf(reqs, sth)
  {
    if reqs != [] {
      NoneCounted(reqs[1..], who, sth);
      assert forall j :: 0 < j < |reqs| ==> reqs[j] == reqs[1..][j - 1];
    }
  }

  /** After the deletion the counter of the subthread is zero. */
  lemma {:induction false} NoneLeft(locks: seq<Lock>, locks0: seq<Lock>, sth: int)
    requires |locks| == |locks0|
    requires forall k :: 0 <= k < |locks| ==> locks[k].requests == Surviving(locks0[k].requests, OfSubThread(sth))
    ensures Pending(locks, SubThread(sth)) == 0
  {
    if locks != [] {
      NoneCountedAfter(locks0[0].requests, sth);
      NoneLeft(locks[1..], locks0[1..], sth);
    }
  }

  lemma {:induction false} NoneCountedAfter(reqs: seq<Request>, sth: int)
    ensures Count(Surviving(reqs, OfSubThread(sth)), SubThread(sth)) == 0
  {
    if reqs != [] {
      var a := reqs[..|reqs| - 1];
      var last := if Doomed(OfSubThread(sth), reqs[|reqs| - 1]) then [] else [reqs[|reqs| - 1]];
      NoneCountedAfter(a, sth);
      CountConcat(Surviving(a, OfSubThread(sth)), last, SubThread(sth));
    }
  }

  /** Changes in a queue do not change who holds what. */
  lemma SameOwners(locks: seq<Lock>, locks': seq<Lock>, i: int)
    requires Resources(locks) && Resources(locks') && 0 <= i < |locks| && |locks'| == |locks|
    requires locks' == locks[i := locks[i].(requests := locks'[i].requests)]
    ensures forall r, s :: Held(locks', r, s) == Held(locks, r, s)
  {
    forall r, s ensures Held(locks', r, s) == Held(locks, r, s) {
      if k :| 0 <= k < |locks| && locks[k].resource == r {
        HeldIs(locks, k, s);
        HeldIs(locks', k, s);
      } else {
        forall k | 0 <= k < |locks'| ensures locks'[k].resource != r {
          var same := locks[k].resource;
        }
      }
    }
  }

  /** The owners other than a subthread. */
  function Others(owners: seq<Owner>, sth: int): seq<Owner> {
    if owners == [] then [] else (if owners[0].subThread == sth then [] else [owners[0]]) + Others(owners[1..], sth)
  }

  lemma {:induction false} OthersOk(owners: seq<Owner>, th: int, threadOf: int -> int, sth: int)
    requires OwnersOk(owners, th, threadOf)
    ensures OwnersOk(Others(owners, sth), th, threadOf)
    ensures forall o :: o in Others(owners, sth) ==> o in owners
  {
    if owners != [] {
      var rest := owners[1..];
      assert forall k :: 0 <= k < |rest| ==> rest[k] == owners[k + 1];
      OthersOk(rest, th, threadOf, sth);
      var o := Others(rest, sth);
      forall k | 0 <= k < |o| ensures o[k].subThread != owners[0].subThread {
        assert o[k] in o && o[k] in rest;
      }
    }
  }

  lemma {:induction false} OthersRecursion(owners: seq<Owner>, sth: int, s: int)
    ensures Recursion(Others(owners, sth), s) == if s == sth then 0 else Recursion(owners, s)
  {
    if owners != [] {
      var rest := Others(owners[1..], sth);
      OthersRecursion(owners[1..], sth, s);
      if owners[0].subThread == sth {
        assert Others(owners, sth) == rest;
      } else {
        var o := [owners[0]] + rest;
        assert o[0] == owners[0] && o[1..] == rest;
        assert Others(owners, sth) == o;
      }
    }
  }

  lemma AbandonedHeld(locks: seq<Lock>, locks': seq<Lock>, history: seq<Event>, i: int, sth: int, threadOf: int -> int)
    requires LocksOk(locks, threadOf) && 0 <= i < |locks| && Ledger(locks, history)
    requires locks' == locks[i := locks[i].(owners := Others(locks[i].owners, sth))]
    ensures Ledger(locks', history + [Abandoned(locks[i].resource, sth)])
  {
    forall r, s ensures Held(locks', r, s) == Balance(history + [Abandoned(locks[i].resource, sth)], r, s) {
      BalanceStep(history, Abandoned(locks[i].resource, sth), r, s);
      OthersRecursion(locks[i].owners, sth, s);
      assert Held(locks, r, s) == Balance(history, r, s);
      if k :| 0 <= k < |locks| && locks[k].resource == r {
        HeldIs(locks, k, s);
        HeldIs(locks', k, s);
      } else {
        forall k | 0 <= k < |locks'| ensures locks'[k].resource != r {
          var same := locks[k].resource;
        }
      }
    }
  }

  lemma HandedOverHeld(locks: seq<Lock>, locks': seq<Lock>, history: seq<Event>, i: int, threadOf: int -> int,
          ownerAvailable: bool)
    requires LocksOk(locks, threadOf) && LocksOk(locks', threadOf) && Ledger(locks, history)
    requires 0 <= i < |locks| && locks[i].owners == [] && HandedOver(locks, locks', i, threadOf, ownerAvailable)
    ensures Ledger(locks', history + GrantEvents(locks[i], ownerAvailable))
  {
    var events := GrantEvents(locks[i], ownerAvailable);
    assert history + [] == history;
    assert locks == locks[i := locks[i].(owners := [])];
    ReleasedOther(locks, locks', i, 0, threadOf, ownerAvailable, []);
    forall r, s ensures Held(locks', r, s) == Balance(history + events, r, s) {
      if events != [] { BalanceStep(history, events[0], r, s); }
      assert Held(locks, r, s) == Balance(history, r, s);
      HeldIs(locks, i, s);
      if r != locks[i].resource {
        OthersHeld(locks, locks', locks[i].resource, r, s);
      } else if locks[i].requests != [] {
        HeldIs(locks', i, s);
      } else {
        forall k | 0 <= k < |locks'| ensures locks'[k].resource != r {
          assert locks'[k] == locks[if k < i then k else k + 1];
        }
      }
    }
  }

  // ---------- Who holds what, over a whole run ----------

  datatype Event = Acquired(resource: int, sth: int) | Left(resource: int, sth: int) | Abandoned(resource: int, sth: int)

  /** How often a subthread acquired a lock and did not release it again. */
  function Balance(history: seq<Event>, resource: int, sth: int): int {
    if history == [] then 0
    else Booked(Balance(history[..|history| - 1], resource, sth), history[|history| - 1], resource, sth)
  }

  function Booked(balance: int, e: Event, resource: int, sth: int): int {
    if e.resource != resource || e.sth != sth then balance
    else match e
      case Acquired(_, _) => balance + 1
      case Left(_, _) => balance - 1
      case Abandoned(_, _) => 0
  }

  /** How often a subthread holds a lock. */
  ghost function Held(locks: seq<Lock>, resource: int, sth: int): int {
    if i :| 0 <= i < |locks| && locks[i].resource == resource then Recursion(locks[i].owners, sth) else 0
  }

  ghost predicate Ledger(locks: seq<Lock>, history: seq<Event>) {
    forall r, s :: Held(locks, r, s) == Balance(history, r, s)
  }

  ghost predicate Resources(locks: seq<Lock>) {
    forall i, j :: 0 <= i < j < |locks| ==> locks[i].resource != locks[j].resource
  }

  lemma HeldIs(locks: seq<Lock>, i: int, sth: int)
    requires Resources(locks) && 0 <= i < |locks|
    ensures Held(locks, locks[i].resource, sth) == Recursion(locks[i].owners, sth)
  {
  }

  lemma BalanceStep(history: seq<Event>, e: Event, r: int, s: int)
    ensures Balance(history + [e], r, s) == Booked(Balance(history, r, s), e, r, s)
  {
    assert (history + [e])[..|history|] == history;
  }

  /** The lock of one resource changed, or came, or went. */
  ghost predicate OnlyLock(locks: seq<Lock>, locks': seq<Lock>, resource: int) {
    && (forall k :: 0 <= k < |locks| && locks[k].resource != resource ==> locks[k] in locks')
    && (forall k :: 0 <= k < |locks'| && locks'[k].resource != resource ==> locks'[k] in locks)
  }

  lemma OthersHeld(locks: seq<Lock>, locks': seq<Lock>, resource: int, r: int, s: int)
    requires Resources(locks) && Resources(locks') && OnlyLock(locks, locks', resource) && r != resource
    ensures Held(locks', r, s) == Held(locks, r, s)
  {
    if i :| 0 <= i < |locks| && locks[i].resource == r {
      var j :| 0 <= j < |locks'| && locks'[j] == locks[i];
      HeldIs(locks, i, s);
      HeldIs(locks', j, s);
    } else {
      forall j | 0 <= j < |locks'| ensures locks'[j].resource != r {
        var kept := locks'[j] in locks;
      }
    }
  }

  lemma LockStepHeld(locks: seq<Lock>, locks': seq<Lock>, history: seq<Event>, resource: int, sth: int,
          timeExpire: int, force: bool, threadOf: int -> int,
      lockAvailable: bool, ownerAvailable: bool, requestAvailable: bool, hr: HResult)
    requires LockStep(locks, locks', resource, sth, timeExpire, force, threadOf, lockAvailable, ownerAvailable, requestAvailable, hr)
    requires LocksOk(locks, threadOf) && LocksOk(locks', threadOf) && Ledger(locks, history)
    ensures Ledger(locks', history + if hr == Ok then [Acquired(resource, sth)] else [])
  {
    forall r, s ensures Held(locks', r, s) == Balance(history + if hr == Ok then [Acquired(resource, sth)] else [], r, s) {
      BalanceStep(history, Acquired(resource, sth), r, s);
      assert history + [] == history;
      LockStepOther(locks, locks', resource, sth, timeExpire, force, threadOf, lockAvailable, ownerAvailable, requestAvailable, hr);
      if r != resource { OthersHeld(locks, locks', resource, r, s); }
      assert Held(locks, r, s) == Balance(history, r, s);
      if i :| 0 <= i < |locks| && locks[i].resource == resource {
        HeldIs(locks, i, s);
        HeldIs(locks', i, s);
      } else if lockAvailable {
        HeldIs(locks', |locks|, s);
      }
    }
  }

  lemma LockStepOther(locks: seq<Lock>, locks': seq<Lock>, resource: int, sth: int, timeExpire: int, force: bool,
          threadOf: int -> int,
      lockAvailable: bool, ownerAvailable: bool, requestAvailable: bool, hr: HResult)
    requires LockStep(locks, locks', resource, sth, timeExpire, force, threadOf, lockAvailable, ownerAvailable, requestAvailable, hr)
    requires Resources(locks)
    ensures OnlyLock(locks, locks', resource)
  {
    if i :| 0 <= i < |locks| && locks[i].resource == resource {
      assert forall k :: 0 <= k < |locks| && k != i ==> locks'[k] == locks[k];
    } else if lockAvailable {
      forall k | 0 <= k < |locks| ensures locks[k] in locks' { assert locks'[k] == locks[k]; }
    }
  }

  /** What a release adds to the history: the release, and the grant to the request that waited longest if
      it was the last one. */
  ghost function UnlockEvents(locks: seq<Lock>, resource: int, sth: int, ownerAvailable: bool, hr: HResult): seq<Event> {
    if hr != Ok then []
    else if i :| 0 <= i < |locks| && locks[i].resource == resource then
      [Left(resource, sth)] + if LastOwner(locks[i].owners, sth) then GrantEvents(locks[i], ownerAvailable) else []
    else []
  }

  /** The grant of a lock to the request that waited longest. */
  ghost function GrantEvents(lock: Lock, ownerAvailable: bool): seq<Event> {
    if lock.requests != [] && ownerAvailable then [Acquired(lock.resource, lock.requests[0].subThread)] else []
  }

  /** What the end of a subthread adds to the history. */
  ghost function EndEvents(lock: Lock, sth: int, ownerAvailable: bool): seq<Event> {
    [Abandoned(lock.resource, sth)] + if Others(lock.owners, sth) == [] then GrantEvents(lock, ownerAvailable) else []
  }

  /** The subthread is the only owner and about to leave for good. */
  ghost predicate LastOwner(owners: seq<Owner>, sth: int) {
    Recursion(owners, sth) == 1 && forall s :: s != sth ==> Recursion(owners, s) == 0
  }

  lemma UnlockStepHeld(locks: seq<Lock>, locks': seq<Lock>, history: seq<Event>, resource: int, sth: int,
          threadOf: int -> int, ownerAvailable: bool, hr: HResult)
    requires UnlockStep(locks, locks', resource, sth, threadOf, ownerAvailable, hr)
    requires LocksOk(locks, threadOf) && LocksOk(locks', threadOf) && Ledger(locks, history)
    ensures Ledger(locks', history + UnlockEvents(locks, resource, sth, ownerAvailable, hr))
  {
    var events := UnlockEvents(locks, resource, sth, ownerAvailable, hr);
    assert history + [] == history;
    if hr == Ok {
      var i :| 0 <= i < |locks| && locks[i].resource == resource;
      UnlockEventsAre(locks, resource, sth, ownerAvailable, i);
      forall r, s ensures Held(locks', r, s) == Balance(history + events, r, s) {
        assert Held(locks, r, s) == Balance(history, r, s);
        UnlockHeldAt(locks, locks', history, events, sth, threadOf, ownerAvailable, i, r, s);
      }
    }
  }

  lemma UnlockEventsAre(locks: seq<Lock>, resource: int, sth: int, ownerAvailable: bool, i: int)
    requires Resources(locks) && 0 <= i < |locks| && locks[i].resource == resource
    ensures UnlockEvents(locks, resource, sth, ownerAvailable, Ok) ==
      [Left(resource, sth)] + if LastOwner(locks[i].owners, sth) then GrantEvents(locks[i], ownerAvailable) else []
  {
  }

  lemma UnlockHeldAt(locks: seq<Lock>, locks': seq<Lock>, history: seq<Event>, events: seq<Event>, sth: int,
          threadOf: int -> int, ownerAvailable: bool, i: int, r: int, s: int)
    requires 0 <= i < |locks| && Released(locks, locks', i, sth, threadOf, ownerAvailable, Ok)
    requires LocksOk(locks, threadOf) && LocksOk(locks', threadOf) && Held(locks, r, s) == Balance(history, r, s)
    requires events == [Left(locks[i].resource, sth)] + if LastOwner(locks[i].owners, sth) then GrantEvents(locks[i], ownerAvailable) else []
    ensures Held(locks', r, s) == Balance(history + events, r, s)
  {
    ReleasedHeld(locks, locks', i, sth, threadOf, ownerAvailable, Ok, r, s);
    var left := Left(locks[i].resource, sth);
    BalanceStep(history, left, r, s);
    if |events| == 2 {
      BalanceStep(history + [left], events[1], r, s);
      assert history + events == history + [left] + [events[1]];
    } else {
      assert events == [left];
    }
  }

  lemma ReleasedHeld(locks: seq<Lock>, locks': seq<Lock>, i: int, sth: int, threadOf: int -> int,
          ownerAvailable: bool, hr: HResult, r: int, s: int)
    requires LocksOk(locks, threadOf) && LocksOk(locks', threadOf) && 0 <= i < |locks|
    requires Released(locks, locks', i, sth, threadOf, ownerAvailable, hr) && hr == Ok
    ensures var granted := LastOwner(locks[i].owners, sth) && locks[i].requests != [] && ownerAvailable && r == locks[i].resource
        && s == locks[i].requests[0].subThread;
      Held(locks', r, s) == Held(locks, r, s) + (if r == locks[i].resource && s == sth then -1 else 0) + (if granted then 1 else 0)
  {
    var owners :| Adjusted(locks[i].owners, owners, sth, -1) &&
      var mid := locks[i := locks[i].(owners := owners)];
      if owners == [] then HandedOver(mid, locks', i, threadOf, ownerAvailable) else locks' == mid;
    NoOwners(locks, locks', i, sth, threadOf, owners);
    HeldIs(locks, i, s);
    ReleasedOther(locks, locks', i, sth, threadOf, ownerAvailable, owners);
    if r != locks[i].resource {
      OthersHeld(locks, locks', locks[i].resource, r, s);
    } else if owners != [] || locks[i].requests != [] {
      HeldIs(locks', i, s);
    } else {
      forall k | 0 <= k < |locks'| ensures locks'[k].resource != r {
        assert locks'[k] == locks[if k < i then k else k + 1];
      }
    }
  }

  lemma ReleasedOther(locks: seq<Lock>, locks': seq<Lock>, i: int, sth: int, threadOf: int -> int,
          ownerAvailable: bool, owners: seq<Owner>)
    requires 0 <= i < |locks| && Resources(locks)
    requires var mid := locks[i := locks[i].(owners := owners)];
      if owners == [] then HandedOver(mid, locks', i, threadOf, ownerAvailable) else locks' == mid
    ensures OnlyLock(locks, locks', locks[i].resource)
  {
    if owners == [] && locks[i].requests == [] {
      forall k | 0 <= k < |locks| && k != i ensures locks[k] in locks' {
        assert locks'[if k < i then k else k - 1] == locks[k];
      }
      forall k | 0 <= k < |locks'| ensures locks'[k] in locks {
        assert locks'[k] == locks[if k < i then k else k + 1];
      }
    } else {
      assert |locks'| == |locks| && forall k :: 0 <= k < |locks| && k != i ==> locks'[k] == locks[k];
    }
  }

  /** The owners left after the last one has gone are none. */
  lemma NoOwners(locks: seq<Lock>, locks': seq<Lock>, i: int, sth: int, threadOf: int -> int, owners: seq<Owner>)
    requires 0 <= i < |locks| && LocksOk(locks, threadOf) && Adjusted(locks[i].owners, owners, sth, -1)
    requires owners != [] ==> i < |locks'| && locks'[i].owners == owners && LocksOk(locks', threadOf)
    ensures owners == [] <==> LastOwner(locks[i].owners, sth)
  {
    if owners == [] {
      forall s ensures Recursion(locks[i].owners, s) == if s == sth then 1 else 0 {
        assert Recursion(owners, s) == 0;
      }
    } else {
      RecursionIs(owners, locks'[i].owningThread, threadOf, owners[0].subThread);
    }
  }

  // ---------- Locks that nobody can release ----------

  ghost predicate AllOwned(locks: seq<Lock>) {
    forall i :: 0 <= i < |locks| ==> locks[i].owners != []
  }

  /** Every lock that exists has an owner, with one exception: when the lock itself could be allocated but
      not the entry for its first owner, the lock stays behind without one. */
  lemma OwnedAfterLock(locks: seq<Lock>, locks': seq<Lock>, resource: int, sth: int, timeExpire: int, force: bool,
          threadOf: int -> int,
      lockAvailable: bool, ownerAvailable: bool, requestAvailable: bool, hr: HResult)
    requires LockStep(locks, locks', resource, sth, timeExpire, force, threadOf, lockAvailable, ownerAvailable, requestAvailable, hr)
    requires LocksOk(locks, threadOf) && LocksOk(locks', threadOf) && AllOwned(locks)
    ensures AllOwned(locks') <==> !(lockAvailable && !ownerAvailable && forall k :: 0 <= k < |locks| ==> locks[k].resource != resource)
  {
    if i :| 0 <= i < |locks| && locks[i].resource == resource {
      var s := locks[i].owners[0].subThread;
      RecursionIs(locks[i].owners, locks[i].owningThread, threadOf, s);
      RecursionIs(locks[i].owners, locks[i].owningThread, threadOf, sth);
      var kept := Recursion(locks'[i].owners, s);
    } else if lockAvailable {
      var lock := locks'[|locks|];
      assert ownerAvailable ==> Adjusted([], lock.owners, sth, 1) && Recursion(lock.owners, sth) == 1;
      if !ownerAvailable { assert lock.owners == []; }
    }
  }

  /** The same when a lock is passed on. */
  lemma OwnedAfterHandOver(locks: seq<Lock>, locks': seq<Lock>, i: int, threadOf: int -> int, ownerAvailable: bool)
    requires HandedOver(locks, locks', i, threadOf, ownerAvailable)
    requires forall k :: 0 <= k < |locks| && k != i ==> locks[k].owners != []
    ensures AllOwned(locks') <==> locks[i].requests == [] || ownerAvailable
  {
    if locks[i].requests == [] {
      assert forall k :: 0 <= k < |locks'| ==> locks'[k] == locks[if k < i then k else k + 1];
    } else {
      assert locks'[i].owners == if ownerAvailable then [Owner(locks[i].requests[0].subThread, 1)] else [];
    }
  }

  /** That lock: nothing was there, the lock could be allocated and the entry for its owner could not. */
  lemma OrphanMade(threadOf: int -> int, locks': seq<Lock>, hr: HResult)
    requires LockStep([], locks', 5, 1, 0, false, threadOf, true, false, true, hr)
    ensures hr == OutOfMemory && locks' == [Lock(5, threadOf(1), [], [])] && !AllOwned(locks')
  {
    assert locks'[0].owners == [];
  }

  /** At any time the subthreads that hold a lock belong to one thread. */
  lemma MutualExclusion(locks: seq<Lock>, threadOf: int -> int, resource: int, s: int, s': int)
    requires LocksOk(locks, threadOf) && Held(locks, resource, s) > 0 && Held(locks, resource, s') > 0
    ensures threadOf(s) == threadOf(s')
  {
    var i :| 0 <= i < |locks| && locks[i].resource == resource;
    HeldIs(locks, i, s);
    HeldIs(locks, i, s');
    RecursionIs(locks[i].owners, locks[i].owningThread, threadOf, s);
    RecursionIs(locks[i].owners, locks[i].owningThread, threadOf, s');
    var j :| 0 <= j < |locks[i].owners| && locks[i].owners[j].subThread == s;
    var k :| 0 <= k < |locks[i].owners| && locks[i].owners[k].subThread == s';
  }

  /** A lock without owners is passed on, or goes. */
  ghost predicate HandedOver(locks: seq<Lock>, locks': seq<Lock>, i: int, threadOf: int -> int, ownerAvailable: bool) {
    && 0 <= i < |locks|
    && if locks[i].requests == [] then locks' == locks[..i] + locks[i + 1..]
       else var req := locks[i].requests[0];
         var th := threadOf(req.subThread);
         && |locks'| == |locks|
         && locks' == locks[i := Lock(locks[i].resource, th, if ownerAvailable then [Owner(req.subThread, 1)] else [], locks[i].requests[1..])]
  }

  /** What an attempt to leave a lock does: an error, and nothing, if the subthread has not entered it; else
      one level of recursion less, and when the last owner is gone the lock is handed over. */
  ghost predicate Released(locks: seq<Lock>, locks': seq<Lock>, i: int, sth: int, threadOf: int -> int,
          ownerAvailable: bool, hr: HResult)
  {
    && 0 <= i < |locks|
    && if Recursion(locks[i].owners, sth) == 0 then
         hr == LockSynchronizationException && locks' == locks
       else
         && hr == Ok
         && exists owners :: OwnersOk(owners, locks[i].owningThread, threadOf) && Adjusted(locks[i].owners, owners, sth, -1) &&
              var mid := locks[i := locks[i].(owners := owners)];
              if owners == [] then HandedOver(mid, locks', i, threadOf, ownerAvailable) else locks' == mid
  }

  ghost predicate LockStep(locks: seq<Lock>, locks': seq<Lock>, resource: int, sth: int, timeExpire: int, force: bool,
          threadOf: int -> int,
    lockAvailable: bool, ownerAvailable: bool, requestAvailable: bool, hr: HResult)
  {
    if i :| 0 <= i < |locks| && locks[i].resource == resource then
      && |locks'| == |locks| && (forall k :: 0 <= k < |locks| && k != i ==> locks'[k] == locks[k])
      && Entered(locks[i], locks'[i], sth, timeExpire, force, threadOf, ownerAvailable, requestAvailable, hr)
    else if !lockAvailable then
      hr == OutOfMemory && locks' == locks
    else
      && |locks'| == |locks| + 1 && (forall k :: 0 <= k < |locks| ==> locks'[k] == locks[k])
      && Entered(Lock(resource, threadOf(sth), [], []), locks'[|locks|], sth, timeExpire, force, threadOf, ownerAvailable, requestAvailable, hr)
  }

  ghost predicate UnlockStep(locks: seq<Lock>, locks': seq<Lock>, resource: int, sth: int, threadOf: int -> int,
          ownerAvailable: bool, hr: HResult)
  {
    if i :| 0 <= i < |locks| && locks[i].resource == resource then
      Released(locks, locks', i, sth, threadOf, ownerAvailable, hr)
    else
      hr == LockSynchronizationException && locks' == locks
  }

  lemma OwnerGone(owners: seq<Owner>, th: int, threadOf: int -> int, k: int)
    requires OwnersOk(owners, th, threadOf) && 0 <= k < |owners| && owners[k].recursion == 1
    ensures OwnersOk(owners[..k] + owners[k + 1..], th, threadOf)
    ensures Adjusted(owners, owners[..k] + owners[k + 1..], owners[k].subThread, -1)
  {
    var owners' := owners[..k] + owners[k + 1..];
    forall j | 0 <= j < |owners'| ensures owners'[j] == owners[if j < k then j else j + 1] { }
    forall s ensures Recursion(owners', s) == Recursion(owners, s) + (if s == owners[k].subThread then -1 else 0) {
      GoneRecursion(owners, owners', th, threadOf, k, s);
    }
  }

  lemma GoneRecursion(owners: seq<Owner>, owners': seq<Owner>, th: int, threadOf: int -> int, k: int, s: int)
    requires OwnersOk(owners, th, threadOf) && 0 <= k < |owners| && owners[k].recursion == 1
    requires |owners'| == |owners| - 1 && OwnersOk(owners', th, threadOf)
    requires forall j :: 0 <= j < |owners'| ==> owners'[j] == owners[if j < k then j else j + 1]
    ensures Recursion(owners', s) == Recursion(owners, s) + (if s == owners[k].subThread then -1 else 0)
  {
    RecursionIs(owners, th, threadOf, s);
    RecursionIs(owners', th, threadOf, s);
    forall j | 0 <= j < |owners| && j != k ensures owners[j] == owners'[if j < k then j else j - 1] { }
    if Recursion(owners', s) != 0 {
      var j :| 0 <= j < |owners'| && owners'[j].subThread == s;
      assert owners[if j < k then j else j + 1].subThread == s;
    }
  }

  ghost predicate LocksOk(locks: seq<Lock>, threadOf: int -> int) {
    && (forall i :: 0 <= i < |locks| ==> LockOk(locks[i], threadOf))
    && (forall i, j :: 0 <= i < j < |locks| ==> locks[i].resource != locks[j].resource)
  }

  /** The recursion of one subthread changed by diff, that of the others did not. */
  ghost predicate Adjusted(owners: seq<Owner>, owners': seq<Owner>, sth: int, diff: int) {
    forall s :: Recursion(owners', s) == Recursion(owners, s) + (if s == sth then diff else 0)
  }

  lemma OwnerChanged(owners: seq<Owner>, owners': seq<Owner>, th: int, threadOf: int -> int, k: int)
    requires OwnersOk(owners, th, threadOf) && 0 <= k < |owners| == |owners'|
    requires owners' == owners[k := owners[k].(recursion := owners'[k].recursion)] && 1 <= owners'[k].recursion
    ensures OwnersOk(owners', th, threadOf)
    ensures Adjusted(owners, owners', owners[k].subThread, owners'[k].recursion - owners[k].recursion)
  {
    forall s ensures Recursion(owners', s) == Recursion(owners, s) + (if s == owners[k].subThread then owners'[k].recursion - owners[k].recursion else 0) {
      RecursionIs(owners, th, threadOf, s);
      RecursionIs(owners', th, threadOf, s);
      if Recursion(owners, s) != 0 {
        var j :| 0 <= j < |owners| && owners[j].subThread == s;
        assert owners'[j].subThread == s;
      } else {
        assert forall j :: 0 <= j < |owners'| ==> owners'[j].subThread == owners[j].subThread != s;
      }
    }
  }

  lemma OwnerAdded(owners: seq<Owner>, th: int, threadOf: int -> int, sth: int)
    requires OwnersOk(owners, th, threadOf) && threadOf(sth) == th
    requires forall j :: 0 <= j < |owners| ==> owners[j].subThread != sth
    ensures OwnersOk([Owner(sth, 1)] + owners, th, threadOf) && Adjusted(owners, [Owner(sth, 1)] + owners, sth, 1)
  {
    var owners' := [Owner(sth, 1)] + owners;
    assert owners'[1..] == owners;
    RecursionIs(owners, th, threadOf, sth);
  }

  /** Nothing changed in the queue of lock i. */
  lemma SameQueues(locks: seq<Lock>, i: int, lock: Lock)
    requires 0 <= i < |locks| && lock.requests == locks[i].requests
    ensures forall who {:trigger Pending(locks[i := lock], who)} :: Pending(locks[i := lock], who) == Pending(locks, who)
  {
    forall who ensures Pending(locks[i := lock], who) == Pending(locks, who) {
      PendingUpdate(locks, i, lock, who);
    }
  }

  /** What an attempt to enter a lock does to it. */
  ghost predicate Entered(lock: Lock, lock': Lock, sth: int, timeExpire: int, force: bool, threadOf: int -> int,
          ownerAvailable: bool, requestAvailable: bool, hr: HResult)
  {
    if lock.owningThread == threadOf(sth) then
      if Recursion(lock.owners, sth) == 0 && !ownerAvailable then
        hr == OutOfMemory && lock' == lock
      else
        && hr == Ok && lock' == lock.(owners := lock'.owners)
        && OwnersOk(lock'.owners, lock.owningThread, threadOf) && Adjusted(lock.owners, lock'.owners, sth, 1)
    else if requestAvailable then
      hr == ThreadWaiting && lock' == lock.(requests := lock.requests + [Request(sth, timeExpire, force)])
    else
      hr == OutOfMemory && lock' == lock
  }
}
