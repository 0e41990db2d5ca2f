/** Monitors over whole runs: who holds what, who is served when, and what becomes of locks without an owner. */
module MonitorRuns {
  import opened Monitors

  datatype State = State(locks: seq<Lock>, history: seq<Event>)

  /** LockObject; UnlockObject; the requests of one lock whose time is over; the requests of a subthread; and a
      subthread of the thread in whose list the lock at i is, which ends. */
  datatype Op =
    | Enter(resource: int, sth: int, timeExpire: int, force: bool, lockAvailable: bool, ownerAvailable: bool, requestAvailable: bool)
    | Leave(resource: int, sth: int, ownerAvailable: bool)
    | Expire(i: int, now: int)
    | Forget(sth: int)
    | End(i: int, sth: int, ownerAvailable: bool)

  /** One operation, as the contracts of LockObject, UnlockObject, ExpireRequests, DeleteLockRequests and
      DestroyOwner give it. */
  ghost predicate Takes(threadOf: int -> int, s: State, op: Op, hr: HResult, s': State) {
    match op
       case Enter(resource, sth, timeExpire, force, lockAvailable, ownerAvailable, requestAvailable) =>
         && LockStep(s.locks, s'.locks, resource, sth, timeExpire, force, threadOf, lockAvailable, ownerAvailable, requestAvailable, hr)
         && s'.history == s.history + if hr == Ok then [Acquired(resource, sth)] else []
       case Leave(resource, sth, ownerAvailable) =>
         && UnlockStep(s.locks, s'.locks, resource, sth, threadOf, ownerAvailable, hr)
         && s'.history == s.history + UnlockEvents(s.locks, resource, sth, ownerAvailable, hr)
       case Expire(i, now) =>
         0 <= i < |s.locks| && Thinned(s.locks, s'.locks, Expired(now), i) && s'.history == s.history
       case Forget(sth) =>
         Thinned(s.locks, s'.locks, OfSubThread(sth), ALL) && s'.history == s.history
       case End(i, sth, ownerAvailable) =>
         && 0 <= i < |s.locks| && s.locks[i].owningThread == threadOf(sth) && Ended(threadOf, s.locks, i, sth, ownerAvailable, s'.locks)
         && s'.history == s.history + EndEvents(s.locks[i], sth, ownerAvailable)
  }

  /** The operation, on locks that are in order. */
  ghost predicate Step(threadOf: int -> int, s: State, op: Op, hr: HResult, s': State) {
    LocksOk(s.locks, threadOf) && LocksOk(s'.locks, threadOf) && Takes(threadOf, s, op, hr, s')
  }

  const ALL := -1

  /** The doomed requests of lock i, or of all locks, are gone. */
  ghost predicate Thinned(locks: seq<Lock>, locks': seq<Lock>, d: Doom, i: int) {
    && |locks'| == |locks|
    && (forall k :: 0 <= k < |locks| ==> locks'[k] == if k == i || i == ALL then locks[k].(requests := Surviving(locks[k].requests, d)) else locks[k])
  }

  ghost predicate Ended(threadOf: int -> int, locks: seq<Lock>, i: int, sth: int, ownerAvailable: bool, locks': seq<Lock>)
    requires 0 <= i < |locks|
  {
    var mid := locks[i := locks[i].(owners := Others(locks[i].owners, sth))];
    if mid[i].owners == [] then HandedOver(mid, locks', i, threadOf, ownerAvailable) else locks' == mid
  }

  /** A run: the states before each operation and after the last. */
  ghost predicate Run(threadOf: int -> int, ss: seq<State>, ops: seq<Op>, hrs: seq<HResult>) {
    && |ss| == |ops| + 1 && |hrs| == |ops| && ss[0] == State([], [])
    && (forall i :: 0 <= i < |ops| ==> Takes(threadOf, ss[i], ops[i], hrs[i], ss[i + 1]))
  }

  // ---------- The locks stay in order ----------

  lemma EnterLocksOk(threadOf: int -> int, s: State, op: Op, hr: HResult, s': State)
    requires LocksOk(s.locks, threadOf) && op.Enter? && Takes(threadOf, s, op, hr, s')
    ensures LocksOk(s'.locks, threadOf)
  {
    if i :| 0 <= i < |s.locks| && s.locks[i].resource == op.resource {
      forall k | 0 <= k < |s'.locks| ensures LockOk(s'.locks[k], threadOf) && s'.locks[k].resource == s.locks[k].resource {
        assert LockOk(s.locks[k], threadOf);
      }
    } else {
      forall k | 0 <= k < |s'.locks| ensures LockOk(s'.locks[k], threadOf) {
        assert k < |s.locks| ==> LockOk(s.locks[k], threadOf);
      }
    }
  }

  lemma HandedOverOk(threadOf: int -> int, locks: seq<Lock>, locks': seq<Lock>, i: int, ownerAvailable: bool)
    requires LocksOk(locks, threadOf) && HandedOver(locks, locks', i, threadOf, ownerAvailable)
    ensures LocksOk(locks', threadOf)
  {
    if locks[i].requests == [] {
      forall k | 0 <= k < |locks'| ensures locks'[k] == locks[if k < i then k else k + 1] { }
    } else {
      forall k | 0 <= k < |locks'| ensures LockOk(locks'[k], threadOf) && locks'[k].resource == locks[k].resource {
        assert LockOk(locks[k], threadOf);
      }
    }
  }

  lemma LeaveLocksOk(threadOf: int -> int, s: State, op: Op, hr: HResult, s': State)
    requires LocksOk(s.locks, threadOf) && op.Leave? && Takes(threadOf, s, op, hr, s')
    ensures LocksOk(s'.locks, threadOf)
  {
    if i :| 0 <= i < |s.locks| && s.locks[i].resource == op.resource {
      if hr == Ok {
        assert Recursion(s.locks[i].owners, op.sth) != 0;
        var owners :| OwnersOk(owners, s.locks[i].owningThread, threadOf) && Adjusted(s.locks[i].owners, owners, op.sth, -1) &&
          var mid := s.locks[i := s.locks[i].(owners := owners)];
          if owners == [] then HandedOver(mid, s'.locks, i, threadOf, op.ownerAvailable) else s'.locks == mid;
        NewOwnersOk(threadOf, s.locks, i, owners);
        if owners == [] {
          HandedOverOk(threadOf, s.locks[i := s.locks[i].(owners := owners)], s'.locks, i, op.ownerAvailable);
        }
      }
    }
  }

  lemma NewOwnersOk(threadOf: int -> int, locks: seq<Lock>, i: int, owners: seq<Owner>)
    requires LocksOk(locks, threadOf) && 0 <= i < |locks| && OwnersOk(owners, locks[i].owningThread, threadOf)
    ensures LocksOk(locks[i := locks[i].(owners := owners)], threadOf)
  {
    var locks' := locks[i := locks[i].(owners := owners)];
    forall k | 0 <= k < |locks'| ensures LockOk(locks'[k], threadOf) && locks'[k].resource == locks[k].resource {
      assert LockOk(locks[k], threadOf);
    }
  }

  lemma EndLocksOk(threadOf: int -> int, s: State, op: Op, hr: HResult, s': State)
    requires LocksOk(s.locks, threadOf) && op.End? && Takes(threadOf, s, op, hr, s')
    ensures LocksOk(s'.locks, threadOf)
  {
    var lock := s.locks[op.i];
    OthersOk(lock.owners, lock.owningThread, threadOf, op.sth);
    NewOwnersOk(threadOf, s.locks, op.i, Others(lock.owners, op.sth));
    var mid := s.locks[op.i := lock.(owners := Others(lock.owners, op.sth))];
    if mid[op.i].owners == [] { HandedOverOk(threadOf, mid, s'.locks, op.i, op.ownerAvailable); }
  }

  /** Every operation keeps the locks in order. */
  lemma TakesLocksOk(threadOf: int -> int, s: State, op: Op, hr: HResult, s': State)
    requires LocksOk(s.locks, threadOf) && Takes(threadOf, s, op, hr, s')
    ensures Step(threadOf, s, op, hr, s')
  {
    match op
    case Enter(_, _, _, _, _, _, _) => EnterLocksOk(threadOf, s, op, hr, s');
    case Leave(_, _, _) => LeaveLocksOk(threadOf, s, op, hr, s');
    case End(_, _, _) => EndLocksOk(threadOf, s, op, hr, s');
    case _ =>
      forall k | 0 <= k < |s'.locks| ensures LockOk(s'.locks[k], threadOf) && s'.locks[k].resource == s.locks[k].resource {
        assert LockOk(s.locks[k], threadOf);
      }
  }

  lemma {:induction false} RunLocksOk(threadOf: int -> int, ss: seq<State>, ops: seq<Op>, hrs: seq<HResult>, n: nat)
    requires Run(threadOf, ss, ops, hrs) && n <= |ops|
    ensures LocksOk(ss[n].locks, threadOf)
    ensures n < |ops| ==> Step(threadOf, ss[n], ops[n], hrs[n], ss[n + 1])
  {
    if n > 0 { RunLocksOk(threadOf, ss, ops, hrs, n - 1); }
    if n < |ops| {
      assert Takes(threadOf, ss[n], ops[n], hrs[n], ss[n + 1]);
      TakesLocksOk(threadOf, ss[n], ops[n], hrs[n], ss[n + 1]);
    }
  }

  // ---------- Who holds what ----------

  lemma StepLedger(threadOf: int -> int, s: State, op: Op, hr: HResult, s': State)
    requires Step(threadOf, s, op, hr, s') && Ledger(s.locks, s.history)
    ensures Ledger(s'.locks, s'.history)
  {
    match op
    case Enter(resource, sth, timeExpire, force, lockAvailable, ownerAvailable, requestAvailable) =>
      LockStepHeld(s.locks, s'.locks, s.history, resource, sth, timeExpire, force, threadOf, lockAvailable, ownerAvailable, requestAvailable, hr);
    case Leave(resource, sth, ownerAvailable) =>
      UnlockStepHeld(s.locks, s'.locks, s.history, resource, sth, threadOf, ownerAvailable, hr);
    case Expire(i, now) =>
      ThinnedHeld(s.locks, s'.locks, Expired(now), i);
    case Forget(sth) =>
      ThinnedHeld(s.locks, s'.locks, OfSubThread(sth), ALL);
    case End(i, sth, ownerAvailable) =>
      EndLedger(threadOf, s, i, sth, ownerAvailable, s');
  }

  lemma EndLedger(threadOf: int -> int, s: State, i: int, sth: int, ownerAvailable: bool, s': State)
    requires Step(threadOf, s, End(i, sth, ownerAvailable), Ok, s') && Ledger(s.locks, s.history)
    ensures Ledger(s'.locks, s'.history)
  {
    var lock := s.locks[i];
    var mid := s.locks[i := lock.(owners := Others(lock.owners, sth))];
    OthersOk(lock.owners, lock.owningThread, threadOf, sth);
    AbandonedHeld(s.locks, mid, s.history, i, sth, threadOf);
    var history := s.history + [Abandoned(lock.resource, sth)];
    if mid[i].owners == [] {
      HandedOverHeld(mid, s'.locks, history, i, threadOf, ownerAvailable);
      assert s'.history == history + GrantEvents(mid[i], ownerAvailable);
    } else {
      assert s'.history == history;
    }
  }

  /** Changes in the queues do not change who holds what. */
  lemma ThinnedHeld(locks: seq<Lock>, locks': seq<Lock>, d: Doom, i: int)
    requires Resources(locks) && Resources(locks') && Thinned(locks, locks', d, i)
    ensures forall r, s :: Held(locks', r, s) == Held(locks, r, s)
  {
    forall r, s ensures Held(locks', r, s) == Held(locks, r, s) {
      if k :| 0 <= k < |locks| && locks[k].resource == r {
        HeldIs(locks, k, s);
        HeldIs(locks', k, s);
      } else {
        forall k | 0 <= k < |locks'| ensures locks'[k].resource != r {
          var same := locks[k].resource;
        }
      }
    }
  }

  /** Over a whole run, a subthread holds a lock as often as it acquired it and did not release it, and the
      holders of a lock belong to one thread. */
  lemma {:induction false} RunLedger(threadOf: int -> int, ss: seq<State>, ops: seq<Op>, hrs: seq<HResult>, n: nat)
    requires Run(threadOf, ss, ops, hrs) && n <= |ops|
    ensures Ledger(ss[n].locks, ss[n].history)
    ensures forall r, a, b :: Balance(ss[n].history, r, a) > 0 && Balance(ss[n].history, r, b) > 0 ==> threadOf(a) == threadOf(b)
  {
    if n > 0 {
      RunLedger(threadOf, ss, ops, hrs, n - 1);
      RunLocksOk(threadOf, ss, ops, hrs, n - 1);
      StepLedger(threadOf, ss[n - 1], ops[n - 1], hrs[n - 1], ss[n]);
    }
    RunLocksOk(threadOf, ss, ops, hrs, n);
    forall r, a, b | Balance(ss[n].history, r, a) > 0 && Balance(ss[n].history, r, b) > 0 ensures threadOf(a) == threadOf(b) {
      assert Held(ss[n].locks, r, a) == Balance(ss[n].history, r, a) && Held(ss[n].locks, r, b) == Balance(ss[n].history, r, b);
      MutualExclusion(ss[n].locks, threadOf, r, a, b);
    }
  }

  // ---------- Who is served when ----------

  /** The queue of a resource; without a lock it is empty. */
  ghost function Queue(locks: seq<Lock>, resource: int): seq<Request> {
    if i :| 0 <= i < |locks| && locks[i].resource == resource then locks[i].requests else []
  }

  lemma QueueIs(locks: seq<Lock>, i: int)
    requires Resources(locks) && 0 <= i < |locks|
    ensures Queue(locks, locks[i].resource) == locks[i].requests
  {
  }

  /** The operation passes the lock of the resource on to the request that has waited longest. */
  ghost predicate Grants(s: State, op: Op, hr: HResult, resource: int) {
    match op
    case Leave(r, sth, _) => r == resource && hr == Ok && exists i :: LeavesLast(s.locks, i, r, sth)
    case End(i, sth, _) => 0 <= i < |s.locks| && s.locks[i].resource == resource && Others(s.locks[i].owners, sth) == [] && s.locks[i].requests != []
    case _ => false
  }

  ghost predicate LeavesLast(locks: seq<Lock>, i: int, resource: int, sth: int) {
    0 <= i < |locks| && locks[i].resource == resource && LastOwner(locks[i].owners, sth) && locks[i].requests != []
  }

  /** What an operation does to the queue of a resource. */
  ghost function QueueAfter(s: State, op: Op, hr: HResult, resource: int): seq<Request> {
    var q := Queue(s.locks, resource);
    match op
    case Enter(r, sth, timeExpire, force, _, _, _) =>
      if r == resource && hr == ThreadWaiting then q + [Request(sth, timeExpire, force)] else q
    case Expire(i, now) => if 0 <= i < |s.locks| && s.locks[i].resource == resource then Surviving(q, Expired(now)) else q
    case Forget(sth) => Surviving(q, OfSubThread(sth))
    case _ => if Grants(s, op, hr, resource) && q != [] then q[1..] else q
  }

  lemma QueueStep(threadOf: int -> int, s: State, op: Op, hr: HResult, s': State, resource: int)
    requires Step(threadOf, s, op, hr, s')
    ensures Queue(s'.locks, resource) == QueueAfter(s, op, hr, resource)
    ensures Grants(s, op, hr, resource) ==> Queue(s.locks, resource) != []
  {
    match op
    case Enter(_, _, _, _, _, _, _) => EnterQueue(threadOf, s, op, hr, s', resource);
    case Leave(_, _, _) => LeaveQueue(threadOf, s, op, hr, s', resource);
    case Expire(i, now) => ThinnedQueue(s.locks, s'.locks, Expired(now), i, resource);
    case Forget(sth) => ThinnedQueue(s.locks, s'.locks, OfSubThread(sth), ALL, resource);
    case End(_, _, _) => EndQueue(threadOf, s, op, hr, s', resource);
  }

  lemma ThinnedQueue(locks: seq<Lock>, locks': seq<Lock>, d: Doom, i: int, resource: int)
    requires Resources(locks) && Resources(locks') && Thinned(locks, locks', d, i) && (i == ALL || 0 <= i < |locks|)
    ensures Queue(locks', resource) == if i == ALL || locks[i].resource == resource then Surviving(Queue(locks, resource), d) else Queue(locks, resource)
  {
    if k :| 0 <= k < |locks| && locks[k].resource == resource {
      QueueIs(locks, k);
      QueueIs(locks', k);
    } else {
      forall k | 0 <= k < |locks'| ensures locks'[k].resource != resource {
        var same := locks[k].resource;
      }
    }
  }

  /** The queue of another resource is untouched. */
  lemma OtherQueue(locks: seq<Lock>, locks': seq<Lock>, r: int, resource: int)
    requires Resources(locks) && Resources(locks') && OnlyLock(locks, locks', r) && r != resource
    ensures Queue(locks', resource) == Queue(locks, resource)
  {
    if i :| 0 <= i < |locks| && locks[i].resource == resource {
      var j :| 0 <= j < |locks'| && locks'[j] == locks[i];
      QueueIs(locks, i);
      QueueIs(locks', j);
    } else {
      forall j | 0 <= j < |locks'| ensures locks'[j].resource != resource {
        var kept := locks'[j] in locks;
      }
    }
  }

  lemma EnterQueue(threadOf: int -> int, s: State, op: Op, hr: HResult, s': State, resource: int)
    requires Step(threadOf, s, op, hr, s') && op.Enter?
    ensures Queue(s'.locks, resource) == QueueAfter(s, op, hr, resource)
  {
    LockStepOther(s.locks, s'.locks, op.resource, op.sth, op.timeExpire, op.force, threadOf, op.lockAvailable, op.ownerAvailable, op.requestAvailable, hr);
    if op.resource != resource {
      OtherQueue(s.locks, s'.locks, op.resource, resource);
    } else if i :| 0 <= i < |s.locks| && s.locks[i].resource == resource {
      QueueIs(s.locks, i);
      QueueIs(s'.locks, i);
    } else if op.lockAvailable {
      QueueIs(s'.locks, |s.locks|);
    }
  }

  /** A lock whose last owner is gone was passed on, or has gone itself. */
  lemma HandedQueue(threadOf: int -> int, locks: seq<Lock>, locks': seq<Lock>, i: int, ownerAvailable: bool)
    requires Resources(locks) && Resources(locks') && 0 <= i < |locks|
    requires HandedOver(locks[i := locks[i].(owners := [])], locks', i, threadOf, ownerAvailable)
    ensures Queue(locks', locks[i].resource) == if locks[i].requests == [] then [] else locks[i].requests[1..]
    ensures OnlyLock(locks, locks', locks[i].resource)
  {
    ReleasedOther(locks, locks', i, 0, threadOf, ownerAvailable, []);
    if locks[i].requests == [] {
      forall k | 0 <= k < |locks'| ensures locks'[k].resource != locks[i].resource {
        assert locks'[k] == locks[if k < i then k else k + 1];
      }
    } else {
      QueueIs(locks', i);
    }
  }

  /** The owners of a lock changed, and if none is left it was passed on. */
  lemma LeftQueue(threadOf: int -> int, locks: seq<Lock>, locks': seq<Lock>, i: int, owners: seq<Owner>,
          ownerAvailable: bool, resource: int)
    requires Resources(locks) && Resources(locks') && 0 <= i < |locks|
    requires var mid := locks[i := locks[i].(owners := owners)];
      if owners == [] then HandedOver(mid, locks', i, threadOf, ownerAvailable) else locks' == mid
    ensures Queue(locks', resource) ==
      if locks[i].resource == resource && owners == [] && locks[i].requests != [] then Queue(locks, resource)[1..] else Queue(locks, resource)
  {
    QueueIs(locks, i);
    if owners == [] {
      HandedQueue(threadOf, locks, locks', i, ownerAvailable);
    } else {
      QueueIs(locks', i);
      ReleasedOther(locks, locks', i, 0, threadOf, ownerAvailable, owners);
    }
    if locks[i].resource != resource { OtherQueue(locks, locks', locks[i].resource, resource); }
  }

  lemma LeaveQueue(threadOf: int -> int, s: State, op: Op, hr: HResult, s': State, resource: int)
    requires Step(threadOf, s, op, hr, s') && op.Leave?
    ensures Queue(s'.locks, resource) == QueueAfter(s, op, hr, resource)
    ensures Grants(s, op, hr, resource) ==> Queue(s.locks, resource) != []
  {
    if i :| 0 <= i < |s.locks| && s.locks[i].resource == op.resource {
      QueueIs(s.locks, i);
      if hr == Ok {
        var owners := LeftOwners(threadOf, s, op, hr, s', i);
        LeftQueue(threadOf, s.locks, s'.locks, i, owners, op.ownerAvailable, resource);
        NoOwners(s.locks, s'.locks, i, op.sth, threadOf, owners);
        assert Grants(s, op, hr, resource) <==> s.locks[i].resource == resource && owners == [] && s.locks[i].requests != [] by {
          assert LeavesLast(s.locks, i, op.resource, op.sth) <==> owners == [] && s.locks[i].requests != [];
        }
      }
    }
  }

  lemma LeftOwners(threadOf: int -> int, s: State, op: Op, hr: HResult, s': State, i: int) returns (owners: seq<Owner>)
    requires Step(threadOf, s, op, hr, s') && op.Leave? && hr == Ok && 0 <= i < |s.locks| && s.locks[i].resource == op.resource
    ensures Adjusted(s.locks[i].owners, owners, op.sth, -1)
    ensures var mid := s.locks[i := s.locks[i].(owners := owners)];
      if owners == [] then HandedOver(mid, s'.locks, i, threadOf, op.ownerAvailable) else s'.locks == mid
  {
    owners :| Adjusted(s.locks[i].owners, owners, op.sth, -1) &&
      var mid := s.locks[i := s.locks[i].(owners := owners)];
      if owners == [] then HandedOver(mid, s'.locks, i, threadOf, op.ownerAvailable) else s'.locks == mid;
  }

  lemma EndQueue(threadOf: int -> int, s: State, op: Op, hr: HResult, s': State, resource: int)
    requires Step(threadOf, s, op, hr, s') && op.End?
    ensures Queue(s'.locks, resource) == QueueAfter(s, op, hr, resource)
    ensures Grants(s, op, hr, resource) ==> Queue(s.locks, resource) != []
  {
    QueueIs(s.locks, op.i);
    LeftQueue(threadOf, s.locks, s'.locks, op.i, Others(s.locks[op.i].owners, op.sth), op.ownerAvailable, resource);
  }

  /** Whoever the lock is passed on to was first in the queue; it becomes the owner, unless the entry for it
      cannot be allocated. */
  lemma GrantIsFirst(threadOf: int -> int, s: State, op: Op, hr: HResult, s': State, resource: int)
    requires Step(threadOf, s, op, hr, s') && Grants(s, op, hr, resource)
    ensures Queue(s.locks, resource) != [] && exists i :: PassedTo(threadOf, s'.locks, i, resource, Queue(s.locks, resource)[0].subThread, op.ownerAvailable)
  {
    QueueStep(threadOf, s, op, hr, s', resource);
    var i: int;
    if op.Leave? {
      i :| LeavesLast(s.locks, i, resource, op.sth);
      var owners := LeftOwners(threadOf, s, op, hr, s', i);
      NoOwners(s.locks, s'.locks, i, op.sth, threadOf, owners);
    } else {
      i := op.i;
    }
    QueueIs(s.locks, i);
    assert PassedTo(threadOf, s'.locks, i, resource, Queue(s.locks, resource)[0].subThread, op.ownerAvailable);
  }

  ghost predicate PassedTo(threadOf: int -> int, locks: seq<Lock>, i: int, resource: int, sth: int, ownerAvailable: bool) {
    && 0 <= i < |locks| && locks[i].resource == resource && locks[i].owningThread == threadOf(sth)
    && locks[i].owners == if ownerAvailable then [Owner(sth, 1)] else []
  }

  /** Every request draws a ticket when it arrives; granted are the tickets of those that got the lock. */
  datatype Tickets = Tickets(queue: seq<nat>, next: nat, granted: seq<nat>)

  /** The tickets of the requests that stay. */
  ghost function Staying(reqs: seq<Request>, tickets: seq<nat>, d: Doom): (r: seq<nat>)
    requires |tickets| == |reqs|
    ensures |r| == |Surviving(reqs, d)|
  {
    if reqs == [] then []
    else
      var n := |reqs| - 1;
      Staying(reqs[..n], tickets[..n], d) + if Doomed(d, reqs[n]) then [] else [tickets[n]]
  }

  ghost function TicketsAfter(s: State, op: Op, hr: HResult, resource: int, t: Tickets): Tickets
    requires |t.queue| == |Queue(s.locks, resource)|
  {
    var q := Queue(s.locks, resource);
    match op
    case Enter(r, _, _, _, _, _, _) =>
      if r == resource && hr == ThreadWaiting then t.(queue := t.queue + [t.next], next := t.next + 1) else t
    case Expire(i, now) =>
      if 0 <= i < |s.locks| && s.locks[i].resource == resource then t.(queue := Staying(q, t.queue, Expired(now))) else t
    case Forget(sth) => t.(queue := Staying(q, t.queue, OfSubThread(sth)))
    case _ =>
      if Grants(s, op, hr, resource) && q != [] then t.(queue := t.queue[1..], granted := t.granted + [t.queue[0]]) else t
  }

  ghost predicate Increasing(s: seq<nat>) {
    forall i, j :: 0 <= i < j < |s| ==> s[i] < s[j]
  }

  /** The granted tickets, then those in the queue, then the next one to be drawn go up. */
  ghost predicate InOrder(locks: seq<Lock>, resource: int, t: Tickets) {
    |t.queue| == |Queue(locks, resource)| && Increasing(t.granted + t.queue + [t.next])
  }

  /** Taking tickets out of the middle keeps the order. */
  lemma {:induction false} StayingInOrder(a: seq<nat>, reqs: seq<Request>, tickets: seq<nat>, d: Doom, c: seq<nat>)
    requires |tickets| == |reqs| && Increasing(a + tickets + c)
    ensures Increasing(a + Staying(reqs, tickets, d) + c)
    decreases |reqs|
  {
    if reqs == [] {
      assert a + Staying(reqs, tickets, d) + c == a + tickets + c;
    } else {
      var n := |reqs| - 1;
      var last := tickets[n];
      assert a + tickets + c == a + tickets[..n] + ([last] + c);
      StayingInOrder(a, reqs[..n], tickets[..n], d, [last] + c);
      var kept := Staying(reqs[..n], tickets[..n], d);
      if Doomed(d, reqs[n]) {
        assert a + kept + ([last] + c) == a + kept + [last] + c;
        OneLess(a + kept, last, c);
        assert Staying(reqs, tickets, d) == kept;
      } else {
        assert a + kept + ([last] + c) == a + (kept + [last]) + c;
      }
    }
  }

  lemma OneLess(a: seq<nat>, x: nat, c: seq<nat>)
    requires Increasing(a + [x] + c)
    ensures Increasing(a + c)
  {
    var s, t := a + [x] + c, a + c;
    forall i | 0 <= i < |t| ensures t[i] == s[if i < |a| then i else i + 1] { }
  }

  lemma OneMore(a: seq<nat>, x: nat)
    requires Increasing(a + [x])
    ensures Increasing(a + [x] + [x + 1])
  {
    var s, t := a + [x], a + [x] + [x + 1];
    forall i, j | 0 <= i < j < |t| ensures t[i] < t[j] {
      assert s[|a|] == x && t[i] == s[i];
      assert j < |s| ==> t[j] == s[j];
      assert i < |a| ==> s[i] < s[|a|];
    }
  }

  lemma StepInOrder(threadOf: int -> int, s: State, op: Op, hr: HResult, s': State, resource: int, t: Tickets)
    requires Step(threadOf, s, op, hr, s') && InOrder(s.locks, resource, t)
    ensures InOrder(s'.locks, resource, TicketsAfter(s, op, hr, resource, t))
  {
    assert Queue(s'.locks, resource) == QueueAfter(s, op, hr, resource) by { QueueStep(threadOf, s, op, hr, s', resource); }
    var q, t' := Queue(s.locks, resource), TicketsAfter(s, op, hr, resource, t);
    match op
    case Enter(r, _, _, _, _, _, _) =>
      if t' != t {
        OneMore(t.granted + t.queue, t.next);
        assert t'.granted + t'.queue + [t'.next] == t.granted + t.queue + [t.next] + [t.next + 1];
      }
    case Expire(i, now) =>
      if t' != t { StayingInOrder(t.granted, q, t.queue, Expired(now), [t.next]); }
    case Forget(sth) =>
      StayingInOrder(t.granted, q, t.queue, OfSubThread(sth), [t.next]);
    case _ =>
      if t' != t { assert t'.granted + t'.queue + [t'.next] == t.granted + t.queue + [t.next]; }
  }

  /** The tickets of a resource over a run. */
  ghost function RunTickets(ss: seq<State>, ops: seq<Op>, hrs: seq<HResult>, resource: int, n: nat): Tickets
    requires n <= |ops| == |hrs| && |ss| == |ops| + 1
  {
    if n == 0 then Tickets([], 0, [])
    else
      var t := RunTickets(ss, ops, hrs, resource, n - 1);
      if |t.queue| == |Queue(ss[n - 1].locks, resource)| then TicketsAfter(ss[n - 1], ops[n - 1], hrs[n - 1], resource, t) else t
  }

  lemma TicketsNext(threadOf: int -> int, ss: seq<State>, ops: seq<Op>, hrs: seq<HResult>, resource: int, n: nat)
    requires |ss| == |ops| + 1 && |hrs| == |ops| && n < |ops| && Step(threadOf, ss[n], ops[n], hrs[n], ss[n + 1])
    requires InOrder(ss[n].locks, resource, RunTickets(ss, ops, hrs, resource, n))
    ensures InOrder(ss[n + 1].locks, resource, RunTickets(ss, ops, hrs, resource, n + 1))
  {
    StepInOrder(threadOf, ss[n], ops[n], hrs[n], ss[n + 1], resource, RunTickets(ss, ops, hrs, resource, n));
  }

  lemma GrantedIncreasing(locks: seq<Lock>, resource: int, t: Tickets)
    requires InOrder(locks, resource, t)
    ensures Increasing(t.granted)
  {
    var all := t.granted + t.queue + [t.next];
    assert forall i :: 0 <= i < |t.granted| ==> t.granted[i] == all[i];
  }

  /** Over a whole run the requests for a resource that are granted are granted in the order in which they
      arrived, also when the lock goes and comes back in between. */
  lemma {:induction false} RunInOrder(threadOf: int -> int, ss: seq<State>, ops: seq<Op>, hrs: seq<HResult>,
          resource: int, n: nat)
    requires Run(threadOf, ss, ops, hrs) && n <= |ops|
    ensures InOrder(ss[n].locks, resource, RunTickets(ss, ops, hrs, resource, n))
    ensures Increasing(RunTickets(ss, ops, hrs, resource, n).granted)
  {
    if n > 0 {
      RunInOrder(threadOf, ss, ops, hrs, resource, n - 1);
      RunLocksOk(threadOf, ss, ops, hrs, n - 1);
      TicketsNext(threadOf, ss, ops, hrs, resource, n - 1);
    }
    GrantedIncreasing(ss[n].locks, resource, RunTickets(ss, ops, hrs, resource, n));
  }

  // ---------- Locks without an owner ----------

  /** The lock of the resource has an owner, or is gone. */
  ghost predicate Owned(locks: seq<Lock>, resource: int) {
    forall k :: 0 <= k < |locks| && locks[k].resource == resource ==> locks[k].owners != []
  }

  /** What brings a lock without an owner back: a subthread of its thread enters it, and the entry for the owner
      can be allocated; or a subthread of its thread ends, and nobody waits or the entry can be allocated. */
  predicate Recovers(threadOf: int -> int, locks: seq<Lock>, i: int, op: Op)
    requires 0 <= i < |locks|
  {
    match op
    case Enter(r, sth, _, _, _, ownerAvailable, _) => r == locks[i].resource && threadOf(sth) == locks[i].owningThread && ownerAvailable
    case End(k, _, ownerAvailable) => k == i && (locks[i].requests == [] || ownerAvailable)
    case _ => false
  }

  /** Nothing else does: no other thread that enters, and nobody who leaves. */
  lemma OrphanRecoversIff(threadOf: int -> int, s: State, op: Op, hr: HResult, s': State, i: int)
    requires Step(threadOf, s, op, hr, s') && 0 <= i < |s.locks| && s.locks[i].owners == []
    ensures Owned(s'.locks, s.locks[i].resource) <==> Recovers(threadOf, s.locks, i, op)
  {
    var resource := s.locks[i].resource;
    match op
    case Enter(r, sth, timeExpire, force, lockAvailable, ownerAvailable, requestAvailable) =>
      if r != resource {
        LockStepOther(s.locks, s'.locks, r, sth, timeExpire, force, threadOf, lockAvailable, ownerAvailable, requestAvailable, hr);
        StillOrphan(s.locks, s'.locks, r, i);
      } else {
        OrphanEntered(threadOf, s, op, hr, s', i);
      }
    case Leave(r, sth, ownerAvailable) =>
      if r != resource && hr == Ok {
        var k :| 0 <= k < |s.locks| && s.locks[k].resource == r;
        var owners := LeftOwners(threadOf, s, op, hr, s', k);
        ReleasedOther(s.locks, s'.locks, k, sth, threadOf, ownerAvailable, owners);
        StillOrphan(s.locks, s'.locks, r, i);
      } else {
        assert s'.locks == s.locks && s'.locks[i].owners == [];
      }
    case Expire(_, _) => assert s'.locks[i].owners == [];
    case Forget(_) => assert s'.locks[i].owners == [];
    case End(k, sth, ownerAvailable) =>
      if k != i {
        ReleasedOther(s.locks, s'.locks, k, sth, threadOf, ownerAvailable, Others(s.locks[k].owners, sth));
        StillOrphan(s.locks, s'.locks, s.locks[k].resource, i);
      } else if s.locks[i].requests == [] {
        forall j | 0 <= j < |s'.locks| ensures s'.locks[j].resource != resource {
          assert s'.locks[j] == s.locks[if j < i then j else j + 1];
        }
      } else {
        assert s'.locks[i].resource == resource;
      }
  }

  lemma StillOrphan(locks: seq<Lock>, locks': seq<Lock>, r: int, i: int)
    requires OnlyLock(locks, locks', r) && 0 <= i < |locks| && locks[i].owners == [] && locks[i].resource != r
    ensures !Owned(locks', locks[i].resource)
  {
    var j :| 0 <= j < |locks'| && locks'[j] == locks[i];
  }

  lemma OrphanEntered(threadOf: int -> int, s: State, op: Op, hr: HResult, s': State, i: int)
    requires Step(threadOf, s, op, hr, s') && op.Enter? && 0 <= i < |s.locks| && s.locks[i].owners == [] && op.resource == s.locks[i].resource
    ensures Owned(s'.locks, s.locks[i].resource) <==> Recovers(threadOf, s.locks, i, op)
  {
    var lock, lock' := s.locks[i], s'.locks[i];
    assert lock'.resource == lock.resource;
    if Recovers(threadOf, s.locks, i, op) {
      assert Recursion(lock'.owners, op.sth) == 1;
    }
  }
}
