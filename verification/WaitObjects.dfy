/** Waiting for events: a thread waits for one or for all of several objects, and signalling an object
    walks the waiting threads (CLR_RT_HeapBlock_WaitForObject). */
module WaitObjects {
  import opened Sequences
  import opened SignalWalks

  datatype HResult = Ok | ThreadWaiting | InvalidParameter | OutOfMemory

  const MAX_OBJECTS := 64

  /** A node of the list of waiting threads, or the pseudo-node behind them. */
  datatype Node = Tail | Thread(id: int)

  function NodeAt(list: seq<int>, k: nat): Node {
    if k < |list| then Thread(list[k]) else Tail
  }

  /** The node after the one of thread th. */
  function Successor(list: seq<int>, th: int): Node {
    if list == [] then Tail else if list[0] == th then NodeAt(list, 1) else Successor(list[1..], th)
  }

  lemma {:induction false} SuccessorAt(list: seq<int>, k: nat)
    requires NoneTwice(list) && k < |list|
    ensures Successor(list, list[k]) == NodeAt(list, k + 1)
  {
    if k > 0 {
      assert list[1..][k - 1] == list[k] && list[0] != list[k];
      SuccessorAt(list[1..], k - 1);
    }
  }

  /** The walk is done after n turns, and has left the state w. */
  ghost predicate WalkEnded(e: Setting, w0: Walk, n: nat, w: Walk) {
    Done(e, Turns(e, w0, n)) && w == Turns(e, w0, n).(pos := 0)
  }

  class ExecutionEngine {
    const autoReset: int -> bool
    /** The objects whose HB_Signaled flag is set. */
    var signaled: set<int>
    var threadsWaiting: seq<int>
    var threadsReady: seq<int>
    /** m_waitForObject and m_waitForObject_Result of the threads. */
    var waits: map<int, Wait>
    var results: map<int, WaitResult>
    /** The threads with the flag TH_F_Suspended, and those with the status TH_S_Ready. */
    var suspended: set<int>
    var isReady: set<int>

    constructor (autoReset: int -> bool)
      ensures Valid() && this.autoReset == autoReset
    {
      this.autoReset := autoReset;
      signaled, threadsWaiting, threadsReady, waits, results, suspended, isReady := {}, [], [], map[], map[], {}, {};
    }

    /** The waiting threads with the status Waiting wait for nothing that has happened, and at most one
        suspended thread can go on by manual-reset signals alone. */
    ghost predicate Valid()
      reads this
    {
      Settled(SettingOf(0), State())
    }

    ghost function State(): Walk
      reads this
    {
      Walk(signaled, threadsWaiting, 0, waits, results, threadsReady, isReady)
    }

    ghost function SettingOf(obj: int): Setting
      reads this
    {
      Setting(obj, autoReset, suspended)
    }

    /** TryWaitForSignal on a list of objects: all of them in two passes, or the first signalled one, which is at
        position i.  A wait for all resets exactly the auto-reset objects of the list; a wait for any resets the
        object that it found, if that resets itself, and no other. */
    method TryObjects(caller: int, objects: seq<int>, fWaitAll: bool) returns (ok: bool, ghost i: nat)
      modifies this`signaled, this`results
      ensures ok <==> Satisfied(old(signaled), Wait(objects, fWaitAll))
      ensures !ok ==> signaled == old(signaled) && results == old(results)
      ensures ok ==> results == old(results)[caller := Outcome(old(signaled), Wait(objects, fWaitAll))]
      ensures ok ==> signaled == Taken(old(signaled), Wait(objects, fWaitAll), autoReset)
      ensures fWaitAll ==> (ok <==> forall j :: 0 <= j < |objects| ==> objects[j] in old(signaled))
      ensures !fWaitAll ==> (ok <==> exists j :: 0 <= j < |objects| && objects[j] in old(signaled))
      ensures ok && fWaitAll ==> results == old(results)[caller := HandleAll]
      ensures ok && fWaitAll ==> forall o :: o in signaled <==> o in old(signaled) && !(o in objects && autoReset(o))
      ensures ok && !fWaitAll ==> i < |objects| && objects[i] in old(signaled) && results == old(results)[caller := Handle(i)]
      ensures ok && !fWaitAll ==> forall j :: 0 <= j < i ==> objects[j] !in old(signaled)
      ensures ok && !fWaitAll ==> forall o :: o in signaled <==> o in old(signaled) && !(o == objects[i] && autoReset(o))
    {
      var k := 0;
      i := 0;
      if fWaitAll {
        while k < |objects|
          invariant 0 <= k <= |objects| && forall j :: 0 <= j < k ==> objects[j] in signaled
        {
          if objects[k] !in signaled { return false, 0; }
          k := k + 1;
        }
        k := 0;
        while k < |objects|
          invariant 0 <= k <= |objects| && signaled == old(signaled) - AutoReset(objects[..k], autoReset)
          invariant results == old(results)
        {
          assert objects[..k + 1] == objects[..k] + [objects[k]];
          if autoReset(objects[k]) { signaled := signaled - {objects[k]}; }
          k := k + 1;
        }
        assert objects[..k] == objects;
        results := results[caller := HandleAll];
        return true, 0;
      }
      while k < |objects|
        invariant 0 <= k <= |objects| && forall j :: 0 <= j < k ==> objects[j] !in signaled
      {
        if objects[k] in signaled {
          assert FirstSignaled(objects, signaled) == k;
          if autoReset(objects[k]) { signaled := signaled - {objects[k]}; }
          results := results[caller := Handle(k)];
          return true, k;
        }
        k := k + 1;
      }
      ok := false;
    }

    /** Thread::Restart(true) with PutInProperList: the thread becomes ready.  If it is not suspended it goes to
        the ready list and drops its wait; if it is, it goes to the back of the waiting list and keeps it. */
    method Restart(th: int, ghost k: int)
      requires 0 <= k < |threadsWaiting| && threadsWaiting[k] == th && NoneTwice(threadsWaiting)
      modifies this`threadsWaiting, this`threadsReady, this`waits, this`isReady
      ensures isReady == old(isReady) + {th}
      ensures var rest := old(threadsWaiting)[..k] + old(threadsWaiting)[k + 1..];
        if th in suspended then threadsWaiting == rest + [th] && threadsReady == old(threadsReady) && waits == old(waits)
        else threadsWaiting == rest && threadsReady == old(threadsReady) + [th] && waits == old(waits) - {th}
    {
      MinusCut(threadsWaiting, k);
      isReady := isReady + {th};
      threadsWaiting := Minus(threadsWaiting, th);
      if th in suspended {
        threadsWaiting := threadsWaiting + [th];
      } else {
        threadsReady := threadsReady + [th];
        waits := waits - {th};
      }
    }

    /** TryWaitForSignal(th): a waiting thread goes on if it can, and takes its signals.  If it is suspended it goes
        to the back of the waiting list and keeps its wait, else to the ready list. */
    method TryWaitForSignal(th: int, ghost k: int) returns (ghost i: nat)
      requires 0 <= k < |threadsWaiting| && threadsWaiting[k] == th && NoneTwice(threadsWaiting)
      modifies this`signaled, this`results, this`threadsWaiting, this`threadsReady, this`waits, this`isReady
      ensures var w := Visit(autoReset, suspended, old(State()).(pos := k)); w == State().(pos := w.pos)
      ensures th in old(waits) ==> var objects, all := old(waits)[th].objects, old(waits)[th].fWaitAll;
        && (all && (forall j :: 0 <= j < |objects| ==> objects[j] in old(signaled)) ==>
              && results == old(results)[th := HandleAll]
              && forall o :: o in signaled <==> o in old(signaled) && !(o in objects && autoReset(o)))
        && (!all && (exists j :: 0 <= j < |objects| && objects[j] in old(signaled)) ==>
              && i < |objects| && objects[i] in old(signaled) && (forall j :: 0 <= j < i ==> objects[j] !in old(signaled))
              && results == old(results)[th := Handle(i)]
              && forall o :: o in signaled <==> o in old(signaled) && !(o == objects[i] && autoReset(o)))
      ensures var rest := old(threadsWaiting)[..k] + old(threadsWaiting)[k + 1..];
        var objects := if th in old(waits) then old(waits)[th].objects else [];
        if th in old(waits) && (if old(waits)[th].fWaitAll then forall j :: 0 <= j < |objects| ==> objects[j] in old(signaled)
                                else exists j :: 0 <= j < |objects| && objects[j] in old(signaled))
        then isReady == old(isReady) + {th} &&
          if th in suspended then threadsWaiting == rest + [th] && threadsReady == old(threadsReady) && waits == old(waits)
          else threadsWaiting == rest && threadsReady == old(threadsReady) + [th] && waits == old(waits) - {th}
        else State() == old(State())
    {
      i := 0;
      if th in waits {
        var ok;
        ok, i := TryObjects(th, waits[th].objects, waits[th].fWaitAll);
        if ok { Restart(th, k); }
      }
    }

    /** SignalObject, which is called in exactly those states in which its walk ends (SignalEndsIff). */
    method SignalObject(obj: int) returns (ghost turns: nat)
      requires Valid() && (autoReset(obj) || AtMostOneEndless(SettingOf(obj), Begun(SettingOf(obj), State())))
      modifies this`signaled, this`results, this`threadsWaiting, this`threadsReady, this`waits, this`isReady
      ensures Valid()
      ensures WalkEnded(SettingOf(obj), Begun(SettingOf(obj), old(State())), turns, State())
      ensures Did(SettingOf(obj), Begun(SettingOf(obj), old(State())), State())
      ensures FirstFreed(Begun(SettingOf(obj), old(State())), State()) && OneFreed(SettingOf(obj), Begun(SettingOf(obj), old(State())), State())
    {
      ghost var e, before := SettingOf(obj), State();
      AnyObject(SettingOf(0), e, before);
      AutoOrOne(e, before);
      SignalEndsIff(e, before);
      ghost var n: nat :| Done(e, Turns(e, Begun(e, before), n));
      signaled := signaled + {obj};
      turns := WalkWaiting(obj, e, Begun(e, before), n);
      WalkOver(e, before, turns, State());
      AnyObject(e, SettingOf(0), State());
    }

    /** The loop of SignalObject. */
    method WalkWaiting(obj: int, ghost e: Setting, ghost w0: Walk, ghost n: nat) returns (ghost i: nat)
      requires e == SettingOf(obj) && w0 == State() && NoneTwice(threadsWaiting) && obj in signaled && Done(e, Turns(e, w0, n))
      modifies this`signaled, this`results, this`threadsWaiting, this`threadsReady, this`waits, this`isReady
      ensures WalkEnded(e, w0, i, State())
    {
      var node := NodeAt(threadsWaiting, 0);
      ghost var k: nat := 0;
      i := 0;
      while node.Thread?
        invariant e == SettingOf(obj) && NoneTwice(threadsWaiting) && obj in signaled
        invariant Turns(e, w0, i) == State().(pos := k) && node == NodeAt(threadsWaiting, k) && i <= n
        decreases n - i
      {
        assert i < n;
        node, k := TurnOf(node.id, e, w0, i, k);
        i := i + 1;
        if obj !in signaled { break; }
      }
    }

    /** One turn of the loop: the thread that comes next is picked before the one at hand is tried. */
    method TurnOf(th: int, ghost e: Setting, ghost w0: Walk, ghost i: nat, ghost k: nat) returns (next: Node, ghost k': nat)
      requires e == SettingOf(e.obj) && Turns(e, w0, i) == State().(pos := k) && NoneTwice(threadsWaiting) && e.obj in signaled
      requires k < |threadsWaiting| && threadsWaiting[k] == th
      modifies this`signaled, this`results, this`threadsWaiting, this`threadsReady, this`waits, this`isReady
      ensures e == SettingOf(e.obj) && NoneTwice(threadsWaiting)
      ensures Turns(e, w0, i + 1) == State().(pos := k') && next == NodeAt(threadsWaiting, k')
    {
      ghost var w := State().(pos := k);
      next := Successor(threadsWaiting, th);
      SuccessorAt(threadsWaiting, k);
      TurnList(e, w);
      ghost var i0 := TryWaitForSignal(th, k);
      k' := Turn(e, w).pos;
      assert State().(pos := k') == Turn(e, w);
    }

    /** WaitForSignal: go on at once if the wait is satisfied, else join the waiting threads.  The thread is running
        and so may still be linked in the ready list; PutInProperList takes it off as soon as it stops. */
    method WaitForSignal(th: int, objects: seq<int>, fWaitAll: bool, available: bool) returns (hr: HResult, ghost i: nat)
      requires Valid() && th !in threadsWaiting
      modifies this
      ensures Valid()
      ensures hr == InvalidParameter <==> |objects| > MAX_OBJECTS
      ensures hr == Ok <==> |objects| <= MAX_OBJECTS && Satisfied(old(signaled), Wait(objects, fWaitAll))
      ensures hr == Ok && fWaitAll <==> fWaitAll && |objects| <= 64 && forall j :: 0 <= j < |objects| ==> objects[j] in old(signaled)
      ensures hr == Ok && !fWaitAll <==> !fWaitAll && |objects| <= 64 && exists j :: 0 <= j < |objects| && objects[j] in old(signaled)
      ensures hr == Ok && fWaitAll ==> results == old(results)[th := HandleAll]
      ensures hr == Ok && fWaitAll ==> forall o :: o in signaled <==> o in old(signaled) && !(o in objects && autoReset(o))
      ensures hr == Ok && !fWaitAll ==> i < |objects| && objects[i] in old(signaled) && results == old(results)[th := Handle(i)]
      ensures hr == Ok && !fWaitAll ==> forall j :: 0 <= j < i ==> objects[j] !in old(signaled)
      ensures hr == Ok && !fWaitAll ==> forall o :: o in signaled <==> o in old(signaled) && !(o == objects[i] && autoReset(o))
      ensures hr != Ok ==> signaled == old(signaled)
      ensures hr == ThreadWaiting ==> threadsWaiting == old(threadsWaiting) + [th] && waits == old(waits)[th := Wait(objects, fWaitAll)]
      ensures hr == ThreadWaiting ==> isReady == old(isReady) - {th}
      ensures hr != ThreadWaiting ==> threadsWaiting == old(threadsWaiting) && waits == old(waits) && isReady == old(isReady)
      ensures hr == OutOfMemory ==> !available
      ensures hr == ThreadWaiting ==> available && results == old(results)[th := Init]
      ensures suspended == old(suspended)
      ensures threadsReady == if hr == ThreadWaiting then Minus(old(threadsReady), th) else old(threadsReady)
    {
      i := 0;
      if |objects| > MAX_OBJECTS { return InvalidParameter, 0; }
      ghost var w0 := State();
      var ok;
      ok, i := TryObjects(th, objects, fWaitAll);
      if ok {
        TakenManual(w0.signaled, Wait(objects, fWaitAll), autoReset);
        StillSettled(SettingOf(0), w0, State());
        return Ok, i;
      }
      if !available { return OutOfMemory, 0; }
      waits := waits[th := Wait(objects, fWaitAll)];
      results := results[th := Init];
      MinusMembers(threadsReady, th);
      threadsReady := Minus(threadsReady, th);
      threadsWaiting := threadsWaiting + [th];
      isReady := isReady - {th};
      hr := ThreadWaiting;
      StillSettled(SettingOf(0), w0, State());
    }

    /** The deadline of a wait has passed. */
    method TimeOut(th: int, ghost k: int)
      requires Valid() && th in waits && 0 <= k < |threadsWaiting| && threadsWaiting[k] == th
      modifies this`results, this`threadsWaiting, this`threadsReady, this`waits, this`isReady
      ensures Valid() && results == old(results)[th := Timeout]
      ensures isReady == old(isReady) + {th}
      ensures var rest := old(threadsWaiting)[..k] + old(threadsWaiting)[k + 1..];
        if th in suspended then threadsWaiting == rest + [th] && threadsReady == old(threadsReady) && waits == old(waits)
        else threadsWaiting == rest && threadsReady == old(threadsReady) + [th] && waits == old(waits) - {th}
    {
      ghost var w0 := State();
      CutAt(threadsWaiting, threadsWaiting[..k] + threadsWaiting[k + 1..], k);
      results := results[th := Timeout];
      Restart(th, k);
      StillSettled(SettingOf(0), w0, State());
    }

    /** An object is reset. */
    method ResetObject(obj: int)
      requires Valid()
      modifies this`signaled
      ensures Valid() && signaled == old(signaled) - {obj}
    {
      ghost var w0 := State();
      signaled := signaled - {obj};
      StillSettled(SettingOf(0), w0, State());
    }

    /** Thread::Suspend with PutInProperList: a thread that is not suspended yet goes to the back of the
        waiting list, and keeps its status. */
    method Suspend(th: int)
      requires Valid() && th !in suspended && (th in threadsReady || th in threadsWaiting)
      modifies this`suspended, this`threadsWaiting, this`threadsReady
      ensures Valid() && suspended == old(suspended) + {th}
      ensures threadsWaiting == Minus(old(threadsWaiting), th) + [th] && threadsReady == Minus(old(threadsReady), th)
    {
      ghost var w0, e0 := State(), SettingOf(0);
      MinusMembers(threadsWaiting, th);
      MinusMembers(threadsReady, th);
      suspended := suspended + {th};
      threadsReady := Minus(threadsReady, th);
      threadsWaiting := Minus(threadsWaiting, th) + [th];
      forall x ensures Endless(SettingOf(0), State(), x) ==> Endless(e0, w0, x) {
        if x == th && th in waits { FewerSignals(signaled, Manual(signaled, autoReset), waits[th]); }
      }
    }

    /** Thread::Resume with PutInProperList: a thread that has become ready goes to the ready list and drops its
        wait; one that still waits goes to the back of the waiting list. */
    method Resume(th: int)
      requires Valid() && th in suspended && th in threadsWaiting
      modifies this`suspended, this`threadsWaiting, this`threadsReady, this`waits
      ensures Valid() && suspended == old(suspended) - {th}
      ensures if th in isReady
        then threadsWaiting == Minus(old(threadsWaiting), th) && threadsReady == old(threadsReady) + [th] && waits == old(waits) - {th}
        else threadsWaiting == Minus(old(threadsWaiting), th) + [th] && threadsReady == old(threadsReady) && waits == old(waits)
    {
      ghost var w0, e0 := State(), SettingOf(0);
      MinusMembers(threadsWaiting, th);
      suspended := suspended - {th};
      threadsWaiting := Minus(threadsWaiting, th);
      if th in isReady {
        threadsReady := threadsReady + [th];
        waits := waits - {th};
      } else {
        threadsWaiting := threadsWaiting + [th];
      }
      forall x ensures Endless(SettingOf(0), State(), x) ==> Endless(e0, w0, x) { }
    }
  }

  /** Whether the threads are settled does not depend on the object to signal. */
  lemma AnyObject(e: Setting, e': Setting, w: Walk)
    requires Settled(e, w) && e' == e.(obj := e'.obj)
    ensures Settled(e', w)
  {
    assert forall th :: Endless(e', w, th) <==> Endless(e, w, th);
  }

  lemma AutoOrOne(e: Setting, w: Walk)
    requires AtMostOneEndless(e, w) && (e.autoReset(e.obj) || AtMostOneEndless(e, Begun(e, w)))
    ensures AtMostOneEndless(e, Begun(e, w))
  {
    if e.autoReset(e.obj) { AutoEndless(e, w); }
  }

  /** Fewer signals, and threads that are ready now or cannot go on, unsettle nothing. */
  lemma StillSettled(e: Setting, w0: Walk, w: Walk)
    requires Settled(e, w0) && w.signaled <= w0.signaled
    requires ListsApart(w) && (forall th :: th in w.waits ==> th in w.list)
    requires ReadySuspended(e, w) && (forall th :: th in w.ready ==> th in w.isReady)
    requires forall th :: th in w.waits ==>
      || !Satisfied(w.signaled, w.waits[th])
      || (th in w0.waits && w.waits[th] == w0.waits[th] && (th in w0.isReady ==> th in w.isReady))
    ensures Settled(e, w)
  {
    forall th | Endless(e, w, th) ensures Endless(e, w0, th) {
      FewerSignals(w.signaled, Manual(w.signaled, e.autoReset), w.waits[th]);
      FewerSignals(Manual(w0.signaled, e.autoReset), Manual(w.signaled, e.autoReset), w.waits[th]);
    }
    forall th | th in w.list && th in w.waits && th !in w.isReady ensures !Satisfied(w.signaled, w.waits[th]) {
      FewerSignals(w0.signaled, w.signaled, w.waits[th]);
    }
  }
}
