/** The walk over the waiting threads when an object is signalled, turn by turn.  A suspended thread that can go
    on is put back at the end of the same list, with its wait, so the walk meets it again. */
module SignalWalks {
  import opened Sequences

  /** CLR_RT_HeapBlock_WaitForObject without its deadline. */
  datatype Wait = Wait(objects: seq<int>, fWaitAll: bool)

  datatype WaitResult = Init | Timeout | HandleAll | Handle(index: int)

  ghost predicate Satisfied(signaled: set<int>, w: Wait) {
    if w.fWaitAll then forall i :: 0 <= i < |w.objects| ==> w.objects[i] in signaled
    else exists i :: 0 <= i < |w.objects| && w.objects[i] in signaled
  }

  /** Taking signals away never satisfies anybody. */
  lemma FewerSignals(signaled: set<int>, signaled': set<int>, w: Wait)
    requires signaled' <= signaled
    ensures Satisfied(signaled', w) ==> Satisfied(signaled, w)
  {
  }

  /** The objects of a wait that reset themselves when it succeeds. */
  ghost function AutoReset(objects: seq<int>, autoReset: int -> bool): set<int> {
    set o | o in objects && autoReset(o)
  }

  /** The position of the first object that is signalled. */
  function FirstSignaled(objects: seq<int>, signaled: set<int>): (i: nat)
    ensures i <= |objects| && (i < |objects| ==> objects[i] in signaled)
    ensures forall j :: 0 <= j < i ==> objects[j] !in signaled
  {
    if objects == [] || objects[0] in signaled then 0 else 1 + FirstSignaled(objects[1..], signaled)
  }

  /** The signals that are left when the wait has succeeded. */
  ghost function Taken(signaled: set<int>, w: Wait, autoReset: int -> bool): set<int> {
    if w.fWaitAll then signaled - AutoReset(w.objects, autoReset)
    else
      var i := FirstSignaled(w.objects, signaled);
      if i < |w.objects| && autoReset(w.objects[i]) then signaled - {w.objects[i]} else signaled
  }

  ghost function Outcome(signaled: set<int>, w: Wait): WaitResult {
    if w.fWaitAll then HandleAll else Handle(FirstSignaled(w.objects, signaled))
  }

  /** What a signal does not change: the object, which objects reset themselves, who is suspended. */
  datatype Setting = Setting(obj: int, autoReset: int -> bool, suspended: set<int>)

  /** The walk has come to position pos of the list.  Threads in isReady have the status Ready. */
  datatype Walk = Walk(signaled: set<int>, list: seq<int>, pos: nat, waits: map<int, Wait>, results: map<int, WaitResult>,
                       ready: seq<int>, isReady: set<int>)

  /** It ends behind the last thread, or when the object has been reset. */
  ghost predicate Done(e: Setting, w: Walk) {
    w.pos >= |w.list| || e.obj !in w.signaled
  }

  ghost predicate CanGo(w: Walk) {
    w.pos < |w.list| && w.list[w.pos] in w.waits && Satisfied(w.signaled, w.waits[w.list[w.pos]])
  }

  /** One thread tries to go on.  The thread that comes next is the one that followed before. */
  ghost function Visit(autoReset: int -> bool, suspended: set<int>, w: Walk): Walk {
    if !CanGo(w) then w.(pos := w.pos + 1)
    else
      var th := w.list[w.pos];
      var rest := w.list[..w.pos] + w.list[w.pos + 1..];
      var w' := w.(signaled := Taken(w.signaled, w.waits[th], autoReset),
                   results := w.results[th := Outcome(w.signaled, w.waits[th])], isReady := w.isReady + {th});
      if th in suspended then w'.(list := rest + [th], pos := if w.pos + 1 == |w.list| then |w.list| else w.pos)
      else w'.(list := rest, ready := w.ready + [th], waits := w.waits - {th})
  }

  ghost function Turn(e: Setting, w: Walk): Walk {
    if Done(e, w) then w else Visit(e.autoReset, e.suspended, w)
  }

  ghost function Turns(e: Setting, w: Walk, n: nat): Walk {
    if n == 0 then w else Turn(e, Turns(e, w, n - 1))
  }

  ghost predicate Ends(e: Setting, w: Walk) {
    exists n: nat :: Done(e, Turns(e, w, n))
  }

  // ---------- When the walk ends ----------

  /** The signals that no wait resets. */
  ghost function Manual(signaled: set<int>, autoReset: int -> bool): set<int> {
    set o | o in signaled && !autoReset(o)
  }

  /** The suspended thread th can go on by manual-reset signals alone, and so can do it again and again. */
  ghost predicate Endless(e: Setting, w: Walk, th: int) {
    th in w.list && th in e.suspended && th in w.waits && Satisfied(Manual(w.signaled, e.autoReset), w.waits[th])
  }

  ghost predicate AtMostOneEndless(e: Setting, w: Walk) {
    forall a, b :: Endless(e, w, a) && Endless(e, w, b) ==> a == b
  }

  lemma TakenManual(signaled: set<int>, w: Wait, autoReset: int -> bool)
    ensures Taken(signaled, w, autoReset) <= signaled
    ensures Manual(Taken(signaled, w, autoReset), autoReset) == Manual(signaled, autoReset)
  {
    if w.fWaitAll {
      assert forall o :: o in AutoReset(w.objects, autoReset) ==> autoReset(o);
    }
  }

  /** A wait that takes no signal is satisfied by manual-reset signals alone. */
  lemma FreeWait(signaled: set<int>, w: Wait, autoReset: int -> bool)
    requires Satisfied(signaled, w) && Taken(signaled, w, autoReset) == signaled
    ensures Satisfied(Manual(signaled, autoReset), w)
  {
    var M := Manual(signaled, autoReset);
    if w.fWaitAll {
      forall i | 0 <= i < |w.objects| ensures w.objects[i] in M {
        assert w.objects[i] !in AutoReset(w.objects, autoReset);
      }
    } else {
      var i := FirstSignaled(w.objects, signaled);
      assert w.objects[i] in M;
    }
  }

  /** A turn makes nobody endless. */
  lemma TurnEndless(e: Setting, w: Walk, th: int)
    requires NoneTwice(w.list)
    ensures NoneTwice(Turn(e, w).list)
    ensures Endless(e, Turn(e, w), th) ==> Endless(e, w, th)
    ensures Manual(Turn(e, w).signaled, e.autoReset) == Manual(w.signaled, e.autoReset)
  {
    TurnList(e, w);
    if CanGo(w) { TakenManual(w.signaled, w.waits[w.list[w.pos]], e.autoReset); }
  }

  /** The list after a turn. */
  lemma TurnList(e: Setting, w: Walk)
    requires NoneTwice(w.list)
    ensures var w' := Turn(e, w);
      && NoneTwice(w'.list) && (forall th :: th in w'.list ==> th in w.list)
      && (forall th :: th in w.list && th !in w'.list ==> th in w.waits && th !in w'.waits && th !in e.suspended)
  {
    if !Done(e, w) && CanGo(w) {
      var rest := w.list[..w.pos] + w.list[w.pos + 1..];
      CutAt(w.list, rest, w.pos);
    }
  }

  /** Two endless threads, both still to come. */
  ghost predicate TwoAhead(e: Setting, w: Walk, i: int, j: int) {
    w.pos <= i < j < |w.list| && Endless(e, w, w.list[i]) && Endless(e, w, w.list[j])
  }

  ghost predicate SomeTwoAhead(e: Setting, w: Walk) {
    exists i, j :: TwoAhead(e, w, i, j)
  }

  /** Where a thread of the list is after a turn. */
  function MovedTo(w: Walk, i: int): int {
    if i < w.pos then i else if i == w.pos then |w.list| - 1 else i - 1
  }

  /** Two endless threads ahead stay ahead, so the walk does not end but by the object being reset. */
  lemma TwoStayAhead(e: Setting, w: Walk, i: int, j: int)
    requires NoneTwice(w.list) && TwoAhead(e, w, i, j)
    ensures SomeTwoAhead(e, Turn(e, w))
  {
    if Done(e, w) {
      assert TwoAhead(e, Turn(e, w), i, j);
    } else if !CanGo(w) {
      var a := w.list[i];
      assert Satisfied(w.signaled, w.waits[a]) by { FewerSignals(w.signaled, Manual(w.signaled, e.autoReset), w.waits[a]); }
      assert TwoAhead(e, Turn(e, w), i, j);
    } else {
      TwoMove(e, w, i, j);
    }
  }

  lemma TwoMove(e: Setting, w: Walk, i: int, j: int)
    requires NoneTwice(w.list) && TwoAhead(e, w, i, j) && !Done(e, w) && CanGo(w)
    ensures SomeTwoAhead(e, Turn(e, w))
  {
    var w' := Turn(e, w);
    var a, b := w.list[i], w.list[j];
    TakenManual(w.signaled, w.waits[w.list[w.pos]], e.autoReset);
    var th := w.list[w.pos];
    var rest := w.list[..w.pos] + w.list[w.pos + 1..];
    CutAt(w.list, rest, w.pos);
    if th in e.suspended {
      assert w'.list == rest + [th];
      assert w'.list[j - 1] == b;
      if i == w.pos {
        assert w'.list[|w.list| - 1] == a;
        assert TwoAhead(e, w', j - 1, |w.list| - 1);
      } else {
        assert w'.list[i - 1] == a;
        assert TwoAhead(e, w', i - 1, j - 1);
      }
    } else {
      assert i != w.pos && rest[i - 1] == a && rest[j - 1] == b;
      assert TwoAhead(e, w', i - 1, j - 1);
    }
  }

  ghost predicate StillTwo(e: Setting, w: Walk) {
    NoneTwice(w.list) && SomeTwoAhead(e, w)
  }

  lemma TwoAheadTurn(e: Setting, w: Walk)
    requires StillTwo(e, w)
    ensures StillTwo(e, Turn(e, w))
  {
    var i, j :| TwoAhead(e, w, i, j);
    TwoStayAhead(e, w, i, j);
    TurnList(e, w);
  }

  lemma TwoAheadDone(e: Setting, w: Walk)
    requires StillTwo(e, w)
    ensures Done(e, w) <==> e.obj !in w.signaled
  {
    var i, j :| TwoAhead(e, w, i, j);
  }

  lemma {:induction false} TwoAlwaysAhead(e: Setting, w: Walk, n: nat)
    requires StillTwo(e, w)
    ensures StillTwo(e, Turns(e, w, n))
  {
    if n > 0 {
      TwoAlwaysAhead(e, w, n - 1);
      TwoAheadTurn(e, Turns(e, w, n - 1));
    }
  }

  /** The work left when at most one thread is endless: signals to take, threads ahead, and whether the endless
      one is next. */
  ghost function Next(e: Setting, w: Walk): nat {
    if w.pos < |w.list| && Endless(e, w, w.list[w.pos]) then 1 else 0
  }

  ghost predicate Less(e: Setting, w: Walk, w': Walk) {
    || w'.signaled < w.signaled
    || (w'.signaled == w.signaled && |w'.list| - w'.pos < |w.list| - w.pos)
    || (w'.signaled == w.signaled && |w'.list| - w'.pos == |w.list| - w.pos && Next(e, w') < Next(e, w))
  }

  lemma TurnShrinks(e: Setting, w: Walk)
    requires NoneTwice(w.list) && AtMostOneEndless(e, w) && !Done(e, w)
    ensures Less(e, w, Turn(e, w)) && Turn(e, w).pos <= |Turn(e, w).list|
  {
    var w' := Turn(e, w);
    if CanGo(w) {
      var th := w.list[w.pos];
      TakenManual(w.signaled, w.waits[th], e.autoReset);
      if th in e.suspended && w'.signaled == w.signaled && w.pos + 1 < |w.list| {
        FreeWait(w.signaled, w.waits[th], e.autoReset);
        assert Endless(e, w, th);
        TurnEndless(e, w, w'.list[w'.pos]);
        assert w'.list[w'.pos] == w.list[w.pos + 1];
      }
    }
  }

  /** With at most one endless thread the walk ends. */
  lemma {:induction false} EndsSoon(e: Setting, w: Walk) returns (n: nat)
    requires NoneTwice(w.list) && AtMostOneEndless(e, w) && w.pos <= |w.list|
    ensures Done(e, Turns(e, w, n))
    decreases w.signaled, |w.list| - w.pos, Next(e, w)
  {
    if Done(e, w) {
      n := 0;
    } else {
      TurnShrinks(e, w);
      TurnKeepsOne(e, w);
      var k := EndsSoon(e, Turn(e, w));
      n := k + 1;
      TurnFirst(e, w, k);
    }
  }

  lemma TurnKeepsOne(e: Setting, w: Walk)
    requires NoneTwice(w.list) && AtMostOneEndless(e, w)
    ensures NoneTwice(Turn(e, w).list) && AtMostOneEndless(e, Turn(e, w))
  {
    TurnList(e, w);
    forall th ensures Endless(e, Turn(e, w), th) ==> Endless(e, w, th) { TurnEndless(e, w, th); }
  }

  lemma {:induction false} TurnFirst(e: Setting, w: Walk, n: nat)
    ensures Turns(e, w, n + 1) == Turns(e, Turn(e, w), n)
  {
    if n > 0 { TurnFirst(e, w, n - 1); }
  }

  /** A walk that starts at the front of the list ends exactly if at most one suspended thread can go on by
      manual-reset signals alone, or if a thread takes the signal of the object. */
  lemma WalkEndsIff(e: Setting, w: Walk)
    requires NoneTwice(w.list) && w.pos == 0
    ensures Ends(e, w) <==> AtMostOneEndless(e, w) || exists n: nat :: e.obj !in Turns(e, w, n).signaled
  {
    if AtMostOneEndless(e, w) {
      var n := EndsSoon(e, w);
    } else {
      var a, b :| Endless(e, w, a) && Endless(e, w, b) && a != b;
      var i :| 0 <= i < |w.list| && w.list[i] == a;
      var j :| 0 <= j < |w.list| && w.list[j] == b;
      assert TwoAhead(e, w, if i < j then i else j, if i < j then j else i);
      forall n: nat ensures Done(e, Turns(e, w, n)) <==> e.obj !in Turns(e, w, n).signaled {
        TwoAlwaysAhead(e, w, n);
        TwoAheadDone(e, Turns(e, w, n));
      }
      if Ends(e, w) {
        var n: nat :| Done(e, Turns(e, w, n));
        assert e.obj !in Turns(e, w, n).signaled;
      }
    }
    if n: nat :| e.obj !in Turns(e, w, n).signaled { assert Done(e, Turns(e, w, n)); }
  }

  /** The signal of a manual-reset object is never taken. */
  lemma {:induction false} ManualStays(e: Setting, w: Walk, n: nat)
    requires NoneTwice(w.list) && e.obj in w.signaled && !e.autoReset(e.obj)
    ensures e.obj in Turns(e, w, n).signaled && NoneTwice(Turns(e, w, n).list)
  {
    if n > 0 {
      ManualStays(e, w, n - 1);
      var v := Turns(e, w, n - 1);
      TurnEndless(e, v, 0);
      assert e.obj in Manual(v.signaled, e.autoReset);
      assert e.obj in Manual(Turn(e, v).signaled, e.autoReset);
    }
  }

  /** So for a manual-reset object the walk ends exactly if at most one suspended thread in the list can go on by
      manual-reset signals alone, whatever other threads there are. */
  lemma ManualEndsIff(e: Setting, w: Walk)
    requires NoneTwice(w.list) && w.pos == 0 && e.obj in w.signaled && !e.autoReset(e.obj)
    ensures Ends(e, w) <==> AtMostOneEndless(e, w)
  {
    WalkEndsIff(e, w);
    forall n: nat ensures e.obj in Turns(e, w, n).signaled { ManualStays(e, w, n); }
  }

  /** The walk before its first turn. */
  ghost function Begun(e: Setting, w: Walk): Walk {
    w.(signaled := w.signaled + {e.obj}, pos := 0)
  }

  /** When at most one thread was endless before the signal, the walk of an auto-reset object always ends, and
      that of a manual-reset object exactly if the signal does not make a second thread endless. */
  lemma SignalEndsIff(e: Setting, w: Walk)
    requires NoneTwice(w.list) && AtMostOneEndless(e, w)
    ensures Ends(e, Begun(e, w)) <==> e.autoReset(e.obj) || AtMostOneEndless(e, Begun(e, w))
  {
    if e.autoReset(e.obj) {
      AutoEndless(e, w);
      WalkEndsIff(e, Begun(e, w));
    } else {
      ManualEndsIff(e, Begun(e, w));
    }
  }

  lemma AutoEndless(e: Setting, w: Walk)
    requires e.autoReset(e.obj) && AtMostOneEndless(e, w)
    ensures AtMostOneEndless(e, Begun(e, w))
  {
    assert Manual(w.signaled + {e.obj}, e.autoReset) == Manual(w.signaled, e.autoReset);
    forall th ensures Endless(e, Begun(e, w), th) ==> Endless(e, w, th) { }
  }

  /** Two suspended threads that wait for one manual-reset object: the walk that signals it never ends. */
  lemma TwoSuspended(n: nat)
    ensures var e := Setting(7, o => false, {1, 2});
      var w := Walk({7}, [1, 2], 0, map[1 := Wait([7], false), 2 := Wait([7], false)], map[], [], {});
      !Done(e, Turns(e, w, n)) && !Ends(e, w)
  {
    var e := Setting(7, o => false, {1, 2});
    var w := Walk({7}, [1, 2], 0, map[1 := Wait([7], false), 2 := Wait([7], false)], map[], [], {});
    assert w.waits[1].objects[0] in Manual(w.signaled, e.autoReset);
    assert Endless(e, w, 1) && Endless(e, w, 2);
    ManualEndsIff(e, w);
  }

  // ---------- What the walk does ----------

  /** The list without the threads in X. */
  ghost function Rest(list: seq<int>, X: set<int>): seq<int> {
    if list == [] then [] else (if list[0] in X then [] else [list[0]]) + Rest(list[1..], X)
  }

  lemma RestFirst(a: seq<int>, b: seq<int>, X: set<int>)
    requires a != []
    ensures Rest(a + b, X) == (if a[0] in X then [] else [a[0]]) + Rest(a[1..] + b, X)
  {
    assert (a + b)[1..] == a[1..] + b;
  }

  lemma Grouped(a: seq<int>, b: seq<int>, c: seq<int>)
    ensures a + (b + c) == (a + b) + c
  {
  }

  lemma {:induction false} RestAppend(a: seq<int>, b: seq<int>, X: set<int>)
    ensures Rest(a + b, X) == Rest(a, X) + Rest(b, X)
  {
    if a == [] {
      assert a + b == b;
    } else {
      RestFirst(a, b, X);
      RestAppend(a[1..], b, X);
      Grouped(if a[0] in X then [] else [a[0]], Rest(a[1..], X), Rest(b, X));
    }
  }

  lemma {:induction false} RestTwice(list: seq<int>, X: set<int>, Y: set<int>)
    ensures Rest(Rest(list, X), Y) == Rest(list, X + Y)
  {
    if list != [] {
      RestTwice(list[1..], X, Y);
      RestAppend(if list[0] in X then [] else [list[0]], Rest(list[1..], X), Y);
    }
  }

  /** Moving or taking out a thread in X does not show in what is left. */
  lemma RestCut(list: seq<int>, k: int, X: set<int>)
    requires 0 <= k < |list| && list[k] in X
    ensures Rest(list[..k] + list[k + 1..], X) == Rest(list, X)
    ensures Rest(list[..k] + list[k + 1..] + [list[k]], X) == Rest(list, X)
  {
    var rest := list[..k] + list[k + 1..];
    assert list == list[..k] + ([list[k]] + list[k + 1..]);
    RestAppend(list[..k], [list[k]] + list[k + 1..], X);
    RestAppend([list[k]], list[k + 1..], X);
    RestAppend(list[..k], list[k + 1..], X);
    RestAppend(rest, [list[k]], X);
  }

  /** A thread that the walk has taken off the list, or that it has put back. */
  ghost predicate Woken(w0: Walk, w: Walk, th: int) {
    th in w0.waits && th !in w.waits
  }

  /** The signals that are gone reset themselves, and a thread that waited for them can go on. */
  ghost predicate SignalsTaken(e: Setting, w0: Walk, w: Walk) {
    && w.signaled <= w0.signaled
    && (forall o :: o in w0.signaled && o !in w.signaled ==>
          e.autoReset(o) && exists th :: th in w0.waits && th in w.isReady && o in w0.waits[th].objects)
  }

  /** Who can go on was satisfied: a thread that is not suspended has left the list and its wait for the ready
      list; one that is suspended has kept its wait. */
  ghost predicate OnlySatisfied(e: Setting, w0: Walk, w: Walk) {
    && (forall th :: th in w.waits ==> th in w0.waits && w.waits[th] == w0.waits[th])
    && (forall th :: Woken(w0, w, th) ==> th !in e.suspended && th in w.ready && th in w.isReady && Satisfied(w0.signaled, w0.waits[th]))
    && w0.isReady <= w.isReady
    && (forall th :: th in w.isReady && th !in w0.isReady ==> th in w0.waits && Satisfied(w0.signaled, w0.waits[th]) && (th in w.waits <==> th in e.suspended))
  }

  /** The others have kept their order, and nobody has come to the list. */
  ghost predicate ListKept(w0: Walk, w: Walk) {
    && NoneTwice(w.list) && Rest(w.list, w.isReady) == Rest(w0.list, w.isReady)
    && (forall th :: th in w.list ==> th in w0.list) && (forall th :: th in w0.list && th !in w.list ==> Woken(w0, w, th))
    && (forall th :: th in w.waits ==> th in w.list) && (forall th :: th in w.list && th in w.isReady ==> th in w0.isReady || th in w.waits)
  }

  ghost predicate Did(e: Setting, w0: Walk, w: Walk) {
    SignalsTaken(e, w0, w) && OnlySatisfied(e, w0, w) && ListKept(w0, w) && w0.ready <= w.ready && w.pos <= |w.list|
    && (forall th :: th in w.ready ==> th in w0.ready || th in w.isReady)
  }

  lemma TurnDid(e: Setting, w0: Walk, w: Walk)
    requires Did(e, w0, w)
    ensures Did(e, w0, Turn(e, w))
  {
    if !Done(e, w) && CanGo(w) {
      var th := w.list[w.pos];
      var w' := Turn(e, w);
      assert Satisfied(w0.signaled, w0.waits[th]) by { FewerSignals(w0.signaled, w.signaled, w0.waits[th]); }
      assert SignalsTaken(e, w0, w') by { TurnSignals(e, w0, w); }
      assert ListKept(w0, w') by { TurnKeepsList(e, w0, w); }
    }
  }

  lemma TurnSignals(e: Setting, w0: Walk, w: Walk)
    requires SignalsTaken(e, w0, w) && OnlySatisfied(e, w0, w) && !Done(e, w) && CanGo(w)
    ensures SignalsTaken(e, w0, Turn(e, w))
  {
    var th := w.list[w.pos];
    var w' := Turn(e, w);
    TakenManual(w.signaled, w.waits[th], e.autoReset);
    forall o | o in w0.signaled && o !in w'.signaled
      ensures e.autoReset(o) && exists x :: x in w0.waits && x in w'.isReady && o in w0.waits[x].objects
    {
      if o in w.signaled {
        assert o in w0.waits[th].objects && th in w'.isReady;
      } else {
        var x :| x in w0.waits && x in w.isReady && o in w0.waits[x].objects;
        assert x in w'.isReady;
      }
    }
  }

  lemma TurnKeepsList(e: Setting, w0: Walk, w: Walk)
    requires OnlySatisfied(e, w0, w) && ListKept(w0, w) && !Done(e, w) && CanGo(w)
    ensures ListKept(w0, Turn(e, w))
  {
    var th := w.list[w.pos];
    var w' := Turn(e, w);
    var rest := w.list[..w.pos] + w.list[w.pos + 1..];
    CutAt(w.list, rest, w.pos);
    assert Rest(w'.list, w'.isReady) == Rest(w0.list, w'.isReady) by { RestMoved(w0.list, w.list, w.pos, w.isReady); }
  }

  lemma RestMoved(list0: seq<int>, list: seq<int>, k: int, X: set<int>)
    requires 0 <= k < |list| && Rest(list, X) == Rest(list0, X)
    ensures var rest := list[..k] + list[k + 1..]; var X' := X + {list[k]};
      Rest(rest, X') == Rest(list0, X') && Rest(rest + [list[k]], X') == Rest(list0, X')
  {
    RestCut(list, k, X + {list[k]});
    RestTwice(list, X, {list[k]});
    RestTwice(list0, X, {list[k]});
  }

  lemma {:induction false} TurnsDid(e: Setting, w: Walk, n: nat)
    requires w.pos == 0 && NoneTwice(w.list) && (forall th :: th in w.waits ==> th in w.list)
    ensures Did(e, w, Turns(e, w, n))
  {
    if n > 0 {
      TurnsDid(e, w, n - 1);
      TurnDid(e, w, Turns(e, w, n - 1));
    }
  }

  // ---------- Nobody is passed over ----------

  /** No thread with the status Waiting waits for something that has happened. */
  ghost predicate NoLostWakeup(signaled: set<int>, list: seq<int>, waits: map<int, Wait>, isReady: set<int>) {
    forall th :: th in list && th in waits && th !in isReady ==> !Satisfied(signaled, waits[th])
  }

  /** Who is before the position cannot go on, who is behind it could not before the signal. */
  ghost predicate Swept(e: Setting, s0: set<int>, w: Walk) {
    && w.signaled <= s0 + {e.obj} && w.pos <= |w.list|
    && (forall k :: 0 <= k < |w.list| && w.list[k] in w.waits && w.list[k] !in w.isReady ==>
          !Satisfied(if k < w.pos then w.signaled else s0, w.waits[w.list[k]]))
  }

  lemma TurnSwept(e: Setting, s0: set<int>, w: Walk)
    requires NoneTwice(w.list) && Swept(e, s0, w)
    ensures Swept(e, s0, Turn(e, w))
  {
    if !Done(e, w) && CanGo(w) {
      var th, w' := w.list[w.pos], Turn(e, w);
      var rest := w.list[..w.pos] + w.list[w.pos + 1..];
      CutAt(w.list, rest, w.pos);
      TakenManual(w.signaled, w.waits[th], e.autoReset);
      forall k | 0 <= k < |w'.list| && w'.list[k] in w'.waits && w'.list[k] !in w'.isReady
        ensures !Satisfied(if k < w'.pos then w'.signaled else s0, w'.waits[w'.list[k]])
      {
        var j := if k < w.pos then k else k + 1;
        assert k < |rest| && w'.list[k] == w.list[j];
        FewerSignals(w.signaled, w'.signaled, w.waits[w.list[j]]);
      }
    }
  }

  lemma SweptDone(e: Setting, s0: set<int>, w: Walk)
    requires Swept(e, s0, w) && Done(e, w)
    ensures NoLostWakeup(w.signaled, w.list, w.waits, w.isReady)
  {
    forall th | th in w.list && th in w.waits && th !in w.isReady ensures !Satisfied(w.signaled, w.waits[th]) {
      var k :| 0 <= k < |w.list| && w.list[k] == th;
      if e.obj !in w.signaled { FewerSignals(s0, w.signaled, w.waits[th]); }
    }
  }

  lemma {:induction false} TurnsSwept(e: Setting, s0: set<int>, w: Walk, n: nat)
    requires NoneTwice(w.list) && Swept(e, s0, w)
    ensures NoneTwice(Turns(e, w, n).list) && Swept(e, s0, Turns(e, w, n))
  {
    if n > 0 {
      TurnsSwept(e, s0, w, n - 1);
      TurnList(e, Turns(e, w, n - 1));
      TurnSwept(e, s0, Turns(e, w, n - 1));
    }
  }

  // ---------- Who is first ----------

  /** Position k of the list is the first of a thread that can go on. */
  ghost predicate FirstToGo(w: Walk, k: int) {
    && 0 <= k < |w.list| && w.list[k] in w.waits && Satisfied(w.signaled, w.waits[w.list[k]])
    && (forall j :: 0 <= j < k && w.list[j] in w.waits ==> !Satisfied(w.signaled, w.waits[w.list[j]]))
  }

  /** The walk gets to the first thread that can go on with nothing changed. */
  lemma {:induction false} TurnsToFirst(e: Setting, w: Walk, k: nat, n: nat)
    requires w.pos == 0 && e.obj in w.signaled && FirstToGo(w, k) && n <= k
    ensures Turns(e, w, n) == w.(pos := n)
  {
    if n > 0 { TurnsToFirst(e, w, k, n - 1); }
  }

  /** What is done stays so. */
  lemma {:induction false} DoneStays(e: Setting, w: Walk, k: nat, n: nat)
    requires Done(e, Turns(e, w, k)) && k <= n
    ensures Turns(e, w, n) == Turns(e, w, k)
  {
    if k < n { DoneStays(e, w, k, n - 1); }
  }

  lemma {:induction false} ReadyStays(e: Setting, w: Walk, k: nat, n: nat)
    requires k <= n
    ensures Turns(e, w, k).isReady <= Turns(e, w, n).isReady
  {
    if k < n { ReadyStays(e, w, k, n - 1); }
  }

  /** The turn of the first thread that can go on comes before the end. */
  lemma FirstTurn(e: Setting, w: Walk, k: nat, n: nat)
    requires w.pos == 0 && e.obj in w.signaled && FirstToGo(w, k) && Done(e, Turns(e, w, n))
    ensures k < n && Turns(e, w, k + 1) == Turn(e, w.(pos := k)) && !Done(e, w.(pos := k)) && CanGo(w.(pos := k))
  {
    TurnsToFirst(e, w, k, k);
    if n <= k { TurnsToFirst(e, w, k, n); }
  }

  /** The first thread that can go on does. */
  lemma FirstServed(e: Setting, w: Walk, k: nat, n: nat)
    requires w.pos == 0 && e.obj in w.signaled && FirstToGo(w, k) && Done(e, Turns(e, w, n))
    ensures w.list[k] in Turns(e, w, n).isReady
  {
    FirstTurn(e, w, k, n);
    ReadyStays(e, w, k + 1, n);
  }

  /** If it takes the signal of the object, that is all that happens: a suspended thread keeps the signal from
      all others, although it does not go on either. */
  lemma TakesAll(e: Setting, w: Walk, k: nat, n: nat)
    requires w.pos == 0 && e.obj in w.signaled && FirstToGo(w, k) && Done(e, Turns(e, w, n))
    requires e.obj !in Taken(w.signaled, w.waits[w.list[k]], e.autoReset)
    ensures Turns(e, w, n) == Turn(e, w.(pos := k)) && e.obj !in Turns(e, w, n).signaled
    ensures w.list[k] in e.suspended ==> Turns(e, w, n).ready == w.ready && Turns(e, w, n).waits == w.waits
  {
    FirstTurn(e, w, k, n);
    DoneStays(e, w, k + 1, n);
  }

  /** A thread that was not satisfied before the signal is satisfied by the signalled object, and takes the
      signal if the object resets itself. */
  lemma WokenBy(e: Setting, s0: set<int>, s: set<int>, w: Wait)
    requires s <= s0 + {e.obj} && !Satisfied(s0, w) && Satisfied(s, w)
    ensures e.obj in w.objects && (e.autoReset(e.obj) ==> e.obj !in Taken(s, w, e.autoReset))
  {
    if w.fWaitAll {
      var i :| 0 <= i < |w.objects| && w.objects[i] !in s0;
      assert w.objects[i] == e.obj;
    } else {
      assert w.objects[FirstSignaled(w.objects, s)] == e.obj;
    }
  }

  /** An object that resets itself frees at most one thread. */
  ghost predicate OneFreed(e: Setting, w0: Walk, w: Walk) {
    e.autoReset(e.obj) ==> |w.ready| <= |w0.ready| + 1 && (e.obj in w.signaled ==> w.ready == w0.ready)
  }

  lemma TurnFrees(e: Setting, s0: set<int>, w0: Walk, w: Walk)
    requires Swept(e, s0, w) && OneFreed(e, w0, w) && ReadySuspended(e, w)
    ensures OneFreed(e, w0, Turn(e, w))
  {
    if !Done(e, w) && CanGo(w) && w.list[w.pos] !in e.suspended {
      var th := w.list[w.pos];
      assert th in w.list && th !in w.isReady;
      assert !Satisfied(if w.pos < w.pos then w.signaled else s0, w.waits[th]);
      WokenBy(e, s0, w.signaled, w.waits[th]);
    }
  }

  /** Threads of the list that are ready. */
  ghost predicate ReadySuspended(e: Setting, w: Walk) {
    forall th :: th in w.list && th in w.isReady ==> th in e.suspended
  }

  lemma TurnReady(e: Setting, w: Walk)
    requires NoneTwice(w.list) && ReadySuspended(e, w)
    ensures ReadySuspended(e, Turn(e, w))
  {
    if !Done(e, w) && CanGo(w) { CutAt(w.list, w.list[..w.pos] + w.list[w.pos + 1..], w.pos); }
  }

  lemma {:induction false} TurnsFree(e: Setting, s0: set<int>, w: Walk, n: nat)
    requires NoneTwice(w.list) && Swept(e, s0, w) && ReadySuspended(e, w)
    ensures OneFreed(e, w, Turns(e, w, n)) && ReadySuspended(e, Turns(e, w, n))
  {
    if n > 0 {
      TurnsFree(e, s0, w, n - 1);
      TurnsSwept(e, s0, w, n - 1);
      TurnFreesReady(e, s0, w, Turns(e, w, n - 1));
    }
  }

  lemma TurnFreesReady(e: Setting, s0: set<int>, w0: Walk, w: Walk)
    requires NoneTwice(w.list) && Swept(e, s0, w) && OneFreed(e, w0, w) && ReadySuspended(e, w)
    ensures OneFreed(e, w0, Turn(e, w)) && ReadySuspended(e, Turn(e, w))
  {
    TurnFrees(e, s0, w0, w);
    TurnReady(e, w);
  }

  /** What holds of the waiting threads between two operations. */
  ghost predicate Settled(e: Setting, w: Walk) {
    && NoneTwice(w.list) && (forall th :: th in w.waits ==> th in w.list)
    && NoLostWakeup(w.signaled, w.list, w.waits, w.isReady)
    && ReadySuspended(e, w)
    && (forall th :: th in w.ready ==> th in w.isReady)
    && AtMostOneEndless(e, w) && ListsApart(w)
  }

  /** A thread is linked in one list, and once. */
  ghost predicate ListsApart(w: Walk) {
    NoneTwice(w.list) && NoneTwice(w.ready) && forall th :: th in w.ready ==> th !in w.list
  }

  lemma TurnApart(e: Setting, w: Walk)
    requires ListsApart(w)
    ensures ListsApart(Turn(e, w))
  {
    if !Done(e, w) && CanGo(w) {
      var th, rest, w' := w.list[w.pos], w.list[..w.pos] + w.list[w.pos + 1..], Turn(e, w);
      CutAt(w.list, rest, w.pos);
      if th in e.suspended {
        assert w'.list == rest + [th] && w'.ready == w.ready;
      } else {
        assert w'.list == rest && w'.ready == w.ready + [th] && th !in w.ready;
      }
    }
  }

  lemma {:induction false} TurnsApart(e: Setting, w: Walk, n: nat)
    requires ListsApart(w)
    ensures ListsApart(Turns(e, w, n))
  {
    if n > 0 {
      TurnsApart(e, w, n - 1);
      TurnApart(e, Turns(e, w, n - 1));
    }
  }

  /** When the walk is over all is settled again. */
  lemma WalkOver(e: Setting, w: Walk, n: nat, v: Walk)
    requires Settled(e, w) && AtMostOneEndless(e, Begun(e, w)) && Done(e, Turns(e, Begun(e, w), n))
    requires v == Turns(e, Begun(e, w), n).(pos := 0)
    ensures Did(e, Begun(e, w), v) && Settled(e, v) && OneFreed(e, Begun(e, w), v) && FirstFreed(Begun(e, w), v)
  {
    var b := Begun(e, w);
    assert Swept(e, w.signaled, b) by {
      forall k | 0 <= k < |b.list| && b.list[k] in b.waits && b.list[k] !in b.isReady ensures !Satisfied(w.signaled, b.waits[b.list[k]]) {
        var th := b.list[k];
        assert th in w.list && th in w.waits && th !in w.isReady;
      }
    }
    TurnsDid(e, b, n);
    TurnsSwept(e, w.signaled, b, n);
    SweptDone(e, w.signaled, Turns(e, b, n));
    TurnsFree(e, w.signaled, b, n);
    TurnsKeepOne(e, b, n);
    TurnsApart(e, b, n);
    forall k | FirstToGo(b, k) ensures b.list[k] in v.isReady { FirstServed(e, b, k, n); }
    OverFields(e, b, Turns(e, b, n), v);
  }

  lemma OverFields(e: Setting, b: Walk, w: Walk, v: Walk)
    requires v == w.(pos := 0) && Did(e, b, w) && OneFreed(e, b, w) && AtMostOneEndless(e, w)
    ensures Did(e, b, v) && OneFreed(e, b, v) && AtMostOneEndless(e, v)
  {
    assert forall th :: Endless(e, v, th) ==> Endless(e, w, th);
  }

  /** The first thread that could go on has become ready. */
  ghost predicate FirstFreed(w0: Walk, w: Walk) {
    forall k :: FirstToGo(w0, k) ==> w0.list[k] in w.isReady
  }

  lemma {:induction false} TurnsKeepOne(e: Setting, w: Walk, n: nat)
    requires NoneTwice(w.list) && AtMostOneEndless(e, w)
    ensures NoneTwice(Turns(e, w, n).list) && AtMostOneEndless(e, Turns(e, w, n))
  {
    if n > 0 {
      TurnsKeepOne(e, w, n - 1);
      TurnKeepsOne(e, Turns(e, w, n - 1));
    }
  }

  // ---------- A signal that goes astray ----------

  /** Threads 1, suspended, and 2 wait for the object 7, which resets itself and has just been signalled. */
  function Astray(list: seq<int>, isReady: set<int>): Walk {
    Walk({7}, list, 0, map[1 := Wait([7], false), 2 := Wait([7], false)], map[], [], isReady)
  }

  /** The suspended thread takes the signal, and if it is alone with thread 2 that has come later it takes the
      next one too: thread 2 is not freed. */
  lemma SignalAstray(isReady: set<int>, n: nat)
    requires Done(Setting(7, o => true, {1}), Turns(Setting(7, o => true, {1}), Astray([1, 2], isReady), n))
    ensures var w := Turns(Setting(7, o => true, {1}), Astray([1, 2], isReady), n);
      w.signaled == {} && w.ready == [] && w.list == [2, 1] && 2 in w.waits && 1 in w.waits && 1 in w.isReady
  {
    var e, w := Setting(7, o => true, {1}), Astray([1, 2], isReady);
    assert w.waits[1].objects[0] in w.signaled;
    assert FirstToGo(w, 0);
    TakesAll(e, w, 0, n);
  }
}
