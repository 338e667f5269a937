/** `waitForThread` and `exitThread` at their own critical sections: the search, the listing and the marking
    are three steps of the waiter, the waking and the leaving two of the awaited thread, and any other
    thread may run between them. The waking loop holds the lock of the waiting list, so it is one step. */
module JoinWindows {
  import opened Rings
  import opened Schedules
  import opened SchedulerRuns

  /** Where a thread stands. `target` is the thread the search found under `id`: ids are used again, so the
      id alone does not say who is awaited. */
  datatype Place =
    | Running
    | Found(id: nat, target: nat)   // past the search
    | Linked(id: nat, target: nat)  // on the waiting list, not yet marked
    | Marked(id: nat, target: nat)  // marked; about to yield, or waiting
    | Ended                         // its waiters are woken; about to leave the ring

  /** `early` holds the waiters whose awaited thread did its waking before their marking, although their
      search found it. */
  datatype Joining = Joining(s: State<nat>, place: map<nat, Place>, created: set<nat>, early: set<nat>)

  datatype Step =
    | Make(thread: nat, id: nat)  // `createThread`
    | Search(id: nat)             // the search of `waitForThread`
    | Link                        // its `linkList`
    | Mark                        // its `waiting = true`
    | Return                      // back from its yield
    | WakeAll                     // the loop of `exitThread`
    | Leave                       // the rest of `exitThread`
    | Preempt                     // the timer tick or a yield

  function Bearer(s: State<nat>, id: nat): (t: nat)
    requires IsLive(s, id)
    ensures t in s.ring && t in s.id && s.id[t] == id
  {
    var i := FirstBearing(s, s.ring, id);
    s.ring[i]
  }

  function FirstBearing(s: State<nat>, ring: seq<nat>, id: nat): (i: nat)
    requires exists t :: t in ring && t in s.id && s.id[t] == id
    ensures i < |ring| && ring[i] in s.id && s.id[ring[i]] == id
  {
    if ring[0] in s.id && s.id[ring[0]] == id then 0 else 1 + FirstBearing(s, ring[1..], id)
  }

  predicate CanLeave(s: State<nat>) {
    CanExit(s)
  }

  /** `exitThread` after its loop, up to the jump. */
  function Departed(s: State<nat>): (r: State<nat>)
    requires CanLeave(s)
    ensures OnRing(r) && HasRunnable(r)
  {
    var k := Index(s.ring, s.current);
    var r := Unlink(s, s.current).(dead := s.dead + [s.current], current := s.ring[k - 1]);
    var r := r.(waiting := r.waiting - {s.cleaner});
    assert r.ring[k - 1] == s.ring[k - 1];
    assert s.cleaner in r.ring by {
      var c := Index(s.ring, s.cleaner);
      assert r.ring[if c < k then c else c - 1] == s.cleaner;
    }
    r
  }

  /** Waiters that would miss the waking of `t` now: past their search for it, not yet marked. */
  function Exposed(y: Joining, t: nat): set<nat> {
    set w | w in y.place && (y.place[w].Found? || y.place[w].Linked?) && y.place[w].target == t
  }

  /** The awaited thread has done its waking, or is gone. */
  predicate Done(y: Joining, t: nat) {
    t !in y.place || y.place[t].Ended?
  }

  predicate CanStep(y: Joining, e: Step) {
    var s := y.s;
    && OnRing(s) && s.current in y.place && s.current in s.id
    && match e
       case Make(t, id) => t !in y.created && IsLeastUnused(s, id)
       case Search(id) => y.place[s.current].Running? && s.current != s.cleaner
       case Link => y.place[s.current].Found?
       case Mark => y.place[s.current].Linked?
       case Return => y.place[s.current].Marked? && s.current !in s.waiting
       case WakeAll => y.place[s.current].Running? && CanExit(s)
       case Leave => y.place[s.current].Ended? && CanLeave(s)
       case Preempt => HasRunnable(s)
  }

  function After(y: Joining, e: Step): Joining
    requires CanStep(y, e)
  {
    var s := y.s;
    var c := s.current;
    match e
    case Make(t, id) => y.(s := Create(s, t, id), place := y.place[t := Running], created := y.created + {t})
    case Search(id) =>
      if IsLive(s, id) then
        var t := Bearer(s, id);
        y.(place := y.place[c := Found(id, t)], early := if Done(y, t) then y.early + {c} else y.early)
      else y
    case Link =>
      var p := y.place[c];
      y.(s := s.(waiters := s.waiters + [Waiter(p.id, c)]), place := y.place[c := Linked(p.id, p.target)])
    case Mark =>
      var p := y.place[c];
      y.(s := s.(waiting := s.waiting + {c}), place := y.place[c := Marked(p.id, p.target)])
    case Return => y.(place := y.place[c := Running], early := y.early - {c})
    case WakeAll => y.(s := Wake(s, s.id[c]), place := y.place[c := Ended], early := y.early + Exposed(y, c))
    case Leave => y.(s := Dispatch(Departed(s)), place := y.place - {c})
    case Preempt => y.(s := Dispatch(s))
  }

  // ---------- the invariant ----------

  predicate Waits(p: Place) {
    p.Found? || p.Linked? || p.Marked?
  }

  /** Asleep in `waitForThread`. */
  predicate Asleep(y: Joining, w: nat) {
    w in y.place && y.place[w].Marked? && w in y.s.waiting
  }

  /** The threads: on the ring just those that have a place, ids pairwise distinct. */
  ghost predicate Threads(y: Joining) {
    && Identities(y.s)
    && (forall t :: t in y.place <==> t in y.s.ring)
    && (forall t :: t in y.place ==> t in y.created)
    && (forall t :: t in y.s.waiting ==> t in y.place && y.place[t].Marked?)
    && y.place[y.s.cleaner].Running?
  }

  /** A waiter and whom it awaits. */
  ghost predicate Awaiting(y: Joining, w: nat)
    requires w in y.place && Waits(y.place[w])
  {
    var p := y.place[w];
    && p.target in y.created
    && ((p.Marked? && w !in y.s.waiting) || (w in y.early <==> Done(y, p.target)))
    && (!Done(y, p.target) ==> p.target in y.s.id && y.s.id[p.target] == p.id)
    && (!Done(y, p.target) && (p.Linked? || Asleep(y, w)) ==> Waiter(p.id, w) in y.s.waiters)
  }

  /** Every entry is a listed waiter's, and nobody has two. */
  ghost predicate Entries(y: Joining) {
    && OneEach(y.s.waiters)
    && forall e :: e in y.s.waiters ==>
         && e.thread in y.place && (y.place[e.thread].Linked? || Asleep(y, e.thread))
         && y.place[e.thread].id == e.id
  }

  ghost predicate Good(y: Joining) {
    && Threads(y) && Entries(y)
    && (forall w :: w in y.place && Waits(y.place[w]) ==> Awaiting(y, w))
    && (forall w :: w in y.early ==> w in y.place && Waits(y.place[w]))
  }

  // ---------- every step keeps it ----------

  lemma DispatchThreads(s: State<nat>)
    requires Identities(s) && HasRunnable(s)
    ensures var r := Dispatch(s); Identities(r) && r == s.(current := r.current)
  {
    DispatchIsFirst(s);
    OrderMembers(s);
  }

  lemma PreemptGood(y: Joining)
    requires Good(y) && CanStep(y, Preempt)
    ensures Good(After(y, Preempt))
  {
    DispatchThreads(y.s);
    var z := After(y, Preempt);
    forall w | w in z.place && Waits(z.place[w]) ensures Awaiting(z, w) {
      assert Awaiting(y, w);
    }
  }

  lemma MakeGood(y: Joining, t: nat, id: nat)
    requires Good(y) && CanStep(y, Make(t, id))
    ensures Good(After(y, Make(t, id)))
  {
    var z := After(y, Make(t, id));
    MadeThreads(y.s, t, id);
    forall w | w in z.place && Waits(z.place[w]) ensures Awaiting(z, w) {
      assert Awaiting(y, w);
    }
  }

  lemma MadeThreads(s: State<nat>, t: nat, id: nat)
    requires Identities(s) && t !in s.ring && IsLeastUnused(s, id)
    ensures Identities(Create(s, t, id))
  {
    assert forall u :: u in s.ring ==> IsLive(s, s.id[u]);
  }

  lemma SearchGood(y: Joining, id: nat)
    requires Good(y) && CanStep(y, Search(id))
    ensures Good(After(y, Search(id)))
  {
    var z := After(y, Search(id));
    forall w | w in z.place && Waits(z.place[w]) ensures Awaiting(z, w) {
      if w != y.s.current {
        assert Awaiting(y, w);
      }
    }
  }

  lemma LinkGood(y: Joining)
    requires Good(y) && CanStep(y, Link)
    ensures Good(After(y, Link))
  {
    var z, c := After(y, Link), y.s.current;
    assert Awaiting(y, c);
    Appending(y.s.waiters, Waiter(y.place[c].id, c));
    forall w | w in z.place && Waits(z.place[w]) ensures Awaiting(z, w) {
      assert Awaiting(y, w);
    }
  }

  lemma Appending(ws: seq<Waiter<nat>>, e: Waiter<nat>)
    ensures forall w :: w in ws + [e] <==> w in ws || w == e
  {
  }

  lemma MarkGood(y: Joining)
    requires Good(y) && CanStep(y, Mark)
    ensures Good(After(y, Mark))
  {
    var z := After(y, Mark);
    forall w | w in z.place && Waits(z.place[w]) ensures Awaiting(z, w) {
      assert Awaiting(y, w);
    }
  }

  lemma ReturnGood(y: Joining)
    requires Good(y) && CanStep(y, Return)
    ensures Good(After(y, Return))
  {
    var z := After(y, Return);
    forall w | w in z.place && Waits(z.place[w]) ensures Awaiting(z, w) {
      assert Awaiting(y, w);
    }
  }

  /** The waking leaves each waiter of this thread awake or early, and touches no other but those that
      wait for an earlier thread of the same id. */
  lemma WakeAllGood(y: Joining)
    requires Good(y) && CanStep(y, WakeAll)
    ensures Good(After(y, WakeAll))
  {
    var z, c := After(y, WakeAll), y.s.current;
    var id := y.s.id[c];
    KeepMembers(y.s.waiters, id);
    KeepDistinct(y.s.waiters, id);
    forall e | e in z.s.waiters
      ensures e.thread in z.place && (z.place[e.thread].Linked? || Asleep(z, e.thread)) && z.place[e.thread].id == e.id
    {
      StaysAsleep(y.s.waiters, e, id);
    }
    forall w | w in z.place && Waits(z.place[w]) ensures Awaiting(z, w) {
      WokenAwaiting(y, w);
    }
  }

  /** An entry for another id keeps its thread from being woken. */
  lemma StaysAsleep(ws: seq<Waiter<nat>>, e: Waiter<nat>, id: nat)
    requires OneEach(ws) && e in ws && e.id != id
    ensures e.thread !in Woken(ws, id)
  {
    EntriesUnique(ws, e.thread);
  }

  lemma WokenAwaiting(y: Joining, w: nat)
    requires Good(y) && CanStep(y, WakeAll) && w in y.place && Waits(y.place[w]) && w != y.s.current
    ensures Awaiting(After(y, WakeAll), w)
  {
    var z, c := After(y, WakeAll), y.s.current;
    var p, id := y.place[w], y.s.id[c];
    assert Awaiting(y, w);
    KeepMembers(y.s.waiters, id);
    if p.target != c && !Done(y, p.target) {
      assert p.id != id;
      if Waiter(p.id, w) in y.s.waiters {
        StaysAsleep(y.s.waiters, Waiter(p.id, w), id);
      }
    }
  }

  /** What a leaving changes. */
  ghost predicate Left(y: Joining, z: Joining) {
    var c := y.s.current;
    && z.place == y.place - {c} && z.created == y.created && z.early == y.early
    && Identities(z.s) && z.s.waiters == y.s.waiters && z.s.cleaner == y.s.cleaner
    && z.s.waiting == y.s.waiting - {c}
    && (forall t :: t in z.s.ring <==> t in y.s.ring && t != c)
    && (forall t :: t in z.s.ring ==> t in z.s.id && t in y.s.id && z.s.id[t] == y.s.id[t])
  }

  lemma LeaveLeft(y: Joining)
    requires Threads(y) && CanStep(y, Leave)
    ensures Left(y, After(y, Leave))
  {
    var d := Departed(y.s);
    assert y.s.cleaner !in y.s.waiting;
    DepartedThreads(y.s);
    DispatchThreads(d);
    DispatchedLeft(y, d, Dispatch(d), After(y, Leave));
  }

  lemma DispatchedLeft(y: Joining, d: State<nat>, r: State<nat>, z: Joining)
    requires z == y.(s := r, place := y.place - {y.s.current}) && r == d.(current := r.current) && Identities(r)
    requires Identities(y.s) && d.waiters == y.s.waiters && d.cleaner == y.s.cleaner
    requires d.waiting == y.s.waiting - {y.s.current}
    requires forall t :: t in d.ring <==> t in y.s.ring && t != y.s.current
    requires forall t :: t in d.ring ==> t in d.id && d.id[t] == y.s.id[t]
    ensures Left(y, z)
  {
  }

  lemma LeaveGood(y: Joining)
    requires Good(y) && CanStep(y, Leave)
    ensures Good(After(y, Leave))
  {
    LeaveLeft(y);
    LeftGood(y, After(y, Leave));
  }

  lemma LeftGood(y: Joining, z: Joining)
    requires Good(y) && Left(y, z) && y.s.current in y.place && y.place[y.s.current].Ended?
    ensures Good(z)
  {
    forall w | w in z.place && Waits(z.place[w]) ensures Awaiting(z, w) {
      assert Awaiting(y, w);
    }
  }

  lemma DepartedThreads(s: State<nat>)
    requires Identities(s) && CanLeave(s) && s.cleaner !in s.waiting
    ensures var d := Departed(s);
            && Identities(d) && d.waiters == s.waiters && d.cleaner == s.cleaner && d.waiting == s.waiting - {s.current}
            && (forall t :: t in d.ring <==> t in s.ring && t != s.current)
            && (forall t :: t in d.ring ==> t in d.id && d.id[t] == s.id[t])
  {
    var k := Index(s.ring, s.current);
    WithoutDistinct(s.ring, k);
    assert Departed(s).ring[0] == s.ring[0];
  }

  lemma StepGood(y: Joining, e: Step)
    requires Good(y) && CanStep(y, e)
    ensures Good(After(y, e))
  {
    match e
    case Make(t, id) => MakeGood(y, t, id);
    case Search(id) => SearchGood(y, id);
    case Link => LinkGood(y);
    case Mark => MarkGood(y);
    case Return => ReturnGood(y);
    case WakeAll => WakeAllGood(y);
    case Leave => LeaveGood(y);
    case Preempt => PreemptGood(y);
  }

  // ---------- whole runs ----------

  function Begin(boot: nat, cleaner: nat): Joining {
    Joining(Start(boot, cleaner).s, map[boot := Running, cleaner := Running], {boot, cleaner}, {})
  }

  predicate CanTake(y: Joining, steps: seq<Step>)
    decreases |steps|
  {
    steps == [] || (CanStep(y, steps[0]) && CanTake(After(y, steps[0]), steps[1..]))
  }

  function Taken(y: Joining, steps: seq<Step>): Joining
    requires CanTake(y, steps)
    decreases |steps|
  {
    if steps == [] then y else Taken(After(y, steps[0]), steps[1..])
  }

  lemma {:induction false} TakenGood(y: Joining, steps: seq<Step>)
    requires Good(y) && CanTake(y, steps)
    ensures Good(Taken(y, steps))
    decreases |steps|
  {
    if steps != [] {
      StepGood(y, steps[0]);
      TakenGood(After(y, steps[0]), steps[1..]);
    }
  }

  lemma BeginGood(boot: nat, cleaner: nat)
    requires boot != cleaner
    ensures Good(Begin(boot, cleaner))
  {
    var s := Begin(boot, cleaner).s;
    assert s.ring[0] == boot && s.ring[1] == cleaner;
  }

  /** Asleep for a thread that will not wake it any more. */
  predicate Lost(y: Joining, w: nat) {
    Asleep(y, w) && Done(y, y.place[w].target)
  }

  /** Over every run: a sleeping waiter is lost exactly when the thread its search found did its waking
      before the waiter marked itself; otherwise it is listed for that thread, which is still there. */
  lemma LostExactlyWhenEarly(boot: nat, cleaner: nat, steps: seq<Step>, w: nat)
    requires boot != cleaner && CanTake(Begin(boot, cleaner), steps)
    requires Asleep(Taken(Begin(boot, cleaner), steps), w)
    ensures var y := Taken(Begin(boot, cleaner), steps);
            && (Lost(y, w) <==> w in y.early)
            && (w !in y.early ==>
                  var p := y.place[w];
                  p.target in y.s.ring && p.target in y.s.id && y.s.id[p.target] == p.id
                  && Waiter(p.id, w) in y.s.waiters)
  {
    BeginGood(boot, cleaner);
    TakenGood(Begin(boot, cleaner), steps);
    var y := Taken(Begin(boot, cleaner), steps);
    assert Awaiting(y, w);
  }

  /** A waiter that is not early is woken when the thread it awaits does its waking. */
  lemma TimelyWaitersWake(y: Joining, w: nat)
    requires Good(y) && CanStep(y, WakeAll) && Asleep(y, w) && y.place[w].target == y.s.current
    ensures w !in y.early && !Asleep(After(y, WakeAll), w)
  {
    assert Awaiting(y, w);
    assert Waiter(y.place[w].id, w) in y.s.waiters;
  }

  /** Nothing but the waking by a thread of the entry's id ends a waiter's sleep. */
  lemma WokenOnlyByEntry(y: Joining, e: Step, w: nat)
    requires Good(y) && CanStep(y, e) && Asleep(y, w) && !Asleep(After(y, e), w)
    ensures e.WakeAll? && Waiter(y.s.id[y.s.current], w) in y.s.waiters
  {
    match e
    case Leave => LeaveLeft(y);
    case Preempt => DispatchThreads(y.s);
    case _ =>
  }

  predicate Unlisted(ws: seq<Waiter<nat>>, w: nat) {
    forall e :: e in ws ==> e.thread != w
  }

  lemma UnlistedStays(y: Joining, e: Step, w: nat)
    requires Good(y) && CanStep(y, e) && Asleep(y, w) && Unlisted(y.s.waiters, w)
    ensures Asleep(After(y, e), w) && Unlisted(After(y, e).s.waiters, w)
  {
    if !Asleep(After(y, e), w) {
      WokenOnlyByEntry(y, e, w);
    }
    match e
    case Link => Appending(y.s.waiters, Waiter(y.place[y.s.current].id, y.s.current));
    case WakeAll => KeepMembers(y.s.waiters, y.s.id[y.s.current]);
    case Leave => LeaveLeft(y);
    case Preempt => DispatchThreads(y.s);
    case _ =>
  }

  /** A lost waiter whose entry is gone sleeps for ever. */
  lemma {:induction false} LostForever(y: Joining, steps: seq<Step>, w: nat)
    requires Good(y) && CanTake(y, steps) && Asleep(y, w) && Unlisted(y.s.waiters, w)
    ensures Asleep(Taken(y, steps), w)
    decreases |steps|
  {
    if steps != [] {
      StepGood(y, steps[0]);
      UnlistedStays(y, steps[0], w);
      LostForever(After(y, steps[0]), steps[1..], w);
    }
  }

  // ---------- such a run ----------

  /** Boot thread `a`, cleaner `b` and a third thread `t`; nobody waits, and `b` is up to nothing. */
  ghost predicate Trio(y: Joining, a: nat, b: nat, t: nat, waiters: seq<Waiter<nat>>, p: Place, q: Place) {
    var s := y.s;
    && a != b && a != t && b != t
    && |s.ring| == 3 && s.ring[0] == a && s.ring[1] == b && s.ring[2] == t
    && s.id.Keys == {a, b, t} && s.id[a] == 0 && s.id[b] == 1 && s.id[t] == 2
    && s.waiting == {} && s.waiters == waiters && s.cleaner == b
    && y.place == map[a := p, b := Running, t := q] && y.created == {a, b, t}
  }

  lemma TrioRing(r: seq<nat>, a: nat, b: nat, t: nat)
    requires a != b && a != t && b != t && |r| == 3 && r[0] == a && r[1] == b && r[2] == t
    ensures Distinct(r) && (forall u :: u in r <==> u == a || u == b || u == t)
    ensures Index(r, t) == 2
  {
    IndexAt(r, 2);
  }

  lemma Makes(a: nat, b: nat, t: nat)
    requires a != b && a != t && b != t
    ensures CanStep(Begin(a, b), Make(t, 2)) && After(Begin(a, b), Make(t, 2)).s.current == a
    ensures Trio(After(Begin(a, b), Make(t, 2)), a, b, t, [], Running, Running)
    ensures After(Begin(a, b), Make(t, 2)).early == {}
  {
    var s := Begin(a, b).s;
    assert s.ring[0] == a && s.ring[1] == b;
    assert a in s.ring && s.id[a] == 0 && b in s.ring && s.id[b] == 1;
  }

  lemma Finds(y: Joining, a: nat, b: nat, t: nat)
    requires Trio(y, a, b, t, [], Running, Running) && y.s.current == a && y.early == {}
    ensures CanStep(y, Search(2))
    ensures After(y, Search(2)) == y.(place := y.place[a := Found(2, t)])
  {
    TrioRing(y.s.ring, a, b, t);
    assert t in y.s.ring && y.s.id[t] == 2;
  }

  lemma Lists(y: Joining, a: nat, b: nat, t: nat)
    requires Trio(y, a, b, t, [], Found(2, t), Running) && y.s.current == a
    ensures CanStep(y, Link)
    ensures Trio(After(y, Link), a, b, t, [Waiter(2, a)], Linked(2, t), Running)
    ensures After(y, Link).s.current == a && After(y, Link).early == y.early
  {
    TrioRing(y.s.ring, a, b, t);
  }

  lemma Yields(y: Joining, a: nat, b: nat, t: nat, k: nat)
    requires Trio(y, a, b, t, [Waiter(2, a)], Linked(2, t), Running) && k < 2 && y.s.current == y.s.ring[k]
    ensures CanStep(y, Preempt) && After(y, Preempt) == y.(s := y.s.(current := y.s.ring[k + 1]))
  {
    TrioRing(y.s.ring, a, b, t);
    DispatchAllRunnable(y.s, k);
  }

  lemma WakesNobody(y: Joining, a: nat, b: nat, t: nat)
    requires Trio(y, a, b, t, [Waiter(2, a)], Linked(2, t), Running) && y.s.current == t && y.early == {}
    ensures CanStep(y, WakeAll)
    ensures Trio(After(y, WakeAll), a, b, t, [], Linked(2, t), Ended)
    ensures After(y, WakeAll).s.current == t && After(y, WakeAll).early == {a}
  {
    TrioRing(y.s.ring, a, b, t);
    var ws := y.s.waiters;
    assert ws[..0] == [] && ws[0].id == 2;
    assert Keep(ws, 2) == [];
    assert Exposed(y, t) == {a};
  }

  /** The two that are left when the third thread is dead, the boot thread running. */
  ghost predicate Pair(y: Joining, a: nat, b: nat, t: nat) {
    && a != b && a != t && b != t
    && |y.s.ring| == 2 && y.s.ring[0] == a && y.s.ring[1] == b && y.s.current == a && a in y.s.id
    && y.s.waiters == [] && t !in y.place && a in y.place && y.place[a] == Linked(2, t)
  }

  lemma LeavesRing(s: State<nat>, a: nat, b: nat, t: nat)
    requires a != b && a != t && b != t && |s.ring| == 3 && s.ring[0] == a && s.ring[1] == b && s.ring[2] == t
    requires s.current == t && s.cleaner == b && s.waiting == {} && t in s.id
    ensures CanLeave(s) && Departed(s).ring == [a, b] && Departed(s).current == b && Departed(s).waiting == {}
  {
    TrioRing(s.ring, a, b, t);
    assert Without(s.ring, 2) == [a, b];
  }

  lemma Leaves(y: Joining, a: nat, b: nat, t: nat)
    requires Trio(y, a, b, t, [], Linked(2, t), Ended) && y.s.current == t
    ensures CanStep(y, Leave) && Pair(After(y, Leave), a, b, t)
  {
    TrioRing(y.s.ring, a, b, t);
    LeavesRing(y.s, a, b, t);
    DispatchAllRunnable(Departed(y.s), 1);
  }

  lemma Sleeps(y: Joining, a: nat, b: nat, t: nat)
    requires Pair(y, a, b, t)
    ensures CanStep(y, Mark) && Lost(After(y, Mark), a) && Unlisted(After(y, Mark).s.waiters, a)
  {
  }

  lemma TakeStep(y: Joining, e: Step, rest: seq<Step>)
    requires CanStep(y, e) && CanTake(After(y, e), rest)
    ensures CanTake(y, [e] + rest) && Taken(y, [e] + rest) == Taken(After(y, e), rest)
  {
    assert ([e] + rest)[1..] == rest;
  }

  /** From the listing on: the third thread runs, wakes nobody and leaves; then the boot thread marks
      itself. */
  lemma LostFromListing(y: Joining, a: nat, b: nat, t: nat) returns (steps: seq<Step>)
    requires Trio(y, a, b, t, [Waiter(2, a)], Linked(2, t), Running) && y.s.current == a && y.early == {}
    ensures CanTake(y, steps) && Lost(Taken(y, steps), a) && Unlisted(Taken(y, steps).s.waiters, a)
  {
    Yields(y, a, b, t, 0);
    var y1 := After(y, Preempt);
    Yields(y1, a, b, t, 1);
    var y2 := After(y1, Preempt);
    WakesNobody(y2, a, b, t);
    var y3 := After(y2, WakeAll);
    Leaves(y3, a, b, t);
    var y4 := After(y3, Leave);
    Sleeps(y4, a, b, t);
    TakeStep(y4, Mark, []);
    TakeStep(y3, Leave, [Mark] + []);
    TakeStep(y2, WakeAll, [Leave] + ([Mark] + []));
    TakeStep(y1, Preempt, [WakeAll] + ([Leave] + ([Mark] + [])));
    steps := [Preempt] + ([WakeAll] + ([Leave] + ([Mark] + [])));
    TakeStep(y, Preempt, steps);
    steps := [Preempt] + steps;
  }

  /** Such a run, whatever the threads are: the third does its waking between the boot thread's listing and
      its marking, and the boot thread is lost, with no entry left. */
  lemma LostHappens(a: nat, b: nat, t: nat) returns (steps: seq<Step>)
    requires a != b && a != t && b != t
    ensures CanTake(Begin(a, b), steps)
    ensures Lost(Taken(Begin(a, b), steps), a) && Unlisted(Taken(Begin(a, b), steps).s.waiters, a)
  {
    Makes(a, b, t);
    var y1 := After(Begin(a, b), Make(t, 2));
    Finds(y1, a, b, t);
    var y2 := After(y1, Search(2));
    Lists(y2, a, b, t);
    steps := LostFromListing(After(y2, Link), a, b, t);
    TakeStep(y2, Link, steps);
    TakeStep(y1, Search(2), [Link] + steps);
    TakeStep(Begin(a, b), Make(t, 2), [Search(2)] + ([Link] + steps));
    steps := [Make(t, 2)] + ([Search(2)] + ([Link] + steps));
  }
}
