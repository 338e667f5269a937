/** Whole runs of the scheduler: threads created, joined, destroyed, exiting, sleeping and preempted in
    any order, and the cleaner reclaiming the dead, preemptible between any two of its statements. */
module SchedulerRuns {
  import opened Rings
  import opened Schedules

  /** Where the cleaner stands in its loop. */
  datatype Phase =
    | Testing                 // `deadThreads.next != &deadThreads`
    | Holding(thread: nat)    // taken off the dead list, stack not yet freed
    | Stripped(thread: nat)   // stack freed
    | Marking                 // the dead list was empty; about to set its own waiting flag
    | Yielding                // flag set; about to yield
    | Yielded                 // back at the loop's test when it runs again

  /** `freed` counts how often each thread's record was passed to `unallocate`; `late` counts the exits
      that ran between the cleaner last finding the dead list empty and its setting its own flag. */
  datatype System = System(s: State<nat>, sleepers: set<nat>, phase: Phase, created: set<nat>,
                           freed: multiset<nat>, late: nat)

  datatype Event =
    | Creates(thread: nat, id: nat)
    | Waits(id: nat)
    | Exits
    | Destroys(thread: nat)
    | Sleeps
    | Wakes(thread: nat)  // its timer fires or its wait is cancelled
    | Preempts            // the timer tick or a voluntary yield
    | Cleans              // the cleaner's next statement

  predicate Enabled(y: System, e: Event) {
    var s := y.s;
    match e
    case Creates(t, id) => t !in y.created && IsLeastUnused(s, id)
    case Waits(id) => s.current != s.cleaner && CanWait(s, id)
    case Exits => CanExit(s)
    case Destroys(t) =>
      t in s.ring && t in s.id && t != s.current && t != s.cleaner && s.ring != [] && t != s.ring[0] && t !in s.waiting
    case Sleeps =>
      s.current != s.cleaner && OnRing(s) && HasRunnable(s.(waiting := s.waiting + {s.current}))
    case Wakes(t) => t in y.sleepers
    case Preempts => OnRing(s) && HasRunnable(s)
    case Cleans => s.current == s.cleaner && OnRing(s) && (y.phase.Yielding? ==> HasRunnable(s))
  }

  function Next(y: System, e: Event): System
    requires Enabled(y, e)
  {
    var s := y.s;
    match e
    case Creates(t, id) => y.(s := Create(s, t, id), created := y.created + {t})
    case Waits(id) => y.(s := Wait(s, id))
    case Exits => y.(s := Exit(s), late := if y.phase.Marking? then y.late + 1 else y.late)
    case Destroys(t) => y.(s := Destroy(s, t), freed := y.freed + multiset{t})
    case Sleeps => y.(s := Dispatch(s.(waiting := s.waiting + {s.current})), sleepers := y.sleepers + {s.current})
    case Wakes(t) => y.(s := s.(waiting := s.waiting - {t}), sleepers := y.sleepers - {t})
    case Preempts => y.(s := Dispatch(s))
    case Cleans => Clean(y)
  }

  function Clean(y: System): System
    requires OnRing(y.s) && (y.phase.Yielding? ==> HasRunnable(y.s))
  {
    match y.phase
    case Testing =>
      if y.s.dead == [] then y.(phase := Marking, late := 0)
      else y.(phase := Holding(y.s.dead[0]), s := Take(y.s))
    case Holding(t) => y.(phase := Stripped(t))
    case Stripped(t) => y.(phase := Testing, freed := y.freed + multiset{t})
    case Marking => y.(phase := Yielding, s := y.s.(waiting := y.s.waiting + {y.s.cleaner}))
    case Yielding => y.(phase := Yielded, s := Dispatch(y.s))
    case Yielded => y.(phase := Testing)
  }

  // ---------- the invariant, part by part ----------

  /** Thread identities: the ring has no repetition, the running and cleaning threads are on it, and
      live ids are pairwise distinct. */
  ghost predicate Identities(s: State<nat>) {
    && OnRing(s) && s.cleaner in s.ring && s.cleaner != s.ring[0]
    && (forall t :: t in s.id <==> t in s.ring)
    && forall t, u :: t in s.ring && u in s.ring && s.id[t] == s.id[u] ==> t == u
  }

  predicate Waiting(ws: seq<Waiter<nat>>, t: nat) {
    exists w :: w in ws && w.thread == t
  }

  /** Join safety: every entry names a live id; its thread is on the ring and marked. No thread has two
      entries. */
  ghost predicate Joins(s: State<nat>) {
    && (forall w :: w in s.waiters ==> IsLive(s, w.id) && w.thread in s.waiting)
    && OneEach(s.waiters)
  }

  predicate OneEach(ws: seq<Waiter<nat>>) {
    forall i, j :: 0 <= i < j < |ws| ==> ws[i].thread != ws[j].thread
  }

  /** Nobody waits without a reason: a marked thread is listed as waiting, or sleeps, or is the cleaner
      past its marking; and never two of these. */
  ghost predicate Reasons(y: System) {
    && (forall t :: t in y.s.waiting ==> t in y.s.ring)
    && (forall t :: t in y.s.waiting && t != y.s.cleaner ==> Waiting(y.s.waiters, t) || t in y.sleepers)
    && (forall t :: t in y.sleepers ==> t in y.s.waiting && t != y.s.cleaner && !Waiting(y.s.waiters, t))
    && !Waiting(y.s.waiters, y.s.cleaner)
    && (y.s.cleaner in y.s.waiting ==> y.phase.Yielding? || y.phase.Yielded?)
    && (y.s.current in y.s.waiting ==> y.s.current == y.s.cleaner && y.phase.Yielding?)
  }

  function Held(phase: Phase): multiset<nat> {
    if phase.Holding? || phase.Stripped? then multiset{phase.thread} else multiset{}
  }

  /** Every thread ever created is in exactly one place: the ring, the dead list, the cleaner's hands,
      or freed, and then freed once. */
  ghost predicate Places(y: System) {
    multiset(y.created) == multiset(y.s.ring) + multiset(y.s.dead) + Held(y.phase) + y.freed
  }

  /** Whoever is dead while the cleaner sleeps exited between its empty test and its setting the flag. */
  ghost predicate Lateness(y: System) {
    y.phase.Marking? || y.s.cleaner in y.s.waiting ==> |y.s.dead| == y.late
  }

  ghost predicate Inv(y: System) {
    Identities(y.s) && Joins(y.s) && Reasons(y) && Places(y) && Lateness(y)
  }

  // ---------- dispatching ----------

  lemma DispatchKeeps(y: System, s: State<nat>)
    requires OnRing(s) && HasRunnable(s) && y.s == Dispatch(s)
    requires Identities(s) && Joins(s)
    ensures Identities(y.s) && Joins(y.s) && y.s.current !in s.waiting && y.s == s.(current := y.s.current)
  {
    DispatchIsFirst(s);
    OrderMembers(s);
    assert forall w :: w in s.waiters ==> (IsLive(s, w.id) ==> IsLive(y.s, w.id));
  }

  lemma PreemptKeeps(y: System)
    requires Inv(y) && Enabled(y, Preempts)
    ensures Inv(Next(y, Preempts))
  {
    DispatchKeeps(Next(y, Preempts), y.s);
  }

  lemma SleepKeeps(y: System)
    requires Inv(y) && Enabled(y, Sleeps)
    ensures Inv(Next(y, Sleeps))
  {
    var s := y.s.(waiting := y.s.waiting + {y.s.current});
    assert forall id :: IsLive(y.s, id) ==> IsLive(s, id);
    DispatchKeeps(Next(y, Sleeps), s);
    assert y.s.current !in y.s.waiting;
  }

  lemma WakeupKeeps(y: System, t: nat)
    requires Inv(y) && Enabled(y, Wakes(t))
    ensures Inv(Next(y, Wakes(t)))
  {
    var y' := Next(y, Wakes(t));
    assert forall id :: IsLive(y.s, id) ==> IsLive(y'.s, id);
  }

  lemma WaitKeeps(y: System, id: nat)
    requires Inv(y) && Enabled(y, Waits(id))
    ensures Inv(Next(y, Waits(id)))
  {
    if IsLive(y.s, id) {
      assert !Waiting(y.s.waiters, y.s.current);
      ListedKeeps(y.s, id);
      DispatchKeeps(Next(y, Waits(id)), Listed(y.s, id));
    }
  }

  /** The caller's listing and marking. */
  lemma ListedKeeps(s: State<nat>, id: nat)
    requires Identities(s) && Joins(s) && IsLive(s, id) && !Waiting(s.waiters, s.current)
    ensures var r := Listed(s, id);
            && Identities(r) && Joins(r)
            && (forall t :: Waiting(r.waiters, t) <==> Waiting(s.waiters, t) || t == s.current)
  {
    var r, e := Listed(s, id), Waiter(id, s.current);
    assert r.waiters[|s.waiters|] == e;
    assert forall w :: w in r.waiters <==> w in s.waiters || w == e;
    assert forall j :: IsLive(s, j) ==> IsLive(r, j);
  }

  lemma CreateKeeps(y: System, t: nat, id: nat)
    requires Inv(y) && Enabled(y, Creates(t, id))
    ensures Inv(Next(y, Creates(t, id)))
  {
    var y' := Next(y, Creates(t, id));
    assert t !in multiset(y.created);
    assert multiset(y'.created) == multiset(y.created) + multiset{t};
    forall j | IsLive(y.s, j) ensures IsLive(y'.s, j) && j != id {
      var u :| u in y.s.ring && u in y.s.id && y.s.id[u] == j;
      assert y'.s.id[u] == j;
    }
  }

  lemma {:induction false} WithoutMultiset(ring: seq<nat>, k: nat)
    requires k < |ring|
    ensures multiset(ring) == multiset(Without(ring, k)) + multiset{ring[k]}
  {
    assert ring == ring[..k] + ([ring[k]] + ring[k + 1..]);
  }

  /** Waking the waiters of `id` leaves no entry naming it and no woken thread listed. */
  lemma WakeKeeps(s: State<nat>, id: nat)
    requires Joins(s)
    ensures var r := Wake(s, id);
            && Joins(r)
            && (forall w :: w in r.waiters ==> w.id != id)
            && (forall t :: Waiting(r.waiters, t) <==> Waiting(s.waiters, t) && t !in Woken(s.waiters, id))
            && (forall t :: t in r.waiting <==> t in s.waiting && t !in Woken(s.waiters, id))
            && (forall t :: t in Woken(s.waiters, id) ==> Waiting(s.waiters, t))
  {
    var r := Wake(s, id);
    KeepMembers(s.waiters, id);
    KeepDistinct(s.waiters, id);
    assert forall j :: IsLive(s, j) ==> IsLive(r, j);
    forall t | Waiting(s.waiters, t) && t in Woken(s.waiters, id) ensures !Waiting(r.waiters, t) {
      EntriesUnique(s.waiters, t);
    }
    forall w | w in r.waiters ensures w.thread in r.waiting {
      if w.thread in Woken(s.waiters, id) {
        EntriesUnique(s.waiters, w.thread);
      }
    }
  }

  lemma EntriesUnique(ws: seq<Waiter<nat>>, t: nat)
    requires OneEach(ws)
    ensures forall v, w :: v in ws && w in ws && v.thread == t && w.thread == t ==> v == w
  {
  }

  lemma {:induction false} KeepDistinct(ws: seq<Waiter<nat>>, id: nat)
    requires OneEach(ws)
    ensures OneEach(Keep(ws, id)) && forall i :: 0 <= i < |Keep(ws, id)| ==> Keep(ws, id)[i] in ws
  {
    if ws != [] {
      var n := |ws| - 1;
      var front := Keep(ws[..n], id);
      KeepDistinct(ws[..n], id);
      forall i | 0 <= i < |front| ensures front[i].thread != ws[n].thread && front[i] in ws {
        assert front[i] in ws[..n];
      }
    }
  }

  /** A thread nobody waits for and that does not wait can leave the ring. */
  lemma UnlinkKeeps(s: State<nat>, t: nat)
    requires Identities(s) && Joins(s)
    requires t in s.ring && t != s.cleaner && t != s.ring[0] && t !in s.waiting
    requires forall w :: w in s.waiters ==> w.id != s.id[t]
    ensures var r := Unlink(s, t);
            && Joins(r)
            && Distinct(r.ring) && s.cleaner in r.ring && r.ring[0] == s.ring[0]
            && (forall u :: u in r.ring <==> u in s.ring && u != t)
            && multiset(s.ring) == multiset(r.ring) + multiset{t}
  {
    var k := Index(s.ring, t);
    var r := Unlink(s, t);
    WithoutDistinct(s.ring, k);
    WithoutMultiset(s.ring, k);
    forall w | w in r.waiters ensures IsLive(r, w.id) {
      var u :| u in s.ring && u in s.id && s.id[u] == w.id;
      assert u in r.ring && r.id[u] == w.id;
    }
  }

  lemma DestroyKeeps(y: System, t: nat)
    requires Inv(y) && Enabled(y, Destroys(t))
    ensures Inv(Next(y, Destroys(t)))
  {
    var w := Wake(y.s, y.s.id[t]);
    WakeKeeps(y.s, y.s.id[t]);
    UnlinkKeeps(w, t);
    var y' := Next(y, Destroys(t));
    assert y'.s == Unlink(w, t);
  }

  lemma BuriedKeeps(s: State<nat>)
    requires Identities(s) && Joins(s) && CanExit(s) && s.current !in s.waiting && !Waiting(s.waiters, s.cleaner)
    ensures var b := Buried(s);
            var woken := Woken(s.waiters, s.id[s.current]);
            && Identities(b) && Joins(b)
            && b.dead == s.dead + [s.current] && b.cleaner == s.cleaner
            && multiset(s.ring) == multiset(b.ring) + multiset{s.current}
            && (forall u :: u in b.ring <==> u in s.ring && u != s.current)
            && b.waiting == s.waiting - woken - {s.current} - {s.cleaner}
            && (forall t :: Waiting(b.waiters, t) <==> Waiting(s.waiters, t) && t !in woken)
            && (forall t :: t in woken ==> Waiting(s.waiters, t))
  {
    var id := s.id[s.current];
    var w := Wake(s, id);
    WakeKeeps(s, id);
    assert forall u :: u in w.id ==> w.id[u] == s.id[u];
    UnlinkKeeps(w, s.current);
    var u := Unlink(w, s.current);
    var b := Buried(s);
    assert b.ring == u.ring && b.id == u.id && b.waiters == u.waiters;
    assert forall j :: IsLive(u, j) ==> IsLive(b, j);
    assert forall e :: e in b.waiters ==> Waiting(b.waiters, e.thread);
  }

  lemma ExitReasons(y: System, b: State<nat>)
    requires Inv(y) && CanExit(y.s) && b == Buried(y.s)
    requires y.s.current !in y.s.waiting
    ensures (forall t :: t in b.waiting ==> t in b.ring)
    ensures (forall t :: t in b.waiting ==> Waiting(b.waiters, t) || t in y.sleepers)
    ensures (forall t :: t in y.sleepers ==> t in b.waiting && t != b.cleaner && !Waiting(b.waiters, t))
    ensures !Waiting(b.waiters, b.cleaner) && b.cleaner !in b.waiting
  {
    BuriedKeeps(y.s);
  }

  lemma ExitKeeps(y: System)
    requires Inv(y) && Enabled(y, Exits)
    ensures Inv(Next(y, Exits))
  {
    var b := Buried(y.s);
    BuriedKeeps(y.s);
    ExitReasons(y, b);
    var y' := Next(y, Exits);
    DispatchKeeps(y', b);
    assert multiset(b.dead) == multiset(y.s.dead) + multiset{y.s.current};
    assert Places(y');
  }

  lemma CleanTestKeeps(y: System)
    requires Inv(y) && Enabled(y, Cleans) && y.phase.Testing?
    ensures Inv(Next(y, Cleans))
  {
    var y' := Next(y, Cleans);
    SameJoins(y.s, y'.s);
    if y.s.dead != [] {
      assert y.s.dead == [y.s.dead[0]] + y.s.dead[1..];
    }
  }

  lemma CleanFreeKeeps(y: System)
    requires Inv(y) && Enabled(y, Cleans) && (y.phase.Holding? || y.phase.Stripped? || y.phase.Yielded?)
    ensures Inv(Next(y, Cleans))
  {
  }

  lemma CleanMarkKeeps(y: System)
    requires Inv(y) && Enabled(y, Cleans) && y.phase.Marking?
    ensures Inv(Next(y, Cleans))
  {
    SameJoins(y.s, Next(y, Cleans).s);
  }

  lemma CleanYieldKeeps(y: System)
    requires Inv(y) && Enabled(y, Cleans) && y.phase.Yielding?
    ensures Inv(Next(y, Cleans))
  {
    DispatchKeeps(Next(y, Cleans), y.s);
  }

  /** Entries stay good while ring, ids and entries stay and no flag is cleared. */
  lemma SameJoins(s: State<nat>, t: State<nat>)
    requires Joins(s) && t.ring == s.ring && t.id == s.id && t.waiters == s.waiters && s.waiting <= t.waiting
    ensures Joins(t)
  {
    assert forall j :: IsLive(s, j) ==> IsLive(t, j);
  }

  lemma CleanKeeps(y: System)
    requires Inv(y) && Enabled(y, Cleans)
    ensures Inv(Next(y, Cleans))
  {
    match y.phase
    case Testing => CleanTestKeeps(y);
    case Marking => CleanMarkKeeps(y);
    case Yielding => CleanYieldKeeps(y);
    case _ => CleanFreeKeeps(y);
  }

  lemma StepKeeps(y: System, e: Event)
    requires Inv(y) && Enabled(y, e)
    ensures Inv(Next(y, e))
  {
    match e
    case Creates(t, id) => CreateKeeps(y, t, id);
    case Waits(id) => WaitKeeps(y, id);
    case Exits => ExitKeeps(y);
    case Destroys(t) => DestroyKeeps(y, t);
    case Sleeps => SleepKeeps(y);
    case Wakes(t) => WakeupKeeps(y, t);
    case Preempts => PreemptKeeps(y);
    case Cleans => CleanKeeps(y);
  }

  // ---------- runs ----------

  /** The boot thread running, the cleaner beside it. */
  function Start(boot: nat, cleaner: nat): System {
    System(State([boot, cleaner], map[boot := 0, cleaner := 1], {}, [], [], boot, cleaner),
           {}, Testing, {boot, cleaner}, multiset{}, 0)
  }

  predicate CanRun(y: System, events: seq<Event>)
    decreases |events|
  {
    events == [] || (Enabled(y, events[0]) && CanRun(Next(y, events[0]), events[1..]))
  }

  function Run(y: System, events: seq<Event>): System
    requires CanRun(y, events)
    decreases |events|
  {
    if events == [] then y else Run(Next(y, events[0]), events[1..])
  }

  lemma {:induction false} RunKeeps(y: System, events: seq<Event>)
    requires Inv(y) && CanRun(y, events)
    ensures Inv(Run(y, events))
    decreases |events|
  {
    if events != [] {
      StepKeeps(y, events[0]);
      RunKeeps(Next(y, events[0]), events[1..]);
    }
  }

  lemma StartKeeps(boot: nat, cleaner: nat)
    requires boot != cleaner
    ensures Inv(Start(boot, cleaner))
  {
    var start := Start(boot, cleaner);
    assert start.s.ring[0] == boot && start.s.ring[1] == cleaner;
    assert Places(start);
  }

  /** Over every run: live ids are distinct; every waiting-list entry names a live id and a marked thread;
      every marked thread has exactly one reason to be; no thread is freed twice or lost. */
  lemma RunsAreSafe(boot: nat, cleaner: nat, events: seq<Event>)
    requires boot != cleaner && CanRun(Start(boot, cleaner), events)
    ensures var y := Run(Start(boot, cleaner), events);
            && Identities(y.s) && Joins(y.s) && Reasons(y) && Places(y)
            && forall t :: y.freed[t] <= 1 && (y.freed[t] == 1 ==> t !in y.s.ring && t !in y.s.dead)
  {
    var start := Start(boot, cleaner);
    StartKeeps(boot, cleaner);
    RunKeeps(start, events);
    var y := Run(start, events);
    forall t ensures y.freed[t] <= 1 && (y.freed[t] == 1 ==> t !in y.s.ring && t !in y.s.dead) {
      assert multiset(y.created)[t] <= 1;
      assert multiset(y.created)[t] == multiset(y.s.ring)[t] + multiset(y.s.dead)[t] + Held(y.phase)[t] + y.freed[t];
    }
  }

  // ---------- what a wait promises ----------

  /** The event ends a thread that has the id: its own exit, or its destruction. */
  predicate Ends(y: System, e: Event, id: nat) {
    || (e.Exits? && y.s.current in y.s.id && y.s.id[y.s.current] == id)
    || (e.Destroys? && e.thread in y.s.id && y.s.id[e.thread] == id)
  }

  /** No event of the run ends a thread of that id. */
  predicate NobodyEnds(y: System, events: seq<Event>, id: nat)
    requires CanRun(y, events)
    decreases |events|
  {
    events == [] || (!Ends(y, events[0], id) && NobodyEnds(Next(y, events[0]), events[1..], id))
  }

  /** `t` is not running and not runnable, and listed for `id`. */
  predicate Joined(y: System, t: nat, id: nat) {
    t != y.s.current && t in y.s.waiting && Waiter(id, t) in y.s.waiters
  }

  lemma ListedIsJoined(y: System, t: nat, id: nat)
    requires Inv(y) && Waiter(id, t) in y.s.waiters
    ensures Joined(y, t, id)
  {
    assert Waiting(y.s.waiters, t);
  }

  /** Entries for an id stay until a thread of that id ends. */
  lemma EntryStays(y: System, e: Event, t: nat, id: nat)
    requires Inv(y) && Enabled(y, e) && Waiter(id, t) in y.s.waiters && !Ends(y, e, id)
    ensures Waiter(id, t) in Next(y, e).s.waiters
  {
    match e
    case Waits(j) => WaitIs(y.s, j);
    case Exits => KeepsOne(y.s.waiters, y.s.id[y.s.current], Waiter(id, t));
    case Destroys(u) => KeepsOne(y.s.waiters, y.s.id[u], Waiter(id, t));
    case _ =>
  }

  lemma {:induction false} JoinedStays(y: System, events: seq<Event>, t: nat, id: nat)
    requires Inv(y) && CanRun(y, events) && Waiter(id, t) in y.s.waiters && NobodyEnds(y, events, id)
    ensures Joined(Run(y, events), t, id)
    decreases |events|
  {
    if events == [] {
      ListedIsJoined(y, t, id);
    } else {
      StepKeeps(y, events[0]);
      EntryStays(y, events[0], t, id);
      JoinedStays(Next(y, events[0]), events[1..], t, id);
    }
  }

  /** Over every run: from its wait for a live id on, a thread is listed and marked and never the current one,
      whatever happens, until a thread of that id exits or is destroyed. */
  lemma WaitLasts(boot: nat, cleaner: nat, before: seq<Event>, id: nat, after: seq<Event>)
    requires boot != cleaner && CanRun(Start(boot, cleaner), before)
    requires var y := Run(Start(boot, cleaner), before);
             && Enabled(y, Waits(id)) && (exists t :: t in y.s.ring && t in y.s.id && y.s.id[t] == id)
             && CanRun(Next(y, Waits(id)), after) && NobodyEnds(Next(y, Waits(id)), after, id)
    ensures var y := Run(Start(boot, cleaner), before);
            Joined(Run(Next(y, Waits(id)), after), y.s.current, id)
  {
    StartKeeps(boot, cleaner);
    RunKeeps(Start(boot, cleaner), before);
    var y := Run(Start(boot, cleaner), before);
    WaitLists(y, id);
    StepKeeps(y, Waits(id));
    JoinedStays(Next(y, Waits(id)), after, y.s.current, id);
  }

  lemma WaitLists(y: System, id: nat)
    requires Enabled(y, Waits(id)) && exists t :: t in y.s.ring && t in y.s.id && y.s.id[t] == id
    ensures Waiter(id, y.s.current) in Next(y, Waits(id)).s.waiters
  {
    WaitIs(y.s, id);
    var ws := Next(y, Waits(id)).s.waiters;
    assert ws[|ws| - 1] == Waiter(id, y.s.current);
  }

  /** When such a thread ends, whoever waits for it is listed no more and can be dispatched again. */
  lemma WaitEnds(y: System, e: Event, t: nat, id: nat)
    requires Inv(y) && Enabled(y, e) && Waiter(id, t) in y.s.waiters && Ends(y, e, id)
    ensures var r := Next(y, e).s;
            t in r.ring && t !in r.waiting && forall w :: w in r.waiters ==> w.thread != t
  {
    ListedIsJoined(y, t, id);
    EntriesUnique(y.s.waiters, t);
    if e.Exits? {
      ExitIs(y.s);
    } else {
      DestroyIs(y.s, e.thread);
    }
  }

  // ---------- where the code falls short ----------

  /** The cleaner sleeps on a nonempty dead list, which then stays until some later exit. */
  predicate Stranded(y: System) {
    y.s.cleaner in y.s.waiting && y.s.dead != []
  }

  /** The dead are left unreclaimed exactly when some thread exited between the cleaner's empty test and
      its setting its own flag; the next exit wakes it again. */
  lemma StrandedExactlyWhenLate(y: System)
    requires Inv(y)
    ensures Stranded(y) <==> y.s.cleaner in y.s.waiting && y.late > 0
    ensures Enabled(y, Exits) ==> !Stranded(Next(y, Exits))
  {
    if Enabled(y, Exits) {
      BuriedKeeps(y.s);
      DispatchKeeps(Next(y, Exits), Buried(y.s));
    }
  }

  /** Dispatching on a ring with nobody waiting moves to the ring successor. */
  lemma DispatchAllRunnable(s: State<nat>, k: nat)
    requires Distinct(s.ring) && k < |s.ring| && s.ring[k] == s.current && s.waiting == {}
    ensures OnRing(s) && HasRunnable(s) && Dispatch(s) == s.(current := s.ring[Succ(k, |s.ring|)])
  {
    IndexAt(s.ring, k);
    RotatedAt(s.ring, k, 0);
    assert s.current in s.ring && s.current !in s.waiting;
    assert FirstRunnable(Order(s), {}) == 0;
  }

  /** Boot thread 0, cleaner 1 and thread 7, with `current` running. */
  function Three(current: nat, phase: Phase): System {
    System(State([0, 1, 7], map[0 := 0, 1 := 1, 7 := 2], {}, [], [], current, 1), {}, phase, {0, 1, 7}, multiset{}, 0)
  }

  /** Thread 7 gone, and nobody woken for it who was not already awake. */
  function Two(current: nat): System {
    System(State([0, 1], map[0 := 0, 1 := 1], {}, [], [7], current, 1), {}, Marking, {0, 1, 7}, multiset{}, 1)
  }

  lemma CreateSeven()
    ensures Enabled(Start(0, 1), Creates(7, 2)) && Next(Start(0, 1), Creates(7, 2)) == Three(0, Testing)
  {
    var s := Start(0, 1).s;
    assert s.ring[0] == 0 && s.ring[1] == 1;
    assert 0 in s.ring && 0 in s.id && s.id[0] == 0;
    assert 1 in s.ring && 1 in s.id && s.id[1] == 1;
  }

  lemma ExitSeven()
    ensures Enabled(Three(7, Marking), Exits) && Next(Three(7, Marking), Exits) == Two(0)
  {
    BuriesSeven(Three(7, Marking).s);
    DispatchAllRunnable(Two(1).s, 1);
  }

  lemma BuriesSeven(s: State<nat>)
    requires s == Three(7, Marking).s
    ensures CanExit(s) && Buried(s) == Two(1).s
  {
    assert s.ring[2] == 7 && s.ring[1] == 1 && s.ring[0] == 0;
    IndexAt(s.ring, 2);
    assert Keep(s.waiters, 2) == [];
    assert Without(s.ring, 2) == [0, 1];
  }

  /** Such a run: thread 7 exits in the window, and the cleaner sleeps with 7 on the dead list. */
  lemma StrandedHappens() returns (events: seq<Event>)
    ensures CanRun(Start(0, 1), events) && Stranded(Run(Start(0, 1), events))
  {
    var tail := AfterExit();
    ExitStep(tail);
    PreemptStep([Exits] + tail);
    events := BeforeExit([Preempts] + ([Exits] + tail));
  }

  lemma ExitStep(rest: seq<Event>)
    requires CanRun(Two(0), rest)
    ensures CanRun(Three(7, Marking), [Exits] + rest) && Run(Three(7, Marking), [Exits] + rest) == Run(Two(0), rest)
  {
    ExitSeven();
    RunStep(Three(7, Marking), Exits, rest, Two(0));
  }

  lemma PreemptStep(rest: seq<Event>)
    requires CanRun(Three(7, Marking), rest)
    ensures CanRun(Three(1, Marking), [Preempts] + rest)
    ensures Run(Three(1, Marking), [Preempts] + rest) == Run(Three(7, Marking), rest)
  {
    DispatchAllRunnable(Three(1, Marking).s, 1);
    RunStep(Three(1, Marking), Preempts, rest, Three(7, Marking));
  }

  lemma AfterExit() returns (events: seq<Event>)
    ensures CanRun(Two(0), events) && Stranded(Run(Two(0), events))
  {
    var last := Two(1).(phase := Yielding, s := Two(1).s.(waiting := {1}));
    DispatchAllRunnable(Two(0).s, 0);
    events := [Cleans] + [];
    RunStep(Two(1), Cleans, [], last);
    RunStep(Two(0), Preempts, events, Two(1));
    events := [Preempts] + events;
  }

  lemma BeforeExit(rest: seq<Event>) returns (events: seq<Event>)
    requires CanRun(Three(1, Marking), rest)
    ensures CanRun(Start(0, 1), events) && Run(Start(0, 1), events) == Run(Three(1, Marking), rest)
  {
    DispatchAllRunnable(Three(0, Testing).s, 0);
    RunStep(Three(1, Testing), Cleans, rest, Three(1, Marking));
    events := [Cleans] + rest;
    RunStep(Three(0, Testing), Preempts, events, Three(1, Testing));
    events := [Preempts] + events;
    CreateSeven();
    RunStep(Start(0, 1), Creates(7, 2), events, Three(0, Testing));
    events := [Creates(7, 2)] + events;
  }

  lemma RunStep(y: System, e: Event, rest: seq<Event>, y': System)
    requires Enabled(y, e) && y' == Next(y, e) && CanRun(y', rest)
    ensures CanRun(y, [e] + rest) && Run(y, [e] + rest) == Run(y', rest)
  {
    assert ([e] + rest)[1..] == rest;
  }
}
