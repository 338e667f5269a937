/** The scheduler's state as a value, and what each of its operations does to it. `T` stands for a
    thread; in `Schedulers` it is the node of the ring, in `SchedulerRuns` any identity. */
module Schedules {
  import opened Rings

  /** An entry of the waiting list: `thread` waits for the thread called `id` to end. */
  datatype Waiter<T> = Waiter(id: nat, thread: T)

  /** `ring` lists the run queue in `next` order from `threads`, the boot thread; `waiting` holds the
      members of the ring whose waiting flag is set. */
  datatype State<T(==)> = State(ring: seq<T>, id: map<T, nat>, waiting: set<T>,
                                waiters: seq<Waiter<T>>, dead: seq<T>, current: T, cleaner: T)

  function Index<T(==)>(ring: seq<T>, t: T): (i: nat)
    ensures i <= |ring| && t !in ring[..i]
    ensures t in ring ==> i < |ring| && ring[i] == t
  {
    if ring == [] || ring[0] == t then 0
    else
      var i := 1 + Index(ring[1..], t);
      assert ring[..i] == [ring[0]] + ring[1..][..i - 1];
      i
  }

  lemma IndexAt<T>(ring: seq<T>, i: nat)
    requires Distinct(ring) && i < |ring|
    ensures Index(ring, ring[i]) == i
  {
    var k := Index(ring, ring[i]);
    assert forall j :: 0 <= j < k ==> ring[j] in ring[..k];
  }

  /** The ring in the order the dispatcher visits it from position `k`, ending at `k` itself. */
  function Rotated<T>(ring: seq<T>, k: nat): (r: seq<T>)
    requires k < |ring|
    ensures |r| == |ring|
  {
    ring[k + 1..] + ring[..k + 1]
  }

  lemma RotatedAt<T>(ring: seq<T>, k: nat, i: nat)
    requires k < |ring| && i < |ring|
    ensures Rotated(ring, k)[i] == ring[if k + 1 + i < |ring| then k + 1 + i else k + 1 + i - |ring|]
  {
  }

  lemma RotatedMembers<T>(ring: seq<T>, k: nat)
    requires k < |ring|
    ensures forall t :: t in Rotated(ring, k) <==> t in ring
  {
    assert ring == ring[..k + 1] + ring[k + 1..];
  }

  /** Position of the first member of `order` not marked waiting, or |order|. */
  function FirstRunnable<T(==)>(order: seq<T>, waiting: set<T>): (i: nat)
    ensures i <= |order|
    ensures forall j :: 0 <= j < i ==> order[j] in waiting
    ensures i < |order| ==> order[i] !in waiting
  {
    if order == [] || order[0] !in waiting then 0 else 1 + FirstRunnable(order[1..], waiting)
  }

  predicate HasRunnable<T(==)>(s: State<T>) {
    exists t :: t in s.ring && t !in s.waiting
  }

  predicate OnRing<T(==)>(s: State<T>) {
    Distinct(s.ring) && s.current in s.ring
  }

  /** The threads after the current one in ring order, the current one last. */
  function Order<T(==)>(s: State<T>): (r: seq<T>)
    requires OnRing(s)
    ensures |r| == |s.ring|
  {
    Rotated(s.ring, Index(s.ring, s.current))
  }

  lemma OrderMembers<T>(s: State<T>)
    requires OnRing(s)
    ensures forall t :: t in Order(s) <==> t in s.ring
  {
    RotatedMembers(s.ring, Index(s.ring, s.current));
  }

  /** Where in the order the first runnable thread stands. */
  function FirstInOrder<T(==)>(s: State<T>): (i: nat)
    requires OnRing(s) && HasRunnable(s)
    ensures i < |s.ring|
  {
    OrderMembers(s);
    FirstRunnable(Order(s), s.waiting)
  }

  /** `nextThread`: on to the first thread after the current one that is not waiting. */
  function Dispatch<T(==)>(s: State<T>): State<T>
    requires OnRing(s) && HasRunnable(s)
  {
    s.(current := Order(s)[FirstInOrder(s)])
  }

  /** `d` steps on around the ring from position `k`. */
  function Around<T>(ring: seq<T>, k: nat, d: nat): T
    requires k < |ring| && d <= |ring|
  {
    ring[if k + d < |ring| then k + d else k + d - |ring|]
  }

  /** `to` is `d` steps on from position `k`, it is not waiting, and everybody passed over is. */
  predicate Reached<T(==)>(ring: seq<T>, waiting: set<T>, k: nat, d: nat, to: T) {
    && k < |ring| && 0 < d <= |ring| && Around(ring, k, d) == to && to !in waiting
    && forall j :: 0 < j < d ==> Around(ring, k, j) in waiting
  }

  /** `to` is the first thread after `from` around the ring that is not waiting, `from` itself coming last. */
  ghost predicate FirstAfter<T>(ring: seq<T>, waiting: set<T>, from: T, to: T) {
    exists k: nat, d: nat :: k < |ring| && ring[k] == from && Reached(ring, waiting, k, d, to)
  }

  lemma ReachedFirst<T>(ring: seq<T>, waiting: set<T>, k: nat, order: seq<T>, i: nat)
    requires k < |ring| && order == Rotated(ring, k) && i < |order| && order[i] !in waiting
    requires forall j :: 0 <= j < i ==> order[j] in waiting
    ensures Reached(ring, waiting, k, i + 1, order[i])
  {
    RotatedAt(ring, k, i);
    forall j | 0 < j < i + 1 ensures Around(ring, k, j) in waiting {
      RotatedAt(ring, k, j - 1);
      assert order[j - 1] in waiting;
    }
  }

  /** Dispatching changes the current thread alone, and to the first one after it that does not wait. */
  lemma DispatchFirstAfter<T>(s: State<T>)
    requires OnRing(s) && HasRunnable(s)
    ensures FirstAfter(s.ring, s.waiting, s.current, Dispatch(s).current)
    ensures Dispatch(s) == s.(current := Dispatch(s).current)
  {
    var k, i := Index(s.ring, s.current), FirstInOrder(s);
    ReachedFirst(s.ring, s.waiting, k, Order(s), i);
  }

  // ---------- waiting list ----------

  /** The entries left when every thread waiting for `id` is woken, in their old order. */
  function Keep<T>(ws: seq<Waiter<T>>, id: nat): seq<Waiter<T>> {
    if ws == [] then []
    else Keep(ws[..|ws| - 1], id) + (if ws[|ws| - 1].id == id then [] else [ws[|ws| - 1]])
  }

  lemma {:induction false} KeepMembers<T>(ws: seq<Waiter<T>>, id: nat)
    ensures forall w :: w in Keep(ws, id) <==> w in ws && w.id != id
  {
    if ws != [] {
      var n := |ws| - 1;
      KeepMembers(ws[..n], id);
      assert forall w :: w in ws <==> w in ws[..n] || w == ws[n];
    }
  }

  function Woken<T>(ws: seq<Waiter<T>>, id: nat): set<T> {
    set w | w in ws && w.id == id :: w.thread
  }

  // ---------- operations ----------

  predicate IsLeastUnused<T(==)>(s: State<T>, id: nat) {
    !IsLive(s, id) && forall j :: 0 <= j < id ==> IsLive(s, j)
  }

  function Create<T(==)>(s: State<T>, t: T, id: nat): State<T> {
    s.(ring := s.ring + [t], id := s.id[t := id], waiting := s.waiting - {t})
  }

  predicate IsLive<T(==)>(s: State<T>, id: nat) {
    exists t :: t in s.ring && t in s.id && s.id[t] == id
  }

  /** `waitForThread`: nothing for an id no thread has; otherwise the caller is listed, marked and left. */
  function Listed<T(==)>(s: State<T>, id: nat): State<T> {
    s.(waiters := s.waiters + [Waiter(id, s.current)], waiting := s.waiting + {s.current})
  }

  predicate CanWait<T(==)>(s: State<T>, id: nat) {
    OnRing(s) && (IsLive(s, id) ==> HasRunnable(Listed(s, id)))
  }

  function Wait<T(==)>(s: State<T>, id: nat): State<T>
    requires CanWait(s, id)
  {
    if IsLive(s, id) then Dispatch(Listed(s, id)) else s
  }

  /** A wait for a live thread lists the caller behind everybody else, marks it and goes on to the first thread
      after it that does not wait; a wait for any other id changes nothing. */
  lemma WaitIs<T>(s: State<T>, id: nat)
    requires CanWait(s, id)
    ensures var r := Wait(s, id);
            if exists t :: t in s.ring && t in s.id && s.id[t] == id then
              && r.waiters == s.waiters + [Waiter(id, s.current)] && r.waiting == s.waiting + {s.current}
              && r.ring == s.ring && r.id == s.id && r.dead == s.dead && r.cleaner == s.cleaner
              && FirstAfter(s.ring, s.waiting + {s.current}, s.current, r.current)
            else r == s
  {
    if IsLive(s, id) {
      DispatchFirstAfter(Listed(s, id));
    }
  }

  function Wake<T(==)>(s: State<T>, id: nat): State<T> {
    s.(waiters := Keep(s.waiters, id), waiting := s.waiting - Woken(s.waiters, id))
  }

  /** Out of the ring. */
  function Unlink<T(==)>(s: State<T>, t: T): State<T>
    requires t in s.ring
  {
    s.(ring := Without(s.ring, Index(s.ring, t)), id := s.id - {t}, waiting := s.waiting - {t})
  }

  /** `destroyThread`: whoever waits for `t` is woken and `t` leaves the ring. */
  function Destroy<T(==)>(s: State<T>, t: T): State<T>
    requires t in s.ring && t in s.id
  {
    Unlink(Wake(s, s.id[t]), t)
  }

  /** `exitThread` up to the jump: the current thread wakes its waiters, moves to the dead list, the
      cleaner is made runnable, and `currentThread` is the exiting thread's predecessor. */
  function Buried<T(==)>(s: State<T>): (r: State<T>)
    requires CanExit(s)
    ensures OnRing(r) && HasRunnable(r)
  {
    var k := Index(s.ring, s.current);
    var w := Wake(s, s.id[s.current]);
    var r := Unlink(w, s.current).(dead := s.dead + [s.current], current := s.ring[k - 1]);
    var r := r.(waiting := r.waiting - {s.cleaner});
    assert r.ring[k - 1] == s.ring[k - 1];
    assert s.cleaner in r.ring by {
      var c := Index(s.ring, s.cleaner);
      assert r.ring[if c < k then c else c - 1] == s.cleaner;
    }
    r
  }

  predicate CanExit<T(==)>(s: State<T>) {
    && OnRing(s) && s.current in s.id && s.cleaner in s.ring
    && s.current != s.cleaner && s.current != s.ring[0]
  }

  function Exit<T(==)>(s: State<T>): State<T>
    requires CanExit(s)
  {
    Dispatch(Buried(s))
  }

  /** The entries for `id` are gone and no others, and just the threads they named are unmarked, with `others`. */
  ghost predicate WokenFor<T(!new)>(s: State<T>, r: State<T>, id: nat, others: set<T>) {
    && (forall w :: w in r.waiters <==> w in s.waiters && w.id != id)
    && (forall t :: t in r.waiting <==> t in s.waiting && t !in others && Waiter(id, t) !in s.waiters)
  }

  lemma WakeIs<T(!new)>(s: State<T>, id: nat)
    ensures WokenFor(s, Wake(s, id), id, {})
  {
    forall w ensures w in Keep(s.waiters, id) <==> w in s.waiters && w.id != id {
      KeepsOne(s.waiters, id, w);
    }
    forall t | t in s.waiting ensures t in Woken(s.waiters, id) <==> Waiter(id, t) in s.waiters {
      if t in Woken(s.waiters, id) {
        var w :| w in s.waiters && w.id == id && w.thread == t;
        assert w == Waiter(id, t);
      }
    }
  }

  lemma {:induction false} KeepsOne<T>(ws: seq<Waiter<T>>, id: nat, w: Waiter<T>)
    ensures w in Keep(ws, id) <==> w in ws && w.id != id
  {
    if ws != [] {
      var n := |ws| - 1;
      KeepsOne(ws[..n], id, w);
      assert w in ws <==> w in ws[..n] || w == ws[n];
    }
  }

  /** Destroying a thread wakes just those listed for it and takes just it off the ring. */
  lemma DestroyIs<T(!new)>(s: State<T>, t: T)
    requires OnRing(s) && t in s.ring && t in s.id
    ensures var r := Destroy(s, t);
            && WokenFor(s, r, s.id[t], {t}) && r.dead == s.dead && r.current == s.current && r.cleaner == s.cleaner
            && (forall u :: u in r.ring <==> u in s.ring && u != t) && r.id == s.id - {t}
  {
    WakeIs(s, s.id[t]);
    WithoutDistinct(s.ring, Index(s.ring, t));
  }

  /** Exiting wakes just those listed for the current thread, and the cleaner, and moves the thread from the
      ring to the end of the dead list. */
  lemma ExitIs<T(!new)>(s: State<T>)
    requires CanExit(s)
    ensures var r := Exit(s);
            && WokenFor(s, r, s.id[s.current], {s.current, s.cleaner}) && r.dead == s.dead + [s.current]
            && (forall u :: u in r.ring <==> u in s.ring && u != s.current) && r.id == s.id - {s.current}
            && r.cleaner == s.cleaner && r.current in r.ring && r.current !in r.waiting
  {
    WakeIs(s, s.id[s.current]);
    WithoutDistinct(s.ring, Index(s.ring, s.current));
    DispatchIsFirst(Buried(s));
  }

  /** `cleaner`: the first dead thread is taken off the dead list. */
  function Take<T(==)>(s: State<T>): State<T>
    requires s.dead != []
  {
    s.(dead := s.dead[1..])
  }

  // ---------- dispatch order ----------

  /** How many dispatch positions lie ahead of `t`. */
  function Distance<T(==)>(s: State<T>, t: T): nat
    requires OnRing(s) && t in s.ring
  {
    Index(Order(s), t)
  }

  lemma RotatedDistinct<T>(ring: seq<T>, k: nat)
    requires Distinct(ring) && k < |ring|
    ensures Distinct(Rotated(ring, k))
  {
    var r := Rotated(ring, k);
    forall i, j | 0 <= i < j < |r| ensures r[i] != r[j] {
      RotatedAt(ring, k, i);
      RotatedAt(ring, k, j);
    }
  }

  /** Rotating from a later position rotates the order itself. */
  lemma RotatedAgain<T>(ring: seq<T>, k: nat, p: nat) returns (i: nat)
    requires k < |ring| && p < |ring|
    ensures i < |ring| && ring[i] == Rotated(ring, k)[p]
    ensures Rotated(ring, i) == Rotated(ring, k)[p + 1..] + Rotated(ring, k)[..p + 1]
  {
    var n := |ring|;
    var a, b := ring[k + 1..], ring[..k + 1];
    if p < |a| {
      i := k + 1 + p;
      assert Rotated(ring, i) == ring[i + 1..] + (ring[..k + 1] + ring[k + 1..i + 1]);
      assert a[p + 1..] == ring[i + 1..] && a[..p + 1] == ring[k + 1..i + 1];
      assert (a + b)[p + 1..] == a[p + 1..] + b && (a + b)[..p + 1] == a[..p + 1];
    } else {
      i := p - |a|;
      assert Rotated(ring, i) == (ring[i + 1..k + 1] + ring[k + 1..]) + ring[..i + 1];
      assert (a + b)[p + 1..] == b[i + 1..] && (a + b)[..p + 1] == a + b[..i + 1];
    }
  }

  lemma OrderFrom<T>(s: State<T>, p: nat)
    requires OnRing(s) && p < |s.ring|
    ensures var t := s.(current := Order(s)[p]);
            OnRing(t) && Order(t) == Order(s)[p + 1..] + Order(s)[..p + 1]
  {
    var i := RotatedAgain(s.ring, Index(s.ring, s.current), p);
    assert s.ring[i] == Order(s)[p];
    IndexAt(s.ring, i);
  }

  lemma OrderDistinct<T>(s: State<T>)
    requires OnRing(s)
    ensures Distinct(Order(s))
  {
    RotatedDistinct(s.ring, Index(s.ring, s.current));
  }

  lemma IndexAfterRotation<T>(o: seq<T>, p: nat, q: nat)
    requires Distinct(o) && p < q < |o|
    ensures Index(o[p + 1..] + o[..p + 1], o[q]) == q - p - 1
  {
    var r := o[p + 1..] + o[..p + 1];
    assert r == Rotated(o, p);
    RotatedDistinct(o, p);
    RotatedAt(o, p, q - p - 1);
    assert r[q - p - 1] == o[q];
    IndexAt(r, q - p - 1);
  }

  lemma DispatchPosition<T>(s: State<T>, t: T) returns (p: nat)
    requires OnRing(s) && t in s.ring && t !in s.waiting
    ensures HasRunnable(s) && p <= Distance(s, t) < |s.ring| && Dispatch(s).current == Order(s)[p]
  {
    p := FirstRunnable(Order(s), s.waiting);
    OrderMembers(s);
  }

  /** A runnable thread that is passed over for another one has come strictly closer: with the ring
      unchanged, no thread that stays runnable is dispatched past for ever. */
  lemma DispatchApproaches<T>(s: State<T>, t: T)
    requires OnRing(s) && t in s.ring && t !in s.waiting
    ensures HasRunnable(s) && OnRing(Dispatch(s))
    ensures Dispatch(s).current != t ==> Distance(Dispatch(s), t) < Distance(s, t)
  {
    var p := DispatchPosition(s, t);
    OrderFrom(s, p);
    if p < Distance(s, t) {
      OrderDistinct(s);
      IndexAfterRotation(Order(s), p, Distance(s, t));
    }
  }

  /** Everything dispatched past is waiting, and what is dispatched is not. */
  lemma DispatchIsFirst<T>(s: State<T>)
    requires OnRing(s) && HasRunnable(s)
    ensures var d := Dispatch(s);
            && OnRing(d) && d.current !in s.waiting
            && forall j :: 0 <= j < Distance(s, d.current) ==> Order(s)[j] in s.waiting
  {
    OrderDistinct(s);
    OrderMembers(s);
    IndexAt(Order(s), FirstInOrder(s));
  }

  /** After an exit the dispatcher visits the other threads in the order it would have visited them
      from the exiting thread: none skipped, none repeated. */
  lemma ExitResumesAtSuccessor<T>(s: State<T>)
    requires CanExit(s)
    ensures Order(Buried(s)) == Order(s)[..|s.ring| - 1]
  {
    var k := Index(s.ring, s.current);
    var r := Buried(s);
    WithoutDistinct(s.ring, k);
    IndexAt(r.ring, k - 1);
    RotatedWithout(s.ring, k);
  }

  lemma RotatedWithout<T>(ring: seq<T>, k: nat)
    requires 0 < k < |ring|
    ensures Rotated(Without(ring, k), k - 1) == Rotated(ring, k)[..|ring| - 1]
  {
    var r := Without(ring, k);
    assert r[k..] == ring[k + 1..] && r[..k] == ring[..k];
    assert Rotated(ring, k)[..|ring| - 1] == ring[k + 1..] + ring[..k];
  }
}
