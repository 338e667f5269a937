/** The scheduler as the kernel keeps it: intrusive rings of thread and waiting-list nodes, updated in
    place. Every method's effect is the operation of the same name on the abstract state. */
module Schedulers {
  import opened Rings
  import opened Schedules

  datatype ThreadData = ThreadData(id: nat, waiting: bool)

  type Thread = Link<ThreadData>
  type Entry = Link<Waiter<Thread>>

  /** `waitingList` holds `entries`, whose contents are `waiters`, entry by entry. */
  ghost predicate Lists(waitingList: Entry, entries: seq<Entry>, waiters: seq<Waiter<Thread>>)
    reads (set e | e in [waitingList] + entries)`next, (set e | e in [waitingList] + entries)`prev
    reads (set e | e in entries)`data
  {
    Ring([waitingList] + entries) && Holds(entries, waiters)
  }

  ghost predicate Holds(entries: seq<Entry>, waiters: seq<Waiter<Thread>>)
    reads (set e | e in entries)`data
  {
    |waiters| == |entries| && forall i :: 0 <= i < |entries| ==> entries[i].data == waiters[i]
  }

  /** The entries whose waiter does not wait for `id`. */
  ghost function KeepEntries(entries: seq<Entry>, waiters: seq<Waiter<Thread>>, id: nat): (r: seq<Entry>)
    requires |entries| == |waiters|
    ensures |r| == |Keep(waiters, id)|
  {
    if waiters == [] then []
    else
      var n := |waiters| - 1;
      KeepEntries(entries[..n], waiters[..n], id) + (if waiters[n].id == id then [] else [entries[n]])
  }

  lemma KeepStep(entries: seq<Entry>, waiters: seq<Waiter<Thread>>, id: nat, j: nat)
    requires |entries| == |waiters| && j < |waiters|
    ensures KeepEntries(entries[..j + 1], waiters[..j + 1], id)
            == KeepEntries(entries[..j], waiters[..j], id) + (if waiters[j].id == id then [] else [entries[j]])
  {
    assert entries[..j + 1][..j] == entries[..j] && waiters[..j + 1][..j] == waiters[..j];
  }

  lemma {:induction false} KeepLists(entries: seq<Entry>, waiters: seq<Waiter<Thread>>, id: nat)
    requires |entries| == |waiters|
    requires forall i :: 0 <= i < |entries| ==> entries[i].data == waiters[i]
    ensures forall i :: 0 <= i < |Keep(waiters, id)|
                        ==> KeepEntries(entries, waiters, id)[i].data == Keep(waiters, id)[i]
  {
    if waiters != [] {
      var n := |waiters| - 1;
      KeepLists(entries[..n], waiters[..n], id);
    }
  }

  /** What is left of the waiting list when the walk has passed the first `j` entries. */
  ghost function Left(waitingList: Entry, entries: seq<Entry>, waiters: seq<Waiter<Thread>>, id: nat, j: nat)
    : seq<Entry>
    requires |entries| == |waiters| && j <= |entries|
  {
    ([waitingList] + KeepEntries(entries[..j], waiters[..j], id)) + entries[j..]
  }

  /** Passing entry `j` keeps it in the list or takes it out of it, where it stood. */
  lemma LeftStep(waitingList: Entry, entries: seq<Entry>, waiters: seq<Waiter<Thread>>, id: nat, j: nat)
    requires |entries| == |waiters| && j < |entries|
    ensures var l := Left(waitingList, entries, waiters, id, j);
            var k := 1 + |KeepEntries(entries[..j], waiters[..j], id)|;
            && k < |l| && l[k] == entries[j]
            && Left(waitingList, entries, waiters, id, j + 1) == (if waiters[j].id == id then Without(l, k) else l)
            && 1 + |KeepEntries(entries[..j + 1], waiters[..j + 1], id)| == (if waiters[j].id == id then k else k + 1)
  {
    KeepStep(entries, waiters, id, j);
    assert entries[j..] == [entries[j]] + entries[j + 1..];
    PassedOne([waitingList], KeepEntries(entries[..j], waiters[..j], id), entries[j], entries[j + 1..]);
  }

  lemma PassedOne<X>(head: seq<X>, kept: seq<X>, x: X, rest: seq<X>)
    ensures (head + kept) + ([x] + rest) == (head + (kept + [x])) + rest
    ensures Without((head + kept) + ([x] + rest), |head + kept|) == (head + (kept + [])) + rest
  {
    assert kept + [] == kept;
    assert (head + kept) + [x] == head + (kept + [x]);
    assert (head + kept) + ([x] + rest) == ((head + kept) + [x]) + rest;
  }

  lemma LeftMembers(waitingList: Entry, entries: seq<Entry>, waiters: seq<Waiter<Thread>>, id: nat, j: nat)
    requires |entries| == |waiters| && j <= |entries|
    ensures forall e :: e in Left(waitingList, entries, waiters, id, j) ==> e in [waitingList] + entries
  {
    KeptAmong(entries[..j], waiters[..j], id);
  }

  lemma {:induction false} KeptAmong(entries: seq<Entry>, waiters: seq<Waiter<Thread>>, id: nat)
    requires |entries| == |waiters|
    ensures forall e :: e in KeepEntries(entries, waiters, id) ==> e in entries
  {
    if waiters != [] {
      var n := |waiters| - 1;
      KeptAmong(entries[..n], waiters[..n], id);
    }
  }

  /** One pass of the loop body at `entry`, the `k`th node of the list `l`, which holds `w`. */
  method Visit(entry: Entry, id: nat, ghost w: Waiter<Thread>, ghost l: seq<Entry>, ghost k: nat)
    returns (next: Entry)
    requires Ring(l) && 0 < k < |l| && l[k] == entry && entry.data == w
    modifies entry.prev`next, entry.next`prev, w.thread`data
    ensures Ring(if w.id == id then Without(l, k) else l)
    ensures var r := if w.id == id then Without(l, k) else l;
            var i := if w.id == id then k else k + 1;
            next == r[if i == |r| then 0 else i]
    ensures w.thread.data == Cleared(old(w.thread.data), w.id == id)
  {
    var current := entry;
    if current.data.id == id {
      current.data.thread.data := current.data.thread.data.(waiting := false);
      var prev := current.prev;
      assert Succ(k - 1, |l|) == k;
      UnlinkList(current, l, k);
      assert Without(l, k)[k - 1] == prev;
      assert Without(l, k)[Succ(k - 1, |l| - 1)] == l[Succ(k, |l|)];
      current := prev;
    }
    next := current.next;
  }

  lemma WokenStep(waiters: seq<Waiter<Thread>>, id: nat, j: nat)
    requires j < |waiters|
    ensures Woken(waiters[..j + 1], id)
            == Woken(waiters[..j], id) + (if waiters[j].id == id then {waiters[j].thread} else {})
  {
    assert waiters[..j + 1] == waiters[..j] + [waiters[j]];
    assert forall w :: w in waiters[..j + 1] <==> w in waiters[..j] || w == waiters[j];
  }

  function Cleared(d: ThreadData, clear: bool): ThreadData {
    if clear then d.(waiting := false) else d
  }

  ghost predicate Flags(before: map<Thread, ThreadData>, woken: set<Thread>)
    reads before.Keys`data
  {
    forall t :: t in before ==> t.data == Cleared(before[t], t in woken)
  }

  /** The walk has passed the first `j` entries and stands at `entry`. */
  ghost predicate Walked(waitingList: Entry, id: nat, entries: seq<Entry>, waiters: seq<Waiter<Thread>>, j: nat,
                         entry: Entry)
    requires |waiters| == |entries| && j <= |entries|
    reads (set e | e in Left(waitingList, entries, waiters, id, j))`next
    reads (set e | e in Left(waitingList, entries, waiters, id, j))`prev
  {
    var l := Left(waitingList, entries, waiters, id, j);
    var k := 1 + |KeepEntries(entries[..j], waiters[..j], id)|;
    Ring(l) && entry == l[if k == |l| then 0 else k]
  }

  method Pass(waitingList: Entry, id: nat, entry: Entry, ghost entries: seq<Entry>, ghost waiters: seq<Waiter<Thread>>,
              ghost j: nat)
    returns (next: Entry)
    requires Holds(entries, waiters) && j < |entries|
    requires Walked(waitingList, id, entries, waiters, j, entry)
    modifies (set e | e in [waitingList] + entries)`next
    modifies (set e | e in [waitingList] + entries)`prev
    modifies waiters[j].thread`data
    ensures Walked(waitingList, id, entries, waiters, j + 1, next)
    ensures waiters[j].thread.data == Cleared(old(waiters[j].thread.data), waiters[j].id == id)
  {
    ghost var l := Left(waitingList, entries, waiters, id, j);
    ghost var k := 1 + |KeepEntries(entries[..j], waiters[..j], id)|;
    WalkedTo(waitingList, id, entries, waiters, j, entry, l, k);
    next := Visit(entry, id, waiters[j], l, k);
    LeftStep(waitingList, entries, waiters, id, j);
  }

  /** The pass at entry `j`, with the flags of all threads. */
  method PassOn(waitingList: Entry, id: nat, entry: Entry, ghost entries: seq<Entry>, ghost waiters: seq<Waiter<Thread>>,
                ghost j: nat, ghost before: map<Thread, ThreadData>)
    returns (next: Entry)
    requires Holds(entries, waiters) && j < |entries|
    requires Walked(waitingList, id, entries, waiters, j, entry)
    requires Flags(before, Woken(waiters[..j], id)) && forall w :: w in waiters ==> w.thread in before
    modifies (set e | e in [waitingList] + entries)`next
    modifies (set e | e in [waitingList] + entries)`prev
    modifies before.Keys`data
    ensures Holds(entries, waiters) && Walked(waitingList, id, entries, waiters, j + 1, next)
    ensures Flags(before, Woken(waiters[..j + 1], id))
  {
    WokenStep(waiters, id, j);
    assert waiters[j] in waiters;
    next := Pass(waitingList, id, entry, entries, waiters, j);
    forall t | t in before
      ensures t.data == Cleared(before[t], t in Woken(waiters[..j + 1], id))
    {
      assert t != waiters[j].thread ==> t.data == old(t.data);
    }
  }

  /** Before its end the walk stands at entry `j`, whose neighbours are nodes of the list. */
  lemma WalkedTo(waitingList: Entry, id: nat, entries: seq<Entry>, waiters: seq<Waiter<Thread>>, j: nat, entry: Entry,
                 l: seq<Entry>, k: nat)
    requires |waiters| == |entries| && j < |entries|
    requires Walked(waitingList, id, entries, waiters, j, entry)
    requires l == Left(waitingList, entries, waiters, id, j)
    requires k == 1 + |KeepEntries(entries[..j], waiters[..j], id)|
    ensures 0 < k < |l| && l[k] == entry == entries[j]
    ensures entry.prev in [waitingList] + entries && entry.next in [waitingList] + entries
  {
    LeftStep(waitingList, entries, waiters, id, j);
    LeftMembers(waitingList, entries, waiters, id, j);
    assert l[k].prev == l[Pred(k, |l|)] && l[k].next == l[Succ(k, |l|)];
  }

  /** The loop shared by `exitThread` and `destroyThread`: it unlinks entries while it walks them. Each
      entry is visited once; exactly the threads waiting for `id` are woken. `before` holds the thread
      data of any threads, the waiting ones among them. */
  method WakeWaiters(waitingList: Entry, id: nat, ghost entries: seq<Entry>, ghost waiters: seq<Waiter<Thread>>,
                     ghost before: map<Thread, ThreadData>)
    requires Lists(waitingList, entries, waiters)
    requires Flags(before, {}) && forall w :: w in waiters ==> w.thread in before
    modifies (set e | e in [waitingList] + entries)`next
    modifies (set e | e in [waitingList] + entries)`prev
    modifies before.Keys`data
    ensures Lists(waitingList, KeepEntries(entries, waiters, id), Keep(waiters, id))
    ensures Flags(before, Woken(waiters, id))
  {
    var entry := waitingList.next;
    ghost var j := 0;
    assert Left(waitingList, entries, waiters, id, 0) == [waitingList] + entries;
    assert waitingList == ([waitingList] + entries)[0];
    while entry != waitingList
      invariant Holds(entries, waiters) && j <= |entries|
      invariant Walked(waitingList, id, entries, waiters, j, entry)
      invariant Flags(before, Woken(waiters[..j], id))
      decreases |entries| - j
    {
      entry := PassOn(waitingList, id, entry, entries, waiters, j, before);
      j := j + 1;
    }
    WalkDone(waitingList, id, entries, waiters, j, entry);
    assert waiters[..j] == waiters;
  }

  lemma WalkDone(waitingList: Entry, id: nat, entries: seq<Entry>, waiters: seq<Waiter<Thread>>, j: nat, entry: Entry)
    requires Holds(entries, waiters) && j <= |entries|
    requires Walked(waitingList, id, entries, waiters, j, entry) && entry == waitingList
    ensures j == |entries| && Lists(waitingList, KeepEntries(entries, waiters, id), Keep(waiters, id))
  {
    var l := Left(waitingList, entries, waiters, id, j);
    assert l[0] == waitingList;
    assert entries[..j] == entries && waiters[..j] == waiters;
    assert l == [waitingList] + KeepEntries(entries, waiters, id);
    KeepLists(entries, waiters, id);
  }

  /** Run queue and dead list are rings with no node in common. */
  ghost predicate Queues(ring: seq<Thread>, deadThreads: Thread, dead: seq<Thread>)
    reads (set t | t in ring)`next, (set t | t in ring)`prev
    reads (set t | t in [deadThreads] + dead)`next, (set t | t in [deadThreads] + dead)`prev
  {
    Ring(ring) && Ring([deadThreads] + dead) && forall t :: t in ring ==> t != deadThreads && t !in dead
  }

  /** Every waiting-list entry names a thread of the ring. */
  ghost predicate Within(waiters: seq<Waiter<Thread>>, ring: seq<Thread>) {
    forall w :: w in waiters ==> w.thread in ring
  }

  ghost function Ids(ring: seq<Thread>): map<Thread, nat>
    reads (set t | t in ring)`data
  {
    map t | t in ring :: t.data.id
  }

  ghost function Marked(ring: seq<Thread>): set<Thread>
    reads (set t | t in ring)`data
  {
    set t | t in ring && t.data.waiting
  }

  lemma Joined(ring: seq<Thread>, t: Thread)
    ensures Ids(ring + [t]) == Ids(ring)[t := t.data.id]
    ensures Marked(ring + [t]) == Marked(ring) + (if t.data.waiting then {t} else {})
  {
  }

  lemma Departed(ring: seq<Thread>, k: nat)
    requires Distinct(ring) && k < |ring|
    ensures Ids(Without(ring, k)) == Ids(ring) - {ring[k]}
    ensures Marked(Without(ring, k)) == Marked(ring) - {ring[k]}
  {
    WithoutDistinct(ring, k);
  }

  lemma FlagsCleared(ring: seq<Thread>, before: map<Thread, ThreadData>, woken: set<Thread>)
    requires before.Keys == (set t | t in ring) && Flags(before, woken)
    ensures Ids(ring) == map t | t in before :: before[t].id
    ensures Marked(ring) == (set t | t in before && before[t].waiting) - woken
  {
  }

  class Scheduler {
    const threads: Thread        // the boot thread, head of the run queue
    var currentThread: Thread
    const deadThreads: Thread
    var cleanerThread: Thread
    const waitingList: Entry
    ghost var ring: seq<Thread>
    ghost var dead: seq<Thread>
    ghost var entries: seq<Entry>
    ghost var waiters: seq<Waiter<Thread>>

    ghost predicate Valid()
      reads this, ring, deadThreads, dead, waitingList, entries
    {
      && Queues(ring, deadThreads, dead) && ring[0] == threads
      && currentThread in ring && cleanerThread in ring
      && Lists(waitingList, entries, waiters) && Within(waiters, ring)
    }

    ghost function Abs(): State<Thread>
      reads this, ring
    {
      State(ring, Ids(ring), Marked(ring), waiters, dead, currentThread, cleanerThread)
    }

    /** The kernel's start: the boot thread runs, and the thread `initScheduler` creates for the cleaner
        is next to it. */
    constructor ()
      ensures Valid() && fresh(ring) && fresh(deadThreads) && fresh(waitingList)
      ensures currentThread == threads && ring == [threads, cleanerThread] && dead == [] && waiters == []
      ensures threads.data == ThreadData(0, false) && cleanerThread.data == ThreadData(1, false)
    {
      var boot := new Link(ThreadData(0, false));
      var cleaner := new Link(ThreadData(1, false));
      assert Ring([boot]);
      LinkList(boot, cleaner, [boot]);
      assert Ring([boot, cleaner]) by { assert [boot] + [cleaner] == [boot, cleaner]; }
      var deads := new Link(ThreadData(0, false));
      var list := new Link(Waiter(0, boot));
      threads, currentThread, cleanerThread, deadThreads, waitingList := boot, boot, cleaner, deads, list;
      ring, dead, entries, waiters := [boot, cleaner], [], [], [];
      assert [deads] + [] == [deads] && [list] + [] == [list];
    }

    /** The loop of `nextThread`: on around the ring while the thread reached is waiting. With every
        thread waiting it would go round for ever, so some thread must be runnable. */
    method Runnable() returns (thread: Thread)
      requires Valid() && HasRunnable(Abs())
      ensures Valid() && Abs() == old(Abs())
      ensures thread in ring && Abs().(current := thread) == Dispatch(Abs())
    {
      ghost var s := Abs();
      ghost var order := Order(s);
      ghost var p := FirstInOrder(s);
      OrderLinks(s, order);
      ghost var i := 0;
      thread := currentThread.next;
      while thread.data.waiting
        invariant 0 <= i <= p && thread == order[i]
        decreases p - i
      {
        assert order[i] in s.ring && order[i] in s.waiting;
        assert i < p && order[i].next == order[i + 1];
        thread := thread.next;
        i := i + 1;
      }
      assert order[i] !in s.waiting;
    }

    /** `nextThread`, its register and stack switching apart. */
    method NextThread()
      requires Valid() && HasRunnable(Abs())
      modifies this`currentThread
      ensures Valid() && Abs() == Dispatch(old(Abs())) == old(Abs()).(current := currentThread)
      ensures FirstAfter(ring, Abs().waiting, old(currentThread), currentThread)
    {
      ghost var s := Abs();
      DispatchFirstAfter(s);
      var thread := Runnable();
      SetCurrent(thread);
    }

    method SetCurrent(thread: Thread)
      requires Valid() && thread in ring
      modifies this`currentThread
      ensures Valid() && Abs() == old(Abs()).(current := thread)
    {
      currentThread := thread;
      assert Queues(ring, deadThreads, dead) && Lists(waitingList, entries, waiters);
      assert Ids(ring) == old(Ids(ring)) && Marked(ring) == old(Marked(ring));
    }

    /** The dispatch order follows the `next` pointers, from the current thread's successor. */
    lemma OrderLinks(s: State<Thread>, order: seq<Thread>)
      requires OnRing(s) && Ring(s.ring) && order == Order(s)
      ensures forall t :: t in order ==> t in s.ring
      ensures order[0] == s.current.next
      ensures forall i {:trigger order[i].next} :: 0 <= i < |order| - 1 ==> order[i].next == order[i + 1]
    {
      var n, k := |s.ring|, Index(s.ring, s.current);
      OrderMembers(s);
      RotatedAt(s.ring, k, 0);
      assert order[0] == s.ring[Succ(k, n)];
      forall i | 0 <= i < n - 1 ensures order[i].next == order[i + 1] {
        var a := if k + 1 + i < n then k + 1 + i else k + 1 + i - n;
        RotatedAt(s.ring, k, i);
        RotatedAt(s.ring, k, i + 1);
        assert order[i] == s.ring[a] && order[i + 1] == s.ring[Succ(a, n)];
      }
    }

    /** The id search of `createThread`, which starts again at each id found taken. */
    method UnusedId() returns (id: nat)
      requires Valid()
      ensures IsLeastUnused(Abs(), id)
    {
      ghost var s := Abs();
      id := 0;
      var current := threads;
      ghost var k := 0;
      while true
        invariant k < |ring| && current == ring[k]
        invariant forall i :: 0 <= i < k ==> ring[i].data.id != id
        invariant forall j :: 0 <= j < id ==> IsLive(s, j)
        decreases set t | t in ring && t.data.id >= id, |ring| - k
      {
        if current.data.id == id {
          assert s.id[current] == id;
          assert IsLive(s, id);
          ghost var above := set t | t in ring && t.data.id >= id;
          assert current in above;
          id := id + 1;
          current := threads;
          k := 0;
        } else {
          assert ring[k].next == ring[Succ(k, |ring|)];
          current := current.next;
          if current == threads {
            break;
          }
          k := k + 1;
        }
      }
    }

    /** `createThread`: the least unused id, and the new thread linked in last. */
    method CreateThread() returns (thread: Thread)
      requires Valid()
      modifies this`ring, threads`prev, threads.prev`next
      ensures Valid() && fresh(thread)
      ensures IsLeastUnused(old(Abs()), thread.data.id)
      ensures Abs() == Create(old(Abs()), thread, thread.data.id)
      ensures ring == old(ring) + [thread] && !thread.data.waiting
      ensures forall t :: t in old(ring) ==> old(t.data.id) != thread.data.id
    {
      var id := UnusedId();
      thread := new Link(ThreadData(id, false));
      LinkThread(thread);
    }

    method LinkThread(thread: Thread)
      requires Valid() && thread !in ring && thread != deadThreads && thread !in dead && !thread.data.waiting
      modifies this`ring, threads`prev, threads.prev`next, thread`next, thread`prev
      ensures Valid() && Abs() == Create(old(Abs()), thread, thread.data.id)
    {
      ghost var s := Abs();
      AddToRing(thread);
      Joined(s.ring, thread);
      assert Abs() == Create(s, thread, thread.data.id);
    }

    method AddToRing(thread: Thread)
      requires Queues(ring, deadThreads, dead) && Lists(waitingList, entries, waiters) && ring[0] == threads
      requires thread !in ring && thread != deadThreads && thread !in dead
      modifies this`ring, threads`prev, threads.prev`next, thread`next, thread`prev
      ensures Queues(ring, deadThreads, dead) && Lists(waitingList, entries, waiters)
      ensures ring == old(ring) + [thread]
      ensures Ids(old(ring)) == old(Ids(ring)) && Marked(old(ring)) == old(Marked(ring))
    {
      assert threads.prev == ring[Pred(0, |ring|)];
      assert threads in ring && threads.prev in ring;
      LinkList(threads, thread, ring);
      ring := ring + [thread];
      assert Ring([deadThreads] + dead);
      assert Lists(waitingList, entries, waiters);
    }

    /** Whether some thread has this id: the search of `waitForThread`. */
    method Exists(id: nat) returns (found: bool)
      requires Valid()
      ensures found == IsLive(Abs(), id) == exists t :: t in ring && t.data.id == id
    {
      ghost var s := Abs();
      var current := threads;
      ghost var k := 0;
      while true
        invariant k < |ring| && current == ring[k]
        invariant forall i :: 0 <= i < k ==> ring[i].data.id != id
        decreases |ring| - k
      {
        if current.data.id == id {
          assert current in s.ring && s.id[current] == id;
          return true;
        }
        assert ring[k].next == ring[Succ(k, |ring|)];
        current := current.next;
        if current == threads {
          return false;
        }
        k := k + 1;
      }
    }

    method EnlistCurrent(id: nat)
      requires Valid()
      modifies this`entries, this`waiters, waitingList`prev, waitingList.prev`next
      ensures Valid() && Abs() == old(Abs()).(waiters := old(waiters) + [Waiter(id, currentThread)])
    {
      ghost var s := Abs();
      var entry := new Link(Waiter(id, currentThread));
      LinkEntry(entry);
      assert Ids(ring) == s.id && Marked(ring) == s.waiting;
    }

    method LinkEntry(entry: Entry)
      requires Lists(waitingList, entries, waiters) && entry != waitingList && entry !in entries
      modifies this`entries, this`waiters, waitingList`prev, waitingList.prev`next, entry`next, entry`prev
      ensures Lists(waitingList, entries, waiters)
      ensures waiters == old(waiters) + [entry.data]
    {
      ghost var nodes := [waitingList] + entries;
      assert waitingList == nodes[0] && nodes[0].prev == nodes[Pred(0, |nodes|)];
      LinkList(waitingList, entry, nodes);
      assert nodes + [entry] == [waitingList] + (entries + [entry]);
      entries, waiters := entries + [entry], waiters + [entry.data];
    }

    method MarkCurrent()
      requires Valid()
      modifies currentThread`data
      ensures Valid() && Abs() == old(Abs()).(waiting := old(Abs()).waiting + {currentThread})
    {
      ghost var s := Abs();
      currentThread.data := currentThread.data.(waiting := true);
      assert Ids(ring) == s.id;
      assert Marked(ring) == s.waiting + {currentThread};
    }

    /** `waitForThread`, taken as one step: for a live id the caller is listed, marked and left. */
    method WaitForThread(id: nat)
      requires Valid() && CanWait(Abs(), id)
      modifies this`entries, this`waiters, this`currentThread
      modifies waitingList`prev, waitingList.prev`next, currentThread`data
      ensures Valid() && Abs() == Wait(old(Abs()), id)
      ensures if exists t :: t in old(ring) && old(t.data.id) == id then
                && waiters == old(waiters) + [Waiter(id, old(currentThread))]
                && Abs().waiting == old(Abs()).waiting + {old(currentThread)}
                && ring == old(ring) && Abs().id == old(Abs()).id && dead == old(dead)
                && FirstAfter(ring, Abs().waiting, old(currentThread), currentThread)
              else Abs() == old(Abs())
    {
      ghost var s := Abs();
      WaitIs(s, id);
      var found := Exists(id);
      assert found == IsLive(s, id);
      if found {
        Await(id, s);
      }
    }

    /** The listing, the marking and the dispatch. */
    method Await(id: nat, ghost s: State<Thread>)
      requires Valid() && s == Abs() && CanWait(s, id) && IsLive(s, id)
      modifies this`entries, this`waiters, this`currentThread
      modifies waitingList`prev, waitingList.prev`next, currentThread`data
      ensures Valid() && Abs() == Wait(s, id)
    {
      EnlistCurrent(id);
      MarkCurrent();
      assert Abs() == Listed(s, id);
      NextThread();
    }

    method WakeAll(id: nat)
      requires Valid()
      modifies this`entries, this`waiters
      modifies (set e | e in [waitingList] + entries)`next
      modifies (set e | e in [waitingList] + entries)`prev
      modifies (set t | t in ring)`data
      ensures Valid() && Abs() == Wake(old(Abs()), id)
    {
      ghost var s := Abs();
      ghost var before := map t | t in ring :: t.data;
      FlagsCleared(ring, before, {});
      WakeLists(id, before);
      FlagsCleared(ring, before, Woken(s.waiters, id));
      assert Ids(ring) == s.id && Marked(ring) == s.waiting - Woken(s.waiters, id);
    }

    method WakeLists(id: nat, ghost before: map<Thread, ThreadData>)
      requires Lists(waitingList, entries, waiters) && Within(waiters, ring)
      requires Flags(before, {}) && before.Keys == (set t | t in ring)
      modifies this`entries, this`waiters
      modifies (set e | e in [waitingList] + entries)`next
      modifies (set e | e in [waitingList] + entries)`prev
      modifies before.Keys`data
      ensures Lists(waitingList, entries, waiters) && Within(waiters, ring)
      ensures waiters == Keep(old(waiters), id) && Flags(before, Woken(old(waiters), id))
      ensures Queues(ring, deadThreads, dead) == old(Queues(ring, deadThreads, dead))
    {
      WakeThreads(id, before);
      KeepMembers(waiters, id);
      ghost var es, ws := KeepEntries(entries, waiters, id), Keep(waiters, id);
      assert Within(ws, ring);
      entries, waiters := es, ws;
    }

    method WakeThreads(id: nat, ghost before: map<Thread, ThreadData>)
      requires Lists(waitingList, entries, waiters)
      requires Flags(before, {}) && forall w :: w in waiters ==> w.thread in before
      modifies (set e | e in [waitingList] + entries)`next
      modifies (set e | e in [waitingList] + entries)`prev
      modifies before.Keys`data
      ensures Lists(waitingList, KeepEntries(entries, waiters, id), Keep(waiters, id))
      ensures Flags(before, Woken(waiters, id))
      ensures Queues(ring, deadThreads, dead) == old(Queues(ring, deadThreads, dead))
    {
      NoEntry(ring, [waitingList] + entries);
      NoEntry([deadThreads] + dead, [waitingList] + entries);
      WakeWaiters(waitingList, id, entries, waiters, before);
      assert Ring(ring) == old(Ring(ring));
      assert Ring([deadThreads] + dead) == old(Ring([deadThreads] + dead));
    }

    /** Threads and waiting-list entries are different objects. */
    static lemma NoEntry(ts: seq<Thread>, es: seq<Entry>)
      ensures forall t, e :: t in ts && e in es ==> (t as object) != e
    {
    }

    /** `unlinkList` of a thread that is neither running nor waiting. */
    method UnlinkThread(thread: Thread)
      requires Valid() && thread in ring && thread != threads && thread != cleanerThread && thread != currentThread
      requires forall w :: w in waiters ==> w.thread != thread
      modifies this`ring, thread.prev`next, thread.next`prev
      ensures Valid() && Abs() == Unlink(old(Abs()), thread)
    {
      ghost var s := Abs();
      ghost var k := Index(ring, thread);
      RemoveFromRing(thread, k);
      Departed(s.ring, k);
      WithoutDistinct(s.ring, k);
      assert Abs() == Unlink(s, thread);
    }

    method RemoveFromRing(thread: Thread, ghost k: nat)
      requires Queues(ring, deadThreads, dead) && Lists(waitingList, entries, waiters)
      requires 0 < k < |ring| && ring[k] == thread
      modifies this`ring, thread.prev`next, thread.next`prev
      ensures Queues(ring, deadThreads, dead) && Lists(waitingList, entries, waiters)
      ensures ring == Without(old(ring), k) && thread.prev == old(ring[k - 1])
      ensures Ids(old(ring)) == old(Ids(ring)) && Marked(old(ring)) == old(Marked(ring))
    {
      ghost var before := ring;
      UnlinkFromRing(thread, k);
      ring := Without(ring, k);
      WithoutDistinct(before, k);
    }

    method UnlinkFromRing(thread: Thread, ghost k: nat)
      requires Queues(ring, deadThreads, dead) && Lists(waitingList, entries, waiters)
      requires 0 < k < |ring| && ring[k] == thread
      modifies thread.prev`next, thread.next`prev
      ensures Ring(Without(ring, k)) && Ring([deadThreads] + dead) && Lists(waitingList, entries, waiters)
      ensures thread.prev == ring[k - 1]
      ensures Ids(ring) == old(Ids(ring)) && Marked(ring) == old(Marked(ring))
    {
      assert thread.prev == ring[Pred(k, |ring|)] && thread.next == ring[Succ(k, |ring|)];
      assert thread.prev in ring && thread.next in ring;
      UnlinkList(thread, ring, k);
      assert Ring([deadThreads] + dead) == old(Ring([deadThreads] + dead));
      assert Lists(waitingList, entries, waiters) == old(Lists(waitingList, entries, waiters));
    }

    /** `destroyThread` on a live thread other than the boot thread, the cleaner, the caller and any
        waiting thread. */
    method DestroyThread(id: nat) returns (thread: Thread)
      requires Valid() && IsLive(Abs(), id)
      requires forall t :: t in ring && t.data.id == id ==> t != threads && t != cleanerThread && t != currentThread
      requires forall w :: w in waiters ==> w.thread.data.id != id
      modifies this`entries, this`waiters, this`ring
      modifies (set e | e in [waitingList] + entries)`next
      modifies (set e | e in [waitingList] + entries)`prev
      modifies (set t | t in ring)
      ensures Valid() && thread in old(ring) && old(thread.data.id) == id
      ensures Abs() == Destroy(old(Abs()), thread)
    {
      ghost var s := Abs();
      WakeAll(id);
      KeepMembers(s.waiters, id);
      thread := FindThread(id);
      assert s.id[thread] == Ids(ring)[thread] == id;
      UnlinkThread(thread);
    }

    /** The scan of `destroyThread` for a thread that exists. */
    method FindThread(id: nat) returns (thread: Thread)
      requires Valid() && IsLive(Abs(), id)
      ensures thread in ring && thread.data.id == id
    {
      thread := threads;
      ghost var k := 0;
      while thread.data.id != id
        invariant k < |ring| && thread == ring[k]
        invariant forall i :: 0 <= i < k ==> ring[i].data.id != id
        decreases |ring| - k
      {
        assert ring[k].next == ring[Succ(k, |ring|)];
        thread := thread.next;
        k := k + 1;
      }
    }

    /** `exitThread`, taken as one step: waiters are woken, the current thread moves from the run queue
        to the dead list, the cleaner is made runnable and its successor runs next. */
    method ExitThread()
      requires Valid() && CanExit(Abs()) && threads != currentThread
      requires forall w :: w in waiters ==> w.thread != currentThread
      modifies this`entries, this`waiters, this`ring, this`dead, this`currentThread
      modifies (set e | e in [waitingList] + entries)`next
      modifies (set e | e in [waitingList] + entries)`prev
      modifies ring, (set t | t in [deadThreads] + dead)`next, (set t | t in [deadThreads] + dead)`prev
      ensures Valid() && Abs() == Exit(old(Abs()))
    {
      ghost var s := Abs();
      WakeAll(currentThread.data.id);
      ghost var w := Abs();
      assert w == Wake(s, s.id[s.current]);
      KeepMembers(s.waiters, s.id[s.current]);
      ghost var k := Index(ring, currentThread);
      Bury(k);
      assert Abs() == Buried(s);
      NextThread();
    }

    /** The part of `exitThread` with interrupts off, up to the jump. */
    method Bury(ghost k: nat)
      requires Valid() && 0 < k < |ring| && ring[k] == currentThread != cleanerThread
      requires forall w :: w in waiters ==> w.thread != currentThread
      modifies this`ring, this`dead, this`currentThread, cleanerThread`data
      modifies (set t | t in ring)`next, (set t | t in ring)`prev
      modifies (set t | t in [deadThreads] + dead)`next, (set t | t in [deadThreads] + dead)`prev
      ensures Valid()
      ensures ring == Without(old(ring), k) && dead == old(dead) + [old(currentThread)]
      ensures currentThread == old(ring)[k - 1]
      ensures Ids(ring) == old(Ids(ring)) - {old(currentThread)}
      ensures Marked(ring) == old(Marked(ring)) - {old(currentThread)} - {cleanerThread}
    {
      var prev := currentThread.prev;
      Retire(currentThread, k);
      ClearCleaner();
      ghost var ids, marked := Ids(ring), Marked(ring);
      currentThread := prev;
      assert Queues(ring, deadThreads, dead) && Lists(waitingList, entries, waiters);
      assert Ids(ring) == ids && Marked(ring) == marked;
    }

    method Retire(thread: Thread, ghost k: nat)
      requires Queues(ring, deadThreads, dead) && Lists(waitingList, entries, waiters)
      requires 0 < k < |ring| && ring[k] == thread
      modifies this`ring, this`dead
      modifies (set t | t in ring)`next, (set t | t in ring)`prev
      modifies (set t | t in [deadThreads] + dead)`next, (set t | t in [deadThreads] + dead)`prev
      ensures Queues(ring, deadThreads, dead) && Lists(waitingList, entries, waiters)
      ensures ring == Without(old(ring), k) && dead == old(dead) + [thread]
      ensures ring[k - 1] == old(ring)[k - 1] == old(thread.prev) && ring[0] == old(ring)[0]
      ensures (forall t :: t in ring <==> t in old(ring) && t != thread)
      ensures Ids(ring) == old(Ids(ring)) - {thread} && Marked(ring) == old(Marked(ring)) - {thread}
    {
      ghost var before := ring;
      ghost var ids, marked := Ids(ring), Marked(ring);
      MoveToDead(thread, k);
      Departed(before, k);
      WithoutDistinct(before, k);
      assert Ids(before) == ids && Marked(before) == marked;
    }

    method MoveToDead(thread: Thread, ghost k: nat)
      requires Queues(ring, deadThreads, dead) && Lists(waitingList, entries, waiters)
      requires 0 < k < |ring| && ring[k] == thread
      modifies this`ring, this`dead
      modifies (set t | t in ring)`next, (set t | t in ring)`prev
      modifies (set t | t in [deadThreads] + dead)`next, (set t | t in [deadThreads] + dead)`prev
      ensures Queues(ring, deadThreads, dead) && Lists(waitingList, entries, waiters)
      ensures ring == Without(old(ring), k) && dead == old(dead) + [thread] && old(thread.prev) == old(ring)[k - 1]
    {
      assert thread in ring;
      assert thread != deadThreads && thread !in dead;
      RemoveFromRing(thread, k);
      WithoutDistinct(old(ring), k);
      LinkDead(thread);
    }

    method LinkDead(thread: Thread)
      requires Queues(ring, deadThreads, dead) && Lists(waitingList, entries, waiters)
      requires thread !in ring && thread != deadThreads && thread !in dead
      modifies this`dead, thread`next, thread`prev
      modifies (set t | t in [deadThreads] + dead)`next, (set t | t in [deadThreads] + dead)`prev
      ensures Queues(ring, deadThreads, dead) && Lists(waitingList, entries, waiters)
      ensures dead == old(dead) + [thread]
    {
      ghost var nodes := [deadThreads] + dead;
      assert nodes[0].prev == nodes[Pred(0, |nodes|)];
      LinkList(deadThreads, thread, nodes);
      assert nodes + [thread] == [deadThreads] + (dead + [thread]);
      assert Ring(ring) == old(Ring(ring));
      assert Lists(waitingList, entries, waiters) == old(Lists(waitingList, entries, waiters));
      dead := dead + [thread];
    }

    method ClearCleaner()
      requires cleanerThread in ring
      modifies cleanerThread`data
      ensures Queues(ring, deadThreads, dead) == old(Queues(ring, deadThreads, dead))
      ensures Lists(waitingList, entries, waiters) == old(Lists(waitingList, entries, waiters))
      ensures Ids(ring) == old(Ids(ring)) && Marked(ring) == old(Marked(ring)) - {cleanerThread}
    {
      cleanerThread.data := cleanerThread.data.(waiting := false);
    }

    /** The cleaner's removal of the first dead thread. */
    method TakeDead() returns (thread: Thread)
      requires Valid() && dead != []
      modifies this`dead
      modifies (set t | t in [deadThreads] + dead)`next, (set t | t in [deadThreads] + dead)`prev
      ensures Valid() && thread == old(dead)[0] && dead == old(dead)[1..] && Abs() == Take(old(Abs()))
    {
      ghost var s := Abs();
      thread := UnlinkDead();
      assert Ids(ring) == s.id && Marked(ring) == s.waiting;
    }

    method UnlinkDead() returns (thread: Thread)
      requires Queues(ring, deadThreads, dead) && Lists(waitingList, entries, waiters) && dead != []
      modifies this`dead
      modifies (set t | t in [deadThreads] + dead)`next, (set t | t in [deadThreads] + dead)`prev
      ensures Queues(ring, deadThreads, dead) && Lists(waitingList, entries, waiters)
      ensures thread == old(dead)[0] && dead == old(dead)[1..]
    {
      ghost var nodes := [deadThreads] + dead;
      assert nodes[0].next == nodes[1] && nodes[1].next == nodes[Succ(1, |nodes|)] && nodes[1].prev == nodes[0];
      thread := deadThreads.next;
      UnlinkList(thread, nodes, 1);
      assert Without(nodes, 1) == [deadThreads] + dead[1..];
      assert Ring(ring) == old(Ring(ring));
      assert Lists(waitingList, entries, waiters) == old(Lists(waitingList, entries, waiters));
      dead := dead[1..];
    }
  }
}
