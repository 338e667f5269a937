/** The end of a process: `quit` with its `exitThread`, and the loop in which the cleaner empties the list of
    dead threads. */
module Cleaners {
  import opened Allocators
  import opened AllocatorRuns
  import opened Lifetimes
  import opened Parties
  import opened Paging
  import opened Processes
  import opened Rings
  import opened Schedulers
  import opened SlotTable
  import Schedules

  /** Where a thread lies in memory, and its stack. */
  datatype Home = Home(address: nat, stack: nat)

  function Homes(dead: seq<Thread>, where: map<Thread, Home>): (hs: seq<Home>)
    requires forall t :: t in dead ==> t in where
    ensures |hs| == |dead|
  {
    if dead == [] then [] else [where[dead[0]]] + Homes(dead[1..], where)
  }

  function ReclaimedAll(slots: seq<Slot>, hs: seq<Home>): seq<Slot>
    decreases |hs|
  {
    if hs == [] then slots else ReclaimedAll(Reclaimed(slots, hs[0].address, hs[0].stack), hs[1..])
  }

  predicate CanReclaimAll(slots: seq<Slot>, hs: seq<Home>)
    decreases |hs|
  {
    hs == []
    || (CanReclaim(slots, hs[0].address, hs[0].stack)
        && CanReclaimAll(Reclaimed(slots, hs[0].address, hs[0].stack), hs[1..]))
  }

  /** One pass of the cleaner's loop. */
  method CleanOne(s: Scheduler, a: Allocator, where: map<Thread, Home>, ghost limit: nat, ghost room: nat)
    requires s.Valid() && s.dead != [] && a.Valid() && Ready(a, limit, room)
    requires s.dead[0] in where && CanReclaim(a.Contents(), where[s.dead[0]].address, where[s.dead[0]].stack)
    modifies s`dead, a, a.table
    modifies (set t | t in [s.deadThreads] + s.dead)`next, (set t | t in [s.deadThreads] + s.dead)`prev
    ensures s.Valid() && s.Abs() == Schedules.Take(old(s.Abs()))
    ensures a.Valid() && Ready(a, limit, room + 2)
    ensures var home := where[old(s.dead)[0]]; a.Contents() == Reclaimed(old(a.Contents()), home.address, home.stack)
  {
    var thread := TakeOne(s, a, limit, room);
    FreeHome(s, a, where[thread], limit, room);
  }

  method TakeOne(s: Scheduler, a: Allocator, ghost limit: nat, ghost room: nat) returns (thread: Thread)
    requires s.Valid() && s.dead != [] && a.Valid() && Ready(a, limit, room)
    modifies s`dead
    modifies (set t | t in [s.deadThreads] + s.dead)`next, (set t | t in [s.deadThreads] + s.dead)`prev
    ensures s.Valid() && thread == old(s.dead)[0] && s.Abs() == Schedules.Take(old(s.Abs()))
    ensures a.Valid() && Ready(a, limit, room) && a.Contents() == old(a.Contents())
  {
    thread := s.TakeDead();
  }

  method FreeHome(s: Scheduler, a: Allocator, home: Home, ghost limit: nat, ghost room: nat)
    requires s.Valid() && a.Valid() && Ready(a, limit, room) && CanReclaim(a.Contents(), home.address, home.stack)
    modifies a, a.table
    ensures s.Valid() && s.Abs() == old(s.Abs())
    ensures a.Valid() && Ready(a, limit, room + 2)
    ensures a.Contents() == Reclaimed(old(a.Contents()), home.address, home.stack)
  {
    Reclaim(a, home.address, home.stack, limit, room);
  }

  /** The list is empty just when its head points to itself. */
  lemma DeadHead(s: Scheduler)
    requires s.Valid()
    ensures s.dead == [] <==> s.deadThreads.next == s.deadThreads
  {
    var nodes := [s.deadThreads] + s.dead;
    assert nodes[0].next == nodes[Succ(0, |nodes|)];
    assert s.dead != [] ==> nodes[1] != nodes[0];
  }

  /** What is left to do when `slots` is the table and `dead` the list. */
  ghost predicate CanClean(slots: seq<Slot>, dead: seq<Thread>, where: map<Thread, Home>) {
    (forall t :: t in dead ==> t in where) && CanReclaimAll(slots, Homes(dead, where))
  }

  lemma CleanStep(slots: seq<Slot>, dead: seq<Thread>, where: map<Thread, Home>)
    requires CanClean(slots, dead, where) && dead != []
    ensures var home := where[dead[0]];
            && CanReclaim(slots, home.address, home.stack)
            && CanClean(Reclaimed(slots, home.address, home.stack), dead[1..], where)
            && ReclaimedAll(slots, Homes(dead, where))
               == ReclaimedAll(Reclaimed(slots, home.address, home.stack), Homes(dead[1..], where))
  {
    assert Homes(dead, where)[1..] == Homes(dead[1..], where);
  }

  /** The cleaner's loop: one dead thread after the other is taken off the list, and its two blocks freed. */
  method Clean(s: Scheduler, a: Allocator, where: map<Thread, Home>, ghost limit: nat, ghost room: nat)
    requires s.Valid() && a.Valid() && Ready(a, limit, room) && CanClean(a.Contents(), s.dead, where)
    modifies s`dead, a, a.table
    modifies (set t | t in [s.deadThreads] + s.dead)`next, (set t | t in [s.deadThreads] + s.dead)`prev
    ensures s.Valid() && s.Abs() == old(s.Abs()).(dead := [])
    ensures a.Valid() && Ready(a, limit, room + 2 * |old(s.dead)|)
    ensures a.Contents() == ReclaimedAll(old(a.Contents()), Homes(old(s.dead), where))
  {
    ghost var n, all, end := 0, s.dead, ReclaimedAll(a.Contents(), Homes(s.dead, where));
    ghost var abs := s.Abs();
    DeadHead(s);
    while s.deadThreads.next != s.deadThreads
      invariant s.Valid() && n <= |all| && s.dead == all[n..] && s.Abs() == abs.(dead := s.dead)
      invariant s.dead == [] <==> s.deadThreads.next == s.deadThreads
      invariant a.Valid() && Ready(a, limit, room + 2 * n) && CanClean(a.Contents(), s.dead, where)
      invariant ReclaimedAll(a.Contents(), Homes(s.dead, where)) == end
      decreases |s.dead|
    {
      CleanStep(a.Contents(), s.dead, where);
      CleanOne(s, a, where, limit, room + 2 * n);
      n := n + 1;
      DeadHead(s);
    }
  }

  // ---------- the dead threads' blocks ----------

  /** The two blocks of every home, each of them once among the live blocks `h`. */
  ghost predicate AllHeld(h: map<nat, nat>, hs: seq<Home>)
    decreases |hs|
  {
    hs == []
    || (var b := hs[0];
        && b.stack in h && h[b.stack] == b.stack + STACK_SIZE
        && b.address in h && h[b.address] == b.address + THREAD_SIZE && b.address != b.stack
        && AllHeld(h - {b.stack} - {b.address}, hs[1..]))
  }

  function Block(start: nat, size: nat): multiset<(nat, nat)> {
    multiset{(start, start + size)}
  }

  function BothBlocks(b: Home): multiset<(nat, nat)> {
    Block(b.stack, STACK_SIZE) + Block(b.address, THREAD_SIZE)
  }

  function HomeRecords(hs: seq<Home>): multiset<(nat, nat)> {
    if hs == [] then multiset{} else BothBlocks(hs[0]) + HomeRecords(hs[1..])
  }

  /** The cleaner's loop frees just the blocks of the threads that were dead. */
  lemma {:induction false} ExactlyTheDead(s: State, h: map<nat, nat>, hs: seq<Home>)
    requires Inv(s) && Nonempty(s) && AllLive(s, h) && AllHeld(h, hs)
    ensures CanReclaimAll(s.slots, hs)
    ensures Records(ReclaimedAll(s.slots, hs)) + HomeRecords(hs) == Records(s.slots)
    decreases |hs|
  {
    if hs != [] {
      var b := hs[0];
      var u, gone := FreedHome(s, h, b);
      ExactlyTheDead(u, h - {b.stack} - {b.address}, hs[1..]);
      ReclaimStep(s.slots, hs, u.slots);
      Summed(Records(ReclaimedAll(u.slots, hs[1..])), HomeRecords(hs[1..]), Records(u.slots), Records(s.slots), gone);
    }
  }

  lemma FreedHome(s: State, h: map<nat, nat>, b: Home) returns (u: State, gone: multiset<(nat, nat)>)
    requires Inv(s) && Nonempty(s) && AllLive(s, h)
    requires b.stack in h && h[b.stack] == b.stack + STACK_SIZE
    requires b.address in h && h[b.address] == b.address + THREAD_SIZE && b.address != b.stack
    ensures CanReclaim(s.slots, b.address, b.stack) && u.slots == Reclaimed(s.slots, b.address, b.stack)
    ensures Inv(u) && Nonempty(u) && AllLive(u, h - {b.stack} - {b.address})
    ensures gone == BothBlocks(b) && Records(u.slots) + gone == Records(s.slots)
  {
    var t, one := FreedRecord(s, h, b.stack, STACK_SIZE);
    var two;
    u, two := FreedRecord(t, h - {b.stack}, b.address, THREAD_SIZE);
    gone := one + two;
    Summed(Records(u.slots), two, Records(t.slots), Records(s.slots), one);
  }

  lemma ReclaimStep(slots: seq<Slot>, hs: seq<Home>, after: seq<Slot>)
    requires hs != [] && CanReclaim(slots, hs[0].address, hs[0].stack)
    requires after == Reclaimed(slots, hs[0].address, hs[0].stack) && CanReclaimAll(after, hs[1..])
    ensures CanReclaimAll(slots, hs) && ReclaimedAll(slots, hs) == ReclaimedAll(after, hs[1..])
  {
  }

  lemma FreedRecord(s: State, h: map<nat, nat>, p: nat, size: nat) returns (t: State, gone: multiset<(nat, nat)>)
    requires Inv(s) && Nonempty(s) && AllLive(s, h) && p in h && h[p] == p + size
    ensures Finds(s.slots, p) && t.slots == Freed(s.slots, p)
    ensures Inv(t) && Nonempty(t) && AllLive(t, h - {p})
    ensures gone == Block(p, size) && Records(t.slots) + gone == Records(s.slots)
  {
    HeldFinds(s, h, p);
    t := Apply(s, Unallocate(p));
    UnallocateKeeps(s, p);
    FreeLive(s, p, h, t);
    RecordsStep(s, Unallocate(p));
    gone := Block(p, size);
  }

  lemma Summed<X>(end: multiset<X>, rest: multiset<X>, u: multiset<X>, s: multiset<X>, gone: multiset<X>)
    requires end + rest == u && u + gone == s
    ensures end + (gone + rest) == s
  {
    assert end + (gone + rest) == (end + rest) + gone;
  }

  // ---------- the end of a process ----------

  /** `quit`, its `exitThread` included. */
  method QuitAndExit(a: Allocator, mem: array<nat>, current: Current, s: Scheduler, ghost p: Process, ghost size: nat,
                     ghost mainPdpt: nat, ghost limit: nat, ghost room: nat)
    requires a.Valid() && Ready(a, limit, room) && Running(p, size, mem, mainPdpt) && CanQuit(a.Contents(), p)
    requires current.cr3 == p.table && current.symbols == p.symbols
    requires s.Valid() && Schedules.CanExit(s.Abs()) && s.threads != s.currentThread
    requires forall w :: w in s.waiters ==> w.thread != s.currentThread
    modifies a, a.table
    modifies s`entries, s`waiters, s`ring, s`dead, s`currentThread
    modifies (set e | e in [s.waitingList] + s.entries)`next, (set e | e in [s.waitingList] + s.entries)`prev
    modifies s.ring, (set t | t in [s.deadThreads] + s.dead)`next, (set t | t in [s.deadThreads] + s.dead)`prev
    ensures a.Valid() && Ready(a, limit, room + 2) && a.Contents() == Quitted(old(a.Contents()), p)
    ensures s.Valid() && s.Abs() == Schedules.Exit(old(s.Abs()))
  {
    FreeImage(a, mem, current, s, p, size, mainPdpt, limit, room);
    Leave(a, s, limit, room + 2);
  }

  method FreeImage(a: Allocator, mem: array<nat>, current: Current, s: Scheduler, ghost p: Process, ghost size: nat,
                   ghost mainPdpt: nat, ghost limit: nat, ghost room: nat)
    requires a.Valid() && Ready(a, limit, room) && Running(p, size, mem, mainPdpt) && CanQuit(a.Contents(), p)
    requires current.cr3 == p.table && current.symbols == p.symbols && s.Valid()
    modifies a, a.table
    ensures a.Valid() && Ready(a, limit, room + 2) && a.Contents() == Quitted(old(a.Contents()), p)
    ensures s.Valid() && s.Abs() == old(s.Abs())
  {
    Quit(a, mem, current, p, size, mainPdpt, limit, room);
  }

  method Leave(a: Allocator, s: Scheduler, ghost limit: nat, ghost room: nat)
    requires a.Valid() && Ready(a, limit, room)
    requires s.Valid() && Schedules.CanExit(s.Abs()) && s.threads != s.currentThread
    requires forall w :: w in s.waiters ==> w.thread != s.currentThread
    modifies s`entries, s`waiters, s`ring, s`dead, s`currentThread
    modifies (set e | e in [s.waitingList] + s.entries)`next, (set e | e in [s.waitingList] + s.entries)`prev
    modifies s.ring, (set t | t in [s.deadThreads] + s.dead)`next, (set t | t in [s.deadThreads] + s.dead)`prev
    ensures a.Valid() && Ready(a, limit, room) && a.Contents() == old(a.Contents())
    ensures s.Valid() && s.Abs() == Schedules.Exit(old(s.Abs()))
  {
    NoNode(a, s);
    s.ExitThread();
    assert unchanged(a);
    assert unchanged(a.table);
  }

  /** The allocator is no node of the scheduler's lists. */
  lemma NoNode(a: Allocator, s: Scheduler)
    ensures forall e :: e in [s.waitingList] + s.entries ==> (e as object) != a && (e as object) != a.table
    ensures forall t :: t in s.ring ==> (t as object) != a && (t as object) != a.table
    ensures forall t :: t in [s.deadThreads] + s.dead ==> (t as object) != a && (t as object) != a.table
  {
  }

  /** A lifetime with nothing in between: `execute`, then, when the thread it made is the current one, `quit`,
      and the cleaner's loop. Every start is live as often as before; with no empty block live before, the
      records are what they were, except in the one case `Misfrees` describes. */
  method Lifetime(a: Allocator, mem: array<nat>, current: Current, s: Scheduler, mainPdpt: nat, x: Image,
                  ghost limit: nat, ghost room: nat)
    requires a.Valid() && Ready(a, limit, room) && room >= 6 && Roomy(mem, limit, x)
    requires s.Valid() && Schedules.CanExit(s.Abs()) && s.threads != s.currentThread && s.dead == []
    requires forall w :: w in s.waiters ==> w.thread != s.currentThread
    modifies a, a.table, mem, current
    modifies s`entries, s`waiters, s`ring, s`dead, s`currentThread
    modifies (set e | e in [s.waitingList] + s.entries)`next, (set e | e in [s.waitingList] + s.entries)`prev
    modifies s.ring, (set t | t in [s.deadThreads] + s.dead)`next, (set t | t in [s.deadThreads] + s.dead)`prev
    ensures a.Valid() && Starts(a.Contents()) == Starts(old(a.Contents()))
    ensures NoneEmpty(old(a.Contents())) ==>
              (Records(a.Contents()) == Records(old(a.Contents())) <==> !Misfrees(old(a.Contents()), x))
    ensures s.Valid() && s.Abs() == Schedules.Exit(old(s.Abs())).(dead := [])
  {
    ghost var before := a.Contents();
    LifetimeKeepsStarts(before, x);
    RunToEnd(a, mem, current, s, mainPdpt, x, limit, room);
    if NoneEmpty(before) {
      LifetimeNeutralExactlyWhen(before, x);
    }
  }

  method RunToEnd(a: Allocator, mem: array<nat>, current: Current, s: Scheduler, mainPdpt: nat, x: Image,
                  ghost limit: nat, ghost room: nat)
    requires a.Valid() && Ready(a, limit, room) && room >= 6 && Roomy(mem, limit, x)
    requires s.Valid() && Schedules.CanExit(s.Abs()) && s.threads != s.currentThread && s.dead == []
    requires forall w :: w in s.waiters ==> w.thread != s.currentThread
    requires CanEnd(a.Contents(), x)
    modifies a, a.table, mem, current
    modifies s`entries, s`waiters, s`ring, s`dead, s`currentThread
    modifies (set e | e in [s.waitingList] + s.entries)`next, (set e | e in [s.waitingList] + s.entries)`prev
    modifies s.ring, (set t | t in [s.deadThreads] + s.dead)`next, (set t | t in [s.deadThreads] + s.dead)`prev
    ensures a.Valid() && a.Contents() == Ended(old(a.Contents()), x)
    ensures s.Valid() && s.Abs() == Schedules.Exit(old(s.Abs())).(dead := [])
  {
    var p := Begin(a, mem, current, s, mainPdpt, x, limit, room);
    ghost var higher := Reach(limit, x);
    var thread := s.currentThread;
    QuitAndExit(a, mem, current, s, p, x.size, mainPdpt, higher, room - 5);
    CleanLast(s, a, thread, Home(p.thread, p.stack), higher, room - 3);
  }

  /** `execute`, and the switch to the new process's table and symbols. */
  method Begin(a: Allocator, mem: array<nat>, current: Current, s: Scheduler, mainPdpt: nat, x: Image,
               ghost limit: nat, ghost room: nat)
    returns (p: Process)
    requires a.Valid() && Ready(a, limit, room) && room >= 6 && Roomy(mem, limit, x) && s.Valid()
    modifies a, a.table, mem, current
    ensures a.Valid() && p == Blocks(old(a.Contents()), x) && a.Contents() == Executed(old(a.Contents()), x)
    ensures Ready(a, Reach(limit, x), room - 5) && Running(p, x.size, mem, mainPdpt)
    ensures current.cr3 == p.table && current.symbols == p.symbols
    ensures s.Valid() && s.Abs() == old(s.Abs())
  {
    p := Enter(a, mem, current, mainPdpt, x, limit, room);
  }

  /** The cleaner's loop when one thread is dead. */
  method CleanLast(s: Scheduler, a: Allocator, thread: Thread, home: Home, ghost limit: nat, ghost room: nat)
    requires s.Valid() && s.dead == [thread] && a.Valid() && Ready(a, limit, room)
    requires CanReclaim(a.Contents(), home.address, home.stack)
    modifies s`dead, a, a.table
    modifies (set t | t in [s.deadThreads] + s.dead)`next, (set t | t in [s.deadThreads] + s.dead)`prev
    ensures s.Valid() && s.Abs() == old(s.Abs()).(dead := [])
    ensures a.Valid() && a.Contents() == Reclaimed(old(a.Contents()), home.address, home.stack)
  {
    OneHome(a.Contents(), thread, home);
    Clean(s, a, map[thread := home], limit, room);
  }

  lemma OneHome(slots: seq<Slot>, thread: Thread, home: Home)
    requires CanReclaim(slots, home.address, home.stack)
    ensures var hs := Homes([thread], map[thread := home]);
            && CanReclaimAll(slots, hs) && ReclaimedAll(slots, hs) == Reclaimed(slots, home.address, home.stack)
  {
    var hs := Homes([thread], map[thread := home]);
    assert hs[0] == home && hs[1..] == [];
  }
}
