/** The sleeping list and timer registers of os/src/hpet.c, updated in place. Every method's effect is
    the operation of the same meaning in `Deadlines`. */
module Hpets {
  import opened Rings
  import opened Words
  import opened Deadlines
  import opened Schedulers

  type Node = Link<Sleeper<Thread>>

  class Hpet {
    const femtosecondsPerTick: nat
    const sleepingList: Node
    var counter: nat     // HPET_COUNTER, advanced by the hardware
    var comparator: nat  // HPET_TIMER_VALUE
    ghost var nodes: seq<Node>
    ghost var sleepers: seq<Sleeper<Thread>>

    ghost predicate Valid()
      reads this, (set n | n in [sleepingList] + nodes)`next, (set n | n in [sleepingList] + nodes)`prev
      reads (set n | n in nodes)`data
    {
      && femtosecondsPerTick > 0
      && Ring([sleepingList] + nodes) && Contains(nodes, sleepers) && Abs().Valid()
    }

    ghost function Abs(): State<Thread>
      reads this
    {
      State(sleepers, counter, comparator)
    }

    static ghost predicate Contains(nodes: seq<Node>, sleepers: seq<Sleeper<Thread>>)
      reads (set n | n in nodes)`data
    {
      |sleepers| == |nodes| && forall i :: 0 <= i < |nodes| ==> nodes[i].data == sleepers[i]
    }

    constructor (period: nat, boot: Thread)
      requires period > 0
      ensures Valid() && sleepers == [] && femtosecondsPerTick == period
    {
      var list := new Link(Sleeper(0, boot));
      sleepingList, femtosecondsPerTick, counter, comparator := list, period, 0, 0;
      nodes, sleepers := [], [];
      assert [list] + [] == [list];
    }

    /** The comparison of `updateTimer`: two differences in 64 bits. */
    static function Sooner(time: nat, other: nat, value: nat): (sooner: bool)
      requires time < WORD && other < WORD && value < WORD
      ensures sooner <==> Ahead(time, value) < Ahead(other, value)
    {
      DifferenceIsAhead(time, value);
      DifferenceIsAhead(other, value);
      Wrap(time - value) < Wrap(other - value)
    }

    static lemma DifferenceIsAhead(time: nat, counter: nat)
      requires time < WORD && counter < WORD
      ensures Wrap(time - counter) == Ahead(time, counter)
    {
      if time < counter {
        WrapMultiple(time - counter, 1);
      }
    }

    /** The node the scan reaches at position `i` of the list. */
    ghost function At(i: nat): Node
      reads this
      requires i <= |nodes|
    {
      if i == |nodes| then sleepingList else nodes[i]
    }

    lemma Walk(i: nat)
      requires Valid() && i < |nodes|
      ensures nodes[i].next == At(i + 1) && nodes[i] != sleepingList && sleepingList.next == At(0)
      ensures nodes[i].data == sleepers[i]
    {
      var ring := [sleepingList] + nodes;
      assert ring[i + 1].next == ring[Succ(i + 1, |ring|)];
      assert ring[0].next == ring[Succ(0, |ring|)];
      assert ring[0] != ring[i + 1];
    }

    lemma WalkEmpty()
      requires Valid()
      ensures sleepingList.next == At(0)
    {
      var ring := [sleepingList] + nodes;
      assert ring[0].next == ring[Succ(0, |ring|)];
    }

    /** All a forward scan of the list relies on. */
    ghost predicate Walkable()
      reads this, sleepingList`next, (set n | n in nodes)`next, (set n | n in nodes)`data
    {
      && Abs().Valid() && |sleepers| == |nodes| && sleepingList.next == At(0)
      && forall i :: 0 <= i < |nodes| ==>
           nodes[i].next == At(i + 1) && nodes[i] != sleepingList && nodes[i].data == sleepers[i]
    }

    lemma IsWalkable()
      requires Valid()
      ensures Walkable()
    {
      WalkEmpty();
      forall i | 0 <= i < |nodes|
        ensures nodes[i].next == At(i + 1) && nodes[i] != sleepingList && nodes[i].data == sleepers[i]
      {
        Walk(i);
      }
    }

    method Nearest() returns (soonest: Link?<Sleeper<Thread>>)
      requires Valid()
      ensures if sleepers == [] then soonest == null
              else soonest != null && soonest.data == sleepers[Deadlines.Soonest(sleepers, counter)]
    {
      IsWalkable();
      soonest := NearestOnWalk();
    }

    /** The scan of `updateTimer`. */
    method NearestOnWalk() returns (soonest: Link?<Sleeper<Thread>>)
      requires Walkable()
      ensures if sleepers == [] then soonest == null
              else soonest != null && soonest.data == sleepers[Deadlines.Soonest(sleepers, counter)]
    {
      var value := counter;
      soonest := null;
      var entry := sleepingList.next;
      ghost var i, k := 0, 0;
      while entry != sleepingList
        invariant k <= i <= |nodes| && entry == At(i)
        invariant if i == 0 then soonest == null else k < i && soonest == nodes[k] && Leads(i, k)
        decreases |nodes| - i
      {
        LeadsStep(i, k);
        if soonest == null || Sooner(entry.data.time, soonest.data.time, value) {
          soonest, k := entry, i;
        }
        entry, i := entry.next, i + 1;
      }
      if i > 0 {
        SoonestIs(sleepers, k, counter);
      }
    }

    /** Among the first `i` sleepers the `k`th is the first that no other is ahead of. */
    ghost predicate Leads(i: nat, k: nat)
      reads this
      requires Abs().Valid() && i <= |sleepers|
    {
      && k < i
      && (forall j :: 0 <= j < i ==> Ahead(sleepers[k].time, counter) <= Ahead(sleepers[j].time, counter))
      && (forall j :: 0 <= j < k ==> Ahead(sleepers[k].time, counter) < Ahead(sleepers[j].time, counter))
    }

    lemma LeadsStep(i: nat, k: nat)
      requires Abs().Valid() && k <= i < |sleepers| && (i > 0 ==> Leads(i, k))
      ensures i == 0 ==> Leads(1, 0)
      ensures i > 0 ==>
                Leads(i + 1, if Ahead(sleepers[i].time, counter) < Ahead(sleepers[k].time, counter) then i else k)
    {
    }

    /** `updateTimer`: the comparator takes the deadline the counter reaches first. */
    method UpdateTimer()
      requires Valid()
      modifies this`comparator
      ensures Valid() && Abs() == Update(old(Abs()))
    {
      UpdateValid(Abs());
      var soonest := Nearest();
      if soonest != null {
        comparator := soonest.data.time;
      }
    }

    lemma EndOfWalk(i: nat)
      requires Valid() && i <= |nodes| && At(i) == sleepingList
      ensures i == |nodes|
    {
      if i < |nodes| {
        Walk(i);
      }
    }

    /** Takes a node off the list and clears its thread's waiting flag: the common end of `hpet` and
        `cancelWait`. */
    method Release(entry: Node, ghost k: nat)
      requires Valid() && k < |nodes| && nodes[k] == entry
      modifies this`nodes, this`sleepers, this`comparator, entry.prev`next, entry.next`prev, entry.data.thread`data
      ensures Valid() && Abs() == Drop(old(Abs()), k)
      ensures sleepers == old(sleepers)[..k] + old(sleepers)[k + 1..]
      ensures old(entry.data.thread).data == old(entry.data.thread.data).(waiting := false)
    {
      entry.data.thread.data := entry.data.thread.data.(waiting := false);
      Remove(entry, k);
      UpdateTimer();
    }

    method Remove(entry: Node, ghost k: nat)
      requires Valid() && k < |nodes| && nodes[k] == entry
      modifies this`nodes, this`sleepers, entry.prev`next, entry.next`prev
      ensures Valid() && Abs() == old(Abs()).(sleepers := Without(old(sleepers), k))
    {
      ghost var ring := [sleepingList] + nodes;
      assert ring[k + 1] == entry;
      UnlinkList(entry, ring, k + 1);
      WithoutTail(sleepingList, nodes, k);
      ContainsWithout(nodes, sleepers, k);
      nodes, sleepers := Without(nodes, k), Without(sleepers, k);
    }

    static lemma WithoutTail(head: Node, rest: seq<Node>, k: nat)
      requires k < |rest|
      ensures Without([head] + rest, k + 1) == [head] + Without(rest, k)
    {
    }

    static lemma ContainsWithout(nodes: seq<Node>, sleepers: seq<Sleeper<Thread>>, k: nat)
      requires Contains(nodes, sleepers) && k < |nodes|
      ensures Contains(Without(nodes, k), Without(sleepers, k))
      ensures forall i :: 0 <= i < |sleepers| - 1 ==> Without(sleepers, k)[i] == sleepers[Before(k, i)]
    {
      forall i | 0 <= i < |nodes| - 1
        ensures Without(nodes, k)[i].data == Without(sleepers, k)[i] == sleepers[Before(k, i)]
      {
        Kept(nodes, k, i);
        Kept(sleepers, k, i);
        assert nodes[Before(k, i)].data == sleepers[Before(k, i)];
      }
    }

    method Insert(entry: Node)
      requires Valid() && entry != sleepingList && entry !in nodes && entry.data.time < WORD
      modifies this`nodes, this`sleepers, sleepingList`prev, sleepingList.prev`next, entry`next, entry`prev
      ensures Valid() && Abs() == old(Abs()).(sleepers := old(sleepers) + [entry.data])
    {
      ghost var ring := [sleepingList] + nodes;
      assert ring[0].prev == ring[Pred(0, |ring|)];
      LinkList(sleepingList, entry, ring);
      assert ring + [entry] == [sleepingList] + (nodes + [entry]);
      nodes, sleepers := nodes + [entry], sleepers + [entry.data];
    }

    lemma Neighbours(k: nat)
      requires Valid() && k < |nodes|
      ensures nodes[k].prev in [sleepingList] + nodes && nodes[k].next in [sleepingList] + nodes
      ensures nodes[k].data == sleepers[k] && sleepers[k] in sleepers
    {
      var ring := [sleepingList] + nodes;
      assert ring[k + 1].prev == ring[Pred(k + 1, |ring|)] && ring[k + 1].next == ring[Succ(k + 1, |ring|)];
    }

    /** `hpet`: on a match, the first sleeper with that deadline is released. */
    method Interrupt()
      requires Valid()
      modifies this`nodes, this`sleepers, this`comparator
      modifies (set n | n in [sleepingList] + nodes)`next, (set n | n in [sleepingList] + nodes)`prev
      modifies (set w | w in sleepers :: w.thread)`data
      ensures Valid() && Abs() == Fire(old(Abs()))
      // the first sleeper whose time the comparator shows is taken off the list and runs again
      ensures if exists w :: w in old(sleepers) && w.time == old(comparator) then
                exists k :: 0 <= k < |old(sleepers)| && old(sleepers)[k].time == old(comparator)
                            && (forall j :: 0 <= j < k ==> old(sleepers)[j].time != old(comparator))
                            && sleepers == old(sleepers)[..k] + old(sleepers)[k + 1..]
              else sleepers == old(sleepers) && comparator == old(comparator)
      ensures var k := FirstAt(old(sleepers), old(comparator));
              k < |old(sleepers)| ==> old(sleepers)[k].thread.data == old(sleepers[k].thread.data).(waiting := false)
    {
      var entry, k := FindTime(comparator);
      if entry != sleepingList {
        Neighbours(k);
        Release(entry, k);
      }
    }

    /** The scan of `hpet`: the first node with this deadline, or the head. */
    method FindTime(value: nat) returns (entry: Node, ghost k: nat)
      requires Valid()
      ensures entry == At(FirstAt(sleepers, value)) && k == FirstAt(sleepers, value)
      ensures entry == sleepingList ==> k == |nodes|
    {
      WalkEmpty();
      entry, k := sleepingList.next, 0;
      while entry != sleepingList && entry.data.time != value
        invariant k <= |nodes| && entry == At(k)
        invariant forall j :: 0 <= j < k ==> sleepers[j].time != value
        decreases |nodes| - k
      {
        Walk(k);
        entry := entry.next;
        k := k + 1;
      }
      if entry == sleepingList {
        EndOfWalk(k);
      } else {
        Walk(k);
      }
    }

    /** `waitFemtoseconds`, linking and `updateTimer` taken as one step: the caller is listed behind the others,
        to be woken after as many ticks as fit into the time, and marked. The dispatch that follows is
        `Schedulers.Scheduler.NextThread`. */
    method WaitFemtoseconds(femtoseconds: nat, currentThread: Thread) returns (ghost ticks: nat)
      requires Valid() && femtoseconds < WORD
      modifies this`nodes, this`sleepers, this`comparator
      modifies sleepingList`prev, sleepingList.prev`next, currentThread`data
      ensures ticks * femtosecondsPerTick <= femtoseconds < (ticks + 1) * femtosecondsPerTick && ticks < WORD
      ensures Valid() && Abs() == Sleep(old(Abs()), currentThread, ticks)
      ensures sleepers == old(sleepers) + [Sleeper(Wrap(ticks + counter), currentThread)]
      ensures currentThread.data == old(currentThread.data).(waiting := true)
    {
      ticks := Ticks(femtoseconds);
      SleepFor(Ticks(femtoseconds), currentThread);
    }

    method SleepFor(ticks: nat, currentThread: Thread)
      requires Valid() && ticks < WORD
      modifies this`nodes, this`sleepers, this`comparator
      modifies sleepingList`prev, sleepingList.prev`next, currentThread`data
      ensures Valid() && Abs() == Sleep(old(Abs()), currentThread, ticks)
      ensures sleepers == old(sleepers) + [Sleeper(Wrap(ticks + counter), currentThread)]
      ensures currentThread.data == old(currentThread.data).(waiting := true)
    {
      ghost var before := Abs();
      EnlistAndMark(Wrap(ticks + counter), currentThread);
      assert Abs() == Listed(before, currentThread, ticks);
      UpdateTimer();
    }

    method EnlistAndMark(time: nat, thread: Thread)
      requires Valid() && time < WORD
      modifies this`nodes, this`sleepers, sleepingList`prev, sleepingList.prev`next, thread`data
      ensures Valid() && Abs() == old(Abs()).(sleepers := old(sleepers) + [Sleeper(time, thread)])
      ensures thread.data == old(thread.data).(waiting := true)
    {
      ListSleeper(time, thread);
      Mark(thread);
    }

    /** The whole ticks in a time. */
    function Ticks(femtoseconds: nat): (ticks: nat)
      requires femtosecondsPerTick > 0
      ensures ticks * femtosecondsPerTick <= femtoseconds < (ticks + 1) * femtosecondsPerTick && ticks <= femtoseconds
    {
      Words.QuotientSmaller(femtoseconds, femtosecondsPerTick);
      WholeTicks(femtoseconds, femtosecondsPerTick);
      femtoseconds / femtosecondsPerTick
    }

    static lemma WholeTicks(f: nat, period: nat)
      requires period > 0
      ensures f / period * period <= f < (f / period + 1) * period
    {
      assert f == period * (f / period) + f % period;
    }

    method ListSleeper(time: nat, thread: Thread)
      requires Valid() && time < WORD
      modifies this`nodes, this`sleepers, sleepingList`prev, sleepingList.prev`next
      ensures Valid() && Abs() == old(Abs()).(sleepers := old(sleepers) + [Sleeper(time, thread)])
    {
      var entry := new Link(Sleeper(time, thread));
      Insert(entry);
    }

    method Mark(thread: Thread)
      requires Valid()
      modifies thread`data
      ensures Valid() && Abs() == old(Abs()) && thread.data == old(thread.data).(waiting := true)
    {
      thread.data := thread.data.(waiting := true);
    }

    /** `cancelWait` on a thread that sleeps: its entry is released before its time. */
    method CancelWait(id: nat)
      requires Valid() && exists w :: w in sleepers && w.thread.data.id == id
      modifies this`nodes, this`sleepers, this`comparator
      modifies (set n | n in [sleepingList] + nodes)`next, (set n | n in [sleepingList] + nodes)`prev
      modifies (set w | w in sleepers :: w.thread)`data
      ensures Valid()
      ensures exists k :: 0 <= k < |old(sleepers)| && old(sleepers[k].thread.data.id) == id
                          && (forall j :: 0 <= j < k ==> old(sleepers[j].thread.data.id) != id)
                          && Abs() == Drop(old(Abs()), k) && sleepers == old(sleepers)[..k] + old(sleepers)[k + 1..]
                          && old(sleepers)[k].thread.data == old(sleepers[k].thread.data).(waiting := false)
    {
      var entry, k := FindThread(id);
      Neighbours(k);
      Release(entry, k);
    }

    /** The scan of `cancelWait`: the first node of a thread with this id. */
    method FindThread(id: nat) returns (entry: Node, ghost k: nat)
      requires Valid() && exists w :: w in sleepers && w.thread.data.id == id
      ensures entry in nodes && entry.data.thread.data.id == id
      ensures k < |nodes| && entry == nodes[k] && sleepers[k].thread.data.id == id
      ensures forall j :: 0 <= j < k ==> sleepers[j].thread.data.id != id
    {
      WalkEmpty();
      entry, k := sleepingList.next, 0;
      while entry != sleepingList
        invariant k <= |nodes| && entry == At(k)
        invariant forall j :: 0 <= j < k ==> sleepers[j].thread.data.id != id
        decreases |nodes| - k
      {
        Walk(k);
        if entry.data.thread.data.id == id {
          return;
        }
        entry := entry.next;
        k := k + 1;
      }
      EndOfWalk(k);
      assert false;
    }
  }
}
