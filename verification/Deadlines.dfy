/** The sleeping list and the timer's comparator as values, against a 64-bit counter that wraps. */
module Deadlines {
  import opened Rings
  import opened Words

  datatype Sleeper<T> = Sleeper(time: nat, thread: T)

  datatype State<T> = State(sleepers: seq<Sleeper<T>>, counter: nat, comparator: nat) {
    predicate Valid() {
      counter < WORD && comparator < WORD && forall i :: 0 <= i < |sleepers| ==> sleepers[i].time < WORD
    }
  }

  /** Ticks from `counter` until the counter next shows `time`: `time - counter` in 64 bits. */
  function Ahead(time: nat, counter: nat): (d: nat)
    requires time < WORD && counter < WORD
    ensures d < WORD
  {
    if time >= counter then time - counter else WORD + time - counter
  }

  /** The entry the scan of `updateTimer` settles on: the first one no other is ahead of. */
  function Soonest<T>(ss: seq<Sleeper<T>>, counter: nat): (k: nat)
    requires ss != [] && counter < WORD && forall i :: 0 <= i < |ss| ==> ss[i].time < WORD
    ensures k < |ss|
    ensures forall i :: 0 <= i < |ss| ==> Ahead(ss[k].time, counter) <= Ahead(ss[i].time, counter)
    ensures forall i :: 0 <= i < k ==> Ahead(ss[k].time, counter) < Ahead(ss[i].time, counter)
  {
    var n := |ss| - 1;
    if n == 0 then 0
    else
      var k := Soonest(ss[..n], counter);
      assert ss[..n][k] == ss[k];
      assert forall i :: 0 <= i < n ==> ss[..n][i] == ss[i];
      if Ahead(ss[n].time, counter) < Ahead(ss[k].time, counter) then n else k
  }

  /** Only one entry can be the first that no other is ahead of. */
  lemma SoonestIs<T>(ss: seq<Sleeper<T>>, k: nat, counter: nat)
    requires counter < WORD && k < |ss| && forall i :: 0 <= i < |ss| ==> ss[i].time < WORD
    requires forall i :: 0 <= i < |ss| ==> Ahead(ss[k].time, counter) <= Ahead(ss[i].time, counter)
    requires forall i :: 0 <= i < k ==> Ahead(ss[k].time, counter) < Ahead(ss[i].time, counter)
    ensures Soonest(ss, counter) == k
  {
    var j := Soonest(ss, counter);
    assert Ahead(ss[j].time, counter) == Ahead(ss[k].time, counter);
  }

  function Update<T>(s: State<T>): State<T>
    requires s.Valid()
  {
    if s.sleepers == [] then s else s.(comparator := s.sleepers[Soonest(s.sleepers, s.counter)].time)
  }

  function FirstAt<T>(ss: seq<Sleeper<T>>, time: nat): (k: nat)
    ensures k <= |ss|
    ensures forall i :: 0 <= i < k ==> ss[i].time != time
    ensures k < |ss| ==> ss[k].time == time
  {
    if ss == [] || ss[0].time == time then 0 else 1 + FirstAt(ss[1..], time)
  }

  /** A thread put on the list, to be woken after `ticks` ticks. */
  function Listed<T>(s: State<T>, thread: T, ticks: nat): (t: State<T>)
    requires s.Valid() && ticks < WORD
    ensures t.Valid()
  {
    s.(sleepers := s.sleepers + [Sleeper(Wrap(ticks + s.counter), thread)])
  }

  /** `waitFemtoseconds`, the division done: the caller sleeps for `ticks`. */
  function Sleep<T>(s: State<T>, thread: T, ticks: nat): State<T>
    requires s.Valid() && ticks < WORD
  {
    Update(Listed(s, thread, ticks))
  }

  function Drop<T>(s: State<T>, k: nat): State<T>
    requires s.Valid() && k < |s.sleepers|
  {
    Update(s.(sleepers := Without(s.sleepers, k)))
  }

  /** The interrupt handler `hpet`. */
  function Fire<T>(s: State<T>): State<T>
    requires s.Valid()
  {
    var k := FirstAt(s.sleepers, s.comparator);
    if k < |s.sleepers| then Drop(s, k) else s
  }

  /** The counter's step, which wraps. */
  function Advanced<T>(s: State<T>): State<T>
    requires s.Valid()
  {
    s.(counter := if s.counter + 1 == WORD then 0 else s.counter + 1)
  }

  /** The counter advances; on a match with the comparator the handler runs. */
  function Tick<T>(s: State<T>): State<T>
    requires s.Valid()
  {
    var t := Advanced(s);
    if t.counter == t.comparator then Fire(t) else t
  }

  lemma UpdateValid<T>(s: State<T>)
    requires s.Valid()
    ensures Update(s).Valid()
  {
  }

  lemma SleepValid<T>(s: State<T>, thread: T, ticks: nat)
    requires s.Valid() && ticks < WORD
    ensures Sleep(s, thread, ticks).Valid()
  {
    UpdateValid(Listed(s, thread, ticks));
  }

  lemma DropValid<T>(s: State<T>, k: nat)
    requires s.Valid() && k < |s.sleepers|
    ensures Drop(s, k).Valid()
  {
    UpdateValid(s.(sleepers := Without(s.sleepers, k)));
  }

  lemma TickValid<T>(s: State<T>)
    requires s.Valid()
    ensures Tick(s).Valid()
  {
    var t := Advanced(s);
    var k := FirstAt(t.sleepers, t.comparator);
    if k < |t.sleepers| {
      DropValid(t, k);
    }
  }

  // ---------- deadlines in real time ----------

  ghost predicate DueIn<T>(s: State<T>, now: nat, due: seq<nat>) {
    && s.Valid() && |due| == |s.sleepers|
    && forall i :: 0 <= i < |due| ==> now < due[i] == now + Ahead(s.sleepers[i].time, s.counter)
  }

  predicate DistinctTimes<T>(ss: seq<Sleeper<T>>) {
    forall i, j :: 0 <= i < j < |ss| ==> ss[i].time != ss[j].time
  }

  /** `now` counts the ticks so far, without wrapping, and `due` holds each sleeper's deadline on that clock: all of
      them lie ahead, less than one wrap away, and the comparator holds the nearest. */
  ghost predicate Armed<T>(s: State<T>, now: nat, due: seq<nat>) {
    && s.Valid() && DueIn(s, now, due)
    && forall k {:trigger Open(k)} :: Open(k) ==> ComparatorSet(s)
  }

  predicate ComparatorSet<T>(s: State<T>)
    requires s.Valid()
  {
    s.sleepers != [] ==> s.comparator == s.sleepers[Soonest(s.sleepers, s.counter)].time
  }

  /** Besides, no two deadlines coincide. */
  ghost predicate OnTime<T>(s: State<T>, now: nat, due: seq<nat>) {
    Armed(s, now, due) && DistinctTimes(s.sleepers)
  }

  /** The comparator holds the deadline the counter reaches first: no sleeper is due before it. */
  lemma ComparatorIsNearest<T>(s: State<T>, now: nat, due: seq<nat>)
    requires OnTime(s, now, due) && s.sleepers != []
    ensures var k := Soonest(s.sleepers, s.counter);
            && s.comparator == s.sleepers[k].time && due[k] == now + Ahead(s.comparator, s.counter)
            && forall i :: 0 <= i < |due| && i != k ==> due[k] < due[i]
  {
    assert Open(0);
    AheadInjective(s);
  }

  lemma AheadInjective<T>(s: State<T>)
    requires s.Valid()
    ensures forall i, j :: 0 <= i < |s.sleepers| && 0 <= j < |s.sleepers|
              && Ahead(s.sleepers[i].time, s.counter) == Ahead(s.sleepers[j].time, s.counter)
              ==> s.sleepers[i].time == s.sleepers[j].time
  {
  }

  lemma UpdateArms<T>(s: State<T>, now: nat, due: seq<nat>)
    requires s.Valid() && DueIn(s, now, due)
    ensures Armed(Update(s), now, due) && Update(s).sleepers == s.sleepers
  {
    UpdateValid(s);
    assert Update(s).sleepers == s.sleepers && Update(s).counter == s.counter;
  }

  /** Removing one sleeper and updating leaves the timer armed for the rest. */
  lemma DropArms<T>(s: State<T>, now: nat, due: seq<nat>, k: nat)
    requires s.Valid() && k < |s.sleepers| == |due|
    requires forall i :: 0 <= i < |due| && i != k ==> now < due[i] == now + Ahead(s.sleepers[i].time, s.counter)
    ensures Armed(Drop(s, k), now, Without(due, k)) && Drop(s, k).sleepers == Without(s.sleepers, k)
  {
    var r, d := s.(sleepers := Without(s.sleepers, k)), Without(due, k);
    forall i | 0 <= i < |d| ensures now < d[i] == now + Ahead(r.sleepers[i].time, r.counter) {
      Kept(due, k, i);
      Kept(s.sleepers, k, i);
    }
    forall i | 0 <= i < |r.sleepers| ensures r.sleepers[i].time < WORD {
      Kept(s.sleepers, k, i);
    }
    UpdateArms(r, now, d);
  }

  lemma DistinctWithoutOne<T>(ss: seq<Sleeper<T>>, k: nat)
    requires DistinctTimes(ss) && k < |ss|
    ensures DistinctTimes(Without(ss, k))
  {
    var r := Without(ss, k);
    forall i, j | 0 <= i < j < |r| ensures r[i].time != r[j].time {
      Kept(ss, k, i);
      Kept(ss, k, j);
    }
  }

  /** Removing one sleeper and updating keeps the rest on time. */
  lemma DropKeeps<T>(s: State<T>, now: nat, due: seq<nat>, k: nat)
    requires s.Valid() && k < |s.sleepers| == |due|
    requires forall i :: 0 <= i < |due| && i != k ==> now < due[i] == now + Ahead(s.sleepers[i].time, s.counter)
    requires DistinctTimes(s.sleepers)
    ensures OnTime(Drop(s, k), now, Without(due, k))
  {
    DropArms(s, now, due, k);
    DistinctWithoutOne(s.sleepers, k);
  }

  /** After the counter's step a deadline is one tick nearer, or it is now. */
  lemma Nearer<T>(s: State<T>, now: nat, due: seq<nat>, i: nat)
    requires s.Valid() && DueIn(s, now, due) && i < |due|
    ensures due[i] == now + 1 <==> s.sleepers[i].time == Advanced(s).counter
    ensures due[i] != now + 1 ==>
              now + 1 < due[i] == now + 1 + Ahead(s.sleepers[i].time, Advanced(s).counter)
  {
  }

  /** A tick that reaches no deadline wakes nobody. */
  lemma TickIdle<T>(s: State<T>, now: nat, due: seq<nat>)
    requires Armed(s, now, due) && forall i :: 0 <= i < |due| ==> due[i] != now + 1
    ensures Tick(s).sleepers == s.sleepers && Armed(Tick(s), now + 1, due)
  {
    assert Open(0);
    var t := Advanced(s);
    forall i | 0 <= i < |due|
      ensures now + 1 < due[i] == now + 1 + Ahead(s.sleepers[i].time, t.counter) && s.sleepers[i].time != t.counter
    {
      Nearer(s, now, due, i);
    }
    if s.sleepers != [] {
      StillSoonest(s, t);
    }
    NobodyFires(t);
  }

  lemma NobodyFires<T>(t: State<T>)
    requires t.Valid() && forall i :: 0 <= i < |t.sleepers| ==> t.sleepers[i].time != t.counter
    ensures t.comparator == t.counter ==> Fire(t) == t
  {
  }

  /** A tick that reaches a deadline wakes the first sleeper it belongs to; if it is nobody else's the timer
      is armed again for the rest. */
  lemma TickWakesFirst<T>(s: State<T>, now: nat, due: seq<nat>, k: nat)
    requires Armed(s, now, due) && k < |due| && due[k] == now + 1
    requires forall i :: 0 <= i < k ==> due[i] != now + 1
    ensures Advanced(s).counter == Advanced(s).comparator && FirstAt(s.sleepers, s.comparator) == k
    ensures Tick(s) == Drop(Advanced(s), k) && Tick(s).sleepers == Without(s.sleepers, k)
    ensures (forall i :: k < i < |due| ==> due[i] != now + 1) ==> Armed(Tick(s), now + 1, Without(due, k))
  {
    var t := Advanced(s);
    Nearer(s, now, due, k);
    assert s.comparator == t.counter by {
      assert Open(0);
      assert Ahead(s.sleepers[k].time, s.counter) == 1;
      assert Ahead(s.comparator, s.counter) <= 1;
      Nearer(s, now, due, Soonest(s.sleepers, s.counter));
    }
    forall i | 0 <= i < |due| && i != k && due[i] != now + 1
      ensures now + 1 < due[i] == now + 1 + Ahead(s.sleepers[i].time, t.counter) && s.sleepers[i].time != t.counter
    {
      Nearer(s, now, due, i);
    }
    assert FirstAt(t.sleepers, t.comparator) == k;
    if forall i :: k < i < |due| ==> due[i] != now + 1 {
      DropArms(t, now + 1, due, k);
    }
  }

  /** On time, a tick that reaches a deadline wakes the sleeper it belongs to. */
  lemma TickFires<T>(s: State<T>, now: nat, due: seq<nat>, k: nat)
    requires OnTime(s, now, due) && k < |due| && due[k] == now + 1
    ensures Advanced(s).counter == Advanced(s).comparator && FirstAt(s.sleepers, s.comparator) == k
    ensures Tick(s).sleepers == Without(s.sleepers, k) && OnTime(Tick(s), now + 1, Without(due, k))
  {
    OnlyDue(s, now, due, k);
    TickWakesFirst(s, now, due, k);
    DistinctWithoutOne(s.sleepers, k);
  }

  lemma StillSoonest<T>(s: State<T>, t: State<T>)
    requires s.Valid() && t.Valid() && t.sleepers == s.sleepers != []
    requires forall i :: 0 <= i < |s.sleepers| ==>
               Ahead(s.sleepers[i].time, t.counter) == Ahead(s.sleepers[i].time, s.counter) - 1
    ensures Soonest(t.sleepers, t.counter) == Soonest(s.sleepers, s.counter)
  {
    var a, b := Soonest(t.sleepers, t.counter), Soonest(s.sleepers, s.counter);
    assert Ahead(s.sleepers[a].time, t.counter) == Ahead(s.sleepers[a].time, s.counter) - 1;
    assert Ahead(s.sleepers[b].time, t.counter) == Ahead(s.sleepers[b].time, s.counter) - 1;
  }

  // ---------- whole runs ----------

  datatype Event<T> = Waits(thread: T, ticks: nat) | Cancels(k: nat) | Ticks

  /** A thread left the list by its timer: when it had asked to be woken, and when it was. */
  datatype Wake = Wake(due: nat, at: nat)

  datatype Run<T> = Run(s: State<T>, now: nat, due: seq<nat>, log: seq<Wake>)

  /** Waits of at least one tick whose deadline no pending one shares; cancels of threads that sleep. */
  predicate Enabled<T>(r: Run<T>, e: Event<T>) {
    && r.s.Valid()
    && match e
       case Waits(_, ticks) => 0 < ticks < WORD && Fresh(r.s, ticks)
       case Cancels(k) => k < |r.s.sleepers| && k < |r.due|
       case Ticks => true
  }

  predicate Fresh<T>(s: State<T>, ticks: nat) {
    forall i :: 0 <= i < |s.sleepers| ==> s.sleepers[i].time != Wrap(ticks + s.counter)
  }

  function Next<T>(r: Run<T>, e: Event<T>): Run<T>
    requires Enabled(r, e)
  {
    match e
    case Waits(thread, ticks) => r.(s := Sleep(r.s, thread, ticks), due := r.due + [r.now + ticks])
    case Cancels(k) => r.(s := Drop(r.s, k), due := Without(r.due, k))
    case Ticks =>
      var t := Advanced(r.s);
      var k := FirstAt(t.sleepers, t.comparator);
      if t.counter == t.comparator && k < |t.sleepers| && k < |r.due|
      then Run(Tick(r.s), r.now + 1, Without(r.due, k), r.log + [Wake(r.due[k], r.now + 1)])
      else Run(Tick(r.s), r.now + 1, r.due, r.log)
  }

  ghost predicate Inv<T>(r: Run<T>) {
    OnTime(r.s, r.now, r.due) && forall i :: 0 <= i < |r.log| ==> r.log[i].at == r.log[i].due
  }

  lemma AheadOfWrap(ticks: nat, counter: nat)
    requires ticks < WORD && counter < WORD
    ensures Ahead(Wrap(ticks + counter), counter) == ticks
  {
    if ticks + counter >= WORD {
      WrapMultiple(ticks + counter, -1);
    }
  }

  lemma Longer<T>(s: State<T>, r: State<T>, now: nat, due: seq<nat>, d: nat)
    requires DueIn(s, now, due) && DistinctTimes(s.sleepers) && r.Valid() && r.counter == s.counter
    requires |r.sleepers| == |s.sleepers| + 1 && r.sleepers[..|s.sleepers|] == s.sleepers
    requires var last := r.sleepers[|s.sleepers|];
             && now < d == now + Ahead(last.time, r.counter)
             && forall i :: 0 <= i < |s.sleepers| ==> s.sleepers[i].time != last.time
    ensures DueIn(r, now, due + [d]) && DistinctTimes(r.sleepers)
  {
    assert forall i :: 0 <= i < |s.sleepers| ==> r.sleepers[i] == s.sleepers[i];
  }

  lemma SleepKeeps<T>(s: State<T>, now: nat, due: seq<nat>, thread: T, ticks: nat)
    requires OnTime(s, now, due) && 0 < ticks < WORD && Fresh(s, ticks)
    ensures OnTime(Sleep(s, thread, ticks), now, due + [now + ticks])
  {
    var r := Listed(s, thread, ticks);
    AheadOfWrap(ticks, s.counter);
    Longer(s, r, now, due, now + ticks);
    UpdateArms(r, now, due + [now + ticks]);
  }

  lemma StepKeeps<T>(r: Run<T>, e: Event<T>)
    requires Inv(r) && Enabled(r, e)
    ensures Inv(Next(r, e))
  {
    match e
    case Waits(thread, ticks) => SleepKeeps(r.s, r.now, r.due, thread, ticks);
    case Cancels(k) => DropKeeps(r.s, r.now, r.due, k);
    case Ticks => TickKeeps(r);
  }

  lemma TickKeeps<T>(r: Run<T>)
    requires Inv(r) && Enabled(r, Ticks)
    ensures Inv(Next(r, Ticks))
  {
    if k :| 0 <= k < |r.due| && r.due[k] == r.now + 1 {
      TickKeepsFiring(r, k);
    } else {
      TickIdle(r.s, r.now, r.due);
      NextIdle(r);
    }
  }

  /** The tick that reaches the `k`th deadline first, as a step of a run. */
  lemma NextFires<T>(r: Run<T>, k: nat)
    requires Armed(r.s, r.now, r.due) && k < |r.due| && r.due[k] == r.now + 1
    requires forall i :: 0 <= i < k ==> r.due[i] != r.now + 1
    ensures Tick(r.s).sleepers == Without(r.s.sleepers, k)
    ensures Next(r, Ticks) == Run(Tick(r.s), r.now + 1, Without(r.due, k), r.log + [Wake(r.due[k], r.now + 1)])
  {
    TickWakesFirst(r.s, r.now, r.due, k);
  }

  /** The tick that reaches no deadline. */
  lemma NextIdle<T>(r: Run<T>)
    requires Armed(r.s, r.now, r.due) && forall i :: 0 <= i < |r.due| ==> r.due[i] != r.now + 1
    ensures Next(r, Ticks) == Run(Tick(r.s), r.now + 1, r.due, r.log)
  {
    IdleAt(r.s, r.now, r.due);
  }

  lemma TickKeepsFiring<T>(r: Run<T>, k: nat)
    requires Inv(r) && k < |r.due| && r.due[k] == r.now + 1
    ensures Inv(Next(r, Ticks))
  {
    TickFires(r.s, r.now, r.due, k);
    OnlyDue(r.s, r.now, r.due, k);
    NextFires(r, k);
  }

  lemma OnlyDue<T>(s: State<T>, now: nat, due: seq<nat>, k: nat)
    requires OnTime(s, now, due) && k < |due| && due[k] == now + 1
    ensures forall i :: 0 <= i < |due| && i != k ==> due[i] != now + 1
  {
    forall i | 0 <= i < |due| && i != k ensures due[i] != now + 1 {
      Nearer(s, now, due, i);
      Nearer(s, now, due, k);
    }
  }

  lemma IdleAt<T>(s: State<T>, now: nat, due: seq<nat>)
    requires Armed(s, now, due) && forall i :: 0 <= i < |due| ==> due[i] != now + 1
    ensures var t := Advanced(s); t.counter == t.comparator ==> FirstAt(t.sleepers, t.comparator) == |t.sleepers|
  {
    forall i | 0 <= i < |due| ensures s.sleepers[i].time != Advanced(s).counter {
      Nearer(s, now, due, i);
    }
  }

  predicate CanRun<T>(r: Run<T>, events: seq<Event<T>>)
    decreases |events|
  {
    events == [] || (Enabled(r, events[0]) && CanRun(Next(r, events[0]), events[1..]))
  }

  function Final<T>(r: Run<T>, events: seq<Event<T>>): Run<T>
    requires CanRun(r, events)
    decreases |events|
  {
    if events == [] then r else Final(Next(r, events[0]), events[1..])
  }

  lemma {:induction false} RunKeeps<T>(r: Run<T>, events: seq<Event<T>>)
    requires Inv(r) && CanRun(r, events)
    ensures Inv(Final(r, events))
    decreases |events|
  {
    if events != [] {
      StepKeeps(r, events[0]);
      RunKeeps(Next(r, events[0]), events[1..]);
    }
  }

  /** Over every run from an empty list: the timer wakes each thread exactly when it asked, and none
      still asleep is overdue. */
  lemma RunsWakeOnTime<T>(counter: nat, comparator: nat, events: seq<Event<T>>)
    requires counter < WORD && comparator < WORD
    requires CanRun(Run(State([], counter, comparator), 0, [], []), events)
    ensures var r := Final(Run(State([], counter, comparator), 0, [], []), events);
            && (forall i :: 0 <= i < |r.log| ==> r.log[i].at == r.log[i].due)
            && |r.due| == |r.s.sleepers| && forall i :: 0 <= i < |r.due| ==> r.now < r.due[i]
  {
    RunKeeps(Run(State([], counter, comparator), 0, [], []), events);
  }

  // ---------- where the code falls short ----------

  /** Armed for the tick that has just passed. */
  predicate Stuck<T>(s: State<T>) {
    s.Valid() && s.sleepers != [] && s.comparator == s.counter
  }

  function TickMany<T>(s: State<T>, k: nat): State<T>
    requires s.Valid()
    decreases k
  {
    if k == 0 then s
    else
      TickValid(s);
      TickMany(Tick(s), k - 1)
  }

  /** Ticks until the counter next steps onto the comparator's value. */
  function Gap<T>(s: State<T>): nat
    requires s.Valid()
  {
    if s.comparator == s.counter then WORD else Ahead(s.comparator, s.counter)
  }

  lemma {:induction false} TicksWithoutMatch<T>(s: State<T>, k: nat)
    requires s.Valid() && k < Gap(s)
    ensures TickMany(s, k).sleepers == s.sleepers
    decreases k
  {
    if k > 0 {
      TickValid(s);
      assert Tick(s) == Advanced(s) && Gap(Tick(s)) == Gap(s) - 1;
      TicksWithoutMatch(Tick(s), k - 1);
    }
  }

  /** A wait shorter than one tick arms the timer for the tick that has passed: until the counter has
      wrapped around, or the list changes again, it wakes nobody, whatever their deadlines. */
  lemma ShortWaitStrandsEverybody<T>(s: State<T>, thread: T, k: nat)
    requires s.Valid() && k < WORD
    ensures var r := Sleep(s, thread, 0); r.Valid() && Stuck(r) && TickMany(r, k).sleepers == r.sleepers
  {
    SleepValid(s, thread, 0);
    var ss := s.sleepers + [Sleeper(s.counter, thread)];
    assert Ahead(ss[|s.sleepers|].time, s.counter) == 0;
    assert Ahead(ss[Soonest(ss, s.counter)].time, s.counter) == 0;
    TicksWithoutMatch(Sleep(s, thread, 0), k);
  }

  /** Two sleepers with one deadline: when it comes the first is woken and the timer is armed again for
      the tick that has passed, with the other still asleep. */
  lemma SharedDeadlineStrands<T>(s: State<T>, i: nat, j: nat)
    requires s.Valid() && i < j < |s.sleepers| && s.sleepers[i].time == s.sleepers[j].time
    requires Advanced(s).counter == s.comparator == s.sleepers[i].time
    ensures Stuck(Tick(s)) && exists k :: 0 <= k < |Tick(s).sleepers| && Tick(s).sleepers[k] == s.sleepers[j]
  {
    var t := Advanced(s);
    var f := FirstAt(t.sleepers, t.comparator);
    var ss := Without(t.sleepers, f);
    assert f <= i;
    assert ss[j - 1] == s.sleepers[j];
    DropValid(t, f);
    assert Ahead(ss[j - 1].time, t.counter) == 0;
    assert Ahead(ss[Soonest(ss, t.counter)].time, t.counter) == 0;
  }

  /** The run after `k` plain ticks. */
  function Ticking<T>(r: Run<T>, k: nat): (r': Run<T>)
    requires r.s.Valid()
    ensures r'.s.Valid() && r'.now == r.now + k
    decreases k
  {
    if k == 0 then r
    else
      TickValid(r.s);
      Ticking(Next(r, Ticks), k - 1)
  }

  /** A thread is still asleep after its time. */
  predicate Overdue<T>(r: Run<T>) {
    exists i :: 0 <= i < |r.due| && r.due[i] < r.now
  }

  /** No plain tick ever leaves a thread asleep after its time. */
  ghost predicate NeverOverdue<T>(r: Run<T>)
    requires r.s.Valid()
  {
    forall k: nat :: !Overdue(Ticking(r, k))
  }

  lemma {:induction false} OnTimeTicks<T>(r: Run<T>, k: nat)
    requires OnTime(r.s, r.now, r.due)
    ensures OnTime(Ticking(r, k).s, Ticking(r, k).now, Ticking(r, k).due)
    decreases k
  {
    if k > 0 {
      TickValid(r.s);
      var clean := r.(log := []);
      TickKeeps(clean);
      assert Next(clean, Ticks).s == Next(r, Ticks).s && Next(clean, Ticks).due == Next(r, Ticks).due;
      OnTimeTicks(Next(r, Ticks), k - 1);
    }
  }

  /** A timer set for the tick that has passed wakes nobody at the next one. */
  lemma StuckOverdue<T>(r: Run<T>, i: nat, k: nat)
    requires k == 1 && Stuck(r.s) && |r.due| == |r.s.sleepers| && i < |r.due| && r.due[i] <= r.now
    ensures Overdue(Ticking(r, k))
  {
    TickValid(r.s);
    var n := Next(r, Ticks);
    assert n.due == r.due && n.now == r.now + 1;
    assert Ticking(r, k) == Ticking(n, k - 1) == n;
    assert n.due[i] < n.now;
  }

  /** Two of the sleepers share a deadline. */
  predicate Shared<T>(r: Run<T>, i: nat, j: nat) {
    i < j < |r.due| && |r.due| == |r.s.sleepers| && r.s.sleepers[i].time == r.s.sleepers[j].time
  }

  lemma SharedDue<T>(r: Run<T>, i: nat, j: nat)
    requires Armed(r.s, r.now, r.due) && Shared(r, i, j)
    ensures r.due[i] == r.due[j]
  {
  }

  /** The tick that reaches a shared deadline wakes one and sets the timer for the tick just passed. */
  lemma SharedTick<T>(r: Run<T>, f: nat, j: nat, k: nat)
    requires k == 2 && Armed(r.s, r.now, r.due) && f < j < |r.due| && r.due[f] == r.due[j] == r.now + 1
    requires forall i :: 0 <= i < f ==> r.due[i] != r.now + 1
    ensures Overdue(Ticking(r, k))
  {
    var n := FirstFires(r, f, j);
    StuckOverdue(n, j - 1, k - 1);
    TickingNext(r, n, k);
  }

  lemma TickingNext<T>(r: Run<T>, n: Run<T>, k: nat)
    requires r.s.Valid() && n == Next(r, Ticks) && n.s.Valid() && k > 0
    ensures Ticking(r, k) == Ticking(n, k - 1)
  {
  }

  /** After the tick the other sleeper's deadline is the one just reached. */
  lemma FirstFires<T>(r: Run<T>, f: nat, j: nat) returns (n: Run<T>)
    requires Armed(r.s, r.now, r.due) && f < j < |r.due| && r.due[f] == r.due[j] == r.now + 1
    requires forall i :: 0 <= i < f ==> r.due[i] != r.now + 1
    ensures n == Next(r, Ticks) && Stuck(n.s) && n.now == r.now + 1
    ensures |n.due| == |n.s.sleepers| == |r.due| - 1 && n.due[j - 1] == r.now + 1
  {
    TickValid(r.s);
    NextFires(r, f);
    Kept(r.due, f, j - 1);
    SharedStuck(r.s, r.now, r.due, f, j);
    n := Next(r, Ticks);
  }

  lemma SharedStuck<T>(s: State<T>, now: nat, due: seq<nat>, f: nat, j: nat)
    requires Armed(s, now, due) && f < j < |due| && due[f] == due[j] == now + 1
    requires forall i :: 0 <= i < f ==> due[i] != now + 1
    ensures Stuck(Tick(s))
  {
    TickWakesFirst(s, now, due, f);
    Nearer(s, now, due, f);
    Nearer(s, now, due, j);
    SharedDeadlineStrands(s, f, j);
  }

  lemma FirstDue(due: seq<nat>, t: nat, k: nat) returns (f: nat)
    requires k < |due| && due[k] == t
    ensures f <= k && due[f] == t && forall i :: 0 <= i < f ==> due[i] != t
  {
    f := 0;
    while due[f] != t
      invariant f <= k && forall i :: 0 <= i < f ==> due[i] != t
      decreases k - f
    {
      f := f + 1;
    }
  }

  /** One tick with a shared deadline pending: it comes now, or the two are still on the list. */
  lemma SharedNext<T>(r: Run<T>, i: nat, j: nat) returns (done: bool, i': nat, j': nat)
    requires Armed(r.s, r.now, r.due) && Shared(r, i, j)
    ensures done ==> Overdue(Ticking(r, 2))
    ensures !done ==> var n := Next(r, Ticks);
              Armed(n.s, n.now, n.due) && Shared(n, i', j') && n.due[i'] == r.due[i] && n.now == r.now + 1
  {
    SharedDue(r, i, j);
    done, i', j' := false, i, j;
    if d :| 0 <= d < |r.due| && r.due[d] == r.now + 1 {
      var f := FirstDue(r.due, r.now + 1, d);
      if g :| f < g < |r.due| && r.due[g] == r.now + 1 {
        SharedTick(r, f, g, 2);
        done := true;
      } else {
        i', j' := SharedStays(r, i, j, f);
      }
    } else {
      TickIdle(r.s, r.now, r.due);
      NextIdle(r);
    }
  }

  /** A shared deadline leaves somebody asleep after it, however many others wake first. */
  lemma {:induction false} SharedOverdue<T>(r: Run<T>, i: nat, j: nat) returns (k: nat)
    requires Armed(r.s, r.now, r.due) && Shared(r, i, j)
    ensures Overdue(Ticking(r, k))
    decreases r.due[i] - r.now
  {
    var done, i', j' := SharedNext(r, i, j);
    if done {
      return 2;
    }
    k := SharedOverdue(Next(r, Ticks), i', j');
    k := k + 1;
    TickedOnce(r, k);
  }

  lemma TickedOnce<T>(r: Run<T>, k: nat)
    requires r.s.Valid() && k > 0
    ensures Next(r, Ticks).s.Valid() && Ticking(r, k) == Ticking(Next(r, Ticks), k - 1)
  {
    TickValid(r.s);
  }

  /** Another sleeper's wake leaves the two on the list, and the timer armed. */
  lemma SharedStays<T>(r: Run<T>, i: nat, j: nat, f: nat) returns (i': nat, j': nat)
    requires Armed(r.s, r.now, r.due) && Shared(r, i, j) && r.due[i] == r.due[j]
    requires f < |r.due| && r.due[f] == r.now + 1 && forall g :: 0 <= g < |r.due| && g != f ==> r.due[g] != r.now + 1
    ensures var n := Next(r, Ticks);
            Armed(n.s, n.now, n.due) && Shared(n, i', j') && n.due[i'] == r.due[i] && n.now == r.now + 1
  {
    TickWakesFirst(r.s, r.now, r.due, f);
    NextFires(r, f);
    i', j' := StayIndices(r.s.sleepers, r.due, i, j, f);
  }

  lemma StayIndices<T>(ss: seq<Sleeper<T>>, due: seq<nat>, i: nat, j: nat, f: nat) returns (i': nat, j': nat)
    requires |ss| == |due| && i < j < |ss| && f < |ss| && i != f && j != f
    ensures i' < j' < |ss| - 1 && Without(due, f)[i'] == due[i]
    ensures Without(ss, f)[i'] == ss[i] && Without(ss, f)[j'] == ss[j]
  {
    i', j' := if i < f then i else i - 1, if j < f then j else j - 1;
    Kept(due, f, i');
    Kept(ss, f, i');
    Kept(ss, f, j');
  }

  /** The run after a wait. */
  function Waited<T>(s: State<T>, now: nat, due: seq<nat>, thread: T, ticks: nat): (r: Run<T>)
    requires s.Valid() && ticks < WORD
    ensures r.s.Valid()
  {
    SleepValid(s, thread, ticks);
    Run(Sleep(s, thread, ticks), now, due + [now + ticks], [])
  }

  lemma ShortWaitOverdue<T>(s: State<T>, now: nat, due: seq<nat>, thread: T)
    requires Armed(s, now, due)
    ensures !NeverOverdue(Waited(s, now, due, thread, 0))
  {
    ShortWaitStrandsEverybody(s, thread, 0);
    StuckOverdue(Waited(s, now, due, thread, 0), |due|, 1);
    OverdueOnce(Waited(s, now, due, thread, 0), 1);
  }

  lemma SharedWaitOverdue<T>(s: State<T>, now: nat, due: seq<nat>, thread: T, ticks: nat, i: nat) returns (k: nat)
    requires Armed(s, now, due) && 0 < ticks < WORD
    requires i < |s.sleepers| && s.sleepers[i].time == Wrap(ticks + s.counter)
    ensures Overdue(Ticking(Waited(s, now, due, thread, ticks), k))
  {
    ListedDue(s, now, due, thread, ticks);
    UpdateArms(Listed(s, thread, ticks), now, due + [now + ticks]);
    k := SharedOverdue(Waited(s, now, due, thread, ticks), i, |s.sleepers|);
  }

  lemma ListedDue<T>(s: State<T>, now: nat, due: seq<nat>, thread: T, ticks: nat)
    requires DueIn(s, now, due) && 0 < ticks < WORD
    ensures DueIn(Listed(s, thread, ticks), now, due + [now + ticks])
  {
    AheadOfWrap(ticks, s.counter);
    assert forall j :: 0 <= j < |s.sleepers| ==> Listed(s, thread, ticks).sleepers[j] == s.sleepers[j];
  }

  /** A wait leaves nobody asleep after the time asked for, neither the caller nor those asleep already,
      exactly when it is at least one tick long and its deadline is no other pending one's. */
  lemma SleepOnTimeExactlyWhen<T>(s: State<T>, now: nat, due: seq<nat>, thread: T, ticks: nat)
    requires OnTime(s, now, due) && ticks < WORD
    ensures NeverOverdue(Waited(s, now, due, thread, ticks)) <==> ticks > 0 && Fresh(s, ticks)
  {
    if ticks == 0 {
      ShortWaitOverdue(s, now, due, thread);
    } else if Fresh(s, ticks) {
      FreshWaitOnTime(s, now, due, thread, ticks);
    } else {
      SharedWaitNotOnTime(s, now, due, thread, ticks);
    }
  }

  lemma SharedWaitNotOnTime<T>(s: State<T>, now: nat, due: seq<nat>, thread: T, ticks: nat)
    requires Armed(s, now, due) && 0 < ticks < WORD && !Fresh(s, ticks)
    ensures !NeverOverdue(Waited(s, now, due, thread, ticks))
  {
    var i :| 0 <= i < |s.sleepers| && s.sleepers[i].time == Wrap(ticks + s.counter);
    var k := SharedWaitOverdue(s, now, due, thread, ticks, i);
    OverdueOnce(Waited(s, now, due, thread, ticks), k);
  }

  lemma OverdueOnce<T>(r: Run<T>, k: nat)
    requires r.s.Valid() && Overdue(Ticking(r, k))
    ensures !NeverOverdue(r)
  {
  }

  /** After such a wait nobody is asleep even at the time asked for. */
  lemma FreshWaitOnTime<T>(s: State<T>, now: nat, due: seq<nat>, thread: T, ticks: nat)
    requires OnTime(s, now, due) && 0 < ticks < WORD && Fresh(s, ticks)
    ensures NeverOverdue(Waited(s, now, due, thread, ticks))
    ensures forall k: nat, i :: 0 <= i < |Ticking(Waited(s, now, due, thread, ticks), k).due|
                                ==> now + k < Ticking(Waited(s, now, due, thread, ticks), k).due[i]
  {
    var r := Waited(s, now, due, thread, ticks);
    SleepKeeps(s, now, due, thread, ticks);
    forall k: nat, i | 0 <= i < |Ticking(r, k).due| ensures now + k < Ticking(r, k).due[i] {
      OnTimeTicks(r, k);
    }
  }

  // ---------- how long a wait is ----------

  lemma TickRemoves<T>(s: State<T>, e: Sleeper<T>)
    requires s.Valid() && e !in s.sleepers
    ensures e !in Tick(s).sleepers
  {
  }

  /** `last` is the run after `k` plain ticks. */
  ghost predicate Ticked<T>(r: Run<T>, k: nat, last: Run<T>) {
    forall j {:trigger Open(j)} :: Open(j) ==> r.s.Valid() && last == Ticking(r, k)
  }

  lemma {:induction false} GoneStays<T>(r: Run<T>, e: Sleeper<T>, k: nat, last: Run<T>)
    requires r.s.Valid() && e !in r.s.sleepers && last == Ticking(r, k)
    ensures e !in last.s.sleepers
    decreases k
  {
    if k > 0 {
      TickValid(r.s);
      TickRemoves(r.s, e);
      GoneStays(Next(r, Ticks), e, k - 1, last);
    }
  }

  /** Where a sleeper stands once the one at `f` is gone. */
  lemma OneGone<T>(ss: seq<Sleeper<T>>, due: seq<nat>, f: nat, i: nat) returns (j: nat)
    requires |due| == |ss| && f < |ss| && i < |ss| && DistinctTimes(ss)
    ensures i != f ==> j < |ss| - 1 && Without(ss, f)[j] == ss[i] && Without(due, f)[j] == due[i]
    ensures i == f ==> ss[i] !in Without(ss, f)
  {
    j := if i <= f then i else i - 1;
    if i != f {
      Kept(ss, f, j);
      Kept(due, f, j);
    } else {
      forall m | 0 <= m < |ss| - 1 ensures Without(ss, f)[m] != ss[i] {
        Kept(ss, f, m);
      }
    }
  }

  /** On time, `e` is the `i`th sleeper, due at `end`. */
  ghost predicate Pending<T>(r: Run<T>, i: nat, e: Sleeper<T>, end: nat) {
    forall k {:trigger Open(k)} :: Open(k) ==>
      OnTime(r.s, r.now, r.due) && i < |r.due| && r.s.sleepers[i] == e && r.due[i] == end
  }

  lemma IsPending<T>(r: Run<T>, i: nat, e: Sleeper<T>, end: nat)
    requires Pending(r, i, e, end)
    ensures OnTime(r.s, r.now, r.due) && i < |r.due| && r.s.sleepers[i] == e && r.due[i] == end
  {
    assert Open(0);
  }

  lemma StillPending<T>(r: Run<T>, i: nat, e: Sleeper<T>, end: nat)
    requires Pending(r, i, e, end)
    ensures r.s.Valid() && e in r.s.sleepers && r.now < end
  {
    IsPending(r, i, e, end);
    Nearer(r.s, r.now, r.due, i);
  }

  lemma MakePending<T>(r: Run<T>, i: nat, e: Sleeper<T>, end: nat)
    requires OnTime(r.s, r.now, r.due) && i < |r.due| && r.s.sleepers[i] == e && r.due[i] == end
    ensures Pending(r, i, e, end)
  {
  }

  /** Plain ticks leave a sleeper on the list exactly until its time. */
  lemma {:induction false} AsleepUntilDue<T>(r: Run<T>, i: nat, k: nat, last: Run<T>, e: Sleeper<T>, end: nat)
    requires r.s.Valid() && Pending(r, i, e, end) && Ticked(r, k, last)
    ensures e in last.s.sleepers <==> r.now + k < end
    decreases k
  {
    StillPending(r, i, e, end);
    if k == 0 {
      NoTick(r, last);
    } else {
      var n, gone, j := PendingTick(r, i, k, last, e, end);
      if gone {
        GoneFrom(n, e, k - 1, last);
      } else {
        AsleepUntilDue(n, j, k - 1, last, e, end);
      }
    }
  }

  /** `n` is the run after one tick more. */
  ghost predicate Follows<T>(r: Run<T>, n: Run<T>) {
    forall j {:trigger Open(j)} :: Open(j) ==> r.s.Valid() && n == Next(r, Ticks)
  }

  lemma PendingTick<T>(r: Run<T>, i: nat, k: nat, last: Run<T>, e: Sleeper<T>, end: nat)
    returns (n: Run<T>, gone: bool, j: nat)
    requires r.s.Valid() && Pending(r, i, e, end) && k > 0 && Ticked(r, k, last)
    ensures n.s.Valid() && Ticked(n, k - 1, last) && n.now == r.now + 1
    ensures if gone then end == r.now + 1 && e !in n.s.sleepers else Pending(n, j, e, end)
  {
    n, gone, j := PendingNext(r, i, e, end);
    NextTicked(r, n, k, last);
  }

  lemma PendingNext<T>(r: Run<T>, i: nat, e: Sleeper<T>, end: nat) returns (n: Run<T>, gone: bool, j: nat)
    requires r.s.Valid() && Pending(r, i, e, end)
    ensures n.s.Valid() && Follows(r, n) && n.now == r.now + 1
    ensures if gone then end == r.now + 1 && e !in n.s.sleepers else Pending(n, j, e, end)
  {
    IsPending(r, i, e, end);
    n, gone, j := OneTick(r, i);
    if !gone {
      MakePending(n, j, e, end);
    }
  }

  lemma NextTicked<T>(r: Run<T>, n: Run<T>, k: nat, last: Run<T>)
    requires r.s.Valid() && n.s.Valid() && Follows(r, n) && k > 0 && Ticked(r, k, last)
    ensures Ticked(n, k - 1, last)
  {
    assert Open(0);
    TickedOnce(r, k);
  }

  lemma IsTicked<T>(r: Run<T>, k: nat, last: Run<T>)
    requires r.s.Valid() && Ticked(r, k, last)
    ensures last == Ticking(r, k)
  {
    assert Open(0);
  }

  lemma MakeTicked<T>(r: Run<T>, k: nat, last: Run<T>)
    requires r.s.Valid() && last == Ticking(r, k)
    ensures Ticked(r, k, last)
  {
  }

  lemma GoneFrom<T>(r: Run<T>, e: Sleeper<T>, k: nat, last: Run<T>)
    requires r.s.Valid() && e !in r.s.sleepers && Ticked(r, k, last)
    ensures e !in last.s.sleepers
  {
    IsTicked(r, k, last);
    GoneStays(r, e, k, last);
  }

  lemma NoTick<T>(r: Run<T>, last: Run<T>)
    requires r.s.Valid() && Ticked(r, 0, last)
    ensures last == r
  {
    IsTicked(r, 0, last);
  }

  /** A tick takes the `i`th sleeper off the list if its time has come; otherwise it is the `j`th now. */
  lemma OneTick<T>(r: Run<T>, i: nat) returns (n: Run<T>, gone: bool, j: nat)
    requires OnTime(r.s, r.now, r.due) && i < |r.due|
    ensures n.s.Valid() && Follows(r, n) && n.now == r.now + 1
    ensures if gone then r.due[i] == r.now + 1 && r.s.sleepers[i] !in n.s.sleepers
            else OnTime(n.s, n.now, n.due) && j < |n.due| && n.s.sleepers[j] == r.s.sleepers[i] && n.due[j] == r.due[i]
  {
    n := OneNext(r);
    gone, j := false, i;
    if f: nat :| f < |r.due| && r.due[f] == r.now + 1 {
      n := FiredOnce(r, f);
      j := OneGone(r.s.sleepers, r.due, f, i);
      gone := i == f;
    } else {
      TickIdle(r.s, r.now, r.due);
      NextIdle(r);
    }
  }

  lemma OneNext<T>(r: Run<T>) returns (n: Run<T>)
    requires r.s.Valid()
    ensures n == Next(r, Ticks) && n.s.Valid() && Follows(r, n)
  {
    TickValid(r.s);
    n := Next(r, Ticks);
  }

  lemma FiredOnce<T>(r: Run<T>, f: nat) returns (n: Run<T>)
    requires OnTime(r.s, r.now, r.due) && f < |r.due| && r.due[f] == r.now + 1
    ensures n.s.Valid() && Follows(r, n) && n.now == r.now + 1
    ensures OnTime(n.s, n.now, n.due) && n.s.sleepers == Without(r.s.sleepers, f) && n.due == Without(r.due, f)
  {
    n := OneNext(r);
    OnlyDue(r.s, r.now, r.due, f);
    TickFires(r.s, r.now, r.due, f);
    NextFires(r, f);
  }

  /** Of a wait for `f` femtoseconds, in its ticks of `period` femtoseconds: with a deadline of its own the
      thread is asleep after `k` of them just while `k + 1` still fit into `f`. */
  lemma FemtosecondsAsleep<T>(s: State<T>, now: nat, due: seq<nat>, thread: T, f: nat, period: nat, ticks: nat, k: nat)
    requires OnTime(s, now, due) && ticks < WORD && 0 < period <= f && Fresh(s, ticks)
    requires ticks * period <= f < (ticks + 1) * period
    ensures Sleeper(Wrap(ticks + s.counter), thread) in Ticking(Waited(s, now, due, thread, ticks), k).s.sleepers
       <==> (k + 1) * period <= f
  {
    FitsTimes(f, period, ticks, k);
    FitsTimes(f, period, ticks, 0);
    SleepKeeps(s, now, due, thread, ticks);
    var r := Waited(s, now, due, thread, ticks);
    assert r.s.sleepers[|due|] == Sleeper(Wrap(ticks + s.counter), thread) && r.due[|due|] == now + ticks;
    MakePending(r, |due|, r.s.sleepers[|due|], now + ticks);
    MakeTicked(r, k, Ticking(r, k));
    AsleepUntilDue(r, |due|, k, Ticking(r, k), r.s.sleepers[|due|], now + ticks);
  }

  lemma FitsTimes(f: nat, period: nat, n: nat, k: nat)
    requires n * period <= f < (n + 1) * period
    ensures k < n <==> (k + 1) * period <= f
  {
    if k < n {
      MulMono(period, k + 1, n);
    } else {
      MulMono(period, n + 1, k + 1);
    }
  }
}
