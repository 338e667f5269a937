/** Any number of threads inside the allocator at once, interleaved at every statement, with the
    compare-exchange lock. Each run is shown to be a sequential run of the operations in the order in
    which they release the lock. */
module AllocatorThreads {
  import opened SlotTable
  import opened Words
  import opened AllocatorRuns

  datatype Call = AllocateCall(q: Request) | UnallocateCall(pointer: nat)

  /** Where a thread stands; each step of `CriticalStep` or `Next` executes one statement. */
  datatype Thread =
    | Idle
    | Locking(call: Call)                                 // in `lock`, spinning and yielding
    | ScanTest(q: Request, value: nat, i: nat, count: nat) // the scan's loop condition
    | ScanRead(q: Request, value: nat, i: nat, count: nat) // reading `present`
    | ScanCompare(q: Request, value: nat, i: nat, count: nat)
    | FreeTest(q: Request, value: nat, i: nat, count: nat) // the slot search's loop condition
    | WritePresent(q: Request, value: nat, i: nat)
    | WriteStart(q: Request, value: nat, i: nat)
    | WriteEnd(q: Request, value: nat, i: nat)
    | CountUp(q: Request, value: nat)
    | FindTest(pointer: nat, i: nat)
    | ClearPresent(pointer: nat, i: nat)
    | CountDown(pointer: nat)
    | Unlocking(op: Op, value: nat)

  /** What the lock holder sees: the table and counter in memory, and its own registers. */
  datatype Holder = Holder(slots: seq<Slot>, allocations: nat, thread: Thread)

  predicate InCriticalSection(th: Thread) {
    !th.Idle? && !th.Locking?
  }

  /** Memory beyond the slots ever written holds `garbage`. */
  function Read(slots: seq<Slot>, i: nat, garbage: Slot): Slot {
    if i < |slots| then slots[i] else garbage
  }

  function Write(slots: seq<Slot>, i: nat, s: Slot): seq<Slot> {
    if i < |slots| then slots[i := s] else slots + [s]
  }

  predicate ValidThread(th: Thread) {
    match th
    case Locking(AllocateCall(q)) => q.Valid()
    case ScanTest(q, _, _, _) => q.Valid()
    case ScanRead(q, _, _, _) => q.Valid()
    case ScanCompare(q, _, _, _) => q.Valid()
    case _ => true
  }

  function Enter(call: Call): Thread
    requires ValidThread(Locking(call))
  {
    match call
    case AllocateCall(q) => ScanTest(q, q.First(), 0, 0)
    case UnallocateCall(pointer) => FindTest(pointer, 0)
  }

  function CriticalStep(h: Holder, garbage: Slot): Holder
    requires ValidThread(h.thread)
  {
    match h.thread
    case ScanTest(q, value, i, count) =>
      h.(thread := if count != h.allocations then ScanRead(q, value, i, count) else FreeTest(q, value, 0, 0))
    case ScanRead(q, value, i, count) =>
      h.(thread := if Read(h.slots, i, garbage).present then ScanCompare(q, value, i, count + 1)
                   else ScanTest(q, value, i + 1, count))
    case ScanCompare(q, value, i, count) =>
      var s := Read(h.slots, i, garbage);
      h.(thread := if Wrap(value + q.amount) <= s.start || value >= s.end then ScanTest(q, value, i + 1, count)
                   else ScanTest(q, Wrap(q.After(s.end)), 0, 0))
    case FreeTest(q, value, i, count) =>
      h.(thread := if Read(h.slots, i, garbage).present && count != h.allocations
                   then FreeTest(q, value, i + 1, count + 1) else WritePresent(q, value, i))
    case WritePresent(q, value, i) =>
      h.(slots := Write(h.slots, i, Read(h.slots, i, garbage).(present := true)), thread := WriteStart(q, value, i))
    case WriteStart(q, value, i) =>
      h.(slots := Write(h.slots, i, Read(h.slots, i, garbage).(start := value)), thread := WriteEnd(q, value, i))
    case WriteEnd(q, value, i) =>
      h.(slots := Write(h.slots, i, Read(h.slots, i, garbage).(end := Wrap(value + q.amount))),
         thread := CountUp(q, value))
    case CountUp(q, value) =>
      h.(allocations := h.allocations + 1, thread := Unlocking(Allocate(q), value))
    case FindTest(pointer, i) =>
      var s := Read(h.slots, i, garbage);
      h.(thread := if !s.present || s.start != pointer then FindTest(pointer, i + 1) else ClearPresent(pointer, i))
    case ClearPresent(pointer, i) =>
      h.(slots := Write(h.slots, i, Read(h.slots, i, garbage).(present := false)), thread := CountDown(pointer))
    case CountDown(pointer) =>
      h.(allocations := if h.allocations > 0 then h.allocations - 1 else WORD - 1,
         thread := Unlocking(Unallocate(pointer), 0))
    case _ => h
  }

  // ---------- the lock holder, against the table it found ----------

  /** The holder's progress relative to `base`, the state the lock was taken in. */
  ghost predicate Holds(h: Holder, base: State) {
    match h.thread
    case ScanTest(q, value, i, count) =>
      Untouched(h, base) && q.amount > 0 && Scanned(base.slots, q, value, i, count)
    case ScanRead(q, value, i, count) =>
      Untouched(h, base) && q.amount > 0 && Scanned(base.slots, q, value, i, count) && count != h.allocations
    case ScanCompare(q, value, i, count) =>
      && Untouched(h, base) && q.amount > 0 && count > 0 && Scanned(base.slots, q, value, i, count - 1)
      && count - 1 != h.allocations && i < |h.slots| && h.slots[i].present
    case FreeTest(q, value, i, count) =>
      && Untouched(h, base) && Answered(base, q, value)
      && count == i <= |h.slots| && forall j :: 0 <= j < i ==> h.slots[j].present
    case WritePresent(q, value, i) =>
      Untouched(h, base) && Answered(base, q, value) && i == FirstFree(base.slots)
    case WriteStart(q, value, i) => Answered(base, q, value) && Writing(h, base, i)
    case WriteEnd(q, value, i) => Answered(base, q, value) && Writing(h, base, i) && h.slots[i].start == value
    case CountUp(q, value) =>
      && Answered(base, q, value)
      && h.slots == Put(base.slots, value, value + q.amount) && h.allocations == Live(base.slots)
    case FindTest(pointer, i) =>
      Untouched(h, base) && IsBlock(base, pointer) && i <= Find(base.slots, pointer)
    case ClearPresent(pointer, i) =>
      Untouched(h, base) && IsBlock(base, pointer) && i == Find(base.slots, pointer)
    case CountDown(pointer) =>
      IsBlock(base, pointer) && h.slots == Take(base.slots, pointer) && h.allocations == Live(base.slots)
    case Unlocking(op, value) =>
      && !op.Mark? && (op.Allocate? ==> op.q.Valid() && Answered(base, op.q, value))
      && Enabled(base, op) && h.slots == Apply(base, op).slots && h.allocations == Live(h.slots)
    case _ => false
  }

  ghost predicate Untouched(h: Holder, base: State) {
    h.slots == base.slots && h.allocations == Live(base.slots)
  }

  ghost predicate Answered(base: State, q: Request, value: nat) {
    q.amount > 0 && q.Valid() && value == Answer(base, q) && value + q.amount < WORD
  }

  /** Mid-write: slot `i` is present, every other slot is as it was. */
  ghost predicate Writing(h: Holder, base: State, i: nat) {
    && i == FirstFree(base.slots) && i < |h.slots| && h.slots[i].present
    && h.slots == Write(base.slots, i, h.slots[i]) && h.allocations == Live(base.slots)
  }

  /** `pointer` is the start of a live allocated block, and `unallocate` would find that block. */
  predicate IsBlock(s: State, pointer: nat) {
    s.marks <= Find(s.slots, pointer) < |s.slots|
  }

  lemma ScanTestKeeps(h: Holder, base: State, garbage: Slot)
    requires Holds(h, base) && h.thread.ScanTest?
    ensures ValidThread(h.thread) && Holds(CriticalStep(h, garbage), base)
  {
    var ScanTest(q, value, i, count) := h.thread;
    if count == h.allocations {
      ScanDone(base.slots, q, value, i, count);
    }
  }

  lemma ScanReadKeeps(h: Holder, base: State, garbage: Slot)
    requires Holds(h, base) && h.thread.ScanRead?
    ensures ValidThread(h.thread) && Holds(CriticalStep(h, garbage), base)
  {
    var ScanRead(q, value, i, count) := h.thread;
    ScanNext(base.slots, q, value, i, count);
  }

  lemma ScanCompareKeeps(h: Holder, base: State, garbage: Slot)
    requires Holds(h, base) && h.thread.ScanCompare?
    ensures ValidThread(h.thread) && Holds(CriticalStep(h, garbage), base)
  {
    var ScanCompare(q, value, i, count) := h.thread;
    ScanNext(base.slots, q, value, i, count - 1);
  }

  lemma StoreKeeps(h: Holder, base: State, garbage: Slot)
    requires ValidThread(h.thread) && Holds(h, base)
    requires h.thread.FreeTest? || h.thread.WritePresent? || h.thread.WriteStart? || h.thread.WriteEnd?
    ensures Holds(CriticalStep(h, garbage), base)
  {
    match h.thread
    case FreeTest(_, _, _, _) => FreeTestKeeps(h, base, garbage);
    case WritePresent(q, value, i) =>
    case WriteStart(q, value, i) =>
    case WriteEnd(q, value, i) =>
      assert CriticalStep(h, garbage).slots == Put(base.slots, value, value + q.amount);
  }

  lemma FreeTestKeeps(h: Holder, base: State, garbage: Slot)
    requires ValidThread(h.thread) && Holds(h, base) && h.thread.FreeTest?
    ensures Holds(CriticalStep(h, garbage), base)
  {
    var i := h.thread.i;
    LivePrefix(base.slots, i);
    LiveFull(base.slots[..i]);
    assert i == |base.slots| ==> base.slots[..i] == base.slots;
  }

  lemma CountUpKeeps(h: Holder, base: State, garbage: Slot)
    requires Holds(h, base) && h.thread.CountUp?
    ensures Holds(CriticalStep(h, garbage), base)
  {
    var CountUp(q, value) := h.thread;
    Counted(base, q, value, h.slots);
  }

  /** The record complete, the count goes up by one. */
  lemma Counted(base: State, q: Request, value: nat, slots: seq<Slot>)
    requires q.Valid() && value == Answer(base, q) && slots == Put(base.slots, value, value + q.amount)
    ensures Enabled(base, Allocate(q)) && slots == Apply(base, Allocate(q)).slots && Live(slots) == Live(base.slots) + 1
  {
    OneMore(base.slots, value, value + q.amount);
  }

  lemma OneMore(slots: seq<Slot>, start: nat, end: nat)
    ensures Live(Put(slots, start, end)) == Live(slots) + 1
  {
    PutAdds(slots, start, end);
  }

  lemma FreeKeeps(h: Holder, base: State, garbage: Slot)
    requires Holds(h, base) && (h.thread.FindTest? || h.thread.ClearPresent?)
    ensures Holds(CriticalStep(h, garbage), base)
  {
  }

  lemma CountDownKeeps(h: Holder, base: State, garbage: Slot)
    requires Holds(h, base) && h.thread.CountDown?
    ensures Holds(CriticalStep(h, garbage), base)
  {
    OneFewer(base.slots, h.thread.pointer);
  }

  lemma OneFewer(slots: seq<Slot>, start: nat)
    requires Find(slots, start) < |slots|
    ensures Live(slots) > 0 && Live(Take(slots, start)) == Live(slots) - 1
  {
    TakeRemoves(slots, start);
  }

  lemma CriticalStepKeeps(h: Holder, base: State, garbage: Slot)
    requires ValidThread(h.thread) && Holds(h, base)
    ensures Holds(CriticalStep(h, garbage), base)
  {
    match h.thread
    case ScanTest(_, _, _, _) => ScanTestKeeps(h, base, garbage);
    case ScanRead(_, _, _, _) => ScanReadKeeps(h, base, garbage);
    case ScanCompare(_, _, _, _) => ScanCompareKeeps(h, base, garbage);
    case FreeTest(_, _, _, _) => StoreKeeps(h, base, garbage);
    case WritePresent(_, _, _) => StoreKeeps(h, base, garbage);
    case WriteStart(_, _, _) => StoreKeeps(h, base, garbage);
    case WriteEnd(_, _, _) => StoreKeeps(h, base, garbage);
    case CountUp(_, _) => CountUpKeeps(h, base, garbage);
    case CountDown(_) => CountDownKeeps(h, base, garbage);
    case Unlocking(_, _) =>
    case _ => FreeKeeps(h, base, garbage);
  }

  // ---------- blocks across one operation ----------

  lemma AllocateBlocks(s: State, q: Request)
    requires AllocatorRuns.Inv(s) && Nonempty(s) && q.Valid() && q.amount > 0
    ensures var t := Apply(s, Allocate(q));
            && AllocatorRuns.Inv(t) && Nonempty(t)
            && !IsBlock(s, Answer(s, q)) && IsBlock(t, Answer(s, q))
            && forall p :: IsBlock(s, p) ==> IsBlock(t, p)
  {
    var t := Apply(s, Allocate(q));
    AllocateNonempty(s, q);
    StartsAreUnique(t, FirstFree(s.slots));
    forall p | IsBlock(s, p) ensures p != Answer(s, q) && IsBlock(t, p) {
      OtherBlockStays(s, q, p);
    }
  }

  lemma OtherBlockStays(s: State, q: Request, p: nat)
    requires AllocatorRuns.Inv(s) && Nonempty(s) && q.Valid() && q.amount > 0 && IsBlock(s, p)
    ensures p != Answer(s, q) && IsBlock(Apply(s, Allocate(q)), p)
  {
    var i := Find(s.slots, p);
    assert !Clash(s.slots[i], Answer(s, q), q.amount);
    AllocateNonempty(s, q);
    StartsAreUnique(Apply(s, Allocate(q)), i);
  }

  lemma UnallocateBlocks(s: State, pointer: nat)
    requires AllocatorRuns.Inv(s) && Nonempty(s) && IsBlock(s, pointer)
    ensures var t := Apply(s, Unallocate(pointer));
            && AllocatorRuns.Inv(t) && Nonempty(t)
            && forall p :: IsBlock(s, p) && p != pointer ==> IsBlock(t, p)
  {
    var t := Apply(s, Unallocate(pointer));
    UnallocateKeeps(s, pointer);
    forall p | IsBlock(s, p) && p != pointer ensures IsBlock(t, p) {
      StartsAreUnique(t, Find(s.slots, p));
    }
  }

  // ---------- the whole machine ----------

  /** `history` lists the completed operations in the order their lock was released; `owner` says which
      thread holds each block handed out and not yet passed to `unallocate`. */
  datatype Machine = Machine(slots: seq<Slot>, allocations: nat, locked: bool,
                             threads: map<nat, Thread>, owner: map<nat, nat>, history: seq<Op>)

  datatype Choice =
    | Begin(call: Call)           // an idle thread calls the allocator
    | Give(pointer: nat, to: nat) // a block changes hands
    | Go(garbage: Slot)           // the thread's next statement

  /** Callers ask for at least one byte, free only blocks they hold, and memory is not exhausted. */
  ghost predicate CanStep(m: Machine, t: nat, c: Choice) {
    && t in m.threads
    && match c
       case Begin(AllocateCall(q)) => m.threads[t].Idle? && q.Valid() && q.amount > 0
       case Begin(UnallocateCall(p)) => m.threads[t].Idle? && p in m.owner && m.owner[p] == t
       case Give(p, to) => p in m.owner && m.owner[p] == t && to in m.threads
       case Go(_) =>
         && !m.threads[t].Idle? && ValidThread(m.threads[t])
         && (m.threads[t].Locking? && m.threads[t].call.AllocateCall? && !m.locked
             ==> Fits(m.slots, m.threads[t].call.q))
  }

  ghost function Next(m: Machine, t: nat, c: Choice): Machine
    requires CanStep(m, t, c)
  {
    match c
    case Begin(call) =>
      m.(threads := m.threads[t := Locking(call)],
         owner := if call.UnallocateCall? then m.owner - {call.pointer} else m.owner)
    case Give(p, to) => m.(owner := m.owner[p := to])
    case Go(garbage) =>
      var th := m.threads[t];
      if th.Locking? then
        if m.locked then m  // the exchange fails: yield and try again
        else m.(locked := true, threads := m.threads[t := Enter(th.call)])
      else if th.Unlocking? then
        m.(locked := false, threads := m.threads[t := Idle], history := m.history + [th.op],
           owner := if th.op.Allocate? then m.owner[th.value := t] else m.owner)
      else
        var h := CriticalStep(Holder(m.slots, m.allocations, th), garbage);
        m.(slots := h.slots, allocations := h.allocations, threads := m.threads[t := h.thread])
  }

  /** The block a thread is in the course of freeing. */
  function Freeing(th: Thread): set<nat> {
    match th
    case Locking(UnallocateCall(p)) => {p}
    case FindTest(p, _) => {p}
    case ClearPresent(p, _) => {p}
    case CountDown(p) => {p}
    case Unlocking(Unallocate(p), _) => {p}
    case _ => {}
  }

  ghost predicate Inside(m: Machine, t: nat) {
    t in m.threads && InCriticalSection(m.threads[t])
  }

  /** At most one thread is between `lock` and `unlock`, and the lock byte says whether one is. */
  ghost predicate Exclusive(m: Machine) {
    && (forall t, u :: Inside(m, t) && Inside(m, u) ==> t == u)
    && (m.locked <==> exists t :: Inside(m, t))
  }

  ghost predicate FreesBlock(m: Machine, t: nat, p: nat) {
    t in m.threads && p in Freeing(m.threads[t])
  }

  /** Held blocks and blocks being freed are live, and no block is two of these at once. */
  ghost predicate Owned(m: Machine, base: State) {
    && (forall p :: p in m.owner ==> IsBlock(base, p))
    && (forall t, p :: FreesBlock(m, t, p) ==> IsBlock(base, p) && p !in m.owner)
    && (forall t, u, p :: FreesBlock(m, t, p) && FreesBlock(m, u, p) ==> t == u)
  }

  ghost predicate WellCalled(th: Thread) {
    ValidThread(th) && (th.Locking? && th.call.AllocateCall? ==> th.call.q.amount > 0)
  }

  /** The lock holder has got somewhere in its operation; with no holder the table is `base`. */
  ghost predicate Progress(m: Machine, base: State) {
    && (!m.locked ==> m.slots == base.slots && m.allocations == Live(base.slots))
    && (forall t :: Inside(m, t) ==> Holds(Holder(m.slots, m.allocations, m.threads[t]), base))
  }

  ghost predicate InvOver(m: Machine, base: State) {
    && AllocatorRuns.Inv(base) && Nonempty(base)
    && Exclusive(m) && Progress(m, base) && Owned(m, base)
    && forall t :: t in m.threads ==> WellCalled(m.threads[t])
  }

  ghost predicate Inv(m: Machine) {
    Legal(m.history) && InvOver(m, Exec(m.history))
  }

  /** One thread moved, and only inside the critical section or into it. */
  lemma MovedKeepsOwned(m: Machine, m': Machine, t: nat, base: State)
    requires t in m.threads && m'.threads.Keys == m.threads.Keys && m'.owner == m.owner
    requires forall u :: u in m.threads && u != t ==> m'.threads[u] == m.threads[u]
    requires Freeing(m'.threads[t]) == Freeing(m.threads[t])
    requires Owned(m, base)
    ensures Owned(m', base)
  {
    assert forall u, p :: FreesBlock(m', u, p) <==> FreesBlock(m, u, p);
  }

  lemma EnterHolds(slots: seq<Slot>, allocations: nat, base: State, th: Thread)
    requires th.Locking? && WellCalled(th)
    requires slots == base.slots && allocations == Live(base.slots)
    requires th.call.AllocateCall? ==> Fits(slots, th.call.q)
    requires th.call.UnallocateCall? ==> IsBlock(base, th.call.pointer)
    ensures Holds(Holder(slots, allocations, Enter(th.call)), base)
  {
  }

  lemma LockKeeps(m: Machine, t: nat, c: Choice, base: State)
    requires InvOver(m, base) && CanStep(m, t, c) && c.Go? && m.threads[t].Locking? && !m.locked
    ensures InvOver(Next(m, t, c), base)
  {
    var m' := Next(m, t, c);
    var th := m.threads[t];
    assert th.call.UnallocateCall? ==> FreesBlock(m, t, th.call.pointer);
    EnterHolds(m.slots, m.allocations, base, th);
    MovedKeepsOwned(m, m', t, base);
    assert Inside(m', t);
    assert forall u :: Inside(m', u) ==> u == t || Inside(m, u);
  }

  lemma CriticalKeeps(m: Machine, t: nat, c: Choice, base: State)
    requires InvOver(m, base) && CanStep(m, t, c) && c.Go? && Inside(m, t) && !m.threads[t].Unlocking?
    ensures InvOver(Next(m, t, c), base)
  {
    var h := Holder(m.slots, m.allocations, m.threads[t]);
    CriticalStepKeeps(h, base, c.garbage);
    StaysInside(h, c.garbage);
    var m' := Next(m, t, c);
    MovedKeepsOwned(m, m', t, base);
    assert Inside(m', t);
    assert forall u :: Inside(m', u) ==> Inside(m, u);
  }

  lemma StaysInside(h: Holder, garbage: Slot)
    requires ValidThread(h.thread) && InCriticalSection(h.thread) && !h.thread.Unlocking?
    ensures var th := CriticalStep(h, garbage).thread;
            InCriticalSection(th) && ValidThread(th) && Freeing(th) == Freeing(h.thread)
  {
  }

  /** Releasing the lock after `op`: the table now is the one `op` leaves, and the blocks have moved on. */
  lemma UnlockKeeps(m: Machine, t: nat, c: Choice, base: State)
    requires InvOver(m, base) && CanStep(m, t, c) && c.Go? && Inside(m, t) && m.threads[t].Unlocking?
    ensures Enabled(base, m.threads[t].op)
    ensures InvOver(Next(m, t, c), Apply(base, m.threads[t].op))
  {
    var th := m.threads[t];
    assert Holds(Holder(m.slots, m.allocations, th), base);
    var m' := Next(m, t, c);
    assert forall u :: Inside(m', u) ==> u != t && Inside(m, u);
    if th.op.Allocate? {
      AllocateBlocks(base, th.op.q);
      AllocateOwned(m, m', t, base);
    } else {
      assert FreesBlock(m, t, th.op.pointer);
      UnallocateBlocks(base, th.op.pointer);
      UnallocateOwned(m, m', t, base);
    }
  }

  /** What a thread returns, when it releases the lock, is recorded in full and was free when it took it. */
  lemma UnlockAnswers(m: Machine, t: nat, base: State)
    requires InvOver(m, base) && Inside(m, t) && m.threads[t].Unlocking? && m.threads[t].op.Allocate?
    ensures var amount := m.threads[t].op.q.amount;
            Recorded(m.slots, m.threads[t].value, amount) && Feasible(base.slots, m.threads[t].value, amount)
  {
    var th := m.threads[t];
    assert Holds(Holder(m.slots, m.allocations, th), base);
    assert m.slots[FirstFree(base.slots)] == Slot(true, th.value, th.value + th.op.q.amount);
  }

  lemma AllocateOwned(m: Machine, m': Machine, t: nat, base: State)
    requires AllocatorRuns.Inv(base) && Nonempty(base) && Owned(m, base)
    requires t in m.threads && m.threads[t].Unlocking? && m.threads[t].op.Allocate?
    requires var op := m.threads[t].op; op.q.Valid() && op.q.amount > 0 && m.threads[t].value == Answer(base, op.q)
    requires m'.threads == m.threads[t := Idle] && m'.owner == m.owner[m.threads[t].value := t]
    ensures Owned(m', Apply(base, m.threads[t].op))
  {
    AllocateBlocks(base, m.threads[t].op.q);
    assert forall u, p :: FreesBlock(m', u, p) ==> FreesBlock(m, u, p);
  }

  lemma UnallocateOwned(m: Machine, m': Machine, t: nat, base: State)
    requires AllocatorRuns.Inv(base) && Nonempty(base) && Owned(m, base)
    requires t in m.threads && m.threads[t].Unlocking? && m.threads[t].op.Unallocate?
    requires m'.threads == m.threads[t := Idle] && m'.owner == m.owner
    ensures IsBlock(base, m.threads[t].op.pointer) && Owned(m', Apply(base, m.threads[t].op))
  {
    var gone := m.threads[t].op.pointer;
    assert FreesBlock(m, t, gone);
    UnallocateBlocks(base, gone);
    assert forall u, p :: FreesBlock(m', u, p) ==> FreesBlock(m, u, p) && u != t;
  }

  lemma BeginKeeps(m: Machine, t: nat, c: Choice, base: State)
    requires InvOver(m, base) && CanStep(m, t, c) && c.Begin?
    ensures InvOver(Next(m, t, c), base)
  {
    var m' := Next(m, t, c);
    assert forall u :: Inside(m', u) <==> Inside(m, u);
    BeginOwned(m, m', t, c.call, base);
  }

  lemma BeginOwned(m: Machine, m': Machine, t: nat, call: Call, base: State)
    requires Owned(m, base) && t in m.threads && m.threads[t].Idle?
    requires m'.threads == m.threads[t := Locking(call)]
    requires call.AllocateCall? ==> m'.owner == m.owner
    requires call.UnallocateCall? ==> call.pointer in m.owner && m'.owner == m.owner - {call.pointer}
    ensures Owned(m', base)
  {
    assert forall u, p :: FreesBlock(m', u, p) && u != t ==> FreesBlock(m, u, p);
    assert forall p :: FreesBlock(m', t, p) ==> call.UnallocateCall? && p == call.pointer;
  }

  lemma GiveKeeps(m: Machine, t: nat, c: Choice, base: State)
    requires InvOver(m, base) && CanStep(m, t, c) && c.Give?
    ensures InvOver(Next(m, t, c), base)
  {
    var m' := Next(m, t, c);
    assert forall u :: Inside(m', u) <==> Inside(m, u);
    assert forall u, p :: FreesBlock(m', u, p) <==> FreesBlock(m, u, p);
  }

  lemma StepKeeps(m: Machine, t: nat, c: Choice)
    requires Inv(m) && CanStep(m, t, c)
    ensures Inv(Next(m, t, c))
  {
    var base := Exec(m.history);
    match c
    case Begin(_) => BeginKeeps(m, t, c, base);
    case Give(_, _) => GiveKeeps(m, t, c, base);
    case Go(_) =>
      if m.threads[t].Locking? {
        if !m.locked {
          LockKeeps(m, t, c, base);
        }
      } else if m.threads[t].Unlocking? {
        UnlockKeeps(m, t, c, base);
        ExecMore(m.history, m.threads[t].op);
      } else {
        CriticalKeeps(m, t, c, base);
      }
  }

  lemma ExecMore(ops: seq<Op>, op: Op)
    requires Legal(ops) && Enabled(Exec(ops), op)
    ensures Legal(ops + [op]) && Exec(ops + [op]) == Apply(Exec(ops), op)
  {
    assert (ops + [op])[..|ops|] == ops;
  }

  /** Start of the kernel: some memory marked unusable, every thread outside the allocator. */
  ghost predicate Init(m: Machine) {
    && Legal(m.history)
    && (forall i :: 0 <= i < |m.history| ==> m.history[i].Mark? && m.history[i].start < m.history[i].end)
    && m.slots == Exec(m.history).slots && m.allocations == Live(m.slots)
    && !m.locked && m.owner == map[] && forall t :: t in m.threads ==> m.threads[t].Idle?
  }

  lemma {:induction false} MarksAreNonempty(ops: seq<Op>)
    requires Legal(ops) && forall i :: 0 <= i < |ops| ==> ops[i].Mark? && ops[i].start < ops[i].end
    ensures Nonempty(Exec(ops))
  {
    if ops != [] {
      MarksAreNonempty(ops[..|ops| - 1]);
    }
  }

  ghost predicate CanRun(m: Machine, steps: seq<(nat, Choice)>)
    decreases |steps|
  {
    steps == [] || (CanStep(m, steps[0].0, steps[0].1) && CanRun(Next(m, steps[0].0, steps[0].1), steps[1..]))
  }

  ghost function Run(m: Machine, steps: seq<(nat, Choice)>): Machine
    requires CanRun(m, steps)
    decreases |steps|
  {
    if steps == [] then m else Run(Next(m, steps[0].0, steps[0].1), steps[1..])
  }

  lemma {:induction false} RunKeeps(m: Machine, steps: seq<(nat, Choice)>)
    requires Inv(m) && CanRun(m, steps)
    ensures Inv(Run(m, steps))
    decreases |steps|
  {
    if steps != [] {
      StepKeeps(m, steps[0].0, steps[0].1);
      RunKeeps(Next(m, steps[0].0, steps[0].1), steps[1..]);
    }
  }

  /** For any threads and any interleaving: at most one thread is between `lock` and `unlock`; whenever
      the lock is free the table is the one the completed operations leave when run one after another;
      and the blocks the threads hold do not overlap. */
  lemma InterleavedRunsAreSafe(m: Machine, steps: seq<(nat, Choice)>)
    requires Init(m) && CanRun(m, steps)
    ensures var n := Run(m, steps);
            && Exclusive(n)
            && Legal(n.history)
            && (!n.locked ==> n.slots == Exec(n.history).slots && n.allocations == Live(n.slots))
            && HeldApart(n)
  {
    RunsKeep(m.history);
    MarksAreNonempty(m.history);
    RunKeeps(m, steps);
    var n := Run(m, steps);
    var s := Exec(n.history);
    forall p, r | p in n.owner && r in n.owner && p != r
      ensures IsBlock(s, p) && IsBlock(s, r) && (BlockEnd(s, p) <= r || BlockEnd(s, r) <= p)
    {
      OwnedApart(n, s, p, r);
    }
  }

  lemma OwnedApart(m: Machine, s: State, p: nat, r: nat)
    requires AllocatorRuns.Inv(s) && Owned(m, s) && p in m.owner && r in m.owner && p != r
    ensures IsBlock(s, p) && IsBlock(s, r) && (BlockEnd(s, p) <= r || BlockEnd(s, r) <= p)
  {
    assert ApartSlots(s.slots[Find(s.slots, p)], s.slots[Find(s.slots, r)]);
  }

  function BlockEnd(s: State, p: nat): nat
    requires IsBlock(s, p)
  {
    s.slots[Find(s.slots, p)].end
  }

  ghost predicate HeldApart(m: Machine) {
    && Legal(m.history)
    && var s := Exec(m.history);
       forall p, r :: p in m.owner && r in m.owner && p != r
         ==> IsBlock(s, p) && IsBlock(s, r) && (BlockEnd(s, p) <= r || BlockEnd(s, r) <= p)
  }
}
