/** One party among all that use the allocator: who frees just what it was given leaves the others' records
    alone, whatever they do in between; and a process, from `execute` to the cleaner, is such a party. */
module Parties {
  import opened Rings
  import opened SlotTable
  import opened AllocatorRuns
  import opened Lifetimes

  /** The blocks the party was given and has not freed: their ends by their starts. */
  ghost function Holding(ops: seq<Op>, mine: set<nat>): map<nat, nat>
    requires Legal(ops)
  {
    if ops == [] then map[]
    else
      var n := |ops| - 1;
      HoldingAfter(Holding(ops[..n], mine), Exec(ops[..n]), ops[n], n in mine)
  }

  ghost function HoldingAfter(h: map<nat, nat>, s: State, op: Op, isMine: bool): map<nat, nat>
    requires Enabled(s, op)
  {
    if !isMine then h
    else match op
      case Mark(_, _) => h
      case Allocate(q) => h[Answer(s, q) := Answer(s, q) + q.amount]
      case Unallocate(p) => h - {p}
  }

  /** Nobody asks for an empty block, the party marks nothing and frees only what it holds, and the others
      free nothing of it. */
  ghost predicate Fair(h: map<nat, nat>, op: Op, isMine: bool) {
    match op
    case Mark(start, end) => start < end && !isMine
    case Allocate(q) => q.amount > 0
    case Unallocate(p) => isMine <==> p in h
  }

  ghost predicate AllFair(ops: seq<Op>, mine: set<nat>)
    requires Legal(ops)
  {
    ops == []
    || (var n := |ops| - 1;
        AllFair(ops[..n], mine) && Fair(Holding(ops[..n], mine), ops[n], n in mine))
  }

  // ---------- what the party holds is live ----------

  ghost predicate At(s: State, i: nat, start: nat, end: nat) {
    s.marks <= i < |s.slots| && s.slots[i] == Slot(true, start, end)
  }

  ghost predicate Live(s: State, start: nat, end: nat) {
    exists i: nat :: At(s, i, start, end)
  }

  ghost predicate AllLive(s: State, h: map<nat, nat>) {
    forall p :: p in h ==> Live(s, p, h[p])
  }

  lemma MarkLive(s: State, op: Op, h: map<nat, nat>)
    requires Inv(s) && Nonempty(s) && Enabled(s, op) && op.Mark? && op.start < op.end && AllLive(s, h)
    ensures Nonempty(Apply(s, op)) && AllLive(Apply(s, op), h)
  {
    var t := Apply(s, op);
    assert FirstFree(s.slots) == |s.slots|;
    assert t.slots == s.slots + [Slot(true, op.start, op.end)];
  }

  lemma GrantLive(s: State, q: Request, h: map<nat, nat>, v: nat, t: State)
    requires Inv(s) && Nonempty(s) && q.Valid() && q.amount > 0 && AllLive(s, h)
    requires v == Answer(s, q) && t == Apply(s, Allocate(q))
    ensures Nonempty(t) && v !in h && AllLive(t, h) && AllLive(t, h[v := v + q.amount])
  {
    AllocateNonempty(s, q);
    var k := FirstFree(s.slots);
    StaysLive(s, h, k, t);
    GrantFresh(s, h, v, q.amount);
    assert At(t, k, v, v + q.amount);
    OneMoreLive(t, h, v, v + q.amount);
  }

  lemma OneMoreLive(t: State, h: map<nat, nat>, v: nat, end: nat)
    requires AllLive(t, h) && Live(t, v, end)
    ensures AllLive(t, h[v := end])
  {
  }

  lemma GrantFresh(s: State, h: map<nat, nat>, v: nat, amount: nat)
    requires Nonempty(s) && AllLive(s, h) && Feasible(s.slots, v, amount) && amount > 0
    ensures v !in h
  {
    forall p | p in h ensures p != v {
      assert Live(s, p, h[p]);
      var i: nat :| At(s, i, p, h[p]);
      assert !Clash(s.slots[i], v, amount);
    }
  }

  lemma StaysLive(s: State, h: map<nat, nat>, k: nat, t: State)
    requires AllLive(s, h) && t.marks == s.marks && |t.slots| >= |s.slots|
    requires k < |s.slots| ==> !s.slots[k].present
    requires forall i :: 0 <= i < |s.slots| && i != k ==> t.slots[i] == s.slots[i]
    ensures AllLive(t, h)
  {
    forall p | p in h ensures Live(t, p, h[p]) {
      assert Live(s, p, h[p]);
      var i: nat :| At(s, i, p, h[p]);
      assert At(t, i, p, h[p]);
    }
  }

  lemma FreeLive(s: State, p: nat, h: map<nat, nat>, t: State)
    requires Inv(s) && Nonempty(s) && Enabled(s, Unallocate(p)) && AllLive(s, h)
    requires t == Apply(s, Unallocate(p))
    ensures Nonempty(t) && AllLive(t, h - {p})
  {
    forall r | r in h && r != p ensures Live(t, r, h[r]) {
      var i: nat :| At(s, i, r, h[r]);
      assert At(t, i, r, h[r]);
    }
  }

  /** A held block's start finds its own record. */
  lemma HeldFinds(s: State, h: map<nat, nat>, p: nat)
    requires Inv(s) && Nonempty(s) && AllLive(s, h) && p in h
    ensures Enabled(s, Unallocate(p)) && s.slots[Find(s.slots, p)].end == h[p]
  {
    var i: nat :| At(s, i, p, h[p]);
    StartsAreUnique(s, i);
  }

  // ---------- the party's account ----------

  /** `given` is what `back` is and the held blocks. */
  ghost predicate Account(given: multiset<(nat, nat)>, back: multiset<(nat, nat)>, h: map<nat, nat>) {
    forall start: nat, end: nat :: given[(start, end)] == back[(start, end)] + Holds(h, start, end)
  }

  ghost function Holds(h: map<nat, nat>, start: nat, end: nat): nat {
    if start in h && h[start] == end then 1 else 0
  }

  lemma AccountGrant(given: multiset<(nat, nat)>, back: multiset<(nat, nat)>, h: map<nat, nat>, v: nat, end: nat)
    requires Account(given, back, h) && v !in h
    ensures Account(given + multiset{(v, end)}, back + multiset{}, h[v := end])
  {
    forall s: nat, e: nat
      ensures (given + multiset{(v, end)})[(s, e)] == (back + multiset{})[(s, e)] + Holds(h[v := end], s, e)
    {
      assert given[(s, e)] == back[(s, e)] + Holds(h, s, e);
    }
  }

  lemma AccountFree(given: multiset<(nat, nat)>, back: multiset<(nat, nat)>, h: map<nat, nat>, p: nat)
    requires Account(given, back, h) && p in h
    ensures Account(given + multiset{}, back + multiset{(p, h[p])}, h - {p})
  {
    forall s: nat, e: nat
      ensures (given + multiset{})[(s, e)] == (back + multiset{(p, h[p])})[(s, e)] + Holds(h - {p}, s, e)
    {
      assert given[(s, e)] == back[(s, e)] + Holds(h, s, e);
    }
  }

  /** Over every run: what the party was given is what it gave back and what it holds, and every block it
      holds is live under its own start. */
  lemma {:induction false} PartyAccount(ops: seq<Op>, mine: set<nat>)
    requires Legal(ops) && AllFair(ops, mine)
    ensures Inv(Exec(ops)) && Nonempty(Exec(ops)) && AllLive(Exec(ops), Holding(ops, mine))
    ensures Account(AddedBy(ops, mine), RemovedBy(ops, mine), Holding(ops, mine))
  {
    if ops != [] {
      var n := |ops| - 1;
      var s, h, op := Exec(ops[..n]), Holding(ops[..n], mine), ops[n];
      PartyAccount(ops[..n], mine);
      ApplyKeeps(s, op);
      AccountStep(s, h, op, n in mine, AddedBy(ops[..n], mine), RemovedBy(ops[..n], mine),
                  AddedBy(ops, mine), RemovedBy(ops, mine));
    }
  }

  /** The account after one operation. */
  lemma AccountStep(s: State, h: map<nat, nat>, op: Op, isMine: bool, given: multiset<(nat, nat)>,
                    back: multiset<(nat, nat)>, given': multiset<(nat, nat)>, back': multiset<(nat, nat)>)
    requires Inv(s) && Nonempty(s) && Enabled(s, op) && Fair(h, op, isMine) && AllLive(s, h) && Account(given, back, h)
    requires given' == given + (if isMine then Added(s, op) else multiset{})
    requires back' == back + (if isMine then Removed(s, op) else multiset{})
    ensures Nonempty(Apply(s, op)) && AllLive(Apply(s, op), HoldingAfter(h, s, op, isMine))
    ensures Account(given', back', HoldingAfter(h, s, op, isMine))
  {
    if isMine {
      MyStep(s, h, op, given, back, given', back');
    } else {
      assert given' == given && back' == back;
      match op
      case Mark(_, _) => MarkLive(s, op, h);
      case Allocate(q) => GrantLive(s, q, h, Answer(s, q), Apply(s, op));
      case Unallocate(p) => AccountUnallocate(s, h, p, false, given, back);
    }
  }

  lemma MyStep(s: State, h: map<nat, nat>, op: Op, given: multiset<(nat, nat)>,
               back: multiset<(nat, nat)>, given': multiset<(nat, nat)>, back': multiset<(nat, nat)>)
    requires Inv(s) && Nonempty(s) && Enabled(s, op) && Fair(h, op, true) && AllLive(s, h) && Account(given, back, h)
    requires given' == given + Added(s, op) && back' == back + Removed(s, op)
    ensures Nonempty(Apply(s, op)) && AllLive(Apply(s, op), HoldingAfter(h, s, op, true))
    ensures Account(given', back', HoldingAfter(h, s, op, true))
  {
    match op
    case Allocate(q) => MyAllocate(s, h, q, given, back, given', back');
    case Unallocate(p) => MyUnallocate(s, h, p, given, back, given', back');
  }

  lemma MyAllocate(s: State, h: map<nat, nat>, q: Request, given: multiset<(nat, nat)>, back: multiset<(nat, nat)>,
                   given': multiset<(nat, nat)>, back': multiset<(nat, nat)>)
    requires Inv(s) && Nonempty(s) && q.Valid() && q.amount > 0 && AllLive(s, h) && Account(given, back, h)
    requires given' == given + Added(s, Allocate(q)) && back' == back + Removed(s, Allocate(q))
    ensures Nonempty(Apply(s, Allocate(q))) && AllLive(Apply(s, Allocate(q)), HoldingAfter(h, s, Allocate(q), true))
    ensures Account(given', back', HoldingAfter(h, s, Allocate(q), true))
  {
    AccountAllocate(s, h, q, given, back);
  }

  lemma MyUnallocate(s: State, h: map<nat, nat>, p: nat, given: multiset<(nat, nat)>, back: multiset<(nat, nat)>,
                     given': multiset<(nat, nat)>, back': multiset<(nat, nat)>)
    requires Inv(s) && Nonempty(s) && Enabled(s, Unallocate(p)) && p in h && AllLive(s, h) && Account(given, back, h)
    requires given' == given + Added(s, Unallocate(p)) && back' == back + Removed(s, Unallocate(p))
    ensures Nonempty(Apply(s, Unallocate(p))) && AllLive(Apply(s, Unallocate(p)), HoldingAfter(h, s, Unallocate(p), true))
    ensures Account(given', back', HoldingAfter(h, s, Unallocate(p), true))
  {
    AccountUnallocate(s, h, p, true, given, back);
  }

  lemma AccountAllocate(s: State, h: map<nat, nat>, q: Request, given: multiset<(nat, nat)>, back: multiset<(nat, nat)>)
    requires Inv(s) && Nonempty(s) && q.Valid() && q.amount > 0 && AllLive(s, h) && Account(given, back, h)
    ensures var t, v := Apply(s, Allocate(q)), Answer(s, q);
            && Nonempty(t) && AllLive(t, h) && AllLive(t, h[v := v + q.amount])
            && Account(given + multiset{(v, v + q.amount)}, back + multiset{}, h[v := v + q.amount])
  {
    var v := Answer(s, q);
    GrantLive(s, q, h, v, Apply(s, Allocate(q)));
    AccountGrant(given, back, h, v, v + q.amount);
  }

  lemma AccountUnallocate(s: State, h: map<nat, nat>, p: nat, isMine: bool, given: multiset<(nat, nat)>,
                          back: multiset<(nat, nat)>)
    requires Inv(s) && Nonempty(s) && Enabled(s, Unallocate(p)) && AllLive(s, h) && Account(given, back, h)
    requires isMine <==> p in h
    ensures var t := Apply(s, Unallocate(p));
            Nonempty(t) && AllLive(t, if isMine then h - {p} else h)
    ensures isMine ==>
              Account(given + multiset{}, back + multiset{(p, s.slots[Find(s.slots, p)].end)}, h - {p})
  {
    FreeLive(s, p, h, Apply(s, Unallocate(p)));
    if isMine {
      HeldFinds(s, h, p);
      AccountFree(given, back, h, p);
    } else {
      assert h - {p} == h;
    }
  }

  /** A party that holds nothing any more is balanced, so the live records are what the others alone account
      for. */
  lemma SettledPartyIsNeutral(ops: seq<Op>, mine: set<nat>, rest: set<nat>)
    requires Legal(ops) && forall i :: 0 <= i < |ops| ==> (i in mine <==> i !in rest)
    requires AllFair(ops, mine) && Holding(ops, mine) == map[]
    ensures AddedBy(ops, mine) == RemovedBy(ops, mine)
    ensures Records(Exec(ops).slots) + RemovedBy(ops, rest) == AddedBy(ops, rest)
  {
    PartyAccount(ops, mine);
    var given, back := AddedBy(ops, mine), RemovedBy(ops, mine);
    forall r: (nat, nat) ensures given[r] == back[r] {
      assert given[(r.0, r.1)] == back[(r.0, r.1)] + Holds(map[], r.0, r.1);
    }
    assert given == back;
    BalancedPartyIsNeutral(ops, mine, rest);
  }

  // ---------- a process is such a party ----------

  /** How far a process has come, and the addresses it was given. */
  datatype Life = Life(stage: Stage, p: Process, name: nat)

  /** The next call to the allocator; `Over` when the cleaner has been. */
  datatype Stage =
    | TakeProgram | TakeName | TakeSymbols | FreeName | TakeTable | TakeThread | TakeStack
    | FreeProgram | FreeTable | FreeSymbols | FreeStack | FreeThread | Over

  /** The call a process makes at its stage. */
  function Call(l: Life, x: Image): Op
    requires x.size > 0 && !l.stage.Over?
  {
    match l.stage
    case TakeProgram => Allocate(ProgramOf(x))
    case TakeName => Allocate(NameOf(x))
    case TakeSymbols => Allocate(SymbolsFor(x))
    case FreeName => Unallocate(l.name)
    case TakeTable => Allocate(TableOf(x.size))
    case TakeThread => Allocate(THREAD)
    case TakeStack => Allocate(STACK)
    case FreeProgram => Unallocate(l.p.program)
    case FreeTable => Unallocate(l.p.table)
    case FreeSymbols => Unallocate(l.p.symbols)
    case FreeStack => Unallocate(l.p.stack)
    case FreeThread => Unallocate(l.p.thread)
  }

  /** The process after its call, `v` being the address an allocation gave it. */
  function Advance(l: Life, x: Image, v: nat): Life
    requires !l.stage.Over?
  {
    match l.stage
    case TakeProgram => l.(stage := TakeName, p := l.p.(program := v))
    case TakeName => l.(stage := if x.hasSymbols then TakeSymbols else FreeName, name := v)
    case TakeSymbols => l.(stage := FreeName, p := l.p.(symbols := v))
    case FreeName => l.(stage := TakeTable)
    case TakeTable => l.(stage := TakeThread, p := l.p.(table := v))
    case TakeThread => l.(stage := TakeStack, p := l.p.(thread := v))
    case TakeStack => l.(stage := FreeProgram, p := l.p.(stack := v))
    case FreeProgram => l.(stage := FreeTable)
    case FreeTable => l.(stage := if l.p.symbols != 0 then FreeSymbols else FreeStack)
    case FreeSymbols => l.(stage := FreeStack)
    case FreeStack => l.(stage := FreeThread)
    case FreeThread => l.(stage := Over)
  }

  const UNBORN := Life(TakeProgram, Process(0, 0, 0, 0, 0), 0)

  function Given(s: State, op: Op): nat
    requires Enabled(s, op)
  {
    match op
    case Allocate(q) => Answer(s, q)
    case _ => 0
  }

  /** The party's operations in the run are the calls of one process, in order. */
  ghost predicate IsProcess(ops: seq<Op>, mine: set<nat>, x: Image)
    requires Legal(ops) && x.size > 0
    decreases |ops|, 0
  {
    ops == []
    || (var n := |ops| - 1;
        && IsProcess(ops[..n], mine, x)
        && (n in mine ==> var l := LifeOf(ops[..n], mine, x); !l.stage.Over? && ops[n] == Call(l, x)))
  }

  ghost function LifeOf(ops: seq<Op>, mine: set<nat>, x: Image): Life
    requires Legal(ops) && x.size > 0 && IsProcess(ops, mine, x)
    decreases |ops|, 1
  {
    if ops == [] then UNBORN
    else
      var n := |ops| - 1;
      var l := LifeOf(ops[..n], mine, x);
      if n in mine then Advance(l, x, Given(Exec(ops[..n]), ops[n])) else l
  }

  /** Nobody asks for an empty block or marks one, and the others free nothing the party holds. */
  ghost predicate OthersFair(ops: seq<Op>, mine: set<nat>)
    requires Legal(ops)
  {
    ops == []
    || (var n := |ops| - 1;
        && OthersFair(ops[..n], mine)
        && (n !in mine ==> Fair(Holding(ops[..n], mine), ops[n], false)))
  }

  /** The blocks a process holds at its stage. */
  function Held(l: Life): seq<nat> {
    var p := l.p;
    var symbols := if p.symbols != 0 then [p.symbols] else [];
    match l.stage
    case TakeProgram => []
    case TakeName => [p.program]
    case TakeSymbols => [p.program, l.name]
    case FreeName => [p.program, l.name] + symbols
    case TakeTable => [p.program] + symbols
    case TakeThread => [p.program] + symbols + [p.table]
    case TakeStack => [p.program] + symbols + [p.table, p.thread]
    case FreeProgram => [p.program] + symbols + [p.table, p.thread, p.stack]
    case FreeTable => symbols + [p.table, p.thread, p.stack]
    case FreeSymbols => [p.symbols, p.thread, p.stack]
    case FreeStack => [p.thread, p.stack]
    case FreeThread => [p.thread]
    case Over => []
  }

  ghost predicate Holder(l: Life, x: Image, starts: set<nat>) {
    && Distinct(Held(l)) && (forall p :: p in starts <==> p in Held(l))
    && (l.stage.TakeProgram? || l.stage.TakeName? || l.stage.TakeSymbols? ==> l.p.symbols == 0)
    && (l.stage.FreeSymbols? ==> l.p.symbols != 0) && (l.stage.TakeSymbols? ==> x.hasSymbols)
  }

  lemma TakeHolds(l: Life, x: Image, v: nat, starts: set<nat>)
    requires x.size > 0 && !l.stage.Over? && Call(l, x).Allocate? && Holder(l, x, starts) && v !in starts && v != 0
    ensures Holder(Advance(l, x, v), x, starts + {v})
  {
    assert Held(Advance(l, x, v)) == Held(l) + [v];
    Appending(Held(l), v, starts);
  }

  lemma Appending(held: seq<nat>, v: nat, starts: set<nat>)
    requires Distinct(held) && (forall p :: p in starts <==> p in held) && v !in starts
    ensures Distinct(held + [v]) && forall p :: p in starts + {v} <==> p in held + [v]
  {
    assert forall i :: 0 <= i < |held| ==> held[i] in held;
  }

  /** Where the block stands that a process is about to free. */
  function Place(l: Life): nat {
    match l.stage
    case FreeName => 1
    case FreeTable => if l.p.symbols != 0 then 1 else 0
    case FreeStack => 1
    case _ => 0
  }

  lemma FreeHolds(l: Life, x: Image, v: nat, starts: set<nat>)
    requires x.size > 0 && !l.stage.Over? && Call(l, x).Unallocate? && Holder(l, x, starts)
    ensures Call(l, x).pointer in starts
    ensures Holder(Advance(l, x, v), x, starts - {Call(l, x).pointer})
  {
    var h, k := Held(l), Place(l);
    assert k < |h| && h[k] == Call(l, x).pointer;
    assert Held(Advance(l, x, v)) == Without(h, k);
    Removing(h, k, starts);
  }

  lemma Removing(held: seq<nat>, k: nat, starts: set<nat>)
    requires Distinct(held) && (forall p :: p in starts <==> p in held) && k < |held|
    ensures Distinct(Without(held, k)) && forall p :: p in starts - {held[k]} <==> p in Without(held, k)
  {
    WithoutDistinct(held, k);
  }

  /** The process holds just the blocks of its stage, and what it frees is its own, so that the run is fair. */
  lemma {:induction false} ProcessIsFair(ops: seq<Op>, mine: set<nat>, x: Image)
    requires x.size > 0 && Legal(ops) && IsProcess(ops, mine, x) && OthersFair(ops, mine)
    requires x.hasSymbols ==> x.SymbolsSize() > 0
    ensures AllFair(ops, mine) && Holder(LifeOf(ops, mine, x), x, Holding(ops, mine).Keys)
  {
    if ops != [] {
      var n := |ops| - 1;
      var s, l, h := Exec(ops[..n]), LifeOf(ops[..n], mine, x), Holding(ops[..n], mine);
      ProcessIsFair(ops[..n], mine, x);
      PartyAccount(ops[..n], mine);
      if n in mine {
        CallHolds(s, l, x, h, ops[n]);
      }
    }
  }

  lemma CallHolds(s: State, l: Life, x: Image, h: map<nat, nat>, op: Op)
    requires x.size > 0 && (x.hasSymbols ==> x.SymbolsSize() > 0) && !l.stage.Over? && op == Call(l, x)
    requires Inv(s) && Nonempty(s) && Enabled(s, op) && AllLive(s, h) && Holder(l, x, h.Keys)
    ensures Fair(h, op, true)
    ensures Holder(Advance(l, x, Given(s, op)), x, HoldingAfter(h, s, op, true).Keys)
  {
    match op
    case Allocate(q) =>
      var v := Answer(s, q);
      GrantFresh(s, h, v, q.amount);
      TakeHolds(l, x, v, h.Keys);
      assert h[v := v + q.amount].Keys == h.Keys + {v};
    case Unallocate(p) =>
      FreeHolds(l, x, 0, h.Keys);
      assert (h - {p}).Keys == h.Keys - {p};
  }

  /** Whatever the other parties do between its calls, a process that has come to its end has freed exactly the
      blocks it was given, and the live records are what the others alone account for. */
  lemma ProcessIsNeutral(ops: seq<Op>, mine: set<nat>, rest: set<nat>, x: Image)
    requires x.size > 0 && Legal(ops) && IsProcess(ops, mine, x) && OthersFair(ops, mine)
    requires x.hasSymbols ==> x.SymbolsSize() > 0
    requires forall i :: 0 <= i < |ops| ==> (i in mine <==> i !in rest)
    requires LifeOf(ops, mine, x).stage.Over?
    ensures AddedBy(ops, mine) == RemovedBy(ops, mine)
    ensures Records(Exec(ops).slots) + RemovedBy(ops, rest) == AddedBy(ops, rest)
  {
    ProcessIsFair(ops, mine, x);
    EmptyHanded(LifeOf(ops, mine, x), x, Holding(ops, mine));
    SettledPartyIsNeutral(ops, mine, rest);
  }

  lemma EmptyHanded(l: Life, x: Image, h: map<nat, nat>)
    requires Holder(l, x, h.Keys) && l.stage.Over?
    ensures h == map[]
  {
    assert h.Keys == {};
  }

  /** At any moment each of its blocks can be freed, and freeing it clears its own record. */
  lemma ProcessHoldsItsBlocks(ops: seq<Op>, mine: set<nat>, x: Image, p: nat)
    requires x.size > 0 && Legal(ops) && IsProcess(ops, mine, x) && OthersFair(ops, mine)
    requires x.hasSymbols ==> x.SymbolsSize() > 0
    requires p in Held(LifeOf(ops, mine, x))
    ensures p in Holding(ops, mine) && Enabled(Exec(ops), Unallocate(p))
    ensures Exec(ops).slots[Find(Exec(ops).slots, p)].end == Holding(ops, mine)[p]
  {
    ProcessIsFair(ops, mine, x);
    PartyAccount(ops, mine);
    HeldFinds(Exec(ops), Holding(ops, mine), p);
  }
}
