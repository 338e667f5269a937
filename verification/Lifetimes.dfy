/** What a process takes from the allocator and gives back, on the record table as a value: when a whole
    lifetime leaves every other record as it was. */
module Lifetimes {
  import opened SlotTable
  import opened AllocatorRuns
  import opened Paging

  const THREAD_SIZE: nat := 72  // sizeof(Thread), os/include/scheduler.h
  const STACK_SIZE: nat := 0x10_0000
  const SYMBOL_SIZE: nat := 264 // sizeof(Symbol), os/include/symbols.h

  function Pages(size: nat): (n: nat)
    requires size > 0
    ensures n > 0
  {
    (size - 1) / 0x20_0000 + 1
  }

  /** Bytes of the page tables of a program of this size. */
  function TableSize(size: nat): (n: nat)
    requires size > 0
    ensures n > 0
  {
    ((Pages(size) - 1) / 512 + 3) * 0x1000
  }

  /** What `execute` finds: the program's size, the length of its name, and how many symbols `parseSymbols`
      makes room for if there is a symbol file; none, if the file lists no text symbol. */
  datatype Image = Image(size: nat, nameLength: nat, hasSymbols: bool, symbolCount: nat) {
    function SymbolsSize(): nat {
      symbolCount * SYMBOL_SIZE
    }
  }

  /** The blocks of a process. `symbols` is 0 when the program has no symbol file. */
  datatype Process = Process(program: nat, symbols: nat, table: nat, thread: nat, stack: nat)

  // ---------- the calls, in order ----------

  function Start(slots: seq<Slot>, q: Request): nat
    requires q.Valid()
  {
    Search(slots, q, q.First())
  }

  function Granted(slots: seq<Slot>, q: Request): seq<Slot>
    requires q.Valid()
  {
    Put(slots, Start(slots, q), Start(slots, q) + q.amount)
  }

  predicate Finds(slots: seq<Slot>, pointer: nat) {
    Find(slots, pointer) < |slots|
  }

  function Freed(slots: seq<Slot>, pointer: nat): seq<Slot> {
    if Finds(slots, pointer) then Take(slots, pointer) else slots
  }

  /** The requests of `createTable` and of `createThread`, and that of `parseSymbols`. */
  function TableOf(size: nat): (q: Request)
    requires size > 0
    ensures q.Valid()
  {
    Aligned(TableSize(size), 0x1000)
  }

  const THREAD: Request := Plain(THREAD_SIZE)
  const STACK: Request := Aligned(STACK_SIZE, 16)

  function SymbolsFor(x: Image): (q: Request)
    ensures q.Valid()
  {
    Plain(x.SymbolsSize())
  }

  /** The table once the program's symbols, if it has any, are read, and their address or 0. */
  function WithSymbols(named: seq<Slot>, x: Image): seq<Slot> {
    if x.hasSymbols then Granted(named, SymbolsFor(x)) else named
  }

  function SymbolsIn(named: seq<Slot>, x: Image): nat {
    if x.hasSymbols then Start(named, SymbolsFor(x)) else 0
  }

  function NameOf(x: Image): Request {
    Plain(x.nameLength + 1)
  }

  /** The symbol file's name is built, used and freed. */
  function AfterName(slots: seq<Slot>, x: Image): seq<Slot> {
    Freed(WithSymbols(Granted(slots, NameOf(x)), x), Start(slots, NameOf(x)))
  }

  function ProgramOf(x: Image): (q: Request)
    ensures q.Valid()
  {
    Aligned(x.size, PAGE_SIZE)
  }

  /** `execute` down to `unallocate(symbolsFile)`. */
  function Loaded(slots: seq<Slot>, x: Image): seq<Slot> {
    AfterName(Granted(slots, ProgramOf(x)), x)
  }

  function WithTable(slots: seq<Slot>, size: nat): seq<Slot>
    requires size > 0
  {
    Granted(slots, TableOf(size))
  }

  /** `createTable` and `createThread`. */
  function Launched(slots: seq<Slot>, size: nat): seq<Slot>
    requires size > 0
  {
    Granted(Granted(WithTable(slots, size), THREAD), STACK)
  }

  function Executed(slots: seq<Slot>, x: Image): seq<Slot>
    requires x.size > 0
  {
    Launched(Loaded(slots, x), x.size)
  }

  function SymbolsOf(slots: seq<Slot>, x: Image): nat {
    SymbolsIn(Granted(Granted(slots, ProgramOf(x)), NameOf(x)), x)
  }

  /** The process made of a loaded program: table, thread and stack go where `l` has room. */
  function ProcessIn(l: seq<Slot>, size: nat, program: nat, symbols: nat): Process
    requires size > 0
  {
    var t := WithTable(l, size);
    Process(program, symbols, Start(l, TableOf(size)), Start(t, THREAD),
            Start(Granted(t, THREAD), STACK))
  }

  /** The blocks `execute` leaves allocated. */
  function Blocks(slots: seq<Slot>, x: Image): Process
    requires x.size > 0
  {
    ProcessIn(Loaded(slots, x), x.size, Start(slots, ProgramOf(x)), SymbolsOf(slots, x))
  }

  /** `quit`. */
  function Quitted(slots: seq<Slot>, p: Process): seq<Slot> {
    var r := Freed(Freed(slots, p.program), p.table);
    if p.symbols != 0 then Freed(r, p.symbols) else r
  }

  /** The cleaner's two frees. */
  function Reclaimed(slots: seq<Slot>, thread: nat, stack: nat): seq<Slot> {
    Freed(Freed(slots, stack), thread)
  }

  function Ended(slots: seq<Slot>, x: Image): seq<Slot>
    requires x.size > 0
  {
    var p := Blocks(slots, x);
    Reclaimed(Quitted(Executed(slots, x), p), p.thread, p.stack)
  }

  // ---------- the slots in use ----------

  ghost function Present(slots: seq<Slot>): map<nat, Slot> {
    map i: nat | i < |slots| && slots[i].present :: slots[i]
  }

  /** Slot `k` is the first one not in use. */
  ghost predicate IsNext(used: set<nat>, k: nat) {
    k !in used && forall j: nat :: j < k ==> j in used
  }

  /** Slot `i` is the one `unallocate(p)` clears. */
  ghost predicate IsFirst(m: map<nat, Slot>, p: nat, i: nat) {
    i in m && m[i].start == p && forall j :: j in m && j < i ==> m[j].start != p
  }

  /** No record but empty ones starts at `p`. */
  ghost predicate Unclaimed(m: map<nat, Slot>, p: nat) {
    forall j :: j in m && m[j].start < m[j].end ==> m[j].start != p
  }

  ghost predicate Solid(m: map<nat, Slot>) {
    forall j :: j in m ==> m[j].start < m[j].end
  }

  lemma Grants(slots: seq<Slot>, q: Request) returns (k: nat)
    requires q.Valid()
    ensures IsNext(Present(slots).Keys, k)
    ensures Present(Granted(slots, q))
         == Present(slots)[k := Slot(true, Start(slots, q), Start(slots, q) + q.amount)]
    ensures q.amount > 0 ==> Unclaimed(Present(slots), Start(slots, q))
  {
    k := FirstFree(slots);
    var v := Start(slots, q);
    var r := Slot(true, v, v + q.amount);
    PutPresent(slots, k, r);
    if q.amount > 0 {
      StartUnclaimed(slots, v, q.amount);
    }
  }

  lemma PutPresent(slots: seq<Slot>, k: nat, r: Slot)
    requires k == FirstFree(slots) && r.present
    ensures Present(Put(slots, r.start, r.end)) == Present(slots)[k := r]
  {
    var t := Put(slots, r.start, r.end);
    assert t[k] == r;
    assert forall i: nat :: i < |t| && i != k ==> i < |slots| && t[i] == slots[i];
  }

  lemma StartUnclaimed(slots: seq<Slot>, v: nat, amount: nat)
    requires Feasible(slots, v, amount) && amount > 0
    ensures Unclaimed(Present(slots), v)
  {
    assert forall i :: 0 <= i < |slots| ==> !Clash(slots[i], v, amount);
  }

  lemma Frees(slots: seq<Slot>, p: nat, i: nat)
    requires IsFirst(Present(slots), p, i)
    ensures Finds(slots, p) && Find(slots, p) == i && Present(Freed(slots, p)) == Present(slots) - {i}
  {
    var m, k := Present(slots), Find(slots, p);
    assert k <= i;
    assert k in m;
    var t := Take(slots, p);
    assert forall j: nat :: j < |t| && j != i ==> t[j] == slots[j];
  }

  // ---------- loading ----------

  /** The first three slots not in use. */
  ghost predicate NextThree(used: set<nat>, k0: nat, k1: nat, k2: nat) {
    IsNext(used, k0) && IsNext(used + {k0}, k1) && IsNext(used + {k0, k1}, k2)
  }

  /** What `execute` has taken when it has freed the name: slot `k0` the program's, `k2` the symbols', and the
      slot between them free again. */
  ghost predicate LoadedAt(m: map<nat, Slot>, x: Image, image: map<nat, Slot>, k0: nat, k1: nat, k2: nat,
                           program: Slot, symbols: Slot) {
    && NextThree(m.Keys, k0, k1, k2)
    && program.start < program.end && Unclaimed(m, program.start)
    && (x.hasSymbols ==>
          && symbols.present && symbols.end == symbols.start + x.SymbolsSize()
          && (x.SymbolsSize() > 0 ==> Unclaimed(m[k0 := program], symbols.start)))
    && image == if x.hasSymbols then m[k0 := program][k2 := symbols] else m[k0 := program]
  }

  lemma Loads(slots: seq<Slot>, x: Image) returns (k0: nat, k1: nat, k2: nat, program: Slot, symbols: Slot)
    requires x.size > 0 && Solid(Present(slots))
    ensures LoadedAt(Present(slots), x, Present(Loaded(slots, x)), k0, k1, k2, program, symbols)
    ensures program.start == Start(slots, ProgramOf(x))
    ensures x.hasSymbols ==> symbols.start == SymbolsOf(slots, x)
  {
    var m, first := Present(slots), Granted(slots, ProgramOf(x));
    var named := Granted(first, NameOf(x));
    var name;
    k0, k1, program, name := TwoGrants(slots, ProgramOf(x), NameOf(x), first);
    k2, symbols := ReadsSymbols(named, x);
    assert m[k0 := program][k1 := name].Keys == m.Keys + {k0, k1};
    NameFreed(m, x.hasSymbols, k0, k1, k2, program, name, symbols);
    Frees(WithSymbols(named, x), name.start, k1);
  }

  lemma TwoGrants(slots: seq<Slot>, q0: Request, q1: Request, first: seq<Slot>)
    returns (k0: nat, k1: nat, r0: Slot, r1: Slot)
    requires q0.Valid() && q1.Valid() && q0.amount > 0 && q1.amount > 0 && first == Granted(slots, q0)
    ensures var m := Present(slots);
            && IsNext(m.Keys, k0) && IsNext(m.Keys + {k0}, k1)
            && r0.start < r0.end && Unclaimed(m, r0.start) && r1.start < r1.end && Unclaimed(m[k0 := r0], r1.start)
            && Present(Granted(first, q1)) == m[k0 := r0][k1 := r1]
    ensures r0.start == Start(slots, q0) && r1.start == Start(first, q1)
  {
    k0 := Grants(slots, q0);
    r0 := Slot(true, Start(slots, q0), Start(slots, q0) + q0.amount);
    k1 := Grants(first, q1);
    r1 := Slot(true, Start(first, q1), Start(first, q1) + q1.amount);
    assert Present(first).Keys == Present(slots).Keys + {k0};
  }

  lemma ReadsSymbols(named: seq<Slot>, x: Image) returns (k2: nat, symbols: Slot)
    ensures var n := Present(named);
            && IsNext(n.Keys, k2) && symbols.present && symbols.end == symbols.start + x.SymbolsSize()
            && (x.SymbolsSize() > 0 ==> Unclaimed(n, symbols.start))
            && Present(WithSymbols(named, x)) == (if x.hasSymbols then n[k2 := symbols] else n)
    ensures x.hasSymbols ==> symbols.start == SymbolsIn(named, x)
  {
    var s := Start(named, SymbolsFor(x));
    k2 := Grants(named, SymbolsFor(x));
    symbols := Slot(true, s, s + x.SymbolsSize());
  }

  lemma NameFreed(m: map<nat, Slot>, hasSymbols: bool, k0: nat, k1: nat, k2: nat, program: Slot, name: Slot,
                  symbols: Slot)
    requires Solid(m) && NextThree(m.Keys, k0, k1, k2) && program.start < program.end
    requires Unclaimed(m[k0 := program], name.start)
    ensures var n := m[k0 := program][k1 := name];
            && IsFirst(if hasSymbols then n[k2 := symbols] else n, name.start, k1)
            && (if hasSymbols then n[k2 := symbols] else n) - {k1}
               == (if hasSymbols then m[k0 := program][k2 := symbols] else m[k0 := program])
  {
    var p := m[k0 := program];
    assert forall j :: j in p && j != k0 ==> p[j] == m[j];
    assert k0 < k1 < k2;
    assert forall j :: j in p ==> p[j].start != name.start;
  }

  // ---------- the whole of execute ----------

  /** The slots after `execute`: the table where the name was, thread and stack where nothing is. */
  ghost predicate MappedAt(image: map<nat, Slot>, e: map<nat, Slot>, k1: nat, k3: nat, k4: nat,
                           table: Slot, thread: Slot, stack: Slot) {
    && k3 !in image && k4 !in image && k1 != k3 && k1 != k4 && k3 != k4
    && table.start < table.end && Unclaimed(image, table.start)
    && thread.start < thread.end && Unclaimed(image, thread.start)
    && Unclaimed(image, stack.start) && stack.start != thread.start
    && e == image[k1 := table][k3 := thread][k4 := stack]
  }

  lemma Maps(loaded: seq<Slot>, size: nat, k1: nat)
    returns (k3: nat, k4: nat, table: Slot, thread: Slot, stack: Slot)
    requires size > 0 && IsNext(Present(loaded).Keys, k1)
    ensures MappedAt(Present(loaded), Present(Launched(loaded, size)), k1, k3, k4, table, thread, stack)
    ensures var t := WithTable(loaded, size);
            && table.start == Start(loaded, TableOf(size)) && thread.start == Start(t, THREAD)
            && stack.start == Start(Granted(t, THREAD), STACK)
  {
    var q := TableOf(size);
    var k := Grants(loaded, q);
    assert k == k1;
    table := Slot(true, Start(loaded, q), Start(loaded, q) + q.amount);
    var t := WithTable(loaded, size);
    var q1, q2 := THREAD, STACK;
    k3, k4, thread, stack := TwoGrants(t, q1, q2, Granted(t, q1));
    LaterSlots(Present(loaded), k1, k3, k4, table, thread, stack);
  }

  lemma LaterSlots(image: map<nat, Slot>, k1: nat, k3: nat, k4: nat, table: Slot, thread: Slot, stack: Slot)
    requires IsNext(image.Keys, k1)
    requires var t := image[k1 := table];
             && IsNext(t.Keys, k3) && IsNext(t.Keys + {k3}, k4)
             && Unclaimed(t, thread.start) && thread.start < thread.end && Unclaimed(t[k3 := thread], stack.start)
    ensures k3 !in image && k4 !in image && k1 != k3 && k1 != k4 && k3 != k4
    ensures Unclaimed(image, thread.start) && Unclaimed(image, stack.start) && stack.start != thread.start
  {
    var t := image[k1 := table];
    assert t[k3 := thread][k3] == thread;
    assert forall j :: j in image ==> j != k1 && j != k3 && t[k3 := thread][j] == image[j] && t[j] == image[j];
  }

  // ---------- quit and the cleaner ----------

  /** The third slot `execute` can use. */
  function NextFree(slots: seq<Slot>, i: nat): (k: nat)
    ensures k >= i && (k == i || k <= |slots|) && (k < |slots| ==> !slots[k].present)
    ensures forall j :: i <= j < k ==> j < |slots| && slots[j].present
    decreases |slots| - i
  {
    if i < |slots| && slots[i].present then NextFree(slots, i + 1) else i
  }

  function ThirdFree(slots: seq<Slot>): nat {
    NextFree(slots, NextFree(slots, NextFree(slots, 0) + 1) + 1)
  }

  lemma ThirdIs(slots: seq<Slot>, k0: nat, k1: nat, k2: nat)
    requires NextThree(Present(slots).Keys, k0, k1, k2)
    ensures k2 == ThirdFree(slots)
  {
    Ascending(Present(slots).Keys, k0, k1, k2);
    NextIs(slots, 0, k0);
    NextIs(slots, k0 + 1, k1);
    NextIs(slots, k1 + 1, k2);
  }

  lemma NextIs(slots: seq<Slot>, i: nat, k: nat)
    requires k >= i && k !in Present(slots) && forall j :: i <= j < k ==> j in Present(slots)
    ensures NextFree(slots, i) == k
  {
    var n := NextFree(slots, i);
    assert n < k ==> n in Present(slots);
  }

  lemma Ascending(used: set<nat>, k0: nat, k1: nat, k2: nat)
    requires NextThree(used, k0, k1, k2)
    ensures k0 < k1 < k2 && k0 !in used && k1 !in used && k2 !in used
    ensures forall j: nat :: j < k2 && j != k0 && j != k1 ==> j in used
  {
  }

  /** The first two frees of `quit` clear the program's slot and the table's. */
  lemma QuitFrees(e: seq<Slot>, m: map<nat, Slot>, image: map<nat, Slot>, x: Image, k0: nat, k1: nat, k2: nat,
                  k3: nat, k4: nat, program: Slot, symbols: Slot, table: Slot, thread: Slot, stack: Slot)
    requires Solid(m) && LoadedAt(m, x, image, k0, k1, k2, program, symbols)
    requires MappedAt(image, Present(e), k1, k3, k4, table, thread, stack)
    ensures Finds(e, program.start) && Finds(Freed(e, program.start), table.start)
    ensures Present(Freed(Freed(e, program.start), table.start))
         == (if x.hasSymbols then m[k2 := symbols] else m)[k3 := thread][k4 := stack]
  {
    Ordered(m, k0, k1, k2, k3, k4, image, x.hasSymbols, program, symbols);
    var base := if x.hasSymbols then m[k2 := symbols] else m;
    assert image == base[k0 := program];
    assert forall j :: j in m ==> j in image && image[j] == m[j];
    QuitSlots(m, base, Present(e), k0, k1, k3, k4, program, table, thread, stack);
    Frees(e, program.start, k0);
    Frees(Freed(e, program.start), table.start, k1);
  }

  lemma QuitSlots(m: map<nat, Slot>, base: map<nat, Slot>, f: map<nat, Slot>, k0: nat, k1: nat, k3: nat, k4: nat,
                  program: Slot, table: Slot, thread: Slot, stack: Slot)
    requires Solid(m) && Unclaimed(m, program.start) && Unclaimed(m, table.start)
    requires k0 < k1 < k3 && k1 < k4 && k3 != k4
    requires f == base[k0 := program][k1 := table][k3 := thread][k4 := stack]
    requires k0 !in base && k1 !in base && forall j :: j in base && j < k1 ==> j in m && base[j] == m[j]
    ensures IsFirst(f, program.start, k0) && IsFirst(f - {k0}, table.start, k1)
    ensures f - {k0} - {k1} == base[k3 := thread][k4 := stack]
  {
    FirstIsProgram(m, f, k0, program.start);
    FirstIsProgram(m, f - {k0}, k1, table.start);
  }

  lemma Ordered(m: map<nat, Slot>, k0: nat, k1: nat, k2: nat, k3: nat, k4: nat, image: map<nat, Slot>, has: bool,
                program: Slot, symbols: Slot)
    requires NextThree(m.Keys, k0, k1, k2)
    requires image == if has then m[k0 := program][k2 := symbols] else m[k0 := program]
    requires k3 !in image && k4 !in image && k1 != k3 && k1 != k4 && k3 != k4
    ensures k0 < k1 < k2 <= k3 && k2 <= k4 && (has ==> k2 < k3 && k2 < k4)
    ensures k0 !in m && k1 !in m && k2 !in m && k3 !in m && k4 !in m
  {
    assert forall j :: j in m ==> j in image;
    assert k0 in image;
  }

  /** Below the slot of a block of the process there are others' blocks alone, and none starts with it. */
  lemma FirstIsProgram(m: map<nat, Slot>, f: map<nat, Slot>, k: nat, p: nat)
    requires Solid(m) && Unclaimed(m, p) && k in f && f[k].start == p
    requires forall j :: j in f && j < k ==> j in m && f[j] == m[j]
    ensures IsFirst(f, p, k)
  {
  }

  /** The cleaner's frees clear the slots of the thread and its stack. */
  lemma CleanerFrees(r: seq<Slot>, rest: map<nat, Slot>, k3: nat, k4: nat, thread: Slot, stack: Slot)
    requires Present(r) == rest[k3 := thread][k4 := stack] && k3 !in rest && k4 !in rest && k3 != k4
    requires thread.start != stack.start
    requires forall j :: j in rest ==> rest[j].start != thread.start && rest[j].start != stack.start
    ensures Finds(r, stack.start) && Finds(Freed(r, stack.start), thread.start)
    ensures Present(Reclaimed(r, thread.start, stack.start)) == rest
  {
    Frees(r, stack.start, k4);
    assert Present(r) - {k4} == rest[k3 := thread];
    Frees(Freed(r, stack.start), thread.start, k3);
    assert rest[k3 := thread] - {k3} == rest;
  }

  /** A record that starts at `v` before slot `k`. */
  ghost predicate Claims(m: map<nat, Slot>, v: nat, k: nat) {
    exists j :: j in m && j < k && m[j].start == v
  }

  lemma SymbolsFreed(r: seq<Slot>, m: map<nat, Slot>, k2: nat, k3: nat, k4: nat, symbols: Slot, thread: Slot, stack: Slot)
    requires Present(r) == m[k2 := symbols][k3 := thread][k4 := stack]
    requires k2 !in m && k3 !in m && k4 !in m && k2 < k3 && k2 < k4 && k3 != k4
    requires !Claims(m, symbols.start, k2)
    ensures Finds(r, symbols.start) && Present(Freed(r, symbols.start)) == m[k3 := thread][k4 := stack]
  {
    Frees(r, symbols.start, k2);
    assert m[k2 := symbols][k3 := thread][k4 := stack] - {k2} == m[k3 := thread][k4 := stack];
  }

  /** Where another record claims the start, that record goes and the symbols' stays. */
  lemma SymbolsMisfreed(r: seq<Slot>, m: map<nat, Slot>, k2: nat, k3: nat, k4: nat, symbols: Slot, thread: Slot,
                        stack: Slot)
    returns (j: nat)
    requires Present(r) == m[k2 := symbols][k3 := thread][k4 := stack]
    requires k2 !in m && k3 !in m && k4 !in m && k2 < k3 && k2 < k4 && k3 != k4
    requires Claims(m, symbols.start, k2)
    ensures j in m && j < k2 && m[j].start == symbols.start && Finds(r, symbols.start)
    ensures Present(Freed(r, symbols.start)) == (m - {j})[k2 := symbols][k3 := thread][k4 := stack]
  {
    var i :| i in m && i < k2 && m[i].start == symbols.start;
    j := Find(r, symbols.start);
    assert i in Present(r) && Present(r)[i] == m[i] == r[i];
    assert j in Present(r);
    Frees(r, symbols.start, j);
    assert Present(r) - {j} == (m - {j})[k2 := symbols][k3 := thread][k4 := stack];
  }

  // ---------- the lifetime ----------

  predicate CanQuit(slots: seq<Slot>, p: Process) {
    && Finds(slots, p.program) && Finds(Freed(slots, p.program), p.table)
    && (p.symbols != 0 ==> Finds(Freed(Freed(slots, p.program), p.table), p.symbols))
  }

  predicate CanReclaim(slots: seq<Slot>, thread: nat, stack: nat) {
    Finds(slots, stack) && Finds(Freed(slots, stack), thread)
  }

  /** What is left of a lifetime when the program and its table are freed. */
  ghost predicate Remains(m: map<nat, Slot>, r: seq<Slot>, x: Image, p: Process, k2: nat, k3: nat, k4: nat,
                          symbols: Slot, thread: Slot, stack: Slot) {
    && Present(r) == (if x.hasSymbols then m[k2 := symbols] else m)[k3 := thread][k4 := stack]
    && k2 !in m && k3 !in m && k4 !in m && k2 <= k3 && k2 <= k4 && k3 != k4
    && p.thread == thread.start && p.stack == stack.start && thread.start != stack.start
    && Unclaimed(m, thread.start) && Unclaimed(m, stack.start)
    && (if x.hasSymbols then p.symbols == symbols.start != 0 else p.symbols == 0)
    && (x.hasSymbols ==> k2 < k3 && k2 < k4 && symbols.present && symbols.end == symbols.start + x.SymbolsSize()
                         && (x.SymbolsSize() > 0 ==> Unclaimed(m, symbols.start)))
  }

  lemma Leaves(slots: seq<Slot>, x: Image, p: Process)
    returns (k2: nat, k3: nat, k4: nat, symbols: Slot, thread: Slot, stack: Slot)
    requires x.size > 0 && Solid(Present(slots)) && p == Blocks(slots, x)
    ensures Finds(Executed(slots, x), p.program) && Finds(Freed(Executed(slots, x), p.program), p.table)
    ensures Remains(Present(slots), Freed(Freed(Executed(slots, x), p.program), p.table), x, p, k2, k3, k4,
                    symbols, thread, stack)
    ensures k2 == ThirdFree(slots)
  {
    var m, l := Present(slots), Loaded(slots, x);
    var k0, k1, program, table;
    k0, k1, k2, program, symbols := Loads(slots, x);
    ThirdIs(slots, k0, k1, k2);
    TableSlot(m, x.hasSymbols, Present(l), k0, k1, k2, program, symbols);
    k3, k4, table, thread, stack := Maps(l, x.size, k1);
    QuitFrees(Executed(slots, x), m, Present(l), x, k0, k1, k2, k3, k4, program, symbols, table, thread, stack);
    LeftAfter(m, Present(l), Executed(slots, x), x, p, k0, k1, k2, k3, k4, program, symbols, table, thread, stack);
  }

  lemma LeftAfter(m: map<nat, Slot>, image: map<nat, Slot>, e: seq<Slot>, x: Image, p: Process, k0: nat, k1: nat,
                  k2: nat, k3: nat, k4: nat, program: Slot, symbols: Slot, table: Slot, thread: Slot, stack: Slot)
    requires LoadedAt(m, x, image, k0, k1, k2, program, symbols)
    requires MappedAt(image, Present(e), k1, k3, k4, table, thread, stack)
    requires Present(Freed(Freed(e, p.program), p.table))
          == (if x.hasSymbols then m[k2 := symbols] else m)[k3 := thread][k4 := stack]
    requires p.thread == thread.start && p.stack == stack.start
    requires if x.hasSymbols then p.symbols == symbols.start != 0 else p.symbols == 0
    ensures Remains(m, Freed(Freed(e, p.program), p.table), x, p, k2, k3, k4, symbols, thread, stack)
  {
    Ordered(m, k0, k1, k2, k3, k4, image, x.hasSymbols, program, symbols);
    assert forall j :: j in m ==> j in image && image[j] == m[j];
  }

  /** The table takes the slot the name had. */
  lemma TableSlot(m: map<nat, Slot>, has: bool, image: map<nat, Slot>, k0: nat, k1: nat, k2: nat, program: Slot,
                  symbols: Slot)
    requires NextThree(m.Keys, k0, k1, k2)
    requires image == if has then m[k0 := program][k2 := symbols] else m[k0 := program]
    ensures IsNext(image.Keys, k1)
  {
    Ascending(m.Keys, k0, k1, k2);
  }

  lemma EndsWell(m: map<nat, Slot>, r: seq<Slot>, x: Image, p: Process, k2: nat, k3: nat, k4: nat,
                 symbols: Slot, thread: Slot, stack: Slot)
    requires Solid(m) && Remains(m, r, x, p, k2, k3, k4, symbols, thread, stack)
    requires !(x.hasSymbols && Claims(m, symbols.start, k2))
    ensures p.symbols != 0 ==> Finds(r, p.symbols)
    ensures var q := if p.symbols != 0 then Freed(r, p.symbols) else r;
            CanReclaim(q, p.thread, p.stack) && Present(Reclaimed(q, p.thread, p.stack)) == m
  {
    var q := if p.symbols != 0 then Freed(r, p.symbols) else r;
    if x.hasSymbols {
      SymbolsFreed(r, m, k2, k3, k4, symbols, thread, stack);
    }
    CleanerFrees(q, m, k3, k4, thread, stack);
  }

  lemma EndsBadly(m: map<nat, Slot>, r: seq<Slot>, x: Image, p: Process, k2: nat, k3: nat, k4: nat,
                  symbols: Slot, thread: Slot, stack: Slot)
    returns (j: nat)
    requires Solid(m) && Remains(m, r, x, p, k2, k3, k4, symbols, thread, stack)
    requires x.hasSymbols && Claims(m, symbols.start, k2)
    ensures p.symbols != 0 && Finds(r, p.symbols) && j in m && m[j].start == symbols.start
    ensures var q := Freed(r, p.symbols);
            && CanReclaim(q, p.thread, p.stack)
            && Present(Reclaimed(q, p.thread, p.stack)) == (m - {j})[k2 := symbols]
  {
    j := SymbolsMisfreed(r, m, k2, k3, k4, symbols, thread, stack);
    var rest := (m - {j})[k2 := symbols];
    assert m[j].start != thread.start && m[j].start != stack.start;
    assert forall i :: i in rest ==> rest[i].start != thread.start && rest[i].start != stack.start;
    CleanerFrees(Freed(r, p.symbols), rest, k3, k4, thread, stack);
  }

  // ---------- slots and records ----------

  lemma {:induction false} SameRecords(s: seq<Slot>, t: seq<Slot>)
    requires Present(s) == Present(t)
    ensures Records(s) == Records(t)
    decreases |s| + |t|
  {
    if |s| == |t| == 0 {
    } else if |s| >= |t| {
      LastSlot(s, t);
      SameRecords(s[..|s| - 1], if |s| == |t| then t[..|t| - 1] else t);
    } else {
      LastSlot(t, s);
      SameRecords(s, t[..|t| - 1]);
    }
  }

  lemma LastSlot(s: seq<Slot>, t: seq<Slot>)
    requires Present(s) == Present(t) && |s| >= |t| && |s| > 0
    ensures Present(s[..|s| - 1]) == Present(if |s| == |t| then t[..|t| - 1] else t)
    ensures Record(s[|s| - 1]) == (if |s| == |t| then Record(t[|t| - 1]) else multiset{})
  {
    var n := |s| - 1;
    assert n in Present(s) <==> n in Present(t);
    assert n in Present(s) ==> Present(s)[n] == Present(t)[n];
    PresentBefore(s, n);
    if |s| == |t| {
      PresentBefore(t, n);
    } else {
      assert Present(s) - {n} == Present(t);
    }
  }

  lemma PresentBefore(s: seq<Slot>, n: nat)
    requires n + 1 == |s|
    ensures Present(s[..n]) == Present(s) - {n}
  {
  }

  lemma RecordsWithout(s: seq<Slot>, i: nat) returns (t: seq<Slot>)
    requires i in Present(s)
    ensures Present(t) == Present(s) - {i}
    ensures Records(t) + multiset{(s[i].start, s[i].end)} == Records(s)
  {
    var gone := s[i].(present := false);
    t := s[i := gone];
    ClearedPresent(s, i, gone);
    UpdatedRecords(s, i, gone);
    assert Record(gone) == multiset{};
  }

  lemma ClearedPresent(s: seq<Slot>, i: nat, gone: Slot)
    requires i < |s| && !gone.present
    ensures Present(s[i := gone]) == Present(s) - {i}
  {
  }

  // ---------- when a lifetime is neutral ----------

  /** No live record is empty. */
  predicate NoneEmpty(slots: seq<Slot>) {
    forall i :: 0 <= i < |slots| && slots[i].present ==> slots[i].start < slots[i].end
  }

  /** A symbol file without text symbols, while a block whose record comes before the third free slot starts
      where an empty block would. */
  predicate Misfrees(slots: seq<Slot>, x: Image) {
    && x.hasSymbols && x.symbolCount == 0
    && exists i :: 0 <= i < |slots| && i < ThirdFree(slots) && slots[i].present
                   && slots[i].start == Start(slots, Plain(0))
  }

  predicate CanEnd(slots: seq<Slot>, x: Image)
    requires x.size > 0
  {
    var p, e := Blocks(slots, x), Executed(slots, x);
    && CanQuit(e, p) && CanReclaim(Quitted(e, p), p.thread, p.stack)
  }

  lemma EmptySymbolsStart(slots: seq<Slot>, x: Image)
    requires x.size > 0 && x.hasSymbols && x.SymbolsSize() == 0
    ensures SymbolsOf(slots, x) == Start(slots, Plain(0))
  {
    GrantsKeepEmptyStart(slots, ProgramOf(x), NameOf(x), Granted(Granted(slots, ProgramOf(x)), NameOf(x)));
  }

  lemma GrantsKeepEmptyStart(slots: seq<Slot>, q0: Request, q1: Request, after: seq<Slot>)
    requires q0.Valid() && q1.Valid() && after == Granted(Granted(slots, q0), q1)
    ensures Start(after, Plain(0)) == Start(slots, Plain(0))
  {
    GrantKeepsEmptyStart(slots, q0, Granted(slots, q0));
    GrantKeepsEmptyStart(Granted(slots, q0), q1, after);
  }

  lemma GrantKeepsEmptyStart(slots: seq<Slot>, q: Request, after: seq<Slot>)
    requires q.Valid() && after == Granted(slots, q)
    ensures Start(after, Plain(0)) == Start(slots, Plain(0))
  {
    EmptyStartAfterAllocate(slots, Start(slots, q), q.amount, after);
  }

  lemma ClaimsAre(slots: seq<Slot>, v: nat, k: nat)
    ensures Claims(Present(slots), v, k)
       <==> exists i :: 0 <= i < |slots| && i < k && slots[i].present && slots[i].start == v
  {
    if Claims(Present(slots), v, k) {
      var j :| j in Present(slots) && j < k && Present(slots)[j].start == v;
      assert slots[j].present;
    }
    if i :| 0 <= i < |slots| && i < k && slots[i].present && slots[i].start == v {
      assert i in Present(slots);
    }
  }

  /** With positive symbols no record starts where they do. */
  lemma PositiveUnclaimed(m: map<nat, Slot>, v: nat, k: nat)
    requires Solid(m) && Unclaimed(m, v)
    ensures !Claims(m, v, k)
  {
  }

  lemma EndsAt(slots: seq<Slot>, x: Image) returns (j: nat, k: nat, symbols: Slot)
    requires x.size > 0 && Solid(Present(slots))
    ensures x.hasSymbols && Claims(Present(slots), SymbolsOf(slots, x), ThirdFree(slots)) ==>
              && j in Present(slots) && Present(slots)[j].start == symbols.start && k !in Present(slots)
              && symbols == Slot(true, SymbolsOf(slots, x), SymbolsOf(slots, x) + x.SymbolsSize()) && x.SymbolsSize() == 0
              && Present(Ended(slots, x)) == (Present(slots) - {j})[k := symbols]
    ensures !(x.hasSymbols && Claims(Present(slots), SymbolsOf(slots, x), ThirdFree(slots))) ==>
              Present(Ended(slots, x)) == Present(slots)
  {
    var p := Blocks(slots, x);
    var k3, k4, thread, stack;
    k, k3, k4, symbols, thread, stack := Leaves(slots, x, p);
    var m, r := Present(slots), Freed(Freed(Executed(slots, x), p.program), p.table);
    j := k;
    if x.hasSymbols && Claims(m, symbols.start, k) {
      j := EndsBadly(m, r, x, p, k, k3, k4, symbols, thread, stack);
      if x.SymbolsSize() > 0 {
        PositiveUnclaimed(m, symbols.start, k);
      }
    } else {
      EndsWell(m, r, x, p, k, k3, k4, symbols, thread, stack);
    }
  }

  /** A lifetime with nothing in between gives back exactly what it took if and only if its symbol array is not
      an empty block where another block starts that is found first. */
  lemma LifetimeNeutralExactlyWhen(slots: seq<Slot>, x: Image)
    requires x.size > 0 && NoneEmpty(slots)
    ensures Records(Ended(slots, x)) == Records(slots) <==> !Misfrees(slots, x)
  {
    if Misfrees(slots, x) {
      var end := MisfreeTakes(slots, x);
      var v := Start(slots, Plain(0));
      ExchangeShows(Records(slots), Records(Ended(slots, x)), (v, v), (v, end));
    } else {
      NotClaimed(slots, x);
      var j, k, symbols := EndsAt(slots, x);
      SameRecords(Ended(slots, x), slots);
    }
  }

  lemma ExchangeShows<X>(before: multiset<X>, after: multiset<X>, a: X, b: X)
    requires after + multiset{b} == before + multiset{a} && a != b
    ensures after != before
  {
    assert (before + multiset{a})[a] == before[a] + 1;
    assert (after + multiset{b})[a] == after[a];
  }

  lemma NotClaimed(slots: seq<Slot>, x: Image)
    requires x.size > 0 && NoneEmpty(slots) && !Misfrees(slots, x)
    ensures !(x.hasSymbols && Claims(Present(slots), SymbolsOf(slots, x), ThirdFree(slots)))
  {
    var j, k, symbols := EndsAt(slots, x);
    if x.hasSymbols && x.SymbolsSize() == 0 {
      EmptySymbolsStart(slots, x);
      ClaimsAre(slots, SymbolsOf(slots, x), ThirdFree(slots));
    }
  }

  /** The failing case: a live block is taken from its owner, and the empty record stays for ever. */
  lemma MisfreeTakes(slots: seq<Slot>, x: Image) returns (end: nat)
    requires x.size > 0 && NoneEmpty(slots) && Misfrees(slots, x)
    ensures var v := Start(slots, Plain(0));
            && end > v && (v, end) in Records(slots)
            && Records(Ended(slots, x)) + multiset{(v, end)} == Records(slots) + multiset{(v, v)}
  {
    EmptySymbolsStart(slots, x);
    ClaimsAre(slots, SymbolsOf(slots, x), ThirdFree(slots));
    var j, k, symbols := EndsAt(slots, x);
    end := Swapped(slots, Ended(slots, x), j, k, symbols);
  }

  /** One record in the place of another, slots apart. */
  lemma Swapped(slots: seq<Slot>, ended: seq<Slot>, j: nat, k: nat, symbols: Slot) returns (end: nat)
    requires NoneEmpty(slots) && j in Present(slots) && k !in Present(slots)
    requires Present(ended) == (Present(slots) - {j})[k := symbols]
    requires symbols == Slot(true, slots[j].start, slots[j].start)
    ensures end > slots[j].start && (slots[j].start, end) in Records(slots)
    ensures Records(ended) + multiset{(slots[j].start, end)} == Records(slots) + multiset{(symbols.start, symbols.start)}
  {
    end := slots[j].end;
    var v := slots[j].start;
    var t := RecordsWithout(slots, j);
    assert Present(ended)[k] == symbols == ended[k];
    var u := RecordsWithout(ended, k);
    Undone(Present(slots) - {j}, k, symbols);
    SameRecords(u, t);
    Exchanged(Records(t), Records(ended), Records(slots), (v, v), (v, end));
  }

  lemma Undone(m: map<nat, Slot>, k: nat, r: Slot)
    requires k !in m
    ensures m[k := r] - {k} == m
  {
  }

  lemma Exchanged<X>(r: multiset<X>, e: multiset<X>, s: multiset<X>, a: X, b: X)
    requires r + multiset{a} == e && r + multiset{b} == s
    ensures e + multiset{b} == s + multiset{a}
  {
  }

  // ---------- what every lifetime keeps ----------

  /** Where live records start, each as often as one does. */
  function Starts(slots: seq<Slot>): multiset<nat> {
    if slots == [] then multiset{} else Starts(slots[..|slots| - 1]) + StartOf(slots[|slots| - 1])
  }

  function StartOf(s: Slot): multiset<nat> {
    if s.present then multiset{s.start} else multiset{}
  }

  lemma {:induction false} StartsUpdated(slots: seq<Slot>, i: nat, s: Slot)
    requires i < |slots|
    ensures Starts(slots[i := s]) + StartOf(slots[i]) == Starts(slots) + StartOf(s)
    decreases |slots|
  {
    var n := |slots| - 1;
    var front, last, after := slots[..n], slots[n], slots[i := s];
    if i < n {
      StartsUpdated(front, i, s);
      assert after[..n] == front[i := s] && after[n] == last;
      Reorder(Starts(after[..n]), Starts(front), StartOf(last), StartOf(slots[i]), StartOf(s));
    } else {
      assert after[..n] == front && after[n] == s;
      Sorted(Starts(front), StartOf(last), StartOf(s));
    }
  }

  lemma Sorted(a: multiset<nat>, b: multiset<nat>, c: multiset<nat>)
    ensures (a + c) + b == (a + b) + c
  {
  }

  lemma {:induction false} StartsFound(slots: seq<Slot>, p: nat)
    ensures Finds(slots, p) <==> p in Starts(slots)
  {
    if slots != [] {
      StartsFound(slots[..|slots| - 1], p);
    }
  }

  lemma StartsGranted(slots: seq<Slot>, q: Request, v: nat, after: seq<Slot>)
    requires q.Valid() && v == Start(slots, q) && after == Granted(slots, q)
    ensures Starts(after) == Starts(slots) + multiset{v}
  {
    StartsPut(slots, v, v + q.amount, after);
  }

  lemma StartsPut(slots: seq<Slot>, start: nat, end: nat, after: seq<Slot>)
    requires after == Put(slots, start, end)
    ensures Starts(after) == Starts(slots) + multiset{start}
  {
    var r, k := Slot(true, start, end), FirstFree(slots);
    if k == |slots| {
      assert (slots + [r])[..k] == slots;
    } else {
      StartsUpdated(slots, k, r);
    }
  }

  lemma StartsFreed(slots: seq<Slot>, p: nat, rest: multiset<nat>)
    requires Starts(slots) == rest + multiset{p}
    ensures Finds(slots, p) && Starts(Freed(slots, p)) == rest
  {
    StartsFound(slots, p);
    var i := Find(slots, p);
    StartsUpdated(slots, i, slots[i].(present := false));
    OneLess(Starts(Take(slots, p)), Starts(slots), rest, p);
  }

  lemma OneLess(after: multiset<nat>, before: multiset<nat>, rest: multiset<nat>, p: nat)
    requires after + multiset{p} == before + multiset{} && before == rest + multiset{p}
    ensures after == rest
  {
    forall x ensures after[x] == rest[x] {
      assert (after + multiset{p})[x] == (before + multiset{})[x];
    }
  }

  /** The start of the symbols' block, if there is one. */
  function SymbolStart(symbols: nat): multiset<nat> {
    if symbols != 0 then multiset{symbols} else multiset{}
  }

  lemma LoadedStarts(slots: seq<Slot>, x: Image)
    ensures Starts(Loaded(slots, x))
         == Starts(slots) + multiset{Start(slots, ProgramOf(x))} + SymbolStart(SymbolsOf(slots, x))
  {
    var first := Granted(slots, ProgramOf(x));
    var named := Granted(first, NameOf(x));
    StartsGranted(slots, ProgramOf(x), Start(slots, ProgramOf(x)), first);
    StartsGranted(first, NameOf(x), Start(first, NameOf(x)), named);
    NameStarts(first, named, x, SymbolsIn(named, x));
  }

  lemma NameStarts(first: seq<Slot>, named: seq<Slot>, x: Image, symbols: nat)
    requires named == Granted(first, NameOf(x)) && symbols == SymbolsIn(named, x)
    requires Starts(named) == Starts(first) + multiset{Start(first, NameOf(x))}
    ensures Starts(AfterName(first, x)) == Starts(first) + SymbolStart(symbols)
  {
    var name, all := Start(first, NameOf(x)), WithSymbols(named, x);
    if x.hasSymbols {
      StartsGranted(named, SymbolsFor(x), symbols, all);
    }
    Behind(Starts(first), multiset{name}, SymbolStart(symbols));
    StartsFreed(all, name, Starts(first) + SymbolStart(symbols));
  }

  lemma Behind(a: multiset<nat>, b: multiset<nat>, c: multiset<nat>)
    ensures a + b + c == a + c + b
  {
  }

  lemma LaunchedStarts(l: seq<Slot>, size: nat, p: Process)
    requires size > 0 && p == ProcessIn(l, size, p.program, p.symbols)
    ensures Starts(Launched(l, size)) == Starts(l) + multiset{p.table} + multiset{p.thread} + multiset{p.stack}
  {
    var t := WithTable(l, size);
    StartsGranted(l, TableOf(size), p.table, t);
    var h := Granted(t, THREAD);
    StartsGranted(t, THREAD, p.thread, h);
    StartsGranted(h, STACK, p.stack, Launched(l, size));
  }

  /** Freeing what was taken, in the order of `quit` and the cleaner. */
  lemma EndedStarts(e: seq<Slot>, p: Process, s: multiset<nat>)
    requires Starts(e) == s + multiset{p.program} + SymbolStart(p.symbols) + multiset{p.table} + multiset{p.thread}
                          + multiset{p.stack}
    ensures CanQuit(e, p) && CanReclaim(Quitted(e, p), p.thread, p.stack)
    ensures Starts(Reclaimed(Quitted(e, p), p.thread, p.stack)) == s
  {
    var rest := s + multiset{p.thread};
    var r := rest + multiset{p.stack};
    var q := r + SymbolStart(p.symbols);
    TakenApart(s, multiset{p.program}, SymbolStart(p.symbols), multiset{p.table}, multiset{p.thread}, multiset{p.stack});
    StartsFreed(e, p.program, q + multiset{p.table});
    var f := Freed(e, p.program);
    StartsFreed(f, p.table, q);
    var g := Freed(f, p.table);
    if p.symbols != 0 {
      StartsFreed(g, p.symbols, r);
    } else {
      assert q == r;
    }
    StartsFreed(Quitted(e, p), p.stack, rest);
    StartsFreed(Freed(Quitted(e, p), p.stack), p.thread, s);
  }

  lemma TakenApart(s: multiset<nat>, a: multiset<nat>, b: multiset<nat>, c: multiset<nat>, d: multiset<nat>,
                   e: multiset<nat>)
    ensures s + a + b + c + d + e == s + d + e + b + c + a
  {
  }

  /** Whatever is live, empty blocks included, a lifetime ends with every start live as often as before: where
      it clears another's record it leaves one with the same start. Every `unallocate` finds a record. */
  lemma LifetimeKeepsStarts(slots: seq<Slot>, x: Image)
    requires x.size > 0
    ensures CanEnd(slots, x) && Starts(Ended(slots, x)) == Starts(slots)
  {
    var p := Blocks(slots, x);
    LoadedStarts(slots, x);
    LaunchedStarts(Loaded(slots, x), x.size, p);
    EndedStarts(Executed(slots, x), p, Starts(slots));
  }
}
