/** Starting and ending a process, in place: what `execute`, `quit` and the cleaner do to the allocator and
    to memory is the operation of that name in `Lifetimes`. */
module Processes {
  import opened Words
  import opened SlotTable
  import opened Allocators
  import opened AllocatorRuns
  import opened Coverage
  import opened Lifetimes
  import opened Paging

  // ---------- the allocator as the kernel calls it ----------

  /** Every live record ends by `limit`. */
  ghost predicate EndBy(slots: seq<Slot>, limit: nat) {
    MEMORY_START <= limit && forall i :: 0 <= i < |slots| && slots[i].present ==> slots[i].end <= limit
  }

  function Alignment(q: Request): nat {
    match q
    case Plain(_) => 0
    case Aligned(_, a) => a
  }

  /** How far up the records reach after a request. */
  function Higher(limit: nat, q: Request): nat {
    limit + Alignment(q) + q.amount
  }

  lemma SearchWithin(slots: seq<Slot>, q: Request, limit: nat)
    requires q.Valid() && EndBy(slots, limit)
    ensures MEMORY_START <= Start(slots, q) <= limit + Alignment(q)
    ensures Higher(limit, q) < WORD ==> Fits(slots, q)
  {
  }

  lemma GrantedEnds(slots: seq<Slot>, q: Request, limit: nat)
    requires q.Valid() && EndBy(slots, limit)
    ensures EndBy(Granted(slots, q), Higher(limit, q))
  {
    SearchWithin(slots, q, limit);
    var k, v := FirstFree(slots), Start(slots, q);
    assert Granted(slots, q)[k] == Slot(true, v, v + q.amount);
    assert forall i :: 0 <= i < |slots| && i != k ==> Granted(slots, q)[i] == slots[i];
  }

  /** The allocator is as its methods leave it, its records end by `limit`, and it has room for `room` more. */
  ghost predicate Ready(a: Allocator, limit: nat, room: nat)
    reads a, a.table
  {
    forall k {:trigger Open(k)} :: Open(k) ==> InOrder(a, limit, room)
  }

  ghost predicate InOrder(a: Allocator, limit: nat, room: nat)
    reads a, a.table
  {
    a.Valid() && EndBy(a.Contents(), limit) && a.allocations + room <= a.table.Length
  }

  method Call(a: Allocator, q: Request) returns (value: nat)
    requires q.Valid() && a.Valid() && a.allocations < a.table.Length && Fits(a.Contents(), q)
    modifies a, a.table
    ensures a.Valid() && a.allocations == old(a.allocations) + 1
    ensures value == Start(old(a.Contents()), q) && a.Contents() == Granted(old(a.Contents()), q)
    ensures q.Aligned? ==> value % q.alignment == 0
  {
    match q {
      case Plain(amount) => value := a.Allocate(amount);
      case Aligned(amount, alignment) => value := a.AllocateAligned(amount, alignment);
    }
  }

  /** `allocate` or `allocateAligned`. */
  method Obtain(a: Allocator, q: Request, ghost limit: nat, ghost room: nat) returns (value: nat)
    requires a.Valid() && Ready(a, limit, room) && room > 0 && q.Valid() && Higher(limit, q) < WORD
    modifies a, a.table
    ensures a.Valid() && Ready(a, Higher(limit, q), room - 1)
    ensures value == Start(old(a.Contents()), q) && a.Contents() == Granted(old(a.Contents()), q)
    ensures MEMORY_START <= value <= limit + Alignment(q)
    ensures q.Aligned? ==> value % q.alignment == 0
  {
    assert Open(0);
    SearchWithin(a.Contents(), q, limit);
    GrantedEnds(a.Contents(), q, limit);
    value := Call(a, q);
    assert InOrder(a, Higher(limit, q), room - 1);
  }

  lemma FreedEnds(slots: seq<Slot>, pointer: nat, limit: nat)
    requires EndBy(slots, limit)
    ensures EndBy(Freed(slots, pointer), limit)
  {
  }

  /** `unallocate` of a pointer some record starts at. */
  method GiveBack(a: Allocator, pointer: nat, ghost limit: nat, ghost room: nat)
    requires a.Valid() && Ready(a, limit, room) && Finds(a.Contents(), pointer)
    modifies a, a.table
    ensures a.Valid() && Ready(a, limit, room + 1) && a.Contents() == Freed(old(a.Contents()), pointer)
  {
    assert Open(0);
    FreedEnds(a.Contents(), pointer, limit);
    a.Unallocate(pointer);
    assert InOrder(a, limit, room + 1);
  }

  // ---------- execute ----------

  /** The fields of the current thread that `execute` overwrites for a while, and its page table. */
  class Current {
    var symbols: nat
    var symbolCount: nat
    var cr3: nat

    constructor (table: nat)
      ensures symbols == 0 && symbolCount == 0 && cr3 == table
    {
      symbols, symbolCount, cr3 := 0, 0, table;
    }
  }

  lemma StillReady(a: Allocator, limit: nat, room: nat, higher: nat, less: nat)
    requires Ready(a, limit, room) && limit <= higher && less <= room
    ensures Ready(a, higher, less)
  {
    assert Open(0);
    assert InOrder(a, limit, room);
  }

  /** The program's symbols, if it has any, become the current thread's. */
  method LoadSymbols(a: Allocator, current: Current, x: Image, ghost limit: nat, ghost room: nat)
    requires a.Valid() && Ready(a, limit, room) && room > 0 && limit + x.SymbolsSize() < WORD
    modifies a, a.table, current`symbols, current`symbolCount
    ensures a.Valid() && Ready(a, limit + x.SymbolsSize(), room - 1)
    ensures a.Contents() == WithSymbols(old(a.Contents()), x)
    ensures current.symbols == SymbolsIn(old(a.Contents()), x)
    ensures current.symbolCount == if x.hasSymbols then x.symbolCount else 0
  {
    if x.hasSymbols {
      current.symbols := Obtain(a, Plain(x.symbolCount * SYMBOL_SIZE), limit, room);
      current.symbolCount := x.symbolCount;
    } else {
      current.symbols, current.symbolCount := 0, 0;
      StillReady(a, limit, room, limit + x.SymbolsSize(), room - 1);
    }
  }

  lemma GrantFinds(slots: seq<Slot>, q: Request)
    requires q.Valid()
    ensures Finds(Granted(slots, q), Start(slots, q))
  {
    var t, k, v := Granted(slots, q), FirstFree(slots), Start(slots, q);
    assert t[k] == Slot(true, v, v + q.amount);
  }

  lemma GrantKeepsFound(slots: seq<Slot>, q: Request, pointer: nat)
    requires q.Valid() && Finds(slots, pointer)
    ensures Finds(Granted(slots, q), pointer)
  {
    var t, i := Granted(slots, q), Find(slots, pointer);
    assert t[i] == slots[i];
  }

  /** Bytes above `limit` that a load may reach. */
  function LoadSpan(x: Image): nat {
    PAGE_SIZE + x.size + x.nameLength + 1 + x.SymbolsSize()
  }

  /** `execute` down to `unallocate(symbolsFile)`: the program's block, and its symbols' if it has any. */
  method LoadImage(a: Allocator, current: Current, x: Image, ghost limit: nat, ghost room: nat)
    returns (program: nat)
    requires a.Valid() && Ready(a, limit, room) && room >= 3 && limit + LoadSpan(x) < WORD
    modifies a, a.table, current`symbols, current`symbolCount
    ensures a.Valid() && Ready(a, limit + LoadSpan(x), room - 2) && a.Contents() == Loaded(old(a.Contents()), x)
    ensures program == Start(old(a.Contents()), ProgramOf(x))
    ensures program % PAGE_SIZE == 0 && MEMORY_START <= program <= limit + PAGE_SIZE
    ensures current.symbols == SymbolsOf(old(a.Contents()), x)
  {
    program := Obtain(a, Aligned(x.size, PAGE_SIZE), limit, room);
    NameAndSymbols(a, current, x, Higher(limit, ProgramOf(x)), room - 1);
  }

  /** The symbol file's name is built, used and freed. */
  method NameAndSymbols(a: Allocator, current: Current, x: Image, ghost limit: nat, ghost room: nat)
    requires a.Valid() && Ready(a, limit, room) && room >= 2 && limit + x.nameLength + 1 + x.SymbolsSize() < WORD
    modifies a, a.table, current`symbols, current`symbolCount
    ensures a.Valid() && Ready(a, limit + x.nameLength + 1 + x.SymbolsSize(), room - 1)
    ensures current.symbols == SymbolsIn(Granted(old(a.Contents()), NameOf(x)), x)
    ensures a.Contents() == AfterName(old(a.Contents()), x)
  {
    NameFinds(a.Contents(), x);
    var symbolsFile := Obtain(a, Plain(x.nameLength + 1), limit, room);
    ghost var higher := Higher(limit, NameOf(x));
    LoadSymbols(a, current, x, higher, room - 1);
    GiveBack(a, symbolsFile, higher + x.SymbolsSize(), room - 2);
  }

  lemma NameFinds(slots: seq<Slot>, x: Image)
    ensures Finds(WithSymbols(Granted(slots, NameOf(x)), x), Start(slots, NameOf(x)))
  {
    GrantFinds(slots, NameOf(x));
    if x.hasSymbols {
      GrantKeepsFound(Granted(slots, NameOf(x)), SymbolsFor(x), Start(slots, NameOf(x)));
    }
  }

  /** Everything a program needs above `limit` lies in physical memory and in `mem`. */
  ghost predicate Roomy(mem: array<nat>, limit: nat, x: Image) {
    && 0 < x.size <= 0x80_0000_0000
    && limit + 0x100_0000 + x.size + x.nameLength + x.SymbolsSize() + TableSize(x.size) <= 8 * mem.Length <= PHYSICAL
  }

  lemma TableFits(size: nat)
    requires 0 < size <= 0x80_0000_0000
    ensures Pages(size) <= 0x4_0000 && TableSize(size) == 8 * BlockWords(Pages(size)) <= 0x20_2000
    ensures size <= Pages(size) * 0x20_0000 < size + 0x20_0000
  {
  }

  /** `createTable`, its block allocated from `a`. */
  method MakeTable(a: Allocator, mem: array<nat>, mainPdpt: nat, program: nat, size: nat, ghost limit: nat,
                   ghost room: nat)
    returns (table: nat)
    requires a.Valid() && Ready(a, limit, room) && room > 0 && program % PAGE_SIZE == 0 && 0 < size <= 0x80_0000_0000
    requires limit + 0x1000 + TableSize(size) <= 8 * mem.Length <= PHYSICAL
    modifies a, a.table, mem
    ensures a.Valid() && Ready(a, limit + 0x1000 + TableSize(size), room - 1)
    ensures a.Contents() == WithTable(old(a.Contents()), size)
    ensures table == Start(old(a.Contents()), TableOf(size))
    ensures table % 0x1000 == 0 && MEMORY_START <= table <= limit + 0x1000
    ensures Layout(mem[..], table / 8, mainPdpt, program, Pages(size))
    ensures forall j :: 0 <= j < mem.Length && !(table / 8 <= j < table / 8 + BlockWords(Pages(size)))
              ==> mem[j] == old(mem[j])
  {
    TableFits(size);
    table := Obtain(a, Aligned(TableSize(size), 0x1000), limit, room);
    WordAligned(table);
    assert BlockWords(Pages(size)) * 8 == TableSize(size);
    CreateTable(mem, table, mainPdpt, program, Pages(size));
  }

  /** The two blocks of `createThread`. */
  method NewThread(a: Allocator, ghost limit: nat, ghost room: nat) returns (thread: nat, stack: nat)
    requires a.Valid() && Ready(a, limit, room) && room >= 2 && limit + 0x11_0000 < WORD
    modifies a, a.table
    ensures a.Valid() && Ready(a, limit + 0x11_0000, room - 2)
    ensures thread == Start(old(a.Contents()), THREAD)
    ensures stack == Start(Granted(old(a.Contents()), THREAD), STACK)
    ensures a.Contents() == Granted(Granted(old(a.Contents()), THREAD), STACK)
  {
    thread := Obtain(a, Plain(THREAD_SIZE), limit, room);
    ghost var higher := Higher(limit, THREAD);
    stack := Obtain(a, Aligned(STACK_SIZE, 16), higher, room - 1);
    StillReady(a, Higher(higher, STACK), room - 2, limit + 0x11_0000, room - 2);
  }

  /** A live process's page table is laid out in memory. */
  ghost predicate Running(p: Process, size: nat, mem: array<nat>, mainPdpt: nat)
    reads mem
  {
    && 0 < size <= 0x80_0000_0000
    && Addressable(p.table, p.program, Pages(size))
    && Layout(mem[..], p.table / 8, mainPdpt, p.program, Pages(size))
  }

  /** How far up the records may reach once a process runs. */
  function Reach(limit: nat, x: Image): nat
    requires x.size > 0
  {
    limit + 0x80_0000 + x.size + x.nameLength + x.SymbolsSize() + TableSize(x.size)
  }

  /** The process sees its block from 0x80_0000_0000 on, byte for byte. */
  ghost predicate Sees(m: seq<nat>, p: Process, size: nat) {
    forall address :: 0x80_0000_0000 <= address < 0x80_0000_0000 + size ==>
                        Walk(m, p.table, address) == Some(p.program + (address - 0x80_0000_0000))
  }

  lemma ImageMapped(p: Process, size: nat, mem: array<nat>, mainPdpt: nat)
    requires Running(p, size, mem, mainPdpt)
    ensures Sees(mem[..], p, size)
  {
    forall address | 0x80_0000_0000 <= address < 0x80_0000_0000 + size
      ensures Walk(mem[..], p.table, address) == Some(p.program + (address - 0x80_0000_0000))
    {
      ByteMapped(p, size, mem[..], mainPdpt, address);
    }
  }

  lemma ByteMapped(p: Process, size: nat, m: seq<nat>, mainPdpt: nat, address: nat)
    requires 0 < size <= 0x80_0000_0000 && Addressable(p.table, p.program, Pages(size))
    requires Layout(m, p.table / 8, mainPdpt, p.program, Pages(size))
    requires 0x80_0000_0000 <= address < 0x80_0000_0000 + size
    ensures Walk(m, p.table, address) == Some(p.program + (address - 0x80_0000_0000))
  {
    var k := address - 0x80_0000_0000;
    TableFits(size);
    assert address == PROCESS_ADDRESS + k;
    Mapped(m, p.table, mainPdpt, p.program, Pages(size), k);
  }

  /** No block that was recorded loses its record, or a byte to the process. */
  ghost predicate Spares(before: seq<Slot>, after: seq<Slot>, x: Image, p: Process)
    requires x.size > 0
  {
    forall other: nat, n: nat :: n > 0 && Recorded(before, other, n) ==>
                                   Recorded(after, other, n) && ApartFrom(x, p, other, n)
  }

  lemma ExecuteSpares(slots: seq<Slot>, x: Image)
    requires x.size > 0
    ensures Spares(slots, Executed(slots, x), x, Blocks(slots, x))
  {
    forall other: nat, n: nat | n > 0 && Recorded(slots, other, n)
      ensures Recorded(Executed(slots, x), other, n) && ApartFrom(x, Blocks(slots, x), other, n)
    {
      ExecutedSpares(slots, x, other, n);
    }
  }

  /** `execute`, the file found and read: `x.size` is the file's less its 8-byte entry point. The current
      thread ends with the symbols and table it had. All of the process's blocks are recorded in full, share no
      byte with each other or with anybody's, and the new table maps the image onto the program's. */
  method Execute(a: Allocator, mem: array<nat>, current: Current, mainPdpt: nat, x: Image, ghost limit: nat,
                 ghost room: nat)
    returns (p: Process)
    requires a.Valid() && Ready(a, limit, room) && room >= 6 && Roomy(mem, limit, x)
    modifies a, a.table, mem, current
    ensures current.symbols == old(current.symbols) && current.symbolCount == old(current.symbolCount)
    ensures current.cr3 == old(current.cr3)
    ensures a.Valid() && p == Blocks(old(a.Contents()), x) && a.Contents() == Executed(old(a.Contents()), x)
    ensures AllRecorded(a.Contents(), x, p) && PairwiseApart(x, p) && WellPlaced(p)
    ensures Spares(old(a.Contents()), a.Contents(), x, p)
    ensures Ready(a, Reach(limit, x), room - 5)
    ensures Running(p, x.size, mem, mainPdpt)
    ensures Sees(mem[..], p, x.size)
    ensures forall j :: 0 <= j < mem.Length && !(p.table / 8 <= j < p.table / 8 + BlockWords(Pages(x.size)))
              ==> mem[j] == old(mem[j])
  {
    var oldSymbols, oldCount, oldTable := current.symbols, current.symbolCount, current.cr3;
    ExecutedCovers(a.Contents(), x);
    ExecutedPlaced(a.Contents(), x);
    ExecuteSpares(a.Contents(), x);
    p := Load(a, mem, current, mainPdpt, x, limit, room);
    ImageMapped(p, x.size, mem, mainPdpt);
    current.symbols, current.symbolCount, current.cr3 := oldSymbols, oldCount, oldTable;
  }

  /** `execute`, and the switch to the new process's table and symbols when its thread is dispatched. */
  method Enter(a: Allocator, mem: array<nat>, current: Current, mainPdpt: nat, x: Image, ghost limit: nat,
               ghost room: nat)
    returns (p: Process)
    requires a.Valid() && Ready(a, limit, room) && room >= 6 && Roomy(mem, limit, x)
    modifies a, a.table, mem, current
    ensures a.Valid() && p == Blocks(old(a.Contents()), x) && a.Contents() == Executed(old(a.Contents()), x)
    ensures Ready(a, Reach(limit, x), room - 5) && Running(p, x.size, mem, mainPdpt)
    ensures current.cr3 == p.table && current.symbols == p.symbols
  {
    p := Execute(a, mem, current, mainPdpt, x, limit, room);
    current.cr3, current.symbols := p.table, p.symbols;
  }

  /** `execute` between saving and restoring the current thread's fields. */
  method Load(a: Allocator, mem: array<nat>, current: Current, mainPdpt: nat, x: Image, ghost limit: nat,
              ghost room: nat)
    returns (p: Process)
    requires a.Valid() && Ready(a, limit, room) && room >= 6 && Roomy(mem, limit, x)
    modifies a, a.table, mem, current
    ensures a.Valid() && p == Blocks(old(a.Contents()), x) && a.Contents() == Executed(old(a.Contents()), x)
    ensures Ready(a, Reach(limit, x), room - 5)
    ensures Running(p, x.size, mem, mainPdpt)
    ensures forall j :: 0 <= j < mem.Length && !(p.table / 8 <= j < p.table / 8 + BlockWords(Pages(x.size)))
              ==> mem[j] == old(mem[j])
  {
    ghost var before := a.Contents();
    TableFits(x.size);
    var program := LoadImage(a, current, x, limit, room);
    var symbols := current.symbols;
    ghost var loaded := limit + LoadSpan(x);
    p := MapAndStart(a, mem, current, mainPdpt, program, symbols, x.size, loaded, room - 2);
    InPhysical(p, x.size, limit, loaded);
    StillReady(a, loaded + 0x12_0000 + TableSize(x.size), room - 5, Reach(limit, x), room - 5);
  }

  /** `createTable`, the switch to the new table, and `createThread`. */
  method MapAndStart(a: Allocator, mem: array<nat>, current: Current, mainPdpt: nat, program: nat, symbols: nat,
                     size: nat, ghost limit: nat, ghost room: nat)
    returns (p: Process)
    requires a.Valid() && Ready(a, limit, room) && room >= 3 && program % PAGE_SIZE == 0 && 0 < size <= 0x80_0000_0000
    requires limit + 0x20_0000 + TableSize(size) <= 8 * mem.Length <= PHYSICAL
    modifies a, a.table, mem, current`cr3
    ensures a.Valid() && Ready(a, limit + 0x12_0000 + TableSize(size), room - 3)
    ensures a.Contents() == Launched(old(a.Contents()), size)
    ensures p == ProcessIn(old(a.Contents()), size, program, symbols)
    ensures p.table % 0x1000 == 0 && p.table <= limit + 0x1000 && current.cr3 == p.table
    ensures Layout(mem[..], p.table / 8, mainPdpt, program, Pages(size))
    ensures forall j :: 0 <= j < mem.Length && !(p.table / 8 <= j < p.table / 8 + BlockWords(Pages(size)))
              ==> mem[j] == old(mem[j])
  {
    var table := MakeTable(a, mem, mainPdpt, program, size, limit, room);
    current.cr3 := table;
    ghost var higher := limit + 0x1000 + TableSize(size);
    var thread, stack := NewThread(a, higher, room - 1);
    p := Process(program, symbols, table, thread, stack);
    StillReady(a, higher + 0x11_0000, room - 3, limit + 0x12_0000 + TableSize(size), room - 3);
  }

  lemma InPhysical(p: Process, size: nat, limit: nat, loaded: nat)
    requires 0 < size <= 0x80_0000_0000 && p.program % PAGE_SIZE == 0 && p.table % 0x1000 == 0
    requires p.program <= limit + PAGE_SIZE && p.table <= loaded + 0x1000
    requires limit + 0x100_0000 + size <= PHYSICAL && loaded + 0x80_0000 <= PHYSICAL
    ensures Addressable(p.table, p.program, Pages(size))
  {
    TableFits(size);
  }

  // ---------- quit and the cleaner ----------

  /** `quit` by the process's thread: the image is found through `getAddress`, the table through CR3. */
  method Quit(a: Allocator, mem: array<nat>, current: Current, ghost p: Process, ghost size: nat, ghost mainPdpt: nat,
              ghost limit: nat, ghost room: nat)
    requires a.Valid() && Ready(a, limit, room) && Running(p, size, mem, mainPdpt) && CanQuit(a.Contents(), p)
    requires current.cr3 == p.table && current.symbols == p.symbols
    modifies a, a.table
    ensures a.Valid() && Ready(a, limit, room + 2) && a.Contents() == Quitted(old(a.Contents()), p)
  {
    GetAddressAgrees(mem[..], p.table, mainPdpt, p.program, Pages(size), PROCESS_ADDRESS);
    var pointer := GetAddress(mem[..], current.cr3, PROCESS_ADDRESS);
    GiveBack(a, pointer, limit, room);
    var table := current.cr3;
    GiveBack(a, table, limit, room + 1);
    if current.symbols != 0 {
      GiveBack(a, current.symbols, limit, room + 2);
      StillReady(a, limit, room + 3, limit, room + 2);
    }
  }

  /** The cleaner's two frees for a thread it took off the dead list. */
  method Reclaim(a: Allocator, thread: nat, stack: nat, ghost limit: nat, ghost room: nat)
    requires a.Valid() && Ready(a, limit, room) && CanReclaim(a.Contents(), thread, stack)
    modifies a, a.table
    ensures a.Valid() && Ready(a, limit, room + 2) && a.Contents() == Reclaimed(old(a.Contents()), thread, stack)
  {
    GiveBack(a, stack, limit, room);
    GiveBack(a, thread, limit, room + 1);
  }
}
