/** What the blocks of a process are worth: after `execute` they are live in full, lie apart from each other and
    from everybody's, and hold the whole image. */
module Coverage {
  import opened SlotTable
  import opened Lifetimes
  import opened Paging

  /** The two blocks have no byte in common. */
  predicate Disjoint(a: nat, sizeA: nat, b: nat, sizeB: nat) {
    a + sizeA <= b || b + sizeB <= a
  }

  lemma PutRecords(slots: seq<Slot>, start: nat, size: nat, after: seq<Slot>)
    requires after == Put(slots, start, start + size)
    ensures Recorded(after, start, size)
  {
    assert after[FirstFree(slots)] == Slot(true, start, start + size);
  }

  lemma PutKeeps(slots: seq<Slot>, start: nat, end: nat, after: seq<Slot>, other: nat, size: nat)
    requires after == Put(slots, start, end) && Recorded(slots, other, size)
    ensures Recorded(after, other, size)
  {
    var i :| 0 <= i < |slots| && slots[i] == Slot(true, other, other + size);
    assert after[i] == slots[i];
  }

  lemma FeasibleApart(slots: seq<Slot>, value: nat, amount: nat, other: nat, size: nat)
    requires Feasible(slots, value, amount) && Recorded(slots, other, size)
    ensures Disjoint(value, amount, other, size)
  {
    var i :| 0 <= i < |slots| && slots[i] == Slot(true, other, other + size);
    assert !Clash(slots[i], value, amount);
  }

  /** An allocation is recorded in full. */
  lemma GrantRecorded(slots: seq<Slot>, q: Request, v: nat, after: seq<Slot>)
    requires q.Valid() && v == Start(slots, q) && after == Granted(slots, q)
    ensures Recorded(after, v, q.amount)
  {
    PutRecords(slots, v, q.amount, after);
  }

  /** And every block recorded before stays, apart from it. */
  lemma GrantApart(slots: seq<Slot>, q: Request, v: nat, after: seq<Slot>, other: nat, size: nat)
    requires q.Valid() && v == Start(slots, q) && after == Granted(slots, q) && Recorded(slots, other, size)
    ensures Recorded(after, other, size) && Disjoint(v, q.amount, other, size)
  {
    PutKeeps(slots, v, v + q.amount, after, other, size);
    FeasibleApart(slots, v, q.amount, other, size);
  }

  /** Freeing another start takes nothing from a block. */
  lemma FreeKeeps(slots: seq<Slot>, pointer: nat, other: nat, size: nat)
    requires Recorded(slots, other, size) && pointer != other
    ensures Recorded(Freed(slots, pointer), other, size)
  {
    var i :| 0 <= i < |slots| && slots[i] == Slot(true, other, other + size);
    assert Freed(slots, pointer)[i] == slots[i];
  }

  // ---------- down to the unallocate of the name ----------

  /** While it is used, the symbol file's name has room for its characters and the NUL. */
  lemma NameIsWhole(slots: seq<Slot>, x: Image)
    ensures var first := Granted(slots, ProgramOf(x));
            var name := Start(first, NameOf(x));
            Recorded(WithSymbols(Granted(first, NameOf(x)), x), name, x.nameLength + 1)
  {
    var first := Granted(slots, ProgramOf(x));
    var name, named := Start(first, NameOf(x)), Granted(first, NameOf(x));
    GrantRecorded(first, NameOf(x), name, named);
    if x.hasSymbols {
      GrantApart(named, SymbolsFor(x), SymbolsIn(named, x), WithSymbols(named, x), name, x.nameLength + 1);
    }
  }

  /** The record that freeing the name clears comes before the symbols'. */
  lemma SymbolsSurvive(named: seq<Slot>, name: nat, k: nat, q: Request, s: nat, after: seq<Slot>)
    requires k < |named| && named[k].present && named[k].start == name
    requires q.Valid() && s == Start(named, q) && after == Granted(named, q) && FirstFree(named) > k
    ensures Recorded(Freed(after, name), s, q.amount)
  {
    var j := FirstFree(named);
    assert after == Put(named, s, s + q.amount);
    assert after[j] == Slot(true, s, s + q.amount) && after[k] == named[k];
    assert Find(after, name) <= k;
    assert Freed(after, name)[j] == after[j];
  }

  lemma NextSlot(first: seq<Slot>, q: Request, v: nat, named: seq<Slot>)
    requires q.Valid() && v == Start(first, q) && named == Granted(first, q)
    ensures var k := FirstFree(first);
            k < |named| && named[k] == Slot(true, v, v + q.amount) && FirstFree(named) > k
  {
    PutMoves(first, v, v + q.amount, named);
  }

  lemma PutMoves(slots: seq<Slot>, start: nat, end: nat, after: seq<Slot>)
    requires after == Put(slots, start, end)
    ensures var k := FirstFree(slots); k < |after| && after[k] == Slot(true, start, end) && FirstFree(after) > k
  {
    var k := FirstFree(slots);
    forall i | 0 <= i <= k ensures after[i].present {
      assert i < k ==> after[i] == slots[i];
    }
  }

  /** Once loaded, the program's block and the symbols' are recorded in full and apart. */
  lemma LoadedCovers(slots: seq<Slot>, x: Image, program: nat, symbols: nat)
    requires x.size > 0 && program == Start(slots, ProgramOf(x)) && symbols == SymbolsOf(slots, x)
    ensures Recorded(Loaded(slots, x), program, x.size)
    ensures x.hasSymbols ==>
              && Recorded(Loaded(slots, x), symbols, x.symbolCount * 264)
              && Disjoint(program, x.size, symbols, x.symbolCount * 264)
  {
    var first := Granted(slots, ProgramOf(x));
    var name, named := Start(first, NameOf(x)), Granted(first, NameOf(x));
    var all := WithSymbols(named, x);
    GrantRecorded(slots, ProgramOf(x), program, first);
    GrantApart(first, NameOf(x), name, named, program, x.size);
    if x.hasSymbols {
      GrantApart(named, SymbolsFor(x), symbols, all, program, x.size);
      NextSlot(first, NameOf(x), name, named);
      SymbolsSurvive(named, name, FirstFree(first), SymbolsFor(x), symbols, all);
    }
    FreeKeeps(all, name, program, x.size);
  }

  /** Somebody else's block is still there, and apart from the program's and the symbols'. */
  lemma LoadedSpares(slots: seq<Slot>, x: Image, program: nat, symbols: nat, other: nat, size: nat)
    requires x.size > 0 && program == Start(slots, ProgramOf(x)) && symbols == SymbolsOf(slots, x)
    requires size > 0 && Recorded(slots, other, size)
    ensures Recorded(Loaded(slots, x), other, size) && Disjoint(program, x.size, other, size)
    ensures x.hasSymbols ==> Disjoint(symbols, x.symbolCount * 264, other, size)
  {
    var first := Granted(slots, ProgramOf(x));
    var name, named := Start(first, NameOf(x)), Granted(first, NameOf(x));
    GrantApart(slots, ProgramOf(x), program, first, other, size);
    GrantApart(first, NameOf(x), name, named, other, size);
    if x.hasSymbols {
      GrantApart(named, SymbolsFor(x), symbols, WithSymbols(named, x), other, size);
    }
    FreeKeeps(WithSymbols(named, x), name, other, size);
  }

  // ---------- the whole of execute ----------

  /** Table, thread and stack go where no byte of a block is that is recorded already. */
  lemma LaunchedSpares(l: seq<Slot>, size: nat, p: Process, other: nat, n: nat)
    requires size > 0 && p == ProcessIn(l, size, p.program, p.symbols) && Recorded(l, other, n)
    ensures Recorded(Launched(l, size), other, n)
    ensures Disjoint(p.table, TableSize(size), other, n) && Disjoint(p.thread, 72, other, n)
    ensures Disjoint(p.stack, 0x10_0000, other, n)
  {
    var t := WithTable(l, size);
    var h := Granted(t, THREAD);
    GrantApart(l, TableOf(size), p.table, t, other, n);
    GrantApart(t, THREAD, p.thread, h, other, n);
    GrantApart(h, STACK, p.stack, Launched(l, size), other, n);
  }

  lemma LaunchedCovers(l: seq<Slot>, size: nat, p: Process)
    requires size > 0 && p == ProcessIn(l, size, p.program, p.symbols)
    ensures var e := Launched(l, size);
            && Recorded(e, p.table, TableSize(size)) && Recorded(e, p.thread, 72) && Recorded(e, p.stack, 0x10_0000)
    ensures Disjoint(p.table, TableSize(size), p.thread, 72) && Disjoint(p.table, TableSize(size), p.stack, 0x10_0000)
    ensures Disjoint(p.thread, 72, p.stack, 0x10_0000)
  {
    var t := WithTable(l, size);
    var h := Granted(t, THREAD);
    var e := Launched(l, size);
    GrantRecorded(l, TableOf(size), p.table, t);
    GrantApart(t, THREAD, p.thread, h, p.table, TableSize(size));
    GrantApart(h, STACK, p.stack, e, p.table, TableSize(size));
    GrantRecorded(t, THREAD, p.thread, h);
    GrantApart(h, STACK, p.stack, e, p.thread, 72);
    GrantRecorded(h, STACK, p.stack, e);
  }

  /** Every block of the process is recorded in full. */
  ghost predicate AllRecorded(slots: seq<Slot>, x: Image, p: Process)
    requires x.size > 0
  {
    && Recorded(slots, p.program, x.size) && Recorded(slots, p.table, TableSize(x.size))
    && Recorded(slots, p.thread, 72) && Recorded(slots, p.stack, 0x10_0000)
    && (x.hasSymbols ==> Recorded(slots, p.symbols, x.symbolCount * 264))
  }

  /** No byte of a block is one of the process's. */
  predicate ApartFrom(x: Image, p: Process, other: nat, n: nat)
    requires x.size > 0
  {
    && Disjoint(p.program, x.size, other, n) && Disjoint(p.table, TableSize(x.size), other, n)
    && Disjoint(p.thread, 72, other, n) && Disjoint(p.stack, 0x10_0000, other, n)
    && (x.hasSymbols ==> Disjoint(p.symbols, x.symbolCount * 264, other, n))
  }

  /** The blocks of the process, pairwise. */
  predicate PairwiseApart(x: Image, p: Process)
    requires x.size > 0
  {
    && Disjoint(p.table, TableSize(x.size), p.program, x.size) && Disjoint(p.thread, 72, p.program, x.size)
    && Disjoint(p.stack, 0x10_0000, p.program, x.size)
    && Disjoint(p.table, TableSize(x.size), p.thread, 72) && Disjoint(p.table, TableSize(x.size), p.stack, 0x10_0000)
    && Disjoint(p.thread, 72, p.stack, 0x10_0000)
    && (x.hasSymbols ==>
          var n := x.symbolCount * 264;
          && Disjoint(p.program, x.size, p.symbols, n) && Disjoint(p.table, TableSize(x.size), p.symbols, n)
          && Disjoint(p.thread, 72, p.symbols, n) && Disjoint(p.stack, 0x10_0000, p.symbols, n))
  }

  /** After `execute`, whatever was live before: the image, the symbols, the page tables, the thread and its stack
      are recorded in full and share no byte. */
  lemma ExecutedCovers(slots: seq<Slot>, x: Image)
    requires x.size > 0
    ensures AllRecorded(Executed(slots, x), x, Blocks(slots, x)) && PairwiseApart(x, Blocks(slots, x))
  {
    var l, p := Loaded(slots, x), Blocks(slots, x);
    LoadedCovers(slots, x, p.program, p.symbols);
    LaunchedSpares(l, x.size, p, p.program, x.size);
    if x.hasSymbols {
      LaunchedSpares(l, x.size, p, p.symbols, x.symbolCount * 264);
    }
    LaunchedCovers(l, x.size, p);
  }

  /** The image starts on a large page, the tables on a page, and the stack on a multiple of 16. */
  predicate WellPlaced(p: Process) {
    && 0x100_0000 <= p.program && p.program % 0x20_0000 == 0
    && 0x100_0000 <= p.table && p.table % 0x1000 == 0
    && 0x100_0000 <= p.stack && p.stack % 16 == 0 && 0x100_0000 <= p.thread
  }

  lemma ExecutedPlaced(slots: seq<Slot>, x: Image)
    requires x.size > 0
    ensures WellPlaced(Blocks(slots, x))
  {
    var l := Loaded(slots, x);
    var t := WithTable(l, x.size);
    AllocateAlignedFits(slots, x.size, PAGE_SIZE);
    AllocateAlignedFits(l, TableSize(x.size), 0x1000);
    AllocateIsLeast(t, 72);
    AllocateAlignedFits(Granted(t, THREAD), STACK_SIZE, 16);
  }

  /** And no block that was live before loses its record or a byte to them. */
  lemma ExecutedSpares(slots: seq<Slot>, x: Image, other: nat, n: nat)
    requires x.size > 0 && n > 0 && Recorded(slots, other, n)
    ensures Recorded(Executed(slots, x), other, n) && ApartFrom(x, Blocks(slots, x), other, n)
  {
    var l, p := Loaded(slots, x), Blocks(slots, x);
    LoadedSpares(slots, x, p.program, p.symbols, other, n);
    LaunchedSpares(l, x.size, p, other, n);
  }
}
