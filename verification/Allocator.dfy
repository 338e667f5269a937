/** The physical memory allocator, updated in place: a table of slots growing away from `allocated`,
    of which only the first `used` were ever written. */
module Allocators {
  import opened SlotTable
  import opened Words

  class Allocator {
    const table: array<Slot>  // element i is the record i places below the one `allocated` points to
    var allocations: nat
    var unusable: nat
    ghost var used: nat           // slots ever written; the rest of the array is arbitrary memory

    ghost predicate Valid()
      reads this, table
    {
      used <= table.Length && allocations == Live(table[..used])
    }

    ghost function Contents(): seq<Slot>
      reads this, table
      requires Valid()
    {
      table[..used]
    }

    /** `initAllocator`: nothing recorded yet, whatever the memory of the table holds. */
    constructor (memory: array<Slot>)
      ensures Valid() && table == memory
      ensures Contents() == [] && allocations == 0 && unusable == 0
    {
      table := memory;
      allocations, unusable, used := 0, 0, 0;
    }

    /** The scan's state, looked into by the lemmas below alone. */
    static ghost predicate InScan(slots: seq<Slot>, q: Request, value: nat, i: nat, count: nat) {
      forall k {:trigger Open(k)} :: Open(k) ==> Scanned(slots, q, value, i, count)
    }

    static lemma ScanBegins(slots: seq<Slot>, q: Request)
      requires Fits(slots, q)
      ensures InScan(slots, q, q.First(), 0, 0)
    {
    }

    static lemma ScanOn(slots: seq<Slot>, q: Request, value: nat, i: nat, count: nat)
      requires InScan(slots, q, value, i, count) && count != Live(slots)
      ensures i < |slots| && q.Valid() && value + q.amount < WORD
      ensures !slots[i].present ==> InScan(slots, q, value, i + 1, count)
      ensures slots[i].present && !Clash(slots[i], value, q.amount) ==> InScan(slots, q, value, i + 1, count + 1)
      ensures var next := q.After(slots[i].end);
              Clash(slots[i], value, q.amount) ==>
                next < WORD && InScan(slots, q, next, 0, 0) && Above(slots, next) < Above(slots, value)
    {
      assert Open(0);
      ScanNext(slots, q, value, i, count);
    }

    static lemma ScanEnds(slots: seq<Slot>, q: Request, value: nat, i: nat, count: nat)
      requires InScan(slots, q, value, i, count) && count == Live(slots)
      ensures q.Valid() && value == Search(slots, q, q.First())
    {
      assert Open(0);
      ScanDone(slots, q, value, i, count);
    }

    /** The restarting first-fit scan of `allocate` and `allocateAligned`. */
    method Scan(q: Request) returns (value: nat)
      requires Valid() && Fits(Contents(), q)
      ensures value == Search(Contents(), q, q.First())
    {
      ghost var t := Contents();
      value := q.First();
      var i, count := 0, 0;
      ScanBegins(t, q);
      while count != allocations
        invariant i <= used && InScan(t, q, value, i, count)
        decreases Above(t, value), used - i
      {
        ScanOn(t, q, value, i, count);
        if table[i].present {
          count := count + 1;
          if Wrap(value + q.amount) <= table[i].start || value >= table[i].end {
            i := i + 1;
          } else {
            value := Wrap(q.After(table[i].end));
            i := 0;
            count := 0;
          }
        } else {
          i := i + 1;
        }
      }
      ScanEnds(t, q, value, i, count);
    }

    /** The search for a slot, shared by `markUnusable`, `allocate` and `allocateAligned`. It may read one
        slot that was never written. */
    method FreeSlot() returns (i: nat)
      requires Valid() && allocations < table.Length
      ensures i == FirstFree(Contents()) && i < table.Length
    {
      ghost var t := Contents();
      LiveFull(t);
      i := 0;
      var count := 0;
      while table[i].present && count != allocations
        invariant count == i <= |t| && i < table.Length
        invariant forall j :: 0 <= j < i ==> t[j].present
        decreases |t| - i
      {
        LivePrefix(t, i);
        LiveFull(t[..i]);
        count := count + 1;
        i := i + 1;
      }
      LivePrefix(t, i);
      LiveFull(t[..i]);
    }

    /** The search for a slot and the three writes of the record. */
    method Store(start: nat, end: nat)
      requires Valid() && allocations < table.Length
      modifies this`allocations, this`used, table
      ensures Valid() && allocations == old(allocations) + 1
      ensures Contents() == Put(old(Contents()), start, end)
    {
      ghost var t := Contents();
      var i := FreeSlot();
      table[i] := table[i].(present := true);
      table[i] := table[i].(start := start);
      table[i] := table[i].(end := end);
      allocations := allocations + 1;
      if i == used {
        used := used + 1;
      }
      assert table[..used] == Put(t, start, end);
      PutAdds(t, start, end);
    }

    method MarkUnusable(start: nat, end: nat)
      requires Valid() && allocations < table.Length
      requires start <= end && unusable + (end - start) < WORD
      modifies this, table
      ensures Valid() && allocations == old(allocations) + 1
      ensures Contents() == Put(old(Contents()), start, end)
      ensures unusable == old(unusable) + (end - start)
    {
      Store(start, end);
      unusable := Wrap(unusable + (end - start));
    }

    method Allocate(amount: nat) returns (value: nat)
      requires Valid() && allocations < table.Length
      requires Fits(Contents(), Plain(amount))
      modifies this`allocations, this`used, table
      ensures Valid() && allocations == old(allocations) + 1
      ensures value == Search(old(Contents()), Plain(amount), MEMORY_START)
      ensures Contents() == Put(old(Contents()), value, value + amount)
      // what the address means: the least one from 0x100_0000 on where the bytes conflict with no live record
      ensures 0x100_0000 <= value && value + amount < WORD && Feasible(old(Contents()), value, amount)
      ensures forall u :: 0x100_0000 <= u < value ==> !Feasible(old(Contents()), u, amount)
    {
      AllocateIsLeast(Contents(), amount);
      value := Scan(Plain(amount));
      Store(value, Wrap(value + amount));
    }

    method AllocateAligned(amount: nat, alignment: nat) returns (value: nat)
      requires alignment > 0
      requires Valid() && allocations < table.Length
      requires Fits(Contents(), Aligned(amount, alignment))
      modifies this`allocations, this`used, table
      ensures Valid() && allocations == old(allocations) + 1
      ensures var q := Aligned(amount, alignment); value == Search(old(Contents()), q, q.First())
      ensures Contents() == Put(old(Contents()), value, value + amount)
      ensures 0x100_0000 < value && value % alignment == 0 && value + amount < WORD
      ensures Feasible(old(Contents()), value, amount)
    {
      AllocateAlignedFits(Contents(), amount, alignment);
      value := Scan(Aligned(amount, alignment));
      Store(value, Wrap(value + amount));
    }

    method Unallocate(pointer: nat)
      requires Valid() && Find(Contents(), pointer) < |Contents()|
      modifies this`allocations, table
      ensures Valid() && allocations == old(allocations) - 1
      ensures Contents() == Take(old(Contents()), pointer)
    {
      ghost var t := Contents();
      var test := 0;
      while !table[test].present || table[test].start != pointer
        invariant test <= Find(t, pointer) && table[..used] == t
        decreases used - test
      {
        test := test + 1;
      }
      assert test == Find(t, pointer);
      TakeRemoves(t, pointer);
      table[test] := table[test].(present := false);
      allocations := allocations - 1;
      assert table[..used] == Take(t, pointer);
    }

    /** Bytes handed out: the live sizes less what was marked unusable, in 64-bit arithmetic. */
    method GetUsage() returns (usage: nat)
      requires Valid()
      ensures usage == Wrap(Size(Contents()) - unusable)
    {
      ghost var t := Contents();
      var size: nat := 0;
      var i, count := 0, 0;
      while count != allocations
        invariant i <= used && count == Live(t[..i])
        invariant size == Wrap(Size(t[..i]))
        decreases used - i
      {
        LiveNext(t, i, count);
        ghost var s := t[i];
        WrapSum(Size(t[..i]), s.end - s.start);
        if table[i].present {
          size := Wrap(size + (table[i].end - table[i].start));
          count := count + 1;
        }
        i := i + 1;
      }
      LivePrefix(t, i);
      WrapSum(Size(t), 0 - unusable);
      usage := Wrap(size - unusable);
    }
  }
}
