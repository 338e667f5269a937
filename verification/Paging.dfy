/** Process page tables. Physical memory is an array of 64-bit words; the word at byte address `a` is
    element `a / 8`. */
module Paging {
  import opened Words

  const PROCESS_ADDRESS: nat := 0x80_0000_0000  // include/mem.h
  const PAGE_SIZE: nat := 0x20_0000             // os/include/paging.h; written out where it multiplies
  const PAGE_ENTRY_SIZE: nat := 0x1000
  const PAGE_ENTRY_COUNT: nat := 512
  const PAGE_PRESENT: bv12 := 0x3
  const PAGE_SIZED: bv12 := 0x80
  const PHYSICAL: nat := 0x10_0000_0000_0000    // 2^52, the physical address space

  datatype Option<T> = None | Some(value: T)

  /** Bitwise or with flags in the low 12 bits. */
  function Or(word: nat, flags: bv12): nat {
    word - word % 0x1000 + ((word % 0x1000) as bv12 | flags) as nat
  }

  /** `word & PAGE_ADDRESS_MASK`: the low 12 bits cleared. */
  function Masked(word: nat): nat {
    word - word % 0x1000
  }

  lemma OrAligned(word: nat)
    requires word % 0x1000 == 0
    ensures Or(word, PAGE_PRESENT) == word + 3
    ensures Or(Or(word, PAGE_PRESENT), PAGE_SIZED) == word + 0x83
  {
    LowFlags();
    assert (word + 3) % 0x1000 == 3;
  }

  lemma LowFlags()
    ensures ((0 as bv12) | PAGE_PRESENT) as nat == 3 && ((3 as bv12) | PAGE_SIZED) as nat == 0x83
  {
  }

  lemma NextPage(address: nat)
    requires address % 0x20_0000 == 0
    ensures address % 0x1000 == 0 && (address + 0x20_0000) % 0x20_0000 == 0
  {
    var q := address / 0x20_0000;
    assert address == 0x1000 * (512 * q);
    assert address + 0x20_0000 == 0x20_0000 * (q + 1);
  }

  // ---------- the hardware's walk: section 4.5 of volume 3A of the Intel manual ----------

  function Entry(m: seq<nat>, table: nat, index: nat): Option<nat> {
    if table / 8 + index < |m| && m[table / 8 + index] % 2 == 1 then Some(m[table / 8 + index]) else None
  }

  /** Bits 51:12 of an entry. */
  function Frame(entry: nat): nat {
    Masked(entry % PHYSICAL)
  }

  predicate IsLarge(entry: nat) {
    entry / 0x80 % 2 == 1
  }

  /** The bits of an entry from `size` up to bit 51, and those of the address below `size`. */
  function Large(entry: nat, size: nat, address: nat): nat
    requires size > 0
  {
    entry % PHYSICAL - entry % PHYSICAL % size + address % size
  }

  /** Translation of a 48-bit address through PML4, PDPT, PD and PT, with 1 GB, 2 MB and 4 KB pages. */
  function Walk(m: seq<nat>, cr3: nat, address: nat): Option<nat> {
    match Entry(m, Frame(cr3), address / 0x80_0000_0000 % 512)
    case None => None
    case Some(e) => WalkPdpt(m, Frame(e), address)
  }

  function WalkPdpt(m: seq<nat>, table: nat, address: nat): Option<nat> {
    match Entry(m, table, address / 0x4000_0000 % 512)
    case None => None
    case Some(e) => if IsLarge(e) then Some(Large(e, 0x4000_0000, address)) else WalkDirectory(m, Frame(e), address)
  }

  function WalkDirectory(m: seq<nat>, table: nat, address: nat): Option<nat> {
    match Entry(m, table, address / 0x20_0000 % 512)
    case None => None
    case Some(e) => if IsLarge(e) then Some(Large(e, 0x20_0000, address)) else WalkTable(m, Frame(e), address)
  }

  function WalkTable(m: seq<nat>, table: nat, address: nat): Option<nat> {
    match Entry(m, table, address / 0x1000 % 512)
    case None => None
    case Some(e) => Some(Large(e, 0x1000, address))
  }

  // ---------- the tables createTable lays out ----------

  /** How many page directories `pages` pages take. */
  function Tables(pages: nat): nat
    requires pages > 0
  {
    (pages - 1) / PAGE_ENTRY_COUNT + 1
  }

  /** Size in words of the block: PML4, PDPT and the directories. */
  function BlockWords(pages: nat): nat
    requires pages > 0
  {
    (Tables(pages) + 2) * PAGE_ENTRY_COUNT
  }

  /** What the `n`th entry of the directories, laid end to end, holds. */
  function PageEntry(start: nat, pages: nat, n: nat): nat {
    if n < pages then start + n * 0x20_0000 + 0x83 else 0
  }

  /** What the `t`th entry of the PDPT holds. */
  function TableEntry(p: nat, tables: nat, t: nat): nat {
    if t < tables then 8 * (p + 1024 + 512 * t) + 3 else 0
  }

  ghost predicate Top(m: seq<nat>, p: nat, mainPdpt: nat) {
    && p + 512 <= |m|
    && m[p] == mainPdpt && m[p + 1] == 8 * (p + 512) + 3
    && forall j :: p + 2 <= j < p + 512 ==> m[j] == 0
  }

  ghost predicate Middle(m: seq<nat>, p: nat, tables: nat) {
    && p + 1024 <= |m|
    && forall j :: p + 512 <= j < p + 1024 ==> m[j] == TableEntry(p, tables, j - (p + 512))
  }

  ghost predicate Bottom(m: seq<nat>, p: nat, start: nat, pages: nat, n: nat) {
    && p + 1024 + n <= |m|
    && forall j :: p + 1024 <= j < p + 1024 + n ==> m[j] == PageEntry(start, pages, j - (p + 1024))
  }

  /** The tables at word `p`: PML4, then PDPT, then the directories. */
  ghost predicate Layout(m: seq<nat>, p: nat, mainPdpt: nat, start: nat, pages: nat)
    requires 0 < pages
  {
    Top(m, p, mainPdpt) && Middle(m, p, Tables(pages)) && Bottom(m, p, start, pages, 512 * Tables(pages))
  }

  /** `setMemory64`. */
  method SetMemory64(mem: array<nat>, destination: nat, value: nat, count: nat)
    requires destination + count <= mem.Length
    modifies mem
    ensures forall j :: 0 <= j < mem.Length ==>
              mem[j] == if destination <= j < destination + count then value else old(mem[j])
  {
    for i := 0 to count
      invariant forall j :: 0 <= j < mem.Length ==>
                  mem[j] == if destination <= j < destination + i then value else old(mem[j])
    {
      mem[destination + i] := value;
    }
  }

  /** One pass of the outer loop of `createTable`: directory `table` is cleared and filled, and the loop
      goes on with the next address and the pages left. */
  method FillDirectory(mem: array<nat>, pdt: nat, address: nat, pages: nat) returns (address': nat, pages': nat)
    requires address % 0x20_0000 == 0 && 0 < pages && pdt + 512 <= mem.Length
    modifies mem
    ensures forall j :: pdt <= j < pdt + 512 ==> mem[j] == PageEntry(address, pages, j - pdt)
    ensures forall j :: 0 <= j < mem.Length && !(pdt <= j < pdt + 512) ==> mem[j] == old(mem[j])
    ensures pages' == (if pages < 512 then 0 else pages - 512) && address' == address + (pages - pages') * 0x20_0000
    ensures address' % 0x20_0000 == 0
  {
    SetMemory64(mem, pdt, 0, PAGE_ENTRY_COUNT);
    ghost var was := mem[..];
    var count := if pages < PAGE_ENTRY_COUNT then pages else PAGE_ENTRY_COUNT;
    address', pages' := address, pages;
    for i := 0 to count
      invariant address' == address + i * 0x20_0000 && address' % 0x20_0000 == 0 && pages' == pages - i
      invariant forall j :: 0 <= j < mem.Length && !(pdt <= j < pdt + i) ==> mem[j] == was[j]
      invariant forall j :: pdt <= j < pdt + i ==> mem[j] == address + (j - pdt) * 0x20_0000 + 0x83
    {
      NextPage(address');
      OrAligned(address');
      mem[pdt + i] := Or(Or(address', PAGE_PRESENT), PAGE_SIZED);
      address' := address' + PAGE_SIZE;
      pages' := pages' - 1;
    }
  }

  lemma BottomGrows(m: seq<nat>, was: seq<nat>, p: nat, start: nat, pages: nat, table: nat)
    requires |m| == |was| && p + 1024 + 512 * (table + 1) <= |m| && 512 * table < pages
    requires Bottom(was, p, start, pages, 512 * table)
    requires var d := p + 1024 + 512 * table;
             forall j :: d <= j < d + 512 ==>
               m[j] == PageEntry(start + 512 * table * 0x20_0000, pages - 512 * table, j - d)
    requires forall j :: 0 <= j < p + 1024 + 512 * table ==> m[j] == was[j]
    ensures Bottom(m, p, start, pages, 512 * (table + 1))
  {
  }

  /** `createTable`, the block allocated: fills in the tables for `pages` large pages from `start`. */
  method CreateTable(mem: array<nat>, pml4t: nat, mainPdpt: nat, start: nat, pages: nat)
    requires start % 0x20_0000 == 0 && 0 < pages <= 0x4_0000
    requires pml4t % PAGE_ENTRY_SIZE == 0 && pml4t / 8 + BlockWords(pages) <= mem.Length
    modifies mem
    ensures Layout(mem[..], pml4t / 8, mainPdpt, start, pages)
    ensures forall j :: 0 <= j < mem.Length && !(pml4t / 8 <= j < pml4t / 8 + BlockWords(pages))
              ==> mem[j] == old(mem[j])
  {
    WordAligned(pml4t);
    FillTables(mem, pml4t / 8, mainPdpt, start, pages);
  }

  lemma WordAligned(address: nat)
    requires address % 0x1000 == 0
    ensures 8 * (address / 8) == address
  {
    var q := address / 0x1000;
    assert address == 8 * (512 * q);
    assert address / 8 == 512 * q;
  }

  /** The same from the block's first word on. */
  method FillTables(mem: array<nat>, p: nat, mainPdpt: nat, start: nat, pages: nat)
    requires start % 0x20_0000 == 0 && 0 < pages <= 0x4_0000
    requires 8 * p % 0x1000 == 0 && p + BlockWords(pages) <= mem.Length
    modifies mem
    ensures Layout(mem[..], p, mainPdpt, start, pages)
    ensures forall j :: 0 <= j < mem.Length && !(p <= j < p + BlockWords(pages)) ==> mem[j] == old(mem[j])
  {
    ClearTop(mem, p, mainPdpt);
    var pdpt := p + PAGE_ENTRY_COUNT;
    SetMemory64(mem, pdpt, 0, PAGE_ENTRY_COUNT);
    ghost var address, table := FillDirectories(mem, p, start, pages);
    PointerOr(p, pdpt);
    ghost var was := mem[..];
    mem[p + 1] := Or(8 * pdpt, PAGE_PRESENT);
    Completed(mem[..], was, p, mainPdpt, start, pages, address, table);
  }

  lemma PointerOr(p: nat, pdpt: nat)
    requires 8 * p % 0x1000 == 0 && pdpt == p + 512
    ensures Or(8 * pdpt, PAGE_PRESENT) == 8 * pdpt + 3
  {
    TableAligned(p, 1);
    OrAligned(8 * pdpt);
  }

  /** The PML4 with the kernel's entry alone. */
  method ClearTop(mem: array<nat>, p: nat, mainPdpt: nat)
    requires p + 512 <= mem.Length
    modifies mem
    ensures mem[p] == mainPdpt && forall j :: p + 1 <= j < p + 512 ==> mem[j] == 0
    ensures forall j :: 0 <= j < mem.Length && !(p <= j < p + 512) ==> mem[j] == old(mem[j])
  {
    SetMemory64(mem, p, 0, PAGE_ENTRY_COUNT);
    mem[p] := mainPdpt;
  }

  /** The loop of `createTable`: one directory after the other, from an empty PDPT on. */
  method FillDirectories(mem: array<nat>, p: nat, start: nat, pages: nat) returns (ghost address: nat, ghost table: nat)
    requires start % 0x20_0000 == 0 && 0 < pages <= 0x4_0000 && 8 * p % 0x1000 == 0
    requires p + BlockWords(pages) <= mem.Length && forall j :: p + 512 <= j < p + 1024 ==> mem[j] == 0
    modifies mem
    ensures Filling(mem[..], p, start, pages, address, 0, table)
    ensures forall j :: 0 <= j < mem.Length && !(p + 512 <= j < p + BlockWords(pages)) ==> mem[j] == old(mem[j])
  {
    var next, left, done := start, pages, 0;
    Started(mem[..], p, start, pages);
    while left != 0
      invariant Filling(mem[..], p, start, pages, next, left, done)
      invariant forall j :: 0 <= j < mem.Length && !(p + 512 <= j < p + BlockWords(pages)) ==> mem[j] == old(mem[j])
      decreases left
    {
      next, left := AddDirectory(mem, p, next, left, done, start, pages);
      done := done + 1;
    }
    address, table := next, done;
  }

  /** Cleared tables are filled up to none. */
  lemma Started(m: seq<nat>, p: nat, start: nat, pages: nat)
    requires start % 0x20_0000 == 0 && 0 < pages && p + 1024 <= |m|
    requires forall j :: p + 512 <= j < p + 1024 ==> m[j] == 0
    ensures Filling(m, p, start, pages, start, pages, 0)
  {
  }

  /** The last write makes the filled tables a layout. */
  lemma Completed(m: seq<nat>, was: seq<nat>, p: nat, mainPdpt: nat, start: nat, pages: nat, address: nat, table: nat)
    requires Filling(was, p, start, pages, address, 0, table) && p + 512 <= |was|
    requires was[p] == mainPdpt && forall j :: p + 1 <= j < p + 512 ==> was[j] == 0
    requires m == was[p + 1 := 8 * (p + 512) + 3]
    ensures Layout(m, p, mainPdpt, start, pages)
  {
    assert table == Tables(pages);
  }

  /** The outer loop's state: the first `table` directories are filled and entered in the PDPT. */
  ghost predicate Filling(m: seq<nat>, p: nat, start: nat, pages: nat, address: nat, left: nat, table: nat) {
    && pages > 0 && table <= Tables(pages)
    && left == (if 512 * table < pages then pages - 512 * table else 0)
    && (left != 0 ==> address == start + 512 * table * 0x20_0000)
    && address % 0x20_0000 == 0
    && Middle(m, p, table) && Bottom(m, p, start, pages, 512 * table)
  }

  method AddDirectory(mem: array<nat>, p: nat, address: nat, left: nat, table: nat, ghost start: nat, ghost pages: nat)
    returns (address': nat, left': nat)
    requires Filling(mem[..], p, start, pages, address, left, table) && left != 0
    requires 8 * p % 0x1000 == 0 && pages <= 0x4_0000 && p + BlockWords(pages) <= mem.Length
    modifies mem
    ensures Filling(mem[..], p, start, pages, address', left', table + 1) && left' < left
    ensures forall j :: 0 <= j < mem.Length && !(p + 512 <= j < p + BlockWords(pages)) ==> mem[j] == old(mem[j])
  {
    var pdpt := p + PAGE_ENTRY_COUNT;
    var pdt := pdpt + PAGE_ENTRY_COUNT + table * 512;
    ghost var was := mem[..];
    address', left' := FillDirectory(mem, pdt, address, left);
    BottomGrows(mem[..], was, p, start, pages, table);
    TableAligned(p, 2 + table);
    OrAligned(8 * pdt);
    mem[pdpt + table] := Or(8 * pdt, PAGE_PRESENT);
  }

  lemma TableAligned(p: nat, k: nat)
    requires 8 * p % 0x1000 == 0
    ensures 8 * (p + 512 * k) % 0x1000 == 0
  {
    var q := 8 * p / 0x1000;
    assert 8 * p == 0x1000 * q;
    assert 8 * (p + 512 * k) == 0x1000 * (q + k);
  }

  // ---------- what the hardware makes of them ----------

  /** A pointer entry: present, not a large page, and its frame is the table. */
  lemma PointerEntry(table: nat)
    requires table % 0x1000 == 0 && table + 3 < PHYSICAL
    ensures (table + 3) % 2 == 1 && !IsLarge(table + 3) && Frame(table + 3) == table
    ensures Masked(table + 3) == table && table / 8 * 8 == table
  {
    var q := table / 0x1000;
    assert table == 0x1000 * q;
    Quotient80(2 * (16 * q));
    assert table + 3 == 0x80 * (2 * (16 * q)) + 3 == 2 * (0x800 * q + 1) + 1;
    OddBit(0x800 * q + 1);
    EvenBit(16 * q);
    EightfoldWord(0x200 * q);
    MaskedSmall(q);
    assert (table + 3) % PHYSICAL == table + 3;
  }

  lemma EvenBit(h: nat)
    ensures (2 * h) % 2 == 0
  {
  }

  lemma EightfoldWord(h: nat)
    ensures 8 * h / 8 * 8 == 8 * h
  {
  }

  lemma MaskedSmall(q: nat)
    ensures Masked(0x1000 * q + 3) == 0x1000 * q
  {
  }

  lemma LargeFlags(page: nat)
    requires page % 0x20_0000 == 0
    ensures (page + 0x83) % 2 == 1 && IsLarge(page + 0x83)
  {
    var q := page / 0x20_0000;
    assert page == 0x20_0000 * q;
    LargeBit(0x2000 * q);
  }

  lemma LargeBit(r: nat)
    ensures (0x100 * r + 0x83) % 2 == 1 && (0x100 * r + 0x83) / 0x80 % 2 == 1
  {
    Quotient80(2 * r + 1);
    OddBit(r);
    assert 0x100 * r + 0x83 == 2 * (0x80 * r + 0x41) + 1;
    OddBit(0x80 * r + 0x41);
  }

  lemma Quotient80(h: nat)
    ensures (0x80 * h + 3) / 0x80 == h
  {
  }

  lemma OddBit(h: nat)
    ensures (2 * h + 1) % 2 == 1
  {
  }

  lemma LargeOffsets(page: nat)
    requires page % 0x20_0000 == 0
    ensures (page + 0x83) % 0x20_0000 == 0x83 && Masked(page + 0x83) == page
  {
    var q := page / 0x20_0000;
    assert page == 0x20_0000 * q;
    assert page + 0x83 == 0x1000 * (512 * q) + 0x83;
  }

  /** A large-page entry maps its 2 MB onto the page. */
  lemma LargeEntry(page: nat, address: nat)
    requires page % 0x20_0000 == 0 && page + 0x83 < PHYSICAL
    ensures Large(page + 0x83, 0x20_0000, address) == page + address % 0x20_0000
  {
    LargeOffsets(page);
    assert (page + 0x83) % PHYSICAL == page + 0x83;
  }

  /** Where an address of the process half lands in the three upper tables: `n` is its large page. */
  lemma Indices(address: nat, k: nat, n: nat)
    requires address == PROCESS_ADDRESS + k && k < 0x80_0000_0000 && n == k / 0x20_0000
    ensures address / 0x80_0000_0000 % 512 == 1
    ensures address / 0x4000_0000 % 512 == n / 512 < 512
    ensures address / 0x20_0000 % 512 == n % 512
    ensures address % 0x20_0000 == k % 0x20_0000 == k - n * 0x20_0000
  {
    assert address / 0x20_0000 == 0x4_0000 + n;
    assert address / 0x4000_0000 == 512 + n / 512;
    assert (0x4_0000 + n) % 512 == n % 512;
  }

  lemma HighIndex(address: nat)
    requires 2 * PROCESS_ADDRESS <= address < 0x1_0000_0000_0000
    ensures 2 <= address / 0x80_0000_0000 % 512 < 512
  {
  }

  /** The walk of an address of the process half goes on at the PDPT; the slots above are empty. */
  lemma WalkTop(m: seq<nat>, cr3: nat, mainPdpt: nat, address: nat)
    requires cr3 % 0x1000 == 0 && cr3 + 0x1003 < PHYSICAL && Top(m, cr3 / 8, mainPdpt)
    ensures address / 0x80_0000_0000 % 512 == 1 ==> Walk(m, cr3, address) == WalkPdpt(m, cr3 + 0x1000, address)
    ensures address / 0x80_0000_0000 % 512 > 1 ==> Walk(m, cr3, address) == None
  {
    var q := cr3 / 0x1000;
    assert cr3 == 0x1000 * q && cr3 / 8 == 512 * q;
    assert Frame(cr3) == cr3;
    PointerEntry(cr3 + 0x1000);
  }

  lemma WalkMiddle(m: seq<nat>, cr3: nat, tables: nat, t: nat, address: nat)
    requires cr3 % 0x1000 == 0 && Middle(m, cr3 / 8, tables) && t < 512
    requires cr3 + 0x2000 + 0x1000 * t + 3 < PHYSICAL && address / 0x4000_0000 % 512 == t
    ensures WalkPdpt(m, cr3 + 0x1000, address)
            == if t < tables then WalkDirectory(m, cr3 + 0x2000 + 0x1000 * t, address) else None
  {
    var q := cr3 / 0x1000;
    assert cr3 == 0x1000 * q && cr3 / 8 == 512 * q && (cr3 + 0x1000) / 8 == 512 * q + 512;
    var d := cr3 + 0x2000 + 0x1000 * t;
    assert d == 0x1000 * (q + 2 + t);
    PointerEntry(d);
    assert m[512 * q + 512 + t] == TableEntry(512 * q, tables, t);
  }

  lemma WalkBottom(m: seq<nat>, cr3: nat, start: nat, pages: nat, n: nat, address: nat)
    requires cr3 % 0x1000 == 0 && start % 0x20_0000 == 0 && pages > 0 && n < 512 * Tables(pages)
    requires Bottom(m, cr3 / 8, start, pages, 512 * Tables(pages))
    requires start + pages * 0x20_0000 <= PHYSICAL && address / 0x20_0000 % 512 == n % 512
    ensures WalkDirectory(m, cr3 + 0x2000 + 0x1000 * (n / 512), address)
            == if n < pages then Some(start + n * 0x20_0000 + address % 0x20_0000) else None
  {
    var q, t := cr3 / 0x1000, n / 512;
    assert cr3 == 0x1000 * q && cr3 / 8 == 512 * q;
    assert (cr3 + 0x2000 + 0x1000 * t) / 8 + n % 512 == 512 * q + 1024 + n;
    assert m[512 * q + 1024 + n] == PageEntry(start, pages, n);
    if n < pages {
      PageAligned(start, n);
      LargeEntry(start + n * 0x20_0000, address);
      LargeFlags(start + n * 0x20_0000);
    }
  }

  lemma PageAligned(start: nat, n: nat)
    requires start % 0x20_0000 == 0
    ensures (start + n * 0x20_0000) % 0x20_0000 == 0
  {
    var s := start / 0x20_0000;
    assert start + n * 0x20_0000 == 0x20_0000 * (s + n);
  }

  /** Everything fits the physical address space, and the pages one PML4 slot. */
  ghost predicate Addressable(cr3: nat, start: nat, pages: nat) {
    && 0 < pages <= 0x4_0000
    && cr3 % 0x1000 == 0 && start % 0x20_0000 == 0
    && cr3 + 0x20_3000 < PHYSICAL && start + pages * 0x20_0000 <= PHYSICAL
  }

  /** The process sees its image at PROCESS_ADDRESS, page after page. */
  lemma Mapped(m: seq<nat>, cr3: nat, mainPdpt: nat, start: nat, pages: nat, k: nat)
    requires Addressable(cr3, start, pages) && Layout(m, cr3 / 8, mainPdpt, start, pages)
    requires k < pages * 0x20_0000
    ensures Walk(m, cr3, PROCESS_ADDRESS + k) == Some(start + k)
  {
    var address, n := PROCESS_ADDRESS + k, k / 0x20_0000;
    Indices(address, k, n);
    WalkTop(m, cr3, mainPdpt, address);
    WalkMiddle(m, cr3, Tables(pages), n / 512, address);
    WalkBottom(m, cr3, start, pages, n, address);
  }

  /** And nothing else above the kernel's own slot, the first one. */
  lemma Unmapped(m: seq<nat>, cr3: nat, mainPdpt: nat, start: nat, pages: nat, address: nat)
    requires Addressable(cr3, start, pages) && Layout(m, cr3 / 8, mainPdpt, start, pages)
    requires PROCESS_ADDRESS + pages * 0x20_0000 <= address < 0x1_0000_0000_0000
    ensures Walk(m, cr3, address) == None
  {
    WalkTop(m, cr3, mainPdpt, address);
    if address >= 2 * PROCESS_ADDRESS {
      HighIndex(address);
    } else {
      var k := address - PROCESS_ADDRESS;
      var n := k / 0x20_0000;
      Indices(address, k, n);
      WalkMiddle(m, cr3, Tables(pages), n / 512, address);
      if n / 512 < Tables(pages) {
        WalkBottom(m, cr3, start, pages, n, address);
      }
    }
  }

  /** Below PROCESS_ADDRESS every process sees what the kernel's first PML4 slot maps. */
  lemma KernelShared(m: seq<nat>, cr3: nat, other: nat, mainPdpt: nat, address: nat)
    requires cr3 % 0x1000 == 0 && cr3 + 0x1003 < PHYSICAL && Top(m, cr3 / 8, mainPdpt)
    requires other % 0x1000 == 0 && other + 0x1003 < PHYSICAL && Top(m, other / 8, mainPdpt)
    requires address < 0x80_0000_0000
    ensures Walk(m, cr3, address) == Walk(m, other, address)
  {
    FirstSlot(m, cr3, mainPdpt, address);
    FirstSlot(m, other, mainPdpt, address);
  }

  lemma FirstSlot(m: seq<nat>, cr3: nat, mainPdpt: nat, address: nat)
    requires cr3 % 0x1000 == 0 && cr3 + 0x1003 < PHYSICAL && Top(m, cr3 / 8, mainPdpt) && address < 0x80_0000_0000
    ensures Walk(m, cr3, address) == if mainPdpt % 2 == 1 then WalkPdpt(m, Frame(mainPdpt), address) else None
  {
    var q := cr3 / 0x1000;
    assert cr3 == 0x1000 * q && Frame(cr3) == cr3;
    assert address / 0x80_0000_0000 % 512 == 0;
  }

  /** Every entry of the tables is empty, or present and writable. */
  lemma EntriesWritable(m: seq<nat>, p: nat, mainPdpt: nat, start: nat, pages: nat, j: nat)
    requires pages > 0 && start % 0x20_0000 == 0 && Layout(m, p, mainPdpt, start, pages)
    requires p % 512 == 0 && p < j < p + BlockWords(pages)
    ensures m[j] == 0 || m[j] % 4 == 3
  {
    if j < p + 512 {
      PointerBits(p + 512);
    } else if j < p + 1024 {
      PointerBits(p + 1024 + 512 * (j - (p + 512)));
    } else {
      PageBits(start, j - (p + 1024));
    }
  }

  lemma PointerBits(word: nat)
    ensures (8 * word + 3) % 4 == 3
  {
    QuadBits(2 * word);
  }

  lemma PageBits(start: nat, n: nat)
    requires start % 0x20_0000 == 0
    ensures (start + n * 0x20_0000 + 0x83) % 4 == 3
  {
    var q := start / 0x20_0000;
    assert start == 0x20_0000 * q;
    QuadBits(0x8_0000 * (q + n) + 0x20);
  }

  lemma QuadBits(r: nat)
    ensures (4 * r + 3) % 4 == 3
  {
  }

  // ---------- the kernel's own translation ----------

  function Load(m: seq<nat>, address: nat): nat {
    if address / 8 < |m| then m[address / 8] else 0
  }

  /** `getAddress`: reads only the second PML4 entry and the first entry of each lower table. */
  function GetAddress(m: seq<nat>, cr3: nat, address: nat): (physical: int)
    ensures address < 0x80_0000_0000 ==> physical == address
  {
    if address >= PROCESS_ADDRESS then
      Masked(Load(m, Masked(Load(m, Masked(Load(m, cr3 + 8)))))) + address - PROCESS_ADDRESS
    else address
  }

  lemma GetAddressIs(m: seq<nat>, cr3: nat, mainPdpt: nat, start: nat, pages: nat, address: nat)
    requires Addressable(cr3, start, pages) && Layout(m, cr3 / 8, mainPdpt, start, pages)
    requires PROCESS_ADDRESS <= address
    ensures GetAddress(m, cr3, address) == start + (address - PROCESS_ADDRESS)
  {
    var q := cr3 / 0x1000;
    assert cr3 == 0x1000 * q && cr3 / 8 == 512 * q && (cr3 + 8) / 8 == 512 * q + 1;
    PointerEntry(cr3 + 0x1000);
    PointerEntry(cr3 + 0x2000);
    LargeOffsets(start);
    assert (cr3 + 0x1000) / 8 == 512 * q + 512 && (cr3 + 0x2000) / 8 == 512 * q + 1024;
    assert m[512 * q + 512] == TableEntry(512 * q, Tables(pages), 0);
    assert m[512 * q + 1024] == PageEntry(start, pages, 0);
  }

  /** Above the kernel's slot the shortcut agrees with the full walk exactly on the mapped addresses. */
  lemma GetAddressAgrees(m: seq<nat>, cr3: nat, mainPdpt: nat, start: nat, pages: nat, address: nat)
    requires Addressable(cr3, start, pages) && Layout(m, cr3 / 8, mainPdpt, start, pages)
    requires PROCESS_ADDRESS <= address < 0x1_0000_0000_0000
    ensures var physical := GetAddress(m, cr3, address);
            && physical == start + (address - PROCESS_ADDRESS)
            && (Walk(m, cr3, address) == Some(physical) <==> address < PROCESS_ADDRESS + pages * 0x20_0000)
  {
    GetAddressIs(m, cr3, mainPdpt, start, pages, address);
    if address < PROCESS_ADDRESS + pages * 0x20_0000 {
      Mapped(m, cr3, mainPdpt, start, pages, address - PROCESS_ADDRESS);
    } else {
      Unmapped(m, cr3, mainPdpt, start, pages, address);
    }
  }
}
