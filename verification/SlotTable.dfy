/** The allocator's record table as a value: the slots ever written, in slot order (slot 0 is the one
    `allocated` points to, each further slot lies one record lower), and the searches over them. */
module SlotTable {
  import opened Words

  const MEMORY_START: nat := 0x1000000

  datatype Slot = Slot(present: bool, start: nat, end: nat)

  /** What a caller asks for: `allocate(amount)` or `allocateAligned(amount, alignment)`. */
  datatype Request = Plain(amount: nat) | Aligned(amount: nat, alignment: nat) {

    predicate Valid() {
      Aligned? ==> alignment > 0
    }

    /** The candidate tried after a conflict with a record ending at `end`. */
    function After(end: nat): (r: nat)
      requires Valid()
      ensures r >= end
    {
      match this
      case Plain(_) => end
      case Aligned(_, a) => end + (a - end % a)
    }

    function First(): nat
      requires Valid()
    {
      After(MEMORY_START)
    }
  }

  /** The two half-open ranges share no address, as the allocator tests it. */
  predicate Apart(start1: nat, end1: nat, start2: nat, end2: nat) {
    end1 <= start2 || start1 >= end2
  }

  predicate Clash(s: Slot, value: nat, amount: nat) {
    s.present && !Apart(value, value + amount, s.start, s.end)
  }

  ghost predicate Feasible(slots: seq<Slot>, value: nat, amount: nat) {
    forall i :: 0 <= i < |slots| ==> !Clash(slots[i], value, amount)
  }

  /** The bytes from `start` on are recorded as one block of that size. */
  ghost predicate Recorded(slots: seq<Slot>, start: nat, size: nat) {
    exists i :: 0 <= i < |slots| && slots[i] == Slot(true, start, start + size)
  }

  /** The bytes from `value` on conflict with no live record where each ends before they start or starts after
      they end. */
  lemma FeasibleIs(slots: seq<Slot>, value: nat, amount: nat)
    ensures Feasible(slots, value, amount)
       <==> forall i :: 0 <= i < |slots| && slots[i].present
                        ==> slots[i].end <= value || value + amount <= slots[i].start
  {
    if !Feasible(slots, value, amount) {
      var i :| 0 <= i < |slots| && Clash(slots[i], value, amount);
    } else {
      forall i | 0 <= i < |slots| && slots[i].present
        ensures slots[i].end <= value || value + amount <= slots[i].start
      {
        assert !Clash(slots[i], value, amount);
      }
    }
  }

  // ---------- counting and measuring the live records ----------

  function Live(slots: seq<Slot>): (n: nat)
    ensures n <= |slots|
  {
    if slots == [] then 0
    else Live(slots[..|slots| - 1]) + (if slots[|slots| - 1].present then 1 else 0)
  }

  function Size(slots: seq<Slot>): int {
    if slots == [] then 0
    else Size(slots[..|slots| - 1]) + Length(slots[|slots| - 1])
  }

  function Length(s: Slot): int {
    if s.present then s.end - s.start else 0
  }

  /** Live records as a multiset of ranges: the table without its slot order. */
  function Records(slots: seq<Slot>): multiset<(nat, nat)> {
    if slots == [] then multiset{}
    else Records(slots[..|slots| - 1]) + Record(slots[|slots| - 1])
  }

  function Record(s: Slot): multiset<(nat, nat)> {
    if s.present then multiset{(s.start, s.end)} else multiset{}
  }

  lemma LiveStep(slots: seq<Slot>, i: nat)
    requires i < |slots|
    ensures Live(slots[..i + 1]) == Live(slots[..i]) + (if slots[i].present then 1 else 0)
    ensures Size(slots[..i + 1]) == Size(slots[..i]) + Length(slots[i])
    ensures Records(slots[..i + 1]) == Records(slots[..i]) + Record(slots[i])
  {
    assert slots[..i + 1][..i] == slots[..i];
  }

  /** A prefix holding as many live records as the whole table leaves none behind it, and conversely. */
  lemma {:induction false} LivePrefix(slots: seq<Slot>, i: nat)
    requires i <= |slots|
    ensures Live(slots[..i]) <= Live(slots)
    ensures Live(slots[..i]) == Live(slots) <==> forall j :: i <= j < |slots| ==> !slots[j].present
    ensures Live(slots[..i]) == Live(slots) ==> Size(slots[..i]) == Size(slots)
    decreases |slots|
  {
    if i == |slots| {
      assert slots[..i] == slots;
    } else {
      var front := slots[..|slots| - 1];
      LivePrefix(front, i);
      assert front[..i] == slots[..i];
    }
  }

  lemma {:induction false} LiveFull(slots: seq<Slot>)
    ensures Live(slots) == |slots| <==> forall j :: 0 <= j < |slots| ==> slots[j].present
  {
    if slots != [] {
      LiveFull(slots[..|slots| - 1]);
    }
  }

  /** Writing one slot changes each of the three sums by that slot alone. */
  lemma {:induction false} Updated(slots: seq<Slot>, i: nat, s: Slot)
    requires i < |slots|
    ensures Live(slots[i := s]) == Live(slots) - (if slots[i].present then 1 else 0) + (if s.present then 1 else 0)
    ensures Size(slots[i := s]) == Size(slots) - Length(slots[i]) + Length(s)
    decreases |slots|
  {
    var n := |slots| - 1;
    if i < n {
      Updated(slots[..n], i, s);
      assert slots[i := s][..n] == slots[..n][i := s];
    } else {
      assert slots[i := s][..n] == slots[..n];
    }
  }

  lemma {:induction false} UpdatedRecords(slots: seq<Slot>, i: nat, s: Slot)
    requires i < |slots|
    ensures Records(slots[i := s]) + Record(slots[i]) == Records(slots) + Record(s)
    decreases |slots|
  {
    var n := |slots| - 1;
    var after := slots[i := s];
    var l, o, w := Record(slots[n]), Record(slots[i]), Record(s);
    var a, b := Records(after[..n]), Records(slots[..n]);
    assert Records(slots) == b + l;
    assert Records(after) == a + Record(after[n]);
    if i < n {
      UpdatedRecords(slots[..n], i, s);
      assert after[..n] == slots[..n][i := s];
      assert a + o == b + w;
      Reorder(a, b, l, o, w);
    } else {
      assert after[..n] == slots[..n];
      assert (b + w) + l == (b + l) + w;
    }
  }

  lemma Reorder<T>(a: multiset<T>, b: multiset<T>, l: multiset<T>, o: multiset<T>, n: multiset<T>)
    requires a + o == b + n
    ensures (a + l) + o == (b + l) + n
  {
    calc {
      (a + l) + o;
      (a + o) + l;
      (b + n) + l;
      (b + l) + n;
    }
  }

  lemma Appended(slots: seq<Slot>, s: Slot)
    ensures Live(slots + [s]) == Live(slots) + (if s.present then 1 else 0)
    ensures Size(slots + [s]) == Size(slots) + Length(s)
    ensures Records(slots + [s]) == Records(slots) + Record(s)
  {
    assert (slots + [s])[..|slots|] == slots;
  }

  lemma {:induction false} RecordsMember(slots: seq<Slot>, r: (nat, nat))
    ensures r in Records(slots) <==> exists i :: 0 <= i < |slots| && slots[i] == Slot(true, r.0, r.1)
  {
    if slots != [] {
      var n := |slots| - 1;
      RecordsMember(slots[..n], r);
      if r in Records(slots[..n]) {
        var i :| 0 <= i < n && slots[..n][i] == Slot(true, r.0, r.1);
        assert slots[i] == Slot(true, r.0, r.1);
      } else if slots[n] == Slot(true, r.0, r.1) {
      } else {
        assert forall i :: 0 <= i < n ==> slots[i] == slots[..n][i];
      }
    }
  }

  // ---------- the first-fit search ----------

  function FirstClash(slots: seq<Slot>, value: nat, amount: nat): (i: nat)
    ensures i <= |slots|
    ensures forall j :: 0 <= j < i ==> !Clash(slots[j], value, amount)
    ensures i < |slots| ==> Clash(slots[i], value, amount)
  {
    if slots == [] then 0
    else
      var i := FirstClash(slots[..|slots| - 1], value, amount);
      if i < |slots| - 1 || Clash(slots[|slots| - 1], value, amount) then i else |slots|
  }

  /** Live records ending above the candidate: what every restart makes strictly smaller. */
  ghost function Above(slots: seq<Slot>, value: nat): set<nat> {
    set i: nat | i < |slots| && slots[i].present && slots[i].end > value
  }

  lemma AboveShrinks(slots: seq<Slot>, value: nat, q: Request, i: nat)
    requires q.Valid() && i < |slots| && Clash(slots[i], value, q.amount)
    ensures Above(slots, q.After(slots[i].end)) < Above(slots, value)
  {
    assert i in Above(slots, value) && i !in Above(slots, q.After(slots[i].end));
  }

  /** The candidate the restarting scan settles on, starting from `value`. */
  function Search(slots: seq<Slot>, q: Request, value: nat): (r: nat)
    requires q.Valid()
    ensures r >= value && Feasible(slots, r, q.amount)
    ensures r == value || exists i :: 0 <= i < |slots| && slots[i].present && r == q.After(slots[i].end)
    decreases Above(slots, value)
  {
    var i := FirstClash(slots, value, q.amount);
    if i == |slots| then value
    else
      AboveShrinks(slots, value, q, i);
      Search(slots, q, q.After(slots[i].end))
  }

  lemma SearchRestarts(slots: seq<Slot>, q: Request, value: nat, i: nat)
    requires q.Valid() && i < |slots| && Clash(slots[i], value, q.amount)
    requires forall j :: 0 <= j < i ==> !Clash(slots[j], value, q.amount)
    ensures Search(slots, q, value) == Search(slots, q, q.After(slots[i].end))
    ensures Above(slots, q.After(slots[i].end)) < Above(slots, value)
  {
    AboveShrinks(slots, value, q, i);
    assert FirstClash(slots, value, q.amount) == i;
  }

  /** No address the scan computes leaves 64 bits: neither from the first candidate nor from the
      candidate after any live record. */
  ghost predicate Fits(slots: seq<Slot>, q: Request) {
    && q.Valid()
    && q.First() + q.amount < WORD
    && forall i :: 0 <= i < |slots| && slots[i].present ==> q.After(slots[i].end) + q.amount < WORD
  }

  /** The state of the scan: `count` live records among the first `i` slots, none of them in conflict
      with the candidate, and the candidate on the way to the answer. */
  ghost predicate Scanned(slots: seq<Slot>, q: Request, value: nat, i: nat, count: nat) {
    && Fits(slots, q) && value + q.amount < WORD
    && i <= |slots| && count == Live(slots[..i])
    && (forall j :: 0 <= j < i ==> !Clash(slots[j], value, q.amount))
    && Search(slots, q, value) == Search(slots, q, q.First())
  }

  /** Fewer live records seen than there are: slot `i` is a written one, and passing it counts it. */
  lemma LiveNext(slots: seq<Slot>, i: nat, count: nat)
    requires i <= |slots| && count == Live(slots[..i]) && count != Live(slots)
    ensures i < |slots|
    ensures Live(slots[..i + 1]) == count + (if slots[i].present then 1 else 0)
    ensures Size(slots[..i + 1]) == Size(slots[..i]) + Length(slots[i])
  {
    assert slots[..|slots|] == slots;
    LiveStep(slots, i);
  }

  lemma ScanNext(slots: seq<Slot>, q: Request, value: nat, i: nat, count: nat)
    requires Scanned(slots, q, value, i, count) && count != Live(slots)
    ensures i < |slots|
    ensures !slots[i].present ==> Scanned(slots, q, value, i + 1, count)
    ensures slots[i].present && !Clash(slots[i], value, q.amount) ==> Scanned(slots, q, value, i + 1, count + 1)
    ensures var next := q.After(slots[i].end);
            Clash(slots[i], value, q.amount) ==>
              && Scanned(slots, q, next, 0, 0)
              && Above(slots, next) < Above(slots, value)
  {
    LiveNext(slots, i, count);
    if Clash(slots[i], value, q.amount) {
      SearchRestarts(slots, q, value, i);
    }
  }

  lemma ScanDone(slots: seq<Slot>, q: Request, value: nat, i: nat, count: nat)
    requires Scanned(slots, q, value, i, count) && count == Live(slots)
    ensures value == Search(slots, q, q.First())
  {
    LivePrefix(slots, i);
    assert FirstClash(slots, value, q.amount) == |slots|;
  }

  /** Every address an unaligned search passes over conflicts with a live record. */
  lemma {:induction false} SearchPasses(slots: seq<Slot>, amount: nat, value: nat, u: nat)
    requires value <= u < Search(slots, Plain(amount), value)
    ensures !Feasible(slots, u, amount)
    decreases Above(slots, value)
  {
    var i := FirstClash(slots, value, amount);
    AboveShrinks(slots, value, Plain(amount), i);
    if u < slots[i].end {
      assert Clash(slots[i], u, amount);
    } else {
      SearchPasses(slots, amount, slots[i].end, u);
    }
  }

  /** First fit is least fit: `allocate` returns the least address at or above MEMORY_START whose
      `amount` bytes conflict with no live record. */
  lemma AllocateIsLeast(slots: seq<Slot>, amount: nat)
    ensures var v := Search(slots, Plain(amount), MEMORY_START);
            && v >= MEMORY_START && Feasible(slots, v, amount)
            && forall u :: MEMORY_START <= u < v ==> !Feasible(slots, u, amount)
  {
    var v := Search(slots, Plain(amount), MEMORY_START);
    forall u | MEMORY_START <= u < v ensures !Feasible(slots, u, amount) {
      SearchPasses(slots, amount, MEMORY_START, u);
    }
  }

  /** The answer of `allocate` is a function of which records are live, not of the slots they occupy. */
  lemma AllocateIgnoresSlotOrder(slots: seq<Slot>, other: seq<Slot>, amount: nat)
    requires Records(slots) == Records(other)
    ensures Search(slots, Plain(amount), MEMORY_START) == Search(other, Plain(amount), MEMORY_START)
  {
    AllocateIsLeast(slots, amount);
    AllocateIsLeast(other, amount);
    SameFeasible(slots, other, Search(slots, Plain(amount), MEMORY_START), amount);
    SameFeasible(other, slots, Search(other, Plain(amount), MEMORY_START), amount);
  }

  lemma SameFeasible(slots: seq<Slot>, other: seq<Slot>, value: nat, amount: nat)
    requires Records(slots) == Records(other) && Feasible(slots, value, amount)
    ensures Feasible(other, value, amount)
  {
    forall i | 0 <= i < |other| ensures !Clash(other[i], value, amount) {
      if other[i].present {
        var r := (other[i].start, other[i].end);
        RecordsMember(other, r);
        RecordsMember(slots, r);
        var j :| 0 <= j < |slots| && slots[j] == Slot(true, r.0, r.1);
      }
    }
  }

  ghost predicate IsLiveEnd(slots: seq<Slot>, u: nat) {
    exists i :: 0 <= i < |slots| && slots[i].present && slots[i].end == u
  }

  lemma {:induction false} AlignedSearchPasses(slots: seq<Slot>, q: Request, value: nat, u: nat)
    requires q.Aligned? && q.Valid() && value % q.alignment == 0 && u % q.alignment == 0
    requires value <= u < Search(slots, q, value)
    ensures !Feasible(slots, u, q.amount) || IsLiveEnd(slots, u)
    decreases Above(slots, value)
  {
    var i := FirstClash(slots, value, q.amount);
    AboveShrinks(slots, value, q, i);
    var next := q.After(slots[i].end);
    AfterIsNextMultiple(q, slots[i].end);
    if u < slots[i].end {
      assert Clash(slots[i], u, q.amount);
    } else if u >= next {
      AlignedSearchPasses(slots, q, next, u);
    }
  }

  /** `After` of an aligned request is the least multiple strictly above its argument. */
  lemma AfterIsNextMultiple(q: Request, end: nat)
    requires q.Aligned? && q.Valid()
    ensures q.After(end) % q.alignment == 0 && q.After(end) > end
    ensures forall u: nat :: u % q.alignment == 0 && end < u ==> q.After(end) <= u
  {
    var a := q.alignment;
    var k := end / a;
    assert end == a * k + end % a;
    var n := q.After(end);
    assert n == a * (k + 1) by { assert a * (k + 1) == a * k + a; }
    MultipleMod(a, k + 1);
    forall u: nat | u % a == 0 && end < u ensures n <= u {
      var m := u / a;
      assert u == a * m;
      if m <= k { MulMono(a, m, k); }
      MulMono(a, k + 1, m);
    }
  }

  /** `allocateAligned` returns a multiple of the alignment strictly above MEMORY_START that conflicts
      with no live record; each smaller multiple above MEMORY_START conflicts or is a live record's end. */
  lemma AllocateAlignedFits(slots: seq<Slot>, amount: nat, alignment: nat)
    requires alignment > 0
    ensures var q := Aligned(amount, alignment);
            var v := Search(slots, q, q.First());
            && v > MEMORY_START && v % alignment == 0 && Feasible(slots, v, amount)
            && forall u :: MEMORY_START < u < v && u % alignment == 0
                           ==> !Feasible(slots, u, amount) || IsLiveEnd(slots, u)
  {
    var q := Aligned(amount, alignment);
    var v := Search(slots, q, q.First());
    AfterIsNextMultiple(q, MEMORY_START);
    if v != q.First() {
      var i :| 0 <= i < |slots| && slots[i].present && v == q.After(slots[i].end);
      AfterIsNextMultiple(q, slots[i].end);
    }
    forall u | MEMORY_START < u < v && u % alignment == 0
      ensures !Feasible(slots, u, amount) || IsLiveEnd(slots, u)
    {
      AlignedSearchPasses(slots, q, q.First(), u);
    }
  }

  /** On its way from `value` the scan restarts at a record that ends on a free multiple: it goes on with the
      multiple after that one. */
  ghost predicate StepsOver(slots: seq<Slot>, q: Request, value: nat)
    requires q.Aligned? && q.Valid()
    decreases Above(slots, value)
  {
    var i := FirstClash(slots, value, q.amount);
    i < |slots| &&
    (AboveShrinks(slots, value, q, i);
     FreeMultiple(slots, q, slots[i].end) || StepsOver(slots, q, q.After(slots[i].end)))
  }

  ghost predicate FreeMultiple(slots: seq<Slot>, q: Request, u: nat)
    requires q.Aligned? && q.Valid()
  {
    u % q.alignment == 0 && Feasible(slots, u, q.amount)
  }

  /** A scan that steps over a free multiple has passed one by. */
  lemma {:induction false} SteppedOver(slots: seq<Slot>, q: Request, value: nat) returns (u: nat)
    requires q.Aligned? && q.Valid() && StepsOver(slots, q, value)
    ensures value < u < Search(slots, q, value) && FreeMultiple(slots, q, u)
    decreases Above(slots, value)
  {
    var i := FirstClash(slots, value, q.amount);
    var next := q.After(slots[i].end);
    AboveShrinks(slots, value, q, i);
    AfterIsNextMultiple(q, slots[i].end);
    if FreeMultiple(slots, q, slots[i].end) {
      u := slots[i].end;
    } else {
      u := SteppedOver(slots, q, next);
    }
  }

  /** And only then: a free multiple passed by is the end of the record the scan restarted at. */
  lemma {:induction false} PassedByStep(slots: seq<Slot>, q: Request, value: nat, u: nat)
    requires q.Aligned? && q.Valid() && value % q.alignment == 0
    requires value <= u < Search(slots, q, value) && FreeMultiple(slots, q, u)
    ensures StepsOver(slots, q, value)
    decreases Above(slots, value)
  {
    var i := FirstClash(slots, value, q.amount);
    var next := q.After(slots[i].end);
    AboveShrinks(slots, value, q, i);
    AfterIsNextMultiple(q, slots[i].end);
    assert !Clash(slots[i], u, q.amount);
    if u >= next {
      PassedByStep(slots, q, next, u);
    }
  }

  /** The aligned answer is the least free multiple above MEMORY_START exactly when the scan never restarts
      at a record whose end is itself a free multiple. */
  lemma AlignedLeastExactlyWhen(slots: seq<Slot>, amount: nat, alignment: nat)
    requires alignment > 0
    ensures var q := Aligned(amount, alignment);
            (forall u :: MEMORY_START < u < Search(slots, q, q.First()) ==> !FreeMultiple(slots, q, u))
            <==> !StepsOver(slots, q, q.First())
  {
    var q := Aligned(amount, alignment);
    AfterIsNextMultiple(q, MEMORY_START);
    if StepsOver(slots, q, q.First()) {
      var u := SteppedOver(slots, q, q.First());
    } else {
      forall u | MEMORY_START < u < Search(slots, q, q.First()) ensures !FreeMultiple(slots, q, u) {
        if FreeMultiple(slots, q, u) {
          PassedByStep(slots, q, q.First(), u);
        }
      }
    }
  }

  /** No live record ends on a free multiple above MEMORY_START. */
  ghost predicate NoFreeEnds(slots: seq<Slot>, q: Request)
    requires q.Aligned? && q.Valid()
  {
    forall i :: 0 <= i < |slots| && slots[i].present && slots[i].end > MEMORY_START
                ==> !FreeMultiple(slots, q, slots[i].end)
  }

  lemma {:induction false} NothingSteppedOver(slots: seq<Slot>, q: Request, value: nat)
    requires q.Aligned? && q.Valid() && value > MEMORY_START && NoFreeEnds(slots, q)
    ensures !StepsOver(slots, q, value)
    decreases Above(slots, value)
  {
    var i := FirstClash(slots, value, q.amount);
    if i < |slots| {
      AboveShrinks(slots, value, q, i);
      NothingSteppedOver(slots, q, q.After(slots[i].end));
    }
  }

  /** What a caller can check beforehand: if no live record ends on a free multiple the answer is the least
      free multiple, whatever slots the records occupy. */
  lemma AlignedLeastInEveryOrder(slots: seq<Slot>, other: seq<Slot>, amount: nat, alignment: nat)
    requires alignment > 0 && NoFreeEnds(slots, Aligned(amount, alignment)) && Records(slots) == Records(other)
    ensures var q := Aligned(amount, alignment);
            && Search(other, q, q.First()) == Search(slots, q, q.First())
            && forall u :: MEMORY_START < u < Search(slots, q, q.First()) ==> !FreeMultiple(slots, q, u)
  {
    var q := Aligned(amount, alignment);
    var v, w := Search(slots, q, q.First()), Search(other, q, q.First());
    AfterIsNextMultiple(q, MEMORY_START);
    NoFreeEndsSame(slots, other, q);
    NothingSteppedOver(slots, q, q.First());
    NothingSteppedOver(other, q, q.First());
    AlignedLeastExactlyWhen(slots, amount, alignment);
    AlignedLeastExactlyWhen(other, amount, alignment);
    AllocateAlignedFits(slots, amount, alignment);
    AllocateAlignedFits(other, amount, alignment);
    SameFeasible(slots, other, v, amount);
    SameFeasible(other, slots, w, amount);
    assert FreeMultiple(other, q, v) && FreeMultiple(slots, q, w);
  }

  lemma NoFreeEndsSame(slots: seq<Slot>, other: seq<Slot>, q: Request)
    requires q.Aligned? && q.Valid() && NoFreeEnds(slots, q) && Records(slots) == Records(other)
    ensures NoFreeEnds(other, q)
  {
    forall i | 0 <= i < |other| && other[i].present && other[i].end > MEMORY_START
      ensures !FreeMultiple(other, q, other[i].end)
    {
      var r := (other[i].start, other[i].end);
      RecordsMember(other, r);
      RecordsMember(slots, r);
      var j :| 0 <= j < |slots| && slots[j] == Slot(true, r.0, r.1);
      if FreeMultiple(other, q, r.1) {
        SameFeasible(other, slots, r.1, q.amount);
      }
    }
  }

  /** An aligned request can pass over a free multiple, and its answer depends on the slot order. */
  lemma AlignedSkipsAndDependsOnOrder()
    ensures var a := Slot(true, MEMORY_START + 16, MEMORY_START + 32);
            var b := Slot(true, MEMORY_START + 32, MEMORY_START + 48);
            var q := Aligned(32, 16);
            && Records([a, b]) == Records([b, a])
            && Search([a, b], q, q.First()) == MEMORY_START + 48
            && Search([b, a], q, q.First()) == MEMORY_START + 64
            && Feasible([b, a], MEMORY_START + 48, 32)
  {
    RecordsSwap(Slot(true, MEMORY_START + 16, MEMORY_START + 32), Slot(true, MEMORY_START + 32, MEMORY_START + 48));
    EarlierFirst();
    LaterFirst();
  }

  lemma RecordsSwap(a: Slot, b: Slot)
    requires a.present && b.present
    ensures Records([a, b]) == Records([b, a])
  {
    TwoRecords(a, b);
    TwoRecords(b, a);
  }

  lemma TwoRecords(a: Slot, b: Slot)
    ensures Records([a, b]) == Record(a) + Record(b)
  {
    Appended([], a);
    Appended([a], b);
    assert [] + [a] == [a] && [a] + [b] == [a, b];
  }

  lemma EarlierFirst()
    ensures var a := Slot(true, MEMORY_START + 16, MEMORY_START + 32);
            var b := Slot(true, MEMORY_START + 32, MEMORY_START + 48);
            var q := Aligned(32, 16);
            Search([a, b], q, q.First()) == MEMORY_START + 48
  {
    var a := Slot(true, MEMORY_START + 16, MEMORY_START + 32);
    var b := Slot(true, MEMORY_START + 32, MEMORY_START + 48);
    var q := Aligned(32, 16);
    assert q.First() == MEMORY_START + 16 && q.After(MEMORY_START + 32) == MEMORY_START + 48;
    assert FirstClash([a, b], MEMORY_START + 16, 32) == 0;
    assert FirstClash([a, b], MEMORY_START + 48, 32) == 2;
  }

  lemma LaterFirst()
    ensures var a := Slot(true, MEMORY_START + 16, MEMORY_START + 32);
            var b := Slot(true, MEMORY_START + 32, MEMORY_START + 48);
            var q := Aligned(32, 16);
            Search([b, a], q, q.First()) == MEMORY_START + 64 && Feasible([b, a], MEMORY_START + 48, 32)
  {
    var a := Slot(true, MEMORY_START + 16, MEMORY_START + 32);
    var b := Slot(true, MEMORY_START + 32, MEMORY_START + 48);
    var q := Aligned(32, 16);
    assert q.First() == MEMORY_START + 16 && q.After(MEMORY_START + 48) == MEMORY_START + 64;
    assert FirstClash([b, a], MEMORY_START + 16, 32) == 0;
    assert FirstClash([b, a], MEMORY_START + 64, 32) == 2;
  }

  // ---------- filling and clearing slots ----------

  /** The slot a new record goes to: the first one not present, else the next one never written. */
  function FirstFree(slots: seq<Slot>): (i: nat)
    ensures i <= |slots|
    ensures forall j :: 0 <= j < i ==> slots[j].present
    ensures i < |slots| ==> !slots[i].present
  {
    if slots == [] then 0
    else
      var i := FirstFree(slots[..|slots| - 1]);
      if i < |slots| - 1 || !slots[|slots| - 1].present then i else |slots|
  }

  function Put(slots: seq<Slot>, start: nat, end: nat): seq<Slot> {
    var i := FirstFree(slots);
    if i == |slots| then slots + [Slot(true, start, end)] else slots[i := Slot(true, start, end)]
  }

  /** A record more: counts, sizes and records grow by it, and the table grows only when it was full. */
  lemma PutAdds(slots: seq<Slot>, start: nat, end: nat)
    ensures var after := Put(slots, start, end);
            && Live(after) == Live(slots) + 1
            && Size(after) == Size(slots) + end - start
            && Records(after) == Records(slots) + multiset{(start, end)}
            && |after| == (if Live(slots) == |slots| then |slots| + 1 else |slots|)
  {
    var i := FirstFree(slots);
    LiveFull(slots);
    if i == |slots| {
      Appended(slots, Slot(true, start, end));
    } else {
      Updated(slots, i, Slot(true, start, end));
      UpdatedRecords(slots, i, Slot(true, start, end));
    }
  }

  /** The slot `unallocate(start)` stops at. */
  function Find(slots: seq<Slot>, start: nat): (i: nat)
    ensures i <= |slots|
    ensures forall j :: 0 <= j < i ==> !(slots[j].present && slots[j].start == start)
    ensures i < |slots| ==> slots[i].present && slots[i].start == start
  {
    if slots == [] then 0
    else
      var i := Find(slots[..|slots| - 1], start);
      var last := slots[|slots| - 1];
      if i < |slots| - 1 || (last.present && last.start == start) then i else |slots|
  }

  function Take(slots: seq<Slot>, start: nat): seq<Slot>
    requires Find(slots, start) < |slots|
  {
    var i := Find(slots, start);
    slots[i := slots[i].(present := false)]
  }

  lemma TakeRemoves(slots: seq<Slot>, start: nat)
    requires Find(slots, start) < |slots|
    ensures var s := slots[Find(slots, start)];
            var after := Take(slots, start);
            && |after| == |slots|
            && Live(after) == Live(slots) - 1
            && Size(after) == Size(slots) - (s.end - s.start)
            && (s.start, s.end) in Records(slots)
            && Records(after) == Records(slots) - multiset{(s.start, s.end)}
  {
    var i := Find(slots, start);
    Updated(slots, i, slots[i].(present := false));
    var gone := slots[i].(present := false);
    UpdatedRecords(slots, i, gone);
    RecordsMember(slots, (slots[i].start, slots[i].end));
    assert slots[i] == Slot(true, slots[i].start, slots[i].end);
    assert Record(gone) == multiset{};
    assert Records(slots) == Records(Take(slots, start)) + Record(slots[i]);
  }
}
