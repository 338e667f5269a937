/** Whole runs of the allocator: any sequence of `markUnusable` calls followed by any mix of
    `allocate`, `allocateAligned` and `unallocate`. */
module AllocatorRuns {
  import opened SlotTable

  datatype Op = Mark(start: nat, end: nat) | Allocate(q: Request) | Unallocate(pointer: nat)

  /** `marks` counts the records made by `markUnusable`; being made first, they fill the first slots. */
  datatype State = State(slots: seq<Slot>, unusable: nat, marks: nat)

  const EMPTY := State([], 0, 0)

  predicate Enabled(s: State, op: Op) {
    match op
    case Mark(start, end) => start <= end && s.marks == |s.slots|
    case Allocate(q) => q.Valid()
    case Unallocate(pointer) => s.marks <= Find(s.slots, pointer) < |s.slots|
  }

  function Answer(s: State, q: Request): nat
    requires q.Valid()
  {
    Search(s.slots, q, q.First())
  }

  function Apply(s: State, op: Op): State
    requires Enabled(s, op)
  {
    match op
    case Mark(start, end) => State(Put(s.slots, start, end), s.unusable + (end - start), s.marks + 1)
    case Allocate(q) =>
      var value := Answer(s, q);
      s.(slots := Put(s.slots, value, value + q.amount))
    case Unallocate(pointer) => s.(slots := Take(s.slots, pointer))
  }

  /** Every operation was called as its callers may call it. */
  ghost predicate Legal(ops: seq<Op>)
    decreases |ops|, 0
  {
    ops == [] || (Legal(ops[..|ops| - 1]) && Enabled(Exec(ops[..|ops| - 1]), ops[|ops| - 1]))
  }

  ghost function Exec(ops: seq<Op>): State
    requires Legal(ops)
    decreases |ops|, 1
  {
    if ops == [] then EMPTY else Apply(Exec(ops[..|ops| - 1]), ops[|ops| - 1])
  }

  // ---------- the invariant ----------

  predicate ApartSlots(a: Slot, b: Slot) {
    a.present && b.present ==> Apart(a.start, a.end, b.start, b.end)
  }

  /** Two live records share no address if at least one of them is an allocation. */
  ghost predicate Disjoint(s: State) {
    forall i, j :: 0 <= i < |s.slots| && 0 <= j < |s.slots| && i != j && (i >= s.marks || j >= s.marks)
                   ==> ApartSlots(s.slots[i], s.slots[j])
  }

  ghost predicate Inv(s: State) {
    && s.marks <= |s.slots|
    && (forall i :: 0 <= i < s.marks ==> s.slots[i].present)
    && (forall i :: 0 <= i < |s.slots| ==> s.slots[i].start <= s.slots[i].end)
    && (forall i :: s.marks <= i < |s.slots| ==> s.slots[i].start >= MEMORY_START)
    && s.unusable == Size(s.slots[..s.marks])
    && Disjoint(s)
  }

  lemma MarkKeeps(s: State, op: Op)
    requires Inv(s) && op.Mark? && Enabled(s, op)
    ensures Inv(Apply(s, op))
  {
    var r := Slot(true, op.start, op.end);
    assert FirstFree(s.slots) == |s.slots|;
    var t := Apply(s, op);
    assert t.slots == s.slots + [r] == t.slots[..t.marks];
    assert s.slots[..s.marks] == s.slots;
    Appended(s.slots, r);
    assert Length(r) == op.end - op.start;
  }

  lemma AllocateKeeps(s: State, q: Request)
    requires Inv(s) && q.Valid()
    ensures Inv(Apply(s, Allocate(q)))
  {
    var t := Apply(s, Allocate(q));
    var value := Answer(s, q);
    var k := FirstFree(s.slots);
    assert t.slots[k] == Slot(true, value, value + q.amount);
    assert forall i :: 0 <= i < |s.slots| && i != k ==> t.slots[i] == s.slots[i];
    assert k >= s.marks;
    assert t.slots[..t.marks] == s.slots[..s.marks];
    forall i, j | 0 <= i < |t.slots| && 0 <= j < |t.slots| && i != j && (i >= t.marks || j >= t.marks)
      ensures ApartSlots(t.slots[i], t.slots[j])
    {
      if i == k {
        assert !Clash(s.slots[j], value, q.amount);
      } else if j == k {
        assert !Clash(s.slots[i], value, q.amount);
      }
    }
  }

  lemma UnallocateKeeps(s: State, pointer: nat)
    requires Inv(s) && Enabled(s, Unallocate(pointer))
    ensures Inv(Apply(s, Unallocate(pointer)))
  {
    var t := Apply(s, Unallocate(pointer));
    assert t.slots[..t.marks] == s.slots[..s.marks];
  }

  lemma ApplyKeeps(s: State, op: Op)
    requires Inv(s) && Enabled(s, op)
    ensures Inv(Apply(s, op))
  {
    match op
    case Mark(_, _) => MarkKeeps(s, op);
    case Allocate(q) => AllocateKeeps(s, q);
    case Unallocate(pointer) => UnallocateKeeps(s, pointer);
  }

  /** Safety over whole runs: no two live records overlap if either was allocated, and every block
      lies at or above MEMORY_START. */
  lemma RunsAreSafe(ops: seq<Op>)
    requires Legal(ops)
    ensures Inv(Exec(ops)) && BlocksApart(Exec(ops))
  {
    RunsKeep(ops);
    InvApart(Exec(ops));
  }

  /** The slots from `marks` on hold allocated blocks. */
  ghost predicate BlocksApart(s: State) {
    && (forall i :: s.marks <= i < |s.slots| ==> 0x100_0000 <= s.slots[i].start <= s.slots[i].end)
    && forall i, j :: s.marks <= i < |s.slots| && 0 <= j < |s.slots| && i != j
                      && s.slots[i].present && s.slots[j].present
                      ==> s.slots[i].end <= s.slots[j].start || s.slots[j].end <= s.slots[i].start
  }

  lemma InvApart(s: State)
    requires Inv(s)
    ensures BlocksApart(s)
  {
    forall i, j | s.marks <= i < |s.slots| && 0 <= j < |s.slots| && i != j && s.slots[i].present && s.slots[j].present
      ensures s.slots[i].end <= s.slots[j].start || s.slots[j].end <= s.slots[i].start
    {
      assert ApartSlots(s.slots[i], s.slots[j]);
    }
  }

  lemma {:induction false} RunsKeep(ops: seq<Op>)
    requires Legal(ops)
    ensures Inv(Exec(ops))
  {
    if ops != [] {
      RunsKeep(ops[..|ops| - 1]);
      ApplyKeeps(Exec(ops[..|ops| - 1]), ops[|ops| - 1]);
    }
  }

  // ---------- what unallocate removes ----------

  /** Every record covers at least one address. */
  ghost predicate Nonempty(s: State) {
    forall i :: 0 <= i < |s.slots| && s.slots[i].present ==> s.slots[i].start < s.slots[i].end
  }

  lemma AllocateNonempty(s: State, q: Request)
    requires Inv(s) && Nonempty(s) && q.Valid() && q.amount > 0
    ensures var t := Apply(s, Allocate(q));
            var k := FirstFree(s.slots);
            && Inv(t) && Nonempty(t)
            && s.marks <= k < |t.slots| && t.slots[k] == Slot(true, Answer(s, q), Answer(s, q) + q.amount)
            && forall i :: 0 <= i < |s.slots| && i != k ==> t.slots[i] == s.slots[i]
  {
    AllocateKeeps(s, q);
  }

  /** With no empty record in the table, a live block's start names that block and no other record. */
  lemma StartsAreUnique(s: State, i: nat)
    requires Inv(s) && s.marks <= i < |s.slots| && s.slots[i].present
    requires Nonempty(s)
    ensures Find(s.slots, s.slots[i].start) == i
    ensures Enabled(s, Unallocate(s.slots[i].start))
  {
    assert forall j :: 0 <= j < |s.slots| && j != i ==> ApartSlots(s.slots[j], s.slots[i]);
  }

  /** With no empty record in the table, the block `allocate(n)` makes at `v` has its start to itself, now and
      at the next request, exactly when it is not empty. */
  lemma StartIsOwnExactlyWhenPositive(slots: seq<Slot>, after: seq<Slot>, n: nat, v: nat)
    requires forall i :: 0 <= i < |slots| && slots[i].present ==> slots[i].start < slots[i].end
    requires v == Search(slots, Plain(n), MEMORY_START) && after == Put(slots, v, v + n)
    ensures n > 0 <==> NoneStartsAt(slots, v) && Search(after, Plain(1), MEMORY_START) != v
  {
    if n > 0 {
      PositiveStartIsOwn(slots, n, v);
      PositiveStartIsTaken(slots, after, n, v);
    } else if NoneStartsAt(slots, v) {
      EmptyBlockIsFree(slots, after, v);
    }
  }

  predicate NoneStartsAt(slots: seq<Slot>, v: nat) {
    forall i :: 0 <= i < |slots| && slots[i].present ==> slots[i].start != v
  }

  lemma PositiveStartIsOwn(slots: seq<Slot>, n: nat, v: nat)
    requires n > 0 && Feasible(slots, v, n)
    requires forall i :: 0 <= i < |slots| && slots[i].present ==> slots[i].start < slots[i].end
    ensures NoneStartsAt(slots, v)
  {
    assert forall i :: 0 <= i < |slots| ==> !Clash(slots[i], v, n);
  }

  lemma PositiveStartIsTaken(slots: seq<Slot>, after: seq<Slot>, n: nat, v: nat)
    requires n > 0 && after == Put(slots, v, v + n)
    ensures Search(after, Plain(1), MEMORY_START) != v
  {
    var k := FirstFree(slots);
    assert after[k] == Slot(true, v, v + n);
    assert !Clash(after[k], Search(after, Plain(1), MEMORY_START), 1);
  }

  lemma AnswerAtMost(slots: seq<Slot>, n: nat, u: nat)
    requires u >= MEMORY_START && Feasible(slots, u, n)
    ensures Search(slots, Plain(n), MEMORY_START) <= u
  {
    if u < Search(slots, Plain(n), MEMORY_START) {
      SearchPasses(slots, n, MEMORY_START, u);
    }
  }

  lemma FeasibleEmpty(slots: seq<Slot>, u: nat, n: nat)
    requires Feasible(slots, u, n)
    ensures Feasible(slots, u, 0)
  {
    assert forall i :: 0 <= i < |slots| && Clash(slots[i], u, 0) ==> Clash(slots[i], u, n);
  }

  /** The byte at an empty block's start goes to the next caller, unless another block starts there. */
  lemma EmptyBlockIsFree(slots: seq<Slot>, after: seq<Slot>, v: nat)
    requires v == Search(slots, Plain(0), MEMORY_START) && after == Put(slots, v, v)
    requires NoneStartsAt(slots, v)
    ensures Search(after, Plain(1), MEMORY_START) == v
  {
    var u := Search(after, Plain(1), MEMORY_START);
    EmptyDoesNotClash(slots, after, v);
    AnswerAtMost(after, 1, v);
    assert Feasible(slots, u, 1) by {
      StillFeasible(slots, after, v, v, u, 1);
    }
    FeasibleEmpty(slots, u, 1);
    AnswerAtMost(slots, 0, u);
  }

  lemma EmptyDoesNotClash(slots: seq<Slot>, after: seq<Slot>, v: nat)
    requires Feasible(slots, v, 0) && NoneStartsAt(slots, v) && after == Put(slots, v, v)
    ensures Feasible(after, v, 1)
  {
    forall i | 0 <= i < |after| ensures !Clash(after[i], v, 1) {
      if i != FirstFree(slots) {
        assert after[i] == slots[i] && !Clash(slots[i], v, 0);
      }
    }
  }

  lemma StillFeasible(slots: seq<Slot>, after: seq<Slot>, start: nat, end: nat, u: nat, n: nat)
    requires after == Put(slots, start, end) && Feasible(after, u, n)
    ensures Feasible(slots, u, n)
  {
    forall i | 0 <= i < |slots| ensures !Clash(slots[i], u, n) {
      if i != FirstFree(slots) {
        assert after[i] == slots[i] && !Clash(after[i], u, n);
      }
    }
  }

  /** Once blocks are handed out nothing changes where an empty one goes, so all of them share one start: an
      empty request is answered at or below every address where any other could be. */
  lemma EmptyStartAfterAllocate(slots: seq<Slot>, start: nat, size: nat, after: seq<Slot>)
    requires start >= MEMORY_START && Feasible(slots, start, size) && after == Put(slots, start, start + size)
    ensures Search(after, Plain(0), MEMORY_START) == Search(slots, Plain(0), MEMORY_START)
  {
    var v, u := Search(slots, Plain(0), MEMORY_START), Search(after, Plain(0), MEMORY_START);
    StillFeasible(slots, after, start, start + size, u, 0);
    AnswerAtMost(slots, 0, u);
    FeasibleEmpty(slots, start, size);
    AnswerAtMost(slots, 0, start);
    EmptyBelowIsFeasible(slots, after, start, size, v);
    AnswerAtMost(after, 0, v);
  }

  lemma EmptyBelowIsFeasible(slots: seq<Slot>, after: seq<Slot>, start: nat, size: nat, v: nat)
    requires after == Put(slots, start, start + size) && v <= start && Feasible(slots, v, 0)
    ensures Feasible(after, v, 0)
  {
    forall i | 0 <= i < |after| ensures !Clash(after[i], v, 0) {
      if i != FirstFree(slots) {
        assert after[i] == slots[i] && !Clash(slots[i], v, 0);
      }
    }
  }

  lemma EmptyStartAfterFree(s: State, p: nat, less: seq<Slot>)
    requires Inv(s) && Enabled(s, Unallocate(p)) && less == Take(s.slots, p)
    ensures Search(less, Plain(0), MEMORY_START) == Search(s.slots, Plain(0), MEMORY_START)
  {
    var slots := s.slots;
    var k := Find(slots, p);
    var v, u := Search(slots, Plain(0), MEMORY_START), Search(less, Plain(0), MEMORY_START);
    var b := slots[k];
    forall i | 0 <= i < |slots| ensures !Clash(less[i], b.start, 0) && !Clash(less[i], v, 0) {
      assert i != k ==> less[i] == slots[i] && ApartSlots(slots[i], b);
      assert !Clash(slots[i], v, 0);
    }
    AnswerAtMost(less, 0, v);
    AnswerAtMost(less, 0, b.start);
    forall i | 0 <= i < |slots| ensures !Clash(slots[i], u, 0) {
      assert i != k ==> less[i] == slots[i];
      assert !Clash(less[i], u, 0);
    }
    AnswerAtMost(slots, 0, u);
  }

  // ---------- how many slots the table takes ----------

  ghost function Max(a: nat, b: nat): nat { if a < b then b else a }

  /** The most records live at once at any point of the run. */
  ghost function Peak(ops: seq<Op>): nat
    requires Legal(ops)
  {
    if ops == [] then 0 else Max(Peak(ops[..|ops| - 1]), Live(Exec(ops).slots))
  }

  /** The table has used exactly as many slots as the most records ever live together. */
  lemma {:induction false} SlotsUsedIsPeak(ops: seq<Op>)
    requires Legal(ops)
    ensures |Exec(ops).slots| == Peak(ops)
  {
    if ops != [] {
      var before, op := ops[..|ops| - 1], ops[|ops| - 1];
      SlotsUsedIsPeak(before);
      var s := Exec(before);
      match op
      case Mark(start, end) => PutAdds(s.slots, start, end);
      case Allocate(q) => PutAdds(s.slots, Answer(s, q), Answer(s, q) + q.amount);
      case Unallocate(pointer) => TakeRemoves(s.slots, pointer);
    }
  }

  // ---------- usage ----------

  /** Bytes one operation hands out (positive) or takes back (negative). */
  ghost function Handed(s: State, op: Op): int
    requires Enabled(s, op)
  {
    match op
    case Mark(_, _) => 0
    case Allocate(q) => q.amount
    case Unallocate(pointer) => -Length(s.slots[Find(s.slots, pointer)])
  }

  ghost function Outstanding(ops: seq<Op>): int
    requires Legal(ops)
  {
    if ops == [] then 0
    else Outstanding(ops[..|ops| - 1]) + Handed(Exec(ops[..|ops| - 1]), ops[|ops| - 1])
  }

  /** What `getUsage` computes. */
  function Usage(s: State): int {
    Size(s.slots) - s.unusable
  }

  /** Conservation: over every run the usage is what allocations added less what frees took back. */
  lemma {:induction false} UsageIsOutstanding(ops: seq<Op>)
    requires Legal(ops)
    ensures Usage(Exec(ops)) == Outstanding(ops)
  {
    if ops != [] {
      var before, op := ops[..|ops| - 1], ops[|ops| - 1];
      UsageIsOutstanding(before);
      var s := Exec(before);
      match op
      case Mark(start, end) => PutAdds(s.slots, start, end);
      case Allocate(q) => PutAdds(s.slots, Answer(s, q), Answer(s, q) + q.amount);
      case Unallocate(pointer) => TakeRemoves(s.slots, pointer);
    }
  }

  lemma {:induction false} SizeSplit(slots: seq<Slot>, m: nat)
    requires m <= |slots|
    ensures Size(slots) == Size(slots[..m]) + Size(slots[m..])
    decreases |slots|
  {
    var n := |slots| - 1;
    if m == |slots| {
      assert slots[..m] == slots;
    } else {
      SizeSplit(slots[..n], m);
      assert slots[..n][..m] == slots[..m] && slots[..n][m..] == slots[m..][..n - m];
    }
  }

  /** The part of a live range that lies below `top`. */
  function Below(s: Slot, top: nat): nat {
    if !s.present || s.start >= top || s.end <= s.start then 0
    else if s.end <= top then s.end - s.start else top - s.start
  }

  function SizeBelow(slots: seq<Slot>, top: nat): nat {
    if slots == [] then 0
    else SizeBelow(slots[..|slots| - 1], top) + Below(slots[|slots| - 1], top)
  }

  predicate Covers(s: Slot, a: nat) {
    s.present && s.start <= a < s.end
  }

  /** Raising `top` by one address adds at most that one address. */
  lemma {:induction false} SizeBelowStep(slots: seq<Slot>, top: nat)
    requires forall i, j :: 0 <= i < j < |slots| ==> ApartSlots(slots[i], slots[j])
    ensures SizeBelow(slots, top + 1) - SizeBelow(slots, top)
            == (if exists i :: 0 <= i < |slots| && Covers(slots[i], top) then 1 else 0)
  {
    if slots != [] {
      var n := |slots| - 1;
      var front := slots[..n];
      SizeBelowStep(front, top);
      if Covers(slots[n], top) {
        forall i | 0 <= i < n ensures !Covers(front[i], top) {
          assert ApartSlots(slots[i], slots[n]);
        }
      } else if exists i :: 0 <= i < n && Covers(front[i], top) {
        var i :| 0 <= i < n && Covers(front[i], top);
        assert Covers(slots[i], top);
      }
    }
  }

  lemma {:induction false} SizeBelowBound(slots: seq<Slot>, top: nat)
    requires forall i, j :: 0 <= i < j < |slots| ==> ApartSlots(slots[i], slots[j])
    requires forall i :: 0 <= i < |slots| && slots[i].present ==> slots[i].start >= MEMORY_START
    ensures SizeBelow(slots, top) <= (if top > MEMORY_START then top - MEMORY_START else 0)
    decreases top
  {
    if top > MEMORY_START {
      SizeBelowBound(slots, top - 1);
      SizeBelowStep(slots, top - 1);
    } else {
      NothingBelowStart(slots, top);
    }
  }

  lemma {:induction false} NothingBelowStart(slots: seq<Slot>, top: nat)
    requires top <= MEMORY_START
    requires forall i :: 0 <= i < |slots| && slots[i].present ==> slots[i].start >= MEMORY_START
    ensures SizeBelow(slots, top) == 0
  {
    if slots != [] {
      NothingBelowStart(slots[..|slots| - 1], top);
    }
  }

  lemma {:induction false} SizeIsSizeBelow(slots: seq<Slot>, top: nat)
    requires forall i :: 0 <= i < |slots| ==> slots[i].start <= slots[i].end
    requires forall i :: 0 <= i < |slots| && slots[i].present ==> slots[i].end <= top
    ensures Size(slots) == SizeBelow(slots, top)
  {
    if slots != [] {
      SizeIsSizeBelow(slots[..|slots| - 1], top);
    }
  }

  lemma BlocksArePacked(slots: seq<Slot>, top: nat)
    requires forall i, j :: 0 <= i < j < |slots| ==> ApartSlots(slots[i], slots[j])
    requires forall i :: 0 <= i < |slots| ==> MEMORY_START <= slots[i].start <= slots[i].end
    requires forall i :: 0 <= i < |slots| && slots[i].present ==> slots[i].end <= top
    ensures 0 <= Size(slots)
    ensures top >= MEMORY_START ==> Size(slots) <= top - MEMORY_START
  {
    SizeIsSizeBelow(slots, top);
    SizeBelowBound(slots, top);
  }

  /** The allocated blocks of a state reached by a run. */
  lemma BlocksOf(s: State, blocks: seq<Slot>)
    requires Inv(s) && blocks == s.slots[s.marks..]
    ensures Usage(s) == Size(blocks)
    ensures forall i, j :: 0 <= i < j < |blocks| ==> ApartSlots(blocks[i], blocks[j])
    ensures forall i :: 0 <= i < |blocks| ==> MEMORY_START <= blocks[i].start <= blocks[i].end
  {
    SizeSplit(s.slots, s.marks);
    forall i, j | 0 <= i < j < |blocks| ensures ApartSlots(blocks[i], blocks[j]) {
      assert blocks[i] == s.slots[s.marks + i] && blocks[j] == s.slots[s.marks + j];
    }
  }

  /** The usage is the summed length of the live blocks, and disjointness packs them: it never exceeds
      the distance from MEMORY_START to the highest live block's end. */
  lemma UsageIsPacked(ops: seq<Op>, s: State, top: nat)
    requires Legal(ops) && s == Exec(ops) && BlocksEndBy(s, top) && top >= MEMORY_START
    ensures Usage(s) == Size(s.slots[s.marks..]) && 0 <= Usage(s) <= top - MEMORY_START
  {
    RunsKeep(ops);
    PackedUsage(s, top);
  }

  lemma PackedUsage(s: State, top: nat)
    requires Inv(s) && BlocksEndBy(s, top) && top >= MEMORY_START
    ensures Usage(s) == Size(s.slots[s.marks..]) && 0 <= Usage(s) <= top - MEMORY_START
  {
    var blocks := s.slots[s.marks..];
    BlocksOf(s, blocks);
    BlocksEnd(s, blocks, top);
    BlocksArePacked(blocks, top);
  }

  lemma BlocksEnd(s: State, blocks: seq<Slot>, top: nat)
    requires BlocksEndBy(s, top) && blocks == s.slots[s.marks..]
    ensures forall i :: 0 <= i < |blocks| && blocks[i].present ==> blocks[i].end <= top
  {
    assert forall i :: 0 <= i < |blocks| ==> blocks[i] == s.slots[s.marks + i];
  }

  ghost predicate BlocksEndBy(s: State, top: nat) {
    && s.marks <= |s.slots|
    && forall i :: s.marks <= i < |s.slots| && s.slots[i].present ==> s.slots[i].end <= top
  }

  // ---------- records ----------

  /** The range an operation adds to the live records, and the one it removes from them. */
  ghost function Added(s: State, op: Op): multiset<(nat, nat)>
    requires Enabled(s, op)
  {
    match op
    case Mark(start, end) => multiset{(start, end)}
    case Allocate(q) => multiset{(Answer(s, q), Answer(s, q) + q.amount)}
    case Unallocate(_) => multiset{}
  }

  ghost function Removed(s: State, op: Op): multiset<(nat, nat)>
    requires Enabled(s, op)
  {
    match op
    case Unallocate(p) => multiset{(p, s.slots[Find(s.slots, p)].end)}
    case _ => multiset{}
  }

  lemma RecordsStep(s: State, op: Op)
    requires Enabled(s, op)
    ensures Records(Apply(s, op).slots) + Removed(s, op) == Records(s.slots) + Added(s, op)
  {
    match op
    case Mark(start, end) => PutAdds(s.slots, start, end);
    case Allocate(q) => PutAdds(s.slots, Answer(s, q), Answer(s, q) + q.amount);
    case Unallocate(p) => TakeRemoves(s.slots, p);
  }

  /** Ranges added and removed by those operations of a run that `mine` selects. */
  ghost function AddedBy(ops: seq<Op>, mine: set<nat>): multiset<(nat, nat)>
    requires Legal(ops)
  {
    if ops == [] then multiset{}
    else
      var n := |ops| - 1;
      AddedBy(ops[..n], mine) + (if n in mine then Added(Exec(ops[..n]), ops[n]) else multiset{})
  }

  ghost function RemovedBy(ops: seq<Op>, mine: set<nat>): multiset<(nat, nat)>
    requires Legal(ops)
  {
    if ops == [] then multiset{}
    else
      var n := |ops| - 1;
      RemovedBy(ops[..n], mine) + (if n in mine then Removed(Exec(ops[..n]), ops[n]) else multiset{})
  }

  /** Over any run, split between one party and all others: live records are what both added less what
      both removed. */
  lemma {:induction false} RecordsBalance(ops: seq<Op>, mine: set<nat>, rest: set<nat>)
    requires Legal(ops) && forall i :: 0 <= i < |ops| ==> (i in mine <==> i !in rest)
    ensures Records(Exec(ops).slots) + RemovedBy(ops, mine) + RemovedBy(ops, rest)
            == AddedBy(ops, mine) + AddedBy(ops, rest)
  {
    if ops != [] {
      var n := |ops| - 1;
      var before := ops[..n];
      RecordsBalance(before, mine, rest);
      RecordsStep(Exec(before), ops[n]);
      Rearrange(Records(Exec(before).slots), RemovedBy(before, mine), RemovedBy(before, rest),
                AddedBy(before, mine), AddedBy(before, rest),
                Records(Exec(ops).slots), Removed(Exec(before), ops[n]), Added(Exec(before), ops[n]), n in mine);
      assert n in mine <==> n !in rest;
    }
  }

  lemma Rearrange<X>(r: multiset<X>, rm: multiset<X>, ro: multiset<X>, am: multiset<X>, ao: multiset<X>,
                     r': multiset<X>, d: multiset<X>, a: multiset<X>, isMine: bool)
    requires r + rm + ro == am + ao && r' + d == r + a
    ensures r' + (rm + (if isMine then d else multiset{})) + (ro + (if isMine then multiset{} else d))
            == (am + (if isMine then a else multiset{})) + (ao + (if isMine then multiset{} else a))
  {
    var left := r' + (rm + (if isMine then d else multiset{})) + (ro + (if isMine then multiset{} else d));
    var right := (am + (if isMine then a else multiset{})) + (ao + (if isMine then multiset{} else a));
    forall x ensures left[x] == right[x] {
      assert (r + rm + ro)[x] == (am + ao)[x] && (r' + d)[x] == (r + a)[x];
    }
  }

  /** Whoever gives back exactly what it took leaves the live records as the others alone account for
      them, however the operations interleave. */
  lemma BalancedPartyIsNeutral(ops: seq<Op>, mine: set<nat>, rest: set<nat>)
    requires Legal(ops) && forall i :: 0 <= i < |ops| ==> (i in mine <==> i !in rest)
    requires AddedBy(ops, mine) == RemovedBy(ops, mine)
    ensures Records(Exec(ops).slots) + RemovedBy(ops, rest) == AddedBy(ops, rest)
  {
    RecordsBalance(ops, mine, rest);
    var r, m, o, a := Records(Exec(ops).slots), RemovedBy(ops, mine), RemovedBy(ops, rest), AddedBy(ops, rest);
    forall x ensures (r + o)[x] == a[x] {
      assert (r + m + o)[x] == (m + a)[x];
    }
  }
}
