/** The loop of `npf_vpprintf`: characters of the format, conversions with their star arguments, and the count
    it returns. Arguments are 64-bit slots. */
module Printf {
  import opened Digits
  import opened Doubles
  import opened Fields
  import opened Floats
  import opened FormatSpecs
  import opened Integers
  import opened Words

  /** A piece of a format: a character printed as it is, or a conversion specification after its %. */
  datatype Item = Literal(c: char) | Directive(p: Parts)

  // ---------- the format ----------

  predicate IsDirective(format: string, at: nat)
    requires CString(format) && at < |format|
  {
    format[at] == '%' && at + 1 < |format| && Scan(format, at + 1).WellFormed()
  }

  ghost predicate IsItem(format: string, at: nat, item: Item) {
    forall k {:trigger Open(k)} :: Open(k) ==>
      && CString(format) && at < |format|
      && item == if IsDirective(format, at) then Directive(Scan(format, at + 1)) else Literal(format[at])
  }

  lemma SomeItem(format: string, at: nat) returns (item: Item)
    requires CString(format) && at < |format|
    ensures IsItem(format, at, item)
    ensures item == if IsDirective(format, at) then Directive(Scan(format, at + 1)) else Literal(format[at])
  {
    item := if IsDirective(format, at) then Directive(Scan(format, at + 1)) else Literal(format[at]);
  }

  /** The specification after a %, if one stands there, or else the character. */
  ghost function ItemAt(format: string, at: nat): (item: Item)
    requires CString(format) && at < |format|
    ensures IsItem(format, at, item)
  {
    assert exists item :: IsItem(format, at, item) by {
      var item := SomeItem(format, at);
    }
    var item :| IsItem(format, at, item);
    item
  }

  function Source(item: Item): (s: string)
    ensures s != []
  {
    match item
    case Literal(c) => [c]
    case Directive(p) => ['%'] + p.Text()
  }

  lemma NoNul(p: Parts)
    requires p.WellFormed()
    ensures '\0' !in p.Text()
  {
    NoNulDigits(p.width);
    NoNulPrec(p.prec);
    assert forall i :: 0 <= i < |p.flags| ==> p.flags[i] != '\0';
    NoNulJoin(p.mod, [p.conv]);
    NoNulJoin(p.prec, p.mod + [p.conv]);
    NoNulJoin(p.width, p.prec + (p.mod + [p.conv]));
    NoNulJoin(p.flags, p.width + (p.prec + (p.mod + [p.conv])));
  }

  lemma NoNulJoin(s: string, t: string)
    requires '\0' !in s && '\0' !in t
    ensures '\0' !in s + t
  {
  }

  lemma NoNulPrec(prec: string)
    requires GoodPrec(prec)
    ensures '\0' !in prec
  {
    if |prec| >= 1 {
      NoNulDigits(prec[1..]);
      assert prec == [prec[0]] + prec[1..];
    }
    if |prec| >= 2 {
      NoNulDigits(prec[2..]);
      assert prec == [prec[0], prec[1]] + prec[2..];
    }
  }

  lemma NoNulDigits(s: string)
    ensures AllDigits(s, 10) ==> '\0' !in s
  {
    assert Worth('\0') >= 10;
  }

  /** Every item stands in the format, and never over a NUL. */
  lemma ItemStands(format: string, at: nat)
    requires CString(format) && at < |format| && format[at] != '\0'
    ensures var s := Source(ItemAt(format, at));
            at + |s| < |format| && format[at..at + |s|] == s && '\0' !in s
  {
    ItemAtIs(format, at);
    if IsDirective(format, at) {
      DirectiveStands(format, at, Scan(format, at + 1));
    }
  }

  lemma ItemAtIs(format: string, at: nat)
    requires CString(format) && at < |format|
    ensures ItemAt(format, at) == if IsDirective(format, at) then Directive(Scan(format, at + 1)) else Literal(format[at])
  {
    assert Open(0);
  }

  lemma DirectiveStands(format: string, at: nat, p: Parts)
    requires CString(format) && at + 1 < |format| && format[at] == '%' && p == Scan(format, at + 1) && p.WellFormed()
    ensures var s := ['%'] + p.Text();
            at + |s| < |format| && format[at..at + |s|] == s && '\0' !in s
  {
    ScanStands(format, at + 1);
    ScanEnd(format, at + 1, p);
    NoNul(p);
    PercentStands(format, at, p.Text());
  }

  lemma ScanEnd(format: string, i: nat, p: Parts)
    requires CString(format) && i < |format| && p == Scan(format, i) && p.WellFormed()
    ensures ConvAt(format, i) + 1 < |format|
  {
    assert p.conv == format[ConvAt(format, i)];
  }

  lemma PercentStands(format: string, at: nat, t: string)
    requires at + 1 + |t| < |format| && format[at] == '%' && format[at + 1..at + 1 + |t|] == t && '\0' !in t
    ensures format[at..at + 1 + |t|] == ['%'] + t && '\0' !in ['%'] + t
  {
  }

  /** The items from `at` on, up to the first NUL. */
  ghost function Items(format: string, at: nat): (items: seq<Item>)
    requires CString(format) && at < |format|
    decreases |format| - at
  {
    if format[at] == '\0' then []
    else
      ItemStands(format, at);
      var item := ItemAt(format, at);
      [item] + Items(format, at + |Source(item)|)
  }

  function Spelled(items: seq<Item>): string {
    if items == [] then [] else Source(items[0]) + Spelled(items[1..])
  }

  function NulAt(format: string, at: nat): (end: nat)
    requires CString(format) && at < |format|
    ensures at <= end < |format| && format[end] == '\0' && forall k :: at <= k < end ==> format[k] != '\0'
    decreases |format| - at
  {
    if format[at] == '\0' then at else NulAt(format, at + 1)
  }

  lemma {:induction false} NulAfter(format: string, at: nat, next: nat)
    requires CString(format) && at <= next < |format| && '\0' !in format[at..next]
    ensures NulAt(format, at) == NulAt(format, next)
    decreases next - at
  {
    if at < next {
      assert format[at] in format[at..next];
      assert format[at..next] == [format[at]] + format[at + 1..next];
      NulAfter(format, at + 1, next);
    }
  }

  /** `item` is the one at `at`, and `next` where it ends. */
  ghost predicate Begins(format: string, at: nat, item: Item, next: nat) {
    forall k {:trigger Open(k)} :: Open(k) ==>
      && CString(format) && at < |format| && format[at] != '\0'
      && item == ItemAt(format, at) && next == at + |Source(item)|
  }

  ghost predicate Remain(format: string, at: nat, items: seq<Item>) {
    forall k {:trigger Open(k)} :: Open(k) ==> CString(format) && at < |format| && items == Items(format, at)
  }

  lemma FirstItem(format: string, at: nat, items: seq<Item>) returns (item: Item, next: nat, rest: seq<Item>)
    requires CString(format) && at < |format| && format[at] != '\0' && Remain(format, at, items)
    ensures Begins(format, at, item, next) && Remain(format, next, rest)
    ensures at < next < |format| && items == [item] + rest && format[at..next] == Source(item)
    ensures NulAt(format, at) == NulAt(format, next)
  {
    item, next := ItemBegins(format, at);
    rest := RemainFrom(format, next);
    RemainIs(format, at, items);
    ItemsFrom(format, at, item, next);
    NulAfter(format, at, next);
  }

  lemma ItemBegins(format: string, at: nat) returns (item: Item, next: nat)
    requires CString(format) && at < |format| && format[at] != '\0'
    ensures Begins(format, at, item, next) && item == ItemAt(format, at) && next == at + |Source(item)|
    ensures at < next < |format| && format[at..next] == Source(item) && '\0' !in format[at..next]
  {
    ItemStands(format, at);
    item := ItemAt(format, at);
    next := at + |Source(item)|;
  }

  lemma RemainIs(format: string, at: nat, items: seq<Item>)
    requires CString(format) && at < |format| && Remain(format, at, items)
    ensures items == Items(format, at)
  {
    assert Open(0);
  }

  lemma ItemsFrom(format: string, at: nat, item: Item, next: nat)
    requires CString(format) && at < |format| && format[at] != '\0'
    requires item == ItemAt(format, at) && next == at + |Source(item)| < |format|
    ensures Items(format, at) == [item] + Items(format, next)
  {
  }

  lemma RemainFrom(format: string, at: nat) returns (items: seq<Item>)
    requires CString(format) && at < |format|
    ensures items == Items(format, at) && Remain(format, at, items)
  {
    items := Items(format, at);
  }

  lemma NoItems(format: string, at: nat, items: seq<Item>)
    requires CString(format) && at < |format| && format[at] == '\0' && Remain(format, at, items)
    ensures items == []
  {
    assert Open(0);
  }

  /** The items spell the format: nothing of it is lost and nothing counted twice. */
  lemma ItemsSpell(format: string)
    requires CString(format)
    ensures Spelled(Items(format, 0)) == format[..NulAt(format, 0)]
  {
    RestSpells(format, 0, Items(format, 0));
  }

  lemma {:induction false} RestSpells(format: string, at: nat, items: seq<Item>)
    requires CString(format) && at < |format| && Remain(format, at, items)
    ensures Spelled(items) == format[at..NulAt(format, at)]
    decreases |format| - at
  {
    if format[at] != '\0' {
      var item, next, rest := FirstItem(format, at, items);
      RestSpells(format, next, rest);
      SpelledMore(format, item, rest, at, next, NulAt(format, next));
    } else {
      NoItems(format, at, items);
    }
  }

  lemma SpelledMore(format: string, item: Item, rest: seq<Item>, at: nat, next: nat, end: nat)
    requires at <= next <= end <= |format| && Source(item) == format[at..next] && Spelled(rest) == format[next..end]
    ensures Spelled([item] + rest) == format[at..end]
  {
    assert ([item] + rest)[1..] == rest;
  }

  // ---------- the arguments ----------

  /** A C `int` in a slot. */
  function Int32(slot: nat): int {
    Extracted(SignedInt, NoMod, slot)
  }

  function StarWidth(fs: Spec, w: int): Spec {
    if w < 0 then fs.(width := -w, left := true) else fs.(width := w)
  }

  function StarPrec(fs: Spec, p: int): Spec {
    if p < 0 then fs.(prec := 0, precGiven := Absent) else fs.(prec := p)
  }

  function Stars(fs: Spec): nat {
    (if fs.widthGiven == Star then 1 else 0) + (if fs.precGiven == Star then 1 else 0)
  }

  /** Slots a specification takes after its stars'; an integer with `L` takes none. */
  function Takes(fs: Spec): nat {
    if fs.conv == Percent || (fs.Integer() && fs.length == LongDouble) then 0 else 1
  }

  function Needs(item: Item): nat {
    match item
    case Literal(_) => 0
    case Directive(p) => if p.WellFormed() then Stars(p.Meaning()) + Takes(p.Meaning()) else 0
  }

  /** The specification with the values of its stars. */
  function Starred(fs: Spec, args: seq<nat>): (r: Spec)
    requires |args| >= Stars(fs)
    ensures r.conv == fs.conv && r.length == fs.length && r.upper == fs.upper && r.alt == fs.alt && r.prepend == fs.prepend
  {
    var w := if fs.widthGiven == Star then StarWidth(fs, Int32(args[0])) else fs;
    if fs.precGiven == Star then StarPrec(w, Int32(args[Stars(fs) - 1])) else w
  }

  /** A scanned specification is one the fields are laid out for, whatever its stars are. */
  lemma MeaningValid(p: Parts, args: seq<nat>)
    requires p.WellFormed() && |args| >= Stars(p.Meaning())
    ensures Starred(p.Meaning(), args).Valid()
  {
  }

  /** Literals, %%, characters, integers and floats other than `long double`. */
  predicate Supported(item: Item) {
    item.Directive? ==>
      && item.p.WellFormed()
      && var fs := item.p.Meaning();
         fs.conv == Percent || fs.conv == Character || fs.Integer() || (fs.Float() && fs.length != LongDouble)
  }

  // ---------- what is printed ----------

  /** A field with one character in it. */
  function CharField(fs: Spec, c: char): string {
    Laid(fs, false, [], [], [c])
  }

  /** The field of a float conversion around a payload that is one of its value's. */
  ghost predicate FloatPrints(piece: string, fs: Spec, bits: nat) {
    forall k {:trigger Open(k)} :: Open(k) ==>
      exists payload, message, whole, fraction ::
        FloatPayload(payload, Defaulted(fs), bits, message, whole, fraction)
        && piece == FloatField(payload, Defaulted(fs), bits, message)
  }

  /** `piece` is what an item prints, its stars and value being the first of `args`. */
  ghost predicate Prints(piece: string, item: Item, args: seq<nat>)
    requires Supported(item) && |args| >= Needs(item)
  {
    match item
    case Literal(c) => piece == [c]
    case Directive(p) =>
      var fs := Starred(p.Meaning(), args);
      var value := if Takes(fs) == 1 then args[Stars(p.Meaning())] else 0;
      if fs.conv == Percent then piece == CharField(fs, '%')
      else if fs.conv == Character then piece == CharField(fs, (value % 0x100) as char)
      else if fs.Integer() then piece == Integers.Text(fs, Extracted(fs.conv, fs.length, value))
      else FloatPrints(piece, fs, value)
  }

  /** The values of the stars, taken at once. */
  method TakeStars(spec: Spec, args: seq<nat>, start: nat) returns (fs: Spec, next: nat)
    requires start + Stars(spec) <= |args|
    ensures next == start + Stars(spec) && fs == Starred(spec, args[start..])
  {
    fs, next := spec, start;
    if fs.widthGiven == Star {
      var w := Int32(args[next]);
      next := next + 1;
      fs := fs.(width := if w < 0 then 0 else w);
      if w < 0 {
        fs := fs.(width := -w);
        fs := fs.(left := true);
      }
    }
    if fs.precGiven == Star {
      var p := Int32(args[next]);
      next := next + 1;
      fs := fs.(prec := if p < 0 then 0 else p);
      if p < 0 {
        fs := fs.(precGiven := Absent);
      }
    }
  }

  method PutChar(out: Output, fs: Spec, c: char) returns (ghost piece: string)
    requires fs.conv == Percent || fs.conv == Character
    modifies out
    ensures piece == CharField(fs, c) && out.text == old(out.text) + piece && out.n == old(out.n) + |piece|
  {
    var buffer := new char[64](_ => '\0');
    buffer[0] := c;
    assert Reversed(buffer[..1]) == [c];
    piece := CharField(fs, c);
    out.Emit(fs, false, '\0', '\0', buffer, 1);
  }

  /** A conversion with its stars settled. */
  method PutConversion(out: Output, fs: Spec, value: nat) returns (ghost piece: string)
    requires fs.conv == Percent || fs.conv == Character || fs.Integer() || fs.Float()
    requires value < WORD
    modifies out
    ensures out.text == old(out.text) + piece && out.n == old(out.n) + |piece|
    ensures if fs.conv == Percent then piece == CharField(fs, '%')
            else if fs.conv == Character then piece == CharField(fs, (value % 0x100) as char)
            else if fs.Integer() then piece == Integers.Text(fs, Extracted(fs.conv, fs.length, value))
            else FloatPrints(piece, fs, value)
  {
    if fs.conv == Percent {
      piece := PutChar(out, fs, '%');
    } else if fs.conv == Character {
      piece := PutChar(out, fs, (value % 0x100) as char);
    } else if fs.Integer() {
      piece := Integers.Text(fs, Extracted(fs.conv, fs.length, value));
      PutInteger(out, fs, value);
    } else {
      ghost var payload, message, whole, fraction;
      payload, message, whole, fraction := PutFloat(out, fs, value);
      piece := FloatField(payload, Defaulted(fs), value, message);
    }
  }

  // ---------- the loop ----------

  /** Slots that items take together. */
  function Slots(items: seq<Item>): nat {
    if items == [] then 0 else Slots(items[..|items| - 1]) + Needs(items[|items| - 1])
  }

  function Concat(pieces: seq<string>): string {
    if pieces == [] then [] else Concat(pieces[..|pieces| - 1]) + pieces[|pieces| - 1]
  }

  lemma SlotsNext(items: seq<Item>, k: nat)
    requires k < |items|
    ensures Slots(items[..k + 1]) == Slots(items[..k]) + Needs(items[k])
  {
    assert items[..k + 1][..k] == items[..k];
  }

  lemma {:induction false} SlotsUpTo(items: seq<Item>, k: nat)
    requires k <= |items|
    ensures Slots(items[..k]) <= Slots(items)
    decreases |items|
  {
    if k == |items| {
      assert items[..k] == items;
    } else {
      SlotsUpTo(items[..|items| - 1], k);
      assert items[..|items| - 1][..k] == items[..k];
    }
  }

  /** `piece` is what `item` prints with the slots from `start` on. */
  ghost predicate PrintsFrom(piece: string, item: Item, args: seq<nat>, start: nat) {
    forall k {:trigger Open(k)} :: Open(k) ==>
      Supported(item) && start + Needs(item) <= |args| && Prints(piece, item, args[start..])
  }

  /** The first pieces print the first items, each with the slots that come after those before it. */
  ghost predicate Printed(pieces: seq<string>, items: seq<Item>, args: seq<nat>) {
    pieces == []
    || (var n := |pieces| - 1;
        n < |items| && PrintsFrom(pieces[n], items[n], args, Slots(items[..n])) && Printed(pieces[..n], items, args))
  }

  lemma {:induction false} PrintedAt(pieces: seq<string>, items: seq<Item>, args: seq<nat>, k: nat)
    requires Printed(pieces, items, args) && k < |pieces|
    ensures k < |items| && PrintsFrom(pieces[k], items[k], args, Slots(items[..k]))
  {
    if k < |pieces| - 1 {
      PrintedAt(pieces[..|pieces| - 1], items, args, k);
    }
  }

  ghost predicate AllSupported(items: seq<Item>) {
    forall k {:trigger Open(k)} :: Open(k) ==> forall i :: 0 <= i < |items| ==> Supported(items[i])
  }

  /** One turn of the loop: the item at `at` is printed, and its slots are taken. */
  method PrintItem(out: Output, format: string, at: nat, args: seq<nat>, start: nat, ghost item: Item,
                   ghost after: nat)
    returns (next: nat, used: nat, ghost piece: string)
    requires CString(format) && at < |format| && format[at] != '\0' && forall k :: 0 <= k < |args| ==> args[k] < WORD
    requires Begins(format, at, item, after) && Supported(item) && start + Needs(item) <= |args|
    modifies out
    ensures next == after && used == start + Needs(item)
    ensures out.text == old(out.text) + piece && out.n == old(out.n) + |piece|
    ensures PrintsFrom(piece, item, args, start)
  {
    var length, spec := 0, Spec(false, false, '\0', false, Absent, 0, Absent, 0, NoMod, Percent, false);
    if format[at] == '%' {
      length, spec := ParseFormatSpec(format, at);
    }
    ItemIs(format, at, item, after);
    if length == 0 {
      out.Put(format[at]);
      piece := [format[at]];
      LiteralPrints(item.c, args, start);
      return at + 1, start, piece;
    }
    next := at + length;
    used, piece := PutDirective(out, spec, item.p, args, start);
  }

  lemma ItemIs(format: string, at: nat, item: Item, after: nat)
    requires CString(format) && at < |format| && format[at] != '\0' && Begins(format, at, item, after)
    ensures var p := Scan(format, at + 1);
            if format[at] == '%' && p.WellFormed() then item == Directive(p) && after == at + 1 + |p.Text()|
            else item == Literal(format[at]) && after == at + 1
  {
    assert Open(0);
    ItemAtIs(format, at);
  }

  lemma LiteralPrints(c: char, args: seq<nat>, start: nat)
    requires start <= |args|
    ensures PrintsFrom([c], Literal(c), args, start)
  {
  }

  /** A conversion: its stars are settled, its value taken and its field printed. */
  method PutDirective(out: Output, spec: Spec, ghost p: Parts, args: seq<nat>, start: nat)
    returns (used: nat, ghost piece: string)
    requires Supported(Directive(p)) && spec == p.Meaning() && start + Needs(Directive(p)) <= |args|
    requires forall k :: 0 <= k < |args| ==> args[k] < WORD
    modifies out
    ensures used == start + Needs(Directive(p))
    ensures out.text == old(out.text) + piece && out.n == old(out.n) + |piece|
    ensures PrintsFrom(piece, Directive(p), args, start)
  {
    var fs;
    fs, used := TakeStars(spec, args, start);
    var value := 0;
    if fs.conv != Percent && !(fs.Integer() && fs.length == LongDouble) {
      value := args[used];
      used := used + 1;
    }
    piece := PutConversion(out, fs, value);
    DirectivePrints(piece, p, args, start, fs, value);
  }

  lemma DirectivePrints(piece: string, p: Parts, args: seq<nat>, start: nat, fs: Spec, value: nat)
    requires Supported(Directive(p)) && start + Needs(Directive(p)) <= |args|
    requires fs == Starred(p.Meaning(), args[start..])
    requires value == if Takes(fs) == 1 then args[start + Stars(p.Meaning())] else 0
    requires if fs.conv == Percent then piece == CharField(fs, '%')
             else if fs.conv == Character then piece == CharField(fs, (value % 0x100) as char)
             else if fs.Integer() then piece == Integers.Text(fs, Extracted(fs.conv, fs.length, value))
             else FloatPrints(piece, fs, value)
    ensures PrintsFrom(piece, Directive(p), args, start)
  {
  }

  /** The loop stands at `cur`: the pieces so far print the first items, and `used` slots are taken. */
  ghost predicate Going(format: string, items: seq<Item>, args: seq<nat>, cur: nat, used: nat, pieces: seq<string>) {
    && cur < |format| && |pieces| <= |items| && Remain(format, cur, items[|pieces|..])
    && used == Slots(items[..|pieces|]) && Printed(pieces, items, args)
  }

  method Turn(out: Output, format: string, args: seq<nat>, ghost items: seq<Item>, cur: nat, used: nat,
              ghost pieces: seq<string>)
    returns (next: nat, taken: nat, ghost more: seq<string>)
    requires CString(format) && forall k :: 0 <= k < |args| ==> args[k] < WORD
    requires AllSupported(items) && Slots(items) <= |args|
    requires Going(format, items, args, cur, used, pieces) && format[cur] != '\0'
    requires out.text == Concat(pieces) && out.n == |out.text|
    modifies out
    ensures Going(format, items, args, next, taken, more) && next > cur
    ensures out.text == Concat(more) && out.n == |out.text|
  {
    ghost var item, after, tail := FirstItem(format, cur, items[|pieces|..]);
    TakesNext(items, |pieces|, item, tail, args);
    ghost var piece;
    next, taken, piece := PrintItem(out, format, cur, args, used, item, after);
    MorePrinted(pieces, items, args, piece);
    more := pieces + [piece];
  }

  /** The loop. */
  method PrintItems(out: Output, format: string, args: seq<nat>, ghost items: seq<Item>)
    returns (ghost pieces: seq<string>)
    requires CString(format) && (forall k :: 0 <= k < |args| ==> args[k] < WORD) && Remain(format, 0, items)
    requires AllSupported(items) && Slots(items) <= |args| && out.text == [] && out.n == 0
    modifies out
    ensures |pieces| == |items| && Printed(pieces, items, args)
    ensures out.text == Concat(pieces) && out.n == |out.text|
  {
    var cur, used := 0, 0;
    pieces := [];
    assert items[0..] == items;
    while format[cur] != '\0'
      invariant Going(format, items, args, cur, used, pieces)
      invariant out.text == Concat(pieces) && out.n == |out.text|
      decreases |format| - cur
    {
      cur, used, pieces := Turn(out, format, args, items, cur, used, pieces);
    }
    NoItems(format, cur, items[|pieces|..]);
  }

  /** `npf_vpprintf`: the text is what the items of the format print, one after the other, and the result is
      its length. */
  method VPrintf(format: string, args: seq<nat>) returns (text: string, n: nat, ghost pieces: seq<string>)
    requires CString(format) && forall k :: 0 <= k < |args| ==> args[k] < WORD
    requires forall i :: 0 <= i < |Items(format, 0)| ==> Supported(Items(format, 0)[i])
    requires Slots(Items(format, 0)) <= |args|
    ensures |pieces| == |Items(format, 0)| && Printed(pieces, Items(format, 0), args)
    ensures text == Concat(pieces) && n == |text|
  {
    var out := new Output();
    pieces := PrintItems(out, format, args, Items(format, 0));
    text, n := out.text, out.n;
  }

  lemma TakesNext(items: seq<Item>, k: nat, item: Item, tail: seq<Item>, args: seq<nat>)
    requires AllSupported(items) && Slots(items) <= |args| && k <= |items| && items[k..] == [item] + tail
    ensures k < |items| && items[k] == item && tail == items[k + 1..] && Supported(item)
    ensures Slots(items[..k]) + Needs(item) == Slots(items[..k + 1]) <= |args|
  {
    assert items[k..][0] == item && items[k..][1..] == tail;
    SupportedAt(items, k);
    SlotsNext(items, k);
    SlotsUpTo(items, k + 1);
  }

  lemma SupportedAt(items: seq<Item>, k: nat)
    requires AllSupported(items) && k < |items|
    ensures Supported(items[k])
  {
    assert Open(0);
  }

  lemma MorePrinted(pieces: seq<string>, items: seq<Item>, args: seq<nat>, piece: string)
    requires Printed(pieces, items, args) && |pieces| < |items|
    requires PrintsFrom(piece, items[|pieces|], args, Slots(items[..|pieces|]))
    ensures Printed(pieces + [piece], items, args) && Concat(pieces + [piece]) == Concat(pieces) + piece
  {
    var more := pieces + [piece];
    assert more[..|pieces|] == pieces && more[|pieces|] == piece;
    PrintedMore(pieces, more, items, args, piece);
  }

  lemma PrintedMore(pieces: seq<string>, more: seq<string>, items: seq<Item>, args: seq<nat>, piece: string)
    requires Printed(pieces, items, args) && |pieces| < |items|
    requires PrintsFrom(piece, items[|pieces|], args, Slots(items[..|pieces|]))
    requires |more| == |pieces| + 1 && more[..|pieces|] == pieces && more[|pieces|] == piece
    ensures Printed(more, items, args)
  {
  }

  // ---------- what the text promises ----------

  /** The value slot of a conversion that prints its item with the slots from `start` on; 0 if it takes none. */
  function ValueSlot(p: Parts, args: seq<nat>, start: nat): nat
    requires p.WellFormed() && start + Needs(Directive(p)) <= |args|
  {
    if Takes(p.Meaning()) == 1 then args[start + Stars(p.Meaning())] else 0
  }

  /** Every conversion's piece is at least as wide as the width asked for, be it written or a star's. */
  lemma FieldsAreWide(piece: string, p: Parts, args: seq<nat>, start: nat)
    requires PrintsFrom(piece, Directive(p), args, start) && p.WellFormed()
    ensures start + Needs(Directive(p)) <= |args| && |piece| >= Starred(p.Meaning(), args[start..]).width
  {
    var fs, value := PieceOf(piece, p, args, start);
    MeaningValid(p, args[start..]);
    if fs.conv == Percent || fs.conv == Character {
      CharWide(fs, if fs.conv == Percent then '%' else (value % 0x100) as char);
    } else if fs.Integer() {
      TextWide(fs, Extracted(fs.conv, fs.length, value));
    } else {
      FloatWide(piece, fs, value);
    }
  }

  lemma PieceOf(piece: string, p: Parts, args: seq<nat>, start: nat) returns (fs: Spec, value: nat)
    requires PrintsFrom(piece, Directive(p), args, start) && p.WellFormed()
    ensures start + Needs(Directive(p)) <= |args|
    ensures fs == Starred(p.Meaning(), args[start..]) && value == ValueSlot(p, args, start)
    ensures if fs.conv == Percent then piece == CharField(fs, '%')
            else if fs.conv == Character then piece == CharField(fs, (value % 0x100) as char)
            else if fs.Integer() then piece == Integers.Text(fs, Extracted(fs.conv, fs.length, value))
            else FloatPrints(piece, fs, value)
  {
    assert Open(0);
    fs := Starred(p.Meaning(), args[start..]);
    value := ValueSlot(p, args, start);
  }

  lemma CharWide(fs: Spec, c: char)
    requires fs.Valid()
    ensures |CharField(fs, c)| >= fs.width
  {
    LaidWide(fs, false, [], [], [c]);
  }

  lemma TextWide(fs: Spec, val: int)
    requires fs.Valid()
    ensures |Integers.Text(fs, val)| >= fs.width
  {
    LaidWide(Settled(fs, val), val == 0, Sign(SignOf(fs, val)), Prefix(PrefixOf(fs, val)), Payload(fs, val));
  }

  lemma LaidWide(fs: Spec, zero: bool, sign: string, prefix: string, payload: string)
    requires fs.Valid()
    ensures |Laid(fs, zero, sign, prefix, payload)| >= fs.width
  {
  }

  lemma FloatWide(piece: string, fs: Spec, bits: nat)
    requires fs.Valid() && FloatPrints(piece, fs, bits)
    ensures |piece| >= fs.width
  {
    FloatDefaulted(piece, fs, bits, Defaulted(fs));
  }

  lemma FloatDefaulted(piece: string, fs: Spec, bits: nat, d: Spec)
    requires d == Defaulted(fs) && d.Valid() && FloatPrints(piece, fs, bits)
    ensures |piece| >= d.width
  {
    var payload, message := FloatFieldOf(piece, fs, bits);
    FloatFieldWide(payload, d, bits, message);
  }

  lemma FloatFieldOf(piece: string, fs: Spec, bits: nat) returns (payload: string, message: bool)
    requires FloatPrints(piece, fs, bits)
    ensures piece == FloatField(payload, Defaulted(fs), bits, message)
  {
    assert Open(0);
    var text, isMessage, whole, fraction :|
      FloatPayload(text, Defaulted(fs), bits, isMessage, whole, fraction)
      && piece == FloatField(text, Defaulted(fs), bits, isMessage);
    payload, message := text, isMessage;
  }

  lemma FloatFieldWide(payload: string, fs: Spec, bits: nat, message: bool)
    requires fs.Valid()
    ensures |FloatField(payload, fs, bits, message)| >= fs.width
  {
    LaidWide(if message then fs.(zeroPad := false) else fs, Zero(bits), Sign(FloatSign(fs, bits)),
             Prefix(if fs.conv == FloatHex && Finite(bits) then HexPrefix(fs) else '\0'), payload);
  }
}
