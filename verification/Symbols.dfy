/** The symbol table: reading `nm`'s output and finding the symbol an address belongs to. */
module SymbolTables {
  import opened Words
  import opened Digits
  import opened Strings

  /** A line of `nm`: 16 hexadecimal digits, a space, a type letter, a space, a name and a newline. */
  datatype Entry = Entry(address: nat, kind: char, name: string) {
    predicate Valid() {
      address < WORD && kind != '\n' && '\n' !in name && |name| <= 255
    }
  }

  datatype Symbol = Symbol(address: nat, name: string)

  function Line(e: Entry): (s: string)
    ensures |s| == 20 + |e.name|
  {
    Fixed(e.address, 16, false) + [' ', e.kind, ' '] + e.name + ['\n']
  }

  function Printed(entries: seq<Entry>): string {
    if entries == [] then [] else Printed(entries[..|entries| - 1]) + Line(entries[|entries| - 1])
  }

  predicate IsText(e: Entry) {
    e.kind == 'T' || e.kind == 't'
  }

  /** The symbols of the text section, in order. */
  function Kept(entries: seq<Entry>): seq<Symbol> {
    if entries == [] then []
    else
      var last := entries[|entries| - 1];
      Kept(entries[..|entries| - 1]) + (if IsText(last) then [Symbol(last.address, last.name)] else [])
  }

  /** Nothing else is kept, and nothing of theirs lost. */
  lemma {:induction false} KeptIs(entries: seq<Entry>, s: Symbol)
    ensures s in Kept(entries)
       <==> exists i :: 0 <= i < |entries| && (entries[i].kind == 'T' || entries[i].kind == 't')
                        && s == Symbol(entries[i].address, entries[i].name)
  {
    if entries != [] {
      var n := |entries| - 1;
      KeptIs(entries[..n], s);
      assert forall i :: 0 <= i < n ==> entries[..n][i] == entries[i];
      assert s in Kept(entries)
        <==> s in Kept(entries[..n]) || (IsText(entries[n]) && s == Symbol(entries[n].address, entries[n].name));
      if s in Kept(entries[..n]) {
        var i :| 0 <= i < n && (entries[..n][i].kind == 'T' || entries[..n][i].kind == 't')
                 && s == Symbol(entries[..n][i].address, entries[..n][i].name);
        assert entries[i] == entries[..n][i];
      }
    }
  }

  /** A line: sixteen lower-case digits of the address, the letter between spaces, the name, a newline. */
  lemma LineIs(e: Entry)
    requires e.Valid()
    ensures var s := Line(e);
            && |s| == 20 + |e.name| && LowerHex(s[..16]) && Value(s[..16], 16) == e.address
            && s[16] == ' ' && s[17] == e.kind && s[18] == ' ' && s[19..|s| - 1] == e.name && s[|s| - 1] == '\n'
  {
    AddressDigits(e.address);
    LineParts(Fixed(e.address, 16, false), e.kind, e.name);
  }

  lemma AddressDigits(address: nat)
    requires address < WORD
    ensures LowerHex(Fixed(address, 16, false)) && Value(Fixed(address, 16, false), 16) == address
  {
    SixteenDigits();
    FixedLower(address, 16);
    FixedRead(address, 16);
    HexValueAgrees(Fixed(address, 16, false));
  }

  lemma LineParts(digits: string, kind: char, name: string)
    requires |digits| == 16
    ensures var s := digits + [' ', kind, ' '] + name + ['\n'];
            && |s| == 20 + |name| && s[..16] == digits && s[16] == ' ' && s[17] == kind && s[18] == ' '
            && s[19..|s| - 1] == name && s[|s| - 1] == '\n'
  {
  }

  predicate AllValid(entries: seq<Entry>) {
    forall i :: 0 <= i < |entries| ==> entries[i].Valid()
  }

  /** What the characters of a line are where it stands in the file. */
  ghost predicate At(data: string, at: nat, e: Entry) {
    && at + 20 + |e.name| <= |data|
    && data[at..at + 16] == Fixed(e.address, 16, false) && data[at + 17] == e.kind
    && data[at + 19..at + 19 + |e.name|] == e.name && data[at + 19 + |e.name|] == '\n'
    && forall k :: at <= k < at + 19 + |e.name| ==> data[k] != '\n'
  }

  lemma LineAt(before: string, e: Entry, after: string)
    requires e.Valid()
    ensures At(before + Line(e) + after, |before|, e)
  {
    var data, at, digits := before + Line(e) + after, |before|, Fixed(e.address, 16, false);
    FixedLower(e.address, 16);
    assert data[at..at + 16] == digits;
    assert data[at + 19..at + 19 + |e.name|] == e.name;
    forall k | at <= k < at + 19 + |e.name| ensures data[k] != '\n' {
      if k < at + 16 {
        assert data[k] == digits[k - at];
      } else if k >= at + 19 {
        assert data[k] == e.name[k - at - 19];
      }
    }
  }

  lemma {:induction false} PrintedPrefix(entries: seq<Entry>, k: nat)
    requires k <= |entries|
    ensures Printed(entries[..k]) <= Printed(entries)
    decreases |entries| - k
  {
    if k < |entries| {
      PrintedPrefix(entries, k + 1);
      assert entries[..k + 1][..k] == entries[..k];
    } else {
      assert entries[..k] == entries;
    }
  }

  lemma Rest(prefix: string, data: string) returns (after: string)
    requires prefix <= data
    ensures data == prefix + after
  {
    after := data[|prefix|..];
  }

  /** Where the first `k` lines end. */
  ghost predicate LinesEnd(entries: seq<Entry>, k: nat, at: nat) {
    k <= |entries| && at == |Printed(entries[..k])|
  }

  lemma LineStart(entries: seq<Entry>, k: nat, at: nat)
    requires LinesEnd(entries, k, at) && k < |entries| && AllValid(entries)
    ensures At(Printed(entries), at, entries[k]) && LinesEnd(entries, k + 1, at + 20 + |entries[k].name|)
  {
    var before, data := Printed(entries[..k]), Printed(entries);
    assert entries[..k + 1][..k] == entries[..k];
    PrintedPrefix(entries, k + 1);
    var after := Rest(before + Line(entries[k]), data);
    LineAt(before, entries[k], after);
  }

  /** The lines end where the file does just when none is left. */
  lemma FileEnd(entries: seq<Entry>, k: nat, at: nat)
    requires LinesEnd(entries, k, at)
    ensures at <= |Printed(entries)| && (at == |Printed(entries)| <==> k == |entries|)
  {
    PrintedPrefix(entries, k);
    if k < |entries| {
      assert entries[..k + 1][..k] == entries[..k];
      PrintedPrefix(entries, k + 1);
    } else {
      assert entries[..k] == entries;
    }
  }

  lemma KeptNext(entries: seq<Entry>, k: nat)
    requires k < |entries|
    ensures Kept(entries[..k + 1])
         == Kept(entries[..k]) + (if IsText(entries[k]) then [Symbol(entries[k].address, entries[k].name)] else [])
  {
    assert entries[..k + 1][..k] == entries[..k];
  }

  /** Once every kept symbol is found no further entry holds one. */
  lemma {:induction false} KeptPrefix(entries: seq<Entry>, k: nat)
    requires k <= |entries|
    ensures |Kept(entries[..k])| <= |Kept(entries)|
    ensures |Kept(entries[..k])| == |Kept(entries)| ==> Kept(entries[..k]) == Kept(entries)
    decreases |entries| - k
  {
    if k < |entries| {
      KeptPrefix(entries, k + 1);
      KeptNext(entries, k);
    } else {
      assert entries[..k] == entries;
    }
  }

  /** The first pass over one line: whether it holds a text symbol, and where the next starts. */
  method PassLine(data: string, start: nat, ghost e: Entry) returns (text: bool, current: nat)
    requires At(data, start, e) && e.Valid()
    ensures text == IsText(e) && current == start + 20 + |e.name|
  {
    current := start + 17;
    text := data[current] == 'T' || data[current] == 't';
    current := current + 2;
    while data[current - 1] != '\n'
      invariant start + 19 <= current <= start + 20 + |e.name|
      decreases start + 20 + |e.name| - current
    {
      current := current + 1;
    }
  }

  /** The first pass of `parseSymbols`: how many symbols there are. */
  method CountSymbols(data: string, ghost entries: seq<Entry>) returns (amount: nat)
    requires data == Printed(entries) && AllValid(entries)
    ensures amount == |Kept(entries)|
  {
    amount := 0;
    var current: nat := 0;
    ghost var k := 0;
    FileEnd(entries, 0, 0);
    while current < |data|
      invariant LinesEnd(entries, k, current) && amount == |Kept(entries[..k])|
      decreases |entries| - k
    {
      FileEnd(entries, k, current);
      LineStart(entries, k, current);
      KeptNext(entries, k);
      var text;
      text, current := PassLine(data, current, entries[k]);
      if text {
        amount := amount + 1;
      }
      k := k + 1;
    }
    FileEnd(entries, k, current);
    assert entries[..k] == entries;
  }

  method CopyMemory(data: string, at: nat, destination: array<char>, count: nat)
    requires at + count <= |data| && count <= destination.Length
    modifies destination
    ensures destination[..count] == data[at..at + count]
    ensures forall k :: count <= k < destination.Length ==> destination[k] == old(destination[k])
  {
    for i := 0 to count
      invariant destination[..i] == data[at..at + i]
      invariant forall k :: count <= k < destination.Length ==> destination[k] == old(destination[k])
    {
      destination[i] := data[at + i];
      assert data[at..at + i + 1] == data[at..at + i] + [data[at + i]];
    }
  }

  /** The address in the 16 characters at `at`, `name` being the buffer they are copied to. */
  method ReadAddress(data: string, at: nat, name: array<char>, ghost e: Entry) returns (address: nat)
    requires At(data, at, e) && e.Valid() && name.Length == 17 && name[16] == '\0'
    modifies name
    ensures name[16] == '\0' && address == e.address
  {
    CopyMemory(data, at, name, 16);
    SixteenDigits();
    FixedRead(e.address, 16);
    FixedLower(e.address, 16);
    assert name[..][..16] == name[..16] == Fixed(e.address, 16, false);
    TextIs(name[..], 16);
    address := FromHex(name);
  }

  /** A text symbol's line: its address, its name, whose length is counted in 8 bits, and the line after. */
  method ReadSymbol(data: string, at: nat, name: array<char>, ghost e: Entry) returns (symbol: Symbol, next: nat)
    requires At(data, at, e) && e.Valid() && name.Length == 17 && name[16] == '\0'
    modifies name
    ensures name[16] == '\0' && symbol == Symbol(e.address, e.name) && next == at + 20 + |e.name|
  {
    var address := ReadAddress(data, at, name, e);
    next := at + 19;
    var length := 0;
    while data[next + length] != '\n'
      invariant 0 <= length <= |e.name|
      decreases |e.name| - length
    {
      length := (length + 1) % 256;
    }
    symbol := Symbol(address, data[next..next + length]);
    next := next + length + 1;
  }

  method SkipLine(data: string, at: nat, ghost e: Entry) returns (next: nat)
    requires At(data, at, e)
    ensures next == at + 20 + |e.name|
  {
    next := at;
    while data[next] != '\n'
      invariant at <= next <= at + 19 + |e.name|
      decreases at + 19 + |e.name| - next
    {
      next := next + 1;
    }
    next := next + 1;
  }

  /** `parseSymbols`: exactly the text symbols, in order; both passes read only the file's characters. */
  method ParseSymbols(data: string, ghost entries: seq<Entry>) returns (symbols: array<Symbol>, count: nat)
    requires data == Printed(entries) && AllValid(entries) && |entries| < WORD
    ensures count == symbols.Length && symbols[..] == Kept(entries) && fresh(symbols)
  {
    var amount := CountSymbols(data, entries);
    symbols := new Symbol[amount](_ => Symbol(0, []));
    var name := new char[17](_ => ' ');
    name[16] := '\0';
    var at: nat := 0;
    ghost var k := 0;
    var i := 0;
    KeptShort(entries);
    while i < amount
      invariant LinesEnd(entries, k, at) && name[16] == '\0'
      invariant 0 <= i <= amount && symbols[..i] == Kept(entries[..k])
      decreases |entries| - k
    {
      i, at := ParseLine(data, entries, symbols, name, k, at, i);
      i := Wrap(i + 1);
      k := k + 1;
    }
    KeptPrefix(entries, k);
    count := amount;
  }

  /** One pass of the second loop, down to its increment. */
  method ParseLine(data: string, ghost entries: seq<Entry>, symbols: array<Symbol>, name: array<char>, ghost k: nat,
                   at: nat, i: nat)
    returns (j: nat, next: nat)
    requires data == Printed(entries) && AllValid(entries) && |entries| < WORD
    requires LinesEnd(entries, k, at) && name.Length == 17 && name[16] == '\0'
    requires i < symbols.Length == |Kept(entries)| <= |entries| && symbols[..i] == Kept(entries[..k])
    modifies symbols, name
    ensures k < |entries| && LinesEnd(entries, k + 1, next) && name[16] == '\0'
    ensures Wrap(j + 1) <= symbols.Length && symbols[..Wrap(j + 1)] == Kept(entries[..k + 1])
  {
    ghost var e := NextEntry(entries, k, at);
    j := i;
    if data[at + 17] == 'T' || data[at + 17] == 't' {
      symbols[i], next := ReadSymbol(data, at, name, e);
    } else {
      next := SkipLine(data, at, e);
      BackAndForth(i);
      j := Wrap(i - 1);
    }
  }

  /** The entry the second pass is at, while symbols are still to be found. */
  lemma NextEntry(entries: seq<Entry>, k: nat, at: nat) returns (e: Entry)
    requires LinesEnd(entries, k, at) && AllValid(entries) && |Kept(entries[..k])| < |Kept(entries)|
    ensures k < |entries| && e == entries[k] && e.Valid() && At(Printed(entries), at, e)
    ensures LinesEnd(entries, k + 1, at + 20 + |e.name|)
    ensures Kept(entries[..k + 1]) == Kept(entries[..k]) + (if IsText(e) then [Symbol(e.address, e.name)] else [])
    ensures |Kept(entries[..k + 1])| <= |Kept(entries)|
  {
    Unfinished(entries, k);
    LineStart(entries, k, at);
    KeptNext(entries, k);
    KeptPrefix(entries, k + 1);
    e := entries[k];
  }

  lemma Unfinished(entries: seq<Entry>, k: nat)
    requires k <= |entries| && |Kept(entries[..k])| < |Kept(entries)|
    ensures k < |entries|
  {
    assert entries[..|entries|] == entries;
  }

  lemma BackAndForth(i: nat)
    requires i < WORD
    ensures Wrap(Wrap(i - 1) + 1) == i
  {
    WrapSum(i - 1, 1);
  }

  lemma {:induction false} KeptShort(entries: seq<Entry>)
    ensures |Kept(entries)| <= |entries|
  {
    if entries != [] {
      KeptShort(entries[..|entries| - 1]);
    }
  }

  function Difference(address: nat, symbol: Symbol): (d: nat)
    ensures d < WORD
  {
    Wrap(address - symbol.address)
  }

  /** The first symbol at the least distance above which `address` lies, going round the address space. */
  predicate Closest(symbols: seq<Symbol>, address: nat, k: nat) {
    && k < |symbols|
    && (forall i :: 0 <= i < |symbols| ==> Difference(address, symbols[k]) <= Difference(address, symbols[i]))
    && (forall i :: 0 <= i < k ==> Difference(address, symbols[k]) < Difference(address, symbols[i]))
  }

  /** `getSymbol`. Its loop never takes the distance 2^64 - 1, but then keeps the first symbol anyway. */
  method GetSymbol(symbols: array<Symbol>, count: nat, address: nat) returns (name: string, offset: nat)
    requires 0 < count <= symbols.Length
    ensures exists k :: 0 <= k < count && Closest(symbols[..count], address, k)
              && name == symbols[k].name && offset == Difference(address, symbols[k])
  {
    var closestId := 0;
    var smallestDifference := WORD - 1;
    for i := 0 to count
      invariant 0 <= closestId < count && (closestId == 0 || closestId < i)
      invariant i > 0 && smallestDifference < WORD - 1 ==> Difference(address, symbols[closestId]) == smallestDifference
      invariant smallestDifference == WORD - 1 ==> closestId == 0
      invariant i == 0 ==> smallestDifference == WORD - 1
      invariant forall j :: 0 <= j < i ==> smallestDifference <= Difference(address, symbols[j])
      invariant forall j :: 0 <= j < closestId ==> smallestDifference < Difference(address, symbols[j])
    {
      var difference := Wrap(address - symbols[i].address);
      if difference < smallestDifference {
        closestId := i;
        smallestDifference := difference;
      }
    }
    offset := smallestDifference;
    name := symbols[closestId].name;
    assert Closest(symbols[..count], address, closestId);
  }

  /** Where some symbol starts at or below the address, the closest is the greatest such and the offset
      is how far into it the address lies; where none does, it is the greatest symbol of all. */
  lemma ClosestIsBelow(symbols: seq<Symbol>, address: nat, k: nat)
    requires Closest(symbols, address, k) && address < WORD
    requires forall i :: 0 <= i < |symbols| ==> symbols[i].address < WORD
    ensures (exists i :: 0 <= i < |symbols| && symbols[i].address <= address) ==>
              && symbols[k].address <= address && Difference(address, symbols[k]) == address - symbols[k].address
              && (forall i :: 0 <= i < |symbols| && symbols[i].address <= address
                    ==> symbols[i].address <= symbols[k].address)
    ensures (forall i :: 0 <= i < |symbols| ==> address < symbols[i].address) ==>
              && Difference(address, symbols[k]) == address + WORD - symbols[k].address
              && (forall i :: 0 <= i < |symbols| ==> symbols[i].address <= symbols[k].address)
  {
    forall i | 0 <= i < |symbols|
      ensures Difference(address, symbols[i])
           == if symbols[i].address <= address then address - symbols[i].address
              else address + WORD - symbols[i].address
    {
      WrapMultiple(address - symbols[i].address, 1);
    }
  }
}
