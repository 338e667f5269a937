/** What `npf_vpprintf` prints against what the standard asks for, conversion by conversion. */
module Conformance {
  import DecimalAccuracy

  import opened DecimalFloats
  import opened Digits
  import opened Doubles
  import opened Fields
  import opened Floats
  import opened FormatSpecs
  import opened HexFloats
  import opened Integers
  import opened Printf
  import opened Standard
  import opened Words

  /** A field the code lays out is the standard's. */
  lemma LaidIsPlaced(fs: Spec, zero: bool, sign: string, prefix: string, payload: string)
    requires fs.Valid()
    ensures Laid(fs, zero, sign, prefix, payload)
         == Placed(fs.left, fs.zeroPad && !(fs.precGiven != Absent && fs.prec == 0 && zero), fs.width, sign, prefix,
                   Repeat('0', PrecPad(fs, |payload|)) + payload)
  {
    var zeros, pad := PrecPad(fs, |payload|), FieldPad(fs, sign, prefix, payload);
    var digits := Repeat('0', zeros) + payload;
    assert pad == Most(0, fs.width - |sign| - |prefix| - |digits|);
    Edges(sign, prefix, digits);
    if fs.widthGiven == Absent {
      FieldRight(0, sign, prefix, zeros, payload);
      assert sign + prefix + Repeat('0', 0) + digits == sign + prefix + digits;
    } else if fs.left {
      FieldLeft(sign, prefix, zeros, payload, pad);
    } else if ZeroFilled(fs, zero) {
      FieldZeros(sign, prefix, pad, zeros, payload);
    } else {
      FieldRight(pad, sign, prefix, zeros, payload);
    }
  }

  lemma Edges(sign: string, prefix: string, digits: string)
    ensures Repeat(' ', 0) == [] && sign + prefix + digits + Repeat(' ', 0) == sign + prefix + digits
    ensures Repeat(' ', 0) + sign + prefix + digits == sign + prefix + digits
  {
    assert Repeat(' ', 0) + sign == sign;
  }

  lemma FieldRight(pad: nat, sign: string, prefix: string, zeros: nat, payload: string)
    ensures Field(pad, sign, prefix, zeros, payload, 0)
         == Repeat(' ', pad) + sign + prefix + (Repeat('0', zeros) + payload)
  {
  }

  lemma FieldLeft(sign: string, prefix: string, zeros: nat, payload: string, pad: nat)
    ensures Field(0, sign, prefix, zeros, payload, pad)
         == sign + prefix + (Repeat('0', zeros) + payload) + Repeat(' ', pad)
  {
  }

  lemma FieldZeros(sign: string, prefix: string, pad: nat, zeros: nat, payload: string)
    ensures Field(0, sign, prefix, pad + zeros, payload, 0)
         == sign + prefix + Repeat('0', pad) + (Repeat('0', zeros) + payload)
  {
    assert Repeat('0', pad + zeros) == Repeat('0', pad) + Repeat('0', zeros);
  }

  // ---------- arguments ----------

  lemma Congruent(a: int, b: int, slot: int, r: nat)
    requires r > 0 && (slot - b) % r == 0 && a % r == slot % r && a - b < r && b - a < r
    ensures a == b
  {
    var t := (slot - b) / r - slot / r + a / r;
    Quotients(a, b, slot, r, t);
    if t >= 1 {
      MulMono(r, 1, t);
    } else if t <= -1 {
      MulMono(r, 1, -t);
    }
  }

  lemma Quotients(a: int, b: int, slot: int, r: nat, t: int)
    requires r > 0 && (slot - b) % r == 0 && a % r == slot % r && t == (slot - b) / r - slot / r + a / r
    ensures a - b == r * t && r * -t == b - a
  {
    var x, y, z := (slot - b) / r, slot / r, a / r;
    assert slot - b == r * x;
    assert slot == r * y + slot % r;
    assert a == r * z + a % r;
    assert r * t == r * x - r * y + r * z;
  }

  /** What a conversion takes from its slot is the value that was passed, for every letter and modifier. */
  lemma ExtractedIsPassed(c: char, mod: string, slot: nat, v: int)
    requires IntegerLetter(c) && IsMod(mod) && mod != "L" && Passes(c, mod, slot, v)
    ensures Extracted(ConversionOf(c), ModOf(mod), slot) == v
  {
    var a := Extracted(ConversionOf(c), ModOf(mod), slot);
    if mod == "hh" {
      Congruent(a, v, slot, 0x100);
    } else if mod == "h" {
      Congruent(a, v, slot, 0x1_0000);
    } else if mod == "" {
      Congruent(a, v, slot, 0x1_0000_0000);
    } else {
      Congruent(a, v, slot, 0x1_0000_0000_0000_0000);
    }
  }

  lemma StarIsPassed(slot: nat, w: int)
    requires PassesInt(slot, w)
    ensures Int32(slot) == w
  {
    ExtractedIsPassed('d', "", slot, w);
  }

  // ---------- specifications ----------

  lemma DecimalIs(s: string)
    ensures AllDigits(s, 10) <==> DecimalNumber(s)
  {
    assert forall c: char :: Worth(c) < 10 <==> '0' <= c <= '9';
  }

  /** The code takes a specification of the standard's for one, and nothing else but the letters b and B and a minus
      before a precision's digits. */
  lemma GrammarIsStandard(p: Parts)
    ensures Specification(p.flags, p.width, p.prec, p.mod, p.conv)
       <==> p.WellFormed() && p.conv != 'b' && p.conv != 'B' && !MinusFirst(p.prec)
  {
    DecimalIs(p.width);
    if p.prec != "" {
      DecimalIs(p.prec[1..]);
      assert |p.prec| >= 2 ==> p.prec[1] == p.prec[1..][0];
    }
  }

  /** The `k`th item is the one after the characters of those before it. */
  lemma {:induction false} ItemPlace(format: string, from: nat, items: seq<Item>, k: nat)
    returns (at: nat, after: nat)
    requires CString(format) && from < |format| && Remain(format, from, items) && k < |items|
    ensures at == from + |Spelled(items[..k])| < |format| && format[at] != '\0' && Begins(format, at, items[k], after)
    decreases k
  {
    if format[from] == '\0' {
      NoItems(format, from, items);
    }
    var item, next, rest := FirstItem(format, from, items);
    if k == 0 {
      at, after := from, next;
    } else {
      at, after := ItemPlace(format, next, rest, k - 1);
      SpelledFirst(items, item, rest, k);
    }
  }

  lemma SpelledFirst(items: seq<Item>, item: Item, rest: seq<Item>, k: nat)
    requires items == [item] + rest && 0 < k <= |items|
    ensures |Spelled(items[..k])| == |Source(item)| + |Spelled(rest[..k - 1])|
  {
    assert items[..k][0] == item && items[..k][1..] == rest[..k - 1];
  }

  /** Where the items before it end, a specification after a % is converted, and nothing else is; any other
      character, a % without one among them, stands for itself. */
  lemma ConvertedExactlyWhen(format: string, items: seq<Item>, k: nat, at: nat, p: Parts)
    requires CString(format) && items == Items(format, 0) && k < |items| && at == |Spelled(items[..k])|
    ensures at < |format|
    ensures items[k] == Directive(p)
       <==> format[at] == '%' && at + 1 < |format| && p.WellFormed() && StandsAt(p, format, at + 1)
    ensures items[k].Literal? ==> items[k].c == format[at]
  {
    RemainIsItems(format, items);
    RemainConverted(format, items, k, at, p);
  }

  lemma RemainConverted(format: string, items: seq<Item>, k: nat, at: nat, p: Parts)
    requires CString(format) && Remain(format, 0, items) && k < |items| && at == |Spelled(items[..k])|
    ensures at < |format|
    ensures items[k] == Directive(p)
       <==> format[at] == '%' && at + 1 < |format| && p.WellFormed() && StandsAt(p, format, at + 1)
    ensures items[k].Literal? ==> items[k].c == format[at]
  {
    var place, after := ItemPlace(format, 0, items, k);
    BeginsExactly(format, at, items[k], after, p);
  }

  lemma RemainIsItems(format: string, items: seq<Item>)
    requires CString(format) && items == Items(format, 0)
    ensures Remain(format, 0, items)
  {
  }

  lemma BeginsExactly(format: string, at: nat, item: Item, after: nat, p: Parts)
    requires CString(format) && at < |format| && format[at] != '\0' && Begins(format, at, item, after)
    ensures item == Directive(p)
       <==> format[at] == '%' && at + 1 < |format| && p.WellFormed() && StandsAt(p, format, at + 1)
    ensures item.Literal? ==> item.c == format[at]
  {
    ItemIs(format, at, item, after);
    if format[at] == '%' {
      SpecificationsAreFound(p, format, at + 1);
    }
  }

  lemma LiteralPieceIs(piece: string, c: char, args: seq<nat>, start: nat)
    requires PrintsFrom(piece, Literal(c), args, start)
    ensures piece == [c]
  {
    assert Open(0);
  }

  /** The slots of the stars hold `w` and `q`. */
  predicate StarsHold(p: Parts, args: seq<nat>, w: int, q: int) {
    && |args| >= (if p.width == "*" then 1 else 0) + (if p.prec == ".*" then 1 else 0)
    && (p.width == "*" ==> PassesInt(args[0], w))
    && (p.prec == ".*" ==> PassesInt(args[if p.width == "*" then 1 else 0], q))
  }

  /** A scanned specification, its stars settled, asks for what its characters say. */
  lemma AskedFor(p: Parts, args: seq<nat>, w: int, q: int) returns (fs: Spec)
    requires p.WellFormed() && StarsHold(p, args, w, q)
    ensures |args| >= Stars(p.Meaning()) && fs == Starred(p.Meaning(), args) && fs.Valid()
    ensures fs.left == LeftJustified(p.flags, p.width, w) && fs.zeroPad == ('0' in p.flags)
    ensures fs.alt == ('#' in p.flags) && fs.width == Columns(p.width, w)
    ensures fs.prepend == if '+' in p.flags then '+' else if ' ' in p.flags then ' ' else '\0'
    ensures (fs.precGiven != Absent) == PrecisionGiven(p.prec, q) && fs.prec == Precision(p.prec, q)
    ensures fs.conv == ConversionOf(p.conv) && fs.length == ModOf(p.mod) && fs.upper == IsUpper(p.conv)
  {
    if p.width == "*" {
      StarIsPassed(args[0], w);
    }
    if p.prec == ".*" {
      StarIsPassed(args[if p.width == "*" then 1 else 0], q);
    }
    MeaningValid(p, args);
    fs := Starred(p.Meaning(), args);
  }

  // ---------- integers ----------

  /** The letters of integer conversions, and what they mean to the code. */
  lemma ByLetter(c: char)
    requires IsConversion(c) && IntegerLetter(c)
    ensures (ConversionOf(c) == SignedInt <==> c == 'd' || c == 'i') && (ConversionOf(c) == OctalInt <==> c == 'o')
    ensures (ConversionOf(c) == HexInt <==> c == 'x' || c == 'X') && (ConversionOf(c) == UnsignedInt <==> c == 'u')
    ensures Base(ConversionOf(c)) == BaseOf(c) && IsUpper(c) == (c == 'X')
  {
  }

  /** The settled precision and the payload make the digits the standard asks for. */
  lemma DigitsAreStandard(fs: Spec, flags: string, c: char, v: int)
    requires IsConversion(c) && IntegerLetter(c) && fs.conv == ConversionOf(c) && fs.upper == IsUpper(c)
    requires fs.alt == ('#' in flags) && (!SignedLetter(c) ==> v >= 0)
    ensures var payload := Payload(fs, v);
            Repeat('0', PrecPad(Settled(fs, v), |payload|)) + payload
            == IntegerDigits(flags, c, fs.precGiven != Absent, fs.prec, v)
  {
    ByLetter(c);
    var numeral := Numeral(Magnitude(v), BaseOf(c), c == 'X');
    if Blank(fs, v) {
      BlankDigits(fs, flags, c, v);
    } else if c == 'o' && fs.alt {
      NumeralLead(Magnitude(v), 8, false);
      OctalDigits(fs.prec, numeral, v);
    } else {
      NothingBefore(numeral);
    }
  }

  lemma BlankDigits(fs: Spec, flags: string, c: char, v: int)
    requires IsConversion(c) && IntegerLetter(c) && fs.conv == ConversionOf(c) && fs.alt == ('#' in flags)
    requires Blank(fs, v)
    ensures Repeat('0', PrecPad(Settled(fs, v), 0)) + [] == IntegerDigits(flags, c, true, 0, v)
  {
    ByLetter(c);
    assert Repeat('0', 0) == [] && Repeat('0', 1) == "0";
  }

  lemma OctalDigits(prec: nat, numeral: string, v: int)
    requires numeral != [] && (v != 0 ==> numeral[0] != '0') && (v == 0 ==> numeral[0] == '0')
    ensures var digits := Repeat('0', Most(0, prec - |numeral|)) + numeral;
            var payload := (if v != 0 then ['0'] else []) + numeral;
            Repeat('0', Most(0, prec - |payload|)) + payload
            == if digits[0] != '0' then "0" + digits else digits
  {
    var k := Most(0, prec - |numeral|);
    if v != 0 && k > 0 {
      assert Repeat('0', k) == Repeat('0', k - 1) + ['0'];
      assert Repeat('0', k - 1) + (['0'] + numeral) == Repeat('0', k) + numeral;
    } else if v != 0 {
      assert Repeat('0', 0) + numeral == numeral;
      assert Repeat('0', 0) + (['0'] + numeral) == "0" + numeral;
    } else {
      assert [] + numeral == numeral;
    }
  }

  /** The text of an integer conversion is the standard's field. */
  lemma TextIsStandard(fs: Spec, flags: string, width: string, prec: string, c: char, w: int, q: int, v: int)
    requires IsConversion(c) && IntegerLetter(c) && fs.conv == ConversionOf(c) && fs.upper == IsUpper(c) && fs.Valid()
    requires fs.left == LeftJustified(flags, width, w) && fs.zeroPad == ('0' in flags) && fs.alt == ('#' in flags)
    requires fs.width == Columns(width, w) && (fs.precGiven != Absent) == PrecisionGiven(prec, q)
    requires fs.prec == Precision(prec, q)
    requires fs.prepend == if '+' in flags then '+' else if ' ' in flags then ' ' else '\0'
    requires !SignedLetter(c) ==> v >= 0
    ensures Integers.Text(fs, v) == IntegerField(flags, width, prec, c, w, q, v)
  {
    ByLetter(c);
    var t, sign, prefix, payload := Settled(fs, v), Sign(SignOf(fs, v)), Prefix(PrefixOf(fs, v)), Payload(fs, v);
    LaidIsPlaced(t, v == 0, sign, prefix, payload);
    DigitsAreStandard(fs, flags, c, v);
    assert sign == if SignedLetter(c) then SignFor(flags, v < 0) else "";
    assert prefix == IntegerPrefix(flags, c, v);
  }

  function StarCount(p: Parts): nat {
    (if p.width == "*" then 1 else 0) + (if p.prec == ".*" then 1 else 0)
  }

  /** The slots from `start` on hold the stars' arguments and then the value of an integer conversion; with `L`,
      which has no meaning there, no slot is taken and the value is 0. */
  predicate Holds(p: Parts, args: seq<nat>, start: nat, w: int, q: int, v: int) {
    && start <= |args| && StarsHold(p, args[start..], w, q)
    && if p.mod == "L" then v == 0
       else start + StarCount(p) < |args| && Passes(p.conv, p.mod, args[start + StarCount(p)], v)
  }

  lemma ValueIsPassed(p: Parts, args: seq<nat>, start: nat, w: int, q: int, v: int)
    requires p.WellFormed() && IntegerLetter(p.conv) && Holds(p, args, start, w, q, v)
    requires start + Needs(Directive(p)) <= |args|
    ensures Extracted(ConversionOf(p.conv), ModOf(p.mod), ValueSlot(p, args, start)) == v
    ensures !SignedLetter(p.conv) ==> v >= 0
  {
    ByLetter(p.conv);
    if p.mod != "L" {
      ExtractedIsPassed(p.conv, p.mod, args[start + StarCount(p)], v);
    }
  }

  /** What an integer conversion prints is the field the standard asks for, and reading it in the letter's base
      gives back the value that was passed. */
  lemma IntegerPieceIsStandard(piece: string, p: Parts, args: seq<nat>, start: nat, w: int, q: int, v: int)
    requires PrintsFrom(piece, Directive(p), args, start) && p.WellFormed()
    requires IntegerLetter(p.conv) && Holds(p, args, start, w, q, v)
    ensures piece == IntegerField(p.flags, p.width, p.prec, p.conv, w, q, v)
    ensures Read(piece, BaseOf(p.conv)) == v
  {
    var fs, value := PieceOf(piece, p, args, start);
    var asked := AskedFor(p, args[start..], w, q);
    ByLetter(p.conv);
    ValueIsPassed(p, args, start, w, q, v);
    TextIsStandard(fs, p.flags, p.width, p.prec, p.conv, w, q, v);
    TextReads(fs, v);
  }

  /** Slots an item takes: one for each star, and one for the value but for %% and integers with `L`. */
  lemma NeedsByLetter(p: Parts)
    requires p.WellFormed()
    ensures Needs(Directive(p))
         == StarCount(p) + (if p.conv == '%' || (IntegerLetter(p.conv) && p.mod == "L") then 0 else 1)
  {
  }

  /** Wherever it stands in the format, with the slots that follow those of the items before it, an integer
      conversion's piece is the standard's field and reads back as the value passed for it. */
  lemma ArgumentsReadBack(pieces: seq<string>, items: seq<Item>, args: seq<nat>, k: nat, start: nat, w: int, q: int,
                          v: int)
    requires Printed(pieces, items, args) && k < |pieces| <= |items| && start == Slots(items[..k])
    requires items[k].Directive? && items[k].p.WellFormed() && IntegerLetter(items[k].p.conv)
    requires Holds(items[k].p, args, start, w, q, v)
    ensures var p := items[k].p;
            && pieces[k] == IntegerField(p.flags, p.width, p.prec, p.conv, w, q, v)
            && Read(pieces[k], BaseOf(p.conv)) == v
  {
    PrintedAt(pieces, items, args, k);
    IntegerPieceIsStandard(pieces[k], items[k].p, args, start, w, q, v);
  }

  // ---------- characters ----------

  /** %% and %c print their character in a field like a number's; a precision puts zeros before it. */
  lemma CharPieceIs(piece: string, p: Parts, args: seq<nat>, start: nat, w: int, q: int)
    requires PrintsFrom(piece, Directive(p), args, start) && p.WellFormed() && (p.conv == '%' || p.conv == 'c')
    requires start <= |args| && StarsHold(p, args[start..], w, q)
    requires p.conv == 'c' ==> start + StarCount(p) < |args|
    ensures var c := if p.conv == '%' then '%' else (args[start + StarCount(p)] % 0x100) as char;
            piece == Placed(LeftJustified(p.flags, p.width, w), '0' in p.flags, Columns(p.width, w), "", "",
                            Repeat('0', Most(0, Precision(p.prec, q) - 1)) + [c])
  {
    var fs := AskedFor(p, args[start..], w, q);
    var c := if p.conv == '%' then '%' else (args[start + StarCount(p)] % 0x100) as char;
    CharSlot(piece, p, args, start, fs, c);
    CharIsPlaced(fs, c);
  }

  lemma CharSlot(piece: string, p: Parts, args: seq<nat>, start: nat, fs: Spec, c: char)
    requires PrintsFrom(piece, Directive(p), args, start) && p.WellFormed() && (p.conv == '%' || p.conv == 'c')
    requires start <= |args| && |args[start..]| >= Stars(p.Meaning()) && fs == Starred(p.Meaning(), args[start..])
    requires p.conv == 'c' ==> start + StarCount(p) < |args|
    requires c == if p.conv == '%' then '%' else (args[start + StarCount(p)] % 0x100) as char
    ensures piece == CharField(fs, c) && !fs.Float()
  {
    var settled, value := PieceOf(piece, p, args, start);
    CharByLetter(p.conv);
    if p.conv == 'c' {
      SlotOf(p, args, start);
    }
  }

  lemma CharIsPlaced(fs: Spec, c: char)
    requires fs.Valid() && !fs.Float()
    ensures CharField(fs, c)
         == Placed(fs.left, fs.zeroPad, fs.width, "", "", Repeat('0', Most(0, fs.prec - 1)) + [c])
  {
    LaidIsPlaced(fs, false, "", "", [c]);
  }

  lemma CharByLetter(c: char)
    requires IsConversion(c)
    ensures (ConversionOf(c) == Percent <==> c == '%') && (ConversionOf(c) == Character <==> c == 'c')
  {
  }

  // ---------- floats ----------

  predicate FloatLetter(c: char) {
    DecimalLetter(c) || HexLetter(c)
  }

  lemma ByFloatLetter(c: char)
    requires IsConversion(c) && FloatLetter(c)
    ensures (ConversionOf(c) == FloatHex <==> c == 'a' || c == 'A') && IsUpper(c) == CapitalLetter(c)
    ensures ConversionOf(c) == FloatHex || ConversionOf(c) == FloatDec || ConversionOf(c) == FloatSci
            || ConversionOf(c) == FloatShortest
  {
  }

  lemma ReversedThree(s: string, a: char, b: char, c: char)
    requires |s| == 3 && s[0] == a && s[1] == b && s[2] == c
    ensures Reversed(s) == [c, b, a]
  {
  }

  /** A word of three capitals, backwards. */
  lemma WordReversed(s: string, a: char, b: char, c: char, upper: bool)
    requires |s| == 3 && s[0] == a && s[1] == b && s[2] == c
    requires 'A' <= a <= 'Z' && 'A' <= b <= 'Z' && 'A' <= c <= 'Z'
    ensures Reversed(Cased(s, upper)) == if upper then [c, b, a] else [c + 32 as char, b + 32 as char, a + 32 as char]
  {
    ReversedThree(s, a, b, c);
    ReversedThree(Lower(s), a + 32 as char, b + 32 as char, c + 32 as char);
  }

  lemma WordIs(bits: nat, c: char)
    ensures MessageText(bits, CapitalLetter(c)) == Word(bits, c)
  {
    if Finite(bits) {
      WordReversed("RRE", 'R', 'R', 'E', CapitalLetter(c));
    } else if FractionField(bits) != 0 {
      WordReversed("NAN", 'N', 'A', 'N', CapitalLetter(c));
    } else {
      WordReversed("FNI", 'F', 'N', 'I', CapitalLetter(c));
    }
  }

  /** The code's field of a float. */
  lemma FieldIsPlaced(payload: string, fs: Spec, flags: string, width: string, c: char, w: int, bits: nat,
                      message: bool)
    requires IsConversion(c) && FloatLetter(c) && fs.conv == ConversionOf(c) && fs.upper == IsUpper(c) && fs.Valid()
    requires fs.left == LeftJustified(flags, width, w) && fs.zeroPad == ('0' in flags) && fs.width == Columns(width, w)
    requires fs.prepend == if '+' in flags then '+' else if ' ' in flags then ' ' else '\0'
    requires bits < 0x1_0000_0000_0000_0000
    ensures Floats.FloatField(payload, fs, bits, message)
         == Standard.FloatField(flags, width, c, w, bits,
              '0' in flags && !message
              && !(fs.precGiven != Absent && fs.prec == 0 && bits % 0x8000_0000_0000_0000 == 0),
              !Special(bits), payload)
  {
    var t := if message then fs.(zeroPad := false) else fs;
    var sign := Sign(FloatSign(fs, bits));
    var prefix := Prefix(if fs.conv == FloatHex && Finite(bits) then HexPrefix(fs) else '\0');
    FloatSignIs(fs, flags, bits, sign);
    FloatPrefixIs(fs, c, bits, prefix);
    LaidIsPlaced(t, Zero(bits), sign, prefix, payload);
    FloatDigits(t, payload);
  }

  lemma FloatDigits(t: Spec, payload: string)
    requires t.Float()
    ensures Repeat('0', PrecPad(t, |payload|)) + payload == payload
  {
    assert Repeat('0', 0) == [];
  }

  lemma FloatSignIs(fs: Spec, flags: string, bits: nat, sign: string)
    requires bits < 0x1_0000_0000_0000_0000 && sign == Sign(FloatSign(fs, bits))
    requires fs.prepend == if '+' in flags then '+' else if ' ' in flags then ' ' else '\0'
    ensures sign == SignFor(flags, bits >= 0x8000_0000_0000_0000)
  {
    assert Negative(bits) <==> bits >= 0x8000_0000_0000_0000;
  }

  lemma FloatPrefixIs(fs: Spec, c: char, bits: nat, prefix: string)
    requires IsConversion(c) && FloatLetter(c) && fs.conv == ConversionOf(c) && fs.upper == IsUpper(c)
    requires prefix == Prefix(if fs.conv == FloatHex && Finite(bits) then HexPrefix(fs) else '\0')
    ensures prefix == FloatPrefix(c, !Special(bits)) && fs.Float()
  {
    ByFloatLetter(c);
  }

  /** The slots from `start` on hold the stars' arguments and then the double. */
  predicate HoldsDouble(p: Parts, args: seq<nat>, start: nat, w: int, q: int, bits: nat) {
    && start <= |args| && StarsHold(p, args[start..], w, q)
    && start + StarCount(p) < |args| && args[start + StarCount(p)] == bits < 0x1_0000_0000_0000_0000
  }

  /** What stands in the field: a word, a hexadecimal number or a decimal one. A number below 2^32 in magnitude never
      gives way to a word if at most 52 places are asked for. */
  ghost predicate FloatPrinted(payload: string, p: Parts, q: int, bits: nat, message: bool, whole: string,
                               fraction: string)
  {
    var places := Standard.Places(p.prec, p.conv, q);
    if message then
      && payload == Word(bits, p.conv) && !(HexLetter(p.conv) && !Special(bits))
      && (bits % 0x8000_0000_0000_0000 < 0x41F0_0000_0000_0000 ==> places > 52)
    else
      && !Special(bits)
      && if HexLetter(p.conv) then payload == HexText(bits, places, '#' in p.flags, p.conv == 'A')
         else
           && DecimalPayload(payload, p.flags, places, whole, fraction)
           && Value(whole + fraction, 10) == Unrounded(bits, places) + Rounding(bits, places)
  }

  /** A float conversion prints the field of its letter and flags around its number, with exactly the places asked
      for, or around a word. */
  lemma FloatPieceByLetter(piece: string, p: Parts, args: seq<nat>, start: nat, w: int, q: int, bits: nat)
    returns (payload: string, message: bool, whole: string, fraction: string)
    requires PrintsFrom(piece, Directive(p), args, start) && p.WellFormed() && FloatLetter(p.conv)
    requires HoldsDouble(p, args, start, w, q, bits)
    ensures FloatPrinted(payload, p, q, bits, message, whole, fraction)
    ensures piece == Standard.FloatField(p.flags, p.width, p.conv, w, bits,
                       '0' in p.flags && !message && !ZeroUnfilled(p, q, bits), !Special(bits), payload)
  {
    var fs := FloatAsked(piece, p, args, start, w, q, bits);
    payload, message, whole, fraction := FloatByLetter(piece, fs, p, w, q, bits);
  }

  lemma FloatAsked(piece: string, p: Parts, args: seq<nat>, start: nat, w: int, q: int, bits: nat) returns (fs: Spec)
    requires PrintsFrom(piece, Directive(p), args, start) && p.WellFormed() && FloatLetter(p.conv)
    requires HoldsDouble(p, args, start, w, q, bits)
    ensures FloatPrints(piece, fs, bits) && FloatAsks(fs, p, w, q)
  {
    fs := FloatSettled(p, args[start..], w, q);
    FloatSlot(piece, p, args, start, bits, fs);
  }

  lemma FloatSettled(p: Parts, args: seq<nat>, w: int, q: int) returns (fs: Spec)
    requires p.WellFormed() && FloatLetter(p.conv) && StarsHold(p, args, w, q)
    ensures |args| >= Stars(p.Meaning()) && fs == Starred(p.Meaning(), args) && FloatAsks(fs, p, w, q)
  {
    fs := AskedFor(p, args, w, q);
  }

  /** The slot of a value that is not an integer's comes right after the stars'. */
  lemma SlotOf(p: Parts, args: seq<nat>, start: nat)
    requires p.WellFormed() && p.conv != '%' && !IntegerLetter(p.conv) && start + StarCount(p) < |args|
    requires start + Needs(Directive(p)) <= |args|
    ensures ValueSlot(p, args, start) == args[start + StarCount(p)]
  {
    NeedsByLetter(p);
  }

  lemma FloatSlot(piece: string, p: Parts, args: seq<nat>, start: nat, bits: nat, fs: Spec)
    requires PrintsFrom(piece, Directive(p), args, start) && p.WellFormed() && FloatLetter(p.conv)
    requires start + StarCount(p) < |args| && args[start + StarCount(p)] == bits
    requires |args[start..]| >= Stars(p.Meaning()) && fs == Starred(p.Meaning(), args[start..])
    ensures FloatPrints(piece, fs, bits)
  {
    var settled, value := PieceOf(piece, p, args, start);
    ByFloatLetter(p.conv);
    SlotOf(p, args, start);
  }

  /** The specification a float conversion goes by. */
  ghost predicate FloatAsks(fs: Spec, p: Parts, w: int, q: int) {
    && IsConversion(p.conv) && FloatLetter(p.conv) && fs.conv == ConversionOf(p.conv) && fs.upper == IsUpper(p.conv)
    && fs.Valid() && fs.left == LeftJustified(p.flags, p.width, w) && fs.zeroPad == ('0' in p.flags)
    && fs.width == Columns(p.width, w) && fs.alt == ('#' in p.flags)
    && fs.prepend == (if '+' in p.flags then '+' else if ' ' in p.flags then ' ' else '\0')
    && (fs.precGiven != Absent) == PrecisionGiven(p.prec, q) && fs.prec == Precision(p.prec, q)
  }

  lemma FloatByLetter(piece: string, fs: Spec, p: Parts, w: int, q: int, bits: nat)
    returns (payload: string, message: bool, whole: string, fraction: string)
    requires FloatPrints(piece, fs, bits) && FloatAsks(fs, p, w, q) && bits < 0x1_0000_0000_0000_0000
    ensures FloatPrinted(payload, p, q, bits, message, whole, fraction)
    ensures piece == Standard.FloatField(p.flags, p.width, p.conv, w, bits,
                       '0' in p.flags && !message && !ZeroUnfilled(p, q, bits), !Special(bits), payload)
  {
    payload, message, whole, fraction := FloatOf(piece, fs, bits);
    PayloadByLetter(payload, p, fs, q, bits, message, whole, fraction);
    FieldByLetter(payload, fs, p, w, q, bits, message);
  }

  lemma FieldByLetter(payload: string, fs: Spec, p: Parts, w: int, q: int, bits: nat, message: bool)
    requires FloatAsks(fs, p, w, q) && bits < 0x1_0000_0000_0000_0000
    ensures Floats.FloatField(payload, Defaulted(fs), bits, message)
         == Standard.FloatField(p.flags, p.width, p.conv, w, bits,
              '0' in p.flags && !message && !ZeroUnfilled(p, q, bits), !Special(bits), payload)
  {
    ByFloatLetter(p.conv);
    FieldIsPlaced(payload, Defaulted(fs), p.flags, p.width, p.conv, w, bits, message);
  }

  /** A zero with a precision of 0, whose field the code never fills with zeros. */
  predicate ZeroUnfilled(p: Parts, q: int, bits: nat) {
    PrecisionGiven(p.prec, q) && Precision(p.prec, q) == 0 && bits % 0x8000_0000_0000_0000 == 0
  }

  lemma FloatOf(piece: string, fs: Spec, bits: nat)
    returns (payload: string, message: bool, whole: string, fraction: string)
    requires FloatPrints(piece, fs, bits)
    ensures FloatPayload(payload, Defaulted(fs), bits, message, whole, fraction)
    ensures piece == Floats.FloatField(payload, Defaulted(fs), bits, message)
  {
    assert Open(0);
    var text, isMessage, before, after :|
      FloatPayload(text, Defaulted(fs), bits, isMessage, before, after)
      && piece == Floats.FloatField(text, Defaulted(fs), bits, isMessage);
    payload, message, whole, fraction := text, isMessage, before, after;
  }

  lemma PayloadByLetter(payload: string, p: Parts, fs: Spec, q: int, bits: nat, message: bool, whole: string,
                        fraction: string)
    requires IsConversion(p.conv) && FloatLetter(p.conv) && fs.conv == ConversionOf(p.conv)
    requires fs.upper == IsUpper(p.conv) && fs.alt == ('#' in p.flags)
    requires (fs.precGiven != Absent) == PrecisionGiven(p.prec, q) && fs.prec == Precision(p.prec, q)
    requires FloatPayload(payload, Defaulted(fs), bits, message, whole, fraction) && bits < 0x1_0000_0000_0000_0000
    ensures FloatPrinted(payload, p, q, bits, message, whole, fraction)
  {
    ByFloatLetter(p.conv);
    WordIs(bits, p.conv);
    assert Defaulted(fs).prec == Standard.Places(p.prec, p.conv, q);
    SmallFits(bits, Standard.Places(p.prec, p.conv, q), fs.alt);
  }

  /** Below 2^32 in magnitude, by the bits. */
  lemma SmallFits(bits: nat, places: nat, alt: bool)
    requires bits < 0x1_0000_0000_0000_0000
    ensures bits % 0x8000_0000_0000_0000 < 0x41F0_0000_0000_0000 ==>
              !Special(bits) && (places <= 52 ==> places + |Mark(places, alt)| + Zeros(bits) + WholeCount(bits) < 64)
  {
    var b := bits % 0x8000_0000_0000_0000;
    assert bits / 0x10_0000_0000_0000 % 2048 == b / 0x10_0000_0000_0000;
    if b < 0x41F0_0000_0000_0000 && places <= 52 {
      DecimalAccuracy.AlwaysFits(bits, places, alt);
    }
  }

  // ---------- where the code falls short ----------

  /** Zeros and spaces make different fields wherever there is anything to fill. */
  lemma FillShows(width: nat, sign: string, prefix: string, digits: string)
    requires sign == "" || sign == "-" || sign == "+" || sign == " "
    requires prefix == "" || prefix == "0x" || prefix == "0X"
    ensures Placed(false, true, width, sign, prefix, digits) == Placed(false, false, width, sign, prefix, digits)
       <==> width <= |sign| + |prefix| + |digits|
  {
    var pad := Most(0, width - |sign| - |prefix| - |digits|);
    var a := Placed(false, true, width, sign, prefix, digits);
    var b := Placed(false, false, width, sign, prefix, digits);
    assert a == sign + (prefix + (Repeat('0', pad) + digits));
    assert b == Repeat(' ', pad) + (sign + (prefix + digits));
    if pad == 0 {
      assert Repeat('0', 0) == [] && Repeat(' ', 0) == [];
      Edges(sign, prefix, digits);
      assert sign + prefix + [] + digits == sign + prefix + digits;
    } else if sign == " " {
      assert a[1] == (prefix + (Repeat('0', pad) + digits))[0] == '0';
      assert b[1] == ' ';
    } else {
      assert b[0] == ' ' && a[0] != ' ';
    }
  }

  /** The standard fills a number's field with zeros where the flag 0 asks for it. For a float the code does so
      exactly if it is not a zero with a precision of 0, unless nothing is to be filled or filled on the left. */
  lemma ZeroFillExactlyWhen(p: Parts, w: int, q: int, bits: nat, payload: string)
    requires FloatLetter(p.conv)
    ensures Standard.FloatField(p.flags, p.width, p.conv, w, bits, '0' in p.flags && !ZeroUnfilled(p, q, bits),
                                !Special(bits), payload)
         == Standard.FloatField(p.flags, p.width, p.conv, w, bits, '0' in p.flags, !Special(bits), payload)
       <==> !('0' in p.flags && ZeroUnfilled(p, q, bits) && !LeftJustified(p.flags, p.width, w)
              && Columns(p.width, w) > |SignFor(p.flags, bits >= 0x8000_0000_0000_0000)|
                                       + |FloatPrefix(p.conv, !Special(bits))| + |payload|)
  {
    FillShows(Columns(p.width, w), SignFor(p.flags, bits >= 0x8000_0000_0000_0000),
              FloatPrefix(p.conv, !Special(bits)), payload);
  }
}
