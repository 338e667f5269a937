/** The d, i, o, u, x and X conversions of `npf_vpprintf`. */
module Integers {
  import opened Words
  import opened Digits
  import opened Fields

  /** `rest` is what is still to be written of a number of which `val` is left. */
  ghost predicate IsLeft(rest: string, val: nat, first: bool, base: nat, upper: bool)
    requires 2 <= base <= 16
  {
    forall k {:trigger Open(k)} :: Open(k) ==> rest == Left(val, first, base, upper)
  }

  lemma NumeralIsLeft(word: nat, base: nat, upper: bool, numeral: string)
    requires 2 <= base <= 16 && numeral == Numeral(word, base, upper)
    ensures IsLeft(numeral, word, true, base, upper)
  {
  }

  /** One turn of the loop of `npf_utoa_rev`. */
  method PutDigit(buffer: array<char>, n: nat, val: nat, base: nat, upper: bool, ghost rest: string)
    returns (next: nat, ghost rest': string)
    requires 2 <= base <= 16 && n < buffer.Length && (n == 0 || val > 0) && IsLeft(rest, val, n == 0, base, upper)
    modifies buffer
    ensures (next < val || val == next == 0) && (next == 0 ==> rest' == [])
    ensures IsLeft(rest', next, false, base, upper) && (next > 0 ==> |rest'| > 0)
    ensures rest + Reversed(old(buffer[..n])) == rest' + Reversed(buffer[..n + 1])
    ensures forall k :: n < k < buffer.Length ==> buffer[k] == old(buffer[k])
  {
    assert Open(0);
    ghost var before := buffer[..n];
    ghost var q, d := NextDigit(val, n == 0, base, upper, before);
    rest' := Left(q, false, base, upper);
    buffer[n] := Glyph(val % base, upper);
    assert buffer[..n + 1] == before + [Glyph(d, upper)];
    next := val / base;
  }

  /** `npf_utoa_rev`: the digits of `word`, last one first. */
  method Utoa(word: nat, buffer: array<char>, base: nat, upper: bool) returns (n: nat)
    requires word < WORD && 8 <= base <= 16 && buffer.Length >= 22
    modifies buffer
    ensures n == |Numeral(word, base, upper)| <= 22 && buffer[..n] == Reversed(Numeral(word, base, upper))
    ensures forall k :: n <= k < buffer.Length ==> buffer[k] == old(buffer[k])
  {
    NumeralFits(word, base, upper);
    n := PutDigits(word, buffer, base, upper, Numeral(word, base, upper));
  }

  /** The loop of `npf_utoa_rev`. */
  method PutDigits(word: nat, buffer: array<char>, base: nat, upper: bool, ghost numeral: string) returns (n: nat)
    requires 2 <= base <= 16 && 0 < |numeral| <= buffer.Length && numeral == Numeral(word, base, upper)
    modifies buffer
    ensures n == |numeral| && buffer[..n] == Reversed(numeral)
    ensures forall k :: n <= k < buffer.Length ==> buffer[k] == old(buffer[k])
  {
    var val := word;
    n := 0;
    ghost var rest := numeral;
    NumeralIsLeft(word, base, upper, numeral);
    assert Reversed(buffer[..0]) == [] && numeral + [] == numeral;
    while true
      invariant n < |numeral| && (n == 0 || val > 0) && IsLeft(rest, val, n == 0, base, upper) && |rest| > 0
      invariant numeral == rest + Reversed(buffer[..n])
      invariant forall k :: n <= k < buffer.Length ==> buffer[k] == old(buffer[k])
      decreases val
    {
      val, rest := PutDigit(buffer, n, val, base, upper, rest);
      n := n + 1;
      if val == 0 {
        break;
      }
    }
    assert numeral == Reversed(buffer[..n]);
    ReversedTwice(buffer[..n]);
  }

  lemma NumeralFits(word: nat, base: nat, upper: bool)
    requires word < WORD && 8 <= base <= 16
    ensures |Numeral(word, base, upper)| <= 22
  {
    PowerSum(8, 11, 11);
    PowerMonotone(base, 22);
    NumeralShort(word, base, upper, 22);
  }

  lemma {:induction false} PowerMonotone(base: nat, n: nat)
    requires base >= 8
    ensures Power(base, n) >= Power(8, n)
  {
    if n > 0 {
      PowerMonotone(base, n - 1);
      assert base * Power(base, n - 1) >= 8 * Power(8, n - 1);
    }
  }

  function Base(conv: Conversion): nat {
    if conv == OctalInt then 8 else if conv == HexInt then 16 else 10
  }

  /** How many values a slot's part of this length has. */
  function Range(length: LengthMod): nat {
    match length
    case NoMod => 0x1_0000_0000
    case Short => 0x1_0000
    case Char => 0x100
    case _ => WORD
  }

  /** The integer a conversion takes from a 64-bit argument slot: the one in the range of its length, with or
      without a sign, that the slot's low part stands for. `L` has no meaning and gives 0. */
  function Extracted(conv: Conversion, length: LengthMod, slot: nat): (val: int)
    ensures if conv == SignedInt then -(Range(length) / 2) <= val < Range(length) / 2 else 0 <= val < Range(length)
    ensures if length == LongDouble then val == 0 else val % Range(length) == slot % Range(length)
  {
    var low := if length == LongDouble then 0 else slot % Range(length);
    if conv == SignedInt && low >= Range(length) / 2 then low - Range(length) else low
  }

  function Magnitude(val: int): nat {
    if val < 0 then -val else val
  }

  /** Zero under an explicit precision of 0 has no digits. */
  predicate Blank(fs: Spec, val: int) {
    val == 0 && fs.precGiven != Absent && fs.prec == 0
  }

  /** The digits; octal's `#` puts a 0 before them. */
  function Payload(fs: Spec, val: int): string {
    if Blank(fs, val) then []
    else (if fs.conv == OctalInt && fs.alt && val != 0 then ['0'] else [])
         + Numeral(Magnitude(val), Base(fs.conv), fs.upper)
  }

  /** The specification once a precision has cancelled `0` and octal's `#` has made a blank zero one 0. */
  function Settled(fs: Spec, val: int): Spec {
    var fs := if fs.precGiven != Absent then fs.(zeroPad := false) else fs;
    if Blank(fs, val) && fs.conv == OctalInt && fs.alt then fs.(prec := 1) else fs
  }

  function SignOf(fs: Spec, val: int): char {
    if fs.conv != SignedInt then '\0' else if val < 0 then '-' else fs.prepend
  }

  function PrefixOf(fs: Spec, val: int): char {
    if fs.conv == HexInt && fs.alt && val != 0 then (if fs.upper then 'X' else 'x') else '\0'
  }

  /** The whole text of a conversion. */
  function Text(fs: Spec, val: int): string {
    Laid(Settled(fs, val), val == 0, Sign(SignOf(fs, val)), Prefix(PrefixOf(fs, val)), Payload(fs, val))
  }

  /** The digits of a magnitude, last one first. */
  method PutMagnitude(fs: Spec, word: nat, buffer: array<char>) returns (length: nat)
    requires fs.Integer() && word < WORD && buffer.Length >= 64
    modifies buffer
    ensures length <= 22 && Reversed(buffer[..length]) == Numeral(word, Base(fs.conv), fs.upper)
  {
    var base := if fs.conv == OctalInt then 8 else if fs.conv == HexInt then 16 else 10;
    length := Utoa(word, buffer, base, fs.upper);
    ReversedTwice(Numeral(word, base, fs.upper));
  }

  method ConvertSigned(fs: Spec, val: int, buffer: array<char>) returns (length: nat)
    requires fs.conv == SignedInt && buffer.Length >= 64
    requires -0x8000_0000_0000_0000 <= val < 0x8000_0000_0000_0000
    modifies buffer
    ensures length <= 23 && Reversed(buffer[..length]) == Payload(fs, val)
  {
    if val == 0 && fs.precGiven != Absent && fs.prec == 0 {
      return 0;
    }
    var uval: int := Wrap(val);
    if val < 0 {
      Negated(val);
      uval := Wrap(0 - uval);
    }
    length := PutMagnitude(fs, uval, buffer);
    NothingBefore(Reversed(buffer[..length]));
  }

  lemma NothingBefore(s: string)
    ensures [] + s == s
  {
  }

  method ConvertUnsigned(fs: Spec, val: nat, buffer: array<char>) returns (length: nat)
    requires fs.Integer() && fs.conv != SignedInt && buffer.Length >= 64 && val < WORD
    modifies buffer
    ensures length <= 23 && Reversed(buffer[..length]) == Payload(fs, val)
  {
    length := 0;
    if val == 0 && fs.precGiven != Absent && fs.prec == 0 {
    } else {
      length := PutMagnitude(fs, val, buffer);
    }
    NothingBefore(Reversed(buffer[..length]));
    if val != 0 && fs.alt && fs.conv == OctalInt {
      ghost var digits := buffer[..length];
      buffer[length] := '0';
      length := length + 1;
      assert buffer[..length] == digits + ['0'];
      ReversedJoin(digits, ['0']);
    }
  }

  lemma Negated(val: int)
    requires -0x8000_0000_0000_0000 <= val < 0
    ensures Wrap(0 - Wrap(val)) == -val
  {
    WrapMultiple(val, 1);
  }

  /** One integer conversion of `npf_vpprintf`: exactly its text is printed and counted. */
  method PutInteger(out: Output, spec: Spec, slot: nat)
    requires spec.Integer() && slot < WORD
    modifies out
    ensures out.text == old(out.text) + Text(spec, Extracted(spec.conv, spec.length, slot))
    ensures out.n == old(out.n) + |Text(spec, Extracted(spec.conv, spec.length, slot))|
  {
    var fs := spec;
    if fs.precGiven != Absent {
      fs := fs.(zeroPad := false);
    }
    var buffer := new char[64](_ => '\0');
    var val := Extracted(fs.conv, fs.length, slot);
    var sign := '\0';
    var prefix := '\0';
    if fs.conv == SignedInt {
      sign := if val < 0 then '-' else fs.prepend;
    }
    var count;
    if fs.conv == SignedInt {
      count := ConvertSigned(fs, val, buffer);
    } else {
      count := ConvertUnsigned(fs, val, buffer);
    }
    if fs.conv != SignedInt {
      if val == 0 && fs.precGiven != Absent && fs.prec == 0 && fs.conv == OctalInt && fs.alt {
        fs := fs.(prec := 1);
      }
      if val != 0 && fs.alt && fs.conv == HexInt {
        prefix := if fs.upper then 'X' else 'x';
      }
    }
    assert fs == Settled(spec, val);
    out.Emit(fs, val == 0, sign, prefix, buffer, count);
  }

  // ---------- what the text promises ----------

  /** Digits printed without padding to the precision. */
  function DigitCount(fs: Spec, val: int): nat {
    |Payload(fs, val)|
  }

  /** The field is as wide as asked for, or as its sign, prefix and digits need. */
  lemma TextLength(fs: Spec, val: int)
    requires fs.Valid() && fs.Integer()
    ensures |Text(fs, val)|
         == Most(fs.width, |Sign(SignOf(fs, val))| + |Prefix(PrefixOf(fs, val))|
                           + Most(Settled(fs, val).prec, DigitCount(fs, val)))
  {
  }

  function Skip(text: string, c: char): (rest: string)
    ensures rest != [] ==> rest[0] != c
  {
    if text != [] && text[0] == c then Skip(text[1..], c) else text
  }

  /** What `strtoull` reads: in base 16 a prefix may stand before the digits. */
  function ReadUnsigned(text: string, base: nat): nat {
    var digits := if base == 16 && |text| >= 2 && text[0] == '0' && (text[1] == 'x' || text[1] == 'X')
                  then text[2..] else text;
    Value(DigitRun(digits, base), base)
  }

  /** What `strtoll` reads: spaces and a sign may stand before the number. */
  function Read(text: string, base: nat): int {
    var rest := Skip(text, ' ');
    if rest != [] && rest[0] == '-' then 0 - ReadUnsigned(rest[1..], base)
    else if rest != [] && rest[0] == '+' then ReadUnsigned(rest[1..], base)
    else ReadUnsigned(rest, base)
  }

  lemma {:induction false} SkipRun(n: nat, c: char, t: string)
    ensures Skip(Repeat(c, n) + t, c) == Skip(t, c)
  {
    if n == 0 {
      assert Repeat(c, 0) + t == t;
    } else {
      assert (Repeat(c, n) + t)[1..] == Repeat(c, n - 1) + t;
      SkipRun(n - 1, c, t);
    }
  }

  /** Digits, and no prefix that would hide them, whatever spaces follow. */
  lemma ReadPlain(digits: string, after: nat, base: nat)
    requires base <= 16 && AllDigits(digits, base)
    ensures ReadUnsigned(digits + Repeat(' ', after), base) == Value(digits, base)
  {
    var text := digits + Repeat(' ', after);
    DigitRunIs(digits, Repeat(' ', after), base);
    if |text| >= 2 {
      assert text[1] == if |digits| >= 2 then digits[1] else ' ';
      assert Worth('x') == Worth('X') == Worth(' ') == 16;
    }
  }

  lemma ReadPrefixed(prefix: string, digits: string, after: nat)
    requires AllDigits(digits, 16) && (prefix == "0x" || prefix == "0X")
    ensures ReadUnsigned(prefix + (digits + Repeat(' ', after)), 16) == Value(digits, 16)
  {
    DigitRunIs(digits, Repeat(' ', after), 16);
    UnprefixedIs(prefix, digits + Repeat(' ', after));
  }

  lemma UnprefixedIs(prefix: string, rest: string)
    requires prefix == "0x" || prefix == "0X"
    ensures ReadUnsigned(prefix + rest, 16) == Value(DigitRun(rest, 16), 16)
  {
    var text := prefix + rest;
    assert |text| >= 2 && text[0] == '0' && text[1] == prefix[1] && text[2..] == rest;
  }

  /** What a field holds between its sign and its end. */
  function Body(prefix: string, digits: string, after: nat): string {
    prefix + (digits + Repeat(' ', after))
  }

  predicate GoodPrefix(prefix: string, base: nat) {
    prefix == [] || (base == 16 && (prefix == "0x" || prefix == "0X"))
  }

  /** A prefix and digits are read back whatever spaces follow. */
  lemma ReadDigits(prefix: string, digits: string, after: nat, base: nat)
    requires base <= 16 && AllDigits(digits, base) && GoodPrefix(prefix, base)
    ensures ReadUnsigned(Body(prefix, digits, after), base) == Value(digits, base)
  {
    if prefix == [] {
      ReadPlain(digits, after, base);
      assert Body(prefix, digits, after) == digits + Repeat(' ', after);
    } else {
      ReadPrefixed(prefix, digits, after);
    }
  }

  /** The body does not start with a sign, nor with a space unless it is all spaces. */
  lemma BodyStarts(prefix: string, digits: string, after: nat, base: nat)
    requires base <= 16 && AllDigits(digits, base) && GoodPrefix(prefix, base)
    ensures var body := Body(prefix, digits, after);
            body == [] || (body[0] != '-' && body[0] != '+'
                           && (body[0] == ' ' ==> digits == [] && body == Repeat(' ', after) + []))
  {
    var body := Body(prefix, digits, after);
    assert Worth('-') == Worth('+') == Worth(' ') == 16;
    if prefix == [] {
      assert body == digits + Repeat(' ', after);
      assert digits != [] ==> body[0] == digits[0];
    } else {
      assert body[0] == prefix[0];
    }
  }

  /** A sign before a body is read; a body of spaces is skipped. */
  lemma ReadSigned(sign: string, body: string, base: nat, after: nat)
    requires sign == [] || sign == "-" || sign == "+" || sign == " "
    requires body == [] || (body[0] != '-' && body[0] != '+' && (body[0] == ' ' ==> body == Repeat(' ', after) + []))
    ensures Read(sign + body, base) == if sign == "-" then 0 - ReadUnsigned(body, base)
                                       else if sign != "+" && body != [] && body[0] == ' ' then 0
                                       else ReadUnsigned(body, base)
  {
    if sign == "-" || sign == "+" {
      assert (sign + body)[1..] == body;
      assert Skip(sign + body, ' ') == sign + body;
    } else {
      ReadBody(body, base, after);
      if sign == " " {
        assert (sign + body)[1..] == body;
        assert Skip(sign + body, ' ') == Skip(body, ' ');
      } else {
        assert sign + body == body;
      }
    }
  }

  lemma ReadBody(body: string, base: nat, after: nat)
    requires body == [] || (body[0] != '-' && body[0] != '+' && (body[0] == ' ' ==> body == Repeat(' ', after) + []))
    ensures Read(body, base) == if body != [] && body[0] == ' ' then 0 else ReadUnsigned(body, base)
  {
    SkipRun(after, ' ', []);
  }

  lemma SkipSpaces(before: nat, rest: string, base: nat)
    ensures Read(Repeat(' ', before) + rest, base) == Read(rest, base)
  {
    SkipRun(before, ' ', rest);
  }

  lemma ReadField(before: nat, sign: string, prefix: string, digits: string, after: nat, base: nat)
    requires base <= 16 && AllDigits(digits, base) && GoodPrefix(prefix, base)
    requires sign == [] || sign == "-" || sign == "+" || sign == " "
    ensures Read(Repeat(' ', before) + (sign + Body(prefix, digits, after)), base)
         == if sign == "-" then 0 - Value(digits, base) else Value(digits, base)
  {
    var body := Body(prefix, digits, after);
    ReadDigits(prefix, digits, after, base);
    BodyStarts(prefix, digits, after, base);
    ReadSigned(sign, body, base, after);
    SkipSpaces(before, sign + body, base);
  }

  /** Any field laid out around good digits is read back. */
  lemma LaidReads(fs: Spec, zero: bool, sign: string, prefix: string, payload: string, base: nat)
    requires base <= 16 && AllDigits(payload, base) && GoodPrefix(prefix, base) && base > 0
    requires sign == [] || sign == "-" || sign == "+" || sign == " "
    ensures Read(Laid(fs, zero, sign, prefix, payload), base)
         == if sign == "-" then 0 - Value(payload, base) else Value(payload, base)
  {
    var before, zeros, after := LaidIsField(fs, zero, sign, prefix, payload);
    LeadingZeros(zeros, payload, base);
    ReadField(before, sign, prefix, Repeat('0', zeros) + payload, after, base);
    FieldGroups(before, sign, prefix, zeros, payload, after);
  }

  /** Reading a conversion's text in its base gives back the value, the least 64-bit integer included. */
  lemma TextReads(fs: Spec, val: int)
    requires fs.Valid() && fs.Integer() && (fs.conv != SignedInt ==> val >= 0)
    ensures Read(Text(fs, val), Base(fs.conv)) == val
  {
    var sign, prefix := Sign(SignOf(fs, val)), Prefix(PrefixOf(fs, val));
    PayloadReads(fs, val, Payload(fs, val), sign, prefix);
  }

  lemma PayloadReads(fs: Spec, val: int, payload: string, sign: string, prefix: string)
    requires fs.Valid() && fs.Integer() && (fs.conv != SignedInt ==> val >= 0) && payload == Payload(fs, val)
    requires sign == Sign(SignOf(fs, val)) && prefix == Prefix(PrefixOf(fs, val))
    ensures Read(Laid(Settled(fs, val), val == 0, sign, prefix, payload), Base(fs.conv)) == val
  {
    PayloadValue(fs, val);
    LaidReads(Settled(fs, val), val == 0, sign, prefix, payload, Base(fs.conv));
  }

  lemma FieldGroups(before: nat, sign: string, prefix: string, zeros: nat, payload: string, after: nat)
    ensures Field(before, sign, prefix, zeros, payload, after)
         == Repeat(' ', before) + (sign + Body(prefix, Repeat('0', zeros) + payload, after))
  {
  }

  lemma LaidIsField(fs: Spec, zero: bool, sign: string, prefix: string, payload: string)
    returns (before: nat, zeros: nat, after: nat)
    ensures Laid(fs, zero, sign, prefix, payload) == Field(before, sign, prefix, zeros, payload, after)
  {
    var precPad, pad := PrecPad(fs, |payload|), FieldPad(fs, sign, prefix, payload);
    if fs.widthGiven == Absent {
      before, zeros, after := 0, precPad, 0;
    } else if fs.left {
      before, zeros, after := 0, precPad, pad;
    } else if ZeroFilled(fs, zero) {
      before, zeros, after := 0, pad + precPad, 0;
    } else {
      before, zeros, after := pad, precPad, 0;
    }
  }

  lemma OctalZero(numeral: string, base: nat)
    requires AllDigits(numeral, base) && base > 0
    ensures AllDigits(['0'] + numeral, base) && Value(['0'] + numeral, base) == Value(numeral, base)
  {
    assert Repeat('0', 1) == ['0'];
    LeadingZeros(1, numeral, base);
  }

  lemma PayloadValue(fs: Spec, val: int)
    ensures AllDigits(Payload(fs, val), Base(fs.conv))
    ensures Value(Payload(fs, val), Base(fs.conv)) == Magnitude(val)
  {
    var base := Base(fs.conv);
    var numeral := Numeral(Magnitude(val), base, fs.upper);
    NumeralValue(Magnitude(val), base, fs.upper);
    OctalZero(numeral, base);
    assert [] + numeral == numeral;
  }

  /** A payload has no leading zero but the one `#` asks for in octal, and zero's own. */
  lemma NoLeadingZero(fs: Spec, val: int)
    requires val != 0 && !(fs.conv == OctalInt && fs.alt)
    ensures Payload(fs, val) != [] && Payload(fs, val)[0] != '0'
  {
    var numeral := Numeral(Magnitude(val), Base(fs.conv), fs.upper);
    NumeralLead(Magnitude(val), Base(fs.conv), fs.upper);
    assert [] + numeral == numeral;
  }
}
