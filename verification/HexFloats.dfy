/** The `%a` conversion: a double as a hexadecimal fraction and a power of two. */
module HexFloats {
  import opened Words
  import opened Digits
  import opened Fields
  import opened Integers
  import opened Doubles

  const FRACTION_DIGITS: nat := 13

  /** The exponent printed: 0 for zero. */
  function PrintedExponent(bits: nat): int {
    if Mantissa(bits) == 0 then 0 else Exponent(bits)
  }

  function Shown(prec: nat): nat {
    if prec < FRACTION_DIGITS then prec else FRACTION_DIGITS
  }

  /** `bin` with its last `k` hexadecimal digits rounded away, as the loop does it: by the last dropped digit. */
  function Rounded(bin: nat, k: nat): nat {
    if k == 0 then bin else if k == 1 then bin / 16 + bin / 8 % 2 else Rounded(bin / 16, k - 1)
  }

  /** It is the nearest multiple of 16^k, the greater of two equally near. */
  lemma {:induction false} RoundedNearest(bin: nat, k: nat)
    ensures 2 * (Rounded(bin, k) * Power(16, k) - bin) <= Power(16, k)
    ensures 2 * (bin - Rounded(bin, k) * Power(16, k)) < Power(16, k)
    ensures k == 0 ==> Rounded(bin, k) == bin
  {
    if k == 1 {
      assert Power(16, 1) == 16 * Power(16, 0);
    } else if k > 1 {
      var p, r := Power(16, k - 1), Rounded(bin / 16, k - 1);
      assert p == 16 * Power(16, k - 2);
      RoundedNearest(bin / 16, k - 1);
      Widened(bin, r, p);
    }
  }

  lemma Widened(bin: nat, r: nat, p: nat)
    requires 2 * (r * p - bin / 16) <= p && 2 * (bin / 16 - r * p) < p && p % 2 == 0
    ensures 2 * (r * (16 * p) - bin) <= 16 * p && 2 * (bin - r * (16 * p)) < 16 * p
  {
    Sixteenfold(r, p);
    WidenedBy(bin, r * p, p);
  }

  lemma Sixteenfold(r: nat, p: nat)
    ensures r * (16 * p) == 16 * (r * p)
  {
  }

  lemma WidenedBy(bin: nat, a: nat, p: nat)
    requires 2 * (a - bin / 16) <= p && 2 * (bin / 16 - a) < p && p % 2 == 0
    ensures 2 * (16 * a - bin) <= 16 * p && 2 * (bin - 16 * a) < 16 * p
  {
  }

  lemma AtMostTwice(r: nat, p: nat, q: nat, m: nat)
    requires 2 * (r * p - m) <= p && m < 2 * (q * p)
    ensures r <= 2 * q
  {
    MulMono(p, 2 * q + 1, r);
    assert p * (2 * q + 1) == 2 * (q * p) + p;
  }

  lemma UnitsAtMostTwo(r: nat, q: nat, h: nat, rest: nat)
    requires r == rest + q * h && r <= 2 * q && q > 0
    ensures h <= 2
  {
    MulMono(q, 3, h);
  }

  lemma FractionUnits(prec: nat)
    requires prec <= FRACTION_DIGITS
    ensures Power(16, prec) * Power(16, FRACTION_DIGITS - prec) == HIDDEN
  {
    PowerSum(16, prec, FRACTION_DIGITS - prec);
    PowerSum(16, 4, 9);
    PowerSum(16, 4, 5);
  }

  /** A rounded mantissa is at most 2, counted in units of its leading digit. */
  lemma LeadingDigit(m: nat, prec: nat)
    requires m < 2 * HIDDEN && prec <= FRACTION_DIGITS
    ensures High(Rounded(m, FRACTION_DIGITS - prec), prec) <= 2
  {
    var k := FRACTION_DIGITS - prec;
    var r, q := Rounded(m, k), Power(16, prec);
    RoundedNearest(m, k);
    FractionUnits(prec);
    AtMostTwice(r, Power(16, k), q, m);
    FixedValue(r, prec, false);
    PowerPositive(16, prec);
    UnitsAtMostTwo(r, q, High(r, prec), Value(Fixed(r, prec, false), 16));
  }

  function Point(prec: nat, alt: bool): string {
    if prec > 0 || alt then ['.'] else []
  }

  /** The letter p, the exponent's sign and its decimal digits. */
  function PowerText(e: int, upper: bool): string {
    [if upper then 'P' else 'p', if e < 0 then '-' else '+'] + Numeral(Magnitude(e), 10, true)
  }

  /** Mantissa and exponent in text. */
  function NumberText(m: nat, e: int, prec: nat, alt: bool, upper: bool): string {
    var r := Rounded(m, FRACTION_DIGITS - Shown(prec));
    [Glyph(High(r, Shown(prec)) % 16, upper)] + Point(Shown(prec), alt) + Fixed(r, Shown(prec), upper)
    + PowerText(e, upper)
  }

  /** The text of a finite double, without sign and 0x. */
  function HexText(bits: nat, prec: nat, alt: bool, upper: bool): string {
    NumberText(Mantissa(bits), PrintedExponent(bits), prec, alt, upper)
  }

  /** The loop that discards the low digits. */
  method Discard(mantissa: nat, count: nat) returns (bin: nat)
    ensures bin == Rounded(mantissa, count)
  {
    bin := mantissa;
    var carry := 0;
    var i := count;
    while i > 0
      invariant i <= count && (count == 0 ==> carry == 0)
      invariant Rounded(mantissa, count) == if i > 0 then Rounded(bin, i) else bin + carry
    {
      carry := bin / 8 % 2;
      bin := bin / 16;
      i := i - 1;
    }
    bin := bin + carry;
  }

  /** The fraction digits, last one first, from `end` on. */
  method PutFraction(mantissa: nat, prec: nat, upper: bool, buffer: array<char>, start: nat)
    returns (bin: nat, end: nat)
    requires start + prec <= buffer.Length
    modifies buffer
    ensures end == start + prec && bin == High(mantissa, prec)
    ensures buffer[start..end] == Reversed(Fixed(mantissa, prec, upper))
    ensures forall k :: 0 <= k < start || end <= k < buffer.Length ==> buffer[k] == old(buffer[k])
  {
    bin := mantissa;
    end := start;
    for i := 0 to prec
      invariant end == start + i && High(mantissa, prec) == High(bin, prec - i)
      invariant Fixed(mantissa, prec, upper) == Fixed(bin, prec - i, upper) + Reversed(buffer[start..end])
      invariant forall k :: 0 <= k < start || end <= k < buffer.Length ==> buffer[k] == old(buffer[k])
    {
      ghost var before := buffer[start..end];
      var d := bin % 16;
      buffer[end] := Glyph(d, upper);
      end := end + 1;
      assert buffer[start..end] == before + [Glyph(d, upper)];
      assert Reversed(before + [Glyph(d, upper)]) == [Glyph(d, upper)] + Reversed(before);
      ghost var front := Fixed(bin / 16, prec - i - 1, upper);
      assert front + [Glyph(d, upper)] + Reversed(before) == front + ([Glyph(d, upper)] + Reversed(before));
      bin := bin / 16;
    }
    ReversedTwice(buffer[start..end]);
    assert Fixed(mantissa, prec, upper) == [] + Reversed(buffer[start..end]) == Reversed(buffer[start..end]);
  }

  /** The exponent, its sign and the letter p, backwards. */
  method PutExponent(exp: int, upper: bool, buffer: array<char>) returns (end: nat)
    requires -1022 <= exp <= 1023 && buffer.Length >= 64
    modifies buffer
    ensures end <= 24
    ensures Reversed(buffer[..end]) == PowerText(exp, upper)
  {
    var ae := if exp < 0 then -exp else exp;
    end := Utoa(ae, buffer, 10, true);
    ghost var digits := buffer[..end];
    buffer[end] := if exp < 0 then '-' else '+';
    end := end + 1;
    buffer[end] := if upper then 'P' else 'p';
    end := end + 1;
    ghost var marks := [if exp < 0 then '-' else '+', if upper then 'P' else 'p'];
    assert buffer[..end] == digits + marks;
    ReversedJoin(digits, marks);
    ReversedTwice(Numeral(ae, 10, true));
    assert Reversed(marks) == [if upper then 'P' else 'p', if exp < 0 then '-' else '+'];
  }

  /** The last half of `npf_atoa_rev`: everything from the rounding on. */
  method PutNumber(m: nat, exp: int, fs: Spec, buffer: array<char>) returns (length: nat)
    requires m < 2 * HIDDEN && -1022 <= exp <= 1023 && buffer.Length >= 64
    modifies buffer
    ensures 0 < length <= 40
    ensures Reversed(buffer[..length]) == NumberText(m, exp, fs.prec, fs.alt, fs.upper)
  {
    var prec := if fs.prec < 13 then fs.prec else 13;
    LeadingDigit(m, prec);
    var bin := Discard(m, 13 - prec);
    length := PutExponent(exp, fs.upper, buffer);
    length := PutMantissa(bin, prec, fs, buffer, length);
  }

  /** The fraction digits, the point and the leading digit. */
  method PutMantissa(m: nat, prec: nat, fs: Spec, buffer: array<char>, start: nat) returns (length: nat)
    requires prec <= 13 && start <= 24 && buffer.Length >= 64 && High(m, prec) <= 2
    modifies buffer
    ensures 0 < length <= start + 15
    ensures Reversed(buffer[..length]) == [Glyph(High(m, prec) % 16, fs.upper)] + Point(prec, fs.alt)
                                          + Fixed(m, prec, fs.upper) + Reversed(old(buffer[..start]))
  {
    ghost var tail, fraction := buffer[..start], Fixed(m, prec, fs.upper);
    var bin;
    bin, length := PutFraction(m, prec, fs.upper, buffer, start);
    assert buffer[..length] == tail + Reversed(fraction);
    if prec > 0 || fs.alt {
      buffer[length] := '.';
      length := length + 1;
    }
    assert buffer[..length] == tail + Reversed(fraction) + Point(prec, fs.alt);
    buffer[length] := '0' + (bin % 16) as char;
    length := length + 1;
    assert buffer[..length] == tail + Reversed(fraction) + Point(prec, fs.alt) + [Glyph(bin % 16, fs.upper)];
    Turned(tail, fraction, Point(prec, fs.alt), Glyph(bin % 16, fs.upper));
  }

  /** `npf_atoa_rev`: 0 for an infinity or a NaN, otherwise the text's length, the text standing backwards. */
  method Atoa(buffer: array<char>, fs: Spec, bits: nat) returns (length: nat)
    requires buffer.Length >= 64
    modifies buffer
    ensures length <= 40 && (length == 0 <==> !Finite(bits))
    ensures Finite(bits) ==> Reversed(buffer[..length]) == HexText(bits, fs.prec, fs.alt, fs.upper)
  {
    var exp: int := bits / HIDDEN % 2048;
    var bin := bits % HIDDEN;
    if exp == 2047 {
      return 0;
    }
    if exp != 0 {
      bin := bin + HIDDEN;
      exp := exp - BIAS;
    } else if bin != 0 {
      exp := 1 - BIAS;
    }
    length := PutNumber(bin, exp, fs, buffer);
  }

  lemma Turned(tail: string, fraction: string, point: string, lead: char)
    requires |point| <= 1
    ensures Reversed(tail + Reversed(fraction) + point + [lead]) == [lead] + point + fraction + Reversed(tail)
  {
    ReversedTwice(fraction);
  }

  // ---------- reading the text back ----------

  datatype HexNumber = HexNumber(significand: nat, exponent: int)

  /** The digits before and after the point, and what follows them. */
  function SplitPoint(text: string): (parts: (string, string, string)) {
    var whole := DigitRun(text, 16);
    var rest := text[|whole|..];
    if rest != [] && rest[0] == '.' then
      var fraction := DigitRun(rest[1..], 16);
      (whole, fraction, rest[1 + |fraction|..])
    else (whole, [], rest)
  }

  /** What `strtod` reads: the hexadecimal digits as one integer, the point and the power in the exponent. */
  function ReadHex(text: string): HexNumber {
    var (whole, fraction, rest) := SplitPoint(text);
    var power := if rest != [] && (rest[0] == 'p' || rest[0] == 'P') then Read(rest[1..], 10) else 0;
    HexNumber(Value(whole + fraction, 16), power - 4 * |fraction|)
  }

  lemma MarkedRead(text: string, negative: bool, digits: string)
    requires AllDigits(digits, 10) && text == (if negative then "-" else "+") + digits
    ensures Read(text, 10) == if negative then 0 - Value(digits, 10) else Value(digits, 10)
  {
    var sign := if negative then "-" else "+";
    ReadField(0, sign, [], digits, 0, 10);
    assert Repeat(' ', 0) + (sign + Body([], digits, 0)) == text;
  }

  lemma ExponentRead(e: int, text: string, digits: string)
    requires text == (if e < 0 then "-" else "+") + digits
    requires AllDigits(digits, 10) && Value(digits, 10) == Magnitude(e)
    ensures Read(text, 10) == e
  {
    MarkedRead(text, e < 0, digits);
  }

  lemma PowerTail(e: int, upper: bool, digits: string)
    requires digits == Numeral(Magnitude(e), 10, true)
    ensures PowerText(e, upper)[1..] == (if e < 0 then "-" else "+") + digits
  {
  }

  lemma PowerDigits(e: int, digits: string)
    requires digits == Numeral(Magnitude(e), 10, true)
    ensures AllDigits(digits, 10) && Value(digits, 10) == Magnitude(e)
  {
    NumeralValue(Magnitude(e), 10, true);
  }

  lemma PowerRead(e: int, upper: bool, text: string)
    requires text == PowerText(e, upper)[1..]
    ensures Read(text, 10) == e
  {
    var digits := Numeral(Magnitude(e), 10, true);
    PowerTail(e, upper, digits);
    PowerDigits(e, digits);
    ExponentRead(e, text, digits);
  }

  lemma SplitIs(lead: char, point: string, fraction: string, rest: string)
    requires Worth(lead) < 16 && AllDigits(fraction, 16) && rest != [] && Worth(rest[0]) >= 16 && rest[0] != '.'
    requires point == "." || (point == [] && fraction == [])
    ensures SplitPoint([lead] + point + fraction + rest) == ([lead], fraction, rest)
  {
    var text := [lead] + point + fraction + rest;
    if point == [] {
      assert text == [lead] + rest;
      DigitRunIs([lead], rest, 16);
    } else {
      assert text == [lead] + (point + fraction + rest);
      DigitRunIs([lead], point + fraction + rest, 16);
      assert text[1..][1..] == fraction + rest;
      DigitRunIs(fraction, rest, 16);
      assert text[1..][1 + |fraction|..] == rest;
    }
  }

  lemma DigitsJoin(r: nat, shown: nat, upper: bool)
    requires High(r, shown) <= 2
    ensures Value([Glyph(High(r, shown) % 16, upper)] + Fixed(r, shown, upper), 16) == r
  {
    FixedValue(r, shown, upper);
    OneDigit(High(r, shown), upper);
    LeadJoin(High(r, shown), [Glyph(High(r, shown) % 16, upper)], Fixed(r, shown, upper), Power(16, shown));
  }

  lemma OneDigit(d: nat, upper: bool)
    requires d < 16
    ensures Value([Glyph(d % 16, upper)], 16) == d
  {
    assert [Glyph(d % 16, upper)][..0] == [];
  }

  lemma LeadJoin(d: nat, lead: string, fraction: string, p: nat)
    requires Value(lead, 16) == d && p == Power(16, |fraction|)
    ensures Value(lead + fraction, 16) == Value(fraction, 16) + p * d
  {
    ValueJoin(lead, fraction, 16);
  }

  /** The text denotes the rounded mantissa, scaled by the exponent and the digits shown. */
  lemma HexTextReads(bits: nat, prec: nat, alt: bool, upper: bool)
    ensures ReadHex(HexText(bits, prec, alt, upper))
         == HexNumber(Rounded(Mantissa(bits), FRACTION_DIGITS - Shown(prec)), PrintedExponent(bits) - 4 * Shown(prec))
  {
    var shown := Shown(prec);
    LeadingDigit(Mantissa(bits), shown);
    PartsRead(Rounded(Mantissa(bits), FRACTION_DIGITS - shown), PrintedExponent(bits), shown, alt, upper);
  }

  lemma PartsRead(r: nat, e: int, shown: nat, alt: bool, upper: bool)
    requires High(r, shown) <= 2
    ensures ReadHex([Glyph(High(r, shown) % 16, upper)] + Point(shown, alt) + Fixed(r, shown, upper)
                    + PowerText(e, upper)) == HexNumber(r, e - 4 * shown)
  {
    var lead, fraction, power := Glyph(High(r, shown) % 16, upper), Fixed(r, shown, upper), PowerText(e, upper);
    FixedValue(r, shown, upper);
    SplitIs(lead, Point(shown, alt), fraction, power);
    DigitsJoin(r, shown, upper);
    PowerRead(e, upper, power[1..]);
    ReadSplit([lead] + Point(shown, alt) + fraction + power, [lead], fraction, power);
  }

  lemma ReadSplit(text: string, whole: string, fraction: string, power: string)
    requires SplitPoint(text) == (whole, fraction, power) && power != [] && (power[0] == 'p' || power[0] == 'P')
    ensures ReadHex(text) == HexNumber(Value(whole + fraction, 16), Read(power[1..], 10) - 4 * |fraction|)
  {
  }

  /** What a text of significand `s` and `shown` fraction digits is worth in units of 2^(exponent - 52), the
      unit in which a double is its mantissa. */
  function InUnits(s: nat, shown: nat): nat
    requires shown <= FRACTION_DIGITS
  {
    s * Power(16, FRACTION_DIGITS - shown)
  }

  /** `%a` is exact from 13 digits on; with fewer it is off by at most half a unit of the last digit, and
      rounds a tie up. */
  lemma HexFloatAccurate(bits: nat, prec: nat, alt: bool, upper: bool)
    ensures var read, m, unit := ReadHex(HexText(bits, prec, alt, upper)), Mantissa(bits),
                Power(16, FRACTION_DIGITS - Shown(prec));
            && read.exponent + 4 * Shown(prec) == PrintedExponent(bits)
            && (m > 0 ==> PrintedExponent(bits) == Exponent(bits))
            && (prec >= FRACTION_DIGITS ==> InUnits(read.significand, Shown(prec)) == m)
            && 2 * (InUnits(read.significand, Shown(prec)) - m) <= unit
            && 2 * (m - InUnits(read.significand, Shown(prec))) < unit
  {
    HexTextReads(bits, prec, alt, upper);
    RoundedNearest(Mantissa(bits), FRACTION_DIGITS - Shown(prec));
  }

  // ---------- the text, character by character ----------

  /** A digit of the case that is asked for. */
  predicate CasedDigit(c: char, upper: bool) {
    '0' <= c <= '9' || (if upper then 'A' <= c <= 'F' else 'a' <= c <= 'f')
  }

  lemma {:induction false} FixedCased(v: nat, n: nat, upper: bool)
    ensures forall i :: 0 <= i < n ==> CasedDigit(Fixed(v, n, upper)[i], upper)
  {
    if n > 0 {
      FixedCased(v / 16, n - 1, upper);
    }
  }

  /** A leading digit, a point where digits follow or # asks for it, at most 13 digits after it, the letter p and
      the exponent with its sign, without leading zeros; zero has the exponent 0. */
  ghost predicate HexShape(text: string, prec: nat, alt: bool, upper: bool, lead: char, fraction: string, e: int,
                           digits: string)
  {
    && text == [lead] + (if prec > 0 || alt then "." else "") + fraction
               + ((if upper then "P" else "p") + (if e < 0 then "-" else "+") + digits)
    && '0' <= lead <= '2' && |fraction| == (if prec < 13 then prec else 13)
    && (forall i :: 0 <= i < |fraction| ==> CasedDigit(fraction[i], upper))
    && AllDigits(digits, 10) && Value(digits, 10) == (if e < 0 then -e else e)
    && digits != "" && (digits[0] == '0' <==> e == 0)
  }

  lemma HexTextShape(bits: nat, prec: nat, alt: bool, upper: bool)
    returns (lead: char, fraction: string, e: int, digits: string)
    ensures HexShape(HexText(bits, prec, alt, upper), prec, alt, upper, lead, fraction, e, digits)
    ensures e == if Mantissa(bits) == 0 then 0 else Exponent(bits)
  {
    var shown := Shown(prec);
    var r := Rounded(Mantissa(bits), FRACTION_DIGITS - shown);
    e := PrintedExponent(bits);
    LeadingDigit(Mantissa(bits), shown);
    lead, fraction := LeadAndFraction(r, shown, upper);
    digits := ExponentDigits(e);
    TextJoined(bits, prec, alt, upper, e, digits);
  }

  lemma LeadAndFraction(r: nat, shown: nat, upper: bool) returns (lead: char, fraction: string)
    requires High(r, shown) <= 2
    ensures lead == Glyph(High(r, shown) % 16, upper) && fraction == Fixed(r, shown, upper) && '0' <= lead <= '2'
    ensures |fraction| == shown && forall i :: 0 <= i < |fraction| ==> CasedDigit(fraction[i], upper)
  {
    lead, fraction := Glyph(High(r, shown) % 16, upper), Fixed(r, shown, upper);
    FixedCased(r, shown, upper);
  }

  lemma ExponentDigits(e: int) returns (digits: string)
    ensures digits == Numeral(Magnitude(e), 10, true) && digits != ""
    ensures AllDigits(digits, 10) && Value(digits, 10) == Magnitude(e) && (digits[0] == '0' <==> e == 0)
  {
    digits := Numeral(Magnitude(e), 10, true);
    PowerDigits(e, digits);
    NumeralLead(Magnitude(e), 10, true);
  }

  lemma TextJoined(bits: nat, prec: nat, alt: bool, upper: bool, e: int, digits: string)
    requires e == PrintedExponent(bits) && digits == Numeral(Magnitude(e), 10, true)
    ensures var shown := Shown(prec);
            var r := Rounded(Mantissa(bits), FRACTION_DIGITS - shown);
            HexText(bits, prec, alt, upper)
            == [Glyph(High(r, shown) % 16, upper)] + (if prec > 0 || alt then "." else "") + Fixed(r, shown, upper)
               + ((if upper then "P" else "p") + (if e < 0 then "-" else "+") + digits)
  {
    assert PowerText(e, upper) == (if upper then "P" else "p") + (if e < 0 then "-" else "+") + digits;
  }
}
