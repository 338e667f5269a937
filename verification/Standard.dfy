/** What section 7.21.6.1 of ISO/IEC 9899:2011 asks of a conversion, from the characters of the format alone. */
module Standard {
  import opened Digits
  import opened Fields

  // ---------- specifications ----------

  predicate DecimalNumber(s: string) {
    forall i :: 0 <= i < |s| ==> '0' <= s[i] <= '9'
  }

  /** What may follow a %: flags, a width, a precision, a length modifier and a letter. */
  predicate Specification(flags: string, width: string, prec: string, mod: string, conv: char) {
    && (forall i :: 0 <= i < |flags| ==> flags[i] in "-+ #0")
    && (width == "" || width == "*" || (DecimalNumber(width) && width[0] != '0'))
    && (prec == "" || prec == ".*" || (prec[0] == '.' && DecimalNumber(prec[1..])))
    && mod in {"", "hh", "h", "l", "ll", "j", "z", "t", "L"}
    && conv in "diouxXfFeEgGaAcspn%"
  }

  // ---------- arguments ----------

  /** The letters of integer conversions. */
  predicate IntegerLetter(c: char) {
    c == 'd' || c == 'i' || c == 'o' || c == 'u' || c == 'x' || c == 'X'
  }

  predicate SignedLetter(c: char) {
    c == 'd' || c == 'i'
  }

  function BaseOf(c: char): nat {
    if c == 'o' then 8 else if c == 'x' || c == 'X' then 16 else 10
  }

  /** `v` is a value of the C type a conversion takes, and `slot` holds its low bits; what the slot holds above
      them does not matter. */
  predicate Passes(c: char, mod: string, slot: nat, v: int) {
    if mod == "hh" then
      (slot - v) % 0x100 == 0 && (if SignedLetter(c) then -0x80 <= v < 0x80 else 0 <= v < 0x100)
    else if mod == "h" then
      (slot - v) % 0x1_0000 == 0 && (if SignedLetter(c) then -0x8000 <= v < 0x8000 else 0 <= v < 0x1_0000)
    else if mod == "" then
      && (slot - v) % 0x1_0000_0000 == 0
      && (if SignedLetter(c) then -0x8000_0000 <= v < 0x8000_0000 else 0 <= v < 0x1_0000_0000)
    else
      && (slot - v) % 0x1_0000_0000_0000_0000 == 0
      && (if SignedLetter(c) then -0x8000_0000_0000_0000 <= v < 0x8000_0000_0000_0000
          else 0 <= v < 0x1_0000_0000_0000_0000)
  }

  /** An `int` in a slot, as a star takes it. */
  predicate PassesInt(slot: nat, v: int) {
    Passes('d', "", slot, v)
  }

  // ---------- fields ----------

  function Columns(width: string, w: int): nat {
    if width == "*" then (if w < 0 then -w else w) else Value(width, 10)
  }

  predicate LeftJustified(flags: string, width: string, w: int) {
    '-' in flags || (width == "*" && w < 0)
  }

  predicate MinusFirst(prec: string) {
    |prec| >= 2 && prec[1] == '-'
  }

  /** A precision counts unless a star's argument is negative or a minus stands before its digits. */
  predicate PrecisionGiven(prec: string, q: int) {
    if prec == ".*" then q >= 0 else prec != "" && !MinusFirst(prec)
  }

  /** Its value; behind a minus the code keeps the digits' value, which the standard has no word on. */
  function Precision(prec: string, q: int): nat {
    if prec == ".*" then (if q >= 0 then q else 0)
    else if prec == "" then 0
    else if MinusFirst(prec) then Value(prec[2..], 10)
    else Value(prec[1..], 10)
  }

  /** A number in its field: to the left, filled with zeros after sign and prefix, or to the right. */
  function Placed(left: bool, zeros: bool, width: nat, sign: string, prefix: string, digits: string): string {
    var pad := Most(0, width - |sign| - |prefix| - |digits|);
    if left then sign + prefix + digits + Repeat(' ', pad)
    else if zeros then sign + prefix + Repeat('0', pad) + digits
    else Repeat(' ', pad) + sign + prefix + digits
  }

  /** The flags + and space ask for a sign where there is no minus; + prevails. */
  function SignFor(flags: string, negative: bool): string {
    if negative then "-" else if '+' in flags then "+" else if ' ' in flags then " " else ""
  }

  // ---------- integers ----------

  /** At least `min` digits; zero with a precision of 0 has none; # makes an octal number start with 0. */
  function IntegerDigits(flags: string, c: char, given: bool, min: nat, v: int): string {
    var numeral := if v == 0 && given && min == 0 then "" else Numeral(if v < 0 then -v else v, BaseOf(c), c == 'X');
    var digits := Repeat('0', Most(0, min - |numeral|)) + numeral;
    if c == 'o' && '#' in flags && (digits == "" || digits[0] != '0') then "0" + digits else digits
  }

  function IntegerPrefix(flags: string, c: char, v: int): string {
    if '#' in flags && v != 0 && c == 'x' then "0x" else if '#' in flags && v != 0 && c == 'X' then "0X" else ""
  }

  /** The whole field; `w` and `q` are the arguments of the stars, `v` is the value. A precision cancels 0. */
  function IntegerField(flags: string, width: string, prec: string, c: char, w: int, q: int, v: int): string {
    var given, min := PrecisionGiven(prec, q), Precision(prec, q);
    Placed(LeftJustified(flags, width, w), '0' in flags && !given, Columns(width, w),
           if SignedLetter(c) then SignFor(flags, v < 0) else "", IntegerPrefix(flags, c, v),
           IntegerDigits(flags, c, given, min, v))
  }

  // ---------- floats ----------

  /** Decimal: e and g print as f does. */
  predicate DecimalLetter(c: char) {
    c == 'f' || c == 'F' || c == 'e' || c == 'E' || c == 'g' || c == 'G'
  }

  predicate HexLetter(c: char) {
    c == 'a' || c == 'A'
  }

  predicate CapitalLetter(c: char) {
    c == 'F' || c == 'E' || c == 'G' || c == 'A'
  }

  /** The places asked for; without a precision 6, and for hexadecimal all 13 a double has. */
  function Places(prec: string, c: char, q: int): nat {
    if PrecisionGiven(prec, q) then Precision(prec, q) else if HexLetter(c) then 13 else 6
  }

  function FloatPrefix(c: char, finite: bool): string {
    if !HexLetter(c) || !finite then "" else if c == 'A' then "0X" else "0x"
  }

  /** The field of a float around its payload. Zeros may fill it around a number alone. */
  function FloatField(flags: string, width: string, c: char, w: int, bits: nat, zeros: bool, finite: bool,
                      payload: string): string {
    Placed(LeftJustified(flags, width, w), zeros, Columns(width, w), SignFor(flags, bits >= 0x8000_0000_0000_0000),
           FloatPrefix(c, finite), payload)
  }

  /** A decimal number with exactly `places` places, and a point if there are any or # asks for it. Nothing but a
      single 0 before the point starts with 0. */
  ghost predicate DecimalPayload(payload: string, flags: string, places: nat, whole: string, fraction: string) {
    && payload == whole + (if places > 0 || '#' in flags then "." else "") + fraction
    && whole != "" && |fraction| == places && AllDigits(whole, 10) && AllDigits(fraction, 10)
    && (whole[0] == '0' ==> whole == "0")
  }

  /** All bits of the exponent set: an infinity, or a NaN. */
  predicate Special(bits: nat) {
    bits / 0x10_0000_0000_0000 % 2048 == 2047
  }

  /** What stands for a double that is no number, or for a number the code has no room for. */
  function Word(bits: nat, c: char): string {
    var capital := CapitalLetter(c);
    if !Special(bits) then (if capital then "ERR" else "err")
    else if bits % 0x10_0000_0000_0000 == 0 then (if capital then "INF" else "inf")
    else if capital then "NAN" else "nan"
  }
}
