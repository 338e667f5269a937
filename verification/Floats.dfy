/** The f, F, a and A conversions of `npf_vpprintf`. */
module Floats {
  import opened Words
  import opened Digits
  import opened Fields
  import opened Doubles
  import opened Decimals
  import opened DecimalFloats
  import opened HexFloats

  /** The specification with the default precision, where none is given. */
  function Defaulted(fs: Spec): Spec {
    if fs.precGiven != Absent then fs
    else if fs.conv == FloatHex then fs.(prec := 13) else fs.(prec := 6)
  }

  function FloatSign(fs: Spec, bits: nat): char {
    if Negative(bits) then '-' else fs.prepend
  }

  predicate Zero(bits: nat) {
    bits % 0x8000_0000_0000_0000 == 0
  }

  function HexPrefix(fs: Spec): char {
    if fs.upper then 'X' else 'x'
  }

  /** The message a conversion prints instead of a number, in reading order: INF, NAN or ERR. */
  function MessageText(bits: nat, upper: bool): string {
    Reversed(Cased(Message(bits), upper))
  }

  /** A decimal text: `whole`, a point if there are places or `#`, and `prec` places. */
  ghost predicate DecimalText(text: string, fs: Spec, bits: nat, whole: string, fraction: string) {
    && text == whole + Mark(fs.prec, fs.alt) + fraction
    && whole != [] && |fraction| == fs.prec && AllDigits(whole, 10) && AllDigits(fraction, 10)
    && (whole[0] == '0' ==> |whole| == 1)
    && Value(whole + fraction, 10) == Unrounded(bits, fs.prec) + Rounding(bits, fs.prec)
  }

  lemma LeadRead(s: string, whole: string, mark: string, fraction: string)
    requires Reversed(s) == whole + mark + fraction && NoLeadingZero(s, |fraction| + |mark|)
    ensures whole != [] && (whole[0] == '0' ==> |whole| == 1)
  {
    assert |s| == |whole + mark + fraction|;
    assert Reversed(s)[0] == s[|s| - 1] && Reversed(s)[0] == whole[0];
  }

  /** `npf_ftoa_rev` in reading order. */
  method PutDecimal(fs: Spec, bits: nat, buffer: array<char>)
    returns (length: int, ghost whole: string, ghost fraction: string)
    requires buffer.Length >= 64
    modifies buffer
    ensures length == -3 || 0 < length <= 64
    ensures length < 0 ==> Reversed(buffer[..3]) == MessageText(bits, fs.upper)
    ensures length > 0 ==> Finite(bits) && fs.prec <= 62
                           && DecimalText(Reversed(buffer[..length]), fs, bits, whole, fraction)
    ensures Finite(bits) && fs.prec <= 62 ==>
              (fs.prec + |Mark(fs.prec, fs.alt)| + Zeros(bits) + WholeCount(bits) < 64 ==> length > 0)
  {
    whole, fraction := [], [];
    length := Ftoa(buffer, fs.prec, fs.alt, fs.upper, bits);
    if length > 0 {
      whole, fraction := ReadingOrder(buffer[..length], fs.prec, Pointed(fs.prec, fs.alt));
      LeadRead(buffer[..length], whole, Mark(fs.prec, fs.alt), fraction);
    }
  }

  /** What a float conversion prints as `payload`. */
  ghost predicate FloatPayload(payload: string, fs: Spec, bits: nat, message: bool, whole: string, fraction: string) {
    if message then
      && payload == MessageText(bits, fs.upper) && !(fs.conv == FloatHex && Finite(bits))
      && (Finite(bits) ==> fs.prec > 62 || fs.prec + |Mark(fs.prec, fs.alt)| + Zeros(bits) + WholeCount(bits) >= 64)
    else if fs.conv == FloatHex then
      Finite(bits) && payload == HexText(bits, fs.prec, fs.alt, fs.upper)
    else
      Finite(bits) && fs.prec <= 62 && DecimalText(payload, fs, bits, whole, fraction)
  }

  /** The field around it; a message is never padded with zeros. */
  function FloatField(payload: string, fs: Spec, bits: nat, message: bool): string {
    Laid(if message then fs.(zeroPad := false) else fs, Zero(bits), Sign(FloatSign(fs, bits)),
         Prefix(if fs.conv == FloatHex && Finite(bits) then HexPrefix(fs) else '\0'), payload)
  }

  /** The hexadecimal text, the decimal text or, with a negative length, the message, backwards;
      hexadecimal falls back on the decimal routine's messages. */
  method Convert(fs: Spec, bits: nat, buffer: array<char>)
    returns (length: int, prefix: char, ghost whole: string, ghost fraction: string)
    requires fs.Float() && buffer.Length >= 64
    modifies buffer
    ensures length == -3 || 0 < length <= 64
    ensures prefix == if fs.conv == FloatHex && Finite(bits) then HexPrefix(fs) else '\0'
    ensures FloatPayload(Reversed(buffer[..if length < 0 then 3 else length]), fs, bits, length < 0, whole, fraction)
  {
    prefix := '\0';
    length := 0;
    whole, fraction := [], [];
    if fs.conv == FloatHex {
      length := Atoa(buffer, fs, bits);
    }
    if length > 0 {
      prefix := if fs.upper then 'X' else 'x';
    } else {
      length, whole, fraction := PutDecimal(fs, bits, buffer);
    }
  }

  lemma FieldLaid(payload: string, fs: Spec, bits: nat, message: bool, settled: Spec, sign: char, prefix: char)
    requires bits < WORD && settled == if message then fs.(zeroPad := false) else fs
    requires sign == if bits / 0x8000_0000_0000_0000 != 0 then '-' else fs.prepend
    requires prefix == if fs.conv == FloatHex && Finite(bits) then HexPrefix(fs) else '\0'
    ensures Laid(settled, bits % 0x8000_0000_0000_0000 == 0, Sign(sign), Prefix(prefix), payload)
         == FloatField(payload, fs, bits, message)
  {
  }

  /** One float conversion of `npf_vpprintf`: the field printed and counted. */
  method PutFloat(out: Output, spec: Spec, bits: nat)
    returns (ghost payload: string, ghost message: bool, ghost whole: string, ghost fraction: string)
    requires spec.Float() && bits < WORD
    modifies out
    ensures FloatPayload(payload, Defaulted(spec), bits, message, whole, fraction)
    ensures out.text == old(out.text) + FloatField(payload, Defaulted(spec), bits, message)
    ensures out.n == old(out.n) + |FloatField(payload, Defaulted(spec), bits, message)|
  {
    var fs := spec;
    if fs.precGiven == Absent {
      fs := fs.(prec := if fs.conv == FloatHex then 13 else 6);
    }
    payload, message, whole, fraction := PutDefaulted(out, fs, bits);
  }

  /** The rest of it, the precision settled. */
  method PutDefaulted(out: Output, settled: Spec, bits: nat)
    returns (ghost payload: string, ghost message: bool, ghost whole: string, ghost fraction: string)
    requires settled.Float() && bits < WORD
    modifies out
    ensures FloatPayload(payload, settled, bits, message, whole, fraction)
    ensures out.text == old(out.text) + FloatField(payload, settled, bits, message)
    ensures out.n == old(out.n) + |FloatField(payload, settled, bits, message)|
  {
    var fs := settled;
    var buffer := new char[64](_ => '\0');
    var sign := if bits / 0x8000_0000_0000_0000 != 0 then '-' else fs.prepend;
    var zero := bits % 0x8000_0000_0000_0000 == 0;
    var length, prefix;
    length, prefix, whole, fraction := Convert(fs, bits, buffer);
    message := length < 0;
    if length < 0 {
      length := -length;
      fs := fs.(zeroPad := false);
    }
    payload := Reversed(buffer[..length]);
    FieldLaid(payload, settled, bits, message, fs, sign, prefix);
    out.Emit(fs, zero, sign, prefix, buffer, length);
  }
}
