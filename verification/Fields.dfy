/** What `npf_vpprintf` prints around a converted number: sign, prefix, zeros and padding. */
module Fields {
  import opened Digits

  /** Whether a width or a precision was given, and how. */
  datatype Given = Absent | Star | Written

  datatype Conversion = Percent | Character | Text | SignedInt | OctalInt | HexInt | UnsignedInt | Pointer
    | Binary | FloatDec | FloatSci | FloatShortest | FloatHex | Writeback

  datatype LengthMod = NoMod | Short | Char | Long | LongDouble | LongLong | Intmax | Sizet | Ptrdiff

  /** `npf_format_spec_t`. `prepend` is 0, '+' or ' '; letters are upper case where `case_adjust` is 0. */
  datatype Spec = Spec(left: bool, zeroPad: bool, prepend: char, alt: bool, widthGiven: Given, width: nat,
                       precGiven: Given, prec: nat, length: LengthMod, conv: Conversion, upper: bool)
  {
    predicate Valid() {
      && (prepend == '\0' || prepend == '+' || prepend == ' ')
      && (widthGiven == Absent ==> width == 0)
    }

    predicate Integer() {
      conv == SignedInt || conv == OctalInt || conv == HexInt || conv == UnsignedInt
    }

    predicate Float() {
      conv == FloatDec || conv == FloatSci || conv == FloatShortest || conv == FloatHex
    }
  }

  /** The characters printed so far and their count. */
  class Output {
    var text: string
    var n: nat

    constructor ()
      ensures text == [] && n == 0
    {
      text, n := [], 0;
    }

    /** `NPF_PUTC`. */
    method Put(c: char)
      modifies this
      ensures text == old(text) + [c] && n == old(n) + 1
    {
      text := text + [c];
      n := n + 1;
    }

    method PutMany(c: char, count: int)
      modifies this
      ensures text == old(text) + Repeat(c, Most(0, count)) && n == old(n) + Most(0, count)
    {
      var left := count;
      ghost var put := 0;
      while left > 0
        invariant put >= 0 && left == count - put && (put > 0 ==> left >= 0)
        invariant text == old(text) + Repeat(c, put) && n == old(n) + put
      {
        Put(c);
        left := left - 1;
        put := put + 1;
        assert Repeat(c, put) == Repeat(c, put - 1) + [c];
      }
    }

    /** The payload is written last character first. */
    method PutBackwards(buffer: array<char>, length: nat)
      requires length <= buffer.Length
      modifies this
      ensures text == old(text) + Reversed(buffer[..length]) && n == old(n) + length
    {
      var left: nat := length;
      assert buffer[length..length] == [];
      while left > 0
        invariant left <= length
        invariant text == old(text) + Reversed(buffer[left..length]) && n == old(n) + (length - left)
      {
        left := left - 1;
        assert buffer[left..length] == [buffer[left]] + buffer[left + 1..length];
        assert Reversed(buffer[left..length]) == Reversed(buffer[left + 1..length]) + [buffer[left]];
        Put(buffer[left]);
      }
    }

    /** Everything after the conversion proper: `sign` and `prefix` are 0 where there is none, `zero` says
        the value is zero, and the payload lies backwards in `buffer`. */
    method Emit(fs: Spec, zero: bool, sign: char, prefix: char, buffer: array<char>, length: nat)
      requires fs.conv == Percent || fs.conv == Character || fs.Integer() || fs.Float()
      requires length <= buffer.Length
      modifies this
      ensures text == old(text) + Laid(fs, zero, Sign(sign), Prefix(prefix), Reversed(buffer[..length]))
      ensures n == old(n) + |Laid(fs, zero, Sign(sign), Prefix(prefix), Reversed(buffer[..length]))|
    {
      ghost var payload := Reversed(buffer[..length]);
      var padChar, fieldPad, precPad := Padding(fs, zero, sign, prefix, length);
      LaidParts(fs, zero, Sign(sign), Prefix(prefix), payload);
      EmitParts(if !fs.left then padChar else '\0', if fs.left then padChar else '\0', fieldPad, precPad, sign, prefix,
                buffer, length);
    }

    /** The parts in order; `first` and `last` are the padding before and after, 0 where there is none. */
    method EmitParts(first: char, last: char, fieldPad: nat, precPad: nat, sign: char, prefix: char,
                     buffer: array<char>, length: nat)
      requires length <= buffer.Length
      modifies this
      ensures text == old(text) + (Front(first, fieldPad, Sign(sign), Prefix(prefix)) + Repeat('0', precPad)
                                   + Reversed(buffer[..length]) + Tail(last, fieldPad))
      ensures n == old(n) + |Front(first, fieldPad, Sign(sign), Prefix(prefix))| + precPad + length
                   + |Tail(last, fieldPad)|
    {
      var signChar := EmitFront(first, fieldPad, sign, prefix);
      if signChar != '\0' {
        Put(signChar);
      }
      PutMany('0', precPad);
      PutBackwards(buffer, length);
      ghost var before := text;
      if last != '\0' {
        PutMany(last, fieldPad);
      }
      assert text == before + Tail(last, fieldPad);
      Regroup(old(text), Front(first, fieldPad, Sign(sign), Prefix(prefix)), Repeat('0', precPad),
              Reversed(buffer[..length]), Tail(last, fieldPad));
    }

    /** The sign and prefix and the padding, if it comes first; a sign not yet put is returned. */
    method EmitFront(padChar: char, fieldPad: nat, sign: char, prefix: char) returns (signChar: char)
      modifies this
      ensures text + Sign(signChar) == old(text) + Front(padChar, fieldPad, Sign(sign), Prefix(prefix))
      ensures n + |Sign(signChar)| == old(n) + |Front(padChar, fieldPad, Sign(sign), Prefix(prefix))|
    {
      signChar := sign;
      if padChar != '\0' {
        if padChar == '0' {
          if signChar != '\0' {
            Put(signChar);
            signChar := '\0';
          }
          if prefix != '\0' {
            Put('0');
            Put(prefix);
          }
        }
        PutMany(padChar, fieldPad);
        if padChar != '0' && prefix != '\0' {
          signChar := EmitPrefix(signChar, prefix);
        }
      } else {
        if prefix != '\0' {
          signChar := EmitPrefix(signChar, prefix);
        }
      }
    }

    /** The sign, if there is one, and the prefix. */
    method EmitPrefix(sign: char, prefix: char) returns (signChar: char)
      requires prefix != '\0'
      modifies this
      ensures signChar == '\0' && text == old(text) + (Sign(sign) + Prefix(prefix))
      ensures n == old(n) + |Sign(sign) + Prefix(prefix)|
    {
      signChar := sign;
      if signChar != '\0' {
        Put(signChar);
        signChar := '\0';
      }
      Put('0');
      Put(prefix);
    }
  }

  /** The pad character and the numbers of pad characters and of precision zeros. */
  method Padding(fs: Spec, zero: bool, sign: char, prefix: char, length: nat)
    returns (padChar: char, fieldPad: nat, precPad: nat)
    ensures padChar == PadChar(fs, zero) && precPad == PrecPad(fs, length)
    ensures fieldPad == Most(0, fs.width - length - |Sign(sign)| - |Prefix(prefix)| - precPad)
  {
    padChar := '\0';
    if fs.widthGiven != Absent {
      if fs.zeroPad && !fs.left {
        if fs.precGiven != Absent && fs.prec == 0 && zero {
          padChar := ' ';
        } else {
          padChar := '0';
        }
      } else {
        padChar := ' ';
      }
    }
    precPad := 0;
    if !fs.Float() {
      precPad := Most(0, fs.prec - length);
    }
    var pad := fs.width - length - (if sign != '\0' then 1 else 0);
    if prefix != '\0' {
      pad := pad - 2;
    }
    pad := pad - precPad;
    fieldPad := Most(0, pad);
  }

  function Most(x: int, y: int): int {
    if x > y then x else y
  }

  function Sign(c: char): string {
    if c == '\0' then [] else [c]
  }

  function Prefix(c: char): string {
    if c == '\0' then [] else ['0', c]
  }

  /** What stands before the digits: `padChar` is 0 where the padding is not there. */
  function Front(padChar: char, fieldPad: nat, sign: string, prefix: string): string {
    if padChar == '\0' then sign + prefix
    else if padChar == '0' then sign + prefix + Repeat('0', fieldPad)
    else Repeat(padChar, fieldPad) + sign + prefix
  }

  /** The padding after the digits. */
  function Tail(padChar: char, fieldPad: nat): string {
    if padChar == '\0' then [] else Repeat(padChar, fieldPad)
  }

  /** Zeros, not spaces, fill the field. */
  predicate ZeroFilled(fs: Spec, zero: bool) {
    fs.widthGiven != Absent && fs.zeroPad && !fs.left && !(fs.precGiven != Absent && fs.prec == 0 && zero)
  }

  /** Zeros that bring an integer to its precision. */
  function PrecPad(fs: Spec, length: nat): nat {
    if fs.Float() then 0 else Most(0, fs.prec - length)
  }

  /** A field: spaces, sign, prefix, zeros, payload, spaces; at most one kind of padding is there. */
  function Field(before: nat, sign: string, prefix: string, zeros: nat, payload: string, after: nat): string {
    Repeat(' ', before) + sign + prefix + Repeat('0', zeros) + payload + Repeat(' ', after)
  }

  /** The character that pads the field, 0 for none. */
  function PadChar(fs: Spec, zero: bool): char {
    if fs.widthGiven == Absent then '\0' else if ZeroFilled(fs, zero) then '0' else ' '
  }

  function FieldPad(fs: Spec, sign: string, prefix: string, payload: string): nat {
    Most(0, fs.width - |payload| - |sign| - |prefix| - PrecPad(fs, |payload|))
  }

  lemma Regroup(a: string, b: string, c: string, d: string, e: string)
    ensures a + b + c + d + e == a + (b + c + d + e)
  {
  }

  lemma NothingAround(sign: string, text: string)
    ensures Repeat(' ', 0) + sign == sign && text + Repeat(' ', 0) == text && text + [] == text
  {
  }

  lemma ZerosMeet(text: string, m: nat, n: nat)
    ensures text + Repeat('0', m) + Repeat('0', n) == text + Repeat('0', m + n)
  {
  }

  lemma LaidParts(fs: Spec, zero: bool, sign: string, prefix: string, payload: string)
    ensures var pad, padChar := FieldPad(fs, sign, prefix, payload), PadChar(fs, zero);
            Laid(fs, zero, sign, prefix, payload)
            == Front(if !fs.left then padChar else '\0', pad, sign, prefix)
               + Repeat('0', PrecPad(fs, |payload|)) + payload
               + Tail(if fs.left then padChar else '\0', pad)
  {
    var pad, zeros := FieldPad(fs, sign, prefix, payload), PrecPad(fs, |payload|);
    if ZeroFilled(fs, zero) {
      ZerosMeet(sign + prefix, pad, zeros);
      NothingAround(sign, sign + prefix + Repeat('0', pad + zeros) + payload);
    } else {
      NothingAround(sign, sign + prefix + Repeat('0', zeros) + payload);
      NothingAround(sign, Repeat(' ', pad) + sign + prefix + Repeat('0', zeros) + payload);
    }
  }

  function Laid(fs: Spec, zero: bool, sign: string, prefix: string, payload: string): string {
    var precPad := PrecPad(fs, |payload|);
    var pad := FieldPad(fs, sign, prefix, payload);
    if fs.widthGiven == Absent then Field(0, sign, prefix, precPad, payload, 0)
    else if fs.left then Field(0, sign, prefix, precPad, payload, pad)
    else if ZeroFilled(fs, zero) then Field(0, sign, prefix, pad + precPad, payload, 0)
    else Field(pad, sign, prefix, precPad, payload, 0)
  }
}
