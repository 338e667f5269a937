/** The kernel's C strings and its hexadecimal conversions. */
module Strings {
  import opened Words
  import opened Digits

  predicate Terminated(s: seq<char>) {
    '\0' in s
  }

  /** The characters before the first NUL. */
  function Text(s: seq<char>): (t: string)
    requires Terminated(s)
    ensures |t| < |s| && t == s[..|t|] && s[|t|] == '\0' && '\0' !in t
  {
    if s[0] == '\0' then [] else [s[0]] + Text(s[1..])
  }

  lemma {:induction false} TextIs(s: seq<char>, n: nat)
    requires n < |s| && s[n] == '\0' && '\0' !in s[..n]
    ensures Terminated(s) && Text(s) == s[..n]
  {
    assert Terminated(s);
    if n > 0 {
      assert s[0] == s[..n][0];
      assert s[1..][..n - 1] == s[..n][1..];
      TextIs(s[1..], n - 1);
    }
  }

  method StringLength(buffer: array<char>) returns (value: nat)
    requires Terminated(buffer[..])
    ensures value == |Text(buffer[..])|
  {
    value := 0;
    while buffer[value] != '\0'
      invariant value <= |Text(buffer[..])|
      decreases |Text(buffer[..])| - value
    {
      assert buffer[..][value] == buffer[value];
      value := value + 1;
    }
    TextIs(buffer[..], value);
  }

  /** The swapping loop of `reverseString`. */
  method Flip(buffer: array<char>, length: nat)
    requires length <= buffer.Length
    modifies buffer
    ensures buffer[..length] == Reversed(old(buffer[..length])) && buffer[length..] == old(buffer[length..])
  {
    var i := 0;
    while i < length / 2
      invariant 0 <= i <= length / 2
      invariant forall k :: 0 <= k < i || length - i <= k < length ==> buffer[k] == old(buffer[length - 1 - k])
      invariant forall k :: i <= k < length - i || length <= k < buffer.Length ==> buffer[k] == old(buffer[k])
    {
      var backup := buffer[i];
      buffer[i] := buffer[length - i - 1];
      buffer[length - i - 1] := backup;
      i := i + 1;
    }
  }

  lemma ReversedFree(text: string)
    requires '\0' !in text
    ensures '\0' !in Reversed(text)
  {
    forall k | 0 <= k < |text| ensures Reversed(text)[k] != '\0' {
      assert text[|text| - 1 - k] in text;
    }
  }

  /** `reverseString`: the text is turned around in place, the NUL and what follows it stay. */
  method ReverseString(buffer: array<char>)
    requires Terminated(buffer[..])
    modifies buffer
    ensures Terminated(buffer[..]) && Text(buffer[..]) == Reversed(Text(old(buffer[..])))
    ensures forall k :: |Text(buffer[..])| <= k < buffer.Length ==> buffer[k] == old(buffer[k])
  {
    ghost var before := buffer[..];
    var length := StringLength(buffer);
    assert buffer[..length] == Text(before) && buffer[length..] == before[length..];
    ReversedFree(Text(before));
    Flip(buffer, length);
    assert buffer[..][..length] == buffer[..length];
    assert buffer[length..] == before[length..];
    assert forall k :: length <= k < buffer.Length ==> buffer[k] == buffer[length..][k - length];
    TextIs(buffer[..], length);
  }

  lemma SixteenDigits()
    ensures Power(16, 16) == WORD
  {
    assert Power(16, 4) == 0x1_0000;
    PowerSum(16, 4, 4);
    PowerSum(16, 8, 8);
  }

  lemma NumeralText(v: nat, base: nat, upper: bool)
    requires 2 <= base <= 16
    ensures '\0' !in Numeral(v, base, upper)
  {
    NumeralValue(v, base, upper);
    assert Worth('\0') == 16;
  }

  /** The digit loop of `toHex`, which writes the last digit first. */
  method HexBackwards(buffer: array<char>, word: nat) returns (n: nat)
    requires word < WORD && buffer.Length > 16
    modifies buffer
    ensures n == |Numeral(word, 16, false)| <= 16 && buffer[..n] == Reversed(Numeral(word, 16, false))
    ensures forall k :: n <= k < buffer.Length ==> buffer[k] == old(buffer[k])
  {
    SixteenDigits();
    NumeralShort(word, 16, false, 16);
    ghost var numeral := Numeral(word, 16, false);
    var value := word;
    n := 0;
    while n == 0 || value > 0
      invariant n <= |numeral|
      invariant numeral == Left(value, n == 0, 16, false) + Reversed(buffer[..n])
      invariant forall k :: n <= k < buffer.Length ==> buffer[k] == old(buffer[k])
      decreases value, if n == 0 then 1 else 0
    {
      ghost var before := buffer[..n];
      var number := value % 16;
      buffer[n] := Glyph(number, false);
      assert buffer[..n + 1] == before + [Glyph(number, false)];
      var _, _ := NextDigit(value, n == 0, 16, false, before);
      n := n + 1;
      value := value / 16;
    }
    ReversedTwice(buffer[..n]);
  }

  /** `toHex`: the shortest lower-case hexadecimal text of a word, 0 being one digit. */
  method ToHex(buffer: array<char>, word: nat)
    requires word < WORD && buffer.Length > 16
    modifies buffer
    ensures Terminated(buffer[..]) && Text(buffer[..]) == Numeral(word, 16, false) && |Text(buffer[..])| <= 16
    ensures forall k :: |Text(buffer[..])| < k < buffer.Length ==> buffer[k] == old(buffer[k])
  {
    ghost var numeral := Numeral(word, 16, false);
    var n := HexBackwards(buffer, word);
    buffer[n] := '\0';
    NumeralText(word, 16, false);
    ReversedFree(numeral);
    assert buffer[..][..n] == Reversed(numeral);
    TextIs(buffer[..], n);
    ReverseString(buffer);
    ReversedTwice(numeral);
  }

  /** What `fromHex` adds for a character: letters above `f`, upper-case letters and all else add nothing. */
  function HexDigit(c: char): nat {
    if '0' <= c <= '9' then (c - '0') as nat else if 'a' <= c <= 'f' then 10 + (c - 'a') as nat else 0
  }

  function HexValue(text: string): nat {
    if text == [] then 0 else HexDigit(text[0]) * Power(16, |text| - 1) + HexValue(text[1..])
  }

  lemma WrapTimes(x: int, d: int, y: int)
    ensures Wrap(x + d * Wrap(y)) == Wrap(x + d * y)
  {
    var k := y / WORD;
    assert y == k * WORD + Wrap(y);
    assert x + d * y == x + d * Wrap(y) + (d * k) * WORD;
    WrapMultiple(x + d * Wrap(y), d * k);
  }

  lemma HexStep(text: string, k: nat, result: nat, value: nat)
    requires k < |text|
    requires result == Wrap(HexValue(text[k + 1..])) && value == Wrap(Power(16, |text| - k - 1))
    ensures Wrap(result + HexDigit(text[k]) * value) == Wrap(HexValue(text[k..]))
    ensures Wrap(value * 16) == Wrap(Power(16, |text| - k))
  {
    var power, digit := Power(16, |text| - k - 1), HexDigit(text[k]);
    assert text[k..][1..] == text[k + 1..];
    WrapTimes(result, digit, power);
    WrapSum(HexValue(text[k + 1..]), digit * power);
    WrapTimes(0, 16, power);
  }

  /** `fromHex`, with its counter running down through zero. */
  method FromHex(buffer: array<char>) returns (result: nat)
    requires Terminated(buffer[..]) && buffer.Length < WORD
    ensures result == Wrap(HexValue(Text(buffer[..])))
  {
    ghost var text := Text(buffer[..]);
    var length: int := StringLength(buffer);
    result := 0;
    var value := 1;
    var i: int := Wrap(length - 1);
    ghost var k := length;
    assert text[length..] == [];
    while i != WORD - 1
      invariant 0 <= k <= length && i == Wrap(k - 1)
      invariant result == Wrap(HexValue(text[k..])) && value == Wrap(Power(16, length - k))
      decreases k
    {
      k := k - 1;
      assert text[k] == buffer[i];
      HexStep(text, k, result, value);
      result := Wrap(result + HexDigit(buffer[i]) * value);
      value := Wrap(value * 16);
      i := Wrap(i - 1);
    }
  }

  predicate LowerHex(text: string) {
    forall i :: 0 <= i < |text| ==> '0' <= text[i] <= '9' || 'a' <= text[i] <= 'f'
  }

  /** On lower-case digits `fromHex` reads the number the text denotes. */
  lemma {:induction false} HexValueAgrees(text: string)
    requires LowerHex(text)
    ensures HexValue(text) == Value(text, 16) < Power(16, |text|)
  {
    ValueBound(text, 16);
    if text != [] {
      HexValueAgrees(text[1..]);
      assert text == [text[0]] + text[1..];
      ValueJoin([text[0]], text[1..], 16);
      ValueAppend([], text[0], 16);
    }
  }

  /** The text with a 0 for everything that is no lower-case digit. */
  function Cleaned(text: string): (s: string)
    ensures |s| == |text|
  {
    seq(|text|, i requires 0 <= i < |text| =>
      if '0' <= text[i] <= '9' || 'a' <= text[i] <= 'f' then text[i] else '0')
  }

  /** On any text at all it reads the number that is left when all else counts as 0. */
  lemma {:induction false} HexValueCleaned(text: string)
    ensures HexValue(text) == Value(Cleaned(text), 16)
  {
    if text != [] {
      HexValueCleaned(text[1..]);
      var c := Cleaned(text)[0];
      assert Cleaned(text) == [c] + Cleaned(text[1..]);
      ValueJoin([c], Cleaned(text[1..]), 16);
      ValueAppend([], c, 16);
    }
  }

  lemma {:induction false} NumeralLower(v: nat)
    ensures LowerHex(Numeral(v, 16, false))
  {
    if v >= 16 {
      NumeralLower(v / 16);
    }
  }

  /** `fromHex` undoes `toHex` on every word. */
  lemma HexRoundTrip(v: nat)
    requires v < WORD
    ensures Wrap(HexValue(Numeral(v, 16, false))) == v
  {
    NumeralLower(v);
    HexValueAgrees(Numeral(v, 16, false));
    NumeralValue(v, 16, false);
  }

  lemma {:induction false} FixedLower(v: nat, n: nat)
    ensures LowerHex(Fixed(v, n, false))
  {
    if n > 0 {
      FixedLower(v / 16, n - 1);
    }
  }

  lemma FixedRead(v: nat, n: nat)
    requires v < Power(16, n)
    ensures HexValue(Fixed(v, n, false)) == v
  {
    FixedLower(v, n);
    FixedValue(v, n, false);
    HexValueAgrees(Fixed(v, n, false));
    HighNone(v, n);
  }
}
