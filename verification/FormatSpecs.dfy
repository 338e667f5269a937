/** `npf_parse_format_spec`: the grammar of a conversion specification and its parser. */
module FormatSpecs {
  import opened Digits
  import opened Fields

  /** A specification's text after the %, part by part. */
  datatype Parts = Parts(flags: string, width: string, prec: string, mod: string, conv: char) {
    function Text(): (s: string)
      ensures s != []
    {
      flags + (width + (prec + (mod + [conv])))
    }

    predicate WellFormed() {
      && (forall i :: 0 <= i < |flags| ==> IsFlag(flags[i]))
      && GoodWidth(width)
      && GoodPrec(prec)
      && IsMod(mod)
      && IsConversion(conv)
    }

    /** What the parts ask for. A negative precision is none, but keeps its digits' value. */
    function Meaning(): Spec
      requires WellFormed()
    {
      Spec('-' in flags, '0' in flags, if '+' in flags then '+' else if ' ' in flags then ' ' else '\0', '#' in flags,
           WidthGiven(width), if WidthGiven(width) == Written then Value(width, 10) else 0,
           PrecGiven(prec), PrecValue(prec), ModOf(mod), ConversionOf(conv), IsUpper(conv))
    }
  }

  predicate GoodWidth(width: string) {
    width == [] || width == "*" || (width[0] != '0' && AllDigits(width, 10))
  }

  predicate GoodPrec(prec: string) {
    || prec == [] || prec == ".*" || (prec[0] == '.' && AllDigits(prec[1..], 10))
    || (|prec| >= 2 && prec[0] == '.' && prec[1] == '-' && AllDigits(prec[2..], 10))
  }

  predicate IsFlag(c: char) {
    c == '-' || c == '0' || c == '+' || c == ' ' || c == '#'
  }

  predicate IsMod(mod: string) {
    || mod == [] || mod == "h" || mod == "hh" || mod == "l" || mod == "ll" || mod == "L" || mod == "j"
    || mod == "z" || mod == "t"
  }

  predicate IsUpper(c: char) {
    c == 'X' || c == 'F' || c == 'E' || c == 'G' || c == 'A' || c == 'B'
  }

  predicate IsConversion(c: char) {
    || c == '%' || c == 'c' || c == 's' || c == 'i' || c == 'd' || c == 'o' || c == 'u' || c == 'X' || c == 'x'
    || c == 'n' || c == 'p' || c == 'B' || c == 'b' || c == 'F' || c == 'f' || c == 'E' || c == 'e' || c == 'G'
    || c == 'g' || c == 'A' || c == 'a'
  }

  function WidthGiven(width: string): Given {
    if width == [] then Absent else if width == "*" then Star else Written
  }

  function PrecGiven(prec: string): Given {
    if prec == [] || (|prec| >= 2 && prec[1] == '-') then Absent else if prec == ".*" then Star else Written
  }

  function PrecValue(prec: string): nat {
    if prec == [] || prec == ".*" then 0
    else if |prec| >= 2 && prec[1] == '-' then Value(prec[2..], 10)
    else Value(prec[1..], 10)
  }

  function ModOf(mod: string): LengthMod {
    if mod == "h" then Short else if mod == "hh" then LengthMod.Char else if mod == "l" then Long
    else if mod == "ll" then LongLong else if mod == "L" then LongDouble else if mod == "j" then Intmax
    else if mod == "z" then Sizet else if mod == "t" then Ptrdiff else NoMod
  }

  function ConversionOf(c: char): Conversion
    requires IsConversion(c)
  {
    if c == '%' then Percent else if c == 'c' then Character else if c == 's' then Conversion.Text
    else if c == 'i' || c == 'd' then SignedInt else if c == 'o' then OctalInt else if c == 'u' then UnsignedInt
    else if c == 'X' || c == 'x' then HexInt else if c == 'F' || c == 'f' then FloatDec
    else if c == 'E' || c == 'e' then FloatSci else if c == 'G' || c == 'g' then FloatShortest
    else if c == 'A' || c == 'a' then FloatHex else if c == 'n' then Writeback
    else if c == 'p' then Pointer else Binary
  }

  // ---------- where the parts of a text end ----------

  /** A NUL stands at the end, so that no scan runs past it. */
  predicate CString(text: string) {
    text != [] && text[|text| - 1] == '\0'
  }

  function FlagsEnd(text: string, i: nat): (end: nat)
    requires CString(text) && i < |text|
    ensures i <= end < |text| && !IsFlag(text[end]) && forall k :: i <= k < end ==> IsFlag(text[k])
    decreases |text| - i
  {
    if IsFlag(text[i]) then FlagsEnd(text, i + 1) else i
  }

  predicate IsDigit(c: char) {
    '0' <= c <= '9'
  }

  function DigitsEnd(text: string, i: nat): (end: nat)
    requires CString(text) && i < |text|
    ensures i <= end < |text| && !IsDigit(text[end]) && forall k :: i <= k < end ==> IsDigit(text[k])
    decreases |text| - i
  {
    if IsDigit(text[i]) then DigitsEnd(text, i + 1) else i
  }

  function WidthEnd(text: string, i: nat): (end: nat)
    requires CString(text) && i < |text|
    ensures i <= end < |text|
  {
    if text[i] == '*' then i + 1 else DigitsEnd(text, i)
  }

  function PrecEnd(text: string, i: nat): (end: nat)
    requires CString(text) && i < |text|
    ensures i <= end < |text|
  {
    if text[i] != '.' then i
    else if text[i + 1] == '*' then i + 2
    else if text[i + 1] == '-' then DigitsEnd(text, i + 2)
    else DigitsEnd(text, i + 1)
  }

  function ModEnd(text: string, i: nat): (end: nat)
    requires CString(text) && i < |text|
    ensures i <= end < |text|
  {
    if text[i] == 'h' then (if text[i + 1] == 'h' then i + 2 else i + 1)
    else if text[i] == 'l' then (if text[i + 1] == 'l' then i + 2 else i + 1)
    else if text[i] == 'L' || text[i] == 'j' || text[i] == 'z' || text[i] == 't' then i + 1 else i
  }

  /** Where the conversion character of a specification starting at `i` must be. */
  function ConvAt(text: string, i: nat): (end: nat)
    requires CString(text) && i < |text|
    ensures i <= end < |text|
  {
    ModEnd(text, PrecEnd(text, WidthEnd(text, FlagsEnd(text, i))))
  }

  /** The parts of the text from `i` on, every one as long as it can be. */
  function Scan(text: string, i: nat): Parts
    requires CString(text) && i < |text|
  {
    var a := FlagsEnd(text, i);
    var b := WidthEnd(text, a);
    var c := PrecEnd(text, b);
    var d := ModEnd(text, c);
    Parts(text[i..a], text[a..b], text[b..c], text[c..d], text[d])
  }

  /** `p` stands in the text from `i` on. */
  predicate StandsAt(p: Parts, text: string, i: nat) {
    i + |p.Text()| <= |text| && text[i..i + |p.Text()|] == p.Text()
  }

  lemma ScanStands(text: string, i: nat)
    requires CString(text) && i < |text|
    ensures StandsAt(Scan(text, i), text, i) && i + |Scan(text, i).Text()| == ConvAt(text, i) + 1
  {
    var a := FlagsEnd(text, i);
    var b := WidthEnd(text, a);
    var c := PrecEnd(text, b);
    SlicesJoin(text, i, a, b, c, ModEnd(text, c));
  }

  lemma SlicesJoin(text: string, i: nat, a: nat, b: nat, c: nat, d: nat)
    requires i <= a <= b <= c <= d < |text|
    ensures text[i..d + 1] == text[i..a] + (text[a..b] + (text[b..c] + (text[c..d] + [text[d]])))
  {
    Halves(text, c, d, d + 1);
    assert text[d..d + 1] == [text[d]];
    Halves(text, b, c, d + 1);
    Halves(text, a, b, d + 1);
    Halves(text, i, a, d + 1);
  }

  lemma Halves(text: string, i: nat, j: nat, k: nat)
    requires i <= j <= k <= |text|
    ensures text[i..k] == text[i..j] + text[j..k]
  {
  }

  lemma DigitsSlice(text: string, i: nat, end: nat)
    requires i <= end <= |text| && forall k :: i <= k < end ==> IsDigit(text[k])
    ensures AllDigits(text[i..end], 10)
  {
  }

  lemma WidthFits(text: string, i: nat)
    requires CString(text) && i < |text| && !IsFlag(text[i])
    ensures GoodWidth(text[i..WidthEnd(text, i)])
  {
    if text[i] != '*' {
      DigitsSlice(text, i, DigitsEnd(text, i));
    }
  }

  lemma PrecFits(text: string, i: nat)
    requires CString(text) && i < |text|
    ensures GoodPrec(text[i..PrecEnd(text, i)])
  {
    var p := text[i..PrecEnd(text, i)];
    if text[i] == '.' && text[i + 1] == '-' {
      DigitsSlice(text, i + 2, DigitsEnd(text, i + 2));
      assert p[2..] == text[i + 2..DigitsEnd(text, i + 2)];
    } else if text[i] == '.' && text[i + 1] != '*' {
      DigitsSlice(text, i + 1, DigitsEnd(text, i + 1));
      assert p[1..] == text[i + 1..DigitsEnd(text, i + 1)];
    }
  }

  lemma ModFits(text: string, i: nat)
    requires CString(text) && i < |text|
    ensures IsMod(text[i..ModEnd(text, i)])
  {
    assert text[i..i] == [] && text[i..i + 1] == [text[i]];
    if text[i] == 'h' || text[i] == 'l' {
      assert text[i..i + 2] == [text[i], text[i + 1]];
    }
  }

  /** What is scanned is a specification if a conversion ends it. */
  lemma ScanFits(text: string, i: nat)
    requires CString(text) && i < |text| && IsConversion(text[ConvAt(text, i)])
    ensures Scan(text, i).WellFormed()
  {
    var a := FlagsEnd(text, i);
    var b := WidthEnd(text, a);
    WidthFits(text, a);
    PrecFits(text, b);
    ModFits(text, PrecEnd(text, b));
  }

  lemma FlagsEndIs(text: string, i: nat, end: nat)
    requires CString(text) && i <= end < |text| && !IsFlag(text[end]) && forall k :: i <= k < end ==> IsFlag(text[k])
    ensures FlagsEnd(text, i) == end
  {
  }

  lemma DigitsEndIs(text: string, i: nat, end: nat)
    requires CString(text) && i <= end < |text| && !IsDigit(text[end]) && forall k :: i <= k < end ==> IsDigit(text[k])
    ensures DigitsEnd(text, i) == end
  {
  }

  lemma SliceDigits(text: string, i: nat, s: string)
    requires i + |s| <= |text| && text[i..i + |s|] == s && AllDigits(s, 10)
    ensures forall k :: i <= k < i + |s| ==> IsDigit(text[k])
  {
    forall k | i <= k < i + |s| ensures IsDigit(text[k]) {
      assert text[k] == s[k - i] && Worth(s[k - i]) < 10;
    }
  }

  lemma WidthEndIs(text: string, i: nat, width: string)
    requires CString(text) && i + |width| < |text| && text[i..i + |width|] == width
    requires GoodWidth(width)
    requires Stops(text[i + |width|])
    ensures WidthEnd(text, i) == i + |width|
  {
    assert |width| > 0 ==> text[i] == width[0];
    if width != "*" {
      SliceDigits(text, i, width);
      DigitsEndIs(text, i, i + |width|);
    }
  }

  lemma PrecEndIs(text: string, i: nat, prec: string)
    requires CString(text) && i + |prec| < |text| && text[i..i + |prec|] == prec && GoodPrec(prec)
    requires Stops(text[i + |prec|]) && text[i + |prec|] != '.'
    ensures PrecEnd(text, i) == i + |prec|
  {
    assert |prec| > 0 ==> text[i] == prec[0];
    assert |prec| > 1 ==> text[i + 1] == prec[1];
    if prec != [] && prec != ".*" {
      if |prec| >= 2 && prec[1] == '-' {
        assert text[i + 2..i + 2 + |prec[2..]|] == prec[2..];
        NotDigit(prec);
        SliceDigits(text, i + 2, prec[2..]);
        DigitsEndIs(text, i + 2, i + |prec|);
      } else {
        assert text[i + 1..i + 1 + |prec[1..]|] == prec[1..];
        SliceDigits(text, i + 1, prec[1..]);
        DigitsEndIs(text, i + 1, i + |prec|);
      }
    }
  }

  lemma NotDigit(prec: string)
    requires |prec| >= 2 && prec[1] == '-' && GoodPrec(prec)
    ensures AllDigits(prec[2..], 10)
  {
    assert prec[1..][0] == '-';
  }

  /** Where each of five parts joined stands. */
  lemma PartsStand(text: string, i: nat, flags: string, width: string, prec: string, mod: string, conv: string)
    requires i + |flags| + |width| + |prec| + |mod| + |conv| <= |text| && conv != []
    requires text[i..i + |flags| + |width| + |prec| + |mod| + |conv|] == flags + (width + (prec + (mod + conv)))
    ensures text[i..i + |flags|] == flags
    ensures text[i + |flags|..i + |flags| + |width|] == width
    ensures text[i + |flags| + |width|..i + |flags| + |width| + |prec|] == prec
    ensures text[i + |flags| + |width| + |prec|..i + |flags| + |width| + |prec| + |mod|] == mod
    ensures text[i + |flags| + |width| + |prec| + |mod|] == conv[0]
  {
    var a := i + |flags|;
    var b := a + |width|;
    var c := b + |prec|;
    var r3 := mod + conv;
    var r2 := prec + r3;
    var r1 := width + r2;
    PartAt(text, i, flags, r1);
    PartAt(text, a, width, r2);
    PartAt(text, b, prec, r3);
    PartAt(text, c, mod, conv);
  }

  lemma PartAt(text: string, i: nat, s: string, rest: string)
    requires i + |s| + |rest| <= |text| && text[i..i + |s| + |rest|] == s + rest
    ensures text[i..i + |s|] == s && text[i + |s|..i + |s| + |rest|] == rest
    ensures rest != [] ==> text[i + |s|] == rest[0]
  {
    var all := text[i..i + |s| + |rest|];
    assert text[i..i + |s|] == all[..|s|] && text[i + |s|..i + |s| + |rest|] == all[|s|..];
    assert rest != [] ==> text[i + |s|] == all[|s|];
  }

  /** A text has at most one specification at a place, and `Scan` finds it. */
  lemma ScanFinds(p: Parts, text: string, i: nat)
    requires CString(text) && i < |text| && p.WellFormed() && StandsAt(p, text, i)
    ensures Scan(text, i) == p
  {
    PartsStand(text, i, p.flags, p.width, p.prec, p.mod, [p.conv]);
    PartsScanned(text, i, i + |p.flags|, i + |p.flags| + |p.width|, i + |p.flags| + |p.width| + |p.prec|, p);
  }

  lemma PartsScanned(text: string, i: nat, a: nat, b: nat, c: nat, p: Parts)
    requires CString(text) && p.WellFormed()
    requires a == i + |p.flags| && b == a + |p.width| && c == b + |p.prec| && c + |p.mod| < |text|
    requires text[i..a] == p.flags && text[a..b] == p.width && text[b..c] == p.prec
    requires text[c..c + |p.mod|] == p.mod && text[c + |p.mod|] == p.conv
    ensures Scan(text, i) == p
  {
    LastEnds(text, b, p.prec, p.mod, p.conv);
    FirstEnds(text, i, p.flags, p.width);
    ScanIs(text, i, a, b, c, p);
  }

  lemma ScanIs(text: string, i: nat, a: nat, b: nat, c: nat, p: Parts)
    requires CString(text) && i <= a <= b <= c < |text|
    requires FlagsEnd(text, i) == a && WidthEnd(text, a) == b && PrecEnd(text, b) == c
    requires text[i..a] == p.flags && text[a..b] == p.width && text[b..c] == p.prec
    requires text[c..ModEnd(text, c)] == p.mod && text[ModEnd(text, c)] == p.conv
    ensures Scan(text, i) == p
  {
  }

  lemma LastEnds(text: string, b: nat, prec: string, mod: string, conv: char)
    requires CString(text) && GoodPrec(prec) && IsMod(mod) && IsConversion(conv)
    requires var c := b + |prec|; var d := c + |mod|;
             d < |text| && text[b..c] == prec && text[c..d] == mod && text[d] == conv
    ensures PrecEnd(text, b) == b + |prec| && ModEnd(text, b + |prec|) == b + |prec| + |mod| && Stops(text[b])
  {
    ModEndIs(text, b + |prec|, mod, conv);
    PrecEndIs(text, b, prec);
    FirstOfPrec(text, b, prec);
  }

  lemma FirstEnds(text: string, i: nat, flags: string, width: string)
    requires CString(text) && (forall k :: 0 <= k < |flags| ==> IsFlag(flags[k])) && GoodWidth(width)
    requires var a := i + |flags|; var b := a + |width|;
             b < |text| && text[i..a] == flags && text[a..b] == width && Stops(text[b])
    ensures FlagsEnd(text, i) == i + |flags| && WidthEnd(text, i + |flags|) == i + |flags| + |width|
  {
    var a := i + |flags|;
    WidthEndIs(text, a, width);
    FirstOfWidth(text, a, width);
    forall k | i <= k < a ensures IsFlag(text[k]) {
      assert text[i..a][k - i] == flags[k - i];
    }
    FlagsEndIs(text, i, a);
  }

  /** A character no flag, width or precision goes on with. */
  predicate Stops(c: char) {
    !IsFlag(c) && !IsDigit(c) && c != '*'
  }

  lemma ModEndIs(text: string, c: nat, mod: string, conv: char)
    requires CString(text) && IsMod(mod) && IsConversion(conv) && c + |mod| < |text|
    requires text[c..c + |mod|] == mod && text[c + |mod|] == conv
    ensures ModEnd(text, c) == c + |mod| && Stops(text[c]) && text[c] != '.'
  {
    assert |mod| > 0 ==> text[c] == text[c..c + |mod|][0];
    assert |mod| > 1 ==> text[c + 1] == text[c..c + |mod|][1];
  }

  lemma FirstOfPrec(text: string, b: nat, prec: string)
    requires b + |prec| < |text| && text[b..b + |prec|] == prec && GoodPrec(prec) && Stops(text[b + |prec|])
    ensures Stops(text[b])
  {
    assert |prec| > 0 ==> text[b] == text[b..b + |prec|][0];
  }

  lemma FirstOfWidth(text: string, a: nat, width: string)
    requires a + |width| < |text| && text[a..a + |width|] == width && Stops(text[a + |width|])
    requires GoodWidth(width)
    ensures !IsFlag(text[a])
  {
    assert |width| > 0 ==> text[a] == text[a..a + |width|][0];
    assert width != [] && width != "*" ==> Worth(width[0]) < 10;
  }

  // ---------- the parser ----------

  method ParseFlags(format: string, start: nat)
    returns (cur: nat, left: bool, zeroPad: bool, prepend: char, alt: bool)
    requires CString(format) && start < |format|
    ensures cur == FlagsEnd(format, start)
    ensures var run := format[start..cur];
            && left == ('-' in run) && zeroPad == ('0' in run) && alt == ('#' in run)
            && prepend == if '+' in run then '+' else if ' ' in run then ' ' else '\0'
  {
    left, zeroPad, prepend, alt := false, false, '\0', false;
    cur := start;
    while IsFlag(format[cur])
      invariant start <= cur < |format| && FlagsEnd(format, start) == FlagsEnd(format, cur)
      invariant var run := format[start..cur];
                && left == ('-' in run) && zeroPad == ('0' in run) && alt == ('#' in run)
                && prepend == if '+' in run then '+' else if ' ' in run then ' ' else '\0'
      decreases |format| - cur
    {
      var c := format[cur];
      assert format[start..cur + 1] == format[start..cur] + [c];
      if c == '-' {
        left := true;
      } else if c == '0' {
        zeroPad := true;
      } else if c == '+' {
        prepend := '+';
      } else if c == ' ' {
        if prepend == '\0' {
          prepend := ' ';
        }
      } else {
        alt := true;
      }
      cur := cur + 1;
    }
  }

  method ParseNumber(format: string, start: nat) returns (cur: nat, value: nat)
    requires CString(format) && start < |format|
    ensures cur == DigitsEnd(format, start) && value == Value(format[start..cur], 10)
  {
    cur, value := start, 0;
    assert format[start..start] == [];
    while '0' <= format[cur] <= '9'
      invariant start <= cur < |format| && DigitsEnd(format, start) == DigitsEnd(format, cur)
      invariant value == Value(format[start..cur], 10)
      decreases |format| - cur
    {
      var c := format[cur];
      assert format[start..cur + 1] == format[start..cur] + [c];
      ValueAppend(format[start..cur], c, 10);
      value := value * 10 + (c - '0') as nat;
      cur := cur + 1;
    }
  }

  method ParseWidth(format: string, start: nat) returns (cur: nat, given: Given, value: nat)
    requires CString(format) && start < |format|
    ensures cur == WidthEnd(format, start) && given == WidthGiven(format[start..cur])
    ensures value == if given == Written then Value(format[start..cur], 10) else 0
  {
    if format[start] == '*' {
      assert format[start..start + 1] == "*";
      return start + 1, Star, 0;
    }
    cur, value := ParseNumber(format, start);
    given := if cur > start then Written else Absent;
  }

  method ParsePrec(format: string, start: nat) returns (cur: nat, given: Given, value: nat)
    requires CString(format) && start < |format|
    ensures cur == PrecEnd(format, start)
    ensures given == PrecGiven(format[start..cur]) && value == PrecValue(format[start..cur])
  {
    cur, given, value := start, Absent, 0;
    if format[cur] == '.' {
      cur := cur + 1;
      if format[cur] == '*' {
        given := Star;
        cur := cur + 1;
        assert format[start..cur] == ".*";
      } else {
        if format[cur] == '-' {
          cur := cur + 1;
        } else {
          given := Written;
        }
        ghost var digits := cur;
        cur, value := ParseNumber(format, cur);
        assert format[start..cur][digits - start..] == format[digits..cur];
      }
    }
  }

  method ParseMod(format: string, start: nat) returns (cur: nat, mod: LengthMod)
    requires CString(format) && start < |format|
    ensures cur == ModEnd(format, start) && mod == ModOf(format[start..cur])
  {
    cur, mod := start + 1, NoMod;
    match format[start] {
      case 'h' =>
        mod := Short;
        if format[cur] == 'h' {
          mod := LengthMod.Char;
          cur := cur + 1;
        }
      case 'l' =>
        mod := Long;
        if format[cur] == 'l' {
          mod := LongLong;
          cur := cur + 1;
        }
      case 'L' => mod := LongDouble;
      case 'j' => mod := Intmax;
      case 'z' => mod := Sizet;
      case 't' => mod := Ptrdiff;
      case _ => cur := cur - 1;
    }
  }

  /** `npf_parse_format_spec` on the % at `at`: the length of the specification there and what it asks for,
      or 0 where there is none. */
  method ParseFormatSpec(format: string, at: nat) returns (n: nat, spec: Spec)
    requires CString(format) && at < |format| && format[at] == '%'
    ensures var p := Scan(format, at + 1);
            if p.WellFormed() then n == 1 + |p.Text()| && StandsAt(p, format, at + 1) && spec == p.Meaning() else n == 0
  {
    var cur, left, zeroPad, prepend, alt := ParseFlags(format, at + 1);
    var widthGiven, width;
    cur, widthGiven, width := ParseWidth(format, cur);
    var precGiven, prec;
    cur, precGiven, prec := ParsePrec(format, cur);
    var mod;
    cur, mod := ParseMod(format, cur);
    var c := format[cur];
    cur := cur + 1;
    spec := Spec(left, zeroPad, prepend, alt, widthGiven, width, precGiven, prec, mod, Percent, false);
    if !IsConversion(c) {
      n := 0;
      return;
    }
    ScanFits(format, at + 1);
    ScanStands(format, at + 1);
    spec := spec.(conv := ConversionOf(c), upper := IsUpper(c));
    n := cur - at;
  }

  /** The parser finds a specification just where one stands, and there is never more than one. */
  lemma SpecificationsAreFound(p: Parts, text: string, i: nat)
    requires CString(text) && i < |text|
    ensures p.WellFormed() && StandsAt(p, text, i) <==> p == Scan(text, i) && p.WellFormed()
  {
    ScanStands(text, i);
    if p.WellFormed() && StandsAt(p, text, i) {
      ScanFinds(p, text, i);
    }
  }
}
