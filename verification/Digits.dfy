/** Numerals: the text of a number in some base and the number a text denotes. */
module Digits {
  import opened Words

  /** The character of a digit. */
  function Glyph(d: nat, upper: bool): (c: char)
    requires d < 16
    ensures Worth(c) == d
  {
    if d < 10 then '0' + d as char else (if upper then 'A' else 'a') + (d - 10) as char
  }

  /** The digit a character stands for, 16 for none. */
  function Worth(c: char): nat {
    if '0' <= c <= '9' then (c - '0') as nat
    else if 'a' <= c <= 'f' then 10 + (c - 'a') as nat
    else if 'A' <= c <= 'F' then 10 + (c - 'A') as nat
    else 16
  }

  /** The sixteen digits, in either case. */
  lemma GlyphIs(d: nat)
    requires d < 16
    ensures Glyph(d, false) == "0123456789abcdef"[d] && Glyph(d, true) == "0123456789ABCDEF"[d]
    ensures Worth("0123456789abcdef"[d]) == d && Worth("0123456789ABCDEF"[d]) == d
  {
  }

  function Power(base: nat, n: nat): nat {
    if n == 0 then 1 else base * Power(base, n - 1)
  }

  lemma PowerPositive(base: nat, n: nat)
    requires base > 0
    ensures Power(base, n) > 0
  {
  }

  lemma {:induction false} PowerSum(base: nat, m: nat, n: nat)
    ensures Power(base, m + n) == Power(base, m) * Power(base, n)
  {
    if m > 0 {
      PowerSum(base, m - 1, n);
      assert base * (Power(base, m - 1) * Power(base, n)) == base * Power(base, m - 1) * Power(base, n);
    }
  }

  predicate AllDigits(text: string, base: nat) {
    forall i :: 0 <= i < |text| ==> Worth(text[i]) < base
  }

  /** The number a text denotes, most significant digit first. */
  function Value(text: string, base: nat): nat {
    if text == [] then 0 else base * Value(text[..|text| - 1], base) + Worth(text[|text| - 1])
  }

  lemma ValueAppend(s: string, c: char, base: nat)
    ensures Value(s + [c], base) == base * Value(s, base) + Worth(c)
  {
    assert (s + [c])[..|s|] == s;
  }

  lemma {:induction false} ValueJoin(s: string, t: string, base: nat)
    ensures Value(s + t, base) == Value(s, base) * Power(base, |t|) + Value(t, base)
  {
    if t == [] {
      assert s + t == s;
    } else {
      var front, c := t[..|t| - 1], t[|t| - 1];
      assert s + t == (s + front) + [c];
      ValueAppend(s + front, c, base);
      ValueJoin(s, front, base);
      Distribute(base, Value(s, base), Power(base, |front|), Value(front, base));
    }
  }

  lemma Distribute(b: nat, v: nat, p: nat, w: nat)
    ensures b * (v * p + w) == v * (b * p) + b * w
  {
  }

  lemma Carries(base: nat, v: nat, p: nat)
    requires v < p
    ensures base * v + base <= base * p
  {
    MulMono(base, v + 1, p);
  }

  lemma {:induction false} ValueBound(s: string, base: nat)
    requires AllDigits(s, base) && base > 0
    ensures Value(s, base) < Power(base, |s|)
  {
    if s != [] {
      var front := s[..|s| - 1];
      ValueBound(front, base);
      Carries(base, Value(front, base), Power(base, |front|));
    }
  }

  lemma Division(v: nat, base: nat)
    requires base > 0
    ensures base * (v / base) + v % base == v
  {
  }

  lemma QuotientBelow(v: nat, base: nat, p: nat)
    requires base > 0 && v < base * p
    ensures v / base < p
  {
  }

  function Repeat(c: char, n: nat): (s: string)
    ensures |s| == n && forall i :: 0 <= i < n ==> s[i] == c
  {
    seq(n, i => c)
  }

  lemma {:induction false} ZerosValue(n: nat, base: nat)
    ensures Value(Repeat('0', n), base) == 0
  {
    if n > 0 {
      assert Repeat('0', n)[..n - 1] == Repeat('0', n - 1);
      ZerosValue(n - 1, base);
    }
  }

  lemma LeadingZeros(n: nat, s: string, base: nat)
    ensures Value(Repeat('0', n) + s, base) == Value(s, base)
  {
    ValueJoin(Repeat('0', n), s, base);
    ZerosValue(n, base);
  }

  function Reversed<T>(s: seq<T>): (r: seq<T>)
    ensures |r| == |s| && forall i :: 0 <= i < |s| ==> r[i] == s[|s| - 1 - i]
  {
    seq(|s|, i requires 0 <= i < |s| => s[|s| - 1 - i])
  }

  lemma ReversedJoin<T>(s: seq<T>, t: seq<T>)
    ensures Reversed(s + t) == Reversed(t) + Reversed(s)
  {
  }

  lemma ReversedTwice<T>(s: seq<T>)
    ensures Reversed(Reversed(s)) == s
  {
  }

  /** The numeral of `v`, most significant digit first, without leading zeros. */
  function Numeral(v: nat, base: nat, upper: bool): (s: string)
    requires 2 <= base <= 16
    ensures |s| > 0
  {
    (if v < base then [] else Numeral(v / base, base, upper)) + [Glyph(v % base, upper)]
  }

  lemma Smaller(v: nat, base: nat)
    requires base >= 2
    ensures v / base < v || v == v / base == 0
  {
  }

  /** All of a numeral but its last digit, and the numbers the two stand for. */
  lemma Split(v: nat, base: nat, upper: bool) returns (front: string, q: nat, d: nat)
    requires 2 <= base <= 16
    ensures v == base * q + d && d < base && q == v / base && (v < base ==> q == 0)
    ensures q < v || v == q == 0
    ensures front == if v < base then [] else Numeral(q, base, upper)
    ensures Numeral(v, base, upper) == front + [Glyph(d, upper)]
  {
    q, d := v / base, v % base;
    Division(v, base);
    Smaller(v, base);
    front := if v < base then [] else Numeral(v / base, base, upper);
  }

  lemma {:induction false} NumeralValue(v: nat, base: nat, upper: bool)
    requires 2 <= base <= 16
    ensures Value(Numeral(v, base, upper), base) == v
    ensures AllDigits(Numeral(v, base, upper), base)
  {
    var front, q, d := Split(v, base, upper);
    if v >= base {
      NumeralValue(q, base, upper);
    }
    ValueAppend(front, Glyph(d, upper), base);
  }

  /** Only zero has a numeral that starts with 0. */
  lemma {:induction false} NumeralLead(v: nat, base: nat, upper: bool)
    requires 2 <= base <= 16
    ensures Numeral(v, base, upper)[0] == '0' <==> v == 0
  {
    var front, q, d := Split(v, base, upper);
    if v >= base {
      NumeralLead(q, base, upper);
      assert q == 0 ==> base * q == 0;
    }
  }

  /** A number below base^n has at most n digits. */
  lemma {:induction false} NumeralShort(v: nat, base: nat, upper: bool, n: nat)
    requires 2 <= base <= 16 && 0 < n && v < Power(base, n)
    ensures |Numeral(v, base, upper)| <= n
  {
    if v >= base {
      assert n > 1 by {
        assert Power(base, 1) == base * Power(base, 0);
      }
      QuotientBelow(v, base, Power(base, n - 1));
      NumeralShort(v / base, base, upper, n - 1);
    }
  }

  /** The digits still to be written, last digit first, when `value` is left of a number. */
  ghost function Left(value: nat, first: bool, base: nat, upper: bool): string
    requires 2 <= base <= 16
  {
    if first || value > 0 then Numeral(value, base, upper) else []
  }

  lemma NextDigit(value: nat, first: bool, base: nat, upper: bool, written: string) returns (q: nat, d: nat)
    requires 2 <= base <= 16 && (first || value > 0)
    ensures q == value / base && d == value % base && d < base
    ensures |Left(value, first, base, upper)| > 0
    ensures Left(value, first, base, upper) + Reversed(written)
         == Left(q, false, base, upper) + Reversed(written + [Glyph(d, upper)])
    ensures q < value || value == q == 0
  {
    var front;
    front, q, d := Split(value, base, upper);
    Division(value, base);
    var c := Glyph(d, upper);
    if q == 0 {
      assert value == d;
    }
    assert front == Left(q, false, base, upper);
    assert Reversed(written + [c]) == [c] + Reversed(written);
    assert front + [c] + Reversed(written) == front + ([c] + Reversed(written));
  }

  /** The last `n` hexadecimal digits of `v`, in exactly `n` characters. */
  function Fixed(v: nat, n: nat, upper: bool): (s: string)
    ensures |s| == n
  {
    if n == 0 then [] else Fixed(v / 16, n - 1, upper) + [Glyph(v % 16, upper)]
  }

  /** What is left of `v` above its last `n` hexadecimal digits. */
  function High(v: nat, n: nat): nat {
    if n == 0 then v else High(v / 16, n - 1)
  }

  lemma {:induction false} FixedValue(v: nat, n: nat, upper: bool)
    ensures AllDigits(Fixed(v, n, upper), 16)
    ensures v == Value(Fixed(v, n, upper), 16) + Power(16, n) * High(v, n)
  {
    if n > 0 {
      FixedValue(v / 16, n - 1, upper);
      ValueAppend(Fixed(v / 16, n - 1, upper), Glyph(v % 16, upper), 16);
      Scaled(v / 16, Value(Fixed(v / 16, n - 1, upper), 16), Power(16, n - 1), High(v / 16, n - 1));
    }
  }

  lemma Scaled(q: nat, w: nat, p: nat, h: nat)
    requires q == w + p * h
    ensures 16 * q == 16 * w + (16 * p) * h
  {
  }

  lemma {:induction false} HighNone(v: nat, n: nat)
    requires v < Power(16, n)
    ensures High(v, n) == 0
  {
    if n > 0 {
      HighNone(v / 16, n - 1);
    }
  }

  /** The digits a text starts with. */
  function DigitRun(text: string, base: nat): (run: string)
    ensures AllDigits(run, base) && |run| <= |text| && text[..|run|] == run
    ensures |run| < |text| ==> Worth(text[|run|]) >= base
  {
    if text != [] && Worth(text[0]) < base then [text[0]] + DigitRun(text[1..], base) else []
  }

  lemma {:induction false} DigitRunIs(digits: string, t: string, base: nat)
    requires AllDigits(digits, base) && (t == [] || Worth(t[0]) >= base)
    ensures DigitRun(digits + t, base) == digits
  {
    if digits == [] {
      assert digits + t == t;
    } else {
      assert (digits + t)[1..] == digits[1..] + t;
      DigitRunIs(digits[1..], t, base);
    }
  }
}
