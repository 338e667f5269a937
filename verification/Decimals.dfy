/** Decimal text as `npf_ftoa_rev` builds it: backwards in a buffer, a point among the digits. */
module Decimals {
  import opened Words
  import opened Digits

  /** Digits only, but a point at `prec` if there is one. */
  predicate Shape(s: string, prec: nat, point: bool) {
    forall i :: 0 <= i < |s| ==> if point && i == prec then s[i] == '.' else '0' <= s[i] <= '9'
  }

  function Scale(s: string): nat {
    Power(10, Places(s))
  }

  /** Digits among the characters. */
  function Places(s: string): nat {
    if s == [] then 0 else (if s[0] == '.' then 0 else 1) + Places(s[1..])
  }

  /** The digits of a backward text as one number, the point left out. */
  function Amount(s: string): nat {
    if s == [] then 0 else if s[0] == '.' then Amount(s[1..]) else Worth(s[0]) + 10 * Amount(s[1..])
  }

  lemma {:induction false} AmountJoin(s: string, t: string)
    ensures Places(s + t) == Places(s) + Places(t)
    ensures Amount(s + t) == Amount(s) + Scale(s) * Amount(t)
  {
    if s == [] {
      assert s + t == t;
    } else {
      assert (s + t)[1..] == s[1..] + t;
      AmountJoin(s[1..], t);
      if s[0] != '.' {
        assert Scale(s) == 10 * Scale(s[1..]);
        Tenfold(Amount(s[1..]), Scale(s[1..]), Amount(t));
      }
    }
  }

  lemma Tenfold(a: nat, p: nat, b: nat)
    ensures 10 * (a + p * b) == 10 * a + (10 * p) * b
  {
  }

  /** Writing another digit changes the number by the digits' difference at that place. */
  lemma AmountUpdate(s: string, i: nat, c: char)
    requires i < |s| && s[i] != '.' && c != '.'
    ensures Amount(s[i := c]) + Scale(s[..i]) * Worth(s[i]) == Amount(s) + Scale(s[..i]) * Worth(c)
    ensures Places(s[..i + 1]) == Places(s[..i]) + 1
  {
    var before, after := s[..i], s[i + 1..];
    assert s == before + ([s[i]] + after) && s[i := c] == before + ([c] + after);
    AmountJoin(before, [s[i]] + after);
    AmountJoin(before, [c] + after);
    assert ([s[i]] + after)[1..] == after && ([c] + after)[1..] == after;
    assert s[..i + 1] == before + [s[i]];
    AmountJoin(before, [s[i]]);
    Shared(Scale(before), Worth(s[i]), Worth(c), 10 * Amount(after));
  }

  lemma Shared(p: nat, x: nat, y: nat, rest: nat)
    ensures p * (y + rest) + p * x == p * (x + rest) + p * y
  {
  }

  lemma PointPlaces(s: string, i: nat)
    requires i < |s| && s[i] == '.'
    ensures Places(s[..i + 1]) == Places(s[..i])
  {
    assert s[..i + 1] == s[..i] + [s[i]];
    AmountJoin(s[..i], [s[i]]);
  }

  lemma LeadingZero(s: string)
    ensures Amount(s + ['0']) == Amount(s)
  {
    AmountJoin(s, ['0']);
    assert Amount(['0']) == 0;
  }

  lemma {:induction false} AmountReversed(text: string)
    requires AllDigits(text, 10)
    ensures Amount(Reversed(text)) == Value(text, 10) && Places(Reversed(text)) == |text|
  {
    if text != [] {
      var front, c := text[..|text| - 1], text[|text| - 1];
      AmountReversed(front);
      assert Reversed(text) == [c] + Reversed(front);
      assert Reversed(text)[1..] == Reversed(front);
      assert c != '.';
    }
  }

  lemma NextPlace(s: string, i: nat)
    requires i < |s| && s[i] != '.'
    ensures Scale(s[..i + 1]) == 10 * Scale(s[..i])
  {
    assert s[..i + 1] == s[..i] + [s[i]];
    AmountJoin(s[..i], [s[i]]);
  }

  lemma NineStep(s: string, dec: nat)
    requires dec < |s| && s[dec] == '9'
    ensures var t := s[dec := '0']; Amount(t) + Scale(t[..dec + 1]) == Amount(s) + Scale(s[..dec])
  {
    var t := s[dec := '0'];
    AmountUpdate(s, dec, '0');
    NextPlace(t, dec);
    assert t[..dec] == s[..dec];
  }

  lemma PlainStep(s: string, dec: nat)
    requires dec < |s| && '0' <= s[dec] < '9'
    ensures Amount(s[dec := s[dec] + 1 as char]) == Amount(s) + Scale(s[..dec])
  {
    var c, p := s[dec] + 1 as char, Scale(s[..dec]);
    AmountUpdate(s, dec, c);
    assert Worth(c) == Worth(s[dec]) + 1;
    assert p * (Worth(s[dec]) + 1) == p * Worth(s[dec]) + p;
  }

  /** `Amount` and what a pending carry at `dec` is worth. */
  ghost function Pending(s: string, dec: nat, carry: nat): nat
    requires dec <= |s|
  {
    Amount(s) + if carry == 0 then 0 else Scale(s[..dec])
  }

  /** One turn of the rounding loop inside the text. */
  method RoundPlace(buffer: array<char>, end: nat, dec: nat, ghost prec: nat, ghost point: bool) returns (carry: nat)
    requires dec < end <= buffer.Length && Shape(buffer[..end], prec, point)
    modifies buffer
    ensures Shape(buffer[..end], prec, point) && carry <= 1
    ensures Pending(buffer[..end], dec + 1, carry) == Pending(old(buffer[..end]), dec, 1)
    ensures old(buffer[dec]) == '0' ==> carry == 0
    ensures carry == 0 ==> buffer[dec] != '0'
    ensures forall k :: 0 <= k < buffer.Length && k != dec ==> buffer[k] == old(buffer[k])
  {
    ghost var s := buffer[..end];
    carry := 1;
    if buffer[dec] == '.' {
      PointPlaces(s, dec);
      return;
    }
    if buffer[dec] == '9' {
      NineStep(s, dec);
      buffer[dec] := '0';
      assert buffer[..end] == s[dec := '0'];
    } else {
      PlainStep(s, dec);
      carry := 0;
      buffer[dec] := buffer[dec] + 1 as char;
      assert buffer[..end] == s[dec := s[dec] + 1 as char];
    }
  }

  /** The rounding loop: one is added at `start`, going past the point and the nines. */
  method Round(buffer: array<char>, ghost prec: nat, ghost point: bool, start: nat, length: nat, up: nat)
    returns (ok: bool, end: nat)
    requires buffer.Length >= 64 && start <= length <= 64 && up <= 1
    requires Shape(buffer[..length], prec, point) && (point ==> prec < length)
    modifies buffer
    ensures length < 64 || up == 0 ==> ok
    ensures ok ==> length <= end <= 64 && Shape(buffer[..end], prec, point)
    ensures ok ==> Amount(buffer[..end]) == Pending(old(buffer[..length]), start, up)
    ensures ok && length > 0 && buffer[end - 1] == '0' ==> end == length && old(buffer[length - 1]) == '0'
  {
    ghost var total := Pending(buffer[..length], start, up);
    var carry := up;
    var dec := start;
    end := length;
    ok := true;
    while carry != 0
      invariant start <= dec <= end && length <= end <= 64 && carry <= 1
      invariant (end > length ==> carry == 0) && (up == 0 ==> carry == 0)
      invariant Shape(buffer[..end], prec, point)
      invariant Pending(buffer[..end], dec, carry) == total
      invariant forall k :: dec <= k < length ==> buffer[k] == old(buffer[k])
      invariant carry == 0 && length > 0 && buffer[end - 1] == '0' ==> end == length && old(buffer[length - 1]) == '0'
      decreases 65 - dec
    {
      if dec >= 64 {
        ok := false;
        return;
      }
      if dec >= end {
        ghost var s := buffer[..end];
        buffer[end] := '0';
        end := end + 1;
        assert buffer[..end] == s + ['0'];
        LeadingZero(s);
        assert buffer[..end][..dec] == s[..dec];
      }
      carry := RoundPlace(buffer, end, dec, prec, point);
      dec := dec + 1;
    }
  }

  lemma AroundPoint(low: string, mark: string, high: string)
    requires mark == [] || mark == ['.']
    ensures Amount(low + (mark + high)) == Amount(low + high)
  {
    AmountJoin(low, mark + high);
    AmountJoin(low, high);
    assert mark == [] ==> mark + high == high;
    assert mark == ['.'] ==> (mark + high)[1..] == high;
  }

  predicate Plain(s: string) {
    forall i :: 0 <= i < |s| ==> '0' <= s[i] <= '9'
  }

  lemma ShapeParts(s: string, prec: nat, point: bool) returns (low: string, mark: string, high: string)
    requires Shape(s, prec, point) && prec + (if point then 1 else 0) <= |s| && (prec > 0 ==> point)
    ensures mark == (if point then ['.'] else []) && |low| == prec
    ensures s == low + (mark + high) && Plain(low) && Plain(high)
  {
    mark := if point then ['.'] else [];
    low, high := s[..prec], s[prec + |mark|..];
    assert s[prec..] == mark + high;
  }

  lemma AmountPlain(low: string, high: string)
    requires Plain(low) && Plain(high)
    ensures AllDigits(Reversed(low), 10) && AllDigits(Reversed(high), 10)
    ensures Value(Reversed(high) + Reversed(low), 10) == Amount(low + high)
  {
    ReversedJoin(low, high);
    assert AllDigits(Reversed(low), 10) && AllDigits(Reversed(high), 10);
    AmountReversed(Reversed(low + high));
    ReversedTwice(low + high);
  }

  lemma Around(low: string, mark: string, high: string)
    requires |mark| <= 1
    ensures Reversed(low + (mark + high)) == Reversed(high) + mark + Reversed(low)
  {
  }

  /** A text is its digits around the point; `whole` and `fraction` are in reading order. */
  lemma ReadingOrder(s: string, prec: nat, point: bool) returns (whole: string, fraction: string)
    requires Shape(s, prec, point) && prec + (if point then 1 else 0) <= |s| && (prec > 0 ==> point)
    ensures Reversed(s) == whole + (if point then ['.'] else []) + fraction
    ensures |fraction| == prec && AllDigits(whole, 10) && AllDigits(fraction, 10)
    ensures Value(whole + fraction, 10) == Amount(s)
  {
    var low, mark, high := ShapeParts(s, prec, point);
    AroundPoint(low, mark, high);
    AmountPlain(low, high);
    Around(low, mark, high);
    whole, fraction := Reversed(high), Reversed(low);
  }
}
