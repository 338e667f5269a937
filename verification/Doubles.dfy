/** The 64 bits of a double (section 3.4 of IEEE 754-2008). */
module Doubles {
  import opened Words

  const HIDDEN: nat := 0x10_0000_0000_0000  // 2^52
  const BIAS: nat := 1023
  const SPECIAL: nat := 2047

  function ExponentField(bits: nat): nat {
    bits / HIDDEN % 2048
  }

  function FractionField(bits: nat): nat {
    bits % HIDDEN
  }

  predicate Negative(bits: nat) {
    bits / 0x8000_0000_0000_0000 % 2 == 1
  }

  predicate Finite(bits: nat) {
    ExponentField(bits) != SPECIAL
  }

  /** A finite double is, up to its sign, Mantissa * 2^(Exponent - 52). */
  function Mantissa(bits: nat): (m: nat)
    ensures m < 2 * HIDDEN
  {
    if ExponentField(bits) == 0 then FractionField(bits) else HIDDEN + FractionField(bits)
  }

  function Exponent(bits: nat): int {
    if ExponentField(bits) == 0 then 1 - BIAS else ExponentField(bits) - BIAS
  }

  /** The encoding: a sign bit, 11 bits of exponent with a bias of 1023, and 52 bits of fraction, before which a
      bit is hidden but where the exponent's bits are all 0. */
  lemma Encoded(bits: nat, sign: nat, e: nat, f: nat)
    requires sign <= 1 && e < 2048 && f < 0x10_0000_0000_0000
    requires bits == sign * 0x8000_0000_0000_0000 + e * 0x10_0000_0000_0000 + f
    ensures Negative(bits) <==> sign == 1
    ensures Finite(bits) <==> e < 2047
    ensures FractionField(bits) == f
    ensures Mantissa(bits) == if e == 0 then f else 0x10_0000_0000_0000 + f
    ensures Exponent(bits) == if e == 0 then -1022 else e - 1023
  {
    assert bits / HIDDEN == sign * 2048 + e;
    assert bits / 0x8000_0000_0000_0000 == sign;
  }
}
