/** Unsigned 64-bit arithmetic. */
module Words {
  const WORD: nat := 0x1_0000_0000_0000_0000

  /** Reduction to 64 bits. */
  function Wrap(x: int): (r: nat)
    ensures r < WORD
    ensures 0 <= x < WORD ==> r == x
  {
    if 0 <= x < WORD then x else x % WORD
  }

  /** Where a predicate is written `forall k :: Open(k) ==> P`, only mentioning `Open` lets the verifier look
      inside it. */
  ghost predicate Open(k: nat) {
    k == k
  }

  lemma WrapSum(x: int, y: int)
    ensures Wrap(Wrap(x) + y) == Wrap(x + y)
  {
    var k := x / WORD;
    assert x == k * WORD + Wrap(x);
    WrapMultiple(Wrap(x) + y, k);
  }

  lemma WrapMultiple(x: int, k: int)
    ensures Wrap(x + k * WORD) == Wrap(x)
  {
    var a, b := x / WORD, (x + k * WORD) / WORD;
    assert x == a * WORD + x % WORD && x + k * WORD == b * WORD + (x + k * WORD) % WORD;
    assert b == a + k;
  }

  lemma MultipleMod(a: nat, k: nat)
    requires a > 0
    ensures (a * k) % a == 0
  {
    var n := a * k;
    var d := k - n / a;
    assert n == a * (n / a) + n % a;
    assert a * d == n % a by { assert a * d == a * k - a * (n / a); }
    if d >= 1 {
      MulMono(a, 1, d);
    } else if d <= -1 {
      MulMono(a, 1, -d);
    }
  }

  lemma MulMono(a: nat, m: nat, k: nat)
    ensures m <= k ==> a * m <= a * k
  {
    if m <= k {
      assert a * k == a * m + a * (k - m);
    }
  }

  lemma QuotientSmaller(a: nat, b: nat)
    requires b > 0
    ensures a / b <= a
  {
    assert a == b * (a / b) + a % b;
    assert b * (a / b) == (a / b) * b;
    MulMono(a / b, 1, b);
  }
}
