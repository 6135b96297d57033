/** Powers of two and quotients by them. */
module Powers {
  import opened Bytes

  const WIDE := 0x1_0000_0000_0000_0000
  const TOP := 0x8000_0000_0000_0000

  function Pow2(n: nat): (p: nat)
    ensures p >= 1
  {
    if n == 0 then 1 else 2 * Pow2(n - 1)
  }

  lemma {:induction false} PowerSum(a: nat, b: nat)
    ensures Pow2(a + b) == Pow2(a) * Pow2(b)
  {
    if a > 0 {
      PowerSum(a - 1, b);
      assert 2 * (Pow2(a - 1) * Pow2(b)) == (2 * Pow2(a - 1)) * Pow2(b);
    }
  }

  lemma PowerOfWord()
    ensures Pow2(32) == WORD
  {
    assert Pow2(8) == 0x100;
    PowerSum(8, 8);
    PowerSum(16, 16);
  }

  lemma PowersOfWords()
    ensures Pow2(1) == 2 && Pow2(31) == HALF && Pow2(63) == TOP && Pow2(64) == WIDE
  {
    PowerOfWord();
    PowerSum(32, 32);
    assert Pow2(32) == 2 * Pow2(31) && Pow2(64) == 2 * Pow2(63);
  }

  lemma {:induction false} PowerBelow(a: nat, b: nat)
    requires a <= b
    ensures Pow2(a) <= Pow2(b)
  {
    if a < b {
      PowerBelow(a, b - 1);
    }
  }

  lemma Product(a: nat, b: nat)
    ensures a * b >= 0
  {
  }

  lemma BoundsOf(s: int, p: nat, q: int, r: nat)
    requires s == q * p + r && r < p
    ensures s >= 0 ==> 0 <= q <= s
    ensures s < 0 ==> s <= q < 0
  {
    assert q * p == q * (p - 1) + q;
    MultipleOf(q, p);
    if q >= 0 {
      Product(q, p - 1);
    } else {
      Product(-q - 1, p - 1);
      assert q * (p - 1) == -((-q - 1) * (p - 1)) - (p - 1);
    }
  }

  lemma QuotientBounds(s: int, p: nat)
    requires p >= 1
    ensures s >= 0 ==> 0 <= s / p <= s
    ensures s < 0 ==> s <= s / p < 0
  {
    BoundsOf(s, p, s / p, s % p);
  }
}
