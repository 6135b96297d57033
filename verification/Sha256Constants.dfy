/** The tables of SHA-256 are the fractional parts of the roots of the first primes, as FIPS 180-4 defines them. */
module Sha256Constants {
  import opened Bytes
  import opened Powers
  import opened Rotations
  import opened Sha256

  // ---- The first sixty-four primes

  const PRIMES: seq<nat> :=
    [2, 3, 5, 7, 11, 13, 17, 19, 23, 29, 31, 37, 41, 43, 47, 53]
    + [59, 61, 67, 71, 73, 79, 83, 89, 97, 101, 103, 107, 109, 113, 127, 131]
    + [137, 139, 149, 151, 157, 163, 167, 173, 179, 181, 191, 193, 197, 199, 211, 223]
    + [227, 229, 233, 239, 241, 251, 257, 263, 269, 271, 277, 281, 283, 293, 307, 311]

  ghost predicate Prime(n: nat) {
    n >= 2 && forall d :: 2 <= d < n ==> n % d != 0
  }

  /** Not a multiple of one of the primes below 19, or that prime itself. */
  predicate Sifted(n: nat) {
    && (n % 2 == 0 ==> n == 2) && (n % 3 == 0 ==> n == 3) && (n % 5 == 0 ==> n == 5) && (n % 7 == 0 ==> n == 7)
    && (n % 11 == 0 ==> n == 11) && (n % 13 == 0 ==> n == 13) && (n % 17 == 0 ==> n == 17)
  }

  lemma FactorOfFactor(n: nat, d: nat, p: nat)
    requires d > 0 && p > 0 && n % d == 0 && d % p == 0
    ensures n % p == 0
  {
    var q, e := n / d, d / p;
    assert n == q * d && d == e * p;
    assert q * (e * p) == (q * e) * p;
    QuotientUnique(n, p, q * e, 0);
  }

  lemma SmallestFactor(d: nat) returns (p: nat)
    requires 2 <= d < 19
    ensures 2 <= p <= d && d % p == 0 && p in [2, 3, 5, 7, 11, 13, 17]
  {
    p := if d % 2 == 0 then 2 else if d % 3 == 0 then 3 else d;
  }

  lemma NotSifted(n: nat, d: nat)
    requires 2 <= d < 19 && d < n && n % d == 0
    ensures !Sifted(n)
  {
    var p := SmallestFactor(d);
    FactorOfFactor(n, d, p);
  }

  lemma SmallerFactor(n: nat, d: nat) returns (q: nat)
    requires n < 361 && 2 <= d < n && n % d == 0
    ensures 2 <= q < n && q < 19 && n % q == 0
  {
    q := n / d;
    assert n == q * d;
    if d < 19 {
      q := d;
    } else {
      assert (q - 19) * d == n - 19 * d;
      MultipleOf(q - 19, d);
      assert (q - 1) * d == n - d;
      MultipleOf(q - 1, d);
      QuotientUnique(n, q, d, 0);
    }
  }

  /** Below 19^2, the primes below 19 find every factor. */
  lemma SiftedIsPrime(n: nat)
    requires 2 <= n < 361
    ensures Sifted(n) <==> Prime(n)
  {
    if Sifted(n) && !Prime(n) {
      var d :| 2 <= d < n && n % d == 0;
      var q := SmallerFactor(n, d);
      NotSifted(n, q);
    }
  }

  lemma Entries0(t: nat)
    requires 0 <= t < 16
    ensures Sifted(PRIMES[t]) && 2 <= PRIMES[t] <= 311
  {
  }

  lemma Entries1(t: nat)
    requires 16 <= t < 32
    ensures Sifted(PRIMES[t]) && 2 <= PRIMES[t] <= 311
  {
  }

  lemma Entries2(t: nat)
    requires 32 <= t < 48
    ensures Sifted(PRIMES[t]) && 2 <= PRIMES[t] <= 311
  {
  }

  lemma Entries3(t: nat)
    requires 48 <= t < 64
    ensures Sifted(PRIMES[t]) && 2 <= PRIMES[t] <= 311
  {
  }

  lemma Between0(t: nat, g: nat)
    requires 0 <= t < 16
    ensures PRIMES[t] < PRIMES[t + 1] && (t > 0 ==> PRIMES[t] % 2 == 1)
    ensures PRIMES[t] < PRIMES[t] + 2 * g < PRIMES[t + 1] ==> !Sifted(PRIMES[t] + 2 * g)
  {
  }

  lemma Between1(t: nat, g: nat)
    requires 16 <= t < 32
    ensures PRIMES[t] < PRIMES[t + 1] && (t > 0 ==> PRIMES[t] % 2 == 1)
    ensures PRIMES[t] < PRIMES[t] + 2 * g < PRIMES[t + 1] ==> !Sifted(PRIMES[t] + 2 * g)
  {
  }

  lemma Between2(t: nat, g: nat)
    requires 32 <= t < 48
    ensures PRIMES[t] < PRIMES[t + 1] && (t > 0 ==> PRIMES[t] % 2 == 1)
    ensures PRIMES[t] < PRIMES[t] + 2 * g < PRIMES[t + 1] ==> !Sifted(PRIMES[t] + 2 * g)
  {
  }

  lemma Between3(t: nat, g: nat)
    requires 48 <= t < 63
    ensures PRIMES[t] < PRIMES[t + 1] && (t > 0 ==> PRIMES[t] % 2 == 1)
    ensures PRIMES[t] < PRIMES[t] + 2 * g < PRIMES[t + 1] ==> !Sifted(PRIMES[t] + 2 * g)
  {
  }

  lemma Entry(t: nat)
    requires t < 64
    ensures Prime(PRIMES[t]) && PRIMES[t] <= 311
  {
    hide PRIMES, Sifted;
    if t < 16 {
      Entries0(t);
    } else if t < 32 {
      Entries1(t);
    } else if t < 48 {
      Entries2(t);
    } else {
      Entries3(t);
    }
    Ends();
    SiftedIsPrime(PRIMES[t]);
  }

  lemma OddBetween(t: nat, g: nat)
    requires t < 63
    ensures PRIMES[t] < PRIMES[t + 1] && (t > 0 ==> PRIMES[t] % 2 == 1)
    ensures PRIMES[t] < PRIMES[t] + 2 * g < PRIMES[t + 1] ==> !Sifted(PRIMES[t] + 2 * g)
  {
    hide PRIMES, Sifted;
    if t < 16 {
      Between0(t, g);
    } else if t < 32 {
      Between1(t, g);
    } else if t < 48 {
      Between2(t, g);
    } else {
      Between3(t, g);
    }
  }

  lemma Ends()
    ensures |PRIMES| == 64 && PRIMES[0] == 2 && PRIMES[1] == 3 && PRIMES[63] == 311
  {
  }

  lemma NoneBetween(t: nat, n: nat)
    requires t < 63 && PRIMES[t] < n < PRIMES[t + 1]
    ensures !Prime(n)
  {
    hide PRIMES, Sifted;
    Ends();
    Entry(t);
    Entry(t + 1);
    OddBetween(t, 0);
    if n % 2 == 0 {
      assert n % 2 == 0 && 2 < n;
    } else {
      assert t > 0;
      var g := (n - PRIMES[t]) / 2;
      assert n == PRIMES[t] + 2 * g;
      OddBetween(t, g);
      SiftedIsPrime(n);
    }
  }

  lemma AtLeastTwo(n: nat)
    ensures Prime(n) ==> n >= 2
  {
  }

  lemma {:induction false} FoundUpTo(t: nat, n: nat)
    requires t < 64 && Prime(n) && n <= PRIMES[t]
    ensures n in PRIMES
  {
    hide PRIMES, Prime;
    Ends();
    if n < PRIMES[t] {
      if t == 0 {
        Entry(0);
        AtLeastTwo(n);
      } else {
        if PRIMES[t - 1] < n {
          NoneBetween(t - 1, n);
        }
        FoundUpTo(t - 1, n);
      }
    }
  }

  /** The table holds the first sixty-four primes in order: every prime up to 311 and nothing else. */
  lemma FirstPrimes()
    ensures |PRIMES| == 64 && forall n: nat :: n <= 311 ==> (n in PRIMES <==> Prime(n))
    ensures forall t :: 0 <= t < 63 ==> PRIMES[t] < PRIMES[t + 1]
  {
    hide PRIMES, Prime;
    Ends();
    forall n: nat | n <= 311
      ensures n in PRIMES <==> Prime(n)
    {
      if n in PRIMES {
        var t :| 0 <= t < |PRIMES| && PRIMES[t] == n;
        Entry(t);
      }
      if Prime(n) {
        FoundUpTo(63, n);
      }
    }
    forall t | 0 <= t < 63
      ensures PRIMES[t] < PRIMES[t + 1]
    {
      OddBetween(t, 0);
    }
  }

  // ---- Roots

  /** A root of p, in units of 2^-32 and rounded down. */
  predicate CubeRoot(x: nat, p: nat) {
    x * x * x <= p * (WORD * WORD * WORD) < (x + 1) * (x + 1) * (x + 1)
  }

  predicate SquareRoot(x: nat, p: nat) {
    x * x <= p * (WORD * WORD) < (x + 1) * (x + 1)
  }

  function WholeCubeRoot(p: nat): nat {
    if p < 8 then 1 else if p < 27 then 2 else if p < 64 then 3 else if p < 125 then 4 else if p < 216 then 5 else 6
  }

  lemma Cubes0(t: nat)
    requires 0 <= t < 16
    ensures CubeRoot(WholeCubeRoot(PRIMES[t]) * WORD + K[t], PRIMES[t])
  {
  }

  lemma Cubes1(t: nat)
    requires 16 <= t < 32
    ensures CubeRoot(WholeCubeRoot(PRIMES[t]) * WORD + K[t], PRIMES[t])
  {
  }

  lemma Cubes2(t: nat)
    requires 32 <= t < 48
    ensures CubeRoot(WholeCubeRoot(PRIMES[t]) * WORD + K[t], PRIMES[t])
  {
  }

  lemma Cubes3(t: nat)
    requires 48 <= t < 64
    ensures CubeRoot(WholeCubeRoot(PRIMES[t]) * WORD + K[t], PRIMES[t])
  {
  }

  /** Section 4.2.2 of FIPS 180-4: the round constants are the first 32 bits of the fractional parts of the cube roots. */
  lemma RoundConstants(t: nat)
    requires t < 64
    ensures |K| == 64 && exists x: nat :: CubeRoot(x, PRIMES[t]) && x % WORD == K[t]
  {
    hide PRIMES, K, CubeRoot;
    Ends();
    TableLength();
    if t < 16 {
      Cubes0(t);
    } else if t < 32 {
      Cubes1(t);
    } else if t < 48 {
      Cubes2(t);
    } else {
      Cubes3(t);
    }
    var x := WholeCubeRoot(PRIMES[t]) * WORD + K[t];
    assert x % WORD == K[t];
  }

  lemma TableLength()
    ensures |K| == 64
  {
  }

  function WholeSquareRoot(p: nat): nat {
    if p < 4 then 1 else if p < 9 then 2 else if p < 16 then 3 else 4
  }

  lemma Squares(t: nat)
    requires t < 8
    ensures SquareRoot(WholeSquareRoot(PRIMES[t]) * WORD + InOrder(INITIAL)[t], PRIMES[t])
  {
  }

  function InOrder(s: Eight): (w: seq<word>)
    ensures |w| == 8
  {
    [s.a, s.b, s.c, s.d, s.e, s.f, s.g, s.h]
  }

  /** Section 5.3.3: the initial value is that of the square roots. */
  lemma InitialValue(t: nat)
    requires t < 8
    ensures exists x: nat :: SquareRoot(x, PRIMES[t]) && x % WORD == InOrder(INITIAL)[t]
  {
    hide PRIMES, SquareRoot, InOrder;
    Ends();
    Squares(t);
    var x := WholeSquareRoot(PRIMES[t]) * WORD + InOrder(INITIAL)[t];
    assert x % WORD == InOrder(INITIAL)[t];
  }

  // ---- The logical functions, bit by bit

  /** Bit i of a number, counted from the low end. */
  function Bit(v: nat, i: nat): (b: nat)
    ensures b < 2
  {
    if i == 0 then v % 2 else Bit(v / 2, i - 1)
  }

  lemma {:induction false} BitOfXorAnd(a: nat, b: nat, i: nat)
    ensures Bit(Xor(a, b), i) == (Bit(a, i) + Bit(b, i)) % 2
    ensures Bit(And(a, b), i) == 1 <==> Bit(a, i) == 1 && Bit(b, i) == 1
  {
    assert Xor(a, b) / 2 == Xor(a / 2, b / 2) && And(a, b) / 2 == And(a / 2, b / 2);
    assert Xor(a, b) % 2 == (a % 2 + b % 2) % 2 && (And(a, b) % 2 == 1 <==> a % 2 == 1 && b % 2 == 1);
    hide Xor, And;
    if i > 0 {
      BitOfXorAnd(a / 2, b / 2, i - 1);
    }
  }

  /** What is added from bit k on does not reach a lower bit. */
  lemma {:induction false} BitBelow(v: nat, m: nat, k: nat, i: nat)
    requires i < k
    ensures Bit(v + m * Pow2(k), i) == Bit(v, i)
  {
    var h := m * Pow2(k - 1);
    assert m * Pow2(k) == 2 * h;
    if i > 0 {
      assert (v + 2 * h) / 2 == v / 2 + h;
      BitBelow(v / 2, m, k - 1, i - 1);
    }
  }

  lemma {:induction false} BitOfLowered(v: nat, n: nat, i: nat)
    ensures Bit(Lowered(v, n), i) == Bit(v, i + n)
  {
    if n > 0 {
      DivDiv(v, 2, Pow2(n - 1));
      assert Lowered(v, n) == Lowered(v / 2, n - 1);
      BitOfLowered(v / 2, n - 1, i);
    }
  }

  /** The bits of two parts set side by side, r above q. */
  lemma BitOfParts(q: nat, r: nat, m: nat, i: nat)
    requires q < Pow2(m)
    ensures Bit(q + r * Pow2(m), i) == if i < m then Bit(q, i) else Bit(r, i - m)
  {
    hide Pow2, Bit;
    if i < m {
      BitBelow(q, r, m, i);
    } else {
      assert Lowered(q + r * Pow2(m), m) == (q + r * Pow2(m)) / Pow2(m);
      QuotientUnique(q + r * Pow2(m), Pow2(m), r, q);
      BitOfLowered(q + r * Pow2(m), m, i - m);
    }
  }

  lemma RorParts(x: word, n: nat)
    requires n <= 32
    ensures Ror(x, n) == Lowered(x, n) + LowBits(x, n) * Pow2(32 - n)
    ensures x == LowBits(x, n) + Lowered(x, n) * Pow2(n) && Lowered(x, n) < Pow2(32 - n) && LowBits(x, n) < Pow2(n)
  {
    hide Pow2;
    Halves(n);
    FractionBelow(x, Pow2(n), Pow2(32 - n));
  }

  /** Bit i of a word rotated right by n is bit i + n of the word, counted around. */
  lemma BitOfRor(x: word, n: nat, i: nat)
    requires 0 < n < 32 && i < 32
    ensures Bit(Ror(x, n), i) == Bit(x, (i + n) % 32)
  {
    hide *;
    RorParts(x, n);
    BitOfParts(Lowered(x, n), LowBits(x, n), 32 - n, i);
    if i < 32 - n {
      BitOfLowered(x, n, i);
    } else {
      BitOfParts(LowBits(x, n), Lowered(x, n), n, i + n - 32);
      assert (i + n) % 32 == i + n - 32;
    }
  }

  lemma BitOfShift(x: word, n: nat, i: nat)
    ensures Bit(ShiftRight(x, n), i) == Bit(x, i + n)
  {
    BitOfLowered(x, n, i);
  }

  lemma {:induction false} BitOfOnes(n: nat, i: nat)
    requires i < n
    ensures Bit(Pow2(n) - 1, i) == 1
  {
    if i > 0 {
      assert (Pow2(n) - 1) / 2 == Pow2(n - 1) - 1;
      BitOfOnes(n - 1, i - 1);
    }
  }

  lemma BitOfComplement(x: word, i: nat)
    requires i < 32
    ensures Bit(WORD - 1 - x, i) == 1 - Bit(x, i)
  {
    hide Bit, Xor, Pow2;
    PowerOfWord();
    XorOnes(x, 32);
    BitOfOnes(32, i);
    BitOfXorAnd(x, Pow2(32) - 1, i);
  }

  lemma BitOfThree(a: nat, b: nat, c: nat, i: nat)
    ensures Bit(Xor(Xor(a, b), c), i) == (Bit(a, i) + Bit(b, i) + Bit(c, i)) % 2
  {
    BitOfXorAnd(a, b, i);
    BitOfXorAnd(Xor(a, b), c, i);
  }

  /** The first two functions choose and take the majority of three bits. */
  lemma ChooseAndMajority(x: word, y: word, z: word, i: nat)
    requires i < 32
    ensures Bit(Ch(x, y, z), i) == if Bit(x, i) == 1 then Bit(y, i) else Bit(z, i)
    ensures Bit(Maj(x, y, z), i) == 1 <==> Bit(x, i) + Bit(y, i) + Bit(z, i) >= 2
  {
    hide Bit, And, Xor;
    BitOfComplement(x, i);
    BitOfXorAnd(x, y, i);
    BitOfXorAnd(x, z, i);
    BitOfXorAnd(y, z, i);
    BitOfXorAnd(WORD - 1 - x, z, i);
    BitOfXorAnd(And(x, y), And(WORD - 1 - x, z), i);
    BitOfThree(And(x, y), And(x, z), And(y, z), i);
  }

  /** Each bit of the other four is the parity of three bits of the word, those shifted out being 0. */
  lemma SigmaBits(x: word, i: nat)
    requires i < 32
    ensures Bit(BigSigma0(x), i) == (Bit(x, (i + 2) % 32) + Bit(x, (i + 13) % 32) + Bit(x, (i + 22) % 32)) % 2
    ensures Bit(BigSigma1(x), i) == (Bit(x, (i + 6) % 32) + Bit(x, (i + 11) % 32) + Bit(x, (i + 25) % 32)) % 2
    ensures Bit(SmallSigma0(x), i) == (Bit(x, (i + 7) % 32) + Bit(x, (i + 18) % 32) + Bit(x, i + 3)) % 2
    ensures Bit(SmallSigma1(x), i) == (Bit(x, (i + 17) % 32) + Bit(x, (i + 19) % 32) + Bit(x, i + 10)) % 2
  {
    hide Bit, Xor, Ror, ShiftRight;
    forall n | n in {2, 6, 7, 11, 13, 17, 18, 19, 22, 25}
      ensures Bit(Ror(x, n), i) == Bit(x, (i + n) % 32)
    {
      BitOfRor(x, n, i);
    }
    BitOfShift(x, 3, i);
    BitOfShift(x, 10, i);
    BitOfThree(Ror(x, 2), Ror(x, 13), Ror(x, 22), i);
    BitOfThree(Ror(x, 6), Ror(x, 11), Ror(x, 25), i);
    BitOfThree(Ror(x, 7), Ror(x, 18), ShiftRight(x, 3), i);
    BitOfThree(Ror(x, 17), Ror(x, 19), ShiftRight(x, 10), i);
  }
}
