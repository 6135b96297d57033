/** Rotations of 32-bit words, and the bitwise operations, on integers. */
module Rotations {
  import opened Bytes
  import opened Powers

  type word = x: int | 0 <= x < WORD

  // ---- Shifts and rotations

  function ShiftLeft(a: word, n: nat): word {
    (a * Pow2(n)) % WORD
  }

  function ShiftRight(a: word, n: nat): word {
    Lowered(a, n)
  }

  /** A value moved up by n bits. */
  function Raised(v: nat, n: nat): nat {
    v * Pow2(n)
  }

  /** A value moved down by n bits. */
  function Lowered(v: nat, n: nat): (r: nat)
    ensures r <= v
  {
    QuotientBounds(v, Pow2(n));
    v / Pow2(n)
  }

  /** The n low bits of a value. */
  function LowBits(v: nat, n: nat): nat {
    v % Pow2(n)
  }

  /** A word rotated right. */
  function Ror(p: nat, n: nat): nat
    requires n <= 32
  {
    Lowered(p, n) + Raised(LowBits(p, n), 32 - n)
  }

  /** A word rotated left; the two parts share no bit, so their union is their sum. */
  function Rol(v: word, n: nat): nat
    requires n <= 32
  {
    ShiftLeft(v, n) + ShiftRight(v, 32 - n)
  }

  lemma FractionBelow(v: nat, b: nat, a: nat)
    requires b > 0 && v < a * b
    ensures v / b < a
  {
    assert v - a * b == (v / b - a) * b + v % b;
    BoundsOf(v - a * b, b, v / b - a, v % b);
  }

  lemma Joined(q: nat, r: nat, a: nat, b: nat)
    requires q < a && r < b
    ensures q * b + r < a * b
  {
    assert (a - q) * b == a * b - q * b;
    Product(a - q - 1, b);
    assert (a - q) * b == (a - q - 1) * b + b;
  }

  /** A word cut in two, with q above r, and the same parts changed over. */
  lemma Parts(q: nat, r: nat, a: nat, b: nat)
    requires a > 0 && b > 0 && a * b == WORD && q < a && r < b
    ensures (q * b + r) / b == q && (q * b + r) % b == r && (r * a + q) / a == r && (r * a + q) % a == q
    ensures ((q * b + r) * a) % WORD == r * a && 0 <= q * b + r < WORD && 0 <= r * a + q < WORD
  {
    Joined(q, r, a, b);
    Joined(r, q, b, a);
    QuotientUnique(q * b + r, b, q, r);
    QuotientUnique(r * a + q, a, r, q);
    assert (q * b + r) * a == q * (a * b) + r * a;
    QuotientUnique((q * b + r) * a, WORD, q, r * a);
  }

  lemma Halves(n: nat)
    requires n <= 32
    ensures Pow2(n) * Pow2(32 - n) == WORD
  {
    PowerSum(n, 32 - n);
    PowerOfWord();
  }

  /** Rotating right undoes rotating left, for any word. */
  lemma RorRol(v: word, n: nat)
    requires n <= 32
    ensures 0 <= Rol(v, n) < WORD && Ror(Rol(v, n), n) == v
  {
    hide Pow2;
    var a, b := Pow2(n), Pow2(32 - n);
    Halves(n);
    FractionBelow(v, b, a);
    Parts(v / b, v % b, a, b);
    assert v == (v / b) * b + v % b;
  }

  /** Rotating left undoes rotating right. */
  lemma RolRor(p: word, n: nat)
    requires n <= 32
    ensures 0 <= Ror(p, n) < WORD && Rol(Ror(p, n), n) == p
  {
    hide Pow2;
    var a, b := Pow2(n), Pow2(32 - n);
    Halves(n);
    FractionBelow(p, a, b);
    Parts(p % a, p / a, a, b);
    assert p == (p / a) * a + p % a;
  }


  // ---- Bitwise operations, bit by bit

  function Or(a: nat, b: nat): (r: nat)
    decreases a + b
  {
    if a == 0 && b == 0 then 0 else (if a % 2 == 1 || b % 2 == 1 then 1 else 0) + 2 * Or(a / 2, b / 2)
  }

  function And(a: nat, b: nat): (r: nat)
    decreases a + b
  {
    if a == 0 && b == 0 then 0 else (if a % 2 == 1 && b % 2 == 1 then 1 else 0) + 2 * And(a / 2, b / 2)
  }

  function Xor(a: nat, b: nat): (r: nat)
    decreases a + b
  {
    if a == 0 && b == 0 then 0 else (if a % 2 != b % 2 then 1 else 0) + 2 * Xor(a / 2, b / 2)
  }

  /** Bitwise operations stay within the width of their operands. */
  lemma {:induction false} BitsBelow(a: nat, b: nat, n: nat)
    requires a < Pow2(n) && b < Pow2(n)
    ensures Or(a, b) < Pow2(n) && And(a, b) < Pow2(n) && Xor(a, b) < Pow2(n)
  {
    if n > 0 {
      BitsBelow(a / 2, b / 2, n - 1);
    }
  }

  lemma {:induction false} OrNothing(b: nat)
    ensures Or(0, b) == b
  {
    if b > 0 {
      OrNothing(b / 2);
    }
  }

  lemma HalfMultiple(b: nat, n: nat)
    requires n > 0 && b % Pow2(n) == 0
    ensures (b / 2) % Pow2(n - 1) == 0 && b % 2 == 0
  {
    var p, q := Pow2(n - 1), b / Pow2(n);
    assert Pow2(n) == 2 * p;
    hide Pow2;
    assert b == q * (2 * p);
    assert q * (2 * p) == 2 * (q * p);
    QuotientUnique(b / 2, p, q, 0);
  }

  /** The union of fields that share no bit is their sum. */
  lemma {:induction false} OrDisjoint(a: nat, b: nat, n: nat)
    requires a < Pow2(n) && b % Pow2(n) == 0
    ensures Or(a, b) == a + b && Or(b, a) == a + b
  {
    if n == 0 {
      OrNothing(b);
      OrSwap(a, b);
    } else {
      HalfMultiple(b, n);
      OrDisjoint(a / 2, b / 2, n - 1);
      OrSwap(a, b);
    }
  }

  lemma {:induction false} OrSwap(a: nat, b: nat)
    ensures Or(a, b) == Or(b, a)
    decreases a + b
  {
    if a != 0 || b != 0 {
      OrSwap(a / 2, b / 2);
    }
  }

  /** Flipping the low n bits of a value within them is its complement. */
  lemma {:induction false} XorOnes(a: nat, n: nat)
    requires a < Pow2(n)
    ensures Xor(a, Pow2(n) - 1) == Pow2(n) - 1 - a
  {
    if n > 0 {
      XorOnes(a / 2, n - 1);
    }
  }

  /** The rotation of a word as a union of two shifts. */
  lemma UnionRotates(x: word, n: nat)
    requires 0 < n < 32
    ensures Or(ShiftRight(x, n), ShiftLeft(x, 32 - n)) == Ror(x, n)
  {
    hide Pow2, Or;
    var a, b := Pow2(32 - n), Pow2(n);
    Halves(32 - n);
    FractionBelow(x, b, a);
    Parts(x / b, x % b, a, b);
    assert x == (x / b) * b + x % b;
    QuotientUnique((x % b) * a, a, x % b, 0);
    OrDisjoint(x / b, (x % b) * a, 32 - n);
  }

  lemma UnionRolls(x: word, n: nat)
    requires 0 < n < 32
    ensures Or(ShiftLeft(x, n), ShiftRight(x, 32 - n)) == Rol(x, n)
  {
    hide Pow2, Or;
    UnionRotates(x, 32 - n);
    OrSwap(ShiftLeft(x, n), ShiftRight(x, 32 - n));
    var a, b := Pow2(n), Pow2(32 - n);
    Halves(n);
    FractionBelow(x, b, a);
    Parts(x / b, x % b, a, b);
    assert x == (x / b) * b + x % b;
  }
}
