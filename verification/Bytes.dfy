/** Machine bytes and little-endian words, as the code emitter reads and writes them. */
module Bytes {

  type byte = x: int | 0 <= x < 256

  const WORD := 0x1_0000_0000
  const HALF := 0x8000_0000

  /** Conversion of an int to a byte: the low eight bits. */
  function Byte(v: int): byte {
    v % 256
  }

  /** The four little-endian bytes of the low 32 bits of v. */
  function Le32(v: int): (s: seq<byte>)
    ensures |s| == 4
  {
    [Byte(v), Byte(v / 0x100), Byte(v / 0x1_0000), Byte(v / 0x100_0000)]
  }

  function Word(b0: byte, b1: byte, b2: byte, b3: byte): int {
    b0 + b1 * 0x100 + b2 * 0x1_0000 + b3 * 0x100_0000
  }

  /** The unsigned 32-bit little-endian word at an offset. */
  function Get32(s: seq<byte>, at: nat): (v: int)
    requires at + 4 <= |s|
    ensures 0 <= v < WORD
  {
    Word(s[at], s[at + 1], s[at + 2], s[at + 3])
  }

  /** Overwrites the 32-bit little-endian word at an offset. */
  function Put32(s: seq<byte>, at: nat, v: int): (r: seq<byte>)
    requires at + 4 <= |s|
    ensures |r| == |s|
  {
    s[..at] + Le32(v) + s[at + 4..]
  }

  /** Two's complement reading of a 32-bit word and of a byte. */
  function Signed32(v: int): int {
    if v >= HALF then v - WORD else v
  }

  function Signed8(b: byte): int {
    if b >= 128 then b - 256 else b
  }

  /** Masking with 0x7fffffff clears the mark kept in the sign bit of an int32. */
  function Unmark(v: int): (r: nat)
    ensures r < HALF
  {
    v % HALF
  }

  function Mark(v: nat): (r: int) {
    v - HALF
  }

  lemma WordOfLe32(v: int)
    ensures Word(Le32(v)[0], Le32(v)[1], Le32(v)[2], Le32(v)[3]) == v % WORD
  {
    var q0, q1, q2, q3 := v / 0x100, v / 0x1_0000, v / 0x100_0000, v / WORD;
    DivDiv(v, 0x100, 0x100);
    DivDiv(v, 0x1_0000, 0x100);
    DivDiv(v, 0x100_0000, 0x100);
    assert v == q0 * 0x100 + v % 0x100;
    assert q0 == q1 * 0x100 + q0 % 0x100;
    assert q1 == q2 * 0x100 + q1 % 0x100;
    assert q2 == q3 * 0x100 + q2 % 0x100;
    assert v == q3 * WORD + v % WORD;
  }

  lemma DivDiv(v: int, a: int, b: int)
    requires a > 0 && b > 0
    ensures a * b > 0 && v / (a * b) == v / a / b
  {
    var q := v / a / b;
    var r := v / a % b;
    assert v == (q * b + r) * a + v % a;
    assert (q * b + r) * a == q * (a * b) + r * a;
    assert 0 <= r * a + v % a < a * b by {
      assert (r + 1) * a <= b * a;
    }
    QuotientUnique(v, a * b, q, r * a + v % a);
  }

  lemma QuotientUnique(v: int, d: int, q: int, r: int)
    requires d > 0 && v == q * d + r && 0 <= r < d
    ensures v / d == q && v % d == r
  {
    var e := v / d - q;
    assert e * d == r - v % d by {
      assert (v / d) * d == e * d + q * d;
    }
    MultipleOf(e, d);
  }

  lemma MultipleOf(e: int, d: int)
    requires d > 0
    ensures e >= 1 ==> e * d >= d
    ensures e <= -1 ==> e * d <= -d
  {
    assert (e - 1) * d == e * d - d && (e + 1) * d == e * d + d;
  }

  /** Writing a word then reading it back gives its low 32 bits. */
  lemma GetPut32(s: seq<byte>, at: nat, v: int)
    requires at + 4 <= |s|
    ensures Get32(Put32(s, at, v), at) == v % WORD
    ensures forall j :: 0 <= j < |s| && !(at <= j < at + 4) ==> Put32(s, at, v)[j] == s[j]
  {
    var r := Put32(s, at, v);
    assert forall k :: 0 <= k < 4 ==> r[at + k] == Le32(v)[k];
    assert r[at] == Le32(v)[0];
    WordOfLe32(v);
  }
}
