/** ARM rotated immediates, and the instructions that load and add constants with them. */
module ArmImmediate {
  import opened Bytes
  import opened Powers
  import opened Rotations

  // ---- Operands

  /** The word that a twelve-bit operand stands for: eight bits rotated right by an even count. */
  function Operand(e: nat): int
    requires e < 0x1000
  {
    Ror(e % 256, 2 * (e / 256))
  }

  /** Some operand stands for the word. */
  ghost predicate Encodable(v: int) {
    exists e: nat :: e < 0x1000 && Operand(e) == v
  }

  lemma SmallPowers()
    ensures Pow2(0) == 1 && Pow2(1) == 2 && Pow2(2) == 4 && Pow2(3) == 8 && Pow2(4) == 16 && Pow2(6) == 64 && Pow2(8) == 256
  {
    assert Pow2(2) == 4;
    assert Pow2(4) == 16;
    assert Pow2(6) == 64;
  }

  // ---- Finding an operand

  lemma Reduce(value: word, top: nat, k: nat)
    ensures value / Pow2(top) / Pow2(k) == value / Pow2(top + k)
  {
    PowerSum(top, k);
    DivDiv(value, Pow2(top), Pow2(k));
  }

  lemma TopOf(value: word, top: nat)
    requires value / Pow2(top) == 1 && value > 255
    ensures Pow2(top) <= value < Pow2(top + 1) && 8 <= top < 32
  {
    assert value == Pow2(top) + value % Pow2(top);
    PowerOfWord();
    if top >= 32 {
      PowerBelow(32, top);
    }
    if top < 8 {
      SmallPowers();
      PowerBelow(top + 1, 8);
    }
  }

  /** The position of the highest set bit, by bounded reductions. */
  method TopBit(value: word) returns (top: nat)
    requires value > 255
    ensures Pow2(top) <= value < Pow2(top + 1) && 8 <= top < 32
  {
    hide Pow2;
    SmallPowers();
    SixteenBits();
    top := 0;
    var high := value;
    if high > 65535 {
      high := high / 65536;
      top := top + 16;
    }
    assert high == value / Pow2(top) && 0 < high < 65536;
    if high > 255 {
      Reduce(value, top, 8);
      high := high / 256;
      top := top + 8;
    }
    assert high == value / Pow2(top) && 0 < high < 256;
    if high > 15 {
      Reduce(value, top, 4);
      high := high / 16;
      top := top + 4;
    }
    assert high == value / Pow2(top) && 0 < high < 16;
    if high > 3 {
      Reduce(value, top, 2);
      high := high / 4;
      top := top + 2;
    }
    assert high == value / Pow2(top) && 0 < high < 4;
    if high > 1 {
      Reduce(value, top, 1);
      top := top + 1;
    }
    TopOf(value, top);
  }

  lemma SixteenBits()
    ensures Pow2(16) == 65536
  {
    SmallPowers();
    PowerSum(8, 8);
  }

  /** The even shift that brings the highest bit to position six or seven. */
  function Alignment(top: nat): nat
    requires top >= 8
  {
    (top - 6) - (top - 6) % 2
  }

  /** Whether a payload at that alignment gives the whole value. */
  predicate Aligned(value: word, top: nat)
    requires top >= 8
  {
    value % Pow2(Alignment(top)) == 0
  }

  /** An aligned payload is a byte, and its operand stands for the value. */
  lemma AlignedIsOperand(value: word, top: nat)
    requires Pow2(top) <= value < Pow2(top + 1) && 8 <= top < 32 && Aligned(value, top)
    ensures var shift := Alignment(top); var payload := value / Pow2(shift);
      payload < 256 && Operand(((32 - shift) / 2) * 256 + payload) == value
  {
    hide Pow2, Ror, Operand;
    SmallPowers();
    var shift := Alignment(top);
    var payload := value / Pow2(shift);
    PowerSum(shift, 8);
    PowerBelow(top + 1, shift + 8);
    QuotientBounds(value, Pow2(shift));
    FractionBelow(value, Pow2(shift), 256);
    PowerBelow(8, 32 - shift);
    RorSmall(payload, 32 - shift);
    Remainder(value, payload, Pow2(shift));
    OperandOf((32 - shift) / 2, payload);
  }

  /** A payload that stays within the bits it is rotated by comes out above them. */
  lemma RorSmall(p: nat, n: nat)
    requires n <= 32 && p < Pow2(n)
    ensures Ror(p, n) == p * Pow2(32 - n)
  {
    hide Pow2;
    QuotientUnique(p, Pow2(n), 0, p);
  }

  lemma OperandOf(rotation: nat, payload: nat)
    requires rotation < 16 && payload < 256
    ensures Operand(rotation * 256 + payload) == Ror(payload, 2 * rotation)
  {
    hide Ror;
    QuotientUnique(rotation * 256 + payload, 256, rotation, payload);
  }

  lemma Remainder(value: nat, payload: nat, p: nat)
    requires p > 0 && payload == value / p
    ensures payload * p == value <==> value % p == 0
  {
    assert value == payload * p + value % p;
  }

  /** A multiple of a power of two above the alignment is aligned. */
  lemma Divides(value: word, p: nat, high: nat, low: nat)
    requires low <= high && value == p * Pow2(high)
    ensures value % Pow2(low) == 0
  {
    hide Pow2;
    var a, b := Pow2(high - low), Pow2(low);
    PowerSum(high - low, low);
    assert p * (a * b) == (p * a) * b;
    QuotientUnique(value, b, p * a, 0);
  }

  /** Any operand of a value above a byte is found, at the alignment or by a rotation that wraps. */
  lemma OperandIsFound(value: word, top: nat, e: nat)
    requires Pow2(top) <= value < Pow2(top + 1) && 8 <= top < 32 && e < 0x1000 && Operand(e) == value
    ensures Aligned(value, top) || (1 <= e / 256 <= 3 && Rol(value, 2 * (e / 256)) == e % 256)
  {
    hide Pow2, Rol;
    var p, n := e % 256, 2 * (e / 256);
    RolRor(p, n);
    SmallPowers();
    if n >= 8 {
      PowerBelow(8, n);
      RorSmall(p, n);
      TopWithin(value, top, p, 32 - n);
      Divides(value, p, 32 - n, Alignment(top));
    } else {
      PowerBelow(8, top);
    }
  }

  lemma TopWithin(value: word, top: nat, p: nat, n: nat)
    requires Pow2(top) <= value && value == p * Pow2(n) && p < 256
    ensures top < n + 8
  {
    hide Pow2;
    SmallPowers();
    PowerSum(8, n);
    Product(255 - p, Pow2(n));
    assert (255 - p) * Pow2(n) == 255 * Pow2(n) - p * Pow2(n);
    if n + 8 <= top {
      PowerBelow(n + 8, top);
    }
  }

  lemma ByteIsOperand(value: nat)
    requires value <= 255
    ensures Operand(value) == value
  {
  }

  lemma RolledIsOperand(value: word, rotation: nat)
    requires 1 <= rotation <= 3 && Rol(value, 2 * rotation) <= 255
    ensures 0 <= Rol(value, 2 * rotation) && Operand(rotation * 256 + Rol(value, 2 * rotation)) == value
  {
    hide Pow2, Ror, Rol;
    RorRol(value, 2 * rotation);
  }

  /** No operand is left when neither the alignment nor a wrapping rotation gives one. */
  lemma NoOperand(value: word, top: nat)
    requires Pow2(top) <= value < Pow2(top + 1) && 8 <= top < 32 && !Aligned(value, top)
    requires forall r :: 1 <= r <= 3 ==> Rol(value, 2 * r) > 255
    ensures !Encodable(value)
  {
    hide Pow2, Rol, Operand, Aligned;
    forall e: nat | e < 0x1000
      ensures Operand(e) != value
    {
      if Operand(e) == value {
        OperandIsFound(value, top, e);
      }
    }
  }

  /** The operand of a value, or -1: an operand is returned exactly when there is one. */
  method Immediate(value: word) returns (encoded: int)
    ensures encoded == -1 <==> !Encodable(value)
    ensures encoded != -1 ==> 0 <= encoded < 0x1000 && Operand(encoded) == value
  {
    hide Pow2, Rol, Operand;
    if value <= 255 {
      ByteIsOperand(value);
      return value;
    }
    var top := TopBit(value);
    var shift := Alignment(top);
    var payload := value / Pow2(shift);
    Remainder(value, payload, Pow2(shift));
    if payload * Pow2(shift) == value {
      AlignedIsOperand(value, top);
      return ((32 - shift) / 2) * 256 + payload;
    }
    for rotation := 1 to 4
      invariant forall r :: 1 <= r < rotation ==> Rol(value, 2 * r) > 255
    {
      var rolled := Or(ShiftLeft(value, 2 * rotation), ShiftRight(value, 32 - 2 * rotation));
      UnionRolls(value, 2 * rotation);
      if rolled <= 255 {
        RolledIsOperand(value, rotation);
        return rotation * 256 + rolled;
      }
    }
    NoOperand(value, top);
    encoded := -1;
  }
}
