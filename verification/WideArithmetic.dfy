/** 64-bit arithmetic lowered to 32-bit words: the emitted programs, run on a machine with two
    registers and a frame of words. A wide value at slot v has its low word at v and its high word
    at v - 1. Every program uses temporary slots from t on, behind all its operands. */
module WideArithmetic {
  import opened Bytes
  import opened Powers
  import opened Rotations

  // ---- Words

  function Sum(a: word, b: word): word {
    (a + b) % WORD
  }

  function Difference(a: word, b: word): word {
    (a - b) % WORD
  }

  function ShiftRightSigned(a: word, n: nat): word {
    (Signed32(a) / Pow2(n)) % WORD
  }

  function Flag(b: bool): word {
    if b then 1 else 0
  }

  // ---- Wide values

  function Wide(low: word, high: word): (v: nat)
    ensures v < WIDE
  {
    low + high * WORD
  }

  function Value(frame: seq<word>, v: nat): (r: nat)
    requires 1 <= v < |frame|
    ensures r < WIDE
  {
    Wide(frame[v], frame[v - 1])
  }

  function SignedWide(v: int): int {
    if v >= TOP then v - WIDE else v
  }

  /** Half of a wide value, rounded down; its sign is kept when it is read as signed. */
  function Halved(v: int, signed: bool): int {
    if signed then (SignedWide(v) / 2) % WIDE else v / 2
  }

  function Negated(v: int): int {
    (-v) % WIDE
  }

  /** Division of the source language: the quotient is rounded toward zero. */
  function Truncated(a: int, b: int): int
    requires b != 0
  {
    if (a < 0) == (b < 0) then Magnitude(a) / Magnitude(b) else -(Magnitude(a) / Magnitude(b))
  }

  /** The remainder has the sign of the dividend. */
  function Remaining(a: int, b: int): int
    requires b != 0
  {
    if a < 0 then -(Magnitude(a) % Magnitude(b)) else a % Magnitude(b)
  }

  function Magnitude(a: int): nat {
    if a < 0 then -a else a
  }

  /** Quotient and remainder belong together, and only this pair does. */
  lemma TruncatedIsDivision(a: int, b: int)
    requires b != 0
    ensures a == Truncated(a, b) * b + Remaining(a, b) && Magnitude(Remaining(a, b)) < Magnitude(b)
    ensures Remaining(a, b) == 0 || (Remaining(a, b) < 0 <==> a < 0)
  {
    var x, y := Magnitude(a), Magnitude(b);
    assert x == (x / y) * y + x % y;
  }

  /** Two wide values share no slot, or are the same. */
  predicate Separate(u: nat, v: nat) {
    u + 1 < v || v + 1 < u
  }

  predicate SameOrSeparate(u: nat, v: nat) {
    u == v || Separate(u, v)
  }

  /** Below the temporaries only the wide value at d may differ; d is 0 when none does. */
  ghost predicate Kept(before: seq<word>, after: seq<word>, t: nat, d: nat) {
    |after| == |before| && forall k :: 0 <= k < t <= |before| && (d == 0 || (k != d && k != d - 1)) ==> after[k] == before[k]
  }

  // ---- Facts about words

  lemma SumCarries(a: word, b: word)
    ensures a + b == Sum(a, b) + WORD * Flag(Sum(a, b) < a)
  {
  }

  lemma DifferenceBorrows(a: word, b: word)
    ensures a - b == Difference(a, b) - WORD * Flag(a < b)
  {
  }

  lemma AddWide(al: word, ah: word, bl: word, bh: word)
    ensures var l := Sum(al, bl);
            Wide(l, Sum(Sum(ah, bh), Flag(l < al))) == (Wide(al, ah) + Wide(bl, bh)) % WIDE
  {
    SumCarries(al, bl);
  }

  lemma SubWide(al: word, ah: word, bl: word, bh: word)
    ensures Wide(Difference(al, bl), Difference(Difference(ah, bh), Flag(al < bl))) == (Wide(al, ah) - Wide(bl, bh)) % WIDE
  {
    DifferenceBorrows(al, bl);
  }

  lemma ShiftsOfOne(a: word)
    ensures ShiftLeft(a, 1) == 2 * a - WORD * (a / HALF) && ShiftRight(a, 1) == a / 2 && ShiftRight(a, 31) == a / HALF
    ensures ShiftRightSigned(a, 1) == a / 2 + (if a >= HALF then HALF else 0)
  {
    PowersOfWords();
  }

  lemma ShiftToTop(a: word)
    ensures ShiftLeft(a, 31) == (a % 2) * HALF
  {
    hide Pow2;
    PowersOfWords();
    QuotientUnique(a * HALF, WORD, a / 2, (a % 2) * HALF);
  }

  lemma DoubleHigh(low: word, high: word)
    ensures Sum(ShiftLeft(high, 1), ShiftRight(low, 31)) == 2 * high - WORD * (high / HALF) + low / HALF
  {
    hide ShiftLeft, ShiftRight;
    ShiftsOfOne(low);
    ShiftsOfOne(high);
  }

  lemma DoubleWide(low: word, high: word)
    ensures Wide(ShiftLeft(low, 1), Sum(ShiftLeft(high, 1), ShiftRight(low, 31))) == (2 * Wide(low, high)) % WIDE
  {
    hide ShiftLeft, ShiftRight, Sum;
    ShiftsOfOne(low);
    DoubleHigh(low, high);
    var l, h := ShiftLeft(low, 1), Sum(ShiftLeft(high, 1), ShiftRight(low, 31));
    QuotientUnique(2 * Wide(low, high), WIDE, high / HALF, Wide(l, h));
  }

  lemma HalveWide(low: word, high: word)
    ensures Wide(Sum(ShiftRight(low, 1), ShiftLeft(high, 31)), ShiftRight(high, 1)) == Wide(low, high) / 2
  {
    hide ShiftLeft, ShiftRight;
    ShiftsOfOne(low);
    ShiftsOfOne(high);
    ShiftToTop(high);
    QuotientUnique(low / 2 + (high % 2) * HALF, WORD, 0, low / 2 + (high % 2) * HALF);
    QuotientUnique(Wide(low, high), 2, low / 2 + (high % 2) * HALF + (high / 2) * WORD, low % 2);
  }

  lemma HalveWideSigned(low: word, high: word)
    ensures Wide(Sum(ShiftRight(low, 1), ShiftLeft(high, 31)), ShiftRightSigned(high, 1)) == (SignedWide(Wide(low, high)) / 2) % WIDE
  {
    ShiftsOfOne(high);
    HalveWide(low, high);
    hide ShiftLeft, ShiftRight, ShiftRightSigned;
    var l := Sum(ShiftRight(low, 1), ShiftLeft(high, 31));
    var w := Wide(low, high);
    if high >= HALF {
      assert (w - WIDE) / 2 == w / 2 - TOP;
    }
  }

  lemma LowestBit(low: word, high: word)
    ensures (ShiftLeft(low, 31) == 0) <==> Wide(low, high) % 2 == 0
  {
    hide ShiftLeft;
    ShiftToTop(low);
    assert Wide(low, high) == low + 2 * (high * HALF);
  }

  lemma ZeroWide(low: word, high: word)
    ensures Wide(low, high) == 0 <==> low == 0 && high == 0
  {
  }

  lemma NegatedMagnitude(v: nat)
    requires TOP <= v < WIDE
    ensures Negated(v) == WIDE - v == Magnitude(SignedWide(v))
  {
    var x: int := -(v as int);
    QuotientUnique(x, WIDE, -1, WIDE - v);
  }

  /** Division of magnitudes, with the sign put back. */
  lemma SignedResults(l: int, r: int)
    requires -TOP <= l < TOP && -TOP <= r < TOP && r != 0
    ensures var q, m := Magnitude(l) / Magnitude(r), Magnitude(l) % Magnitude(r);
      && Truncated(l, r) % WIDE == (if (l < 0) == (r < 0) then q else Negated(q))
      && Remaining(l, r) % WIDE == (if l < 0 then Negated(m) else m)
  {
    QuotientBounds(Magnitude(l), Magnitude(r));
    var q, m := Magnitude(l) / Magnitude(r), Magnitude(l) % Magnitude(r);
    QuotientUnique(q, WIDE, 0, q);
    QuotientUnique(m, WIDE, 0, m);
  }

  lemma EvenLow(low: word, high: word)
    requires Wide(low, high) % 2 == 0
    ensures low + 1 < WORD && Wide(Sum(low, 1), high) == Wide(low, high) + 1 && Sum(low, 0) == low
  {
    assert Wide(low, high) == low + 2 * (high * HALF);
  }

  lemma HighestBit(low: word, high: word)
    ensures ShiftRight(high, 31) == Wide(low, high) / TOP
  {
    ShiftsOfOne(high);
    hide ShiftRight;
  }

  // ---- Whole operations

  /** A shift by any count, of the value as signed or as unsigned. */
  function Shifted(v: int, right: bool, signed: bool, n: nat): int {
    if !right then (v * Pow2(n)) % WIDE
    else if signed then (SignedWide(v) / Pow2(n)) % WIDE
    else v / Pow2(n)
  }

  lemma ModTwice(a: int)
    ensures (2 * (a % WIDE)) % WIDE == (2 * a) % WIDE
  {
    var q, r := a / WIDE, a % WIDE;
    var q', r' := (2 * r) / WIDE, (2 * r) % WIDE;
    QuotientUnique(2 * a, WIDE, 2 * q + q', r');
  }

  lemma ShiftedLeftNext(v: nat, n: nat)
    ensures (v * Pow2(n + 1)) % WIDE == (2 * ((v * Pow2(n)) % WIDE)) % WIDE
  {
    var p := Pow2(n);
    ModTwice(v * p);
    assert 2 * (v * p) == v * (2 * p);
  }

  lemma ReadBack(x: int)
    requires -TOP <= x < TOP
    ensures SignedWide(x % WIDE) == x
  {
    QuotientUnique(x, WIDE, if x < 0 then -1 else 0, if x < 0 then x + WIDE else x);
  }

  lemma ShiftedRightNext(s: int, n: nat)
    requires -TOP <= s < TOP
    ensures s / Pow2(n + 1) == s / Pow2(n) / 2 && SignedWide((s / Pow2(n)) % WIDE) == s / Pow2(n)
  {
    hide SignedWide;
    DivDiv(s, Pow2(n), 2);
    QuotientBounds(s, Pow2(n));
    ReadBack(s / Pow2(n));
  }

  lemma ShiftedNext(v: nat, right: bool, signed: bool, n: nat)
    requires v < WIDE
    ensures Shifted(v, right, signed, n + 1)
         == if right then Halved(Shifted(v, right, signed, n), signed) else (2 * Shifted(v, right, signed, n)) % WIDE
  {
    if !right {
      ShiftedLeftNext(v, n);
    } else if signed {
      ShiftedRightNext(SignedWide(v), n);
    } else {
      DivDiv(v, Pow2(n), 2);
    }
  }

  lemma ShiftedByNone(v: nat, right: bool, signed: bool)
    requires v < WIDE
    ensures Shifted(v, right, signed, 0) == v
  {
    QuotientUnique(v, WIDE, 0, v);
    if v >= TOP {
      QuotientUnique(v - WIDE, WIDE, -1, v);
    }
  }

  lemma ShiftedBy64(v: nat, right: bool, signed: bool)
    requires v < WIDE
    ensures Shifted(v, right, signed, 64) == if right && signed && v >= TOP then WIDE - 1 else 0
  {
    hide Pow2;
    PowersOfWords();
    if !right {
      QuotientUnique(v * WIDE, WIDE, v, 0);
    } else if signed && v >= TOP {
      QuotientUnique(v - WIDE, WIDE, -1, v);
      assert -1 % WIDE == WIDE - 1;
    } else {
      QuotientUnique(v, WIDE, 0, v);
    }
  }

  /** From 64 on the count no longer matters. */
  lemma {:induction false} ShiftSaturates(v: nat, right: bool, signed: bool, n: nat)
    requires v < WIDE && n >= 64
    ensures Shifted(v, right, signed, n) == if right && signed && v >= TOP then WIDE - 1 else 0
  {
    hide Shifted, Pow2;
    if n > 64 {
      ShiftSaturates(v, right, signed, n - 1);
      ShiftedNext(v, right, signed, n - 1);
    } else {
      ShiftedBy64(v, right, signed);
    }
  }

  lemma MultiplyTerms(product: int, a: int, h: int, e: int, c: int, d: int, z: int, goal: int, w: int)
    requires product + a * (2 * h + e) == goal + z * w
    ensures product + e * a - d * w + (2 * a - c * w) * h == goal + (z - c * h - d) * w
  {
    assert a * (2 * h + e) == 2 * a * h + e * a;
    assert (2 * a - c * w) * h == 2 * a * h - c * w * h;
    assert (z - c * h - d) * w == z * w - c * h * w - d * w;
  }

  /** One step of shift-and-add keeps the sum of products, up to multiples of 2^64. */
  lemma MultiplyStep(product: nat, a: nat, b: nat, z: int, goal: int) returns (z': int)
    requires product + a * b == goal + z * WIDE
    ensures (if b % 2 == 0 then product else (product + a) % WIDE) + ((2 * a) % WIDE) * (b / 2) == goal + z' * WIDE
  {
    var c, h := (2 * a) / WIDE, b / 2;
    var d := if b % 2 == 0 then 0 else (product + a) / WIDE;
    z' := z - c * h - d;
    MultiplyTerms(product, a, h, b % 2, c, d, z, goal, WIDE);
    assert (2 * a) % WIDE == 2 * a - c * WIDE;
  }

  lemma HalfBelow(v: nat, n: nat)
    requires v < Pow2(n) && n > 0
    ensures v / 2 < Pow2(n - 1)
  {
  }

  lemma NoPower()
    ensures Pow2(0) == 1
  {
  }

  lemma MultiplyEnd(product: nat, a: nat, z: int, goal: int)
    requires product < WIDE && product + a * 0 == goal + z * WIDE
    ensures product == goal % WIDE
  {
    QuotientUnique(goal, WIDE, -z, product);
  }

  /** The state of restoring division after k steps: the dividend n is split into the part already
      divided, q * d + r, and the rest, which is what the shifted slot still holds. */
  ghost predicate Dividing(n: nat, d: nat, k: nat, slot: nat, q: nat, r: nat, rest: nat) {
    && k <= 64 && d > 0 && r < d && q < Pow2(k) && r < Pow2(k)
    && rest < Pow2(64 - k) && n == (q * d + r) * Pow2(64 - k) + rest && slot == rest * Pow2(k)
  }

  lemma DivideStart(n: nat, d: nat)
    requires n < WIDE && d > 0
    ensures Dividing(n, d, 0, n, 0, 0, n)
  {
    PowersOfWords();
  }

  lemma SlotTop(rest: nat, p: nat, q: nat)
    requires p * q == TOP && p > 0 && q > 0 && rest < 2 * p
    ensures (rest * q) / TOP == (if rest < p then 0 else 1)
    ensures (2 * (rest * q)) % WIDE == (if rest < p then rest else rest - p) * (2 * q)
  {
    var bit := if rest < p then 0 else 1;
    var rest' := rest - bit * p;
    assert rest * q == rest' * q + bit * TOP;
    assert 0 <= rest' * q < TOP by {
      Product(rest', q);
      Product(p - 1 - rest', q);
      assert (p - 1 - rest') * q == p * q - q - rest' * q;
    }
    QuotientUnique(rest * q, TOP, bit, rest' * q);
    QuotientUnique(2 * (rest * q), WIDE, bit, 2 * (rest' * q));
  }

  lemma SplitSum(x: int, p: int, rest: int, bit: int)
    ensures x * (2 * p) + rest == (2 * x + bit) * p + (rest - bit * p)
  {
  }

  lemma DoubledQuotient(q: int, d: int, r: int, bit: int)
    ensures 2 * (q * d + r) + bit == (2 * q) * d + (2 * r + bit) == (2 * q + 1) * d + (2 * r + bit - d)
  {
  }

  /** A step brings down the next bit of the dividend and subtracts the divisor where it fits. The
      shifted remainder never loses its top bit, since before step k it is below 2^k. */
  lemma DivideStep(n: nat, d: nat, k: nat, slot: nat, q: nat, r: nat, rest: nat) returns (rest': nat)
    requires Dividing(n, d, k, slot, q, r, rest) && k < 64
    ensures slot / TOP <= 1 && 2 * r + 1 < WIDE && 2 * q + 1 < WIDE
    ensures var r2 := 2 * r + slot / TOP;
            Dividing(n, d, k + 1, (2 * slot) % WIDE, if r2 < d then 2 * q else 2 * q + 1, if r2 < d then r2 else r2 - d, rest')
  {
    var p := Pow2(63 - k);
    PowerSum(63 - k, k);
    PowerSum(63 - k, k + 1);
    PowersOfWords();
    SlotTop(rest, p, Pow2(k));
    var bit := slot / TOP;
    rest' := if rest < p then rest else rest - p;
    SplitSum(q * d + r, p, rest, bit);
    DoubledQuotient(q, d, r, bit);
    PowerBelow(k + 1, 64);
  }

  lemma DivideEnd(n: nat, d: nat, slot: nat, q: nat, r: nat, rest: nat)
    requires Dividing(n, d, 64, slot, q, r, rest)
    ensures q == n / d && r == n % d
  {
    QuotientUnique(n, d, q, r);
  }

  // ---- The emitted programs

  class Machine {
    var primary: word
    var tertiary: word
    var frame: seq<word>

    /** Compares two slots by the processor's signed order or for equality. */
    method CompareSet(left: nat, right: nat, equal: bool)
      requires left < |frame| && right < |frame|
      modifies `primary, `tertiary
      ensures primary == Flag(if equal then frame[left] == frame[right] else Signed32(frame[left]) < Signed32(frame[right]))
    {
      primary := frame[right];
      tertiary := frame[left];
      primary := Flag(if equal then tertiary == primary else Signed32(tertiary) < Signed32(primary));
    }

    /** Unsigned order from signed comparisons alone. */
    method UnsignedLess(left: nat, right: nat, t: nat)
      requires left < t && right < t && t + 3 <= |frame|
      modifies this
      ensures Kept(old(frame), frame, t, 0) && primary == Flag(frame[left] < frame[right])
    {
      frame := frame[t := 0];
      CompareSet(left, t, false);
      frame := frame[t + 1 := primary];
      CompareSet(right, t, false);
      frame := frame[t + 2 := primary];
      CompareSet(t + 1, t + 2, true);
      if primary == 0 {
        primary := frame[t + 2];
      } else {
        CompareSet(left, right, false);
      }
    }

    /** Order of wide values: by the high words, then by the low words. */
    method Less(left: nat, right: nat, signed: bool, t: nat)
      requires 1 <= left < t && 1 <= right < t && t + 3 <= |frame|
      modifies this
      ensures Kept(old(frame), frame, t, 0)
      ensures primary == Flag(if signed then SignedWide(Value(frame, left)) < SignedWide(Value(frame, right))
                              else Value(frame, left) < Value(frame, right))
    {
      CompareSet(left - 1, right - 1, true);
      if primary == 0 {
        if signed {
          CompareSet(left - 1, right - 1, false);
        } else {
          UnsignedLess(left - 1, right - 1, t);
        }
      } else {
        UnsignedLess(left, right, t);
      }
    }

    method Add(dest: nat, left: nat, right: nat, t: nat)
      requires 1 <= dest < t && 1 <= left < t && 1 <= right < t && t + 5 <= |frame|
      requires SameOrSeparate(dest, left) && SameOrSeparate(dest, right)
      modifies this
      ensures Kept(old(frame), frame, t, dest)
      ensures Value(frame, dest) == (Value(old(frame), left) + Value(old(frame), right)) % WIDE
    {
      hide Sum, Wide, Flag;
      AddWide(frame[left], frame[left - 1], frame[right], frame[right - 1]);
      frame := frame[t + 1 := frame[left]];
      primary := frame[left];
      tertiary := frame[right];
      primary := Sum(primary, tertiary);
      frame := frame[dest := primary];
      UnsignedLess(dest, t + 1, t + 2);
      frame := frame[t := primary];
      primary := frame[left - 1];
      tertiary := frame[right - 1];
      primary := Sum(primary, tertiary);
      tertiary := frame[t];
      primary := Sum(primary, tertiary);
      frame := frame[dest - 1 := primary];
    }

    method Sub(dest: nat, left: nat, right: nat, t: nat)
      requires 1 <= dest < t && 1 <= left < t && 1 <= right < t && t + 4 <= |frame|
      requires SameOrSeparate(dest, left) && SameOrSeparate(dest, right)
      modifies this
      ensures Kept(old(frame), frame, t, dest)
      ensures Value(frame, dest) == (Value(old(frame), left) - Value(old(frame), right)) % WIDE
    {
      hide Difference, Wide, Flag;
      SubWide(frame[left], frame[left - 1], frame[right], frame[right - 1]);
      UnsignedLess(left, right, t + 1);
      frame := frame[t := primary];
      primary := frame[left];
      tertiary := frame[right];
      primary := Difference(primary, tertiary);
      frame := frame[dest := primary];
      primary := frame[left - 1];
      tertiary := frame[right - 1];
      primary := Difference(primary, tertiary);
      tertiary := frame[t];
      primary := Difference(primary, tertiary);
      frame := frame[dest - 1 := primary];
    }

    method ShiftLeftOne(value: nat, t: nat)
      requires 1 <= value < t < |frame|
      modifies this
      ensures Kept(old(frame), frame, t, value)
      ensures Value(frame, value) == (2 * Value(old(frame), value)) % WIDE
    {
      DoubleWide(frame[value], frame[value - 1]);
      primary := frame[value];
      primary := ShiftRight(primary, 31);
      frame := frame[t := primary];
      primary := frame[value - 1];
      primary := ShiftLeft(primary, 1);
      tertiary := frame[t];
      primary := Sum(primary, tertiary);
      frame := frame[value - 1 := primary];
      primary := frame[value];
      primary := ShiftLeft(primary, 1);
      frame := frame[value := primary];
    }

    method ShiftRightOne(value: nat, signed: bool, t: nat)
      requires 1 <= value < t < |frame|
      modifies this
      ensures Kept(old(frame), frame, t, value)
      ensures Value(frame, value) == Halved(Value(old(frame), value), signed)
    {
      HalveWide(frame[value], frame[value - 1]);
      HalveWideSigned(frame[value], frame[value - 1]);
      primary := frame[value - 1];
      primary := ShiftLeft(primary, 31);
      frame := frame[t := primary];
      primary := frame[value];
      primary := ShiftRight(primary, 1);
      tertiary := frame[t];
      primary := Sum(primary, tertiary);
      frame := frame[value := primary];
      primary := frame[value - 1];
      if signed {
        primary := ShiftRightSigned(primary, 1);
      } else {
        primary := ShiftRight(primary, 1);
      }
      frame := frame[value - 1 := primary];
    }

    method Copy(source: nat, dest: nat)
      requires 1 <= source < |frame| && 1 <= dest < |frame| && SameOrSeparate(source, dest)
      modifies this
      ensures Kept(old(frame), frame, |frame|, dest) && Value(frame, dest) == Value(old(frame), source)
    {
      primary := frame[source];
      frame := frame[dest := primary];
      primary := frame[source - 1];
      frame := frame[dest - 1 := primary];
    }

    method Zero(dest: nat)
      requires 1 <= dest < |frame|
      modifies this
      ensures Kept(old(frame), frame, |frame|, dest) && Value(frame, dest) == 0
    {
      frame := frame[dest := 0];
      frame := frame[dest - 1 := 0];
    }

    /** The number of single steps of a shift: the count, clamped at 64. */
    method ShiftSteps(count: nat, t: nat)
      requires 1 <= count < t && t + 5 <= |frame|
      modifies this
      ensures Kept(old(frame), frame, t, 0)
      ensures frame[t] == if Value(old(frame), count) < 64 then Value(old(frame), count) else 64
    {
      frame := frame[t + 1 := 64];
      primary := frame[count - 1];
      if primary == 0 {
        UnsignedLess(count, t + 1, t + 2);
      } else {
        primary := 0;
      }
      if primary == 0 {
        frame := frame[t := 64];
      } else {
        frame := frame[t := frame[count]];
      }
    }

    /** Shifts by any 64-bit count, one bit at a time. The value is copied first, so a count in the
        destination's own slot is replaced by the value. */
    method Shift(dest: nat, left: nat, count: nat, right: bool, signed: bool, t: nat)
      requires 1 <= dest < t && 1 <= left < t && 1 <= count < t && t + 6 <= |frame|
      requires SameOrSeparate(dest, left) && SameOrSeparate(dest, count)
      modifies this
      ensures Kept(old(frame), frame, t, dest)
      ensures Value(frame, dest) == Shifted(Value(old(frame), left), right, signed, Value(old(frame), if dest == count then left else count))
    {
      hide Shifted;
      ghost var v, amount := Value(frame, left), Value(frame, if dest == count then left else count);
      Copy(left, dest);
      ShiftSteps(count, t);
      ghost var n := 0;
      ShiftedByNone(v, right, signed);
      while frame[t] != 0
        invariant Kept(old(frame), frame, t, dest) && n == (if amount < 64 then amount else 64) - frame[t]
        invariant Value(frame, dest) == Shifted(v, right, signed, n)
        decreases 64 - n
      {
        ShiftedNext(v, right, signed, n);
        if right {
          ShiftRightOne(dest, signed, t + 5);
        } else {
          ShiftLeftOne(dest, t + 5);
        }
        frame := frame[t := frame[t] - 1];
        n := n + 1;
      }
      if amount >= 64 {
        ShiftSaturates(v, right, signed, amount);
        ShiftSaturates(v, right, signed, 64);
      }
    }

    /** Shift-and-add over all 64 bits of the multiplier. */
    method Multiply(dest: nat, left: nat, right: nat, t: nat)
      requires 1 <= dest < t && 1 <= left < t && 1 <= right < t && t + 12 <= |frame|
      modifies this
      ensures Kept(old(frame), frame, t, dest)
      ensures Value(frame, dest) == (Value(old(frame), left) * Value(old(frame), right)) % WIDE
    {
      hide Wide, Pow2;
      ghost var goal, z := Value(frame, left) * Value(frame, right), 0;
      var multiplicand, multiplier, counter := t + 1, t + 3, t + 4;
      Copy(left, multiplicand);
      Copy(right, multiplier);
      Zero(dest);
      frame := frame[counter := 64];
      PowersOfWords();
      while frame[counter] != 0
        invariant Kept(old(frame), frame, t, dest) && frame[counter] <= 64 && Value(frame, multiplier) < Pow2(frame[counter])
        invariant Value(frame, dest) + Value(frame, multiplicand) * Value(frame, multiplier) == goal + z * WIDE
        decreases frame[counter]
      {
        HalfBelow(Value(frame, multiplier), frame[counter]);
        z := MultiplyOnce(dest, multiplicand, multiplier, z, goal, t);
        frame := frame[counter := frame[counter] - 1];
      }
      NoPower();
      MultiplyEnd(Value(frame, dest), Value(frame, multiplicand), z, goal);
    }

    /** The body of the multiplication loop. */
    method MultiplyOnce(dest: nat, multiplicand: nat, multiplier: nat, ghost z: int, ghost goal: int, t: nat) returns (ghost z': int)
      requires 1 <= dest < t && multiplicand == t + 1 && multiplier == t + 3 && t + 12 <= |frame|
      requires Value(frame, dest) + Value(frame, multiplicand) * Value(frame, multiplier) == goal + z * WIDE
      modifies this
      ensures Kept(old(frame), frame, t, dest) && frame[t + 4] == old(frame)[t + 4]
      ensures Value(frame, multiplier) == Value(old(frame), multiplier) / 2
      ensures Value(frame, dest) + Value(frame, multiplicand) * Value(frame, multiplier) == goal + z' * WIDE
    {
      hide ShiftLeft, Wide;
      LowestBit(frame[multiplier], frame[multiplier - 1]);
      z' := MultiplyStep(Value(frame, dest), Value(frame, multiplicand), Value(frame, multiplier), z, goal);
      primary := frame[multiplier];
      primary := ShiftLeft(primary, 31);
      if primary != 0 {
        Add(dest, dest, multiplicand, t + 5);
      }
      ShiftLeftOne(multiplicand, t + 10);
      ShiftRightOne(multiplier, false, t + 11);
    }

    method Negate(value: nat, t: nat)
      requires 1 <= value < t && t + 8 <= |frame|
      modifies this
      ensures Kept(old(frame), frame, t, value) && Value(frame, value) == Negated(Value(old(frame), value))
    {
      Zero(t + 1);
      Sub(t + 3, t + 1, value, t + 4);
      Copy(t + 3, value);
    }

    /** Only the two wide results and the temporaries may differ. */
    static ghost predicate KeptBut(before: seq<word>, after: seq<word>, t: nat, d: nat, e: nat) {
      && |after| == |before|
      && forall k :: 0 <= k < t <= |before| && k != d && k != d - 1 && k != e && k != e - 1 ==> after[k] == before[k]
    }

    /** One step of the division loop. */
    method DivideOnce(quotient: nat, remainder: nat, divisor: nat, t: nat)
      requires 1 <= quotient < t && 1 <= remainder < t && 1 <= divisor < t && t + 14 <= |frame|
      requires Separate(quotient, remainder) && Separate(quotient, divisor) && Separate(remainder, divisor)
      requires 2 * Value(frame, remainder) + 1 < WIDE && 2 * Value(frame, quotient) + 1 < WIDE
      modifies this
      ensures KeptBut(old(frame), frame, t, quotient, remainder) && frame[t + 2] == old(frame)[t + 2]
      ensures Value(frame, t + 1) == (2 * Value(old(frame), t + 1)) % WIDE
      ensures var shifted := 2 * Value(old(frame), remainder) + Value(old(frame), t + 1) / TOP;
              var less := shifted < Value(old(frame), divisor);
        && Value(frame, quotient) == (if less then 2 * Value(old(frame), quotient) else 2 * Value(old(frame), quotient) + 1)
        && Value(frame, remainder) == (if less then shifted else shifted - Value(old(frame), divisor))
    {
      BringDown(remainder, t);
      ShiftLeftOne(t + 1, t + 5);
      ShiftLeftOne(quotient, t + 6);
      QuotientUnique(2 * Value(old(frame), quotient), WIDE, 0, 2 * Value(old(frame), quotient));
      Less(remainder, divisor, false, t + 7);
      if primary == 0 {
        SubtractDivisor(quotient, remainder, divisor, t);
      }
    }

    /** Shifts the dividend's top bit into the remainder. */
    method BringDown(remainder: nat, t: nat)
      requires 1 <= remainder < t && t + 14 <= |frame| && 2 * Value(frame, remainder) + 1 < WIDE
      modifies this
      ensures Kept(old(frame), frame, t, remainder) && frame[t + 2] == old(frame)[t + 2]
      ensures Value(frame, t + 1) == Value(old(frame), t + 1)
      ensures Value(frame, remainder) == 2 * Value(old(frame), remainder) + Value(old(frame), t + 1) / TOP
    {
      hide ShiftRight;
      HighestBit(frame[t + 1], frame[t]);
      primary := frame[t];
      primary := ShiftRight(primary, 31);
      frame := frame[t + 3 := primary];
      ShiftLeftOne(remainder, t + 4);
      QuotientUnique(2 * Value(old(frame), remainder), WIDE, 0, 2 * Value(old(frame), remainder));
      EvenLow(frame[remainder], frame[remainder - 1]);
      primary := frame[remainder];
      tertiary := frame[t + 3];
      primary := Sum(primary, tertiary);
      frame := frame[remainder := primary];
    }

    method SubtractDivisor(quotient: nat, remainder: nat, divisor: nat, t: nat)
      requires 1 <= quotient < t && 1 <= remainder < t && 1 <= divisor < t && t + 14 <= |frame|
      requires Separate(quotient, remainder) && Separate(quotient, divisor) && Separate(remainder, divisor)
      requires Value(frame, quotient) % 2 == 0 && Value(frame, divisor) <= Value(frame, remainder)
      modifies this
      ensures KeptBut(old(frame), frame, t, quotient, remainder) && frame[t + 2] == old(frame)[t + 2]
      ensures Value(frame, t + 1) == Value(old(frame), t + 1)
      ensures Value(frame, quotient) == Value(old(frame), quotient) + 1
      ensures Value(frame, remainder) == Value(old(frame), remainder) - Value(old(frame), divisor)
    {
      Sub(remainder, remainder, divisor, t + 10);
      QuotientUnique(Value(old(frame), remainder) - Value(old(frame), divisor), WIDE, 0,
                     Value(old(frame), remainder) - Value(old(frame), divisor));
      EvenLow(frame[quotient], frame[quotient - 1]);
      primary := frame[quotient];
      primary := Sum(primary, 1);
      frame := frame[quotient := primary];
    }

    /** Restoring division, exact for every dividend and every divisor but zero. */
    method UnsignedDivide(quotient: nat, remainder: nat, dividend: nat, divisor: nat, t: nat)
      requires 1 <= quotient < t && 1 <= remainder < t && 1 <= dividend < t && 1 <= divisor < t && t + 14 <= |frame|
      requires Separate(quotient, remainder) && Separate(quotient, divisor) && Separate(remainder, divisor)
      requires Value(frame, divisor) != 0
      modifies this
      ensures KeptBut(old(frame), frame, t, quotient, remainder)
      ensures Value(frame, quotient) == Value(old(frame), dividend) / Value(old(frame), divisor)
      ensures Value(frame, remainder) == Value(old(frame), dividend) % Value(old(frame), divisor)
    {
      hide Dividing, Wide;
      ghost var n, d := Value(frame, dividend), Value(frame, divisor);
      Copy(dividend, t + 1);
      Zero(quotient);
      Zero(remainder);
      frame := frame[t + 2 := 64];
      ghost var rest := n;
      DivideStart(n, d);
      while frame[t + 2] != 0
        invariant KeptBut(old(frame), frame, t, quotient, remainder) && frame[t + 2] <= 64
        invariant Dividing(n, d, 64 - frame[t + 2], Value(frame, t + 1), Value(frame, quotient), Value(frame, remainder), rest)
        decreases frame[t + 2]
      {
        rest := DivideStep(n, d, 64 - frame[t + 2], Value(frame, t + 1), Value(frame, quotient), Value(frame, remainder), rest);
        DivideOnce(quotient, remainder, divisor, t);
        frame := frame[t + 2 := frame[t + 2] - 1];
      }
      DivideEnd(n, d, Value(frame, t + 1), Value(frame, quotient), Value(frame, remainder), rest);
    }

    /** Replaces a negative value by its magnitude and notes in a flag slot whether it was negative. */
    method TakeSign(value: nat, flag: nat, t: nat)
      requires 1 <= value < flag < t && t + 9 <= |frame|
      modifies this
      ensures |frame| == |old(frame)|
      ensures forall k :: 0 <= k < t && k != value && k != value - 1 && k != flag ==> frame[k] == old(frame)[k]
      ensures frame[flag] == Flag(SignedWide(Value(old(frame), value)) < 0)
      ensures Value(frame, value) == Magnitude(SignedWide(Value(old(frame), value)))
    {
      ghost var v := Value(frame, value);
      HighestBit(frame[value], frame[value - 1]);
      frame := frame[t := 0];
      CompareSet(value - 1, t, false);
      frame := frame[flag := primary];
      if primary != 0 {
        Negate(value, t + 1);
        NegatedMagnitude(v);
      }
    }

    /** Division of the source language, as a quotient or as a remainder; a zero divisor takes the
        fault path. The one overflowing quotient, of the least value by -1, wraps around. */
    method Divide(dest: nat, left: nat, right: nat, signed: bool, remainderResult: bool, t: nat) returns (fault: bool)
      requires 1 <= dest < t && 1 <= left < t && 1 <= right < t && t + 26 <= |frame|
      modifies this
      ensures fault <==> Value(old(frame), right) == 0
      ensures Kept(old(frame), frame, t, dest)
      ensures !fault && !signed ==> var l, r := Value(old(frame), left), Value(old(frame), right);
          Value(frame, dest) == if remainderResult then l % r else l / r
      ensures !fault && signed ==> var l, r := SignedWide(Value(old(frame), left)), SignedWide(Value(old(frame), right));
          Value(frame, dest) == (if remainderResult then Remaining(l, r) else Truncated(l, r)) % WIDE
    {
      hide Wide, Truncated, Remaining, Magnitude, SignedWide;
      ZeroWide(frame[right], frame[right - 1]);
      primary := frame[right - 1];
      if primary == 0 {
        primary := frame[right];
        if primary == 0 {
          return true;
        }
      }
      fault := false;
      ghost var l, r := Value(frame, left), Value(frame, right);
      Copy(left, t + 1);
      Copy(right, t + 3);
      frame := frame[t + 4 := 0];
      frame := frame[t + 5 := 0];
      if signed {
        TakeSign(t + 1, t + 4, t + 6);
        TakeSign(t + 3, t + 5, t + 6);
      }
      DivideParts(dest, signed, remainderResult, l, r, t);
    }

    /** The division of the magnitudes, and the sign of the result. */
    method DivideParts(dest: nat, signed: bool, remainderResult: bool, ghost l: nat, ghost r: nat, t: nat)
      requires 1 <= dest < t && t + 26 <= |frame| && l < WIDE && 0 < r < WIDE
      requires Value(frame, t + 1) == (if signed then Magnitude(SignedWide(l)) else l)
      requires Value(frame, t + 3) == (if signed then Magnitude(SignedWide(r)) else r)
      requires frame[t + 4] == Flag(signed && SignedWide(l) < 0) && frame[t + 5] == Flag(signed && SignedWide(r) < 0)
      modifies this
      ensures Kept(old(frame), frame, t, dest)
      ensures !signed ==> Value(frame, dest) == if remainderResult then l % r else l / r
      ensures signed ==>
          Value(frame, dest) == (if remainderResult then Remaining(SignedWide(l), SignedWide(r)) else Truncated(SignedWide(l), SignedWide(r))) % WIDE
    {
      hide Wide, Truncated, Remaining;
      UnsignedDivide(t + 7, t + 9, t + 1, t + 3, t + 12);
      if signed {
        SignedResults(SignedWide(l), SignedWide(r));
      }
      if remainderResult {
        Copy(t + 9, dest);
        if frame[t + 4] != 0 {
          Negate(dest, t + 12);
        }
      } else {
        Copy(t + 7, dest);
        if signed {
          CompareSet(t + 4, t + 5, true);
          if primary == 0 {
            Negate(dest, t + 12);
          }
        }
      }
    }
  }
}
