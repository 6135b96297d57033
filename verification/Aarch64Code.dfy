/** AArch64 instructions that load constants and add offsets, with their meaning. */
module Aarch64Code {
  import opened Bytes
  import opened Powers

  type wide = x: int | 0 <= x < WIDE
  type register = r: nat | r < 32

  /** Sixteen-bit part i of a value begins at this power. */
  function Part(i: nat): (p: nat)
    ensures p >= 1
  {
    if i == 0 then 1 else 0x1_0000 * Part(i - 1)
  }

  datatype Insn =
    | MovZ(rd: register, i: nat, part: nat)
    | MovN(rd: register, part: nat)
    | MovK(rd: register, i: nat, part: nat)
    | MovReg(rd: register, rm: register)
    | AddImm(rd: register, rn: register, amount: int)
    | Unknown

  function Op(w: nat): nat {
    w / 0x80_0000
  }

  /** A wide move: operation, part number, sixteen bits, register. */
  function PackMove(op: nat, i: nat, part: nat, rd: register): nat {
    op * 0x80_0000 + i * 0x20_0000 + part * 32 + rd
  }

  /** An immediate addition: operation, shift by twelve, twelve bits, two registers. */
  function PackAdd(op: nat, shift: nat, chunk: nat, rn: register, rd: register): nat {
    op * 0x80_0000 + shift * 0x40_0000 + chunk * 1024 + rn * 32 + rd
  }

  function DecodeMove(w: nat): Insn {
    var op, i, part, rd := Op(w), w / 0x20_0000 % 4, w / 32 % 0x1_0000, w % 32;
    if op == 0x1a5 then MovZ(rd, i, part)
    else if op == 0x125 && i == 0 then MovN(rd, part)
    else if op == 0x1e5 then MovK(rd, i, part)
    else Unknown
  }

  function DecodeAdd(w: nat): Insn {
    var op, shift, chunk, rn, rd := Op(w), w / 0x40_0000 % 2, w / 1024 % 4096, w / 32 % 32, w % 32;
    var amount := if shift == 1 then chunk * 4096 else chunk;
    if op == 0x122 then AddImm(rd, rn, amount)
    else if op == 0x1a2 then AddImm(rd, rn, Minus(amount))
    else Unknown
  }

  function Minus(n: nat): int {
    -(n as int)
  }

  /** Decoding, section C4.1 of the Arm ARM for the operations used here. */
  function Decode(w: nat): Insn {
    var op := Op(w);
    if op == 0x1a5 || op == 0x125 || op == 0x1e5 then DecodeMove(w)
    else if op == 0x122 || op == 0x1a2 then DecodeAdd(w)
    else if op == 0x154 && w / 0x20_0000 % 4 == 0 && w / 32 % 0x800 == 31 then MovReg(w % 32, w / 0x1_0000 % 32)
    else Unknown
  }

  lemma MoveFields(op: nat, i: nat, part: nat, rd: register)
    requires i < 4 && part < 0x1_0000
    ensures var w := PackMove(op, i, part, rd); Op(w) == op && w / 0x20_0000 % 4 == i && w / 32 % 0x1_0000 == part && w % 32 == rd
  {
    var w, head := PackMove(op, i, part, rd), op * 4 + i;
    QuotientUnique(w, 32, head * 0x1_0000 + part, rd);
    QuotientUnique(w, 0x20_0000, head, part * 32 + rd);
    QuotientUnique(w, 0x80_0000, op, i * 0x20_0000 + part * 32 + rd);
    QuotientUnique(head * 0x1_0000 + part, 0x1_0000, head, part);
    QuotientUnique(head, 4, op, i);
  }

  lemma AddFields(op: nat, shift: nat, chunk: nat, rn: register, rd: register)
    requires shift < 2 && chunk < 4096
    ensures var w := PackAdd(op, shift, chunk, rn, rd);
            Op(w) == op && w / 0x40_0000 % 2 == shift && w / 1024 % 4096 == chunk && w / 32 % 32 == rn && w % 32 == rd
  {
    var w, head := PackAdd(op, shift, chunk, rn, rd), op * 2 + shift;
    var middle := head * 4096 + chunk;
    QuotientUnique(w, 32, middle * 32 + rn, rd);
    QuotientUnique(middle * 32 + rn, 32, middle, rn);
    QuotientUnique(w, 1024, middle, rn * 32 + rd);
    QuotientUnique(middle, 4096, head, chunk);
    QuotientUnique(w, 0x40_0000, head, chunk * 1024 + rn * 32 + rd);
    QuotientUnique(head, 2, op, shift);
    QuotientUnique(w, 0x80_0000, op, shift * 0x40_0000 + chunk * 1024 + rn * 32 + rd);
  }

  /** Register 31 is the zero register of a move and the stack pointer of an addition. */
  function Step(i: Insn, regs: seq<wide>): (r: seq<wide>)
    requires |regs| == 32
    ensures |r| == 32
  {
    match i
    case MovZ(rd, n, part) => if rd == 31 then regs else regs[rd := (part * Part(n)) % WIDE]
    case MovN(rd, part) => if rd == 31 then regs else regs[rd := (WIDE - 1 - part) % WIDE]
    case MovK(rd, n, part) => if rd == 31 then regs else regs[rd := Inserted(regs[rd], n, part)]
    case MovReg(rd, rm) => if rd == 31 then regs else regs[rd := if rm == 31 then 0 else regs[rm]]
    case AddImm(rd, rn, amount) => regs[rd := (regs[rn] + amount) % WIDE]
    case Unknown => regs
  }

  /** A value with one sixteen-bit part replaced. */
  function Inserted(v: wide, i: nat, part: nat): wide {
    (v - (v / Part(i) % 0x1_0000) * Part(i) + part * Part(i)) % WIDE
  }

  function Run(code: seq<nat>, regs: seq<wide>): (r: seq<wide>)
    requires |regs| == 32
    ensures |r| == 32
  {
    if code == [] then regs else Step(Decode(code[|code| - 1]), Run(code[..|code| - 1], regs))
  }

  lemma RunLast(code: seq<nat>, w: nat, regs: seq<wide>)
    requires |regs| == 32
    ensures Run(code + [w], regs) == Step(Decode(w), Run(code, regs))
  {
    assert (code + [w])[..|code|] == code;
  }

  // ---- Constants

  lemma Parts()
    ensures Part(0) == 1 && Part(1) == 0x1_0000 && Part(2) == 0x1_0000_0000 && Part(3) == 0x1_0000_0000_0000 && Part(4) == WIDE
  {
    assert Part(2) == 0x1_0000_0000;
  }

  /** What the register holds once the first i parts are in place: the rest is zeros or ones. */
  function Filled(imm: int, i: nat): int {
    imm % Part(i) + (if imm < 0 then WIDE - Part(i) else 0)
  }

  /** The value of part i. */
  function PartOf(imm: int, i: nat): int {
    imm / Part(i) % 0x1_0000
  }

  lemma ModSplit(imm: int, p: nat, m: nat)
    requires p > 0 && m > 0
    ensures m * p > 0 && imm % (m * p) == imm % p + (imm / p % m) * p
  {
    var low, h, q := imm % p, imm / p % m, imm / p / m;
    assert imm == (q * m + h) * p + low;
    assert (q * m + h) * p == q * (m * p) + h * p;
    assert 0 <= h * p + low < m * p by {
      assert (m - h) * p == m * p - h * p;
      Product(m - h - 1, p);
      Product(h, p);
      assert (m - h) * p == (m - h - 1) * p + p;
    }
    QuotientUnique(imm, m * p, q, h * p + low);
  }

  /** Part i of a register filled with zeros or ones above it. */
  lemma FilledAbove(low: nat, p: nat, q: nat)
    requires p > 0 && low < p
    ensures low / p % 0x1_0000 == 0 && (low + (0x1_0000 * q + 0x1_0000) * p - p) / p % 0x1_0000 == 0xffff
  {
    QuotientUnique(low, p, 0, low);
    var n := 0x1_0000 * q + 0xffff;
    assert (0x1_0000 * q + 0x1_0000) * p - p == n * p;
    QuotientUnique(low + n * p, p, n, low);
    QuotientUnique(n, 0x1_0000, q, 0xffff);
  }

  lemma WideByPart(i: nat)
    requires 1 <= i < 4
    ensures exists q: nat :: (0x1_0000 * q + 0x1_0000) * Part(i) == WIDE
  {
    Parts();
    assert i == 1 ==> (0x1_0000 * 0xffff_ffff + 0x1_0000) * Part(i) == WIDE;
    assert i == 2 ==> (0x1_0000 * 0xffff + 0x1_0000) * Part(i) == WIDE;
    assert i == 3 ==> (0x1_0000 * 0 + 0x1_0000) * Part(i) == WIDE;
  }

  lemma FilledBounds(imm: int, i: nat)
    requires 1 <= i <= 4
    ensures 0 <= Filled(imm, i) < WIDE
  {
    Parts();
  }

  lemma NextPart(imm: int, i: nat)
    requires 1 <= i < 4
    ensures 0 <= Filled(imm, i) < WIDE && Inserted(Filled(imm, i), i, PartOf(imm, i)) == Filled(imm, i + 1)
    ensures PartOf(imm, i) == (if imm < 0 then 0xffff else 0) ==> Filled(imm, i + 1) == Filled(imm, i)
  {
    hide Part;
    FilledBounds(imm, i);
    FilledBounds(imm, i + 1);
    PartNext(i);
    var p, low := Part(i), imm % Part(i);
    ModSplit(imm, p, 0x1_0000);
    WideByPart(i);
    var q: nat :| (0x1_0000 * q + 0x1_0000) * p == WIDE;
    FilledAbove(low, p, q);
    var v := Filled(imm, i);
    QuotientUnique(v - (v / p % 0x1_0000) * p + PartOf(imm, i) * p, WIDE, 0, Filled(imm, i + 1));
  }

  lemma PartNext(i: nat)
    ensures Part(i + 1) == 0x1_0000 * Part(i)
  {
  }

  /** The code sets one register to a value and leaves the others. */
  ghost predicate Sets(code: seq<nat>, reg: register, value: wide) {
    forall regs :: |regs| == 32 ==> Run(code, regs) == regs[reg := value]
  }

  lemma FirstPart(imm: int)
    ensures 0 <= Filled(imm, 1) < WIDE
    ensures imm >= 0 ==> Filled(imm, 1) == imm % 0x1_0000 == (imm % 0x1_0000 * Part(0)) % WIDE
    ensures imm < 0 ==> Filled(imm, 1) == WIDE - 1 - (-imm - 1) % 0x1_0000 == (WIDE - 1 - (-imm - 1) % 0x1_0000) % WIDE
  {
    Parts();
    hide Part;
    QuotientUnique(-imm - 1, 0x1_0000, -(imm / 0x1_0000) - 1, 0xffff - imm % 0x1_0000);
    QuotientUnique(imm % 0x1_0000, WIDE, 0, imm % 0x1_0000);
    QuotientUnique(WIDE - 0x1_0000 + imm % 0x1_0000, WIDE, 0, WIDE - 0x1_0000 + imm % 0x1_0000);
  }

  lemma MoveFirst(imm: int, reg: register)
    requires reg < 31
    ensures Sets([PackMove(if imm < 0 then 0x125 else 0x1a5, 0, if imm < 0 then (-imm - 1) % 0x1_0000 else imm % 0x1_0000, reg)], reg,
                 Filled(imm, 1))
  {
    hide Run, PackMove, Op, Filled;
    FirstPart(imm);
    var w := PackMove(if imm < 0 then 0x125 else 0x1a5, 0, if imm < 0 then (-imm - 1) % 0x1_0000 else imm % 0x1_0000, reg);
    MoveFields(if imm < 0 then 0x125 else 0x1a5, 0, if imm < 0 then (-imm - 1) % 0x1_0000 else imm % 0x1_0000, reg);
    forall regs: seq<wide> | |regs| == 32
      ensures Run([w], regs) == regs[reg := Filled(imm, 1)]
    {
      assert [] + [w] == [w];
      RunLast([], w, regs);
      RunNone(regs);
    }
  }

  lemma RunNone(regs: seq<wide>)
    requires |regs| == 32
    ensures Run([], regs) == regs
  {
  }

  lemma MoveNext(code: seq<nat>, imm: int, i: nat, reg: register)
    requires reg < 31 && 1 <= i < 4 && 0 <= Filled(imm, i) < WIDE && Sets(code, reg, Filled(imm, i))
    ensures 0 <= Filled(imm, i + 1) < WIDE && Sets(code + [PackMove(0x1e5, i, PartOf(imm, i), reg)], reg, Filled(imm, i + 1))
    ensures PartOf(imm, i) == (if imm < 0 then 0xffff else 0) ==> Sets(code, reg, Filled(imm, i + 1))
  {
    hide Run, PackMove, Op, Filled, PartOf, Inserted;
    NextPart(imm, i);
    FilledBounds(imm, i + 1);
    PartBound(imm, i);
    var w := PackMove(0x1e5, i, PartOf(imm, i), reg);
    MoveFields(0x1e5, i, PartOf(imm, i), reg);
    forall regs: seq<wide> | |regs| == 32
      ensures Run(code + [w], regs) == regs[reg := Filled(imm, i + 1)]
    {
      RunLast(code, w, regs);
    }
  }

  lemma PartBound(imm: int, i: nat)
    ensures 0 <= PartOf(imm, i) < 0x1_0000
  {
  }

  /** Registers after an addition: only the destination differs. */
  ghost predicate Adds(code: seq<nat>, dst: register, src: register, imm: int) {
    forall regs :: |regs| == 32 ==> Run(code, regs) == regs[dst := (regs[src] + imm) % WIDE]
  }

  lemma ModSum(a: int, b: int)
    ensures (a % WIDE + b) % WIDE == (a + b) % WIDE
  {
    QuotientUnique(a + b, WIDE, a / WIDE + (a % WIDE + b) / WIDE, (a % WIDE + b) % WIDE);
  }

  /** What a chunk adds. */
  function Amount(shift: nat, chunk: nat, negative: bool): int {
    var amount := if shift == 1 then chunk * 4096 else chunk;
    if negative then Minus(amount) else amount
  }

  lemma DecodeChunk(shift: nat, chunk: nat, cur: register, dst: register, negative: bool)
    requires shift < 2 && chunk < 4096
    ensures Decode(PackAdd(if negative then 0x1a2 else 0x122, shift, chunk, cur, dst)) == AddImm(dst, cur, Amount(shift, chunk, negative))
  {
    AddFields(if negative then 0x1a2 else 0x122, shift, chunk, cur, dst);
    hide PackAdd, Op;
  }

  function Wrapped(v: int): wide {
    v % WIDE
  }

  lemma WrappedSum(a: int, b: int)
    ensures Wrapped(Wrapped(a) + b) == Wrapped(a + b)
  {
    ModSum(a, b);
  }

  lemma Overwritten(regs: seq<wide>, before: seq<wide>, r: register, x: wide, y: wide)
    requires |regs| == 32 && before == regs[r := x]
    ensures before[r] == x && before[r := y] == regs[r := y]
  {
  }

  lemma AddedFirst(w: nat, dst: register, src: register, amount: int, regs: seq<wide>)
    requires |regs| == 32 && Decode(w) == AddImm(dst, src, amount)
    ensures Run([] + [w], regs) == regs[dst := Wrapped(regs[src] + amount)]
  {
    hide *;
    RunNone(regs);
    RunAdd([], w, regs, regs, dst, src, amount);
  }

  lemma AddedTwice(regs: seq<wide>, before: seq<wide>, dst: register, src: register, done: int, amount: int)
    requires |regs| == 32 && before == regs[dst := Wrapped(regs[src] + done)]
    ensures before[dst := Wrapped(before[dst] + amount)] == regs[dst := Wrapped(regs[src] + done + amount)]
  {
    hide Wrapped;
    var x, y := Wrapped(regs[src] + done), Wrapped(regs[src] + done + amount);
    Overwritten(regs, before, dst, x, y);
    WrappedSum(regs[src] + done, amount);
    assert Wrapped(before[dst] + amount) == y;
  }

  lemma AddedMore(code: seq<nat>, w: nat, dst: register, src: register, done: int, amount: int, regs: seq<wide>)
    requires |regs| == 32 && Decode(w) == AddImm(dst, dst, amount) && Run(code, regs) == regs[dst := Wrapped(regs[src] + done)]
    ensures Run(code + [w], regs) == regs[dst := Wrapped(regs[src] + done + amount)]
  {
    hide *;
    var before := Run(code, regs);
    AddedTwice(regs, before, dst, src, done, amount);
    RunAdd(code, w, regs, before, dst, dst, amount);
  }

  /** One more chunk added or taken off. */
  lemma AddNext(code: seq<nat>, cur: register, dst: register, src: register, done: int, shift: nat, chunk: nat, negative: bool)
    requires shift < 2 && chunk < 4096 && (if code == [] then done == 0 && cur == src else cur == dst && Adds(code, dst, src, done))
    ensures Adds(code + [PackAdd(if negative then 0x1a2 else 0x122, shift, chunk, cur, dst)], dst, src, done + Amount(shift, chunk, negative))
  {
    hide *;
    var w, amount := PackAdd(if negative then 0x1a2 else 0x122, shift, chunk, cur, dst), Amount(shift, chunk, negative);
    DecodeChunk(shift, chunk, cur, dst, negative);
    if code == [] {
      forall regs: seq<wide> | |regs| == 32
        ensures Run(code + [w], regs) == regs[dst := Wrapped(regs[src] + amount)]
      {
        AddedFirst(w, dst, src, amount, regs);
      }
      AddsAll(code + [w], dst, src, amount);
    } else {
      AddsMore(code, w, dst, src, done, amount);
    }
  }

  lemma AddsMore(code: seq<nat>, w: nat, dst: register, src: register, done: int, amount: int)
    requires Adds(code, dst, src, done) && Decode(w) == AddImm(dst, dst, amount)
    ensures Adds(code + [w], dst, src, done + amount)
  {
    hide *;
    forall regs: seq<wide> | |regs| == 32
      ensures Run(code + [w], regs) == regs[dst := Wrapped(regs[src] + (done + amount))]
    {
      AddsAt(code, dst, src, done, regs);
      AddedMore(code, w, dst, src, done, amount, regs);
      assert regs[src] + done + amount == regs[src] + (done + amount);
    }
    AddsAll(code + [w], dst, src, done + amount);
  }

  lemma AddsAt(code: seq<nat>, dst: register, src: register, imm: int, regs: seq<wide>)
    requires Adds(code, dst, src, imm) && |regs| == 32
    ensures Run(code, regs) == regs[dst := Wrapped(regs[src] + imm)]
  {
  }

  lemma AddsAll(code: seq<nat>, dst: register, src: register, imm: int)
    requires forall regs: seq<wide> :: |regs| == 32 ==> Run(code, regs) == regs[dst := Wrapped(regs[src] + imm)]
    ensures Adds(code, dst, src, imm)
  {
  }

  lemma RunAdd(code: seq<nat>, w: nat, regs: seq<wide>, before: seq<wide>, rd: register, rn: register, amount: int)
    requires |regs| == |before| == 32 && Run(code, regs) == before && Decode(w) == AddImm(rd, rn, amount)
    ensures Run(code + [w], regs) == before[rd := Wrapped(before[rn] + amount)]
  {
    hide Run, Decode;
    RunLast(code, w, regs);
  }

  /** How many of the first n parts above the lowest one are not all ones, for a negative value, or not zero. */
  function Differing(imm: int, n: nat): nat
    requires n <= 3
  {
    if n == 0 then 0 else Differing(imm, n - 1) + if PartOf(imm, n) == (if imm < 0 then 0xffff else 0) then 0 else 1
  }

  const LEAST := -TOP

  class Assembler {
    var code: seq<nat>

    method Emit(insn: nat)
      modifies this
      ensures code == old(code) + [insn]
    {
      code := code + [insn];
    }

    /** Loads any value, part by part; parts that the first move already filled are skipped: one
        instruction, and one for each of the upper three parts that differs from the sign. */
    method MovRegImm(reg: register, imm: int) returns (ghost out: seq<nat>)
      requires reg < 31
      modifies this
      ensures code == old(code) + out && Sets(out, reg, imm % WIDE) && |out| == 1 + Differing(imm, 3)
    {
      hide Sets, PackMove, PartOf, Filled;
      var first := if imm < 0 then (-imm - 1) % 0x1_0000 else imm % 0x1_0000;
      var insn := PackMove(if imm < 0 then 0x125 else 0x1a5, 0, first, reg);
      MoveFirst(imm, reg);
      FilledBounds(imm, 1);
      Emit(insn);
      out := [insn];
      for i := 1 to 4
        invariant code == old(code) + out && 0 <= Filled(imm, i) < WIDE && Sets(out, reg, Filled(imm, i))
        invariant |out| == 1 + Differing(imm, i - 1)
      {
        var part := PartOf(imm, i);
        PartBound(imm, i);
        MoveNext(out, imm, i, reg);
        if part != (if imm < 0 then 0xffff else 0) {
          insn := PackMove(0x1e5, i, part, reg);
          Emit(insn);
          out := out + [insn];
        }
      }
      FilledAll(imm);
    }

    /** Adds any offset but the least integer, in chunks of twelve bits, plain or shifted. */
    method AddRegImm(dst: register, src: register, imm: int) returns (ghost out: seq<nat>)
      requires LEAST <= imm < TOP
      modifies this
      ensures code == old(code) + out
      ensures imm != 0 && imm != LEAST ==> Adds(out, dst, src, imm)
      ensures imm == LEAST ==> out == []
      ensures imm == 0 && dst != src ==>
          forall regs :: |regs| == 32 ==> Run(out, regs) == if dst == 31 then regs else regs[dst := if src == 31 then 0 else regs[src]]
      ensures imm == 0 && dst == src ==> out == []
    {
      hide Adds, PackAdd, Run, Decode;
      if imm == 0 {
        if dst == src {
          return [];
        }
        MoveRegister(dst, src);
        Emit(PackRegister(dst, src));
        return [PackRegister(dst, src)];
      }
      var op := if imm < 0 then 0x1a2 else 0x122;
      var rest := if imm < 0 && imm != LEAST then -imm else imm;
      var cur := src;
      out := [];
      ghost var done := 0;
      while rest > 0
        invariant code == old(code) + out
        invariant if out == [] then done == 0 && cur == src else cur == dst && Adds(out, dst, src, done)
        invariant rest == (if imm == LEAST then imm else if imm < 0 then done - imm else imm - done) && (rest <= 0 ==> rest == 0 || imm == LEAST)
        invariant imm != LEAST && rest == 0 ==> out != []
        invariant imm == LEAST ==> out == []
        decreases rest
      {
        var shift, chunk := 0, rest;
        if chunk > 4095 {
          chunk := rest / 4096;
          if chunk > 4095 {
            chunk := 4095;
          }
          shift := 1;
          rest := rest - chunk * 4096;
        } else {
          rest := 0;
        }
        AddNext(out, cur, dst, src, done, shift, chunk, imm < 0);
        Emit(PackAdd(op, shift, chunk, cur, dst));
        out := out + [PackAdd(op, shift, chunk, cur, dst)];
        done := done + Amount(shift, chunk, imm < 0);
        cur := dst;
      }
    }
  }

  lemma FilledAll(imm: int)
    ensures Filled(imm, 4) == imm % WIDE
  {
    Parts();
  }

  /** A register move: or with the zero register. */
  function PackRegister(dst: register, src: register): nat {
    0x154 * 0x80_0000 + src * 0x1_0000 + 31 * 32 + dst
  }

  lemma MoveRegister(dst: register, src: register)
    ensures Decode(PackRegister(dst, src)) == MovReg(dst, src)
    ensures forall regs :: |regs| == 32 ==>
        Run([PackRegister(dst, src)], regs) == if dst == 31 then regs else regs[dst := if src == 31 then 0 else regs[src]]
  {
    var w := PackRegister(dst, src);
    QuotientUnique(w, 0x80_0000, 0x154, src * 0x1_0000 + 31 * 32 + dst);
    QuotientUnique(w, 0x20_0000, 0x154 * 4, src * 0x1_0000 + 31 * 32 + dst);
    QuotientUnique(w, 0x1_0000, 0x154 * 128 + src, 31 * 32 + dst);
    QuotientUnique(0x154 * 128 + src, 32, 0x154 * 4, src);
    QuotientUnique(w, 32, (0x154 * 128 + src) * 0x800 + 31, dst);
    QuotientUnique((0x154 * 128 + src) * 0x800 + 31, 0x800, 0x154 * 128 + src, 31);
    hide PackRegister, Run;
    forall regs: seq<wide> | |regs| == 32
      ensures Run([w], regs) == if dst == 31 then regs else regs[dst := if src == 31 then 0 else regs[src]]
    {
      assert [] + [w] == [w];
      RunLast([], w, regs);
      RunNone(regs);
    }
  }
}
