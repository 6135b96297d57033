/** ARM instructions that load constants, add offsets and address memory, with their meaning. */
module ArmCode {
  import opened Bytes
  import opened Powers
  import opened Rotations
  import opened ArmImmediate

  datatype Insn =
    | MovImm(rd: nat, value: word)
    | MovReg(rd: nat, rm: nat)
    | MovW(rd: nat, half: nat)
    | MovT(rd: nat, half: nat)
    | AddImm(rd: nat, rn: nat, amount: int)
    | AddReg(rd: nat, rn: nat, rm: nat, negate: bool)
    | Access(load: bool, size: nat, rt: nat, rn: nat, offset: int)
    | Unknown

  /** An instruction word from its fields: condition and operation, two registers, twelve low bits. */
  function Pack(op: nat, rn: nat, rd: nat, low: nat): nat {
    op * 0x10_0000 + rn * 0x1_0000 + rd * 0x1000 + low
  }

  function Op(w: nat): nat {
    w / 0x10_0000
  }

  function Rn(w: nat): nat {
    w / 0x1_0000 % 16
  }

  function Rd(w: nat): nat {
    w / 0x1000 % 16
  }

  function Low(w: nat): nat {
    w % 0x1000
  }

  lemma Fields(op: nat, rn: nat, rd: nat, low: nat)
    requires rn < 16 && rd < 16 && low < 0x1000
    ensures var w := Pack(op, rn, rd, low); Op(w) == op && Rn(w) == rn && Rd(w) == rd && Low(w) == low
  {
    var w, head := Pack(op, rn, rd, low), op * 16 + rn;
    QuotientUnique(w, 0x10_0000, op, rn * 0x1_0000 + rd * 0x1000 + low);
    QuotientUnique(w, 0x1_0000, head, rd * 0x1000 + low);
    QuotientUnique(head, 16, op, rn);
    QuotientUnique(w, 0x1000, head * 16 + rd, low);
    QuotientUnique(head * 16 + rd, 16, head, rd);
  }

  /** The offset of a half-word access, split around its fixed bits. */
  function SplitOffset(low: nat): nat {
    low / 256 * 16 + low % 16
  }

  function Minus(n: nat): int {
    -(n as int)
  }

  /** Decoding by fields, sections A5.2 and A5.3 of ARM DDI 0406 for the operations used here. */
  function DecodeFields(op: nat, rn: nat, rd: nat, low: nat): (i: Insn)
    requires rn < 16 && rd < 16 && low < 0x1000
    ensures Registers(i)
  {
    match op
    case 0xe3a => MovImm(rd, Operand(low) % WORD)
    case 0xe3e => MovImm(rd, WORD - 1 - Operand(low) % WORD)
    case 0xe30 => MovW(rd, rn * 0x1000 + low)
    case 0xe34 => MovT(rd, rn * 0x1000 + low)
    case 0xe1a => if low < 16 then MovReg(rd, low) else Unknown
    case 0xe28 => AddImm(rd, rn, Operand(low))
    case 0xe24 => AddImm(rd, rn, -Operand(low))
    case 0xe08 => if low < 16 then AddReg(rd, rn, low, false) else Unknown
    case 0xe04 => if low < 16 then AddReg(rd, rn, low, true) else Unknown
    case 0xe59 => Access(true, 4, rd, rn, low)
    case 0xe51 => Access(true, 4, rd, rn, Minus(low))
    case 0xe5d => Access(true, 1, rd, rn, low)
    case 0xe55 => Access(true, 1, rd, rn, Minus(low))
    case 0xe58 => Access(false, 4, rd, rn, low)
    case 0xe50 => Access(false, 4, rd, rn, Minus(low))
    case 0xe5c => Access(false, 1, rd, rn, low)
    case 0xe54 => Access(false, 1, rd, rn, Minus(low))
    case 0xe1d => if low / 16 % 16 == 15 then Access(true, 2, rd, rn, SplitOffset(low)) else Unknown
    case 0xe15 => if low / 16 % 16 == 15 then Access(true, 2, rd, rn, Minus(SplitOffset(low))) else Unknown
    case 0xe1c => if low / 16 % 16 == 11 then Access(false, 2, rd, rn, SplitOffset(low)) else Unknown
    case 0xe14 => if low / 16 % 16 == 11 then Access(false, 2, rd, rn, Minus(SplitOffset(low))) else Unknown
    case _ => Unknown
  }

  predicate Registers(i: Insn) {
    && (!i.Unknown? && !i.Access? ==> i.rd < 16) && (i.AddImm? || i.AddReg? || i.Access? ==> i.rn < 16)
    && (i.MovReg? || i.AddReg? ==> i.rm < 16) && (i.MovW? || i.MovT? ==> i.half < 0x1_0000)
  }

  function Decode(w: nat): (i: Insn)
    ensures Registers(i)
  {
    DecodeFields(Op(w), Rn(w), Rd(w), Low(w))
  }

  lemma DecodePack(op: nat, rn: nat, rd: nat, low: nat)
    requires rn < 16 && rd < 16 && low < 0x1000
    ensures Decode(Pack(op, rn, rd, low)) == DecodeFields(op, rn, rd, low)
  {
    hide DecodeFields, Pack, Op, Rn, Rd, Low;
    Fields(op, rn, rd, low);
  }

  /** What an instruction does to the registers; memory accesses are looked at by address only. */
  function Step(i: Insn, regs: seq<word>): (r: seq<word>)
    requires |regs| == 16
    requires Registers(i)
    ensures |r| == 16
  {
    match i
    case MovImm(rd, value) => regs[rd := value]
    case MovReg(rd, rm) => regs[rd := regs[rm]]
    case MovW(rd, half) => regs[rd := half]
    case MovT(rd, half) => regs[rd := regs[rd] % 0x1_0000 + half * 0x1_0000]
    case AddImm(rd, rn, amount) => regs[rd := (regs[rn] + amount) % WORD]
    case AddReg(rd, rn, rm, negate) => regs[rd := (if negate then regs[rn] - regs[rm] else regs[rn] + regs[rm]) % WORD]
    case _ => regs
  }

  function Run(code: seq<nat>, regs: seq<word>): (r: seq<word>)
    requires |regs| == 16
    ensures |r| == 16
  {
    if code == [] then regs else Run(code[1..], Step(Decode(code[0]), regs))
  }

  lemma {:induction false} RunBoth(a: seq<nat>, b: seq<nat>, regs: seq<word>)
    requires |regs| == 16
    ensures Run(a + b, regs) == Run(b, Run(a, regs))
  {
    hide Decode, Step;
    if a == [] {
      assert a + b == b;
    } else {
      assert (a + b)[1..] == a[1..] + b;
      RunBoth(a[1..], b, Step(Decode(a[0]), regs));
    }
  }

  lemma RunOne(w: nat, regs: seq<word>)
    requires |regs| == 16
    ensures Run([w], regs) == Step(Decode(w), regs)
  {
    hide Decode, Step;
  }

  /** The code sets one register to a value and leaves the others. */
  ghost predicate Sets(code: seq<nat>, reg: nat, value: word)
    requires reg < 16
  {
    forall regs :: |regs| == 16 ==> Run(code, regs) == regs[reg := value]
  }

  /** The registers after adding a constant; only the scratch register may differ besides. */
  ghost predicate AddsTo(after: seq<word>, regs: seq<word>, dst: nat, src: nat, imm: int, scratch: nat) {
    && |after| == |regs| == 16 && dst < 16 && src < 16 && after[dst] == (regs[src] + imm) % WORD
    && (forall r :: 0 <= r < 16 && r != dst && r != scratch ==> after[r] == regs[r])
  }

  ghost predicate Adds(code: seq<nat>, dst: nat, src: nat, imm: int, scratch: nat) {
    forall regs :: |regs| == 16 ==> AddsTo(Run(code, regs), regs, dst, src, imm, scratch)
  }

  /** The register an unencodable offset is loaded into. */
  function Scratch(dst: nat, src: nat): nat {
    if dst == 9 || src == 9 then 10 else 9
  }

  /** An offset that one instruction can add. */
  ghost predicate Direct(imm: int) {
    -255 <= imm <= 255 || Encodable((if imm < 0 then -imm else imm) % WORD)
  }

  /** The one case in which the scratch register is the source. */
  ghost predicate Clashes(dst: nat, src: nat, imm: int) {
    dst == 9 && src == 10 && !Direct(imm)
  }

  /** The size of an offset as it is loaded into a register. */
  function Magnitude(imm: int): word {
    (if imm < 0 then -imm else imm) % WORD
  }

  /** Whatever the registers held, one of them ends up with a value. */
  ghost predicate Leaves(code: seq<nat>, reg: nat, value: word)
    requires reg < 16
  {
    forall regs :: |regs| == 16 ==> Run(code, regs)[reg] == value
  }

  /** What becomes of an addition to the scratch register itself. */
  function Doubled(imm: int): word {
    if imm < 0 then 0 else (2 * (imm % WORD)) % WORD
  }

  /** The scratch register is left alone by an offset that is an operand, and holds any other one. */
  ghost predicate UsesScratch(code: seq<nat>, dst: nat, src: nat, imm: int)
    requires dst < 16 && src < 16
  {
    && (Direct(imm) ==> Adds(code, dst, src, imm, dst))
    && (!Direct(imm) && dst != Scratch(dst, src) ==> Leaves(code, Scratch(dst, src), Magnitude(imm)))
  }

  ghost predicate Keeps(code: seq<nat>, reg: nat)
    requires reg < 16
  {
    forall regs :: |regs| == 16 ==> Run(code, regs)[reg] == regs[reg]
  }

  /** The offsets an access can hold itself. */
  predicate Reaches(disp: int, size: nat) {
    if size == 2 then 0 <= disp <= 255 else -4095 <= disp <= 4095
  }

  /** What the access instruction holds of a displacement: of a half-word's, the low byte of its size. */
  function Held(disp: int, size: nat): int {
    if size != 2 then disp else if disp < 0 then Minus((-disp) % 256) else disp % 256
  }

  /** The displacement that is accessed. A distant half-word at register 12 adds the displacement to
      the register itself, and then its low byte once more. */
  function Accessed(base: nat, disp: int, size: nat): int {
    if size == 2 && base == 12 && !Reaches(disp, size) then disp + Held(disp, size) else disp
  }

  /** The accesses that go elsewhere. */
  predicate Misses(base: nat, disp: int, size: nat) {
    size == 2 && base == 12 && !(0 <= disp <= 255) && disp % 256 != 0
  }

  /** What is added to the base of a distant access: all of it for a half-word, all but the low
      twelve bits otherwise. */
  function Lead(disp: int, size: nat): int {
    if size == 2 then disp else disp - disp % 0x1000
  }

  /** The registers that reaching a distant address overwrites. */
  ghost predicate Clobbers(reg: nat, base: nat, disp: int, size: nat) {
    !Reaches(disp, size)
    && ((reg == 12 && !(base == 12 && Lead(disp, size) % WORD == 0)) || (reg == Scratch(12, base) && !Direct(Lead(disp, size))))
  }

  /** An address register and a rest that together name base + disp; only the address register and
      its scratch register may have changed. */
  ghost predicate PlacedAt(after: seq<word>, regs: seq<word>, base: nat, disp: int, addr: nat, rest: int) {
    && |after| == |regs| == 16 && base < 16 && addr < 16 && (after[addr] + rest) % WORD == (regs[base] + disp) % WORD
    && forall r :: 0 <= r < 16 && r != 12 && r != Scratch(12, base) ==> after[r] == regs[r]
  }

  /** The code ends in an access of the given kind at base + disp. */
  ghost predicate Reads(out: seq<nat>, load: bool, rt: nat, base: nat, disp: int, size: nat) {
    && base < 16 && |out| > 0 && var last := Decode(out[|out| - 1]);
    && last.Access? && last.load == load && last.rt == rt && last.size == size && last.rn < 16
    && forall regs :: |regs| == 16 ==> PlacedAt(Run(out[..|out| - 1], regs), regs, base, disp, last.rn, last.offset)
  }

  class Assembler {
    var code: seq<nat>

    method Emit(insn: nat)
      modifies this
      ensures code == old(code) + [insn]
    {
      code := code + [insn];
    }

    /** Every value can be loaded: as an operand, as the complement of one, or in two halves, of which
        a zero one is left out. */
    method MovRegImm(reg: nat, imm: int) returns (ghost out: seq<nat>)
      requires reg < 15
      modifies this
      ensures code == old(code) + out && Sets(out, reg, imm % WORD)
      ensures |out| == if 0 <= imm < 0x1_0000 || Encodable(imm % WORD) || Encodable((-imm - 1) % WORD) || imm / 0x1_0000 % 0x1_0000 == 0 then 1 else 2
    {
      hide Operand, Decode, Encodable, Pack, Sets, Run;
      if imm < 0 || imm > 65535 {
        var encoded := Immediate(imm % WORD);
        if encoded >= 0 {
          MovOperand(reg, encoded, false);
          Emit(Pack(0xe3a, 0, reg, encoded));
          return [Pack(0xe3a, 0, reg, encoded)];
        }
        Complement(imm);
        encoded := Immediate((-imm - 1) % WORD);
        if encoded >= 0 {
          MovOperand(reg, encoded, true);
          Emit(Pack(0xe3e, 0, reg, encoded));
          return [Pack(0xe3e, 0, reg, encoded)];
        }
      }
      var low := imm % 0x1_0000;
      Emit(Pack(0xe30, low / 0x1000, reg, low % 0x1000));
      out := [Pack(0xe30, low / 0x1000, reg, low % 0x1000)];
      var high := imm / 0x1_0000 % 0x1_0000;
      MovHalves(reg, low, high);
      Halved(imm);
      if high != 0 {
        Emit(Pack(0xe34, high / 0x1000, reg, high % 0x1000));
        out := out + [Pack(0xe34, high / 0x1000, reg, high % 0x1000)];
      }
    }

    /** Adds a constant to a register, through a scratch register when it is no operand. */
    method AddRegImm(dst: nat, src: nat, imm: int) returns (ghost out: seq<nat>)
      requires dst < 15 && src < 15
      modifies this
      ensures code == old(code) + out
      ensures Adds(out, dst, src, imm, Scratch(dst, src)) <==> !Clashes(dst, src, imm)
      ensures Clashes(dst, src, imm) ==> Leaves(out, dst, Doubled(imm))
      ensures UsesScratch(out, dst, src, imm)
    {
      hide Operand, Encodable, Pack, Sets, Run;
      if imm == 0 {
        MovRegister(dst, src);
        if dst == src {
          return [];
        }
        Emit(Pack(0xe1a, 0, dst, src));
        return [Pack(0xe1a, 0, dst, src)];
      }
      if -255 <= imm <= 255 {
        var small := if imm < 0 then -imm else imm;
        SmallOperand(small);
        AddOperand(dst, src, small, imm);
        Emit(Pack(if imm < 0 then 0xe24 else 0xe28, src, dst, small));
        return [Pack(if imm < 0 then 0xe24 else 0xe28, src, dst, small)];
      }
      var magnitude := if imm < 0 then -imm else imm;
      var encoded := Immediate(magnitude % WORD);
      if encoded >= 0 {
        AddOperand(dst, src, encoded, imm);
        Emit(Pack(if imm < 0 then 0xe24 else 0xe28, src, dst, encoded));
        return [Pack(if imm < 0 then 0xe24 else 0xe28, src, dst, encoded)];
      }
      var tmp := 9;
      if dst == tmp || src == tmp {
        tmp := 10;
      }
      out := MovRegImm(tmp, magnitude);
      AddScratch(out, dst, src, tmp, imm);
      Emit(Pack(if imm < 0 then 0xe04 else 0xe08, src, dst, tmp));
      out := out + [Pack(if imm < 0 then 0xe04 else 0xe08, src, dst, tmp)];
      if dst == 9 && src == 10 {
        ConstantIsNoSum(out, dst, src, imm, Doubled(imm));
      }
    }

    /** The register a near or distant access goes through. */
    method LoadStoreAddr(base: nat, disp: int, size: nat) returns (addr: nat, ghost out: seq<nat>)
      requires base < 15
      modifies this
      ensures code == old(code) + out && addr == (if Reaches(disp, size) then base else 12)
      ensures if Reaches(disp, size) then out == [] else Adds(out, 12, base, disp, Scratch(12, base)) && UsesScratch(out, 12, base, disp)
    {
      hide Run, Direct, Leaves, UsesScratch, Adds;
      if (size == 2 && (disp < 0 || disp > 255)) || (size != 2 && (disp < -4095 || disp > 4095)) {
        out := AddRegImm(12, base, disp);
        return 12, out;
      }
      return base, [];
    }

    /** The register and remaining displacement for an access: distant words and bytes keep their low
        twelve bits, distant half-words none unless their base is the address register already. */
    method Place(base: nat, disp: int, size: nat) returns (addr: nat, rest: int, ghost out: seq<nat>)
      requires base < 15
      modifies this
      ensures code == old(code) + out && addr == (if Reaches(disp, size) then base else 12) && (size == 2 || Reaches(rest, size))
      ensures forall regs :: |regs| == 16 ==> PlacedAt(Run(out, regs), regs, base, Accessed(base, disp, size), addr, Held(rest, size))
      ensures Reaches(disp, size) ==> out == [] && rest == disp
      ensures !Reaches(disp, size) ==> Adds(out, 12, base, Lead(disp, size), Scratch(12, base)) && UsesScratch(out, 12, base, Lead(disp, size))
    {
      hide Run, Direct, Leaves, UsesScratch, Adds, PlacedAt;
      addr, rest := base, disp;
      if size != 2 && (disp < -4095 || disp > 4095) {
        var high := disp - disp % 0x1000;
        addr := 12;
        out := AddRegImm(addr, base, high);
        rest := rest - high;
        LeadPlaces(out, base, high, disp);
      } else {
        addr, out := LoadStoreAddr(base, disp, size);
        if addr != base {
          rest := 0;
        }
        if Reaches(disp, size) {
          NothingPlaces(base, disp);
        } else {
          LeadPlaces(out, base, disp, disp + Held(rest, size));
        }
      }
    }

    /** Loads from base + disp, exactly unless the displacement of a distant half-word at register 12
        is added twice; where it loads from then. */
    method LoadRegMem(dst: nat, base: nat, disp: int, size: nat) returns (ghost out: seq<nat>)
      requires dst < 15 && base < 15
      modifies this
      ensures code == old(code) + out
      ensures Reads(out, true, dst, base, Accessed(base, disp, size), if size == 1 || size == 2 then size else 4)
      ensures Reads(out, true, dst, base, disp, if size == 1 || size == 2 then size else 4) <==> !Misses(base, disp, size)
    {
      hide Run, Decode, DecodeFields, Pack, Reaches, Adds, UsesScratch, Lead, Scratch, PlacedAt, Reads, Accessed, Held, Misses;
      var addr, rest, lead := Place(base, disp, size);
      var insn := AccessWord(true, size, dst, addr, rest);
      Emit(insn);
      out := lead + [insn];
      ReadsAt(lead, insn, true, dst, base, Accessed(base, disp, size), if size == 1 || size == 2 then size else 4, addr, Held(rest, size));
      ReadsIff(out, true, dst, base, disp, size);
    }

    /** Stores at base + disp, exactly unless the displacement of a distant half-word at register 12
        is added twice; what is stored is the register as it was exactly when reaching the address
        does not overwrite it. */
    method StoreRegMem(src: nat, base: nat, disp: int, size: nat) returns (ghost out: seq<nat>)
      requires src < 15 && base < 15
      modifies this
      ensures code == old(code) + out
      ensures Reads(out, false, src, base, Accessed(base, disp, size), if size == 1 || size == 2 then size else 4)
      ensures Reads(out, false, src, base, disp, if size == 1 || size == 2 then size else 4) <==> !Misses(base, disp, size)
      ensures Keeps(out[..|out| - 1], src) <==> !Clobbers(src, base, disp, size)
    {
      hide Run, Decode, DecodeFields, Pack, Reaches, Direct, Leaves, Keeps, Adds, UsesScratch, Clobbers, Lead, Scratch, PlacedAt, Reads;
      hide Accessed, Held, Misses;
      var addr, rest, lead := Place(base, disp, size);
      var insn := AccessWord(false, size, src, addr, rest);
      Emit(insn);
      out := lead + [insn];
      assert out[..|out| - 1] == lead;
      ReadsAt(lead, insn, false, src, base, Accessed(base, disp, size), if size == 1 || size == 2 then size else 4, addr, Held(rest, size));
      ReadsIff(out, false, src, base, disp, size);
      StoredIsKept(lead, src, base, disp, size);
    }
  }

  /** One access is not at two addresses. */
  lemma ReadsOnce(out: seq<nat>, load: bool, rt: nat, base: nat, a: int, b: int, size: nat)
    requires Reads(out, load, rt, base, a, size) && Reads(out, load, rt, base, b, size)
    ensures a % WORD == b % WORD
  {
    hide Run, Decode;
    var none: seq<word> := seq(16, _ => 0);
    var last := Decode(out[|out| - 1]);
    assert PlacedAt(Run(out[..|out| - 1], none), none, base, a, last.rn, last.offset);
    assert PlacedAt(Run(out[..|out| - 1], none), none, base, b, last.rn, last.offset);
  }

  lemma MissesApart(base: nat, disp: int, size: nat)
    ensures Accessed(base, disp, size) == disp <==> !Misses(base, disp, size)
    ensures Misses(base, disp, size) ==> Accessed(base, disp, size) % WORD != disp % WORD
  {
    if Misses(base, disp, size) {
      var low := Held(disp, size);
      if disp < 0 {
        NegatedResidue(disp);
      }
      assert low != 0 && -256 < low < 256;
      if (disp + low) % WORD == disp % WORD {
        SameResidue(disp, low);
      }
    } else if size == 2 && disp < 0 {
      NegatedResidue(disp);
    }
  }

  lemma NegatedResidue(disp: int)
    ensures (-disp) % 256 == 0 <==> disp % 256 == 0
  {
  }

  lemma SameResidue(a: int, low: int)
    requires (a + low) % WORD == a % WORD && -WORD < low < WORD
    ensures low == 0
  {
    assert low == ((a + low) / WORD - a / WORD) * WORD;
  }

  lemma ReadsIff(out: seq<nat>, load: bool, rt: nat, base: nat, disp: int, size: nat)
    requires Reads(out, load, rt, base, Accessed(base, disp, size), if size == 1 || size == 2 then size else 4)
    ensures Reads(out, load, rt, base, disp, if size == 1 || size == 2 then size else 4) <==> !Misses(base, disp, size)
  {
    hide Reads, Accessed, Misses;
    MissesApart(base, disp, size);
    if Reads(out, load, rt, base, disp, if size == 1 || size == 2 then size else 4) {
      ReadsOnce(out, load, rt, base, disp, Accessed(base, disp, size), if size == 1 || size == 2 then size else 4);
    }
  }

  /** The half-word at register 12 plus 257 is read at register 12 plus 258. */
  lemma HalfWordMisses(out: seq<nat>)
    requires Reads(out, true, 0, 12, Accessed(12, 257, 2), 2)
    ensures Reads(out, true, 0, 12, 258, 2) && !Reads(out, true, 0, 12, 257, 2)
  {
    hide Reads;
    ReadsIff(out, true, 0, 12, 257, 2);
  }

  lemma LeadPlaces(code: seq<nat>, base: nat, offset: int, disp: int)
    requires base < 16 && Adds(code, 12, base, offset, Scratch(12, base))
    ensures forall regs :: |regs| == 16 ==> PlacedAt(Run(code, regs), regs, base, disp, 12, disp - offset)
  {
    hide Run, PlacedAt, AddsTo;
    forall regs: seq<word> | |regs| == 16
      ensures PlacedAt(Run(code, regs), regs, base, disp, 12, disp - offset)
    {
      SumPlaces(Run(code, regs), regs, base, offset, disp);
    }
  }

  lemma SumPlaces(after: seq<word>, regs: seq<word>, base: nat, offset: int, disp: int)
    requires AddsTo(after, regs, 12, base, offset, Scratch(12, base))
    ensures PlacedAt(after, regs, base, disp, 12, disp - offset)
  {
    var rest, sum: int := disp - offset, regs[base] + offset;
    ModAdd(rest, sum);
    assert rest + sum == regs[base] + disp;
    assert after[12] + rest == rest + sum % WORD;
  }

  lemma NothingPlaces(base: nat, disp: int)
    requires base < 16
    ensures forall regs :: |regs| == 16 ==> PlacedAt(Run([], regs), regs, base, disp, base, disp)
  {
  }

  lemma ReadsAt(lead: seq<nat>, insn: nat, load: bool, rt: nat, base: nat, disp: int, size: nat, addr: nat, rest: int)
    requires base < 16 && addr < 16 && Decode(insn) == Access(load, size, rt, addr, rest)
    requires forall regs :: |regs| == 16 ==> PlacedAt(Run(lead, regs), regs, base, disp, addr, rest)
    ensures Reads(lead + [insn], load, rt, base, disp, size)
  {
    hide Run, Decode, PlacedAt;
    var out := lead + [insn];
    assert out[..|out| - 1] == lead && out[|out| - 1] == insn;
  }

  lemma StoredIsKept(lead: seq<nat>, reg: nat, base: nat, disp: int, size: nat)
    requires reg < 16 && base < 16 && (Reaches(disp, size) ==> lead == [])
    requires !Reaches(disp, size) ==> Adds(lead, 12, base, Lead(disp, size), Scratch(12, base)) && UsesScratch(lead, 12, base, Lead(disp, size))
    ensures Keeps(lead, reg) <==> !Clobbers(reg, base, disp, size)
  {
    hide Run, Reaches, Direct, Leaves, Keeps, Adds, UsesScratch, Lead;
    if Reaches(disp, size) {
      NothingChanges(reg);
    } else {
      LeadKeeps(lead, reg, base, Lead(disp, size));
    }
  }

  lemma NothingChanges(reg: nat)
    requires reg < 16
    ensures Keeps([], reg)
  {
  }

  /** Adding an offset to register 12 keeps a register exactly when it is neither 12, which may be
      the base of an offset that is nothing modulo 2^32, nor a scratch register that is needed. */
  lemma LeadKeeps(code: seq<nat>, reg: nat, base: nat, offset: int)
    requires reg < 16 && base < 16 && Adds(code, 12, base, offset, Scratch(12, base)) && UsesScratch(code, 12, base, offset)
    ensures Keeps(code, reg) <==> !((reg == 12 && !(base == 12 && offset % WORD == 0)) || (reg == Scratch(12, base) && !Direct(offset)))
  {
    hide Run, Direct, Leaves, Keeps, Adds;
    if reg == 12 {
      AddressKeeps(code, base, offset, Scratch(12, base));
    } else if reg == Scratch(12, base) && !Direct(offset) {
      ConstantIsNotKept(code, reg, Magnitude(offset));
    } else if Direct(offset) {
      OthersAreKept(code, reg, base, offset, 12);
    } else {
      OthersAreKept(code, reg, base, offset, Scratch(12, base));
    }
  }

  lemma OthersAreKept(code: seq<nat>, reg: nat, base: nat, offset: int, scratch: nat)
    requires reg < 16 && base < 16 && reg != 12 && reg != scratch && Adds(code, 12, base, offset, scratch)
    ensures Keeps(code, reg)
  {
    hide Run;
    forall regs: seq<word> | |regs| == 16
      ensures Run(code, regs)[reg] == regs[reg]
    {
      assert AddsTo(Run(code, regs), regs, 12, base, offset, scratch);
    }
  }

  lemma ConstantIsNotKept(code: seq<nat>, reg: nat, value: word)
    requires reg < 16 && Leaves(code, reg, value)
    ensures !Keeps(code, reg)
  {
    hide Run;
    var none: seq<word> := seq(16, _ => 0);
    assert Run(code, none)[reg] == Run(code, none[reg := 1])[reg];
  }

  lemma AddressKeeps(code: seq<nat>, base: nat, offset: int, scratch: nat)
    requires base < 16 && scratch != 12 && Adds(code, 12, base, offset, scratch)
    ensures Keeps(code, 12) <==> base == 12 && offset % WORD == 0
  {
    hide Run;
    var none: seq<word> := seq(16, _ => 0);
    if base == 12 && offset % WORD == 0 {
      forall regs: seq<word> | |regs| == 16
        ensures Run(code, regs)[12] == regs[12]
      {
        assert AddsTo(Run(code, regs), regs, 12, base, offset, scratch);
        ModAdd(regs[12], offset);
        QuotientUnique(regs[12], WORD, 0, regs[12]);
      }
    } else {
      var regs := if base == 12 then none else none[12 := (1 + offset) % WORD];
      Successor(offset);
      assert AddsTo(Run(code, regs), regs, 12, base, offset, scratch);
      assert Run(code, regs)[12] != regs[12];
    }
  }

  lemma WordAccess(load: bool, down: bool, rn: nat, rd: nat, low: nat)
    requires rn < 16 && rd < 16 && low < 0x1000
    ensures DecodeFields((if load then 0xe51 else 0xe50) + (if down then 0 else 8), rn, rd, low)
         == Access(load, 4, rd, rn, if down then Minus(low) else low)
  {
    hide Operand;
  }

  lemma ByteAccess(load: bool, down: bool, rn: nat, rd: nat, low: nat)
    requires rn < 16 && rd < 16 && low < 0x1000
    ensures DecodeFields((if load then 0xe55 else 0xe54) + (if down then 0 else 8), rn, rd, low)
         == Access(load, 1, rd, rn, if down then Minus(low) else low)
  {
    hide Operand;
  }

  lemma HalfAccess(load: bool, down: bool, rn: nat, rd: nat, offset: nat)
    requires rn < 16 && rd < 16 && offset < 256
    ensures var low := offset / 16 * 256 + (if load then 0xf0 else 0xb0) + offset % 16;
      && low < 0x1000
      && DecodeFields((if load then 0xe15 else 0xe14) + (if down then 0 else 8), rn, rd, low)
         == Access(load, 2, rd, rn, if down then Minus(offset) else offset)
  {
    hide Operand;
    var q, r, mark := offset / 16, offset % 16, if load then 15 else 11;
    var low := q * 256 + mark * 16 + r;
    QuotientUnique(low, 256, q, mark * 16 + r);
    QuotientUnique(low, 16, q * 16 + mark, r);
    QuotientUnique(q * 16 + mark, 16, q, mark);
  }

  /** The instruction word of an access; of a half-word's displacement it has room for the low byte. */
  method AccessWord(load: bool, size: nat, rt: nat, addr: nat, disp: int) returns (insn: nat)
    requires rt < 15 && addr < 15 && (size == 2 || Reaches(disp, size))
    ensures Decode(insn) == Access(load, if size == 1 || size == 2 then size else 4, rt, addr, Held(disp, size))
  {
    hide Pack, Decode, DecodeFields;
    var down := disp < 0;
    var up := if down then 0 else 8;
    var offset := if down then -disp else disp;
    var op, low := (if load then 0xe51 else 0xe50) + up, offset;
    if size == 1 {
      op := (if load then 0xe55 else 0xe54) + up;
      ByteAccess(load, down, addr, rt, offset);
    } else if size == 2 {
      op := (if load then 0xe15 else 0xe14) + up;
      low := offset % 256 / 16 * 256 + (if load then 0xf0 else 0xb0) + offset % 16;
      LowNibble(offset);
      HalfAccess(load, down, addr, rt, offset % 256);
    } else {
      WordAccess(load, down, addr, rt, offset);
    }
    DecodePack(op, addr, rt, low);
    insn := Pack(op, addr, rt, low);
  }

  lemma LowNibble(offset: nat)
    ensures offset % 256 % 16 == offset % 16
  {
    QuotientUnique(offset, 16, offset / 256 * 16 + offset % 256 / 16, offset % 256 % 16);
  }

  lemma Complement(imm: int)
    ensures (-imm - 1) % WORD == WORD - 1 - imm % WORD
  {
    QuotientUnique(-imm - 1, WORD, -(imm / WORD) - 1, WORD - 1 - imm % WORD);
  }

  lemma Halved(imm: int)
    ensures imm % 0x1_0000 + (imm / 0x1_0000 % 0x1_0000) * 0x1_0000 == imm % WORD
  {
  }

  lemma MovOperand(reg: nat, e: nat, complement: bool)
    requires reg < 16 && e < 0x1000 && 0 <= Operand(e) < WORD
    ensures Sets([Pack(if complement then 0xe3e else 0xe3a, 0, reg, e)], reg, if complement then WORD - 1 - Operand(e) else Operand(e))
  {
    hide Operand, Run, Decode, Pack;
    DecodePack(if complement then 0xe3e else 0xe3a, 0, reg, e);
    forall regs: seq<word> | |regs| == 16 {
      RunOne(Pack(if complement then 0xe3e else 0xe3a, 0, reg, e), regs);
    }
  }

  lemma MovHalves(reg: nat, low: nat, high: nat)
    requires reg < 16 && low < 0x1_0000 && high < 0x1_0000
    ensures var a, b := Pack(0xe30, low / 0x1000, reg, low % 0x1000), Pack(0xe34, high / 0x1000, reg, high % 0x1000);
            Sets([a], reg, low) && Sets([a] + [b], reg, low + high * 0x1_0000)
  {
    hide Operand, Run, Decode, Pack;
    var a, b := Pack(0xe30, low / 0x1000, reg, low % 0x1000), Pack(0xe34, high / 0x1000, reg, high % 0x1000);
    DecodePack(0xe30, low / 0x1000, reg, low % 0x1000);
    DecodePack(0xe34, high / 0x1000, reg, high % 0x1000);
    forall regs: seq<word> | |regs| == 16
      ensures Run([a], regs) == regs[reg := low] && Run([a] + [b], regs) == regs[reg := low + high * 0x1_0000]
    {
      RunOne(a, regs);
      RunBoth([a], [b], regs);
      RunOne(b, Run([a], regs));
    }
  }

  lemma ModAdd(a: int, b: int)
    ensures (a + b % WORD) % WORD == (a + b) % WORD && (a - b % WORD) % WORD == (a - b) % WORD
  {
    QuotientUnique(a + b, WORD, (a + b % WORD) / WORD + b / WORD, (a + b % WORD) % WORD);
    QuotientUnique(a - b, WORD, (a - b % WORD) / WORD - b / WORD, (a - b % WORD) % WORD);
  }

  /** Moving a register onto itself takes no code. */
  lemma MovRegister(dst: nat, src: nat)
    requires dst < 16 && src < 16
    ensures Adds(if dst == src then [] else [Pack(0xe1a, 0, dst, src)], dst, src, 0, dst)
  {
    hide Operand, Run, Decode, Pack;
    DecodePack(0xe1a, 0, dst, src);
    forall regs: seq<word> | |regs| == 16
      ensures AddsTo(Run(if dst == src then [] else [Pack(0xe1a, 0, dst, src)], regs), regs, dst, src, 0, dst)
    {
      QuotientUnique(regs[src], WORD, 0, regs[src]);
      if dst == src {
        RunNone(regs);
      } else {
        RunOne(Pack(0xe1a, 0, dst, src), regs);
      }
    }
  }

  lemma RunNone(regs: seq<word>)
    requires |regs| == 16
    ensures Run([], regs) == regs
  {
  }

  lemma AddOperand(dst: nat, src: nat, e: nat, imm: int)
    requires dst < 16 && src < 16 && e < 0x1000 && Operand(e) == (if imm < 0 then -imm else imm) % WORD
    ensures Adds([Pack(if imm < 0 then 0xe24 else 0xe28, src, dst, e)], dst, src, imm, dst)
  {
    hide Operand, Run, Decode, Pack;
    var w := Pack(if imm < 0 then 0xe24 else 0xe28, src, dst, e);
    DecodePack(if imm < 0 then 0xe24 else 0xe28, src, dst, e);
    forall regs: seq<word> | |regs| == 16
      ensures AddsTo(Run([w], regs), regs, dst, src, imm, dst)
    {
      RunOne(w, regs);
      ModAdd(regs[src], if imm < 0 then -imm else imm);
    }
  }

  /** An offset loaded into the scratch register, then added or subtracted. */
  lemma AddScratch(movs: seq<nat>, dst: nat, src: nat, tmp: nat, imm: int)
    requires dst < 16 && src < 16 && tmp < 16 && Sets(movs, tmp, (if imm < 0 then -imm else imm) % WORD)
    ensures var out := movs + [Pack(if imm < 0 then 0xe04 else 0xe08, src, dst, tmp)];
      if src != tmp then Adds(out, dst, src, imm, tmp)
      else Leaves(out, dst, Doubled(imm))
    ensures dst != tmp ==> Leaves(movs + [Pack(if imm < 0 then 0xe04 else 0xe08, src, dst, tmp)], tmp, Magnitude(imm))
  {
    hide Operand, Run, Decode, Pack;
    var w := Pack(if imm < 0 then 0xe04 else 0xe08, src, dst, tmp);
    DecodePack(if imm < 0 then 0xe04 else 0xe08, src, dst, tmp);
    forall regs: seq<word> | |regs| == 16
      ensures if src != tmp then AddsTo(Run(movs + [w], regs), regs, dst, src, imm, tmp)
              else Run(movs + [w], regs)[dst] == Doubled(imm)
      ensures dst != tmp ==> Run(movs + [w], regs)[tmp] == Magnitude(imm)
    {
      RunBoth(movs, [w], regs);
      RunOne(w, Run(movs, regs));
      ModAdd(regs[src], if imm < 0 then -imm else imm);
    }
  }

  /** A result that does not depend on the source is not a sum with it. */
  lemma ConstantIsNoSum(code: seq<nat>, dst: nat, src: nat, imm: int, value: word)
    requires dst < 16 && src < 16 && Leaves(code, dst, value)
    ensures !Adds(code, dst, src, imm, Scratch(dst, src))
  {
    hide Run;
    var none: seq<word> := seq(16, _ => 0);
    var other := none[src := 1];
    assert Run(code, none)[dst] == Run(code, other)[dst];
    ModAdd(0, imm);
    ModAdd(1, imm);
    Successor(imm);
  }

  lemma Successor(imm: int)
    ensures (1 + imm) % WORD != imm % WORD
  {
    if imm % WORD == WORD - 1 {
      QuotientUnique(1 + imm, WORD, imm / WORD + 1, 0);
    } else {
      QuotientUnique(1 + imm, WORD, imm / WORD, imm % WORD + 1);
    }
  }

  lemma SmallOperand(imm: int)
    requires 0 <= imm <= 255
    ensures Operand(imm) == imm % WORD
  {
    hide Operand;
    ByteIsOperand(imm);
  }
}
