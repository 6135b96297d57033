/** How long an x86 instruction is and which size attributes matter to it, for 16-bit and 32-bit
    code: chapter 2 and appendix A of volume 2 of the Intel SDM. Opcodes of the two-byte map are
    numbered from 0x100 on. */
module Code16Reference {
  import opened Bytes
  import opened Wrappers

  /** An instruction from its opcode on: where it ends, and whether the operand size and the
      address size matter to what it does. */
  datatype Format = Format(end: nat, operand: bool, address: bool)

  function OperandBytes(operand32: bool): nat {
    if operand32 then 4 else 2
  }

  /** Legacy prefixes: lock and repeat, segment overrides, operand size, address size. */
  predicate IsPrefix(b: byte) {
    b in {0xf0, 0xf2, 0xf3, 0x26, 0x2e, 0x36, 0x3e, 0x64, 0x65, 0x66, 0x67}
  }

  /** A ModRM byte follows the opcode. */
  predicate TakesModRM(n: nat) {
    || (n < 0x40 && n % 8 < 4)
    || n == 0x62 || n == 0x63 || n == 0x69 || n == 0x6b || 0x80 <= n <= 0x8f
    || n == 0xc0 || n == 0xc1 || 0xc4 <= n <= 0xc7 || 0xd0 <= n <= 0xd3 || 0xd8 <= n <= 0xdf
    || n == 0xf6 || n == 0xf7 || n == 0xfe || n == 0xff
    || 0x100 <= n <= 0x103 || 0x120 <= n <= 0x123 || 0x140 <= n <= 0x14f || 0x190 <= n <= 0x19f
    || 0x1a3 <= n <= 0x1a5 || 0x1ab <= n <= 0x1ad || 0x1af <= n <= 0x1b7 || 0x1ba <= n <= 0x1c1
  }

  /** One immediate byte: Ib and Jb operands; group 3 has one for TEST only. */
  predicate TakesByte(n: nat, reg: nat) {
    || (n < 0x40 && n % 8 == 4)
    || n == 0x6a || n == 0x6b || 0x70 <= n <= 0x7f || n == 0x80 || n == 0x82 || n == 0x83 || n == 0xa8
    || 0xb0 <= n <= 0xb7 || n == 0xc0 || n == 0xc1 || n == 0xc6 || n == 0xcd || n == 0xd4 || n == 0xd5
    || 0xe0 <= n <= 0xe7 || n == 0xeb || (n == 0xf6 && reg <= 1)
    || n == 0x1a4 || n == 0x1ac || n == 0x1ba
  }

  /** An immediate of the operand size: Iz, Iv and Jz operands, and the offset of a far pointer. */
  predicate TakesFull(n: nat, reg: nat) {
    || (n < 0x40 && n % 8 == 5)
    || n == 0x68 || n == 0x69 || n == 0x81 || n == 0x9a || n == 0xa9 || 0xb8 <= n <= 0xbf || n == 0xc7
    || n == 0xe8 || n == 0xe9 || n == 0xea || (n == 0xf7 && reg <= 1)
    || 0x180 <= n <= 0x18f
  }

  function ImmediateBytes(n: nat, reg: nat, operand32: bool, address32: bool): nat {
    (if TakesByte(n, reg) then 1 else 0)
    + (if TakesFull(n, reg) then OperandBytes(operand32) else 0)
    + (if n == 0xc2 || n == 0xca || n == 0x9a || n == 0xea then 2 else 0)
    + (if n == 0xc8 then 3 else 0)
    + (if 0xa0 <= n <= 0xa3 then OperandBytes(address32) else 0)
  }

  /** The operand size matters: operands of type v or z, the stack and the return frames of near
      and far transfers; a segment register stored in a general register; the layout of an FPU
      environment; the base of a descriptor table. A short branch cuts its target to 16 bits under
      a 16-bit operand size, which changes nothing below 2^16, where 16-bit code lies. */
  predicate OperandMatters(n: nat, reg: nat, memory: bool) {
    || (n < 0x40 && (n % 8 == 1 || n % 8 == 3 || n % 8 == 5))
    || n == 0x06 || n == 0x07 || n == 0x0e || n == 0x16 || n == 0x17 || n == 0x1e || n == 0x1f
    || 0x40 <= n <= 0x62 || 0x68 <= n <= 0x6b || n == 0x6d || n == 0x6f
    || n == 0x81 || n == 0x83 || n == 0x85 || n == 0x87 || n == 0x89 || n == 0x8b || n == 0x8d || n == 0x8f
    || (n == 0x8c && !memory)
    || 0x91 <= n <= 0x9a || n == 0x9c || n == 0x9d || n == 0xa1 || n == 0xa3 || n == 0xa5 || n == 0xa7
    || n == 0xa9 || n == 0xab || n == 0xad || n == 0xaf || 0xb8 <= n <= 0xbf || 0xc1 <= n <= 0xc5 || 0xc7 <= n <= 0xcb
    || n == 0xcf || n == 0xd1 || n == 0xd3
    || ((n == 0xd9 || n == 0xdd) && memory && (reg == 4 || reg == 6))
    || n == 0xe5 || n == 0xe7 || n == 0xe8 || n == 0xe9 || n == 0xea || n == 0xed || n == 0xef || n == 0xf7 || n == 0xff
    || (n == 0x100 && !memory && reg <= 1) || n == 0x102 || n == 0x103
    || (n == 0x101 && ((memory && reg <= 3) || (!memory && reg == 4)))
    || 0x140 <= n <= 0x14f || 0x180 <= n <= 0x18f || n == 0x1a3 || n == 0x1a4 || n == 0x1a5
    || n == 0x1ab || n == 0x1ac || n == 0x1ad || n == 0x1af || 0x1b1 <= n <= 0x1b7 || 0x1ba <= n <= 0x1bf || n == 0x1c1
    || 0x1c8 <= n <= 0x1cf
  }

  /** The address size matters without a ModRM operand: string operations, direct offsets, table
      look-up, and the counting branches. */
  predicate AddressMatters(n: nat) {
    0x6c <= n <= 0x6f || 0xa0 <= n <= 0xa7 || 0xaa <= n <= 0xaf || n == 0xd7 || 0xe0 <= n <= 0xe3
  }

  /** Bytes of addressing after a ModRM byte with a memory operand: tables 2-1 and 2-2. */
  function AddressingBytes(mode: nat, rm: nat, base: nat, address32: bool): nat {
    if !address32 then (if mode == 1 then 1 else if mode == 2 || rm == 6 then 2 else 0)
    else
      (if rm == 4 then 1 else 0)
      + (if mode == 1 then 1 else if mode == 2 || rm == 5 || (rm == 4 && base == 5) then 4 else 0)
  }

  /** An instruction up to its ModRM byte: the number of its opcode, the position after it, and
      the fields of the ModRM byte. Without a ModRM byte it reads as a register form. */
  datatype Opening = Opening(n: nat, next: nat, mode: nat, reg: nat, rm: nat)

  /** What this module describes: the one-byte map and the general instructions of the two-byte
      map, but not moves to and from control and debug registers with a memory mode, nor the system
      instructions that are told apart by their whole ModRM byte. */
  predicate Described(opening: Opening) {
    && (opening.n >= 0x100 ==>
         TakesModRM(opening.n) || 0x130 <= opening.n <= 0x132 || 0x180 <= opening.n <= 0x18f || opening.n == 0x1a2
         || 0x1c8 <= opening.n <= 0x1cf)
    && (0x120 <= opening.n <= 0x123 ==> opening.mode == 3)
    && (opening.n == 0x101 ==> if opening.mode == 3 then opening.reg == 4 || opening.reg == 6 else opening.reg != 5)
  }

  /** The opcode at `at` as a number, and the position after it. */
  function OpcodeAt(code: seq<byte>, at: nat): (r: Option<(nat, nat)>)
    requires at < |code|
    ensures r.Some? ==> at < r.value.1 <= |code| && (r.value.0 < 0x100 <==> r.value.1 == at + 1)
  {
    if code[at] != 0x0f then Some((code[at], at + 1))
    else if at + 1 < |code| then Some((0x100 + (code[at + 1] as int), at + 2))
    else None
  }

  function OpeningAt(code: seq<byte>, at: nat): (r: Option<Opening>)
    requires at < |code|
    ensures r.Some? ==> at < r.value.next <= |code| && r.value.reg < 8
  {
    match OpcodeAt(code, at)
    case None => None
    case Some((n, next)) =>
      if !TakesModRM(n) then Some(Opening(n, next, 3, 0, 0))
      else if next >= |code| then None
      else Some(Opening(n, next + 1, code[next] / 64, code[next] / 8 % 8, code[next] % 8))
  }

  /** The whole instruction, given the base field of its SIB byte when it has one. */
  function FormatOf(opening: Opening, base: nat, operand32: bool, address32: bool): Format {
    var memory := opening.mode != 3;
    Format(opening.next + (if memory then AddressingBytes(opening.mode, opening.rm, base, address32) else 0)
             + ImmediateBytes(opening.n, opening.reg, operand32, address32),
           OperandMatters(opening.n, opening.reg, memory), memory || AddressMatters(opening.n))
  }

  function BaseAt(code: seq<byte>, opening: Opening, address32: bool): nat {
    if address32 && opening.mode != 3 && opening.rm == 4 && opening.next < |code| then code[opening.next] % 8 else 0
  }

  function Within(code: seq<byte>, format: Format): (r: Option<Format>)
    ensures r.Some? ==> r == Some(format) && format.end <= |code|
  {
    if format.end > |code| then None else Some(format)
  }

  /** The instruction whose opcode is at `at`, for given sizes. */
  function FormatAt(code: seq<byte>, at: nat, operand32: bool, address32: bool): (r: Option<Format>)
    requires at < |code|
    ensures r.Some? ==> at < r.value.end <= |code|
  {
    match OpeningAt(code, at)
    case None => None
    case Some(opening) =>
      if !Described(opening) then None
      else Within(code, FormatOf(opening, BaseAt(code, opening, address32), operand32, address32))
  }

  /** Where the instruction whose opcode is at `at` ends, also for those not described further. */
  function EndAt(code: seq<byte>, at: nat, operand32: bool, address32: bool): (r: Option<nat>)
    requires at < |code|
    ensures r.Some? ==> at < r.value <= |code|
  {
    match OpeningAt(code, at)
    case None => None
    case Some(opening) =>
      var end := FormatOf(opening, BaseAt(code, opening, address32), operand32, address32).end;
      if end > |code| then None else Some(end)
  }

  // ---- Only sizes that matter are looked at

  lemma ImmediateSizes(n: nat, reg: nat, memory: bool, o: bool, a: bool, o': bool, a': bool)
    requires OperandMatters(n, reg, memory) ==> o == o'
    requires AddressMatters(n) ==> a == a'
    ensures ImmediateBytes(n, reg, o, a) == ImmediateBytes(n, reg, o', a')
  {
  }

  /** A size that does not matter can be read either way. */
  lemma FormatSizes(code: seq<byte>, at: nat, o: bool, a: bool, o': bool, a': bool)
    requires at < |code| && FormatAt(code, at, o, a).Some?
    requires FormatAt(code, at, o, a).value.operand ==> o == o'
    requires FormatAt(code, at, o, a).value.address ==> a == a'
    ensures FormatAt(code, at, o', a') == FormatAt(code, at, o, a)
  {
    hide OperandMatters, AddressMatters, ImmediateBytes, OpeningAt, AddressingBytes;
    var opening := OpeningAt(code, at).value;
    ImmediateSizes(opening.n, opening.reg, opening.mode != 3, o, a, o', a');
  }

  /** Which sizes matter does not depend on the sizes. */
  lemma FormatFlags(code: seq<byte>, at: nat, o: bool, a: bool, o': bool, a': bool)
    requires at < |code| && FormatAt(code, at, o, a).Some? && FormatAt(code, at, o', a').Some?
    ensures FormatAt(code, at, o, a).value.operand == FormatAt(code, at, o', a').value.operand
    ensures FormatAt(code, at, o, a).value.address == FormatAt(code, at, o', a').value.address
  {
    hide OperandMatters, AddressMatters, ImmediateBytes, OpeningAt, AddressingBytes;
  }

  lemma OpeningIsLocal(code: seq<byte>, at: nat, other: seq<byte>, at': nat, end: nat)
    requires at < end <= |code| && at' + (end - at) <= |other|
    requires forall i :: at <= i < end ==> other[i - at + at'] == code[i]
    requires OpeningAt(code, at).Some? && OpeningAt(code, at).value.next <= end
    ensures OpeningAt(other, at') == Some(OpeningAt(code, at).value.(next := OpeningAt(code, at).value.next - at + at'))
  {
    hide TakesModRM;
    assert other[at - at + at'] == code[at];
    if at + 1 < end {
      assert other[at + 1 - at + at'] == code[at + 1];
    }
    if at + 2 < end {
      assert other[at + 2 - at + at'] == code[at + 2];
    }
  }

  /** An instruction's format depends only on its own bytes. */
  lemma FormatIsLocal(code: seq<byte>, at: nat, other: seq<byte>, at': nat, end: nat, operand32: bool, address32: bool)
    requires at < end <= |code| && at' + (end - at) <= |other|
    requires forall i :: at <= i < end ==> other[i - at + at'] == code[i]
    requires FormatAt(code, at, operand32, address32).Some? && FormatAt(code, at, operand32, address32).value.end == end
    ensures FormatAt(other, at', operand32, address32)
         == Some(FormatAt(code, at, operand32, address32).value.(end := end - at + at'))
  {
    hide OperandMatters, AddressMatters, ImmediateBytes, OpeningAt;
    OpeningIsLocal(code, at, other, at', end);
    var next := OpeningAt(code, at).value.next;
    if next < end {
      assert other[next - at + at'] == code[next];
    }
  }
}
