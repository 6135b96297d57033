/** Rewriting 32-bit x86 code for a 16-bit default operand and address size. */
module Code16 {
  import opened Bytes
  import opened Wrappers
  import opened Code16Reference

  // ---- Instruction lengths and the sizes that matter

  /** What an opcode says: a ModRM byte follows; the operand size or the address size matters;
      the number of immediate bytes; whether the immediate depends on the ModRM register field. */
  datatype Row = Row(modrm: bool, operand: bool, address: bool, immediate: nat, group: bool)

  /** An instruction from its opcode on: where it ends and which sizes matter. */
  datatype Shape = Shape(end: nat, operand: bool, address: bool)

  /** A ModRM operand: where it ends, its mode and its register field. */
  datatype Operand = Operand(end: nat, mode: nat, reg: nat)

  function Wide(operand32: bool): nat {
    if operand32 then 4 else 2
  }

  /** Opcodes after the 0x0f escape. */
  function TwoByteRow(second: byte, operand32: bool): Option<Row> {
    if 0x80 <= second <= 0x8f then Some(Row(false, true, false, Wide(operand32), false))
    else if 0x90 <= second <= 0x9f then Some(Row(true, false, false, 0, false))
    else if 0x40 <= second <= 0x4f || second == 0xa3 || second == 0xab || second == 0xaf || second == 0xb1 || second == 0xb7
         || second == 0xbc || second == 0xbd || second == 0xbf || second == 0xc1 || 0xc8 <= second <= 0xcf then
      Some(Row(second < 0xc8, true, false, 0, false))
    else if second == 0xa4 || second == 0xac || second == 0xba then Some(Row(true, true, false, 1, false))
    else if second == 0xa5 || second == 0xad || second == 0xb3 || second == 0xbb then Some(Row(true, true, false, 0, false))
    else if second == 0xb0 || second == 0xb6 || second == 0xbe || second == 0xc0 then
      Some(Row(true, second == 0xb6 || second == 0xbe, false, 0, false))
    else if second == 0x20 || second == 0x21 || second == 0x22 || second == 0x23 then Some(Row(true, false, false, 0, false))
    else if second == 0x01 then Some(Row(true, true, false, 0, false))
    else if second == 0x30 || second == 0x31 || second == 0x32 || second == 0xa2 then Some(Row(false, false, false, 0, false))
    else None
  }

  /** One-byte opcodes up to 0x3f: the arithmetic block and the segment pushes and pops. */
  function ArithmeticRow(opcode: byte, operand32: bool): Row
    requires opcode <= 0x3f
  {
    var low := opcode % 8;
    if low <= 3 then Row(true, low == 1 || low == 3, false, 0, false)
    else if low == 4 then Row(false, false, false, 1, false)
    else if low == 5 then Row(false, true, false, Wide(operand32), false)
    else Row(false, opcode == 0x06 || opcode == 0x07 || opcode == 0x0e || opcode == 0x16 || opcode == 0x17
                    || opcode == 0x1e || opcode == 0x1f, false, 0, false)
  }

  function OneByteRow(opcode: byte, operand32: bool, address32: bool): Option<Row> {
    var wide := Wide(operand32);
    if opcode <= 0x3f then Some(ArithmeticRow(opcode, operand32))
    else if 0x40 <= opcode <= 0x61 then Some(Row(false, true, false, 0, false))
    else if opcode == 0x68 then Some(Row(false, true, false, wide, false))
    else if opcode == 0x69 then Some(Row(true, true, false, wide, false))
    else if opcode == 0x6a then Some(Row(false, true, false, 1, false))
    else if opcode == 0x6b then Some(Row(true, true, false, 1, false))
    else if 0x6c <= opcode <= 0x6f then Some(Row(false, opcode == 0x6d || opcode == 0x6f, true, 0, false))
    else if 0x70 <= opcode <= 0x7f then Some(Row(false, false, false, 1, false))
    else if opcode == 0x80 || opcode == 0x82 then Some(Row(true, false, false, 1, false))
    else if opcode == 0x81 then Some(Row(true, true, false, wide, false))
    else if opcode == 0x83 then Some(Row(true, true, false, 1, false))
    else if 0x80 <= opcode <= 0x8f then
      Some(Row(true, opcode == 0x85 || opcode == 0x87 || opcode == 0x89 || opcode == 0x8b || opcode == 0x8d || opcode == 0x8f,
               false, 0, false))
    else if opcode == 0x90 then Some(Row(false, false, false, 0, false))
    else if 0x91 <= opcode <= 0x99 || opcode == 0x9c || opcode == 0x9d then Some(Row(false, true, false, 0, false))
    else if 0xa0 <= opcode <= 0xa3 then Some(Row(false, opcode == 0xa1 || opcode == 0xa3, true, Wide(address32), false))
    else if 0xa4 <= opcode <= 0xaf then
      Some(Row(false, opcode % 2 == 1, opcode != 0xa8 && opcode != 0xa9,
               if opcode == 0xa8 then 1 else if opcode == 0xa9 then wide else 0, false))
    else if 0xb0 <= opcode <= 0xb7 then Some(Row(false, false, false, 1, false))
    else if 0xb8 <= opcode <= 0xbf then Some(Row(false, true, false, wide, false))
    else if opcode == 0xc0 || opcode == 0xc1 then Some(Row(true, opcode == 0xc1, false, 1, false))
    else if opcode == 0xc2 then Some(Row(false, true, false, 2, false))
    else if opcode == 0xc3 || opcode == 0xc8 || opcode == 0xc9 then
      Some(Row(false, true, false, if opcode == 0xc8 then 3 else 0, false))
    else if opcode == 0xc6 || opcode == 0xc7 then Some(Row(true, opcode == 0xc7, false, if opcode == 0xc6 then 1 else wide, false))
    else if opcode == 0xcc || opcode == 0xce || opcode == 0xcf || opcode == 0xf4 || opcode == 0xf5 || 0xf8 <= opcode <= 0xfd then
      Some(Row(false, false, false, 0, false))
    else if opcode == 0xcd then Some(Row(false, false, false, 1, false))
    else if 0xd0 <= opcode <= 0xd3 then Some(Row(true, opcode == 0xd1 || opcode == 0xd3, false, 0, false))
    else if 0xd8 <= opcode <= 0xdf then Some(Row(true, false, false, 0, false))
    else if 0xe0 <= opcode <= 0xe3 then Some(Row(false, false, true, 1, false))
    else if opcode == 0xe8 || opcode == 0xe9 then Some(Row(false, true, false, wide, false))
    else if opcode == 0xea then Some(Row(false, true, false, wide + 2, false))
    else if opcode == 0xeb || 0xe4 <= opcode <= 0xe7 then Some(Row(false, opcode == 0xe5 || opcode == 0xe7, false, 1, false))
    else if opcode == 0xec || opcode == 0xee then Some(Row(false, false, false, 0, false))
    else if opcode == 0xed || opcode == 0xef then Some(Row(false, true, false, 0, false))
    else if opcode == 0xf6 || opcode == 0xf7 then Some(Row(true, opcode == 0xf7, false, 0, true))
    else if opcode == 0xfe || opcode == 0xff then Some(Row(true, opcode == 0xff, false, 0, false))
    else None
  }

  /** Displacement bytes after a ModRM byte, given the SIB byte when there is one. */
  function DisplacementLength(mode: nat, rm: nat, sib: byte, address32: bool): nat {
    if mode == 3 then 0
    else if address32 then
      if mode == 1 then 1 else if mode == 2 then 4
      else if (rm == 4 && sib % 8 == 5) || rm == 5 then 4 else 0
    else if mode == 0 then (if rm == 6 then 2 else 0)
    else mode
  }

  /** Where the ModRM operand at `at` ends. */
  function OperandAt(code: seq<byte>, at: nat, address32: bool): (r: Option<Operand>)
    ensures r.Some? ==> at < r.value.end <= |code| && r.value.mode == code[at] / 64
  {
    if at >= |code| then None
    else
      var mode, rm := code[at] / 64, code[at] % 8;
      var hasSib := address32 && mode != 3 && rm == 4;
      if hasSib && at + 1 >= |code| then None
      else
        var body := at + 1 + if hasSib then 1 else 0;
        var end := body + DisplacementLength(mode, rm, if hasSib then code[at + 1] else 0, address32);
        if end > |code| then None else Some(Operand(end, mode, code[at] / 8 % 8))
  }

  /** The row of the opcode at `at` and the position after the opcode. */
  function RowAt(code: seq<byte>, at: nat, operand32: bool, address32: bool): (r: Option<(Row, nat)>)
    requires at < |code|
    ensures r.Some? ==> at < r.value.1 <= |code|
  {
    if code[at] == 0x0f then
      if at + 1 >= |code| then None
      else
        match TwoByteRow(code[at + 1], operand32)
        case None => None
        case Some(row) => Some((row, at + 2))
    else
      match OneByteRow(code[at], operand32, address32)
      case None => None
      case Some(row) => Some((row, at + 1))
  }

  /** Immediate bytes, once the ModRM register field is known. */
  function ImmediateLength(row: Row, reg: nat, operand32: bool): nat {
    if row.group && reg <= 1 then (if row.operand then Wide(operand32) else 1) else row.immediate
  }

  /** The rest of an instruction, after its opcode. */
  function Finish(code: seq<byte>, row: Row, next: nat, operand32: bool, address32: bool): (r: Option<Shape>)
    requires next <= |code|
    ensures r.Some? ==> next <= r.value.end <= |code|
  {
    if !row.modrm then
      if next + row.immediate > |code| then None else Some(Shape(next + row.immediate, row.operand, row.address))
    else
      match OperandAt(code, next, address32)
      case None => None
      case Some(operand) =>
        var end := operand.end + ImmediateLength(row, operand.reg, operand32);
        if end > |code| then None else Some(Shape(end, row.operand, row.address || operand.mode != 3))
  }

  /** The instruction whose opcode is at `at`, for given effective sizes. */
  function ShapeAt(code: seq<byte>, at: nat, operand32: bool, address32: bool): (r: Option<Shape>)
    requires at < |code|
    ensures r.Some? ==> at < r.value.end <= |code|
  {
    match RowAt(code, at, operand32, address32)
    case None => None
    case Some((row, next)) => Finish(code, row, next, operand32, address32)
  }

  // ---- Prefixes

  /** The first position from `at` on that holds no prefix. */
  function PrefixEnd(code: seq<byte>, at: nat): (end: nat)
    requires at <= |code|
    ensures at <= end <= |code|
    ensures end < |code| ==> !IsPrefix(code[end])
    ensures forall i :: at <= i < end ==> IsPrefix(code[i])
    decreases |code| - at
  {
    if at < |code| && IsPrefix(code[at]) then PrefixEnd(code, at + 1) else at
  }

  /** How often a byte occurs in a sequence. */
  function Count(s: seq<byte>, b: byte): nat {
    if s == [] then 0 else Count(s[..|s| - 1], b) + if s[|s| - 1] == b then 1 else 0
  }

  /** The prefixes that are not size overrides, in order. */
  function Others(s: seq<byte>): (r: seq<byte>)
    ensures |r| <= |s|
  {
    if s == [] then []
    else
      var last := s[|s| - 1];
      Others(s[..|s| - 1]) + if last == 0x66 || last == 0x67 then [] else [last]
  }

  // ---- Decoding as the processor does

  /** An instruction: its other prefixes, its bytes from the opcode on, and the effective
      sizes where they matter. */
  datatype Insn = Insn(others: seq<byte>, body: seq<byte>, operand32: Option<bool>, address32: Option<bool>)

  function SizeIf(matters: bool, size32: bool): Option<bool> {
    if matters then Some(size32) else None
  }

  /** A size override prefix, however often it is repeated, selects the other size. */
  function EffectiveSize(default32: bool, prefixes: seq<byte>, override: byte): bool {
    if override in prefixes then !default32 else default32
  }

  function InsnAt(code: seq<byte>, at: nat, default32: bool): (r: Option<(Insn, nat)>)
    requires at <= |code|
    ensures r.Some? ==> at < r.value.1 <= |code|
  {
    var opcodeAt := PrefixEnd(code, at);
    var prefixes := code[at..opcodeAt];
    if opcodeAt >= |code| then None
    else
      var operand32, address32 := EffectiveSize(default32, prefixes, 0x66), EffectiveSize(default32, prefixes, 0x67);
      match FormatAt(code, opcodeAt, operand32, address32)
      case None => None
      case Some(format) =>
        Some((Insn(Others(prefixes), code[opcodeAt..format.end], SizeIf(format.operand, operand32), SizeIf(format.address, address32)),
              format.end))
  }

  /** The instructions from a position to the end of the code. */
  function Stream(code: seq<byte>, at: nat, default32: bool): Option<seq<Insn>>
    requires at <= |code|
    decreases |code| - at
  {
    if at == |code| then Some([])
    else
      match InsnAt(code, at, default32)
      case None => None
      case Some((insn, end)) =>
        match Stream(code, end, default32)
        case None => None
        case Some(rest) => Some([insn] + rest)
  }

  predicate IsNop(insn: Insn) {
    insn.body == [0x90]
  }

  function WithoutNops(insns: seq<Insn>): seq<Insn> {
    if insns == [] then [] else (if IsNop(insns[0]) then [] else [insns[0]]) + WithoutNops(insns[1..])
  }

  // ---- The rewriting

  /** One instruction as the rewriter reads it: every override prefix toggles a size. */
  datatype Step = Step(opcodeAt: nat, shape: Shape, operand32: bool, address32: bool)

  function ToggledSize(prefixes: seq<byte>, override: byte): bool {
    Count(prefixes, override) % 2 == 0
  }

  function StepAt(code: seq<byte>, at: nat): (r: Option<Step>)
    requires at <= |code|
    ensures r.Some? ==> at <= r.value.opcodeAt < r.value.shape.end <= |code|
  {
    var opcodeAt := PrefixEnd(code, at);
    var prefixes := code[at..opcodeAt];
    if opcodeAt >= |code| then None
    else
      var operand32, address32 := ToggledSize(prefixes, 0x66), ToggledSize(prefixes, 0x67);
      match ShapeAt(code, opcodeAt, operand32, address32)
      case None => None
      case Some(shape) => Some(Step(opcodeAt, shape, operand32, address32))
  }

  predicate Dropped(code: seq<byte>, step: Step)
    requires step.opcodeAt < |code|
  {
    code[step.opcodeAt] == 0x90 && step.opcodeAt + 1 == step.shape.end
  }

  function Overrides(step: Step): seq<byte> {
    (if step.shape.address && step.address32 then [0x67] else []) + (if step.shape.operand && step.operand32 then [0x66] else [])
  }

  /** What an instruction becomes. */
  function Emit(code: seq<byte>, at: nat, step: Step): seq<byte>
    requires at <= step.opcodeAt < step.shape.end <= |code|
  {
    if Dropped(code, step) then []
    else Others(code[at..step.opcodeAt]) + Overrides(step) + code[step.opcodeAt..step.shape.end]
  }

  /** Position p starts an instruction, reading from `at`. */
  ghost predicate Reaches(code: seq<byte>, at: nat, p: nat)
    requires at <= |code|
    decreases |code| - at
  {
    at == p || (at < p && StepAt(code, at).Some? && Reaches(code, StepAt(code, at).value.shape.end, p))
  }

  /** The output for the instructions from `at` up to p. */
  ghost function Output(code: seq<byte>, at: nat, p: nat): seq<byte>
    requires at <= |code| && Reaches(code, at, p)
    decreases |code| - at
  {
    if at == p then []
    else
      var step := StepAt(code, at).value;
      Emit(code, at, step) + Output(code, step.shape.end, p)
  }

  /** Reading one more instruction extends the output. */
  lemma {:induction false} ReachNext(code: seq<byte>, at: nat, p: nat)
    requires at <= |code| && p < |code| && Reaches(code, at, p) && StepAt(code, p).Some?
    ensures Reaches(code, at, StepAt(code, p).value.shape.end)
    ensures Output(code, at, StepAt(code, p).value.shape.end) == Output(code, at, p) + Emit(code, p, StepAt(code, p).value)
    decreases |code| - at
  {
    var next := StepAt(code, p).value.shape.end;
    if at == p {
      assert Reaches(code, next, next);
    } else {
      ReachNext(code, StepAt(code, at).value.shape.end, p);
    }
  }

  /** No other instruction starts inside one. */
  lemma {:induction false} NoStartInside(code: seq<byte>, at: nat, p: nat, q: nat)
    requires at <= |code| && p < |code| && Reaches(code, at, p) && Reaches(code, at, q) && StepAt(code, p).Some?
    ensures q <= p || q >= StepAt(code, p).value.shape.end
    decreases |code| - at
  {
    if at != p && at != q {
      NoStartInside(code, StepAt(code, at).value.shape.end, p, q);
    }
  }

  // ---- An instruction's shape depends only on its own bytes, and on sizes only where they matter

  lemma RowIsLocal(code: seq<byte>, at: nat, other: seq<byte>, at': nat, end: nat, operand32: bool, address32: bool)
    requires at < end <= |code| && at' + (end - at) <= |other|
    requires forall i :: at <= i < end ==> other[i - at + at'] == code[i]
    requires RowAt(code, at, operand32, address32).Some? && RowAt(code, at, operand32, address32).value.1 <= end
    ensures RowAt(other, at', operand32, address32).Some?
    ensures RowAt(other, at', operand32, address32).value.0 == RowAt(code, at, operand32, address32).value.0
    ensures RowAt(other, at', operand32, address32).value.1 == RowAt(code, at, operand32, address32).value.1 - at + at'
  {
    hide OneByteRow, TwoByteRow;
    assert other[at - at + at'] == code[at];
    if code[at] == 0x0f {
      assert other[at + 1 - at + at'] == code[at + 1];
    }
  }

  lemma OperandIsLocal(code: seq<byte>, at: nat, other: seq<byte>, at': nat, end: nat, address32: bool)
    requires at < end <= |code| && at' + (end - at) <= |other|
    requires forall i :: at <= i < end ==> other[i - at + at'] == code[i]
    requires OperandAt(code, at, address32).Some? && OperandAt(code, at, address32).value.end <= end
    ensures OperandAt(other, at', address32)
         == Some(OperandAt(code, at, address32).value.(end := OperandAt(code, at, address32).value.end - at + at'))
  {
    assert other[at - at + at'] == code[at];
    if address32 && code[at] / 64 != 3 && code[at] % 8 == 4 {
      assert other[at + 1 - at + at'] == code[at + 1];
    }
  }

  lemma FinishIsLocal(code: seq<byte>, row: Row, next: nat, other: seq<byte>, next': nat, end: nat, operand32: bool, address32: bool)
    requires next <= end <= |code| && next' + (end - next) <= |other|
    requires forall i :: next <= i < end ==> other[i - next + next'] == code[i]
    requires Finish(code, row, next, operand32, address32).Some? && Finish(code, row, next, operand32, address32).value.end == end
    ensures Finish(other, row, next', operand32, address32)
         == Some(Finish(code, row, next, operand32, address32).value.(end := end - next + next'))
  {
    hide OperandAt;
    if row.modrm {
      OperandIsLocal(code, next, other, next', end, address32);
    }
  }

  lemma ShapeIsLocal(code: seq<byte>, at: nat, other: seq<byte>, at': nat, end: nat, operand32: bool, address32: bool)
    requires at < end <= |code| && at' + (end - at) <= |other|
    requires forall i :: at <= i < end ==> other[i - at + at'] == code[i]
    requires ShapeAt(code, at, operand32, address32).Some? && ShapeAt(code, at, operand32, address32).value.end == end
    ensures ShapeAt(other, at', operand32, address32)
         == Some(ShapeAt(code, at, operand32, address32).value.(end := end - at + at'))
  {
    hide RowAt, Finish;
    var (row, next) := RowAt(code, at, operand32, address32).value;
    RowIsLocal(code, at, other, at', end, operand32, address32);
    FinishIsLocal(code, row, next, other, next - at + at', end, operand32, address32);
  }

  lemma OneByteRowSizes(opcode: byte, o: bool, a: bool, o': bool, a': bool)
    ensures RowsAgree(OneByteRow(opcode, o, a), OneByteRow(opcode, o', a'), o == o', a == a')
  {
  }

  lemma TwoByteRowSizes(second: byte, o: bool, o': bool)
    ensures RowsAgree(TwoByteRow(second, o), TwoByteRow(second, o'), o == o', true)
  {
  }

  /** Two readings of an opcode under different sizes: the same facts, and the same lengths
      unless a size that matters differs. */
  predicate RowsAgree(r: Option<Row>, r': Option<Row>, sameOperand: bool, sameAddress: bool) {
    && (r.None? <==> r'.None?)
    && (r.Some? ==>
         && r.value.modrm == r'.value.modrm && r.value.operand == r'.value.operand
         && r.value.address == r'.value.address && r.value.group == r'.value.group
         && ((r.value.operand ==> sameOperand) && (r.value.address ==> sameAddress) ==> r == r'))
  }

  lemma RowSizes(code: seq<byte>, at: nat, o: bool, a: bool, o': bool, a': bool)
    requires at < |code|
    ensures RowAt(code, at, o, a).Some? ==>
      && RowAt(code, at, o', a').Some?
      && RowAt(code, at, o, a).value.1 == RowAt(code, at, o', a').value.1
      && RowsAgree(Some(RowAt(code, at, o, a).value.0), Some(RowAt(code, at, o', a').value.0), o == o', a == a')
  {
    hide OneByteRow, TwoByteRow;
    OneByteRowSizes(code[at], o, a, o', a');
    if at + 1 < |code| {
      TwoByteRowSizes(code[at + 1], o, o');
    }
  }

  /** A size that does not matter for an instruction can be read either way. */
  lemma ShapeSizes(code: seq<byte>, at: nat, o: bool, a: bool, o': bool, a': bool)
    requires at < |code| && ShapeAt(code, at, o, a).Some?
    requires ShapeAt(code, at, o, a).value.operand ==> o == o'
    requires ShapeAt(code, at, o, a).value.address ==> a == a'
    ensures ShapeAt(code, at, o', a') == ShapeAt(code, at, o, a)
  {
    RowSizes(code, at, o, a, o', a');
    hide RowAt;
  }

  // ---- The rows against the manual

  /** The instructions whose operand size matters though their row says otherwise: IRET, storing a
      segment register in a general register, and the FPU environment and state in memory. */
  predicate Misjudged(n: nat, reg: nat, memory: bool) {
    || n == 0xcf || (n == 0x8c && !memory) || ((n == 0xd9 || n == 0xdd) && memory && (reg == 4 || reg == 6))
  }

  /** A row agrees with the manual: same parts, and the sizes that matter are marked, but for the
      operand size of the misjudged instructions. */
  predicate RowMatches(row: Row, n: nat, reg: nat, memory: bool, operand32: bool, address32: bool) {
    && row.modrm == TakesModRM(n) && row.address == AddressMatters(n)
    && ImmediateLength(row, reg, operand32) == ImmediateBytes(n, reg, operand32, address32)
    && ((OperandMatters(n, reg, memory) && !row.operand) <==> Misjudged(n, reg, memory))
    && (row.operand && !OperandMatters(n, reg, memory) ==> n == 0x101) && (n == 0x101 ==> row.operand)
  }

  lemma ArithmeticRowMatches(opcode: byte, reg: nat, memory: bool, o: bool, a: bool)
    requires opcode <= 0x3f && opcode != 0x0f && OneByteRow(opcode, o, a).Some?
    ensures RowMatches(OneByteRow(opcode, o, a).value, opcode, reg, memory, o, a)
  {
  }

  lemma StackRowMatches(opcode: byte, reg: nat, memory: bool, o: bool, a: bool)
    requires 0x40 <= opcode <= 0x7f && OneByteRow(opcode, o, a).Some?
    ensures RowMatches(OneByteRow(opcode, o, a).value, opcode, reg, memory, o, a)
  {
  }

  lemma MoveRowMatches(opcode: byte, reg: nat, memory: bool, o: bool, a: bool)
    requires 0x80 <= opcode <= 0x9f && OneByteRow(opcode, o, a).Some?
    ensures RowMatches(OneByteRow(opcode, o, a).value, opcode, reg, memory, o, a)
  {
  }

  lemma TextRowMatches(opcode: byte, reg: nat, memory: bool, o: bool, a: bool)
    requires 0xa0 <= opcode <= 0xbf && OneByteRow(opcode, o, a).Some?
    ensures RowMatches(OneByteRow(opcode, o, a).value, opcode, reg, memory, o, a)
  {
  }

  lemma ControlRowMatches(opcode: byte, reg: nat, memory: bool, o: bool, a: bool)
    requires 0xc0 <= opcode <= 0xdf && OneByteRow(opcode, o, a).Some?
    ensures RowMatches(OneByteRow(opcode, o, a).value, opcode, reg, memory, o, a)
  {
  }

  lemma PortRowMatches(opcode: byte, reg: nat, memory: bool, o: bool, a: bool)
    requires 0xe0 <= opcode && OneByteRow(opcode, o, a).Some?
    ensures RowMatches(OneByteRow(opcode, o, a).value, opcode, reg, memory, o, a)
  {
  }

  lemma OneByteRowMatches(opcode: byte, reg: nat, memory: bool, o: bool, a: bool)
    requires opcode != 0x0f && OneByteRow(opcode, o, a).Some?
    ensures RowMatches(OneByteRow(opcode, o, a).value, opcode, reg, memory, o, a)
  {
    hide OneByteRow, RowMatches;
    if opcode <= 0x3f {
      ArithmeticRowMatches(opcode, reg, memory, o, a);
    } else if opcode <= 0x7f {
      StackRowMatches(opcode, reg, memory, o, a);
    } else if opcode <= 0x9f {
      MoveRowMatches(opcode, reg, memory, o, a);
    } else if opcode <= 0xbf {
      TextRowMatches(opcode, reg, memory, o, a);
    } else if opcode <= 0xdf {
      ControlRowMatches(opcode, reg, memory, o, a);
    } else {
      PortRowMatches(opcode, reg, memory, o, a);
    }
  }

  lemma LowTwoByteRowMatches(second: byte, reg: nat, memory: bool, o: bool, a: bool)
    requires second < 0xa4 && TwoByteRow(second, o).Some?
    ensures RowMatches(TwoByteRow(second, o).value, 0x100 + (second as int), reg, memory, o, a)
  {
  }

  lemma HighTwoByteRowMatches(second: byte, reg: nat, memory: bool, o: bool, a: bool)
    requires 0xa4 <= second && TwoByteRow(second, o).Some?
    ensures RowMatches(TwoByteRow(second, o).value, 0x100 + (second as int), reg, memory, o, a)
  {
  }

  lemma TwoByteRowMatches(second: byte, reg: nat, memory: bool, o: bool, a: bool)
    requires TwoByteRow(second, o).Some?
    ensures RowMatches(TwoByteRow(second, o).value, 0x100 + (second as int), reg, memory, o, a)
  {
    hide TwoByteRow, RowMatches;
    if second < 0xa4 {
      LowTwoByteRowMatches(second, reg, memory, o, a);
    } else {
      HighTwoByteRowMatches(second, reg, memory, o, a);
    }
  }

  lemma OperandMatches(code: seq<byte>, at: nat, address32: bool)
    requires OperandAt(code, at, address32).Some?
    ensures at < |code|
    ensures var mode, rm, operand := code[at] / 64, code[at] % 8, OperandAt(code, at, address32).value;
      var base := if address32 && mode != 3 && rm == 4 && at + 1 < |code| then code[at + 1] % 8 else 0;
      && operand.end == at + 1 + (if mode != 3 then AddressingBytes(mode, rm, base, address32) else 0)
      && operand.mode == mode && operand.reg == code[at] / 8 % 8
  {
  }

  /** The opcode at `at` is described by the manual's tables. */
  predicate DescribedAt(code: seq<byte>, at: nat) {
    at < |code| && OpeningAt(code, at).Some? && Described(OpeningAt(code, at).value)
  }

  predicate OperandMattersAt(code: seq<byte>, at: nat)
    requires DescribedAt(code, at)
  {
    var opening := OpeningAt(code, at).value;
    OperandMatters(opening.n, opening.reg, opening.mode != 3)
  }

  predicate AddressMattersAt(code: seq<byte>, at: nat)
    requires DescribedAt(code, at)
  {
    var opening := OpeningAt(code, at).value;
    opening.mode != 3 || AddressMatters(opening.n)
  }

  predicate MisjudgedAt(code: seq<byte>, at: nat) {
    && at < |code| && OpeningAt(code, at).Some?
    && var opening := OpeningAt(code, at).value;
    Misjudged(opening.n, opening.reg, opening.mode != 3)
  }

  lemma RowMatchesAt(code: seq<byte>, at: nat, o: bool, a: bool, reg: nat, memory: bool)
    requires at < |code| && RowAt(code, at, o, a).Some?
    ensures OpcodeAt(code, at).Some? && OpcodeAt(code, at).value.1 == RowAt(code, at, o, a).value.1
    ensures RowMatches(RowAt(code, at, o, a).value.0, OpcodeAt(code, at).value.0, reg, memory, o, a)
  {
    hide OneByteRow, TwoByteRow, RowMatches;
    if code[at] == 0x0f {
      TwoByteRowMatches(code[at + 1], reg, memory, o, a);
    } else {
      OneByteRowMatches(code[at], reg, memory, o, a);
    }
  }

  /** Where the rows read an instruction that is described, the manual reads one of the same
      length; the rows mark a size that matters unless they misjudge the instruction. */
  lemma ShapeMatches(code: seq<byte>, at: nat, o: bool, a: bool)
    requires at < |code| && ShapeAt(code, at, o, a).Some?
    ensures FormatAt(code, at, o, a).Some? <==> DescribedAt(code, at)
    ensures DescribedAt(code, at) ==>
      var shape, format := ShapeAt(code, at, o, a).value, FormatAt(code, at, o, a).value;
      && format.end == shape.end
      && format.operand == OperandMattersAt(code, at) && format.address == AddressMattersAt(code, at)
      && format.address == shape.address
      && ((format.operand && !shape.operand) <==> MisjudgedAt(code, at))
      && (shape.operand && !format.operand ==> OpeningAt(code, at).value.n == 0x101)
      && (OpeningAt(code, at).value.n == 0x101 ==> shape.operand)
  {
    hide RowAt, OperandAt, ImmediateLength, OperandMatters, AddressMatters, ImmediateBytes, TakesModRM, Misjudged, AddressingBytes, OpcodeAt, Described;
    var (row, next) := RowAt(code, at, o, a).value;
    if row.modrm {
      OperandMatches(code, next, a);
      var memory, reg := code[next] / 64 != 3, code[next] / 8 % 8;
      RowMatchesAt(code, at, o, a, reg, memory);
    } else {
      RowMatchesAt(code, at, o, a, 0, false);
      PlainImmediate(code, at, o, a);
    }
  }

  lemma PlainImmediate(code: seq<byte>, at: nat, o: bool, a: bool)
    requires at < |code| && RowAt(code, at, o, a).Some? && !RowAt(code, at, o, a).value.0.modrm
    ensures ImmediateLength(RowAt(code, at, o, a).value.0, 0, o) == RowAt(code, at, o, a).value.0.immediate
  {
  }

  // ---- What is accepted

  /** The one-byte opcodes that are refused: BOUND, ARPL and prefixes in an opcode's place, far CALL,
      WAIT, SAHF and LAHF, LES and LDS, far returns, AAM, AAD, SALC and XLAT, and INT1. */
  predicate RefusedOneByte(n: nat) {
    || 0x62 <= n <= 0x67 || n == 0x9a || n == 0x9b || n == 0x9e || n == 0x9f || n == 0xc4 || n == 0xc5 || n == 0xca || n == 0xcb
    || 0xd4 <= n <= 0xd7 || 0xf0 <= n <= 0xf3
  }

  /** The two-byte opcodes that are accepted. */
  predicate AcceptedTwoByte(second: nat) {
    second in {0x01, 0x20, 0x21, 0x22, 0x23, 0x30, 0x31, 0x32, 0xa2, 0xa3, 0xa4, 0xa5, 0xab, 0xac, 0xad, 0xaf, 0xb0, 0xb1, 0xb3, 0xb6, 0xb7,
               0xba, 0xbb, 0xbc, 0xbd, 0xbe, 0xbf, 0xc0, 0xc1}
    || 0x40 <= second <= 0x4f || 0x80 <= second <= 0x9f || 0xc8 <= second <= 0xcf
  }

  /** An opcode of either map is refused. */
  predicate Refused(n: nat) {
    if n < 0x100 then RefusedOneByte(n) else !AcceptedTwoByte(n - 0x100)
  }

  lemma OneByteAccepted(opcode: byte, o: bool, a: bool)
    ensures OneByteRow(opcode, o, a).None? <==> RefusedOneByte(opcode)
  {
  }

  lemma TwoByteAccepted(second: byte, o: bool)
    ensures TwoByteRow(second, o).None? <==> !AcceptedTwoByte(second)
  {
  }

  lemma RowReads(code: seq<byte>, at: nat, o: bool, a: bool)
    requires at < |code|
    ensures RowAt(code, at, o, a).Some? <==> OpcodeAt(code, at).Some? && !Refused(OpcodeAt(code, at).value.0)
  {
    hide OneByteRow, TwoByteRow, RefusedOneByte, AcceptedTwoByte;
    OneByteAccepted(code[at], o, a);
    if at + 1 < |code| {
      TwoByteAccepted(code[at + 1], o);
    }
  }

  /** The rows read exactly the instructions whose opcode is not refused and that end in the code, for
      all opcodes, and agree with the manual on where they end. */
  lemma ShapeReads(code: seq<byte>, at: nat, o: bool, a: bool)
    requires at < |code|
    ensures ShapeAt(code, at, o, a).Some?
       <==> OpcodeAt(code, at).Some? && !Refused(OpcodeAt(code, at).value.0) && EndAt(code, at, o, a).Some?
    ensures ShapeAt(code, at, o, a).Some? ==> EndAt(code, at, o, a) == Some(ShapeAt(code, at, o, a).value.end)
  {
    hide RowAt, OperandAt, ImmediateLength, OperandMatters, AddressMatters, ImmediateBytes, TakesModRM, Misjudged, AddressingBytes, OpcodeAt, Refused;
    RowReads(code, at, o, a);
    if RowAt(code, at, o, a).Some? {
      var (row, next) := RowAt(code, at, o, a).value;
      if !row.modrm {
        RowMatchesAt(code, at, o, a, 0, false);
        PlainImmediate(code, at, o, a);
      } else if next < |code| {
        RowMatchesAt(code, at, o, a, code[next] / 8 % 8, code[next] / 64 != 3);
        OperandReads(code, next, a);
        if OperandAt(code, next, a).Some? {
          OperandMatches(code, next, a);
        }
      } else {
        RowMatchesAt(code, at, o, a, 0, false);
        NoOperand(code, next, a);
      }
    }
  }

  lemma NoOperand(code: seq<byte>, at: nat, address32: bool)
    requires at >= |code|
    ensures OperandAt(code, at, address32).None?
  {
  }

  lemma OperandReads(code: seq<byte>, at: nat, address32: bool)
    requires at < |code|
    ensures var mode, rm := code[at] / 64, code[at] % 8;
      var base := if address32 && mode != 3 && rm == 4 && at + 1 < |code| then code[at + 1] % 8 else 0;
      OperandAt(code, at, address32).None? ==> at + 1 + (if mode != 3 then AddressingBytes(mode, rm, base, address32) else 0) > |code|
  {
  }

  // ---- Prefix sequences

  lemma {:induction false} CountMeansIn(s: seq<byte>, b: byte)
    ensures Count(s, b) == 0 <==> b !in s
  {
    if s != [] {
      CountMeansIn(s[..|s| - 1], b);
      assert s == s[..|s| - 1] + [s[|s| - 1]];
    }
  }

  lemma {:induction false} OthersAppend(s: seq<byte>, t: seq<byte>)
    ensures Others(s + t) == Others(s) + Others(t)
  {
    if t == [] {
      assert s + t == s;
    } else {
      assert (s + t)[..|s + t| - 1] == s + t[..|t| - 1];
      OthersAppend(s, t[..|t| - 1]);
    }
  }

  lemma {:induction false} OthersMember(s: seq<byte>, b: byte)
    ensures b in Others(s) ==> b in s && b != 0x66 && b != 0x67
  {
    if s != [] {
      OthersMember(s[..|s| - 1], b);
    }
  }

  lemma {:induction false} OthersIdentity(s: seq<byte>)
    requires 0x66 !in s && 0x67 !in s
    ensures Others(s) == s
  {
    if s != [] {
      assert s == s[..|s| - 1] + [s[|s| - 1]];
      OthersIdentity(s[..|s| - 1]);
    }
  }

  lemma {:induction false} PrefixEndIs(s: seq<byte>, at: nat, end: nat)
    requires at <= end < |s| && !IsPrefix(s[end]) && (forall i :: at <= i < end ==> IsPrefix(s[i]))
    ensures PrefixEnd(s, at) == end
    decreases end - at
  {
    if at < end {
      PrefixEndIs(s, at + 1, end);
    }
  }

  lemma OverridesAreNotOthers(step: Step)
    ensures Others(Overrides(step)) == []
  {
    OthersAppend([0x67], [0x66]);
  }

  /** The prefixes written out: the other ones, then the overrides. */
  lemma WrittenPrefixes(prefixes: seq<byte>, step: Step)
    requires forall b :: b in prefixes ==> IsPrefix(b)
    ensures var written := Others(prefixes) + Overrides(step);
      && Others(written) == Others(prefixes)
      && EffectiveSize(false, written, 0x66) == (step.shape.operand && step.operand32)
      && EffectiveSize(false, written, 0x67) == (step.shape.address && step.address32)
      && (forall i :: 0 <= i < |written| ==> IsPrefix(written[i]))
  {
    hide Others;
    OthersMember(prefixes, 0x66);
    OthersMember(prefixes, 0x67);
    OthersIdentity(Others(prefixes));
    OthersAppend(Others(prefixes), Overrides(step));
    OverridesAreNotOthers(step);
    var written := Others(prefixes) + Overrides(step);
    forall i | 0 <= i < |written|
      ensures IsPrefix(written[i])
    {
      if i < |Others(prefixes)| {
        OthersMember(prefixes, written[i]);
      }
    }
  }

  // ---- One instruction

  /** Sizes the rewritten instruction is read with: an override is written where the row asks for it. */
  function WrittenSizes(step: Step): (bool, bool) {
    (step.shape.operand && step.operand32, step.shape.address && step.address32)
  }

  /** The instruction the rewriter writes for the one at `at`. */
  function Understood(code: seq<byte>, at: nat, step: Step): Insn
    requires at <= step.opcodeAt < step.shape.end <= |code| && DescribedAt(code, step.opcodeAt)
  {
    var (operand32, address32) := WrittenSizes(step);
    Insn(Others(code[at..step.opcodeAt]), code[step.opcodeAt..step.shape.end],
         SizeIf(OperandMattersAt(code, step.opcodeAt), operand32), SizeIf(AddressMattersAt(code, step.opcodeAt), address32))
  }

  lemma StepFacts(code: seq<byte>, at: nat)
    requires at <= |code| && StepAt(code, at).Some?
    ensures var step := StepAt(code, at).value;
      && at <= step.opcodeAt < step.shape.end <= |code| && !IsPrefix(code[step.opcodeAt])
      && step.opcodeAt == PrefixEnd(code, at)
      && (forall b :: b in code[at..step.opcodeAt] ==> IsPrefix(b))
      && ShapeAt(code, step.opcodeAt, step.operand32, step.address32) == Some(step.shape)
      && step.operand32 == ToggledSize(code[at..step.opcodeAt], 0x66)
      && step.address32 == ToggledSize(code[at..step.opcodeAt], 0x67)
  {
  }

  lemma Layout(pre: seq<byte>, written: seq<byte>, body: seq<byte>, rest: seq<byte>, out: seq<byte>)
    requires out == pre + written + body + rest
    ensures out[|pre|..|pre| + |written|] == written
    ensures out[|pre| + |written|..|pre| + |written| + |body|] == body
    ensures forall i :: |pre| <= i < |pre| + |written| ==> out[i] == written[i - |pre|]
    ensures forall j :: 0 <= j < |body| ==> out[j + (|pre| + |written|)] == body[j]
  {
  }

  lemma EmittedDecodes(pre: seq<byte>, code: seq<byte>, at: nat, rest: seq<byte>)
    requires at <= |code| && StepAt(code, at).Some? && !Dropped(code, StepAt(code, at).value)
    requires DescribedAt(code, StepAt(code, at).value.opcodeAt)
    ensures var step := StepAt(code, at).value;
      InsnAt(pre + Emit(code, at, step) + rest, |pre|, false)
        == Some((Understood(code, at, step), |pre| + |Emit(code, at, step)|))
  {
    hide ShapeAt, FormatAt, StepAt, PrefixEnd, Others, Overrides, EffectiveSize, IsPrefix, DescribedAt, OperandMattersAt, AddressMattersAt;
    var step := StepAt(code, at).value;
    StepFacts(code, at);
    var o, end := step.opcodeAt, step.shape.end;
    var written, body := Others(code[at..o]) + Overrides(step), code[o..end];
    var out := pre + Emit(code, at, step) + rest;
    var o' := |pre| + |written|;
    WrittenPrefixes(code[at..o], step);
    assert out == pre + written + body + rest;
    Layout(pre, written, body, rest, out);
    EmittedFormat(code, step, out, o');
    assert out[0 + o'] == body[0];
    PrefixEndIs(out, |pre|, o');
  }

  lemma WrittenFormat(code: seq<byte>, step: Step)
    requires step.opcodeAt < step.shape.end <= |code| && DescribedAt(code, step.opcodeAt)
    requires ShapeAt(code, step.opcodeAt, step.operand32, step.address32) == Some(step.shape)
    ensures FormatAt(code, step.opcodeAt, WrittenSizes(step).0, WrittenSizes(step).1)
         == Some(Format(step.shape.end, OperandMattersAt(code, step.opcodeAt), AddressMattersAt(code, step.opcodeAt)))
  {
    hide ShapeAt, FormatAt, DescribedAt, OperandMattersAt, AddressMattersAt, MisjudgedAt;
    var o := step.opcodeAt;
    ShapeSizes(code, o, step.operand32, step.address32, WrittenSizes(step).0, WrittenSizes(step).1);
    ShapeMatches(code, o, WrittenSizes(step).0, WrittenSizes(step).1);
  }

  lemma EmittedFormat(code: seq<byte>, step: Step, out: seq<byte>, o': nat)
    requires step.opcodeAt < step.shape.end <= |code| && o' + (step.shape.end - step.opcodeAt) <= |out|
    requires DescribedAt(code, step.opcodeAt)
    requires ShapeAt(code, step.opcodeAt, step.operand32, step.address32) == Some(step.shape)
    requires forall j :: 0 <= j < step.shape.end - step.opcodeAt ==> out[j + o'] == code[step.opcodeAt..step.shape.end][j]
    ensures FormatAt(out, o', WrittenSizes(step).0, WrittenSizes(step).1)
         == Some(Format(step.shape.end - step.opcodeAt + o', OperandMattersAt(code, step.opcodeAt), AddressMattersAt(code, step.opcodeAt)))
  {
    hide ShapeAt, FormatAt, DescribedAt, OperandMattersAt, AddressMattersAt;
    var o, end := step.opcodeAt, step.shape.end;
    forall i | o <= i < end
      ensures out[i - o + o'] == code[i]
    {
      assert out[(i - o) + o'] == code[o..end][i - o];
    }
    WrittenFormat(code, step);
    FormatIsLocal(code, o, out, o', end, WrittenSizes(step).0, WrittenSizes(step).1);
  }

  /** An override prefix means to the processor what it means to the rewriter: it is absent or
      occurs an odd number of times. */
  predicate OverrideClear(prefixes: seq<byte>, override: byte) {
    Count(prefixes, override) == 0 || Count(prefixes, override) % 2 == 1
  }

  /** The instruction can be rewritten: the overrides of the sizes that matter are clear, and one
      whose operand size the rows overlook has that size overridden already. */
  predicate KeepsMeaning(code: seq<byte>, at: nat, step: Step)
    requires at <= step.opcodeAt <= |code|
  {
    var prefixes := code[at..step.opcodeAt];
    && DescribedAt(code, step.opcodeAt)
    && (OperandMattersAt(code, step.opcodeAt) ==>
         if MisjudgedAt(code, step.opcodeAt) then 0x66 in prefixes else OverrideClear(prefixes, 0x66))
    && (AddressMattersAt(code, step.opcodeAt) ==> OverrideClear(prefixes, 0x67))
  }

  /** The processor reads the original instruction as the one that is written in its place exactly
      when it can be rewritten. */
  lemma OriginalDecodes(code: seq<byte>, at: nat)
    requires at <= |code| && StepAt(code, at).Some? && DescribedAt(code, StepAt(code, at).value.opcodeAt)
    ensures var step := StepAt(code, at).value;
      if KeepsMeaning(code, at, step) then InsnAt(code, at, true) == Some((Understood(code, at, step), step.shape.end))
      else InsnAt(code, at, true).Some? ==>
        InsnAt(code, at, true).value.0 != Understood(code, at, step)
        && !IsNop(InsnAt(code, at, true).value.0) && !Dropped(code, step)
  {
    hide ShapeAt, FormatAt, StepAt, PrefixEnd, Others, Overrides, IsPrefix, Count, DescribedAt, OperandMattersAt, AddressMattersAt, MisjudgedAt;
    var step := StepAt(code, at).value;
    StepFacts(code, at);
    var o, prefixes := step.opcodeAt, code[at..step.opcodeAt];
    CountMeansIn(prefixes, 0x66);
    CountMeansIn(prefixes, 0x67);
    var operand32, address32 := EffectiveSize(true, prefixes, 0x66), EffectiveSize(true, prefixes, 0x67);
    WrittenFormat(code, step);
    ShapeMatches(code, o, step.operand32, step.address32);
    if KeepsMeaning(code, at, step) {
      FormatSizes(code, o, WrittenSizes(step).0, WrittenSizes(step).1, operand32, address32);
    } else if FormatAt(code, o, operand32, address32).Some? {
      FormatFlags(code, o, WrittenSizes(step).0, WrittenSizes(step).1, operand32, address32);
      if code[o] == 0x90 {
        NopHasNoSizes(code, o);
      }
    }
  }

  lemma NopHasNoSizes(code: seq<byte>, at: nat)
    requires at < |code| && code[at] == 0x90
    ensures DescribedAt(code, at) && !OperandMattersAt(code, at) && !AddressMattersAt(code, at)
  {
  }

  /** An instruction the manual's tables do not describe is not read on either side. */
  lemma UndescribedIsUnread(code: seq<byte>, at: nat)
    requires at <= |code| && StepAt(code, at).Some? && !DescribedAt(code, StepAt(code, at).value.opcodeAt)
    ensures InsnAt(code, at, true).None? && !Dropped(code, StepAt(code, at).value)
  {
    hide OpeningAt, Described;
    StepFacts(code, at);
    var o := StepAt(code, at).value.opcodeAt;
    if code[o] == 0x90 {
      NopHasNoSizes(code, o);
    }
  }

  // ---- The whole code

  /** Every instruction from `at` on can be rewritten. */
  ghost predicate Rewritable(code: seq<byte>, at: nat) {
    forall p: nat :: Reaches'(code, at, p) && p < |code| && StepAt(code, p).Some? ==> KeepsMeaning(code, p, StepAt(code, p).value)
  }

  ghost predicate Reaches'(code: seq<byte>, at: nat, p: nat) {
    at <= |code| && Reaches(code, at, p)
  }

  /** The rewritten code has the same instructions: read with a 16-bit default it is the original read
      with a 32-bit default, without the no-operations. Displacements are part of an instruction; where
      a relative branch goes is a matter of Code16Branches. */
  ghost predicate SameInstructions(code: seq<byte>, at: nat, out: seq<byte>, at': nat)
    requires at <= |code| && at' <= |out|
  {
    && Stream(code, at, true).Some?
    && Stream(out, at', false) == Some(WithoutNops(Stream(code, at, true).value))
  }

  lemma RewritableNext(code: seq<byte>, at: nat)
    requires at < |code| && StepAt(code, at).Some?
    ensures Rewritable(code, at) <==>
      KeepsMeaning(code, at, StepAt(code, at).value) && Rewritable(code, StepAt(code, at).value.shape.end)
  {
    hide KeepsMeaning, StepAt;
    var next := StepAt(code, at).value.shape.end;
    assert Reaches'(code, at, at);
    forall p: nat | Reaches'(code, next, p)
      ensures Reaches'(code, at, p)
    {
      ReachesGrows(code, next, p);
    }
  }

  lemma ReachesGrows(code: seq<byte>, at: nat, p: nat)
    requires at <= |code| && Reaches(code, at, p)
    ensures at <= p
  {
  }

  lemma NopStep(code: seq<byte>, at: nat)
    requires at <= |code| && StepAt(code, at).Some? && Dropped(code, StepAt(code, at).value)
    ensures KeepsMeaning(code, at, StepAt(code, at).value)
    ensures IsNop(Understood(code, at, StepAt(code, at).value))
  {
    hide OperandMattersAt, AddressMattersAt, DescribedAt;
    var step := StepAt(code, at).value;
    StepFacts(code, at);
    NopHasNoSizes(code, step.opcodeAt);
    assert code[step.opcodeAt..step.shape.end] == [0x90];
  }

  lemma SameList<T>(x: T, s: seq<T>, y: T, t: seq<T>)
    ensures [x] + s == [y] + t <==> x == y && s == t
  {
    assert ([x] + s)[0] == x && ([y] + t)[0] == y && ([x] + s)[1..] == s && ([y] + t)[1..] == t;
  }

  lemma WithoutNopsCons(x: Insn, s: seq<Insn>)
    ensures WithoutNops([x] + s) == (if IsNop(x) then [] else [x]) + WithoutNops(s)
  {
    assert ([x] + s)[1..] == s;
  }

  /** Reading one instruction on both sides. */
  lemma MeaningStep(code: seq<byte>, at: nat, out: seq<byte>, at': nat, insn: Insn, end: nat, end': nat)
    requires at < |code| && at' < |out| && end <= |code| && end' <= |out|
    requires InsnAt(out, at', false) == Some((insn, end')) && !IsNop(insn)
    ensures InsnAt(code, at, true) == Some((insn, end)) ==> (SameInstructions(code, at, out, at') <==> SameInstructions(code, end, out, end'))
    ensures InsnAt(code, at, true).None? ==> !SameInstructions(code, at, out, at')
    ensures InsnAt(code, at, true).Some? && InsnAt(code, at, true).value.0 != insn && !IsNop(InsnAt(code, at, true).value.0)
      ==> !SameInstructions(code, at, out, at')
  {
    hide InsnAt, WithoutNops, IsNop;
    if InsnAt(code, at, true).Some? {
      var (first, next) := InsnAt(code, at, true).value;
      if Stream(code, next, true).Some? && Stream(out, end', false).Some? {
        var rest, rest' := Stream(code, next, true).value, Stream(out, end', false).value;
        WithoutNopsCons(first, rest);
        SameList(insn, rest', first, WithoutNops(rest));
      }
    }
  }

  lemma MeaningSkip(code: seq<byte>, at: nat, out: seq<byte>, at': nat, insn: Insn, end: nat)
    requires at < |code| && at' <= |out| && end <= |code|
    requires InsnAt(code, at, true) == Some((insn, end)) && IsNop(insn)
    ensures SameInstructions(code, at, out, at') <==> SameInstructions(code, end, out, at')
  {
    hide InsnAt, WithoutNops, IsNop;
    if Stream(code, end, true).Some? {
      var rest := Stream(code, end, true).value;
      WithoutNopsCons(insn, rest);
      assert [] + WithoutNops(rest) == WithoutNops(rest);
    }
  }

  /** Rewriting preserves the instructions exactly when each of them can be rewritten, from any one on
      and whatever precedes its output. */
  lemma {:induction false} SuffixInstructions(pre: seq<byte>, code: seq<byte>, at: nat)
    requires at <= |code| && Reaches(code, at, |code|)
    ensures SameInstructions(code, at, pre + Output(code, at, |code|), |pre|) <==> Rewritable(code, at)
    decreases |code| - at
  {
    hide StepAt, InsnAt, Emit, KeepsMeaning, Understood, Rewritable, Dropped, SameInstructions, Stream, IsNop;
    var out := pre + Output(code, at, |code|);
    if at == |code| {
      NothingLeft(code, out);
    } else {
      var step := StepAt(code, at).value;
      var end := step.shape.end;
      var emitted, rest := Emit(code, at, step), Output(code, end, |code|);
      assert out == pre + emitted + rest;
      SuffixInstructions(pre + emitted, code, end);
      RewritableNext(code, at);
      if !DescribedAt(code, step.opcodeAt) {
        UndescribedChanges(code, at, out, |pre|);
      } else if Dropped(code, step) {
        NopStep(code, at);
        OriginalDecodes(code, at);
        DroppedEmitsNothing(code, at);
        assert pre + emitted == pre;
        MeaningSkip(code, at, out, |pre|, Understood(code, at, step), end);
      } else {
        OriginalDecodes(code, at);
        EmittedDecodes(pre, code, at, rest);
        KeptIsNoNop(code, at);
        MeaningStep(code, at, out, |pre|, Understood(code, at, step), end, |pre| + |emitted|);
      }
    }
  }

  lemma UndescribedChanges(code: seq<byte>, at: nat, out: seq<byte>, at': nat)
    requires at < |code| && at' <= |out|
    requires StepAt(code, at).Some? && !DescribedAt(code, StepAt(code, at).value.opcodeAt)
    ensures !KeepsMeaning(code, at, StepAt(code, at).value) && !SameInstructions(code, at, out, at')
  {
    hide InsnAt, DescribedAt;
    UndescribedIsUnread(code, at);
  }

  // ---- The accepted code and its output, in the manual's terms

  /** How often an override toggles between two positions. */
  predicate Even(code: seq<byte>, lo: nat, hi: nat, override: byte)
    requires lo <= hi <= |code|
  {
    Count(code[lo..hi], override) % 2 == 0
  }

  /** From a position to the end of the code every instruction has an opcode that is not refused and
      ends in the code, when each override toggles its size. */
  ghost predicate ManualReads(code: seq<byte>, at: nat)
    requires at <= |code|
    decreases |code| - at
  {
    at == |code| ||
    (var o := PrefixEnd(code, at);
     && o < |code| && OpcodeAt(code, o).Some? && !Refused(OpcodeAt(code, o).value.0)
     && EndAt(code, o, Even(code, at, o, 0x66), Even(code, at, o, 0x67)).Some?
     && ManualReads(code, EndAt(code, o, Even(code, at, o, 0x66), Even(code, at, o, 0x67)).value))
  }

  lemma StepReads(code: seq<byte>, at: nat)
    requires at <= |code|
    ensures var o := PrefixEnd(code, at);
      && (StepAt(code, at).Some? <==>
           o < |code| && OpcodeAt(code, o).Some? && !Refused(OpcodeAt(code, o).value.0)
           && EndAt(code, o, Even(code, at, o, 0x66), Even(code, at, o, 0x67)).Some?)
      && (StepAt(code, at).Some? ==> EndAt(code, o, Even(code, at, o, 0x66), Even(code, at, o, 0x67)) == Some(StepAt(code, at).value.shape.end))
  {
    hide ShapeAt, EndAt, OpcodeAt, Refused, Count;
    var o := PrefixEnd(code, at);
    if o < |code| {
      ShapeReads(code, o, Even(code, at, o, 0x66), Even(code, at, o, 0x67));
    }
  }

  /** The rewriter reads code to its end exactly when it is accepted code. */
  lemma {:induction false} ReadsIff(code: seq<byte>, at: nat)
    requires at <= |code|
    ensures Reaches(code, at, |code|) <==> ManualReads(code, at)
    decreases |code| - at
  {
    hide StepAt, EndAt, OpcodeAt, Refused, Count, Even;
    StepReads(code, at);
    if at < |code| && StepAt(code, at).Some? {
      ReadsIff(code, StepAt(code, at).value.shape.end);
    }
  }

  /** The bytes that are written for an instruction the manual describes: none for the opcode 0x90;
      otherwise the other prefixes, an override for each size that matters and is 32 bits wide, and the
      instruction from its opcode on. The rows overlook the operand size of the misjudged instructions,
      and assume that it matters to every instruction of 0f 01. */
  lemma EmittedBytes(code: seq<byte>, at: nat)
    requires at <= |code| && StepAt(code, at).Some? && DescribedAt(code, StepAt(code, at).value.opcodeAt)
    ensures var step := StepAt(code, at).value; var o := step.opcodeAt;
      && o == PrefixEnd(code, at) && OpeningAt(code, o).Some?
      && Emit(code, at, step) ==
         if code[o] == 0x90 then []
         else Others(code[at..o])
              + (if AddressMattersAt(code, o) && Even(code, at, o, 0x67) then [0x67] else [])
              + (if ((OperandMattersAt(code, o) && !MisjudgedAt(code, o)) || OpeningAt(code, o).value.n == 0x101) && Even(code, at, o, 0x66)
                 then [0x66] else [])
              + code[o..step.shape.end]
  {
    hide ShapeAt, FormatAt, OpeningAt, OperandMattersAt, AddressMattersAt, MisjudgedAt, Others, Count, PrefixEnd;
    StepFacts(code, at);
    var step := StepAt(code, at).value;
    ShapeMatches(code, step.opcodeAt, step.operand32, step.address32);
    NopIsOneByte(code, step.opcodeAt, step.operand32, step.address32);
  }

  lemma NopIsOneByte(code: seq<byte>, at: nat, o: bool, a: bool)
    requires at < |code| && ShapeAt(code, at, o, a).Some?
    ensures code[at] == 0x90 ==> ShapeAt(code, at, o, a).value.end == at + 1
  {
  }

  /** The other prefixes are all prefixes but the two overrides, as often as they occur. */
  lemma {:induction false} OthersCount(s: seq<byte>, b: byte)
    ensures Count(Others(s), b) == if b == 0x66 || b == 0x67 then 0 else Count(s, b)
  {
    if s != [] {
      OthersCount(s[..|s| - 1], b);
      var last := s[|s| - 1];
      if last != 0x66 && last != 0x67 {
        assert (Others(s[..|s| - 1]) + [last])[..|Others(s[..|s| - 1])|] == Others(s[..|s| - 1]);
      } else {
        assert Others(s) == Others(s[..|s| - 1]);
      }
    }
  }

  lemma UnprefixedStep(code: seq<byte>, at: nat)
    requires at < |code| && !IsPrefix(code[at]) && ShapeAt(code, at, true, true).Some?
    ensures StepAt(code, at) == Some(Step(at, ShapeAt(code, at, true, true).value, true, true))
    ensures var end := ShapeAt(code, at, true, true).value.end;
      Emit(code, at, StepAt(code, at).value)
        == if code[at] == 0x90 && end == at + 1 then [] else Overrides(StepAt(code, at).value) + code[at..end]
  {
    hide ShapeAt;
    assert PrefixEnd(code, at) == at && code[at..at] == [];
    assert Count(code[at..at], 0x66) == 0 && Count(code[at..at], 0x67) == 0 && Others(code[at..at]) == [];
  }

  const NopAndMove: seq<byte> := [0x90, 0xb8, 1, 0, 0, 0]

  lemma NopAndMoveSteps()
    ensures var code := NopAndMove;
      && StepAt(code, 0) == Some(Step(0, Shape(1, false, false), true, true)) && Emit(code, 0, StepAt(code, 0).value) == []
      && StepAt(code, 1) == Some(Step(1, Shape(6, true, false), true, true)) && Emit(code, 1, StepAt(code, 1).value) == [0x66, 0xb8, 1, 0, 0, 0]
  {
    hide ShapeAt, StepAt, Emit;
    var code := NopAndMove;
    MoveRead(code);
    UnprefixedStep(code, 0);
    UnprefixedStep(code, 1);
    assert code[1..6] == [0xb8, 1, 0, 0, 0];
  }

  /** MOV EAX, 1 behind a no-operation, as it is written. */
  lemma MoveIsWritten()
    ensures Reaches(NopAndMove, 0, 6) && Output(NopAndMove, 0, 6) == [0x66, 0xb8, 1, 0, 0, 0]
  {
    hide *;
    NopAndMoveSteps();
    EmptyOutput(NopAndMove);
    NopAndMoveLength();
    ReachNext(NopAndMove, 0, 0);
    ReachNext(NopAndMove, 0, 1);
  }

  lemma NopAndMoveLength()
    ensures |NopAndMove| == 6
  {
  }

  lemma EmptyOutput(code: seq<byte>)
    ensures Reaches(code, 0, 0) && Output(code, 0, 0) == []
  {
  }

  lemma MoveRead(code: seq<byte>)
    requires code == [0x90, 0xb8, 1, 0, 0, 0]
    ensures ShapeAt(code, 0, true, true) == Some(Shape(1, false, false)) && ShapeAt(code, 1, true, true) == Some(Shape(6, true, false))
  {
  }

  lemma NothingLeft(code: seq<byte>, out: seq<byte>)
    ensures Rewritable(code, |code|) && SameInstructions(code, |code|, out, |out|)
  {
  }

  lemma DroppedEmitsNothing(code: seq<byte>, at: nat)
    requires at <= |code| && StepAt(code, at).Some? && Dropped(code, StepAt(code, at).value)
    ensures Emit(code, at, StepAt(code, at).value) == []
  {
  }

  lemma KeptIsNoNop(code: seq<byte>, at: nat)
    requires at <= |code| && StepAt(code, at).Some? && !Dropped(code, StepAt(code, at).value)
    ensures DescribedAt(code, StepAt(code, at).value.opcodeAt) ==> !IsNop(Understood(code, at, StepAt(code, at).value))
    ensures |Emit(code, at, StepAt(code, at).value)| > 0
  {
    var step := StepAt(code, at).value;
    var body := code[step.opcodeAt..step.shape.end];
    assert body[0] == code[step.opcodeAt] && |body| == step.shape.end - step.opcodeAt;
  }

  lemma {:induction false} OutputSplits(code: seq<byte>, at: nat, p: nat, q: nat)
    requires at <= |code| && p <= |code| && Reaches(code, at, p) && Reaches(code, p, q)
    ensures Reaches(code, at, q) && at <= p <= q
    ensures Output(code, at, q) == Output(code, at, p) + Output(code, p, q)
    decreases |code| - at
  {
    hide StepAt, Emit;
    if at == p {
      ReachesGrows(code, p, q);
    } else {
      OutputSplits(code, StepAt(code, at).value.shape.end, p, q);
    }
  }

  /** From every instruction of the original, in particular from every jump target, the rewritten
      code at the mapped position has the same instructions, with the same displacements: exactly when
      the instructions from there on can be rewritten. */
  lemma RewritePreservesInstructions(code: seq<byte>, p: nat)
    requires p <= |code| && Reaches(code, 0, p) && Reaches(code, p, |code|)
    ensures Reaches(code, 0, |code|) && |Output(code, 0, p)| <= |Output(code, 0, |code|)|
    ensures SameInstructions(code, p, Output(code, 0, |code|), |Output(code, 0, p)|) <==> Rewritable(code, p)
  {
    OutputSplits(code, 0, p, |code|);
    SuffixInstructions(Output(code, 0, p), code, p);
  }

  /** What the rows and the manual say of an IRET. */
  lemma ReturnRead(code: seq<byte>, at: nat)
    requires at < |code| && code[at] == 0xcf
    ensures forall o, a :: ShapeAt(code, at, o, a) == Some(Shape(at + 1, false, false))
    ensures DescribedAt(code, at) && OperandMattersAt(code, at) && !AddressMattersAt(code, at) && MisjudgedAt(code, at)
  {
    assert OpeningAt(code, at) == Some(Opening(0xcf, at + 1, 3, 0, 0));
  }

  /** And of the register forms of two moves: the rows overlook one of them. */
  lemma RegisterFormRead(code: seq<byte>, at: nat)
    requires at + 2 <= |code| && code[at + 1] / 64 == 3 && (code[at] == 0x8c || code[at] == 0x89)
    ensures forall o, a :: ShapeAt(code, at, o, a) == Some(Shape(at + 2, code[at] == 0x89, false))
    ensures DescribedAt(code, at) && OperandMattersAt(code, at) && !AddressMattersAt(code, at)
    ensures MisjudgedAt(code, at) <==> code[at] == 0x8c
  {
    assert OpeningAt(code, at) == Some(Opening(code[at], at + 2, 3, code[at + 1] / 8 % 8, code[at + 1] % 8));
  }

  /** IRETD alone: its row marks no size, so it is written as the 16-bit IRET. */
  lemma ReturnChangesMeaning()
    ensures Reaches([0xcf], 0, 1) && Output([0xcf], 0, 1) == [0xcf] && !SameInstructions([0xcf], 0, [0xcf], 0)
  {
    hide ShapeAt, DescribedAt, OperandMattersAt, AddressMattersAt, MisjudgedAt, SameInstructions;
    var code := [0xcf];
    ReturnRead(code, 0);
    assert code[0..0] == [] && code[0..1] == [0xcf];
    OneInstruction(code, 0, 1);
    assert !KeepsMeaning(code, 0, StepAt(code, 0).value);
    RewritePreservesInstructions(code, 0);
  }

  /** An IRET that is 16 bits wide already stays one, without the override. */
  lemma OverriddenReturnKeepsMeaning()
    ensures Reaches([0x66, 0xcf], 0, 2) && SameInstructions([0x66, 0xcf], 0, Output([0x66, 0xcf], 0, 2), 0)
  {
    hide ShapeAt, DescribedAt, OperandMattersAt, AddressMattersAt, MisjudgedAt, SameInstructions, Output;
    var code := [0x66, 0xcf];
    ReturnRead(code, 1);
    OneInstruction(code, 1, 2);
    assert code[0..1] == [0x66];
    assert KeepsMeaning(code, 0, StepAt(code, 0).value);
    forall p: nat | Reaches'(code, 0, p) && p < |code| && StepAt(code, p).Some?
      ensures KeepsMeaning(code, p, StepAt(code, p).value)
    {
      NoStartInside(code, 0, 0, p);
    }
    RewritePreservesInstructions(code, 0);
  }

  /** MOV EAX, DS becomes MOV AX, DS, which leaves the high half of the register as it was. */
  lemma SegmentStoreChangesMeaning()
    ensures Reaches([0x8c, 0xd8], 0, 2) && !SameInstructions([0x8c, 0xd8], 0, Output([0x8c, 0xd8], 0, 2), 0)
  {
    hide ShapeAt, DescribedAt, OperandMattersAt, AddressMattersAt, MisjudgedAt, SameInstructions, Output;
    var code := [0x8c, 0xd8];
    RegisterFormRead(code, 0);
    assert code[0..0] == [];
    OneInstruction(code, 0, 2);
    assert !KeepsMeaning(code, 0, StepAt(code, 0).value);
    RewritePreservesInstructions(code, 0);
  }

  /** A repeated override toggles twice for the rewriter but not for the processor: two 0x66
      prefixes on a move change its operand size. */
  lemma DoubledOverrideChangesMeaning()
    ensures var code := [0x66, 0x66, 0x89, 0xc8]; Reaches(code, 0, |code|) && !SameInstructions(code, 0, Output(code, 0, |code|), 0)
  {
    hide ShapeAt, DescribedAt, OperandMattersAt, AddressMattersAt, MisjudgedAt, SameInstructions, Output;
    var code := [0x66, 0x66, 0x89, 0xc8];
    RegisterFormRead(code, 2);
    PrefixEndIs(code, 0, 2);
    assert code[0..2] == [0x66, 0x66] && [0x66, 0x66][..1] == [0x66];
    assert Count([0x66], 0x66) == 1 && Count([0x66, 0x66], 0x66) == 2;
    OneInstruction(code, 2, 4);
    assert !KeepsMeaning(code, 0, StepAt(code, 0).value);
    RewritePreservesInstructions(code, 0);
  }

  lemma OneInstruction(code: seq<byte>, opcodeAt: nat, end: nat)
    requires opcodeAt < end == |code| && PrefixEnd(code, 0) == opcodeAt
    requires StepAt(code, 0).Some? && StepAt(code, 0).value.shape.end == end
    ensures Reaches(code, 0, 0) && Reaches(code, 0, end) && Reaches'(code, 0, 0)
    ensures Output(code, 0, 0) == [] && Output(code, 0, end) == Emit(code, 0, StepAt(code, 0).value)
  {
    hide StepAt, Emit;
    assert Reaches(code, end, end);
    ReachNext(code, 0, 0);
  }

  // ---- The rewriter and its position map

  datatype Result = Result(code: seq<byte>, positions: seq<int>, failure: int, ok: bool)

  /** The map inside the instruction at p: a dropped one collapses onto its output position; of a
      kept one the prefixes are mapped as they are copied, opcode and following bytes to where they were written. */
  ghost predicate InsideMapped(code: seq<byte>, p: nat, positions: seq<int>)
    requires p < |code| && StepAt(code, p).Some? && Reaches(code, 0, p) && |positions| == |code| + 1
  {
    var step := StepAt(code, p).value;
    var end, base := step.shape.end, |Output(code, 0, p)|;
    if Dropped(code, step) then forall i :: p <= i < end ==> positions[i] == base
    else
      && (forall i :: p < i < step.opcodeAt ==> positions[i] == PrefixPosition(code, p, i, base))
      && (forall i :: step.opcodeAt <= i < end && i > p ==> positions[i] == base + |Emit(code, p, step)| - (end - i))
  }

  ghost predicate StartsMapped(code: seq<byte>, stop: nat, positions: seq<int>)
    requires |positions| == |code| + 1 && stop <= |code|
  {
    forall p: nat :: Reaches'(code, 0, p) && p <= stop ==> positions[p] == |Output(code, 0, p)|
  }

  ghost predicate InsidesMapped(code: seq<byte>, stop: nat, positions: seq<int>)
    requires |positions| == |code| + 1 && stop <= |code|
  {
    forall p: nat :: Reaches'(code, 0, p) && p < stop && StepAt(code, p).Some? ==> InsideMapped(code, p, positions)
  }

  /** The position map for the instructions read up to `stop`: every entry up to there is set. */
  ghost predicate Mapped(code: seq<byte>, stop: nat, positions: seq<int>) {
    && |positions| == |code| + 1 && stop <= |code|
    && StartsMapped(code, stop, positions)
    && InsidesMapped(code, stop, positions)
    && (forall i :: 0 <= i <= stop ==> positions[i] >= 0)
    && (forall i :: stop < i <= |code| ==> positions[i] == -1)
  }

  lemma StartsMappedNext(code: seq<byte>, at: nat, step: Step, positions: seq<int>, next: seq<int>)
    requires at < |code| && Reaches(code, 0, at) && StepAt(code, at) == Some(step) && |next| == |positions| == |code| + 1
    requires StartsMapped(code, at, positions)
    requires forall i :: 0 <= i <= at ==> next[i] == positions[i]
    requires next[step.shape.end] == |Output(code, 0, at)| + |Emit(code, at, step)|
    ensures StartsMapped(code, step.shape.end, next)
  {
    hide StepAt, Emit, Output, Reaches;
    var end := step.shape.end;
    ReachNext(code, 0, at);
    assert |Output(code, 0, end)| == next[end];
    forall p: nat | Reaches'(code, 0, p) && p <= end
      ensures next[p] == |Output(code, 0, p)|
    {
      NoStartInside(code, 0, at, p);
    }
  }

  lemma InsidesMappedNext(code: seq<byte>, at: nat, step: Step, positions: seq<int>, next: seq<int>)
    requires at < |code| && Reaches(code, 0, at) && StepAt(code, at) == Some(step) && |next| == |positions| == |code| + 1
    requires InsidesMapped(code, at, positions)
    requires forall i :: 0 <= i <= at ==> next[i] == positions[i]
    requires InsideMapped(code, at, next)
    ensures InsidesMapped(code, step.shape.end, next)
  {
    hide StepAt, Emit, Output, Reaches, Dropped;
    forall p: nat | Reaches'(code, 0, p) && p < step.shape.end && StepAt(code, p).Some?
      ensures InsideMapped(code, p, next)
    {
      NoStartInside(code, 0, at, p);
      if p < at {
        NoStartInside(code, 0, p, at);
        assert InsideMapped(code, p, positions);
      }
    }
  }

  lemma MappedNext(code: seq<byte>, at: nat, step: Step, positions: seq<int>, next: seq<int>)
    requires at < |code| && Reaches(code, 0, at) && StepAt(code, at) == Some(step)
    requires Mapped(code, at, positions) && |next| == |positions|
    requires forall i :: 0 <= i <= at || step.shape.end < i <= |code| ==> next[i] == positions[i]
    requires forall i :: at < i <= step.shape.end ==> next[i] >= 0
    requires InsideMapped(code, at, next)
    requires next[step.shape.end] == |Output(code, 0, at)| + |Emit(code, at, step)|
    ensures Mapped(code, step.shape.end, next)
  {
    hide StepAt, Emit, Output, Reaches, Dropped, InsideMapped, StartsMapped, InsidesMapped;
    StartsMappedNext(code, at, step, positions, next);
    InsidesMappedNext(code, at, step, positions, next);
  }

  lemma CountStep(code: seq<byte>, start: nat, input: nat, b: byte)
    requires start <= input < |code|
    ensures Count(code[start..input + 1], b) == Count(code[start..input], b) + (if code[input] == b then 1 else 0)
    ensures Others(code[start..input + 1])
         == Others(code[start..input]) + (if code[input] == 0x66 || code[input] == 0x67 then [] else [code[input]])
  {
    var s := code[start..input + 1];
    assert s[..|s| - 1] == code[start..input];
  }

  /** Reads the prefixes of an instruction, toggling the sizes. */
  method ScanPrefixes(code: seq<byte>, start: nat) returns (input: nat, operand32: bool, address32: bool)
    requires start <= |code|
    ensures input == PrefixEnd(code, start)
    ensures operand32 == ToggledSize(code[start..input], 0x66) && address32 == ToggledSize(code[start..input], 0x67)
  {
    input := start;
    operand32, address32 := true, true;
    while input < |code|
      invariant start <= input <= |code| && PrefixEnd(code, input) == PrefixEnd(code, start)
      invariant operand32 == ToggledSize(code[start..input], 0x66)
      invariant address32 == ToggledSize(code[start..input], 0x67)
      decreases |code| - input
    {
      var prefix := code[input];
      CountStep(code, start, input, 0x66);
      CountStep(code, start, input, 0x67);
      if prefix == 0x66 {
        operand32 := !operand32;
      } else if prefix == 0x67 {
        address32 := !address32;
      } else if !(prefix == 0x26 || prefix == 0x2e || prefix == 0x36 || prefix == 0x3e || prefix == 0x64 || prefix == 0x65
                  || prefix == 0xf0 || prefix == 0xf2 || prefix == 0xf3) {
        break;
      }
      input := input + 1;
    }
  }

  /** Where a prefix inside an instruction is mapped to: an override, which is not copied, to the
      start of the output, any other one to its own copy. */
  function PrefixPosition(code: seq<byte>, start: nat, i: nat, base: nat): nat
    requires start <= i < |code|
  {
    if code[i] == 0x66 || code[i] == 0x67 then base else base + |Others(code[start..i])|
  }

  /** Writes the prefixes that are not size overrides. */
  method CopyPrefixes(code: seq<byte>, start: nat, opcodeAt: nat, result: seq<byte>, mapping: array<int>)
    returns (now: seq<byte>)
    requires start <= opcodeAt <= |code| && mapping.Length == |code| + 1 && mapping[start] >= 0
    requires forall i :: start < i < mapping.Length ==> mapping[i] == -1
    modifies mapping
    ensures now == result + Others(code[start..opcodeAt])
    ensures forall i :: 0 <= i <= start || opcodeAt <= i < mapping.Length ==> mapping[i] == old(mapping[i])
    ensures forall i :: start < i < opcodeAt ==> mapping[i] == PrefixPosition(code, start, i, |result|)
  {
    now := result;
    for i := start to opcodeAt
      invariant now == result + Others(code[start..i])
      invariant forall j :: 0 <= j <= start || i <= j < mapping.Length ==> mapping[j] == old(mapping[j])
      invariant forall j :: start < j < i ==> mapping[j] == PrefixPosition(code, start, j, |result|)
    {
      CountStep(code, start, i, 0x66);
      if code[i] == 0x66 || code[i] == 0x67 {
        if mapping[i] < 0 {
          mapping[i] := |result|;
        }
        continue;
      }
      if mapping[i] < 0 {
        mapping[i] := |now|;
      }
      now := now + [code[i]];
    }
  }

  /** Writes an instruction from its opcode on. */
  method CopyBody(code: seq<byte>, start: nat, opcodeAt: nat, end: nat, result: seq<byte>, mapping: array<int>)
    returns (now: seq<byte>)
    requires start <= opcodeAt < end <= |code| && mapping.Length == |code| + 1 && mapping[start] >= 0
    requires forall i :: opcodeAt <= i < mapping.Length && i > start ==> mapping[i] == -1
    modifies mapping
    ensures now == result + code[opcodeAt..end]
    ensures forall i :: 0 <= i < opcodeAt || i == start || end < i < mapping.Length ==> mapping[i] == old(mapping[i])
    ensures forall i :: opcodeAt < i < end ==> mapping[i] == |result| + (i - opcodeAt)
    ensures mapping[opcodeAt] == (if opcodeAt == start then old(mapping[start]) else |result|) && mapping[end] == |now|
  {
    now := result;
    for i := opcodeAt to end
      invariant now == result + code[opcodeAt..i]
      invariant forall j :: 0 <= j < opcodeAt || j == start || i <= j < mapping.Length ==> mapping[j] == old(mapping[j])
      invariant forall j :: opcodeAt < j < i ==> mapping[j] == |result| + (j - opcodeAt)
      invariant i > opcodeAt ==> mapping[opcodeAt] == if opcodeAt == start then old(mapping[start]) else |result|
    {
      if mapping[i] < 0 {
        mapping[i] := |now|;
      }
      now := now + [code[i]];
    }
    mapping[end] := |now|;
  }

  lemma MappedStart(code: seq<byte>, positions: seq<int>)
    requires |positions| == |code| + 1 && (forall i :: 0 <= i <= |code| ==> positions[i] == -1)
    ensures Mapped(code, 0, positions[0 := 0]) && Reaches(code, 0, 0) && Output(code, 0, 0) == []
  {
  }

  lemma MappedAt(code: seq<byte>, at: nat, positions: seq<int>)
    requires at <= |code| && Reaches(code, 0, at) && Mapped(code, at, positions)
    ensures |positions| == |code| + 1 && positions[at] == |Output(code, 0, at)|
  {
    assert Reaches'(code, 0, at);
  }

  /** Collapses a dropped instruction onto its output position. */
  method MapDropped(start: nat, input: nat, at: nat, mapping: array<int>)
    requires start <= input < mapping.Length
    modifies mapping
    ensures forall i :: 0 <= i < mapping.Length ==> mapping[i] == if start <= i <= input then at else old(mapping[i])
  {
    for i := start to input + 1
      invariant forall j :: 0 <= j < mapping.Length ==> mapping[j] == if start <= j < i then at else old(mapping[j])
    {
      mapping[i] := at;
    }
  }

  /** One turn of the rewriter's loop, once the instruction is read. */
  method RewriteOne(code: seq<byte>, start: nat, step: Step, result: seq<byte>, mapping: array<int>) returns (now: seq<byte>)
    requires start < |code| && mapping.Length == |code| + 1 && StepAt(code, start) == Some(step)
    requires Reaches(code, 0, start) && result == Output(code, 0, start) && Mapped(code, start, mapping[..][start := |result|])
    modifies mapping
    ensures Reaches(code, 0, step.shape.end) && now == Output(code, 0, step.shape.end)
    ensures Mapped(code, step.shape.end, mapping[..])
  {
    hide StepAt, Reaches, Output, Others, Overrides, StartsMapped, InsidesMapped;
    ghost var before := mapping[..][start := |result|];
    var opcodeAt, input := step.opcodeAt, step.shape.end;
    ReachNext(code, 0, start);
    if code[opcodeAt] == 0x90 && opcodeAt + 1 == input {
      MapDropped(start, input, |result|, mapping);
      now := result;
    } else {
      mapping[start] := |result|;
      assert mapping[..] == before;
      now := CopyPrefixes(code, start, opcodeAt, result, mapping);
      now := now + Overrides(step);
      now := CopyBody(code, start, opcodeAt, input, now, mapping);
      assert now == result + Emit(code, start, step);
    }
    MappedNext(code, start, step, before, mapping[..]);
  }

  /** Rewrites the code and maps every position; fails at the first instruction it cannot read.
      For empty code the one entry of the map stays unset. */
  method Rewrite(code: seq<byte>) returns (r: Result)
    ensures r.ok <==> ManualReads(code, 0)
    ensures r.ok ==> Reaches(code, 0, |code|) && r.code == Output(code, 0, |code|)
    ensures r.ok ==> if code == [] then r.positions == [-1] else Mapped(code, |code|, r.positions)
    ensures !r.ok ==> 0 <= r.failure < |code| && Reaches(code, 0, r.failure) && StepAt(code, r.failure).None?
  {
    hide StepAt, Reaches, Output, Mapped, ManualReads;
    ReadsIff(code, 0);
    var mapping := new int[|code| + 1](_ => -1);
    var result, input: nat := [], 0;
    MappedStart(code, mapping[..]);
    while input < |code|
      invariant input <= |code| && Reaches(code, 0, input)
      invariant result == Output(code, 0, input)
      invariant Mapped(code, input, mapping[..][input := |result|])
      invariant if input == 0 then mapping[0] == -1 else mapping[input] == |result|
      decreases |code| - input
    {
      var start := input;
      var operand32, address32;
      input, operand32, address32 := ScanPrefixes(code, start);
      if input >= |code| {
        StepFrom(code, start, operand32, address32);
        NotRead(code, start);
        return Result([], [], start, false);
      }
      var shape := ShapeAt(code, input, operand32, address32);
      StepFrom(code, start, operand32, address32);
      if shape.None? {
        NotRead(code, start);
        return Result([], [], start, false);
      }
      result := RewriteOne(code, start, Step(input, shape.value, operand32, address32), result, mapping);
      input := shape.value.end;
      MappedAt(code, input, mapping[..]);
      assert mapping[..][input := |result|] == mapping[..];
    }
    assert input > 0 ==> mapping[..][input := |result|] == mapping[..];
    assert input == 0 ==> mapping[..] == [-1];
    return Result(result, mapping[..], -1, true);
  }

  /** Code with an unreadable instruction is not read to its end. */
  lemma NotRead(code: seq<byte>, failure: nat)
    requires failure < |code| && Reaches(code, 0, failure) && StepAt(code, failure).None?
    ensures !Reaches(code, 0, |code|)
  {
    if Reaches(code, 0, |code|) {
      ReachesOn(code, 0, failure, |code|);
    }
  }

  lemma StepFrom(code: seq<byte>, start: nat, operand32: bool, address32: bool)
    requires start < |code|
    requires operand32 == ToggledSize(code[start..PrefixEnd(code, start)], 0x66)
    requires address32 == ToggledSize(code[start..PrefixEnd(code, start)], 0x67)
    ensures var input := PrefixEnd(code, start);
      StepAt(code, start) == if input >= |code| || ShapeAt(code, input, operand32, address32).None? then None
        else Some(Step(input, ShapeAt(code, input, operand32, address32).value, operand32, address32))
  {
  }

  /** A field behind the opcode of a kept instruction holds the same bytes at its mapped position. */
  lemma MappedBytes(code: seq<byte>, positions: seq<int>, p: nat, i: nat)
    requires Reaches(code, 0, |code|) && Mapped(code, |code|, positions)
    requires p < |code| && Reaches(code, 0, p) && StepAt(code, p).Some? && !Dropped(code, StepAt(code, p).value)
    requires StepAt(code, p).value.opcodeAt < i < StepAt(code, p).value.shape.end
    ensures 0 <= positions[i] < |Output(code, 0, |code|)| && Output(code, 0, |code|)[positions[i]] == code[i]
  {
    hide StepAt, Reaches, Output, Others, Overrides;
    var step := StepAt(code, p).value;
    var end := step.shape.end;
    assert Reaches'(code, 0, p);
    ReachNext(code, 0, p);
    ReachesOn(code, 0, end, |code|);
    OutputSplits(code, 0, end, |code|);
    var body := code[step.opcodeAt..end];
    assert InsideMapped(code, p, positions);
    assert Emit(code, p, step)[|Emit(code, p, step)| - (end - i)] == body[i - step.opcodeAt];
  }

  /** Of two instruction starts the later one is reached from the earlier one. */
  lemma {:induction false} ReachesOn(code: seq<byte>, at: nat, p: nat, q: nat)
    requires at <= |code| && Reaches(code, at, p) && Reaches(code, at, q) && p <= q
    ensures p <= |code| ==> Reaches(code, p, q)
    decreases |code| - at
  {
    if at != p && at != q {
      ReachesOn(code, StepAt(code, at).value.shape.end, p, q);
    }
  }

  /** The map is monotone at instruction starts, and strictly so across a kept instruction. */
  lemma MappedMonotone(code: seq<byte>, positions: seq<int>, p: nat, q: nat)
    requires Mapped(code, |code|, positions) && p <= q <= |code| && Reaches(code, 0, p) && Reaches(code, 0, q)
    ensures positions[p] <= positions[q]
    ensures p < q && StepAt(code, p).Some? && !Dropped(code, StepAt(code, p).value) ==> positions[p] < positions[q]
  {
    hide StepAt, Output, Emit, Dropped;
    assert Reaches'(code, 0, p) && Reaches'(code, 0, q);
    ReachesOn(code, 0, p, q);
    OutputSplits(code, 0, p, q);
    if p < q && StepAt(code, p).Some? && !Dropped(code, StepAt(code, p).value) {
      KeptIsNoNop(code, p);
      var end := StepAt(code, p).value.shape.end;
      ReachNext(code, 0, p);
      NoStartInside(code, 0, p, q);
      ReachesOn(code, 0, end, q);
      OutputSplits(code, 0, end, q);
    }
  }
}
