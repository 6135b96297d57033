/** Relative branches that no reference belongs to, through the translation to 16-bit code. Their
    displacements are copied as they are, whatever is inserted or dropped in between. */
module Code16Branches {
  import opened Bytes
  import opened Code16
  import opened Code16Reference
  import opened Wrappers

  function Signed16(lo: byte, hi: byte): int {
    var v: int := lo + hi * 256;
    if v >= 32768 then v - 65536 else v
  }

  /** Short JMP and Jcc, LOOP and JCXZ. */
  predicate IsShortBranch(b: byte) {
    0x70 <= b <= 0x7f || 0xe0 <= b <= 0xe3 || b == 0xeb
  }

  /** The bytes of a near JMP, Jcc or CALL before its displacement; 0 for anything else. */
  function NearOpcode(body: seq<byte>): (n: nat)
    ensures n <= |body| && n <= 2
  {
    if |body| >= 1 && (body[0] == 0xe8 || body[0] == 0xe9) then 1
    else if |body| >= 2 && body[0] == 0x0f && 0x80 <= body[1] <= 0x8f then 2
    else 0
  }

  /** The displacement of a relative branch, from its bytes from the opcode on. */
  function Displacement(body: seq<byte>): Option<int> {
    var n := NearOpcode(body);
    if |body| == 2 && IsShortBranch(body[0]) then Some(Signed8(body[1]))
    else if n > 0 && |body| == n + 2 then Some(Signed16(body[n], body[n + 1]))
    else if n > 0 && |body| == n + 4 then Some(Signed32(Get32(body, n)))
    else None
  }

  /** Where the relative branch at a position goes. Targets are taken to lie below 2^16, where a
      16-bit operand size cuts nothing off. */
  function TargetAt(code: seq<byte>, at: nat, default32: bool): Option<int>
    requires at <= |code|
  {
    match InsnAt(code, at, default32)
    case None => None
    case Some((insn, end)) =>
      match Displacement(insn.body)
      case None => None
      case Some(d) => Some(end + d)
  }

  /** What lies between two instruction starts keeps its length. */
  ghost predicate LengthKept(code: seq<byte>, e: nat, t: nat)
    requires e <= |code| && t <= |code| && Reaches(code, 0, e) && Reaches(code, 0, t)
  {
    ReachesOn(code, 0, if e <= t then e else t, if e <= t then t else e);
    if e <= t then |Output(code, e, t)| == t - e else |Output(code, t, e)| == e - t
  }

  /** A relative branch that can be rewritten is found at its mapped position, with the same
      displacement. So it goes to the image of its target exactly when the code between its end and
      its target keeps its length. */
  lemma BranchKeepsTargetIff(code: seq<byte>, p: nat, t: nat)
    requires p < |code| && t <= |code| && Reaches(code, 0, p) && Reaches(code, 0, t) && Reaches(code, 0, |code|)
    requires StepAt(code, p).Some? && KeepsMeaning(code, p, StepAt(code, p).value) && TargetAt(code, p, true) == Some(t)
    ensures var e, out := StepAt(code, p).value.shape.end, Output(code, 0, |code|);
      && Reaches(code, 0, e) && |Output(code, 0, p)| <= |out|
      && TargetAt(out, |Output(code, 0, p)|, false) == Some(|Output(code, 0, e)| + t - e)
      && (TargetAt(out, |Output(code, 0, p)|, false) == Some(|Output(code, 0, t)|) <==> LengthKept(code, e, t))
  {
    hide InsnAt, StepAt, Emit, KeepsMeaning, Understood, Displacement, Dropped, Output;
    var step := StepAt(code, p).value;
    var e := step.shape.end;
    ReachNext(code, 0, p);
    ReachesOn(code, 0, p, |code|);
    ReachesOn(code, 0, e, |code|);
    OutputSplits(code, 0, p, |code|);
    OutputSplits(code, 0, e, |code|);
    KeptDescribed(code, p);
    OriginalDecodes(code, p);
    BranchIsKept(code, p);
    var pre, rest := Output(code, 0, p), Output(code, e, |code|);
    EmittedDecodes(pre, code, p, rest);
    assert Output(code, 0, |code|) == pre + Emit(code, p, step) + rest;
    if e <= t {
      ReachesOn(code, 0, e, t);
      OutputSplits(code, 0, e, t);
    } else {
      ReachesOn(code, 0, t, e);
      OutputSplits(code, 0, t, e);
    }
  }

  lemma KeptDescribed(code: seq<byte>, p: nat)
    requires p <= |code| && StepAt(code, p).Some? && KeepsMeaning(code, p, StepAt(code, p).value)
    ensures DescribedAt(code, StepAt(code, p).value.opcodeAt)
  {
  }

  /** A no-operation is no branch. */
  lemma BranchIsKept(code: seq<byte>, p: nat)
    requires p <= |code| && StepAt(code, p).Some? && DescribedAt(code, StepAt(code, p).value.opcodeAt)
    ensures Dropped(code, StepAt(code, p).value) ==> Displacement(Understood(code, p, StepAt(code, p).value).body).None?
  {
    hide StepAt, DescribedAt, OperandMattersAt, AddressMattersAt;
    var step := StepAt(code, p).value;
    if Dropped(code, step) {
      assert code[step.opcodeAt..step.shape.end] == [0x90];
    }
  }

  /** A relative branch without a reference, by its position, whose target t starts an instruction. */
  ghost predicate OwnBranch(code: seq<byte>, referenced: set<int>, p: nat, t: nat) {
    && p < |code| && t <= |code| && Reaches(code, 0, p) && Reaches(code, 0, t) && StepAt(code, p).Some?
    && p !in referenced && TargetAt(code, p, true) == Some(t)
  }

  /** It goes to the image of its target in the rewritten code. */
  ghost predicate GoesToImage(code: seq<byte>, p: nat, t: nat)
    requires p <= |code| && t <= |code| && Reaches(code, 0, p) && Reaches(code, 0, t) && Reaches(code, 0, |code|)
  {
    && |Output(code, 0, p)| <= |Output(code, 0, |code|)|
    && TargetAt(Output(code, 0, |code|), |Output(code, 0, p)|, false) == Some(|Output(code, 0, t)|)
  }

  /** The code from the end of the instruction at p to t, or back, keeps its length. */
  ghost predicate StepLengthKept(code: seq<byte>, p: nat, t: nat)
    requires p < |code| && t <= |code| && Reaches(code, 0, p) && Reaches(code, 0, t) && StepAt(code, p).Some?
  {
    ReachNext(code, 0, p);
    LengthKept(code, StepAt(code, p).value.shape.end, t)
  }

  /** The rewritten code is the same program, instruction by instruction and with every branch that
      has no reference going to the image of its target, exactly when each instruction can be
      rewritten and no such branch has code between its end and its target that changes its length. */
  lemma RewritePreservesFlow(code: seq<byte>, referenced: set<int>)
    requires Reaches(code, 0, |code|)
    ensures SameInstructions(code, 0, Output(code, 0, |code|), 0) && (forall p, t :: OwnBranch(code, referenced, p, t) ==> GoesToImage(code, p, t))
      <==> Rewritable(code, 0) && (forall p, t :: OwnBranch(code, referenced, p, t) ==> StepLengthKept(code, p, t))
  {
    hide KeepsMeaning, TargetAt, SameInstructions, Output, Reaches, StepAt, LengthKept;
    StartOutput(code);
    RewritePreservesInstructions(code, 0);
    if Rewritable(code, 0) {
      forall p, t | OwnBranch(code, referenced, p, t)
        ensures GoesToImage(code, p, t) <==> StepLengthKept(code, p, t)
      {
        assert Reaches'(code, 0, p);
        ReachNext(code, 0, p);
        BranchKeepsTargetIff(code, p, t);
      }
    }
  }

  lemma StartOutput(code: seq<byte>)
    ensures Reaches(code, 0, 0) && Output(code, 0, 0) == []
  {
  }

  // ---- An instruction depends only on its own bytes

  /** Bytes at one position that stand at another. */
  ghost predicate StandsAt(code: seq<byte>, lo: nat, hi: nat, other: seq<byte>, lo': nat) {
    && lo <= hi <= |code| && lo' + (hi - lo) <= |other|
    && (forall i :: lo <= i < hi ==> other[i - lo + lo'] == code[i])
  }

  lemma PartStands(code: seq<byte>, lo: nat, hi: nat, other: seq<byte>, lo': nat, mid: nat)
    requires StandsAt(code, lo, hi, other, lo') && lo <= mid <= hi
    ensures StandsAt(code, lo, mid, other, lo') && StandsAt(code, mid, hi, other, mid - lo + lo')
    ensures other[lo'..mid - lo + lo'] == code[lo..mid]
  {
    var mid' := mid - lo + lo';
    forall i | mid <= i < hi
      ensures other[i - mid + mid'] == code[i]
    {
      assert other[i - lo + lo'] == code[i];
    }
    forall i | 0 <= i < mid - lo
      ensures other[lo'..mid'][i] == code[lo..mid][i]
    {
      assert other[(lo + i) - lo + lo'] == code[lo + i];
    }
  }

  lemma PrefixesStand(code: seq<byte>, at: nat, other: seq<byte>, at': nat, end: nat)
    requires StandsAt(code, at, end, other, at') && PrefixEnd(code, at) < end
    ensures PrefixEnd(other, at') == PrefixEnd(code, at) - at + at'
  {
    hide PrefixEnd, IsPrefix;
    var o := PrefixEnd(code, at);
    forall i | at' <= i < o - at + at'
      ensures IsPrefix(other[i])
    {
      assert code[i - at' + at] == other[(i - at' + at) - at + at'];
    }
    assert other[o - at + at'] == code[o];
    PrefixEndIs(other, at', o - at + at');
  }

  lemma InsnIsLocal(code: seq<byte>, at: nat, other: seq<byte>, at': nat, default32: bool)
    requires at <= |code| && InsnAt(code, at, default32).Some?
    requires StandsAt(code, at, InsnAt(code, at, default32).value.1, other, at')
    ensures InsnAt(other, at', default32)
         == Some((InsnAt(code, at, default32).value.0, InsnAt(code, at, default32).value.1 - at + at'))
  {
    hide FormatAt, PrefixEnd, Others, EffectiveSize, IsPrefix;
    var o, end := PrefixEnd(code, at), InsnAt(code, at, default32).value.1;
    var o' := o - at + at';
    PrefixesStand(code, at, other, at', end);
    PartStands(code, at, end, other, at', o);
    PartStands(code, o, end, other, o', end);
    var prefixes := code[at..o];
    FormatIsLocal(code, o, other, o', end, EffectiveSize(default32, prefixes, 0x66), EffectiveSize(default32, prefixes, 0x67));
  }

  // ---- A branch that goes elsewhere

  const BranchOverMove: seq<byte> := [0x74, 2, 0x89, 0xc8, 0x40]

  /** What the rows and the manual say of a short jump and of an increment. */
  lemma ShortJumpRead(code: seq<byte>, at: nat)
    requires at + 2 <= |code| && code[at] == 0x74
    ensures forall o, a :: ShapeAt(code, at, o, a) == Some(Shape(at + 2, false, false))
    ensures DescribedAt(code, at) && !OperandMattersAt(code, at) && !AddressMattersAt(code, at)
  {
    assert OpeningAt(code, at) == Some(Opening(0x74, at + 1, 3, 0, 0));
  }

  lemma IncrementRead(code: seq<byte>, at: nat)
    requires at < |code| && code[at] == 0x40
    ensures forall o, a :: ShapeAt(code, at, o, a) == Some(Shape(at + 1, true, false))
    ensures DescribedAt(code, at) && OperandMattersAt(code, at) && !AddressMattersAt(code, at) && !MisjudgedAt(code, at)
  {
    assert OpeningAt(code, at) == Some(Opening(0x40, at + 1, 3, 0, 0));
  }

  /** An instruction without prefixes. */
  lemma PlainStep(code: seq<byte>, at: nat)
    requires at < |code| && !IsPrefix(code[at]) && ShapeAt(code, at, true, true).Some? && DescribedAt(code, at)
    requires (OperandMattersAt(code, at) ==> !MisjudgedAt(code, at)) && code[at] != 0x90
    ensures StepAt(code, at) == Some(Step(at, ShapeAt(code, at, true, true).value, true, true))
    ensures KeepsMeaning(code, at, StepAt(code, at).value)
    ensures Emit(code, at, StepAt(code, at).value) == Overrides(StepAt(code, at).value) + code[at..ShapeAt(code, at, true, true).value.end]
    ensures Understood(code, at, StepAt(code, at).value).body == code[at..ShapeAt(code, at, true, true).value.end]
  {
    hide ShapeAt, DescribedAt, OperandMattersAt, AddressMattersAt, MisjudgedAt;
    assert PrefixEnd(code, at) == at && code[at..at] == [];
    assert Count(code[at..at], 0x66) == 0 && Count(code[at..at], 0x67) == 0 && Others(code[at..at]) == [];
  }

  lemma BranchOverMoveSteps()
    ensures var code := BranchOverMove;
      && StepAt(code, 0) == Some(Step(0, Shape(2, false, false), true, true)) && KeepsMeaning(code, 0, StepAt(code, 0).value)
      && StepAt(code, 2) == Some(Step(2, Shape(4, true, false), true, true)) && KeepsMeaning(code, 2, StepAt(code, 2).value)
      && StepAt(code, 4) == Some(Step(4, Shape(5, true, false), true, true)) && KeepsMeaning(code, 4, StepAt(code, 4).value)
      && Emit(code, 0, StepAt(code, 0).value) == [0x74, 2] && Emit(code, 2, StepAt(code, 2).value) == [0x66, 0x89, 0xc8]
      && Emit(code, 4, StepAt(code, 4).value) == [0x66, 0x40]
  {
    hide ShapeAt, OperandMattersAt, AddressMattersAt, MisjudgedAt, KeepsMeaning, StepAt, Emit, DescribedAt, Understood;
    var code := BranchOverMove;
    ShortJumpRead(code, 0);
    RegisterFormRead(code, 2);
    IncrementRead(code, 4);
    PlainStep(code, 0);
    PlainStep(code, 2);
    PlainStep(code, 4);
    assert code[0..2] == [0x74, 2] && code[2..4] == [0x89, 0xc8] && code[4..5] == [0x40];
  }

  lemma BranchOverMoveTarget()
    ensures TargetAt(BranchOverMove, 0, true) == Some(4)
  {
    hide ShapeAt, OperandMattersAt, AddressMattersAt, MisjudgedAt, KeepsMeaning, StepAt, Emit, DescribedAt, Understood, InsnAt;
    var code := BranchOverMove;
    ShortJumpRead(code, 0);
    PlainStep(code, 0);
    assert code[0..2] == [0x74, 2];
    OriginalDecodes(code, 0);
  }

  /** JZ over a MOV: every instruction can be rewritten and reads as before, but the MOV gains an
      override, and the branch ends inside it. */
  lemma BranchOverMoveMisses()
    ensures var code := BranchOverMove;
      && Reaches(code, 0, 5) && Reaches(code, 0, 4) && Output(code, 0, 5) == [0x74, 2, 0x66, 0x89, 0xc8, 0x66, 0x40]
      && Rewritable(code, 0) && SameInstructions(code, 0, Output(code, 0, 5), 0)
      && TargetAt(code, 0, true) == Some(4) && |Output(code, 0, 4)| == 5 && TargetAt(Output(code, 0, 5), 0, false) == Some(4)
  {
    hide StepAt, Emit, KeepsMeaning, TargetAt, SameInstructions, Output, Reaches;
    var code := BranchOverMove;
    BranchOverMoveSteps();
    BranchOverMoveTarget();
    StartOutput(code);
    ReachNext(code, 0, 0);
    ReachNext(code, 0, 2);
    ReachNext(code, 0, 4);
    forall p: nat | Reaches'(code, 0, p) && p < |code| && StepAt(code, p).Some?
      ensures KeepsMeaning(code, p, StepAt(code, p).value)
    {
      NoStartInside(code, 0, 0, p);
      NoStartInside(code, 0, 2, p);
      NoStartInside(code, 0, 4, p);
    }
    RewritePreservesInstructions(code, 0);
    BranchKeepsTargetIff(code, 0, 4);
  }
}
