/** The narrowed code, read instruction by instruction. */
module Code16Stream {
  import opened Bytes
  import opened Emitted
  import opened Shrink
  import opened Wrappers
  import opened Code16
  import opened Code16Branches
  import opened Code16Reference
  import A = Code16Apply
  import N = Code16Narrow

  // ---- Transfers before and after

  lemma OneOverride()
    ensures Others([0x66]) == [] && EffectiveSize(false, [0x66], 0x66) && !EffectiveSize(false, [0x66], 0x67)
    ensures Others([]) == [] && !EffectiveSize(false, [], 0x66) && !EffectiveSize(false, [], 0x67)
  {
    assert [0x66][..0] == [];
    assert Others([0x66][..0]) == [];
  }

  /** A near JMP or Jcc by the manual's tables. */
  lemma NearFormat(code: seq<byte>, at: nat, operand32: bool)
    requires at < |code| && (code[at] == 0xe9 || (code[at] == 0x0f && at + 1 < |code| && code[at + 1] / 16 == 8))
    ensures var end := at + (if code[at] == 0xe9 then 1 else 2) + OperandBytes(operand32);
      end <= |code| ==> FormatAt(code, at, operand32, false) == Some(Format(end, true, false))
  {
    var n := if code[at] == 0xe9 then 0xe9 else 0x100 + (code[at + 1] as int);
    assert n == 0xe9 || 0x180 <= n <= 0x18f;
    assert OpeningAt(code, at) == Some(Opening(n, at + (if code[at] == 0xe9 then 1 else 2), 3, 0, 0));
  }

  /** An overridden near transfer in 16-bit code. */
  lemma WideInsn(code: seq<byte>, field: int)
    requires N.NearStart(code, field) >= 0
    ensures var start := N.NearStart(code, field);
      InsnAt(code, start, false) == Some((Insn([], code[start + 1..field + 4], Some(true), None), field + 4))
  {
    hide FormatAt, Others, EffectiveSize;
    var start := N.NearStart(code, field);
    PrefixEndIs(code, start, start + 1);
    assert code[start..start + 1] == [0x66];
    OneOverride();
    NearFormat(code, start + 1, true);
  }

  /** Its rel16 form. */
  lemma NarrowInsn(code: seq<byte>, start: nat, form: seq<byte>)
    requires start + |form| <= |code| && code[start..start + |form|] == form
    requires (|form| == 3 && form[0] == 0xe9) || (|form| == 4 && form[0] == 0x0f && form[1] / 16 == 8)
    ensures InsnAt(code, start, false) == Some((Insn([], form, Some(false), None), start + |form|))
  {
    hide FormatAt, Others, EffectiveSize;
    assert code[start] == code[start..start + |form|][0] && code[start + 1] == code[start..start + |form|][1];
    PrefixEndIs(code, start, start);
    assert code[start..start] == [];
    OneOverride();
    NearFormat(code, start, false);
  }

  /** A transfer with a zero rel16 displacement in place of its rel32 one. */
  function RelSixteen(insn: Insn): Insn {
    if |insn.body| < 4 then insn else Insn(insn.others, insn.body[..|insn.body| - 4] + [0, 0], Some(false), insn.address32)
  }

  lemma FormIsRelSixteen(p: N.Program, i: nat)
    requires i < |p.relocs| && N.NearStart(p.code, p.relocs[i].at) >= 0
    ensures var start, end, form := N.NearStart(p.code, p.relocs[i].at), p.relocs[i].at + 4, N.FormOf(p, i);
      && RelSixteen(Insn([], p.code[start + 1..end], Some(true), None)) == Insn([], form, Some(false), None)
      && ((|form| == 3 && form[0] == 0xe9) || (|form| == 4 && form[0] == 0x0f && form[1] / 16 == 8))
  {
    var start, field, form := N.NearStart(p.code, p.relocs[i].at), p.relocs[i].at, N.FormOf(p, i);
    var body := p.code[start + 1..field + 4];
    assert body[..|body| - 4] == p.code[start + 1..field];
    if field == start + 2 {
      assert p.code[start + 1..field] == [p.code[field - 1]];
    } else {
      assert p.code[start + 1..field] == [p.code[field - 2], p.code[field - 1]];
    }
  }

  // ---- One instruction

  lemma NarrowedCandidate(p: N.Program, q: N.Program, bounds: set<int>, i: nat)
    requires N.WellFormed(p, bounds) && N.Narrowed(p, q) && i < |p.relocs| && N.Candidate(p, i)
    ensures N.NearStart(p.code, p.relocs[i].at) >= 0
    ensures var start, end := N.NearStart(p.code, p.relocs[i].at), p.relocs[i].at + 4;
      && 0 <= NewPos(N.CutsOf(p), start) <= |q.code| && InsnAt(p.code, start, false).Some? && InsnAt(p.code, start, false).value.1 == end
      && InsnAt(q.code, NewPos(N.CutsOf(p), start), false)
         == Some((RelSixteen(InsnAt(p.code, start, false).value.0), NewPos(N.CutsOf(p), end)))
  {
    hide *;
    N.NarrowedTransfer(p, q, bounds, i);
    WideInsn(p.code, p.relocs[i].at);
    FormIsRelSixteen(p, i);
    NarrowInsn(q.code, NewPos(N.CutsOf(p), N.NearStart(p.code, p.relocs[i].at)), N.FormOf(p, i));
  }

  /** No cut starts in a stretch or reaches into it. */
  ghost predicate Uncut(cuts: seq<Cut>, lo: int, hi: int) {
    forall k :: 0 <= k < |cuts| ==> hi <= cuts[k].start || cuts[k].start + cuts[k].size <= lo
  }

  lemma UncutMoves(cuts: seq<Cut>, lo: int, hi: int, at: int)
    requires Uncut(cuts, lo, hi) && Ordered(cuts) && lo <= at <= hi
    ensures NewPos(cuts, at) == at - lo + NewPos(cuts, lo) && (at < hi ==> Untouched(cuts, at))
  {
    Rigid(cuts, lo, at);
  }

  /** An instruction that is no candidate stands, byte by byte, at its mapped start. */
  lemma OtherStands(p: N.Program, q: N.Program, bounds: set<int>, at: nat, end: nat)
    requires N.WellFormed(p, bounds) && N.Narrowed(p, q) && at < end <= |p.code| && IsInstruction(bounds, at, end)
    requires N.Find(p, |p.relocs|, at).None?
    ensures 0 <= NewPos(N.CutsOf(p), at) && NewPos(N.CutsOf(p), end) == NewPos(N.CutsOf(p), at) + (end - at)
    ensures StandsAt(p.code, at, end, q.code, NewPos(N.CutsOf(p), at))
  {
    hide N.WellFormed, N.Narrowed, N.CutsOf, NewPos, N.Find, IsInstruction, Uncut, Ordered, Untouched;
    var cuts := N.CutsOf(p);
    NothingCut(p, bounds, at, end);
    UncutMoves(cuts, at, end, at);
    UncutMoves(cuts, at, end, end);
    UncutMoves(cuts, at, end, end - 1);
    N.NarrowedByte(p, q, at);
    N.NarrowedByte(p, q, end - 1);
    var at' := NewPos(cuts, at);
    forall i | at <= i < end
      ensures i - at + at' < |q.code| && q.code[i - at + at'] == p.code[i]
    {
      UncutMoves(cuts, at, end, i);
      N.NarrowedByte(p, q, i);
    }
  }

  lemma NothingCut(p: N.Program, bounds: set<int>, at: nat, end: nat)
    requires N.WellFormed(p, bounds) && at < end <= |p.code| && IsInstruction(bounds, at, end) && N.Find(p, |p.relocs|, at).None?
    ensures Uncut(N.CutsOf(p), at, end) && Ordered(N.CutsOf(p))
  {
    N.CuttingIsSound(p, bounds);
    var cuts := N.CutsOf(p);
    forall k | 0 <= k < |cuts|
      ensures end <= cuts[k].start || cuts[k].start + cuts[k].size <= at
    {
      var i := N.Owners(p, |p.code|)[k];
      assert N.NearStart(p.code, p.relocs[i].at) == cuts[k].start != at;
      assert IsInstruction(bounds, cuts[k].start, cuts[k].start + cuts[k].size);
    }
  }

  // ---- The stream

  /** The instructions of a program from a position on, with the rel16 forms of the candidates. */
  ghost function NarrowedStream(p: N.Program, at: nat): Option<seq<Insn>>
    requires at <= |p.code|
    decreases |p.code| - at
  {
    if at == |p.code| then Some([])
    else
      match InsnAt(p.code, at, false)
      case None => None
      case Some((insn, end)) =>
        match NarrowedStream(p, end)
        case None => None
        case Some(rest) => Some([if N.Find(p, |p.relocs|, at).Some? then RelSixteen(insn) else insn] + rest)
  }

  /** From a position on, the instructions of the code end where the emitter put its boundaries. */
  ghost predicate ReadsAlong(code: seq<byte>, bounds: set<int>, at: nat)
    requires at <= |code|
    decreases |code| - at
  {
    at == |code|
    || (InsnAt(code, at, false).Some?
        && IsInstruction(bounds, at, InsnAt(code, at, false).value.1) && ReadsAlong(code, bounds, InsnAt(code, at, false).value.1))
  }

  lemma NarrowedInsn(p: N.Program, q: N.Program, bounds: set<int>, at: nat)
    requires N.WellFormed(p, bounds) && N.Narrowed(p, q) && at < |p.code| && InsnAt(p.code, at, false).Some?
    requires IsInstruction(bounds, at, InsnAt(p.code, at, false).value.1)
    ensures var (insn, end) := InsnAt(p.code, at, false).value;
      && 0 <= NewPos(N.CutsOf(p), at) < NewPos(N.CutsOf(p), end) <= |q.code|
      && InsnAt(q.code, NewPos(N.CutsOf(p), at), false)
         == Some((if N.Find(p, |p.relocs|, at).Some? then RelSixteen(insn) else insn, NewPos(N.CutsOf(p), end)))
  {
    hide InsnAt, N.WellFormed, N.Narrowed, N.CutsOf, NewPos, RelSixteen, IsInstruction;
    var end := InsnAt(p.code, at, false).value.1;
    if N.Find(p, |p.relocs|, at).Some? {
      NarrowedCandidate(p, q, bounds, N.Find(p, |p.relocs|, at).value);
    } else {
      OtherStands(p, q, bounds, at, end);
      InsnIsLocal(p.code, at, q.code, NewPos(N.CutsOf(p), at), false);
    }
  }

  /** The narrowed code reads as the code before, with each candidate replaced by its rel16 form. */
  lemma {:induction false} StreamNarrows(p: N.Program, q: N.Program, bounds: set<int>, at: nat)
    requires N.WellFormed(p, bounds) && N.Narrowed(p, q) && at <= |p.code| && ReadsAlong(p.code, bounds, at)
    ensures 0 <= NewPos(N.CutsOf(p), at) <= |q.code|
    ensures NarrowedStream(p, at).Some? && Stream(q.code, NewPos(N.CutsOf(p), at), false) == NarrowedStream(p, at)
    decreases |p.code| - at
  {
    hide InsnAt, N.WellFormed, N.Narrowed, N.CutsOf, NewPos, RelSixteen, IsInstruction, N.Find;
    if at == |p.code| {
      EndStays(p, q, bounds);
    } else {
      NarrowedInsn(p, q, bounds, at);
      StreamNarrows(p, q, bounds, InsnAt(p.code, at, false).value.1);
    }
  }

  lemma EndStays(p: N.Program, q: N.Program, bounds: set<int>)
    requires N.WellFormed(p, bounds) && N.Narrowed(p, q)
    ensures NewPos(N.CutsOf(p), |p.code|) == |q.code|
  {
    N.CuttingIsSound(p, bounds);
    RebuiltLength(p.code, N.CutsOf(p), N.FormsOf(p));
  }

  // ---- Branches without a reference

  /** A relative branch that is no candidate has the same displacement after the narrowing. So it goes
      to the image of its target exactly when no candidate starts between its end and its target. */
  lemma NarrowedBranchKeepsTargetIff(p: N.Program, q: N.Program, bounds: set<int>, s: nat, t: int)
    requires N.WellFormed(p, bounds) && N.Narrowed(p, q) && s < |p.code| && TargetAt(p.code, s, false) == Some(t)
    requires IsInstruction(bounds, s, InsnAt(p.code, s, false).value.1) && N.Find(p, |p.relocs|, s).None?
    ensures var cuts, e := N.CutsOf(p), InsnAt(p.code, s, false).value.1;
      && 0 <= NewPos(cuts, s) <= |q.code|
      && TargetAt(q.code, NewPos(cuts, s), false) == Some(NewPos(cuts, e) + t - e)
      && (TargetAt(q.code, NewPos(cuts, s), false) == Some(NewPos(cuts, t)) <==> NothingBetween(cuts, e, t))
  {
    hide InsnAt, N.WellFormed, N.Narrowed, N.CutsOf, NewPos, IsInstruction, Displacement, RelSixteen;
    NarrowedInsn(p, q, bounds, s);
    CandidatesSave(p);
    RigidIff(N.CutsOf(p), InsnAt(p.code, s, false).value.1, t);
  }

  lemma CandidatesSave(p: N.Program)
    ensures forall k :: 0 <= k < |N.CutsOf(p)| ==> N.CutsOf(p)[k].keep < N.CutsOf(p)[k].size
  {
  }

  // ---- Both passes

  /** The rewritten code reads along the images of the instruction starts, from where every
      instruction can be rewritten. */
  lemma {:induction false} RewrittenReadsAlong(code: seq<byte>, positions: seq<int>, s: nat)
    requires Reaches(code, 0, |code|) && Mapped(code, |code|, positions) && s <= |code| && Reaches(code, 0, s) && Rewritable(code, s)
    ensures |Output(code, 0, s)| <= |Output(code, 0, |code|)|
    ensures ReadsAlong(Output(code, 0, |code|), A.Bounds(code), |Output(code, 0, s)|)
    decreases |code| - s
  {
    hide Output, StepAt, Emit, KeepsMeaning, InsnAt, Dropped, Understood, Mapped, A.Bounds, Rewritable, Reaches;
    A.StartMoves(code, positions, s);
    if s < |code| {
      ReachesOn(code, 0, s, |code|);
      ReadableStep(code, s);
      var step := StepAt(code, s).value;
      var end := step.shape.end;
      ReachNext(code, 0, s);
      RewritableNext(code, s);
      RewrittenReadsAlong(code, positions, end);
      if Dropped(code, step) {
        DroppedEmitsNothing(code, s);
      } else {
        KeptReads(code, positions, s);
      }
    }
  }

  lemma ReadableStep(code: seq<byte>, s: nat)
    requires s < |code| && Reaches(code, s, |code|)
    ensures StepAt(code, s).Some?
  {
  }

  lemma KeptReads(code: seq<byte>, positions: seq<int>, s: nat)
    requires Reaches(code, 0, |code|) && Mapped(code, |code|, positions) && s < |code| && Reaches(code, 0, s) && StepAt(code, s).Some?
    requires !Dropped(code, StepAt(code, s).value) && KeepsMeaning(code, s, StepAt(code, s).value)
    ensures var end, out := StepAt(code, s).value.shape.end, Output(code, 0, |code|);
      && Reaches(code, 0, end) && |Output(code, 0, s)| < |Output(code, 0, end)| <= |out|
      && InsnAt(out, |Output(code, 0, s)|, false) == Some((Understood(code, s, StepAt(code, s).value), |Output(code, 0, end)|))
      && IsInstruction(A.Bounds(code), |Output(code, 0, s)|, |Output(code, 0, end)|)
  {
    hide Output, StepAt, Emit, InsnAt, Dropped, Understood, Mapped, A.Bounds, Reaches, DescribedAt;
    var end := StepAt(code, s).value.shape.end;
    ReachNext(code, 0, s);
    A.StartMoves(code, positions, s);
    A.StartMoves(code, positions, end);
    A.NothingBetween(code, positions, s);
    ReachesOn(code, 0, end, |code|);
    OutputSplits(code, 0, end, |code|);
    KeptIsNoNop(code, s);
    EmittedDecodes(Output(code, 0, s), code, s, Output(code, end, |code|));
    assert Output(code, 0, |code|) == Output(code, 0, s) + Emit(code, s, StepAt(code, s).value) + Output(code, end, |code|);
  }

  /** From a label on, when every instruction from there on can be rewritten, the final code reads as
      the original instructions without no-operations, each narrowed candidate in its rel16 form. */
  lemma FinalStream(p: N.Program, positions: seq<int>, q: N.Program, n: N.Program, l: nat)
    requires A.Translatable(p) && Mapped(p.code, |p.code|, positions) && A.Translated(p, positions, q) && N.Narrowed(q, n)
    requires l < |p.labelPos| && p.labelPos[l] >= 0 && Rewritable(p.code, p.labelPos[l])
    ensures |n.labelPos| == |q.labelPos| == |p.labelPos| && p.labelPos[l] <= |p.code| && 0 <= q.labelPos[l] <= |q.code| && 0 <= n.labelPos[l] <= |n.code|
    ensures Stream(p.code, p.labelPos[l], true).Some?
    ensures Stream(q.code, q.labelPos[l], false) == Some(WithoutNops(Stream(p.code, p.labelPos[l], true).value))
    ensures NarrowedStream(q, q.labelPos[l]).Some? && Stream(n.code, n.labelPos[l], false) == NarrowedStream(q, q.labelPos[l])
  {
    hide *;
    A.LabelKeepsInstructions(p, positions, q, l);
    A.TranslatedIsWellFormed(p, positions, q);
    LabelFacts(p, positions, q, n, l);
    MeaningMeans(p.code, p.labelPos[l], q.code, q.labelPos[l]);
    RewrittenReadsAlong(p.code, positions, p.labelPos[l]);
    StreamNarrows(q, n, A.Bounds(p.code), q.labelPos[l]);
  }

  lemma LabelFacts(p: N.Program, positions: seq<int>, q: N.Program, n: N.Program, l: nat)
    requires A.Translatable(p) && Mapped(p.code, |p.code|, positions) && A.Translated(p, positions, q) && N.Narrowed(q, n)
    requires l < |p.labelPos| && p.labelPos[l] >= 0
    ensures Reaches(p.code, 0, |p.code|) && 0 <= p.labelPos[l] <= |p.code| && Reaches(p.code, 0, p.labelPos[l])
    ensures q.code == Output(p.code, 0, |p.code|) && |q.labelPos| == |p.labelPos| == |n.labelPos|
    ensures q.labelPos[l] == |Output(p.code, 0, p.labelPos[l])| && n.labelPos[l] == NewPos(N.CutsOf(q), q.labelPos[l])
  {
    hide Output, StepAt, Mapped, NewPos, N.CutsOf, Stream, WithoutNops, Reaches;
    A.StartMoves(p.code, positions, p.labelPos[l]);
  }

  lemma MeaningMeans(code: seq<byte>, at: nat, out: seq<byte>, at': nat)
    requires at <= |code| && at' <= |out| && SameInstructions(code, at, out, at')
    ensures Stream(code, at, true).Some? && Stream(out, at', false) == Some(WithoutNops(Stream(code, at, true).value))
  {
  }

  /** A relative branch without a reference, through both passes: it goes to the place of its target
      exactly when the final code between its end and that place is as long as the original code. */
  lemma BranchThroughBothIff(p: N.Program, positions: seq<int>, q: N.Program, n: N.Program, s: nat, t: nat)
    requires A.Translatable(p) && Mapped(p.code, |p.code|, positions) && A.Translated(p, positions, q) && N.Narrowed(q, n)
    requires OwnBranch(p.code, {}, s, t) && KeepsMeaning(p.code, s, StepAt(p.code, s).value)
    requires N.Find(q, |q.relocs|, |Output(p.code, 0, s)|).None?
    ensures var cuts, e := N.CutsOf(q), StepAt(p.code, s).value.shape.end;
      && Reaches(p.code, 0, e) && 0 <= NewPos(cuts, |Output(p.code, 0, s)|) <= |n.code|
      && (TargetAt(n.code, NewPos(cuts, |Output(p.code, 0, s)|), false) == Some(NewPos(cuts, |Output(p.code, 0, t)|))
          <==> NewPos(cuts, |Output(p.code, 0, t)|) - NewPos(cuts, |Output(p.code, 0, e)|) == t - e)
  {
    hide InsnAt, N.Narrowed, N.CutsOf, NewPos, Output, StepAt, Emit, KeepsMeaning, Mapped, Reaches, Displacement, RelSixteen, Dropped, IsInstruction;
    hide DescribedAt, Understood, N.WellFormed, N.Find;
    A.TranslatedIsWellFormed(p, positions, q);
    KeptDescribed(p.code, s);
    OriginalDecodes(p.code, s);
    BranchIsKept(p.code, s);
    KeptReads(p.code, positions, s);
    NarrowedInsn(q, n, A.Bounds(p.code), |Output(p.code, 0, s)|);
  }
}
