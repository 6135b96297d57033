/** Turning finished 32-bit code into 16-bit code: the rewriting, the moving of everything that
    names a code position, and the narrowing of near transfers, one after the other. */
module Code16Apply {
  import opened Bytes
  import opened Emitted
  import opened Wrappers
  import opened C = Code16
  import N = Code16Narrow

  // ---- What the emitter guarantees

  ghost predicate IsStart(code: seq<byte>, p: int) {
    0 <= p <= |code| && Reaches(code, 0, p)
  }

  /** A field behind the opcode of an instruction that is kept. */
  ghost predicate FieldOf(code: seq<byte>, s: int, at: int) {
    && 0 <= s < |code| && Reaches(code, 0, s) && StepAt(code, s).Some?
    && !Dropped(code, StepAt(code, s).value)
    && StepAt(code, s).value.opcodeAt < at && at + 4 <= StepAt(code, s).value.shape.end
  }

  /** The displacement of an unprefixed near JMP, Jcc or CALL. */
  ghost predicate TransferAt(code: seq<byte>, s: int, at: int) {
    && FieldOf(code, s, at) && StepAt(code, s).value.opcodeAt == s && at + 4 == StepAt(code, s).value.shape.end
    && ((at == s + 1 && (code[s] == 0xe8 || code[s] == 0xe9)) || (at == s + 2 && code[s] == 0x0f && code[s + 1] / 16 == 8))
  }

  ghost predicate HasField(code: seq<byte>, at: int) {
    exists s :: FieldOf(code, s, at)
  }

  ghost predicate HasTransfer(code: seq<byte>, at: int) {
    exists s :: TransferAt(code, s, at)
  }

  /** The code can be read to its end; labels and function ends lie between instructions, label
      references are the displacements of near transfers, data references lie in kept instructions,
      and fields do not overlap. */
  ghost predicate Translatable(p: N.Program) {
    && Reaches(p.code, 0, |p.code|)
    && (forall l :: 0 <= l < |p.labelPos| ==> p.labelPos[l] < 0 || IsStart(p.code, p.labelPos[l]))
    && (forall l :: 0 <= l < |p.ends| ==> IsStart(p.code, p.ends[l]))
    && (forall i :: 0 <= i < |p.relocs| ==> HasTransfer(p.code, p.relocs[i].at))
    && (forall i :: 0 <= i < |p.absRelocs| ==> HasField(p.code, p.absRelocs[i].at))
    && (forall i, j :: 0 <= i < |p.relocs| && 0 <= j < |p.relocs| && i != j ==> Apart(p.relocs[i].at, p.relocs[j].at))
    && (forall i, j :: 0 <= i < |p.absRelocs| && 0 <= j < |p.relocs| ==>
         p.absRelocs[i].at == p.relocs[j].at || Apart(p.absRelocs[i].at, p.relocs[j].at))
  }

  /** The conditions can be met: a jump to the end of its code. */
  lemma OneJump(p: N.Program)
    requires p == N.Program([0xe9, 0, 0, 0, 0], [5], [Reloc(1, 0)], [], [5])
    ensures Translatable(p)
  {
    JumpIsRead(p.code);
    hide StepAt, Reaches;
    assert TransferAt(p.code, 0, 1);
    assert HasTransfer(p.code, 1);
  }

  lemma JumpIsRead(code: seq<byte>)
    requires code == [0xe9, 0, 0, 0, 0]
    ensures StepAt(code, 0) == Some(Step(0, Shape(5, true, false), true, true)) && Reaches(code, 0, 5) && Reaches(code, 0, 0)
  {
    assert PrefixEnd(code, 0) == 0 && code[0..0] == [];
    assert Reaches(code, 5, 5);
  }

  // ---- The program after the rewriting

  /** Everything that names a position is looked up in the map. */
  ghost predicate Translated(p: N.Program, positions: seq<int>, q: N.Program) {
    && Reaches(p.code, 0, |p.code|) && q.code == Output(p.code, 0, |p.code|) && |positions| == |p.code| + 1
    && |q.labelPos| == |p.labelPos| && |q.relocs| == |p.relocs| && |q.absRelocs| == |p.absRelocs| && |q.ends| == |p.ends|
    && (forall l :: 0 <= l < |p.labelPos| ==> q.labelPos[l] == MapOne(positions, p.labelPos[l]))
    && (forall l :: 0 <= l < |p.ends| ==> q.ends[l] == MapOne(positions, p.ends[l]))
    && (forall i :: 0 <= i < |p.relocs| ==> q.relocs[i] == p.relocs[i].(at := MapOne(positions, p.relocs[i].at)))
    && (forall i :: 0 <= i < |p.absRelocs| ==> q.absRelocs[i] == p.absRelocs[i].(at := MapOne(positions, p.absRelocs[i].at)))
  }

  function MapOne(positions: seq<int>, position: int): int {
    if 0 <= position < |positions| then positions[position] else position
  }

  /** The instruction boundaries of the rewritten code. */
  ghost function Bounds(code: seq<byte>): set<int> {
    set p | 0 <= p <= |code| && Reaches(code, 0, p) :: |Output(code, 0, p)|
  }

  lemma StartMoves(code: seq<byte>, positions: seq<int>, p: int)
    requires Reaches(code, 0, |code|) && Mapped(code, |code|, positions) && IsStart(code, p)
    ensures |positions| == |code| + 1 && positions[p] == |Output(code, 0, p)| && positions[p] in Bounds(code)
    ensures 0 <= positions[p] <= |Output(code, 0, |code|)|
  {
    hide Output, Reaches;
    assert Reaches'(code, 0, p);
    ReachesOn(code, 0, p, |code|);
    OutputSplits(code, 0, p, |code|);
  }

  /** The output of one kept instruction stands between the images of its ends. */
  lemma EmitStands(code: seq<byte>, positions: seq<int>, s: nat)
    requires Reaches(code, 0, |code|) && Mapped(code, |code|, positions) && s < |code| && Reaches(code, 0, s) && StepAt(code, s).Some?
    ensures |positions| == |code| + 1
    ensures var end := StepAt(code, s).value.shape.end; var out := Output(code, 0, |code|); var e := Emit(code, s, StepAt(code, s).value);
      && IsStart(code, end) && 0 <= positions[s] && positions[end] == positions[s] + |e| <= |out|
      && out[positions[s]..positions[end]] == e
  {
    hide Output, Reaches, Emit, StepAt, Mapped;
    var end := StepAt(code, s).value.shape.end;
    ReachNext(code, 0, s);
    StartMoves(code, positions, s);
    StartMoves(code, positions, end);
    ReachesOn(code, 0, end, |code|);
    OutputSplits(code, 0, end, |code|);
  }

  /** No boundary lies inside the output of an instruction. */
  lemma NothingBetween(code: seq<byte>, positions: seq<int>, s: nat)
    requires Reaches(code, 0, |code|) && Mapped(code, |code|, positions) && s < |code| && Reaches(code, 0, s) && StepAt(code, s).Some?
    ensures |positions| == |code| + 1
    ensures Inside(Bounds(code), positions[s], positions[StepAt(code, s).value.shape.end])
  {
    hide Output, Reaches, Emit, StepAt, Mapped;
    var end := StepAt(code, s).value.shape.end;
    EmitStands(code, positions, s);
    forall b | b in Bounds(code)
      ensures !(positions[s] < b < positions[end])
    {
      var p :| 0 <= p <= |code| && Reaches(code, 0, p) && b == |Output(code, 0, p)|;
      StartMoves(code, positions, p);
      NoStartInside(code, 0, s, p);
      if p <= s {
        MappedMonotone(code, positions, p, s);
      } else {
        MappedMonotone(code, positions, end, p);
      }
    }
  }

  /** A field keeps its place before the end of its instruction. */
  lemma FieldMoves(code: seq<byte>, positions: seq<int>, s: int, at: int)
    requires Reaches(code, 0, |code|) && Mapped(code, |code|, positions) && FieldOf(code, s, at)
    ensures |positions| == |code| + 1
    ensures var end := StepAt(code, s).value.shape.end;
      && IsStart(code, end) && positions[at] == positions[end] - (end - at) && positions[s] < positions[at]
      && positions[at] + 4 <= positions[end] <= |Output(code, 0, |code|)| && 0 <= positions[s]
    ensures N.FieldIn(Output(code, 0, |code|), Bounds(code), positions[at])
  {
    hide Output, Reaches, StepAt, StartsMapped;
    EmitStands(code, positions, s);
    NothingBetween(code, positions, s);
    assert Reaches'(code, 0, s);
    StartMoves(code, positions, s);
    assert InsideMapped(code, s, positions);
  }

  /** Two fields that are apart stay apart. */
  lemma FieldsStayApart(code: seq<byte>, positions: seq<int>, at: int, other: int)
    requires Reaches(code, 0, |code|) && Mapped(code, |code|, positions) && HasField(code, at) && HasField(code, other) && Apart(at, other)
    ensures |positions| == |code| + 1 && 0 <= at <= |code| && 0 <= other <= |code| && Apart(positions[at], positions[other])
  {
    hide Output, Reaches, StepAt, Mapped, Emit, Dropped;
    var s :| FieldOf(code, s, at);
    var t :| FieldOf(code, t, other);
    FieldMoves(code, positions, s, at);
    FieldMoves(code, positions, t, other);
    if s < t {
      NoStartInside(code, 0, s, t);
      MappedMonotone(code, positions, StepAt(code, s).value.shape.end, t);
    } else if t < s {
      NoStartInside(code, 0, t, s);
      MappedMonotone(code, positions, StepAt(code, t).value.shape.end, s);
    }
  }

  /** A near transfer takes one operand-size override, and nothing else. */
  lemma TransferEmits(code: seq<byte>, s: int, at: int)
    requires TransferAt(code, s, at)
    ensures Emit(code, s, StepAt(code, s).value) == [0x66] + code[s..at + 4]
  {
    var step := StepAt(code, s).value;
    assert PrefixEnd(code, s) == s && code[s..s] == [];
    assert step.shape.operand && !step.shape.address && step.operand32;
    assert Others(code[s..s]) == [];
  }

  /** The narrowing pass finds the start of a transfer exactly at its image. */
  lemma TransferPattern(code: seq<byte>, positions: seq<int>, s: int, at: int)
    requires Reaches(code, 0, |code|) && Mapped(code, |code|, positions) && TransferAt(code, s, at)
    ensures |positions| == |code| + 1 && 0 <= at <= |code|
    ensures var start := N.NearStart(Output(code, 0, |code|), positions[at]);
      start >= 0 ==> start == positions[s] && IsInstruction(Bounds(code), start, positions[at] + 4)
  {
    hide Output, Reaches, StepAt, Mapped, Emit, Dropped;
    var out, end := Output(code, 0, |code|), at + 4;
    FieldMoves(code, positions, s, at);
    EmitStands(code, positions, s);
    NothingBetween(code, positions, s);
    TransferEmits(code, s, at);
    StartMoves(code, positions, s);
    StartMoves(code, positions, end);
    ThreeBytes(out, positions[s], positions[end], code, s, end);
  }

  /** The override and the first two bytes of the transfer, where they were written. */
  lemma ThreeBytes(out: seq<byte>, at: int, end': int, code: seq<byte>, s: int, end: int)
    requires 0 <= at <= end' <= |out| && 0 <= s && s + 2 <= end <= |code| && out[at..end'] == [0x66] + code[s..end]
    ensures at + 3 <= |out| && out[at] == 0x66 && out[at + 1] == code[s] && out[at + 2] == code[s + 1]
  {
    var e := [0x66] + code[s..end];
    assert |e| == end' - at;
    assert out[at] == out[at..end'][0] == e[0];
    assert out[at + 1] == out[at..end'][1] == e[1];
    assert out[at + 2] == out[at..end'][2] == e[2];
  }

  /** The rewritten program is one the narrowing pass accepts. */
  lemma TranslatedIsWellFormed(p: N.Program, positions: seq<int>, q: N.Program)
    requires Translatable(p) && Mapped(p.code, |p.code|, positions) && Translated(p, positions, q)
    ensures N.WellFormed(q, Bounds(p.code))
  {
    hide Output, Reaches, StepAt, Mapped, FieldOf, TransferAt;
    var code := p.code;
    StartMoves(code, positions, |code|);
    LabelsMove(p, positions, q);
    forall b | b in Bounds(code)
      ensures 0 <= b <= |q.code|
    {
      var s :| 0 <= s <= |code| && Reaches(code, 0, s) && b == |Output(code, 0, s)|;
      StartMoves(code, positions, s);
    }
    forall i | 0 <= i < |p.relocs|
      ensures N.FieldIn(q.code, Bounds(code), q.relocs[i].at)
      ensures N.NearStart(q.code, q.relocs[i].at) >= 0 ==>
                IsInstruction(Bounds(code), N.NearStart(q.code, q.relocs[i].at), q.relocs[i].at + 4)
    {
      RelocMoves(p, positions, q, i);
    }
    forall i | 0 <= i < |p.absRelocs|
      ensures N.FieldIn(q.code, Bounds(code), q.absRelocs[i].at)
    {
      AbsoluteMoves(p, positions, q, i);
    }
    FieldsApart(p, positions, q);
  }

  lemma LabelsMove(p: N.Program, positions: seq<int>, q: N.Program)
    requires Translatable(p) && Mapped(p.code, |p.code|, positions) && Translated(p, positions, q)
    ensures forall l :: 0 <= l < |q.labelPos| ==> q.labelPos[l] < 0 || q.labelPos[l] in Bounds(p.code)
    ensures forall l :: 0 <= l < |q.ends| ==> q.ends[l] in Bounds(p.code)
  {
    hide Output, Reaches, StepAt, Mapped, Bounds, HasField, HasTransfer;
    forall l | 0 <= l < |p.labelPos|
      ensures q.labelPos[l] < 0 || q.labelPos[l] in Bounds(p.code)
    {
      if p.labelPos[l] >= 0 {
        StartMoves(p.code, positions, p.labelPos[l]);
      }
    }
    forall l | 0 <= l < |p.ends|
      ensures q.ends[l] in Bounds(p.code)
    {
      StartMoves(p.code, positions, p.ends[l]);
    }
  }

  lemma RelocMoves(p: N.Program, positions: seq<int>, q: N.Program, i: nat)
    requires Translatable(p) && Mapped(p.code, |p.code|, positions) && Translated(p, positions, q) && i < |p.relocs|
    ensures HasField(p.code, p.relocs[i].at) && N.FieldIn(q.code, Bounds(p.code), q.relocs[i].at)
    ensures N.NearStart(q.code, q.relocs[i].at) >= 0 ==>
              IsInstruction(Bounds(p.code), N.NearStart(q.code, q.relocs[i].at), q.relocs[i].at + 4)
    ensures 0 <= p.relocs[i].at <= |p.code| && q.relocs[i].at == positions[p.relocs[i].at]
  {
    hide Output, Reaches, StepAt, Mapped, Bounds, FieldOf, N.FieldIn, N.NearStart;
    assert HasTransfer(p.code, p.relocs[i].at);
    var s :| TransferAt(p.code, s, p.relocs[i].at);
    FieldMoves(p.code, positions, s, p.relocs[i].at);
    TransferPattern(p.code, positions, s, p.relocs[i].at);
  }

  lemma AbsoluteMoves(p: N.Program, positions: seq<int>, q: N.Program, i: nat)
    requires Translatable(p) && Mapped(p.code, |p.code|, positions) && Translated(p, positions, q) && i < |p.absRelocs|
    ensures N.FieldIn(q.code, Bounds(p.code), q.absRelocs[i].at)
    ensures 0 <= p.absRelocs[i].at <= |p.code| && q.absRelocs[i].at == positions[p.absRelocs[i].at]
  {
    hide Output, Reaches, Mapped, Bounds, N.FieldIn;
    assert HasField(p.code, p.absRelocs[i].at);
    var s :| FieldOf(p.code, s, p.absRelocs[i].at);
    FieldMoves(p.code, positions, s, p.absRelocs[i].at);
  }

  lemma FieldsApart(p: N.Program, positions: seq<int>, q: N.Program)
    requires Translatable(p) && Mapped(p.code, |p.code|, positions) && Translated(p, positions, q)
    ensures forall i, j :: 0 <= i < |q.relocs| && 0 <= j < |q.relocs| && i != j ==> Apart(q.relocs[i].at, q.relocs[j].at)
    ensures forall i, j :: 0 <= i < |q.absRelocs| && 0 <= j < |q.relocs| ==>
              q.absRelocs[i].at == q.relocs[j].at || Apart(q.absRelocs[i].at, q.relocs[j].at)
  {
    hide Output, Reaches, StepAt, Mapped, Bounds, FieldOf, TransferAt, HasField, HasTransfer;
    forall i, j | 0 <= i < |q.relocs| && 0 <= j < |q.relocs| && i != j
      ensures Apart(q.relocs[i].at, q.relocs[j].at)
    {
      RelocMoves(p, positions, q, i);
      RelocMoves(p, positions, q, j);
      FieldsStayApart(p.code, positions, p.relocs[i].at, p.relocs[j].at);
    }
    forall i, j | 0 <= i < |q.absRelocs| && 0 <= j < |q.relocs|
      ensures q.absRelocs[i].at == q.relocs[j].at || Apart(q.absRelocs[i].at, q.relocs[j].at)
    {
      RelocMoves(p, positions, q, j);
      AbsoluteMoves(p, positions, q, i);
      if p.absRelocs[i].at != p.relocs[j].at {
        FieldsStayApart(p.code, positions, p.absRelocs[i].at, p.relocs[j].at);
      }
    }
  }

  /** At a set label the rewritten program has the instructions it had, displacements included: exactly
      when the instructions from there on can be rewritten. */
  lemma LabelKeepsInstructions(p: N.Program, positions: seq<int>, q: N.Program, l: nat)
    requires Translatable(p) && Mapped(p.code, |p.code|, positions) && Translated(p, positions, q)
    requires l < |p.labelPos| && p.labelPos[l] >= 0
    ensures 0 <= q.labelPos[l] <= |q.code| && p.labelPos[l] <= |p.code|
    ensures SameInstructions(p.code, p.labelPos[l], q.code, q.labelPos[l]) <==> Rewritable(p.code, p.labelPos[l])
  {
    hide Output, Reaches, StepAt, Mapped, HasField, HasTransfer, SameInstructions, Rewritable;
    StartMoves(p.code, positions, p.labelPos[l]);
    ReachesOn(p.code, 0, p.labelPos[l], |p.code|);
    RewritePreservesInstructions(p.code, p.labelPos[l]);
  }

  // ---- The pass

  /** Looks a list of positions up; unset ones stay unset when that is allowed. */
  method MapList(was: seq<int>, positions: seq<int>, unset: bool) returns (ok: bool, now: seq<int>)
    ensures ok <==> forall l :: 0 <= l < |was| ==> (unset && was[l] < 0) || Found(positions, was[l])
    ensures ok ==> |now| == |was| && forall l :: 0 <= l < |was| ==> now[l] == MapOne(positions, was[l])
  {
    now := was;
    for i := 0 to |was|
      invariant |now| == |was| && (forall l :: i <= l < |was| ==> now[l] == was[l])
      invariant forall l :: 0 <= l < i ==> now[l] == MapOne(positions, was[l]) && ((unset && was[l] < 0) || Found(positions, was[l]))
    {
      if unset && was[i] < 0 {
        continue;
      }
      if was[i] < 0 || was[i] >= |positions| || positions[was[i]] < 0 {
        return false, now;
      }
      now := now[i := positions[was[i]]];
    }
    ok := true;
  }

  predicate Found(positions: seq<int>, position: int) {
    0 <= position < |positions| && positions[position] >= 0
  }

  method MapRelocs(was: seq<Reloc>, positions: seq<int>) returns (ok: bool, now: seq<Reloc>)
    ensures ok <==> forall l :: 0 <= l < |was| ==> Found(positions, was[l].at)
    ensures ok ==> |now| == |was| && forall l :: 0 <= l < |was| ==> now[l] == was[l].(at := MapOne(positions, was[l].at))
  {
    now := was;
    for i := 0 to |was|
      invariant |now| == |was| && (forall l :: i <= l < |was| ==> now[l] == was[l])
      invariant forall l :: 0 <= l < i ==> now[l] == was[l].(at := MapOne(positions, was[l].at)) && Found(positions, was[l].at)
    {
      if was[i].at < 0 || was[i].at >= |positions| || positions[was[i].at] < 0 {
        return false, now;
      }
      now := now[i := was[i].(at := positions[was[i].at])];
    }
    ok := true;
  }

  method MapAbsolutes(was: seq<AbsReloc>, positions: seq<int>) returns (ok: bool, now: seq<AbsReloc>)
    ensures ok <==> forall l :: 0 <= l < |was| ==> Found(positions, was[l].at)
    ensures ok ==> |now| == |was| && forall l :: 0 <= l < |was| ==> now[l] == was[l].(at := MapOne(positions, was[l].at))
  {
    now := was;
    for i := 0 to |was|
      invariant |now| == |was| && (forall l :: i <= l < |was| ==> now[l] == was[l])
      invariant forall l :: 0 <= l < i ==> now[l] == was[l].(at := MapOne(positions, was[l].at)) && Found(positions, was[l].at)
    {
      if was[i].at < 0 || was[i].at >= |positions| || positions[was[i].at] < 0 {
        return false, now;
      }
      now := now[i := was[i].(at := positions[was[i].at])];
    }
    ok := true;
  }

  /** Well-formed programs name only positions that are in the map. */
  lemma AllFound(p: N.Program, positions: seq<int>)
    requires Translatable(p) && Mapped(p.code, |p.code|, positions)
    ensures |positions| == |p.code| + 1
    ensures forall l :: 0 <= l < |p.labelPos| ==> p.labelPos[l] < 0 || Found(positions, p.labelPos[l])
    ensures forall l :: 0 <= l < |p.ends| ==> Found(positions, p.ends[l])
    ensures forall i :: 0 <= i < |p.relocs| ==> Found(positions, p.relocs[i].at)
    ensures forall i :: 0 <= i < |p.absRelocs| ==> Found(positions, p.absRelocs[i].at)
  {
    hide Reaches, StepAt, StartsMapped, InsidesMapped, FieldOf, TransferAt;
    forall i | 0 <= i < |p.relocs|
      ensures 0 <= p.relocs[i].at <= |p.code|
    {
      assert HasTransfer(p.code, p.relocs[i].at);
      var s :| TransferAt(p.code, s, p.relocs[i].at);
      FieldInCode(p.code, s, p.relocs[i].at);
    }
    forall i | 0 <= i < |p.absRelocs|
      ensures 0 <= p.absRelocs[i].at <= |p.code|
    {
      assert HasField(p.code, p.absRelocs[i].at);
      var s :| FieldOf(p.code, s, p.absRelocs[i].at);
      FieldInCode(p.code, s, p.absRelocs[i].at);
    }
  }

  lemma FieldInCode(code: seq<byte>, s: int, at: int)
    requires FieldOf(code, s, at) || TransferAt(code, s, at)
    ensures 0 <= at <= |code|
  {
  }

  /** The translation succeeds: the code can be read to its end and, if it is empty, nothing names
      its one position, which the map leaves unset. */
  ghost predicate Applies(p: N.Program) {
    && Reaches(p.code, 0, |p.code|)
    && (p.code == [] ==> p.ends == [] && forall l :: 0 <= l < |p.labelPos| ==> p.labelPos[l] < 0)
  }

  /** A label of empty code is named rightly, and refused. */
  lemma EmptyCodeWithLabel()
    ensures var p := N.Program([], [0], [], [], []); Translatable(p) && !Applies(p)
  {
    var p := N.Program([], [0], [], [], []);
    assert Reaches(p.code, 0, 0);
    assert p.labelPos[0] == 0;
  }

  /** The whole translation. A program to which it applies is translated and narrowed without fail;
      any other one is refused and nothing is changed. */
  method ApplyCode16(a: N.Asm386, ghost p: N.Program) returns (ok: bool, ghost positions: seq<int>, ghost q: N.Program)
    requires p == a.Contents() && (Reaches(p.code, 0, |p.code|) ==> Translatable(p))
    modifies a
    ensures ok <==> Applies(p)
    ensures ok && p.code != [] ==> Mapped(p.code, |p.code|, positions) && Translated(p, positions, q) && N.WellFormed(q, Bounds(p.code))
    ensures ok && p.code == [] ==> q == p && N.WellFormed(q, {0})
    ensures if ok then N.Narrowed(q, a.Contents()) else a.Contents() == p
  {
    hide *;
    var r := Rewrite(a.code);
    positions, q := r.positions, p;
    ReadMeans(p);
    if !r.ok {
      NotRead(p.code, r.failure);
      return false, positions, q;
    }
    if p.code != [] {
      AllFound(p, r.positions);
    } else {
      EmptyTranslatable(p);
    }
    var labels, relocs, absRelocs, ends;
    ok, labels := MapList(a.labelPos, r.positions, true);
    if !ok {
      return;
    }
    ok, relocs := MapRelocs(a.relocs, r.positions);
    if !ok {
      return;
    }
    ok, absRelocs := MapAbsolutes(a.absRelocs, r.positions);
    if !ok {
      return;
    }
    ok, ends := MapList(a.ends, r.positions, false);
    if !ok {
      return;
    }
    a.labelPos, a.relocs, a.absRelocs, a.ends := labels, relocs, absRelocs, ends;
    a.code := r.code;
    q := a.Contents();
    if p.code != [] {
      TranslatedIntro(p, r.positions, q);
      TranslatedIsWellFormed(p, r.positions, q);
    } else {
      EmptyStays(p, q);
    }
    ok := a.Narrow(if p.code != [] then Bounds(p.code) else {0});
  }

  lemma FieldNeedsCode(code: seq<byte>, at: int)
    requires HasTransfer(code, at) || HasField(code, at)
    ensures code != []
  {
  }

  /** Empty code has no references, and its map has no position set. */
  lemma EmptyTranslatable(p: N.Program)
    requires Translatable(p) && p.code == []
    ensures p.relocs == [] && p.absRelocs == [] && Output(p.code, 0, |p.code|) == []
    ensures forall position :: !Found([-1], position)
  {
    hide HasTransfer, HasField;
    if p.relocs != [] {
      FieldNeedsCode(p.code, p.relocs[0].at);
    } else if p.absRelocs != [] {
      FieldNeedsCode(p.code, p.absRelocs[0].at);
    }
  }

  lemma ReadMeans(p: N.Program)
    ensures Applies(p) ==> Reaches(p.code, 0, |p.code|)
    ensures Reaches(p.code, 0, |p.code|) && p.code != [] ==> Applies(p)
    ensures p.code == [] && Applies(p) ==> p.ends == [] && forall l :: 0 <= l < |p.labelPos| ==> p.labelPos[l] < 0
  {
  }

  /** When all that is named is found, empty code names nothing, and stays as it is. */
  lemma EmptyStays(p: N.Program, q: N.Program)
    requires p.code == q.code == [] && p.relocs == q.relocs == [] && p.absRelocs == q.absRelocs == [] && Reaches(p.code, 0, 0)
    requires forall l :: 0 <= l < |p.labelPos| ==> p.labelPos[l] < 0 || Found([-1], p.labelPos[l])
    requires forall l :: 0 <= l < |p.ends| ==> Found([-1], p.ends[l])
    requires |q.labelPos| == |p.labelPos| && forall l :: 0 <= l < |p.labelPos| ==> q.labelPos[l] == MapOne([-1], p.labelPos[l])
    requires |q.ends| == |p.ends|
    ensures Applies(p) && q == p && N.WellFormed(q, {0})
  {
    NoneFound(p.ends);
    assert q.labelPos == p.labelPos;
  }

  lemma NoneFound(ends: seq<int>)
    ensures (forall l :: 0 <= l < |ends| ==> Found([-1], ends[l])) ==> ends == []
  {
    if ends != [] {
      assert !Found([-1], ends[0]);
    }
  }

  lemma TranslatedIntro(p: N.Program, positions: seq<int>, q: N.Program)
    requires Reaches(p.code, 0, |p.code|) && q.code == Output(p.code, 0, |p.code|) && |positions| == |p.code| + 1
    requires |q.labelPos| == |p.labelPos| && |q.relocs| == |p.relocs| && |q.absRelocs| == |p.absRelocs| && |q.ends| == |p.ends|
    requires forall l :: 0 <= l < |p.labelPos| ==> q.labelPos[l] == MapOne(positions, p.labelPos[l])
    requires forall l :: 0 <= l < |p.ends| ==> q.ends[l] == MapOne(positions, p.ends[l])
    requires forall i :: 0 <= i < |p.relocs| ==> q.relocs[i] == p.relocs[i].(at := MapOne(positions, p.relocs[i].at))
    requires forall i :: 0 <= i < |p.absRelocs| ==> q.absRelocs[i] == p.absRelocs[i].(at := MapOne(positions, p.absRelocs[i].at))
    ensures Translated(p, positions, q)
  {
  }
}
