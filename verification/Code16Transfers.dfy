/** Near transfers of 16-bit code as the processor reads them, before and after narrowing, once the
    object writer has filled in their displacements. */
module Code16Transfers {
  import opened Bytes
  import opened Emitted
  import opened ObjectLabels
  import opened Shrink
  import opened Wrappers
  import C = Code16
  import A = Code16Apply
  import N = Code16Narrow

  datatype Transfer = Jump(target: int) | JumpIf(cond: int, target: int) | NoTransfer

  /** Decodes near JMP and Jcc in 16-bit code: rel16, or rel32 behind an operand-size override. */
  function Decode(code: seq<byte>, at: nat): Transfer {
    if at + 3 <= |code| && code[at] == 0xe9 then Jump(at + 3 + SignedN(GetN(code, at + 1, 2), 2))
    else if at + 4 <= |code| && code[at] == 0x0f && code[at + 1] / 16 == 8 then
      JumpIf(code[at + 1] % 16, at + 4 + SignedN(GetN(code, at + 2, 2), 2))
    else if at + 6 <= |code| && code[at] == 0x66 && code[at + 1] == 0xe9 then Jump(at + 6 + SignedN(GetN(code, at + 2, 4), 4))
    else if at + 7 <= |code| && code[at] == 0x66 && code[at + 1] == 0x0f && code[at + 2] / 16 == 8 then
      JumpIf(code[at + 2] % 16, at + 7 + SignedN(GetN(code, at + 3, 4), 4))
    else NoTransfer
  }

  /** The transfer of a recognised instruction, to some target. */
  function To(code: seq<byte>, at: int, target: int): Transfer
    requires N.NearStart(code, at) >= 0
  {
    if at == N.NearStart(code, at) + 2 then Jump(target) else JumpIf(code[at - 1] % 16, target)
  }

  /** The writer's displacement in a field: the distance to the target plus what stood there. */
  function Resolved(code: seq<byte>, at: nat, size: nat, target: int): (r: seq<byte>)
    requires (size == 2 || size == 4) && at + size <= |code|
    ensures |r| == |code|
  {
    PutN(code, at, size, target + SignedN(GetN(code, at, size), size) - (at + size))
  }

  lemma SignedResidue(d: int, size: nat)
    requires (size == 2 || size == 4) && -(Span(size) / 2) <= d < Span(size) / 2
    ensures SignedN(d % Span(size), size) == d
  {
    if d < 0 {
      QuotientUnique(d, Span(size), -1, d + Span(size));
    } else {
      QuotientUnique(d, Span(size), 0, d);
    }
  }

  /** A resolved field holds the distance when it is within reach. */
  lemma ResolvedHolds(code: seq<byte>, at: nat, size: nat, target: int)
    requires (size == 2 || size == 4) && at + size <= |code|
    requires var d := target + SignedN(GetN(code, at, size), size) - (at + size); -(Span(size) / 2) <= d < Span(size) / 2
    ensures var r := Resolved(code, at, size, target);
      SignedN(GetN(r, at, size), size) == target + SignedN(GetN(code, at, size), size) - (at + size)
      && forall j :: 0 <= j < |code| && !(at <= j < at + size) ==> r[j] == code[j]
  {
    hide PutN, GetN, SignedN;
    var d := target + SignedN(GetN(code, at, size), size) - (at + size);
    GetPutN(code, at, size, d);
    SignedResidue(d, size);
  }

  /** Before narrowing: the rel32 form goes to the target plus its addend. */
  lemma WideGoes(code: seq<byte>, at: nat, target: int)
    requires N.NearStart(code, at) >= 0
    requires -HALF <= target + SignedN(GetN(code, at, 4), 4) - (at + 4) < HALF
    ensures Decode(Resolved(code, at, 4, target), N.NearStart(code, at)) == To(code, at, target + SignedN(GetN(code, at, 4), 4))
  {
    hide GetN, SignedN, Resolved;
    ResolvedHolds(code, at, 4, target);
  }

  /** After narrowing: the rel16 form, whose field was zero, goes to the target. */
  lemma NarrowGoes(p: N.Program, i: nat, code: seq<byte>, start: nat, target: int)
    requires i < |p.relocs| && N.NearStart(p.code, p.relocs[i].at) >= 0
    requires var end := start + |N.FormOf(p, i)|;
      end <= |code| && code[start..end] == N.FormOf(p, i) && N.FitsWord(target - end)
    ensures var end := start + |N.FormOf(p, i)|;
      start <= end - 2 && Decode(Resolved(code, end - 2, 2, target), start) == To(p.code, p.relocs[i].at, target)
  {
    var form := N.FormOf(p, i);
    var end := start + |form|;
    FormBytes(code, start, form);
    ZeroField(code, end - 2);
    hide GetN, SignedN, Resolved;
    ResolvedHolds(code, end - 2, 2, target);
  }

  lemma FormBytes(code: seq<byte>, start: nat, form: seq<byte>)
    requires start + |form| <= |code| && code[start..start + |form|] == form && |form| >= 3
    ensures code[start] == form[0] && code[start + 1] == form[1]
    ensures code[start + |form| - 2] == form[|form| - 2] && code[start + |form| - 1] == form[|form| - 1]
  {
    var s := code[start..start + |form|];
    assert s[0] == form[0] && s[1] == form[1] && s[|form| - 2] == form[|form| - 2] && s[|form| - 1] == form[|form| - 1];
  }

  lemma ZeroField(code: seq<byte>, at: nat)
    requires at + 2 <= |code| && code[at] == 0 && code[at + 1] == 0
    ensures SignedN(GetN(code, at, 2), 2) == 0
  {
  }

  /** Where a transfer goes, through the position map. */
  function Moved(cuts: seq<Cut>, t: Transfer): Transfer {
    match t
    case Jump(target) => Jump(NewPos(cuts, target))
    case JumpIf(cond, target) => JumpIf(cond, NewPos(cuts, target))
    case NoTransfer => NoTransfer
  }

  /** The start and the end of a candidate, and what the narrowing knows of its label. */
  lemma CandidateMeans(p: N.Program, bounds: set<int>, i: nat)
    requires N.WellFormed(p, bounds) && i < |p.relocs| && N.Candidate(p, i)
    ensures var at := p.relocs[i].at; var end := at + 4;
      && N.NearStart(p.code, at) >= 0 && 0 < at && end <= |p.code| && LabelPosition(p.labelPos, p.relocs[i].lbl) in bounds
      && Ordered(N.CutsOf(p)) && 0 < NewPos(N.CutsOf(p), end) <= end
      && (forall b :: b in bounds ==> 0 <= b <= |p.code| && Boundary(N.CutsOf(p), b))
  {
    hide NewPos;
    var end := p.relocs[i].at + 4;
    N.CuttingIsSound(p, bounds);
    FromZero(N.CutsOf(p), end);
    assert IsInstruction(bounds, N.NearStart(p.code, p.relocs[i].at), end);
  }

  lemma FromZero(cuts: seq<Cut>, end: int)
    requires Ordered(cuts) && end > 0
    ensures Boundary(cuts, end) ==> 0 < NewPos(cuts, end) <= end
  {
    if Boundary(cuts, end) {
      SavedIsTotal(cuts, 0, |cuts|, 0);
      Contracts(cuts, 0, end);
      Injective(cuts, 0, end);
    }
  }

  lemma MarkedField(v: int)
    requires 0 <= v < HALF
    ensures Unmark(v - HALF) == v
  {
    QuotientUnique(v - HALF, HALF, -1, v);
  }

  /** A narrowed transfer goes to the image of its label. */
  lemma NarrowedGoesToLabel(p: N.Program, q: N.Program, bounds: set<int>, i: nat)
    requires N.WellFormed(p, bounds) && N.Narrowed(p, q) && i < |p.relocs| && N.Candidate(p, i) && |p.code| < HALF
    ensures |q.relocs| == |p.relocs| && N.NearStart(p.code, p.relocs[i].at) >= 0
    ensures var at' := Unmark(q.relocs[i].at);
      && at' == NewPos(N.CutsOf(p), p.relocs[i].at + 4) - 2 && at' + 2 <= |q.code| && 0 <= NewPos(N.CutsOf(p), N.NearStart(p.code, p.relocs[i].at))
      && LabelPosition(q.labelPos, q.relocs[i].lbl) == NewPos(N.CutsOf(p), LabelPosition(p.labelPos, p.relocs[i].lbl))
      && Decode(Resolved(q.code, at', 2, LabelPosition(q.labelPos, q.relocs[i].lbl)), NewPos(N.CutsOf(p), N.NearStart(p.code, p.relocs[i].at)))
         == To(p.code, p.relocs[i].at, NewPos(N.CutsOf(p), LabelPosition(p.labelPos, p.relocs[i].lbl)))
  {
    hide *;
    N.NarrowedTransfer(p, q, bounds, i);
    N.NarrowedFacts(p, q, bounds, i);
    CandidateMeans(p, bounds, i);
    var start, end := N.NearStart(p.code, p.relocs[i].at), p.relocs[i].at + 4;
    NarrowGoes(p, i, q.code, NewPos(N.CutsOf(p), start), LabelPosition(q.labelPos, q.relocs[i].lbl));
    MarkedField(NewPos(N.CutsOf(p), end) - 2);
  }

  /** So it is the transfer it was before narrowing, through the position map, exactly when its
      field held no addend; the narrow form starts from a zero field. */
  lemma NarrowedKeepsTargetIffNoAddend(p: N.Program, q: N.Program, bounds: set<int>, i: nat)
    requires N.WellFormed(p, bounds) && N.Narrowed(p, q) && i < |p.relocs| && N.Candidate(p, i) && |p.code| < HALF
    requires LabelPosition(p.labelPos, p.relocs[i].lbl) + SignedN(GetN(p.code, p.relocs[i].at, 4), 4) in bounds
    ensures |q.relocs| == |p.relocs| && 0 <= p.relocs[i].at && Unmark(q.relocs[i].at) + 2 <= |q.code|
    ensures 0 <= N.NearStart(p.code, p.relocs[i].at) && 0 <= NewPos(N.CutsOf(p), N.NearStart(p.code, p.relocs[i].at))
    ensures Decode(Resolved(q.code, Unmark(q.relocs[i].at), 2, LabelPosition(q.labelPos, q.relocs[i].lbl)),
                   NewPos(N.CutsOf(p), N.NearStart(p.code, p.relocs[i].at)))
         == Moved(N.CutsOf(p), Decode(Resolved(p.code, p.relocs[i].at, 4, LabelPosition(p.labelPos, p.relocs[i].lbl)),
                                      N.NearStart(p.code, p.relocs[i].at)))
      <==> SignedN(GetN(p.code, p.relocs[i].at, 4), 4) == 0
  {
    hide *;
    NarrowedGoesToLabel(p, q, bounds, i);
    CandidateMeans(p, bounds, i);
    var at, target := p.relocs[i].at, LabelPosition(p.labelPos, p.relocs[i].lbl);
    var addend := SignedN(GetN(p.code, at, 4), 4);
    WideGoes(p.code, at, target);
    SameTarget(N.CutsOf(p), p.code, at, target, target + addend);
  }

  lemma SameTarget(cuts: seq<Cut>, code: seq<byte>, at: int, a: int, b: int)
    requires N.NearStart(code, at) >= 0 && Ordered(cuts) && Boundary(cuts, a) && Boundary(cuts, b)
    ensures To(code, at, NewPos(cuts, a)) == Moved(cuts, To(code, at, b)) <==> a == b
  {
    hide NewPos;
    if a < b {
      Injective(cuts, a, b);
    } else if b < a {
      Injective(cuts, b, a);
    }
  }

  /** Both steps together: the transfer of a translated and narrowed program goes to where its label
      is then, and what was translated for that label has the original instructions exactly when those
      can be rewritten; Code16Stream.FinalStream reads the narrowed code there. */
  lemma TransferEndsAtItsLabel(p: N.Program, positions: seq<int>, q: N.Program, n: N.Program, i: nat)
    requires A.Translatable(p) && C.Mapped(p.code, |p.code|, positions) && A.Translated(p, positions, q)
    requires N.WellFormed(q, A.Bounds(p.code)) && N.Narrowed(q, n) && |q.code| < HALF
    requires i < |q.relocs| && N.Candidate(q, i) && 0 <= p.relocs[i].lbl < |p.labelPos| && p.labelPos[p.relocs[i].lbl] >= 0
    ensures |n.relocs| == |q.relocs| == |p.relocs| && q.relocs[i].lbl == n.relocs[i].lbl == p.relocs[i].lbl < |q.labelPos| == |p.labelPos|
    ensures Unmark(n.relocs[i].at) + 2 <= |n.code| && N.NearStart(q.code, q.relocs[i].at) >= 0
    ensures 0 <= NewPos(N.CutsOf(q), N.NearStart(q.code, q.relocs[i].at))
    ensures Decode(Resolved(n.code, Unmark(n.relocs[i].at), 2, LabelPosition(n.labelPos, n.relocs[i].lbl)),
                   NewPos(N.CutsOf(q), N.NearStart(q.code, q.relocs[i].at)))
         == To(q.code, q.relocs[i].at, NewPos(N.CutsOf(q), q.labelPos[p.relocs[i].lbl]))
    ensures var l := p.relocs[i].lbl;
      && p.labelPos[l] <= |p.code| && 0 <= q.labelPos[l] <= |q.code|
      && (C.SameInstructions(p.code, p.labelPos[l], q.code, q.labelPos[l]) <==> C.Rewritable(p.code, p.labelPos[l]))
  {
    hide N.Candidate, N.Narrowed, N.WellFormed, C.Mapped, A.Translatable, Decode, Resolved, NewPos, N.CutsOf, To, N.NearStart, C.Reaches, C.Output, Unmark;
    hide C.SameInstructions, C.Rewritable, A.Bounds;
    A.LabelKeepsInstructions(p, positions, q, p.relocs[i].lbl);
    NarrowedGoesToLabel(q, n, A.Bounds(p.code), i);
    N.NarrowedFacts(q, n, A.Bounds(p.code), i);
  }
}
