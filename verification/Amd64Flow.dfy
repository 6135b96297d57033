/** What relaxation followed by patching means for the program: the same instructions, and the
    same transfers of control to the same places. */
module Amd64Flow {
  import opened Bytes
  import opened Emitted
  import opened Shrink
  import opened Amd64Relax

  /** A direct transfer of control, with the code position it goes to. */
  datatype Transfer = Jump(target: int) | JumpIf(cond: int, target: int) | Call(target: int) | NoTransfer

  /** Decodes JMP, Jcc and CALL in their byte and 32-bit displacement forms. */
  function Decode(code: seq<byte>, at: nat): Transfer
  {
    if at + 2 <= |code| && code[at] == 0xeb then Jump(at + 2 + Signed8(code[at + 1]))
    else if at + 2 <= |code| && 0x70 <= code[at] <= 0x7f then JumpIf(code[at] - 0x70, at + 2 + Signed8(code[at + 1]))
    else if at + 5 <= |code| && code[at] == 0xe9 then Jump(at + 5 + Signed32(Get32(code, at + 1)))
    else if at + 5 <= |code| && code[at] == 0xe8 then Call(at + 5 + Signed32(Get32(code, at + 1)))
    else if at + 6 <= |code| && code[at] == 0x0f && 0x80 <= code[at + 1] <= 0x8f then
      JumpIf(code[at + 1] - 0x80, at + 6 + Signed32(Get32(code, at + 2)))
    else NoTransfer
  }

  /** The same transfer to the image of its target. */
  function Moved(cuts: seq<Cut>, t: Transfer): Transfer {
    match t
    case Jump(target) => Jump(NewPos(cuts, target))
    case JumpIf(cond, target) => JumpIf(cond, NewPos(cuts, target))
    case Call(target) => Call(NewPos(cuts, target))
    case NoTransfer => NoTransfer
  }

  // ---- Patching

  ghost predicate FieldsApart(relocs: seq<Reloc>) {
    && (forall i :: 0 <= i < |relocs| ==> 0 <= relocs[i].at)
    && (forall i, j :: 0 <= i < |relocs| && 0 <= j < |relocs| && i != j ==> Apart(relocs[i].at, relocs[j].at))
  }

  /** A byte outside every field is left alone. */
  lemma {:induction false} PatchedByte(code: seq<byte>, labelPos: seq<int>, relocs: seq<Reloc>, n: nat, at: nat)
    requires n <= |relocs| && at < |code| && (forall i :: 0 <= i < |relocs| ==> 0 <= relocs[i].at)
    requires forall i :: 0 <= i < n ==> !(relocs[i].at <= at < relocs[i].at + 4)
    ensures Patched(code, labelPos, relocs, n)[at] == code[at]
  {
    if n > 0 {
      PatchedByte(code, labelPos, relocs, n - 1, at);
    }
  }

  /** A four-byte field that none of the first n references overlaps. */
  lemma PatchedWord(code: seq<byte>, labelPos: seq<int>, relocs: seq<Reloc>, n: nat, at: nat)
    requires n <= |relocs| && at + 4 <= |code| && (forall i :: 0 <= i < |relocs| ==> 0 <= relocs[i].at)
    requires forall i :: 0 <= i < n ==> Apart(relocs[i].at, at)
    ensures Get32(Patched(code, labelPos, relocs, n), at) == Get32(code, at)
  {
    PatchedByte(code, labelPos, relocs, n, at);
    PatchedByte(code, labelPos, relocs, n, at + 1);
    PatchedByte(code, labelPos, relocs, n, at + 2);
    PatchedByte(code, labelPos, relocs, n, at + 3);
  }

  /** Each field ends up with its displacement on top of its addend. */
  lemma {:induction false} PatchedField(code: seq<byte>, labelPos: seq<int>, relocs: seq<Reloc>, n: nat, i: nat)
    requires i < n <= |relocs| && FieldsApart(relocs) && relocs[i].at + 4 <= |code|
    requires LabelPosition(labelPos, relocs[i].lbl) >= 0
    ensures Get32(Patched(code, labelPos, relocs, n), relocs[i].at)
         == (LabelPosition(labelPos, relocs[i].lbl) + Get32(code, relocs[i].at) - (relocs[i].at + 4)) % WORD
    decreases n
  {
    var before := Patched(code, labelPos, relocs, n - 1);
    var r := relocs[n - 1];
    if i == n - 1 {
      PatchedWord(code, labelPos, relocs, n - 1, r.at);
      GetPut32(before, r.at, LabelPosition(labelPos, r.lbl) + Get32(before, r.at) - (r.at + 4));
    } else {
      PatchedField(code, labelPos, relocs, n - 1, i);
      if r.at + 4 <= |code| && LabelPosition(labelPos, r.lbl) >= 0 {
        GetPut32(before, r.at, LabelPosition(labelPos, r.lbl) + Get32(before, r.at) - (r.at + 4));
        assert Apart(relocs[i].at, r.at);
      }
    }
  }

  // ---- Bytes outside the shortened branches

  /** Every byte outside a shortened branch appears at its mapped position. */
  lemma ByteKept(p: Program, q: Program, bounds: set<int>, at: nat)
    requires WellFormed(p, bounds) && Relaxed(p, q)
    requires at < |p.code| && Untouched(CutsOf(p), at)
    ensures 0 <= NewPos(CutsOf(p), at) < |q.code| && q.code[NewPos(CutsOf(p), at)] == p.code[at]
  {
    var cuts := CutsOf(p);
    var now := NewPos(cuts, at);
    RebuiltByte(p.code, cuts, ShortForms(p.code, Branches(p)), at);
    if IsShortField(p, |p.relocs|, now) {
      var i :| 0 <= i < |p.relocs| && Picked(p, i) && now == ShortField(p, i);
      NotShortField(p, bounds, at, i);
      assert false;
    }
  }

  lemma NotShortField(p: Program, bounds: set<int>, at: nat, i: nat)
    requires WellFormed(p, bounds) && Untouched(CutsOf(p), at)
    requires i < |p.relocs| && Picked(p, i)
    ensures NewPos(CutsOf(p), at) != ShortField(p, i)
  {
    var k := PickedCut(p, bounds, i);
    CuttingIsSound(p, bounds);
    PickedPlace(p, bounds, i);
    var cuts, end := CutsOf(p), p.relocs[i].at + 4;
    assert end in bounds by {
      assert IsInstruction(bounds, BranchWord(p.code, p.relocs[i].at) / 2, end);
    }
    var start := cuts[k].start;
    assert start in bounds by {
      assert IsInstruction(bounds, BranchWord(p.code, p.relocs[i].at) / 2, end);
    }
    assert Boundary(cuts, at);
    hide WellFormed, Picked, Branches, CutsOf, BranchWord, NewPos, Boundary, Ordered;
    AtCut(cuts, k, start, end);
    if at < start {
      Injective(cuts, at, start);
    } else {
      Contracts(cuts, end, at);
    }
  }

  /** A stretch of code with no shortened branch starting in it or reaching into it. */
  ghost predicate Clear(cuts: seq<Cut>, lo: int, hi: int) {
    forall k :: 0 <= k < |cuts| ==> hi <= cuts[k].start || cuts[k].start + cuts[k].size <= lo
  }

  lemma ClearIsRigid(cuts: seq<Cut>, lo: int, hi: int, at: int)
    requires Clear(cuts, lo, hi) && Ordered(cuts) && lo <= at <= hi
    ensures NewPos(cuts, at) == NewPos(cuts, lo) + (at - lo)
    ensures at < hi ==> Untouched(cuts, at)
    ensures Boundary(cuts, at)
  {
    Rigid(cuts, lo, at);
  }

  /** A reference field that is not a chosen branch's own lies outside every shortened branch. */
  lemma FieldIsClear(p: Program, bounds: set<int>, at: int)
    requires WellFormed(p, bounds) && Inside(bounds, at, at + 4)
    requires forall i :: 0 <= i < |p.relocs| && Picked(p, i) ==> Apart(at, p.relocs[i].at)
    ensures Clear(CutsOf(p), at, at + 4)
  {
    forall k | 0 <= k < |CutsOf(p)|
      ensures at + 4 <= CutsOf(p)[k].start || CutsOf(p)[k].start + CutsOf(p)[k].size <= at
    {
      var i := PickOwner(p, |p.relocs|, k);
      assert IsInstruction(bounds, CutsOf(p)[k].start, p.relocs[i].at + 4);
    }
  }

  /** An instruction whose own reference is not chosen lies outside every shortened branch. */
  lemma InstructionIsClear(p: Program, bounds: set<int>, i: nat, start: nat)
    requires WellFormed(p, bounds) && i < |p.relocs| && !Picked(p, i)
    requires start < p.relocs[i].at && IsInstruction(bounds, start, p.relocs[i].at + 4)
    ensures Clear(CutsOf(p), start, p.relocs[i].at + 4)
  {
    forall k | 0 <= k < |CutsOf(p)|
      ensures p.relocs[i].at + 4 <= CutsOf(p)[k].start || CutsOf(p)[k].start + CutsOf(p)[k].size <= start
    {
      var j := PickOwner(p, |p.relocs|, k);
      assert IsInstruction(bounds, CutsOf(p)[k].start, p.relocs[j].at + 4);
      assert Apart(p.relocs[i].at, p.relocs[j].at);
    }
  }

  // ---- The references that stay

  lemma {:induction false} KeptIndex(p: Program, n: nat, i: nat) returns (j: nat)
    requires FieldsIn(p) && i < n <= |p.relocs| && !Picked(p, i)
    ensures j < |Kept(p, n)| && Kept(p, n)[j] == Reloc(NewPos(CutsOf(p), p.relocs[i].at), p.relocs[i].lbl)
    decreases n
  {
    if i == n - 1 {
      j := |Kept(p, n - 1)|;
    } else {
      j := KeptIndex(p, n - 1, i);
    }
  }

  lemma {:induction false} KeptOwner(p: Program, n: nat, j: nat) returns (i: nat)
    requires FieldsIn(p) && n <= |p.relocs| && j < |Kept(p, n)|
    ensures i < n && !Picked(p, i)
    ensures Kept(p, n)[j] == Reloc(NewPos(CutsOf(p), p.relocs[i].at), p.relocs[i].lbl)
    ensures |Kept(p, i)| == j
  {
    if j < |Kept(p, n - 1)| {
      i := KeptOwner(p, n - 1, j);
    } else {
      i := n - 1;
    }
  }

  /** A kept reference field moves with its four bytes. */
  lemma KeptField(p: Program, bounds: set<int>, i: nat)
    requires WellFormed(p, bounds) && i < |p.relocs| && !Picked(p, i)
    ensures Clear(CutsOf(p), p.relocs[i].at, p.relocs[i].at + 4) && Ordered(CutsOf(p))
    ensures NewPos(CutsOf(p), p.relocs[i].at + 4) == NewPos(CutsOf(p), p.relocs[i].at) + 4
    ensures Boundary(CutsOf(p), p.relocs[i].at) && Boundary(CutsOf(p), p.relocs[i].at + 4)
    ensures 0 <= NewPos(CutsOf(p), p.relocs[i].at)
  {
    var at := p.relocs[i].at;
    FieldIsClear(p, bounds, at);
    CuttingIsSound(p, bounds);
    ClearIsRigid(CutsOf(p), at, at + 4, at);
    ClearIsRigid(CutsOf(p), at, at + 4, at + 4);
    ZeroStays(CutsOf(p));
    Contracts(CutsOf(p), 0, at);
  }

  lemma KeptApart(p: Program, bounds: set<int>, i: nat, j: nat)
    requires WellFormed(p, bounds) && i < |p.relocs| && j < |p.relocs| && i != j && !Picked(p, i) && !Picked(p, j)
    ensures Apart(NewPos(CutsOf(p), p.relocs[i].at), NewPos(CutsOf(p), p.relocs[j].at))
  {
    KeptField(p, bounds, i);
    KeptField(p, bounds, j);
    assert Apart(p.relocs[i].at, p.relocs[j].at);
    if p.relocs[i].at + 4 <= p.relocs[j].at {
      Contracts(CutsOf(p), p.relocs[i].at + 4, p.relocs[j].at);
    } else {
      Contracts(CutsOf(p), p.relocs[j].at + 4, p.relocs[i].at);
    }
  }

  /** The references that stay still name distinct fields. */
  lemma KeptFieldsApart(p: Program, bounds: set<int>)
    requires WellFormed(p, bounds)
    ensures FieldsApart(Kept(p, |p.relocs|))
  {
    var kept := Kept(p, |p.relocs|);
    forall i | 0 <= i < |kept|
      ensures 0 <= kept[i].at
    {
      var a := KeptOwner(p, |p.relocs|, i);
      KeptField(p, bounds, a);
    }
    forall i, j | 0 <= i < |kept| && 0 <= j < |kept| && i != j
      ensures Apart(kept[i].at, kept[j].at)
    {
      var a := KeptOwner(p, |p.relocs|, i);
      var b := KeptOwner(p, |p.relocs|, j);
      KeptApart(p, bounds, a, b);
    }
  }

  lemma ClearByte(p: Program, q: Program, bounds: set<int>, lo: nat, hi: nat, at: nat)
    requires WellFormed(p, bounds) && Relaxed(p, q)
    requires lo <= at < hi <= |p.code| && Clear(CutsOf(p), lo, hi)
    ensures NewPos(CutsOf(p), at) == NewPos(CutsOf(p), lo) + (at - lo)
    ensures 0 <= NewPos(CutsOf(p), at) < |q.code| && q.code[NewPos(CutsOf(p), at)] == p.code[at]
  {
    CuttingIsSound(p, bounds);
    hide WellFormed, Relaxed, NewPos, Clear, Ordered, Untouched, CutsOf;
    ClearIsRigid(CutsOf(p), lo, hi, at);
    ByteKept(p, q, bounds, at);
  }

  /** A kept field still holds its addend, inside the new code. */
  lemma KeptWord(p: Program, q: Program, bounds: set<int>, at: nat)
    requires WellFormed(p, bounds) && Relaxed(p, q)
    requires at + 4 <= |p.code| && Clear(CutsOf(p), at, at + 4)
    ensures 0 <= NewPos(CutsOf(p), at) && NewPos(CutsOf(p), at) + 4 <= |q.code|
    ensures Get32(q.code, NewPos(CutsOf(p), at)) == Get32(p.code, at)
  {
    hide WellFormed, Relaxed, NewPos, Clear, CutsOf;
    ClearByte(p, q, bounds, at, at + 4, at);
    ClearByte(p, q, bounds, at, at + 4, at + 1);
    ClearByte(p, q, bounds, at, at + 4, at + 2);
    ClearByte(p, q, bounds, at, at + 4, at + 3);
  }

  lemma RelaxedFacts(p: Program, q: Program, bounds: set<int>)
    requires WellFormed(p, bounds) && Relaxed(p, q)
    ensures FieldsIn(p) && q.relocs == Kept(p, |p.relocs|)
    ensures forall i :: 0 <= i < |p.relocs| ==> 0 <= p.relocs[i].at && p.relocs[i].at + 4 <= |p.code| < CODE_LIMIT
    ensures MappedLabels(CutsOf(p), p.labelPos, |p.labelPos|, q.labelPos)
  {
  }

  /** After final patching a kept field holds the distance to the image of its label. */
  lemma KeptFieldPatched(p: Program, q: Program, bounds: set<int>, i: nat)
    requires WellFormed(p, bounds) && Relaxed(p, q)
    requires i < |p.relocs| && !Picked(p, i) && LabelPosition(p.labelPos, p.relocs[i].lbl) >= 0
    ensures FieldsApart(q.relocs)
    ensures 0 <= NewPos(CutsOf(p), p.relocs[i].at) && NewPos(CutsOf(p), p.relocs[i].at) + 4 <= |q.code|
    ensures Get32(Patched(q.code, q.labelPos, q.relocs, |q.relocs|), NewPos(CutsOf(p), p.relocs[i].at))
         == (NewPos(CutsOf(p), LabelPosition(p.labelPos, p.relocs[i].lbl)) + Get32(p.code, p.relocs[i].at)
              - (NewPos(CutsOf(p), p.relocs[i].at) + 4)) % WORD
  {
    hide *;
    RelaxedFacts(p, q, bounds);
    KeptField(p, bounds, i);
    KeptWord(p, q, bounds, p.relocs[i].at);
    KeptFieldsApart(p, bounds);
    LabelMoves(p, bounds, q.labelPos, p.relocs[i].lbl);
    var j := KeptIndex(p, |p.relocs|, i);
    PatchedField(q.code, q.labelPos, q.relocs, |q.relocs|, j);
  }

  // ---- The shortened branches

  /** Instruction bounds of a chosen branch, before and after. */
  lemma PickedInstruction(p: Program, bounds: set<int>, i: nat) returns (k: nat, start: nat, end: nat)
    requires WellFormed(p, bounds) && i < |p.relocs| && Picked(p, i)
    ensures FieldsIn(p) && k < |CutsOf(p)| && start == CutsOf(p)[k].start && end == CutsOf(p)[k].start + CutsOf(p)[k].size
    ensures start == BranchWord(p.code, p.relocs[i].at) / 2 && end == p.relocs[i].at + 4 <= |p.code|
    ensures k < |Branches(p)| && Branches(p)[k] == BranchWord(p.code, p.relocs[i].at)
    ensures start in bounds && end in bounds && Ordered(CutsOf(p))
    ensures Boundary(CutsOf(p), start) && Boundary(CutsOf(p), end)
    ensures NewPos(CutsOf(p), end) == NewPos(CutsOf(p), start) + 2
    ensures ShortField(p, i) == NewPos(CutsOf(p), start) + 1
    ensures 0 <= NewPos(CutsOf(p), start)
  {
    k := PickedCut(p, bounds, i);
    CuttingIsSound(p, bounds);
    start, end := CutsOf(p)[k].start, CutsOf(p)[k].start + CutsOf(p)[k].size;
    assert IsInstruction(bounds, start, end);
    hide WellFormed, Picked, NewPos, Ordered, CutsOf;
    AtCut(CutsOf(p), k, start, end);
    ZeroStays(CutsOf(p));
    Contracts(CutsOf(p), 0, start);
  }

  /** The opcode byte of a short branch is nobody's displacement byte. */
  lemma OpcodeNotShortField(p: Program, bounds: set<int>, i: nat, j: nat)
    requires WellFormed(p, bounds) && i < |p.relocs| && j < |p.relocs| && Picked(p, i) && Picked(p, j)
    ensures NewPos(CutsOf(p), BranchWord(p.code, p.relocs[i].at) / 2) != ShortField(p, j)
  {
    hide *;
    var k, start, end := PickedInstruction(p, bounds, i);
    var l, start', end' := PickedInstruction(p, bounds, j);
    if start < start' {
      Contracts(CutsOf(p), start, start');
    } else if start' < start {
      LaterStartsAfter(CutsOf(p), l, start', end', start);
      Contracts(CutsOf(p), end', start);
    }
  }

  lemma LaterStartsAfter(cuts: seq<Cut>, l: nat, start': int, end': int, start: int)
    requires Ordered(cuts) && l < |cuts| && cuts[l].start == start' && end' == start' + cuts[l].size
    requires start' < start && Boundary(cuts, start)
    ensures end' <= start
  {
  }

  /** The two bytes of a short branch, before final patching. */
  lemma ShortBytes(p: Program, q: Program, bounds: set<int>, i: nat)
    requires WellFormed(p, bounds) && Relaxed(p, q) && i < |p.relocs| && Picked(p, i)
    ensures ShortField(p, i) == NewPos(CutsOf(p), BranchWord(p.code, p.relocs[i].at) / 2) + 1
    ensures 1 <= ShortField(p, i) < |q.code| && IsBranch(p.code, BranchWord(p.code, p.relocs[i].at))
    ensures q.code[ShortField(p, i) - 1] == ShortOpcode(p.code, BranchWord(p.code, p.relocs[i].at))
    ensures q.code[ShortField(p, i)] == Byte(ShortDisplacement(p, i))
  {
    hide Picked, IsShortField, Filled, Compacted, NewPos, MappedLabels, Kept, MappedAbsolute, ShortDisplacement;
    var k := PickedCut(p, bounds, i);
    PickedPlace(p, bounds, i);
    ShortFormAt(p.code, Branches(p), k, Branches(p)[k] / 2);
    NoFieldIsOpcode(p, bounds, i);
    FilledAt(p, Compacted(p.code, Branches(p)), q.code, i, ShortField(p, i) - 1);
  }

  lemma FilledAt(p: Program, compacted: seq<byte>, now: seq<byte>, i: nat, at: int)
    requires FieldsIn(p) && Filled(p, |p.relocs|, compacted, now) && i < |p.relocs| && Picked(p, i)
    requires !IsShortField(p, |p.relocs|, at) && 0 <= at < |compacted|
    ensures |now| == |compacted| && 0 <= ShortField(p, i) < |now| && now[ShortField(p, i)] == Byte(ShortDisplacement(p, i))
    ensures now[at] == compacted[at]
  {
    hide ShortField, ShortDisplacement, IsShortField, Picked;
  }

  lemma NoFieldIsOpcode(p: Program, bounds: set<int>, i: nat)
    requires WellFormed(p, bounds) && i < |p.relocs| && Picked(p, i)
    ensures !IsShortField(p, |p.relocs|, NewPos(CutsOf(p), BranchWord(p.code, p.relocs[i].at) / 2))
  {
    hide NewPos, CutsOf, Inside;
    forall j | 0 <= j < |p.relocs| && Picked(p, j)
      ensures NewPos(CutsOf(p), BranchWord(p.code, p.relocs[i].at) / 2) != ShortField(p, j)
    {
      OpcodeNotShortField(p, bounds, i, j);
    }
  }

  /** No kept field overlaps a short branch. */
  lemma KeptOffShort(p: Program, bounds: set<int>, i: nat, j: nat)
    requires WellFormed(p, bounds) && i < |p.relocs| && j < |p.relocs| && Picked(p, i) && !Picked(p, j)
    ensures NewPos(CutsOf(p), p.relocs[j].at) + 4 < ShortField(p, i) || ShortField(p, i) < NewPos(CutsOf(p), p.relocs[j].at)
  {
    hide *;
    var k, start, end := PickedInstruction(p, bounds, i);
    KeptField(p, bounds, j);
    ClearOf(CutsOf(p), p.relocs[j].at, p.relocs[j].at + 4, k);
    if p.relocs[j].at + 4 <= start {
      Contracts(CutsOf(p), p.relocs[j].at + 4, start);
    } else {
      Contracts(CutsOf(p), end, p.relocs[j].at);
    }
  }

  lemma ClearOf(cuts: seq<Cut>, lo: int, hi: int, k: nat)
    requires Clear(cuts, lo, hi) && k < |cuts|
    ensures hi <= cuts[k].start || cuts[k].start + cuts[k].size <= lo
  {
  }

  /** Final patching leaves the short branches alone. */
  lemma ShortBytesPatched(p: Program, q: Program, bounds: set<int>, i: nat)
    requires WellFormed(p, bounds) && Relaxed(p, q) && i < |p.relocs| && Picked(p, i)
    ensures FieldsApart(q.relocs) && 1 <= ShortField(p, i) < |q.code|
    ensures Patched(q.code, q.labelPos, q.relocs, |q.relocs|)[ShortField(p, i) - 1] == q.code[ShortField(p, i) - 1]
    ensures Patched(q.code, q.labelPos, q.relocs, |q.relocs|)[ShortField(p, i)] == q.code[ShortField(p, i)]
  {
    hide WellFormed, Relaxed, Picked, NewPos, CutsOf, ShortField, Patched;
    RelaxedFacts(p, q, bounds);
    KeptFieldsApart(p, bounds);
    ShortBytes(p, q, bounds, i);
    var at := ShortField(p, i);
    forall j | 0 <= j < |q.relocs|
      ensures !(q.relocs[j].at <= at < q.relocs[j].at + 4) && !(q.relocs[j].at <= at - 1 < q.relocs[j].at + 4)
    {
      var a := KeptOwner(p, |p.relocs|, j);
      KeptOffShort(p, bounds, i, a);
    }
    PatchedByte(q.code, q.labelPos, q.relocs, |q.relocs|, at);
    PatchedByte(q.code, q.labelPos, q.relocs, |q.relocs|, at - 1);
  }

  // ---- Control flow

  /** A near JMP, Jcc or CALL at `start` whose displacement field is at `at`. */
  predicate NearTransfer(code: seq<byte>, start: nat, at: nat)
    requires at + 4 <= |code|
  {
    || (at == start + 1 && (code[start] == 0xe9 || code[start] == 0xe8))
    || (at == start + 2 && code[start] == 0x0f && 0x80 <= code[start + 1] <= 0x8f)
  }

  /** The transfer a near instruction makes with a given target. */
  function NearForm(code: seq<byte>, start: nat, at: nat, target: int): Transfer
    requires at + 4 <= |code| && NearTransfer(code, start, at)
  {
    if code[start] == 0xe9 then Jump(target)
    else if code[start] == 0xe8 then Call(target)
    else JumpIf(code[start + 1] - 0x80, target)
  }

  lemma DecodeNear(code: seq<byte>, start: nat, at: nat, target: int)
    requires at + 4 <= |code| < CODE_LIMIT && NearTransfer(code, start, at)
    requires Get32(code, at) == (target - (at + 4)) % WORD && -HALF <= target - (at + 4) < HALF
    ensures Decode(code, start) == NearForm(code, start, at, target)
  {
    assert Signed32(Get32(code, at)) == target - (at + 4);
  }

  /** In the program as emitted, the transfer of a reference goes to its label. */
  lemma TargetBefore(p: Program, bounds: set<int>, i: nat, start: nat)
    requires WellFormed(p, bounds) && i < |p.relocs| && LabelPosition(p.labelPos, p.relocs[i].lbl) >= 0
    requires NearTransfer(p.code, start, p.relocs[i].at) && IsInstruction(bounds, start, p.relocs[i].at + 4)
    requires Get32(p.code, p.relocs[i].at) == 0
    ensures FieldsApart(p.relocs)
    ensures Decode(Patched(p.code, p.labelPos, p.relocs, |p.relocs|), start)
         == NearForm(p.code, start, p.relocs[i].at, LabelPosition(p.labelPos, p.relocs[i].lbl))
  {
    var at, target := p.relocs[i].at, LabelPosition(p.labelPos, p.relocs[i].lbl);
    var now := Patched(p.code, p.labelPos, p.relocs, |p.relocs|);
    assert target in bounds;
    PatchedField(p.code, p.labelPos, p.relocs, |p.relocs|, i);
    forall b | start <= b < at
      ensures now[b] == p.code[b]
    {
      OpcodeOffFields(p, bounds, i, start, b);
      PatchedByte(p.code, p.labelPos, p.relocs, |p.relocs|, b);
    }
    hide WellFormed, Patched, Get32, Decode;
    DecodeNear(now, start, at, target);
  }

  /** Every other field lies before or after the instruction of a reference. */
  lemma OtherField(p: Program, bounds: set<int>, i: nat, start: nat, j: nat)
    requires WellFormed(p, bounds) && i < |p.relocs| && j < |p.relocs| && i != j
    requires start < p.relocs[i].at <= start + 2 && IsInstruction(bounds, start, p.relocs[i].at + 4)
    ensures p.relocs[j].at + 4 <= start || p.relocs[i].at + 4 <= p.relocs[j].at
  {
    assert Apart(p.relocs[i].at, p.relocs[j].at);
    assert Inside(bounds, p.relocs[j].at, p.relocs[j].at + 4);
  }

  /** The opcode bytes in front of a reference field belong to no field. */
  lemma OpcodeOffFields(p: Program, bounds: set<int>, i: nat, start: nat, at: nat)
    requires WellFormed(p, bounds) && i < |p.relocs|
    requires start <= at < p.relocs[i].at <= start + 2 && IsInstruction(bounds, start, p.relocs[i].at + 4)
    ensures forall j :: 0 <= j < |p.relocs| ==> !(p.relocs[j].at <= at < p.relocs[j].at + 4)
  {
    forall j | 0 <= j < |p.relocs|
      ensures !(p.relocs[j].at <= at < p.relocs[j].at + 4)
    {
      if j != i {
        OtherField(p, bounds, i, start, j);
      }
    }
  }

  lemma DecodeShort(was: seq<byte>, w: nat, code: seq<byte>, at: nat, d: int)
    requires IsBranch(was, w) && at + 2 <= |code| && FitsByte(d)
    requires code[at] == ShortOpcode(was, w) && code[at + 1] == Byte(d)
    ensures NearTransfer(was, w / 2, w / 2 + 1 + w % 2)
    ensures Decode(code, at) == NearForm(was, w / 2, w / 2 + 1 + w % 2, at + 2 + d)
  {
    assert Signed8(code[at + 1]) == d;
  }

  /** After the pass a short branch goes to the image of its label, whatever addend it had. */
  lemma ShortTarget(p: Program, q: Program, bounds: set<int>, i: nat)
    requires WellFormed(p, bounds) && Relaxed(p, q) && i < |p.relocs| && Picked(p, i)
    ensures FieldsApart(q.relocs) && BranchWord(p.code, p.relocs[i].at) >= 0
    ensures var start := BranchWord(p.code, p.relocs[i].at) / 2;
      && NearTransfer(p.code, start, p.relocs[i].at)
      && 0 <= NewPos(CutsOf(p), start)
      && Decode(Patched(q.code, q.labelPos, q.relocs, |q.relocs|), NewPos(CutsOf(p), start))
         == NearForm(p.code, start, p.relocs[i].at, NewPos(CutsOf(p), LabelPosition(p.labelPos, p.relocs[i].lbl)))
  {
    hide *;
    PickedFacts(p, bounds, i);
    ShortBytes(p, q, bounds, i);
    ShortBytesPatched(p, q, bounds, i);
    FlaggedBranchFits(p, bounds, i);
    FieldsApartMeans(q.relocs);
    var now := Patched(q.code, q.labelPos, q.relocs, |q.relocs|);
    DecodeShort(p.code, BranchWord(p.code, p.relocs[i].at), now, ShortField(p, i) - 1, ShortDisplacement(p, i));
  }

  lemma PickedFacts(p: Program, bounds: set<int>, i: nat)
    requires WellFormed(p, bounds) && i < |p.relocs| && Picked(p, i)
    ensures FieldsIn(p) && 0 <= p.relocs[i].at && p.relocs[i].at + 4 <= |p.code|
    ensures BranchWord(p.code, p.relocs[i].at) >= 0
    ensures IsInstruction(bounds, BranchWord(p.code, p.relocs[i].at) / 2, p.relocs[i].at + 4)
    ensures ShortDisplacement(p, i) == NewPos(CutsOf(p), LabelPosition(p.labelPos, p.relocs[i].lbl)) - (ShortField(p, i) + 1)
  {
  }

  /** The opcode bytes of a near transfer that stays are kept, and final patching does not touch them. */
  lemma OpcodeKept(p: Program, q: Program, bounds: set<int>, i: nat, start: nat, at: nat)
    requires WellFormed(p, bounds) && Relaxed(p, q) && i < |p.relocs| && !Picked(p, i)
    requires start <= at < p.relocs[i].at <= start + 2 && IsInstruction(bounds, start, p.relocs[i].at + 4)
    ensures FieldsApart(q.relocs)
    ensures NewPos(CutsOf(p), at) == NewPos(CutsOf(p), start) + (at - start)
    ensures NewPos(CutsOf(p), p.relocs[i].at) == NewPos(CutsOf(p), start) + (p.relocs[i].at - start)
    ensures 0 <= NewPos(CutsOf(p), start) && 0 <= NewPos(CutsOf(p), at) < |q.code|
    ensures Patched(q.code, q.labelPos, q.relocs, |q.relocs|)[NewPos(CutsOf(p), at)] == p.code[at]
  {
    hide *;
    RelaxedFacts(p, q, bounds);
    CuttingIsSound(p, bounds);
    InstructionIsClear(p, bounds, i, start);
    var end := p.relocs[i].at + 4;
    ClearByte(p, q, bounds, start, end, start);
    ClearByte(p, q, bounds, start, end, at);
    ClearByte(p, q, bounds, start, end, p.relocs[i].at);
    KeptFieldsApart(p, bounds);
    forall j | 0 <= j < |q.relocs|
      ensures !(q.relocs[j].at <= NewPos(CutsOf(p), at) < q.relocs[j].at + 4)
    {
      var a := KeptOwner(p, |p.relocs|, j);
      KeptOffOpcode(p, bounds, i, start, at, a);
    }
    FieldsApartMeans(q.relocs);
    PatchedByte(q.code, q.labelPos, q.relocs, |q.relocs|, NewPos(CutsOf(p), at));
  }

  lemma FieldsApartMeans(relocs: seq<Reloc>)
    requires FieldsApart(relocs)
    ensures forall i :: 0 <= i < |relocs| ==> 0 <= relocs[i].at
  {
  }

  lemma KeptOffOpcode(p: Program, bounds: set<int>, i: nat, start: nat, at: nat, j: nat)
    requires WellFormed(p, bounds) && i < |p.relocs| && !Picked(p, i) && j < |p.relocs| && !Picked(p, j)
    requires start <= at < p.relocs[i].at <= start + 2 && IsInstruction(bounds, start, p.relocs[i].at + 4)
    ensures !(NewPos(CutsOf(p), p.relocs[j].at) <= NewPos(CutsOf(p), at) < NewPos(CutsOf(p), p.relocs[j].at) + 4)
  {
    var cuts, end := CutsOf(p), p.relocs[i].at + 4;
    InstructionIsClear(p, bounds, i, start);
    CuttingIsSound(p, bounds);
    KeptField(p, bounds, j);
    var other := p.relocs[j].at;
    assert i != j ==> other + 4 <= start || end <= other by {
      if i != j {
        OtherField(p, bounds, i, start, j);
      }
    }
    hide WellFormed, Picked, NewPos, CutsOf, Ordered, Clear, Boundary;
    ClearIsRigid(cuts, start, end, start);
    ClearIsRigid(cuts, start, end, at);
    ClearIsRigid(cuts, start, end, end);
    ClearIsRigid(cuts, start, end, end - 4);
    if i != j {
      if other + 4 <= start {
        Contracts(cuts, other + 4, start);
      } else {
        Contracts(cuts, end, other);
      }
    }
  }

  lemma NearFacts(p: Program, bounds: set<int>, i: nat, start: nat)
    requires WellFormed(p, bounds) && i < |p.relocs| && LabelPosition(p.labelPos, p.relocs[i].lbl) >= 0
    requires NearTransfer(p.code, start, p.relocs[i].at)
    ensures FieldsIn(p) && LabelPosition(p.labelPos, p.relocs[i].lbl) in bounds
    ensures start < p.relocs[i].at <= start + 2 && p.relocs[i].at + 4 <= |p.code|
  {
  }

  lemma SameNearForm(was: seq<byte>, start: nat, at: nat, now: seq<byte>, start': nat, target: int)
    requires at + 4 <= |was| && NearTransfer(was, start, at) && start' + (at - start) + 4 <= |now|
    requires now[start'] == was[start] && now[start' + (at - start) - 1] == was[at - 1]
    ensures start < at <= start + 2 && NearTransfer(now, start', start' + (at - start))
    ensures NearForm(now, start', start' + (at - start), target) == NearForm(was, start, at, target)
  {
  }

  /** After the pass a near transfer that stays goes to the image of its label. */
  lemma NearTargetKept(p: Program, q: Program, bounds: set<int>, i: nat, start: nat)
    requires WellFormed(p, bounds) && Relaxed(p, q) && i < |p.relocs| && !Picked(p, i)
    requires LabelPosition(p.labelPos, p.relocs[i].lbl) >= 0
    requires NearTransfer(p.code, start, p.relocs[i].at) && IsInstruction(bounds, start, p.relocs[i].at + 4)
    requires Get32(p.code, p.relocs[i].at) == 0
    ensures FieldsApart(q.relocs) && 0 <= NewPos(CutsOf(p), start)
    ensures Decode(Patched(q.code, q.labelPos, q.relocs, |q.relocs|), NewPos(CutsOf(p), start))
         == NearForm(p.code, start, p.relocs[i].at, NewPos(CutsOf(p), LabelPosition(p.labelPos, p.relocs[i].lbl)))
  {
    hide *;
    var at, target := p.relocs[i].at, LabelPosition(p.labelPos, p.relocs[i].lbl);
    NearFacts(p, bounds, i, start);
    KeptFieldPatched(p, q, bounds, i);
    FieldsApartMeans(q.relocs);
    OpcodeKept(p, q, bounds, i, start, start);
    OpcodeKept(p, q, bounds, i, start, at - 1);
    CodeStaysSmall(p, q, bounds, target, NewPos(CutsOf(p), at));
    var now := Patched(q.code, q.labelPos, q.relocs, |q.relocs|);
    SameNearForm(p.code, start, at, now, NewPos(CutsOf(p), start), NewPos(CutsOf(p), target));
    DecodeNear(now, NewPos(CutsOf(p), start), NewPos(CutsOf(p), at), NewPos(CutsOf(p), target));
  }

  /** New positions of labels and fields are still small enough for a 32-bit displacement. */
  lemma CodeStaysSmall(p: Program, q: Program, bounds: set<int>, target: int, at: nat)
    requires WellFormed(p, bounds) && Relaxed(p, q) && target in bounds && at + 4 <= |q.code|
    ensures |q.code| < CODE_LIMIT && -HALF <= NewPos(CutsOf(p), target) - (at + 4) < HALF
  {
    var cuts := CutsOf(p);
    CuttingIsSound(p, bounds);
    RebuiltLength(p.code, cuts, ShortForms(p.code, Branches(p)));
    ZeroStays(cuts);
    Contracts(cuts, 0, target);
    Contracts(cuts, 0, |p.code|);
  }

  /** Relaxation preserves the control flow of references: every JMP, Jcc and CALL that has one is in
      the relaxed and patched code the one of the patched original code, and goes to the image of the
      original target. Those without one are the subject of FixedTransferKeepsTargetIff. */
  lemma ControlFlowPreserved(p: Program, q: Program, bounds: set<int>, i: nat, start: nat)
    requires WellFormed(p, bounds) && Relaxed(p, q) && i < |p.relocs| && LabelPosition(p.labelPos, p.relocs[i].lbl) >= 0
    requires NearTransfer(p.code, start, p.relocs[i].at) && IsInstruction(bounds, start, p.relocs[i].at + 4)
    requires Get32(p.code, p.relocs[i].at) == 0
    ensures FieldsApart(p.relocs) && FieldsApart(q.relocs) && 0 <= NewPos(CutsOf(p), start)
    ensures Decode(Patched(p.code, p.labelPos, p.relocs, |p.relocs|), start) != NoTransfer
    ensures Decode(Patched(q.code, q.labelPos, q.relocs, |q.relocs|), NewPos(CutsOf(p), start))
         == Moved(CutsOf(p), Decode(Patched(p.code, p.labelPos, p.relocs, |p.relocs|), start))
  {
    hide *;
    NearFacts(p, bounds, i, start);
    TargetBefore(p, bounds, i, start);
    FieldsApartMeans(p.relocs);
    MovedNear(CutsOf(p), p.code, start, p.relocs[i].at, LabelPosition(p.labelPos, p.relocs[i].lbl));
    if Picked(p, i) {
      StartIsUnique(p, bounds, i, start);
      ShortTarget(p, q, bounds, i);
    } else {
      NearTargetKept(p, q, bounds, i, start);
    }
  }

  lemma MovedNear(cuts: seq<Cut>, code: seq<byte>, start: nat, at: nat, target: int)
    requires at + 4 <= |code| && NearTransfer(code, start, at)
    ensures NearForm(code, start, at, target) != NoTransfer
    ensures Moved(cuts, NearForm(code, start, at, target)) == NearForm(code, start, at, NewPos(cuts, target))
  {
  }

  lemma StartIsUnique(p: Program, bounds: set<int>, i: nat, start: nat)
    requires WellFormed(p, bounds) && i < |p.relocs| && Picked(p, i)
    requires IsInstruction(bounds, start, p.relocs[i].at + 4) && start < p.relocs[i].at
    ensures start == BranchWord(p.code, p.relocs[i].at) / 2
  {
    assert IsInstruction(bounds, BranchWord(p.code, p.relocs[i].at) / 2, p.relocs[i].at + 4);
  }

  lemma PickedLabel(p: Program, bounds: set<int>, i: nat)
    requires WellFormed(p, bounds) && i < |p.relocs| && Picked(p, i)
    ensures LabelPosition(p.labelPos, p.relocs[i].lbl) in bounds
  {
  }

  /** The addend of a shortened branch is dropped. So with a non-zero addend, and a target that
      is still an instruction boundary, the branch goes elsewhere; with a zero one it does not. */
  lemma ShortBranchKeepsTargetIffNoAddend(p: Program, q: Program, bounds: set<int>, i: nat, target: int)
    requires WellFormed(p, bounds) && Relaxed(p, q) && i < |p.relocs| && Picked(p, i)
    requires target == LabelPosition(p.labelPos, p.relocs[i].lbl) + Signed32(Get32(p.code, p.relocs[i].at)) && target in bounds
    ensures FieldsApart(q.relocs) && 0 <= NewPos(CutsOf(p), BranchWord(p.code, p.relocs[i].at) / 2)
    ensures NearTransfer(p.code, BranchWord(p.code, p.relocs[i].at) / 2, p.relocs[i].at)
    ensures
      Decode(Patched(q.code, q.labelPos, q.relocs, |q.relocs|), NewPos(CutsOf(p), BranchWord(p.code, p.relocs[i].at) / 2))
        == Moved(CutsOf(p), NearForm(p.code, BranchWord(p.code, p.relocs[i].at) / 2, p.relocs[i].at, target))
      <==> Get32(p.code, p.relocs[i].at) == 0
  {
    hide Relaxed, Picked, NewPos, CutsOf, Patched, Get32, Decode, Boundary, Ordered, BranchWord, NearTransfer;
    var cuts, lbl := CutsOf(p), LabelPosition(p.labelPos, p.relocs[i].lbl);
    ShortTarget(p, q, bounds, i);
    CuttingIsSound(p, bounds);
    PickedLabel(p, bounds, i);
    assert lbl == target <==> Get32(p.code, p.relocs[i].at) == 0;
    assert Boundary(cuts, lbl) && Boundary(cuts, target);
    if lbl < target {
      Injective(cuts, lbl, target);
    } else if target < lbl {
      Injective(cuts, target, lbl);
    }
  }

  /** The addend is not there any more: a jump to the instruction behind the one at its label
      becomes a jump to the label. */
  lemma DroppedAddendMisses(q: Program)
    requires Relaxed(JumpPastLabel, q)
    ensures WellFormed(JumpPastLabel, {0, 5, 6, 7}) && FieldsApart(q.relocs)
    ensures Decode(Patched(q.code, q.labelPos, q.relocs, |q.relocs|), 0) != Moved(CutsOf(JumpPastLabel), NearForm(JumpPastLabel.code, 0, 1, 6))
  {
    JumpPastLabelIsShort();
    hide Relaxed, Patched, Decode, Picked, Picks;
    FirstStays(CutsOf(JumpPastLabel));
    ShortBranchKeepsTargetIffNoAddend(JumpPastLabel, q, {0, 5, 6, 7}, 0, 6);
  }

  /** A jump of label 5 and addend 1. */
  const JumpPastLabel := Program([0xe9, 1, 0, 0, 0, 0x90, 0x90], [5], [Reloc(1, 0)], [])

  lemma JumpPastLabelIsShort()
    ensures WellFormed(JumpPastLabel, {0, 5, 6, 7}) && Picked(JumpPastLabel, 0)
    ensures BranchWord(JumpPastLabel.code, 1) == 0 && Get32(JumpPastLabel.code, 1) == 1
  {
    var p := JumpPastLabel;
    assert FieldsIn(p);
    assert Candidate(p.code, p.labelPos, p.relocs[0]) == 0;
    assert Picks(p, 0) == [];
  }

  lemma FirstStays(cuts: seq<Cut>)
    ensures NewPos(cuts, 0) == 0
  {
    ZeroStays(cuts);
  }

  /** A transfer that stays long keeps its addend. With a target that is still an instruction
      boundary it goes to the image of that target exactly when no branch between the label and the
      target was shortened. */
  lemma LongTransferKeepsTargetIffNothingBetween(p: Program, q: Program, bounds: set<int>, i: nat, start: nat, target: int)
    requires WellFormed(p, bounds) && Relaxed(p, q) && i < |p.relocs| && !Picked(p, i)
    requires LabelPosition(p.labelPos, p.relocs[i].lbl) >= 0
    requires NearTransfer(p.code, start, p.relocs[i].at) && IsInstruction(bounds, start, p.relocs[i].at + 4)
    requires target == LabelPosition(p.labelPos, p.relocs[i].lbl) + Signed32(Get32(p.code, p.relocs[i].at)) && target in bounds
    ensures FieldsApart(q.relocs) && 0 <= NewPos(CutsOf(p), start)
    ensures
      Decode(Patched(q.code, q.labelPos, q.relocs, |q.relocs|), NewPos(CutsOf(p), start))
        == Moved(CutsOf(p), NearForm(p.code, start, p.relocs[i].at, target))
      <==> NothingBetween(CutsOf(p), LabelPosition(p.labelPos, p.relocs[i].lbl), target)
  {
    hide *;
    NearFacts(p, bounds, i, start);
    var cuts, at, lbl := CutsOf(p), p.relocs[i].at, LabelPosition(p.labelPos, p.relocs[i].lbl);
    KeptFieldPatched(p, q, bounds, i);
    FieldsApartMeans(q.relocs);
    OpcodeKept(p, q, bounds, i, start, start);
    OpcodeKept(p, q, bounds, i, start, at - 1);
    AddendFits(p, q, bounds, lbl, target, at, NewPos(cuts, at));
    var now, image := Patched(q.code, q.labelPos, q.relocs, |q.relocs|), NewPos(cuts, lbl) + (target - lbl);
    SameNearForm(p.code, start, at, now, NewPos(cuts, start), image);
    DecodeNear(now, NewPos(cuts, start), NewPos(cuts, at), image);
    MovedNear(cuts, p.code, start, at, target);
    SameFormSameTarget(p.code, start, at, image, NewPos(cuts, target));
    BranchesSave(p);
    RigidIff(cuts, lbl, target);
  }

  lemma AddendFits(p: Program, q: Program, bounds: set<int>, lbl: int, target: int, at: nat, newAt: int)
    requires WellFormed(p, bounds) && Relaxed(p, q) && lbl in bounds && target in bounds
    requires at + 4 <= |p.code| && 0 <= newAt && newAt + 4 <= |q.code| && target == lbl + Signed32(Get32(p.code, at))
    ensures |q.code| < CODE_LIMIT && -HALF <= NewPos(CutsOf(p), lbl) + (target - lbl) - (newAt + 4) < HALF
    ensures (NewPos(CutsOf(p), lbl) + Get32(p.code, at) - (newAt + 4)) % WORD
         == (NewPos(CutsOf(p), lbl) + (target - lbl) - (newAt + 4)) % WORD
  {
    var cuts := CutsOf(p);
    CuttingIsSound(p, bounds);
    RebuiltLength(p.code, cuts, ShortForms(p.code, Branches(p)));
    ZeroStays(cuts);
    Contracts(cuts, 0, lbl);
    Contracts(cuts, 0, |p.code|);
    hide NewPos, Get32, CutsOf, Relaxed;
    SignedIsSame(NewPos(CutsOf(p), lbl) - (newAt + 4), Get32(p.code, at));
  }

  lemma SignedIsSame(a: int, v: int)
    requires 0 <= v < WORD
    ensures (a + v) % WORD == (a + Signed32(v)) % WORD
  {
    QuotientUnique(a + Signed32(v), WORD, (a + v) / WORD - (if v >= HALF then 1 else 0), (a + v) % WORD);
  }

  lemma SameFormSameTarget(code: seq<byte>, start: nat, at: nat, a: int, b: int)
    requires at + 4 <= |code| && NearTransfer(code, start, at)
    ensures NearForm(code, start, at, a) == NearForm(code, start, at, b) <==> a == b
  {
  }

  lemma BranchesSave(p: Program)
    requires FieldsIn(p)
    ensures forall k :: 0 <= k < |CutsOf(p)| ==> CutsOf(p)[k].keep < CutsOf(p)[k].size
  {
  }

  /** A call of label 5 and addend 5, over a jump that becomes short. */
  const CallOverJump := Program([0xe8, 5, 0, 0, 0, 0xe9, 0, 0, 0, 0, 0x90], [5, 10], [Reloc(1, 0), Reloc(6, 1)], [])

  lemma CallOverJumpIsWellFormed()
    ensures WellFormed(CallOverJump, {0, 5, 10, 11})
  {
    hide BranchWord, NearTransfer, Inside, IsInstruction;
    CallOverJumpWords();
    CallOverJumpFields();
  }

  lemma CallOverJumpFields()
    ensures var bounds := {0, 5, 10, 11}; Inside(bounds, 1, 5) && Inside(bounds, 6, 10) && IsInstruction(bounds, 5, 10)
  {
  }

  lemma CallOverJumpWords()
    ensures BranchWord(CallOverJump.code, 1) < 0 && BranchWord(CallOverJump.code, 6) == 10
  {
  }

  lemma CallOverJumpPicks()
    ensures FieldsIn(CallOverJump) && !Picked(CallOverJump, 0) && CutsOf(CallOverJump) == [Cut(5, 5, 2)]
  {
    hide BranchWord;
    CallOverJumpWords();
    var p := CallOverJump;
    assert FieldsIn(p);
    assert Candidate(p.code, p.labelPos, p.relocs[0]) < 0;
    assert Picks(p, 0) == [] && Picks(p, 1) == [];
    assert Candidate(p.code, p.labelPos, p.relocs[1]) == 10;
    assert Picks(p, 2) == [10];
  }

  /** The call went behind the jump, and does not any more. */
  lemma ShortenedBetweenMisses(q: Program)
    requires Relaxed(CallOverJump, q)
    ensures WellFormed(CallOverJump, {0, 5, 10, 11}) && FieldsApart(q.relocs)
    ensures Decode(Patched(q.code, q.labelPos, q.relocs, |q.relocs|), 0) != Moved(CutsOf(CallOverJump), NearForm(CallOverJump.code, 0, 1, 10))
  {
    hide *;
    CallOverJumpIsWellFormed();
    CallOverJumpPicks();
    CallOverJumpCall();
    FirstStays(CutsOf(CallOverJump));
    FirstIsBetween(CutsOf(CallOverJump));
    LongTransferKeepsTargetIffNothingBetween(CallOverJump, q, {0, 5, 10, 11}, 0, 0, 10);
  }

  lemma CallOverJumpCall()
    ensures var p := CallOverJump;
      && |p.relocs| == 2 && |p.code| == 11 && p.relocs[0].at == 1 && LabelPosition(p.labelPos, p.relocs[0].lbl) == 5
      && NearTransfer(p.code, 0, 1) && IsInstruction({0, 5, 10, 11}, 0, 5) && Signed32(Get32(p.code, 1)) == 5
  {
  }

  lemma FirstIsBetween(cuts: seq<Cut>)
    requires cuts == [Cut(5, 5, 2)]
    ensures !NothingBetween(cuts, 5, 10)
  {
    assert cuts[0].start == 5;
  }

  // ---- Transfers without a reference

  /** How many bytes a decoded transfer has. */
  function Length(code: seq<byte>, at: nat): nat
    requires at < |code|
  {
    if code[at] == 0xeb || 0x70 <= code[at] <= 0x7f then 2 else if code[at] == 0x0f then 6 else 5
  }

  /** No reference field overlaps a stretch of code. */
  ghost predicate NoField(p: Program, lo: int, hi: int) {
    forall i :: 0 <= i < |p.relocs| ==> p.relocs[i].at + 4 <= lo || hi <= p.relocs[i].at
  }

  /** An instruction that is a JMP, Jcc or CALL with a displacement of its own: it has no reference. */
  ghost predicate FixedTransfer(p: Program, bounds: set<int>, start: nat, end: nat) {
    && start < end <= |p.code| && IsInstruction(bounds, start, end) && NoField(p, start, end)
    && Decode(p.code, start) != NoTransfer && end == start + Length(p.code, start)
  }

  function TargetOf(t: Transfer): int
    requires t != NoTransfer
  {
    match t
    case Jump(target) => target
    case JumpIf(_, target) => target
    case Call(target) => target
  }

  /** The same transfer to another target. */
  function Retargeted(t: Transfer, target: int): Transfer
    requires t != NoTransfer
  {
    match t
    case Jump(_) => Jump(target)
    case JumpIf(cond, _) => JumpIf(cond, target)
    case Call(_) => Call(target)
  }

  /** The same bytes elsewhere transfer control by the same distance. */
  lemma DecodeMoved(a: seq<byte>, s: nat, b: seq<byte>, t: nat)
    requires s < |a| && Decode(a, s) != NoTransfer && s + Length(a, s) <= |a| && t + Length(a, s) <= |b|
    requires forall i :: s <= i < s + Length(a, s) ==> b[i - s + t] == a[i]
    ensures Decode(b, t) == Retargeted(Decode(a, s), TargetOf(Decode(a, s)) + t - s)
  {
    assert b[s - s + t] == a[s];
    assert b[s + 1 - s + t] == a[s + 1];
    if Length(a, s) > 2 {
      assert b[s + 2 - s + t] == a[s + 2] && b[s + 3 - s + t] == a[s + 3] && b[s + 4 - s + t] == a[s + 4];
    }
    if Length(a, s) > 5 {
      assert b[s + 5 - s + t] == a[s + 5];
    }
  }

  /** An instruction without a field is no shortened branch, and none reaches into it. */
  lemma NoFieldIsClear(p: Program, bounds: set<int>, start: nat, end: nat)
    requires WellFormed(p, bounds) && start < end <= |p.code| && IsInstruction(bounds, start, end) && NoField(p, start, end)
    ensures Clear(CutsOf(p), start, end)
  {
    assert FieldsIn(p);
    hide WellFormed, Picked, NewPos;
    var cuts := CutsOf(p);
    forall k | 0 <= k < |cuts|
      ensures end <= cuts[k].start || cuts[k].start + cuts[k].size <= start
    {
      var i := CutOwner(p, bounds, k);
    }
  }

  /** Where such an instruction is after the pass: its bytes, outside the fields that are patched. */
  lemma FixedBytes(p: Program, q: Program, bounds: set<int>, start: nat, end: nat, at: nat)
    requires WellFormed(p, bounds) && Relaxed(p, q) && start <= at < end <= |p.code| && IsInstruction(bounds, start, end) && NoField(p, start, end)
    ensures FieldsApart(q.relocs) && FieldsApart(p.relocs)
    ensures NewPos(CutsOf(p), at) == NewPos(CutsOf(p), start) + (at - start) && 0 <= NewPos(CutsOf(p), at) < |q.code|
    ensures Patched(q.code, q.labelPos, q.relocs, |q.relocs|)[NewPos(CutsOf(p), at)] == p.code[at]
    ensures Patched(p.code, p.labelPos, p.relocs, |p.relocs|)[at] == p.code[at]
  {
    hide Relaxed, Picked, NewPos, CutsOf, Patched;
    RelaxedFacts(p, q, bounds);
    KeptFieldsApart(p, bounds);
    NoFieldIsClear(p, bounds, start, end);
    ClearByte(p, q, bounds, start, end, at);
    forall j | 0 <= j < |q.relocs|
      ensures !(q.relocs[j].at <= NewPos(CutsOf(p), at) < q.relocs[j].at + 4)
    {
      var a := KeptOwner(p, |p.relocs|, j);
      FieldOffByte(p, bounds, start, end, at, a);
    }
    PatchedByte(q.code, q.labelPos, q.relocs, |q.relocs|, NewPos(CutsOf(p), at));
    PatchedByte(p.code, p.labelPos, p.relocs, |p.relocs|, at);
  }

  lemma FieldOffByte(p: Program, bounds: set<int>, start: nat, end: nat, at: nat, a: nat)
    requires WellFormed(p, bounds) && start <= at < end <= |p.code| && IsInstruction(bounds, start, end) && NoField(p, start, end)
    requires a < |p.relocs| && !Picked(p, a)
    ensures var field := NewPos(CutsOf(p), p.relocs[a].at); !(field <= NewPos(CutsOf(p), at) < field + 4)
  {
    NoFieldIsClear(p, bounds, start, end);
    hide WellFormed, Picked, NewPos, CutsOf, Clear;
    KeptField(p, bounds, a);
    var cuts, field := CutsOf(p), p.relocs[a].at;
    ClearIsRigid(cuts, start, end, at);
    ClearIsRigid(cuts, start, end, start);
    ClearIsRigid(cuts, start, end, end);
    if field + 4 <= start {
      Contracts(cuts, field + 4, start);
    } else {
      Contracts(cuts, end, field);
    }
  }

  lemma CutOwner(p: Program, bounds: set<int>, k: nat) returns (i: nat)
    requires WellFormed(p, bounds) && k < |CutsOf(p)|
    ensures i < |p.relocs| && CutsOf(p)[k].start < p.relocs[i].at && p.relocs[i].at + 4 == CutsOf(p)[k].start + CutsOf(p)[k].size
    ensures IsInstruction(bounds, CutsOf(p)[k].start, CutsOf(p)[k].start + CutsOf(p)[k].size)
  {
    i := PickOwner(p, |p.relocs|, k);
  }

  /** Every JMP, Jcc and CALL with a displacement of its own, wherever it goes: after the pass it is
      the same transfer by the same distance, and so goes to the image of its target exactly when no
      branch between its end and the target was shortened. */
  lemma FixedTransferKeepsTargetIff(p: Program, q: Program, bounds: set<int>, start: nat, end: nat)
    requires WellFormed(p, bounds) && Relaxed(p, q) && FixedTransfer(p, bounds, start, end)
    ensures FieldsApart(p.relocs) && FieldsApart(q.relocs) && 0 <= NewPos(CutsOf(p), start)
    ensures var cuts := CutsOf(p);
      var before, after := Decode(Patched(p.code, p.labelPos, p.relocs, |p.relocs|), start),
                           Decode(Patched(q.code, q.labelPos, q.relocs, |q.relocs|), NewPos(cuts, start));
      && before == Decode(p.code, start)
      && after == Retargeted(before, NewPos(cuts, end) + (TargetOf(before) - end))
      && (after == Moved(cuts, before) <==> NothingBetween(cuts, end, TargetOf(before)))
  {
    hide WellFormed, Relaxed, Picked, NewPos, CutsOf, Patched, Decode, Clear, Boundary, Ordered;
    InFields(p, bounds);
    FixedBytes(p, q, bounds, start, end, start);
    FixedBytes(p, q, bounds, start, end, end - 1);
    FieldsApartMeans(p.relocs);
    FieldsApartMeans(q.relocs);
    var now, was := Patched(q.code, q.labelPos, q.relocs, |q.relocs|), Patched(p.code, p.labelPos, p.relocs, |p.relocs|);
    forall at: nat | start <= at < end
      ensures NewPos(CutsOf(p), start) + (at - start) < |q.code|
      ensures now[at - start + NewPos(CutsOf(p), start)] == p.code[at] && was[at] == p.code[at]
    {
      FixedBytes(p, q, bounds, start, end, at);
    }
    DecodeMoved(p.code, start, was, start);
    DecodeMoved(p.code, start, now, NewPos(CutsOf(p), start));
    EndMoves(p, bounds, start, end);
    BranchesSave(p);
    RigidIff(CutsOf(p), end, TargetOf(Decode(p.code, start)));
  }

  /** So a helper with displacements of its own survives as a whole: in a stretch that no shortened
      branch starts in, every transfer from within to within goes to the image of its target. */
  lemma HelperKeepsTargets(p: Program, q: Program, bounds: set<int>, lo: nat, hi: nat, start: nat, end: nat)
    requires WellFormed(p, bounds) && Relaxed(p, q) && FixedTransfer(p, bounds, start, end) && lo <= start && end <= hi
    requires lo <= TargetOf(Decode(p.code, start)) <= hi && (forall k :: 0 <= k < |CutsOf(p)| ==> !(lo <= CutsOf(p)[k].start < hi))
    ensures FieldsApart(q.relocs) && 0 <= NewPos(CutsOf(p), start)
    ensures Decode(Patched(q.code, q.labelPos, q.relocs, |q.relocs|), NewPos(CutsOf(p), start)) == Moved(CutsOf(p), Decode(p.code, start))
  {
    hide WellFormed, Relaxed, NewPos, CutsOf, Patched, Decode;
    FixedTransferKeepsTargetIff(p, q, bounds, start, end);
  }

  /** A jump of its own over a jump that becomes short. */
  const FixedOverJump := Program([0x74, 5, 0xe9, 0, 0, 0, 0, 0x90], [7], [Reloc(3, 0)], [])

  lemma FixedOverJumpFacts()
    ensures WellFormed(FixedOverJump, {0, 2, 7, 8}) && FixedTransfer(FixedOverJump, {0, 2, 7, 8}, 0, 2)
    ensures Decode(FixedOverJump.code, 0) == JumpIf(4, 7)
  {
    var p := FixedOverJump;
    assert FieldsIn(p);
    assert BranchWord(p.code, 3) == 4;
  }

  lemma FixedOverJumpPicks()
    ensures FieldsIn(FixedOverJump) && CutsOf(FixedOverJump) == [Cut(2, 5, 2)]
  {
    var p := FixedOverJump;
    assert FieldsIn(p);
    assert Picks(p, 0) == [];
    assert Candidate(p.code, p.labelPos, p.relocs[0]) == 4;
    assert Picks(p, 1) == [4];
  }

  /** It went behind the other jump, and goes three bytes too far now. */
  lemma FixedTransferMisses(q: Program)
    requires Relaxed(FixedOverJump, q)
    ensures WellFormed(FixedOverJump, {0, 2, 7, 8}) && FieldsApart(q.relocs)
    ensures Decode(Patched(q.code, q.labelPos, q.relocs, |q.relocs|), 0) == JumpIf(4, 7)
    ensures Moved(CutsOf(FixedOverJump), Decode(FixedOverJump.code, 0)) == JumpIf(4, 4)
  {
    hide WellFormed, Relaxed, Patched, Decode, FixedTransfer;
    FixedOverJumpFacts();
    FixedOverJumpPicks();
    FirstStays(CutsOf(FixedOverJump));
    OneCut(CutsOf(FixedOverJump));
    FixedTransferKeepsTargetIff(FixedOverJump, q, {0, 2, 7, 8}, 0, 2);
  }

  lemma OneCut(cuts: seq<Cut>)
    requires cuts == [Cut(2, 5, 2)]
    ensures NewPos(cuts, 2) == 2 && NewPos(cuts, 7) == 4
  {
    AtCut(cuts, 0, 2, 7);
  }

  lemma InFields(p: Program, bounds: set<int>)
    requires WellFormed(p, bounds)
    ensures FieldsIn(p)
  {
  }

  lemma EndMoves(p: Program, bounds: set<int>, start: nat, end: nat)
    requires WellFormed(p, bounds) && start < end <= |p.code| && IsInstruction(bounds, start, end) && NoField(p, start, end)
    ensures NewPos(CutsOf(p), end) == NewPos(CutsOf(p), start) + (end - start)
  {
    NoFieldIsClear(p, bounds, start, end);
    CuttingIsSound(p, bounds);
    hide WellFormed, NewPos, CutsOf, Clear, Ordered;
    ClearIsRigid(CutsOf(p), start, end, end);
  }

  /** A data reference moves with its field, and the field keeps its word. */
  lemma AbsoluteFieldKept(p: Program, q: Program, bounds: set<int>, i: nat)
    requires WellFormed(p, bounds) && Relaxed(p, q) && i < |p.absRelocs|
    ensures |q.absRelocs| == |p.absRelocs| && q.absRelocs[i] == p.absRelocs[i].(at := NewPos(CutsOf(p), p.absRelocs[i].at))
    ensures 0 <= p.absRelocs[i].at && p.absRelocs[i].at + 4 <= |p.code|
    ensures 0 <= q.absRelocs[i].at && q.absRelocs[i].at + 4 <= |q.code|
    ensures Get32(q.code, q.absRelocs[i].at) == Get32(p.code, p.absRelocs[i].at)
  {
    FieldIsClear(p, bounds, p.absRelocs[i].at);
    KeptWord(p, q, bounds, p.absRelocs[i].at);
  }

  lemma KeptInRange(p: Program, q: Program, bounds: set<int>)
    requires WellFormed(p, bounds) && Relaxed(p, q)
    ensures FieldsApart(q.relocs)
    ensures forall j :: 0 <= j < |q.relocs| ==>
      0 <= q.relocs[j].at && q.relocs[j].at + 4 <= |q.code| < HALF && 0 <= q.relocs[j].lbl < HALF
  {
    hide Relaxed, NewPos, CutsOf, Kept, Clear;
    RelaxedFacts(p, q, bounds);
    KeptFieldsApart(p, bounds);
    forall j | 0 <= j < |q.relocs|
      ensures 0 <= q.relocs[j].at && q.relocs[j].at + 4 <= |q.code| < HALF && 0 <= q.relocs[j].lbl < HALF
    {
      var i := KeptOwner(p, |p.relocs|, j);
      KeptField(p, bounds, i);
      KeptWord(p, q, bounds, p.relocs[i].at);
      CodeStaysSmall(p, q, bounds, |p.code|, q.relocs[j].at);
    }
  }

  /** The whole finishing step: relaxation, then patching, which never fails. */
  method FinishCode(a: Asm, ghost bounds: set<int>) returns (ghost q: Program)
    requires WellFormed(a.Contents(), bounds)
    modifies a
    ensures Relaxed(old(a.Contents()), q) && FieldsApart(q.relocs)
    ensures a.labelPos == q.labelPos && a.relocs == q.relocs && a.absRelocs == q.absRelocs
    ensures a.code == Patched(q.code, q.labelPos, q.relocs, |q.relocs|)
    ensures a.patchFailed == old(a.patchFailed)
  {
    hide WellFormed, Relaxed, Patched, FieldsApart;
    a.RelaxBranches(bounds);
    q := a.Contents();
    KeptInRange(old(a.Contents()), q, bounds);
    a.PatchRelocations();
  }
}
