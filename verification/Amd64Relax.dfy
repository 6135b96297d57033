/** Branch relaxation of the amd64 back end: near jumps that fit a byte displacement are
    shortened in place, once, and everything that names a code position follows. */
module Amd64Relax {
  import opened Bytes
  import opened Emitted
  import opened Shrink

  /** What the pass works on. */
  datatype Program = Program(code: seq<byte>, labelPos: seq<int>, relocs: seq<Reloc>, absRelocs: seq<AbsReloc>)

  /** A branch is remembered as start * 2 + kind in an int32, which bounds the code size. */
  const CODE_LIMIT := 0x4000_0000

  predicate FitsByte(d: int) {
    -128 <= d <= 127
  }

  // ---- Which branches become short

  /** The near JMP or Jcc whose displacement field is at `at`, as a branch word, or -1. */
  function BranchWord(code: seq<byte>, at: nat): (w: int)
    requires at <= |code|
    ensures -1 <= w
    ensures w >= 0 ==> w / 2 + 1 + w % 2 == at
  {
    if at >= 1 && code[at - 1] == 0xe9 then (at - 1) * 2
    else if at >= 2 && code[at - 2] == 0x0f && 0x80 <= code[at - 1] <= 0x8f then (at - 2) * 2 + 1
    else -1
  }

  /** The branch word of a reference whose displacement would fit a byte, or -1. */
  function Candidate(code: seq<byte>, labelPos: seq<int>, r: Reloc): (w: int)
    requires 0 <= r.at <= |code|
    ensures -1 <= w
    ensures w >= 0 ==> w == BranchWord(code, r.at) && FitsByte(LabelPosition(labelPos, r.lbl) - (r.at + 4))
    ensures w >= 0 ==> LabelPosition(labelPos, r.lbl) >= 0
  {
    var target := LabelPosition(labelPos, r.lbl);
    if target < 0 || !FitsByte(target - (r.at + 4)) then -1 else BranchWord(code, r.at)
  }

  ghost predicate FieldsIn(p: Program) {
    forall i :: 0 <= i < |p.relocs| ==>
      0 <= p.relocs[i].at && p.relocs[i].at + 4 <= |p.code| && 0 <= p.relocs[i].lbl < HALF
  }

  /** The branches chosen among the first n references: only ever later in the code than the
      ones chosen before. */
  ghost function Picks(p: Program, n: nat): seq<nat>
    requires n <= |p.relocs| && FieldsIn(p)
    decreases n, 0
  {
    if n == 0 then []
    else Picks(p, n - 1) + if Picked(p, n - 1) then [Candidate(p.code, p.labelPos, p.relocs[n - 1])] else []
  }

  ghost predicate Picked(p: Program, i: nat)
    requires i < |p.relocs| && FieldsIn(p)
    decreases i, 1
  {
    var before := Picks(p, i);
    var w := Candidate(p.code, p.labelPos, p.relocs[i]);
    w >= 0 && (before == [] || before[|before| - 1] / 2 < w / 2)
  }

  ghost function Branches(p: Program): seq<nat>
    requires FieldsIn(p)
  {
    Picks(p, |p.relocs|)
  }

  /** What becomes of a branch word: five or six bytes turn into two. */
  function CutOf(w: nat): Cut {
    Cut(w / 2, 5 + w % 2, 2)
  }

  function Cuts(branches: seq<nat>): (cuts: seq<Cut>)
    ensures |cuts| == |branches|
    ensures forall k :: 0 <= k < |branches| ==> cuts[k] == CutOf(branches[k])
  {
    seq(|branches|, k requires 0 <= k < |branches| => CutOf(branches[k]))
  }

  ghost function CutsOf(p: Program): seq<Cut>
    requires FieldsIn(p)
  {
    Cuts(Branches(p))
  }

  /** Emitted code with its instruction boundaries: labels lie on boundaries, every reference
      field lies inside one instruction, fields do not overlap, and a branch opcode in front of
      a label field starts the instruction that the field ends. */
  ghost predicate WellFormed(p: Program, bounds: set<int>) {
    && |p.code| < CODE_LIMIT && |p.code| in bounds
    && (forall b :: b in bounds ==> 0 <= b <= |p.code|)
    && (forall l :: 0 <= l < |p.labelPos| ==> p.labelPos[l] == -1 || p.labelPos[l] in bounds)
    && FieldsIn(p)
    && (forall i :: 0 <= i < |p.relocs| ==> Inside(bounds, p.relocs[i].at, p.relocs[i].at + 4))
    && (forall i, j :: 0 <= i < |p.relocs| && 0 <= j < |p.relocs| && i != j ==> Apart(p.relocs[i].at, p.relocs[j].at))
    && (forall i :: 0 <= i < |p.relocs| && BranchWord(p.code, p.relocs[i].at) >= 0 ==>
         IsInstruction(bounds, BranchWord(p.code, p.relocs[i].at) / 2, p.relocs[i].at + 4))
    && (forall i :: 0 <= i < |p.absRelocs| ==>
         && 0 <= p.absRelocs[i].at && p.absRelocs[i].at + 4 <= |p.code|
         && Inside(bounds, p.absRelocs[i].at, p.absRelocs[i].at + 4))
    && (forall i, j :: 0 <= i < |p.absRelocs| && 0 <= j < |p.relocs| ==> Apart(p.absRelocs[i].at, p.relocs[j].at))
  }

  /** The conditions can be met: one jump to the instruction behind it becomes short. */
  lemma OneJump()
    ensures var p := Program([0xe9, 0, 0, 0, 0], [5], [Reloc(1, 0)], []);
            WellFormed(p, {0, 5}) && Picked(p, 0)
  {
    var p := Program([0xe9, 0, 0, 0, 0], [5], [Reloc(1, 0)], []);
    assert FieldsIn(p);
    assert Candidate(p.code, p.labelPos, p.relocs[0]) == 0;
    assert Picks(p, 0) == [] && Picks(p, 1) == [0];
  }

  /** Each chosen branch is the instruction of some reference among the first n. */
  lemma {:induction false} PickOwner(p: Program, n: nat, k: nat) returns (i: nat)
    requires n <= |p.relocs| && FieldsIn(p) && k < |Picks(p, n)|
    ensures i < n && Picked(p, i)
    ensures Picks(p, n)[k] == BranchWord(p.code, p.relocs[i].at)
  {
    if k < |Picks(p, n - 1)| {
      i := PickOwner(p, n - 1, k);
    } else {
      i := n - 1;
    }
  }

  lemma {:induction false} PickIndex(p: Program, n: nat, i: nat) returns (k: nat)
    requires i < n <= |p.relocs| && FieldsIn(p) && Picked(p, i)
    ensures k < |Picks(p, n)| && Picks(p, n)[k] == BranchWord(p.code, p.relocs[i].at)
    decreases n
  {
    if i < n - 1 {
      k := PickIndex(p, n - 1, i);
    } else {
      k := |Picks(p, i)|;
    }
  }

  ghost predicate Increasing(branches: seq<nat>) {
    forall i, j :: 0 <= i < j < |branches| ==> branches[i] / 2 < branches[j] / 2
  }

  lemma {:induction false} PicksIncrease(p: Program, n: nat)
    requires n <= |p.relocs| && FieldsIn(p)
    ensures Increasing(Picks(p, n))
  {
    if n > 0 {
      PicksIncrease(p, n - 1);
    }
  }

  /** A near JMP (kind 0) or Jcc (kind 1) that ends within the code. */
  ghost predicate IsBranch(code: seq<byte>, w: nat) {
    && w / 2 + 5 + w % 2 <= |code|
    && if w % 2 == 0 then code[w / 2] == 0xe9 else code[w / 2] == 0x0f && 0x80 <= code[w / 2 + 1] <= 0x8f
  }

  ghost predicate GoodBranches(code: seq<byte>, branches: seq<nat>) {
    && (forall k :: 0 <= k < |branches| ==> IsBranch(code, branches[k]))
    && Increasing(branches)
    && Ordered(Cuts(branches))
  }

  /** The chosen branches are whole, disjoint instructions: no instruction boundary is lost. */
  lemma CuttingIsSound(p: Program, bounds: set<int>)
    requires WellFormed(p, bounds)
    ensures GoodBranches(p.code, Branches(p)) && Ordered(CutsOf(p))
    ensures forall b :: b in bounds ==> Boundary(CutsOf(p), b)
  {
    var branches, cuts := Branches(p), CutsOf(p);
    forall k | 0 <= k < |branches|
      ensures IsBranch(p.code, branches[k]) && IsInstruction(bounds, cuts[k].start, cuts[k].start + cuts[k].size)
    {
      var i := PickOwner(p, |p.relocs|, k);
    }
    PicksIncrease(p, |p.relocs|);
    InstructionsAreCuts(bounds, cuts);
  }

  // ---- The choice, step by step

  ghost predicate RunningTotals(branches: seq<nat>, savings: seq<int>) {
    && |savings| == |branches|
    && (forall k :: 0 <= k < |branches| ==> savings[k] == Total(Cuts(branches), k + 1))
  }

  lemma {:induction false} TotalOfPrefix(branches: seq<nat>, w: nat, n: nat)
    requires n <= |branches|
    ensures Total(Cuts(branches + [w]), n) == Total(Cuts(branches), n)
  {
    if n > 0 {
      TotalOfPrefix(branches, w, n - 1);
    }
  }

  lemma PushTotals(branches: seq<nat>, savings: seq<int>, w: nat)
    requires RunningTotals(branches, savings)
    ensures Total(Cuts(branches + [w]), |branches| + 1) == Total(Cuts(branches), |branches|) + 3 + w % 2
    ensures RunningTotals(branches + [w], savings + [Total(Cuts(branches), |branches|) + 3 + w % 2])
  {
    forall k | 0 <= k <= |branches|
      ensures Total(Cuts(branches + [w]), k) == Total(Cuts(branches), k)
    {
      TotalOfPrefix(branches, w, k);
    }
  }

  /** A reference after the choice: a chosen one carries the marks. */
  function MarkedReloc(r: Reloc, w: nat): Reloc
    requires 0 <= r.at && 0 <= r.lbl
  {
    Reloc(if w % 2 != 0 then Mark(r.at) else r.at, Mark(r.lbl))
  }

  ghost predicate Marked(p: Program, now: seq<Reloc>, n: nat)
    requires n <= |p.relocs| && FieldsIn(p)
  {
    && |now| == |p.relocs|
    && (forall i :: 0 <= i < n ==>
         now[i] == (if Picked(p, i) then MarkedReloc(p.relocs[i], Candidate(p.code, p.labelPos, p.relocs[i])) else p.relocs[i]))
    && (forall i :: n <= i < |p.relocs| ==> now[i] == p.relocs[i])
  }

  /** The state of the choice after n references. */
  ghost predicate Chosen(p: Program, n: nat, branches: seq<nat>, savings: seq<int>, totalSaving: int, now: seq<Reloc>) {
    && n <= |p.relocs| && FieldsIn(p)
    && branches == Picks(p, n)
    && RunningTotals(branches, savings)
    && totalSaving == Total(Cuts(branches), |branches|)
    && Marked(p, now, n)
  }

  lemma ChooseStart(p: Program)
    requires FieldsIn(p)
    ensures Chosen(p, 0, [], [], 0, p.relocs)
  {
  }

  lemma ChooseStep(p: Program, n: nat, branches: seq<nat>, savings: seq<int>, totalSaving: int, now: seq<Reloc>)
    requires Chosen(p, n, branches, savings, totalSaving, now)
    requires n < |p.relocs| && |p.code| < CODE_LIMIT
    ensures |now| == |p.relocs| && now[n] == p.relocs[n]
    ensures 0 <= now[n].at < HALF && now[n].at + 4 <= |p.code| && 0 <= now[n].lbl < HALF
    ensures var w := Candidate(p.code, p.labelPos, now[n]);
      if w >= 0 && !(|branches| > 0 && branches[|branches| - 1] / 2 >= w / 2) then
        Chosen(p, n + 1, branches + [w], savings + [totalSaving + 3 + w % 2], totalSaving + 3 + w % 2,
               now[n := MarkedReloc(now[n], w)])
      else
        Chosen(p, n + 1, branches, savings, totalSaving, now)
  {
    var w := Candidate(p.code, p.labelPos, p.relocs[n]);
    if w >= 0 {
      PushTotals(branches, savings, w);
    }
  }

  lemma ChooseEnd(p: Program, branches: seq<nat>, savings: seq<int>, totalSaving: int, now: seq<Reloc>)
    requires Chosen(p, |p.relocs|, branches, savings, totalSaving, now)
    ensures branches == Branches(p) && RunningTotals(branches, savings) && Marked(p, now, |p.relocs|)
  {
  }

  // ---- Looking positions up

  /** k branches start before a position, in the order of their starts. */
  ghost predicate FirstAt(branches: seq<nat>, k: nat, position: int) {
    && k <= |branches|
    && (forall i :: 0 <= i < k ==> branches[i] / 2 < position)
    && (forall i :: k <= i < |branches| ==> branches[i] / 2 >= position)
  }

  lemma CountsMonotone(branches: seq<nat>, k: nat, p: int, l: nat, q: int)
    requires FirstAt(branches, k, p) && FirstAt(branches, l, q) && p <= q
    ensures k <= l
  {
    assert l < |branches| ==> branches[l] / 2 >= q;
  }

  /** Entry b of the index counts the branches that start before b * 256. */
  ghost predicate Indexed(branches: seq<nat>, index: seq<nat>) {
    forall b :: 0 <= b < |index| ==> FirstAt(branches, index[b], b * 256)
  }

  /** What a cursor subtracts is what the simple definition subtracts. */
  lemma PositionFromCursor(branches: seq<nat>, savings: seq<int>, k: nat, position: int)
    requires RunningTotals(branches, savings) && FirstAt(branches, k, position)
    ensures NewPos(Cuts(branches), position) == position - (if k == 0 then 0 else savings[k - 1])
  {
    SavedIsTotal(Cuts(branches), k, |branches|, position);
  }

  // ---- Compaction

  /** The opcode of the short form. */
  function ShortOpcode(code: seq<byte>, w: nat): byte
    requires IsBranch(code, w)
  {
    if w % 2 == 0 then 0xeb else code[w / 2 + 1] - 0x10
  }

  /** The short form of each branch, with a zero displacement. */
  function ShortForms(code: seq<byte>, branches: seq<nat>): (forms: seq<seq<byte>>)
    requires forall k :: 0 <= k < |branches| ==> IsBranch(code, branches[k])
    ensures |forms| == |branches|
    ensures forall k :: 0 <= k < |branches| ==> forms[k] == [ShortOpcode(code, branches[k]), 0]
  {
    seq(|branches|, k requires 0 <= k < |branches| => [ShortOpcode(code, branches[k]), 0])
  }

  /** The code after compaction. */
  ghost function Compacted(was: seq<byte>, branches: seq<nat>): seq<byte>
    requires GoodBranches(was, branches)
  {
    Rebuilt(was, Cuts(branches), ShortForms(was, branches))
  }

  /** Compaction in place after k branches: the new code so far is below `write`, and nothing
      from `read` on has been disturbed. */
  ghost predicate CompactedUpTo(was: seq<byte>, branches: seq<nat>, k: nat, read: nat, write: nat, now: seq<byte>) {
    && GoodBranches(was, branches) && k <= |branches|
    && |now| == |was| && write <= read <= |was|
    && read == EndOf(Cuts(branches), k)
    && now[..write] == Laid(was, Cuts(branches), ShortForms(was, branches), k)
    && now[read..] == was[read..]
  }

  lemma CompactStart(was: seq<byte>, branches: seq<nat>)
    requires GoodBranches(was, branches)
    ensures CompactedUpTo(was, branches, 0, 0, 0, was)
  {
  }

  /** There is room for the next branch, and its bytes have not been overwritten. */
  lemma CompactRoom(was: seq<byte>, branches: seq<nat>, k: nat, read: nat, write: nat, now: seq<byte>)
    requires CompactedUpTo(was, branches, k, read, write, now) && k < |branches|
    ensures write <= read <= branches[k] / 2 && |now| == |was| && branches[k] / 2 + 5 + branches[k] % 2 <= |was|
    ensures IsBranch(was, branches[k]) && IsBranch(now, branches[k])
    ensures ShortOpcode(now, branches[k]) == ShortOpcode(was, branches[k])
  {
    assert CutOf(branches[k]) == Cuts(branches)[k];
    forall i | branches[k] / 2 <= i < |was|
      ensures now[i] == was[i]
    {
      assert now[read..][i - read] == was[read..][i - read];
    }
  }

  lemma CompactBranch(was: seq<byte>, branches: seq<nat>, k: nat, read: nat, write: nat, now: seq<byte>,
                      start: nat, end: nat, next: seq<byte>)
    requires CompactedUpTo(was, branches, k, read, write, now) && k < |branches|
    requires start == branches[k] / 2 && end == start + 5 + branches[k] % 2 && read <= start && end <= |was|
    requires IsBranch(was, branches[k])
    requires |next| == |was| && next[end..] == now[end..]
    requires next[..write + (start - read) + 2] == now[..write] + now[read..start] + [ShortOpcode(was, branches[k]), 0]
    ensures CompactedUpTo(was, branches, k + 1, end, write + (start - read) + 2, next)
  {
    assert now[read..start] == now[read..][..start - read] == was[read..start];
    assert now[end..] == now[read..][end - read..] == was[end..];
  }

  /** The overlap-safe copy within the code buffer. */
  function Moved(s: seq<byte>, to: nat, from: nat, count: nat): (r: seq<byte>)
    requires to + count <= |s| && from + count <= |s|
    ensures |r| == |s|
  {
    s[..to] + s[from..from + count] + s[to + count..]
  }

  /** One turn of the compaction loop, on the buffer. */
  lemma WriteShort(now: seq<byte>, write: nat, read: nat, start: nat, end: nat, op: byte, next: seq<byte>)
    requires write <= read <= start && start + 2 <= end <= |now|
    requires next == Moved(now, write, read, start - read)[write + (start - read) := op][write + (start - read) + 1 := 0]
    ensures |next| == |now| && next[end..] == now[end..]
    ensures next[..write + (start - read) + 2] == now[..write] + now[read..start] + [op, 0]
  {
  }

  lemma CompactTail(was: seq<byte>, branches: seq<nat>, read: nat, write: nat, now: seq<byte>)
    requires CompactedUpTo(was, branches, |branches|, read, write, now)
    ensures write <= read <= |now| == |was|
    ensures Moved(now, write, read, |now| - read)[..write + (|now| - read)] == Compacted(was, branches)
  {
    assert Moved(now, write, read, |now| - read)[..write + (|now| - read)] == now[..write] + now[read..];
  }

  /** The short form of a branch is at the mapped start of the branch. */
  lemma ShortFormAt(was: seq<byte>, branches: seq<nat>, k: nat, start: nat)
    requires GoodBranches(was, branches) && k < |branches| && start == branches[k] / 2
    ensures 0 <= NewPos(Cuts(branches), start) && NewPos(Cuts(branches), start) + 2 <= |Compacted(was, branches)|
    ensures Compacted(was, branches)[NewPos(Cuts(branches), start)] == ShortOpcode(was, branches[k])
  {
    var cuts, forms := Cuts(branches), ShortForms(was, branches);
    var at := NewPos(cuts, start);
    RebuiltForm(was, cuts, forms, k, start);
    assert Rebuilt(was, cuts, forms)[at] == Rebuilt(was, cuts, forms)[at..at + 2][0] == forms[k][0];
  }

  // ---- Labels and references after compaction

  /** The new displacement of a chosen branch: from the end of its instruction to its label. */
  ghost function ShortDisplacement(p: Program, i: nat): int
    requires FieldsIn(p) && i < |p.relocs|
  {
    NewPos(CutsOf(p), LabelPosition(p.labelPos, p.relocs[i].lbl)) - NewPos(CutsOf(p), p.relocs[i].at + 4)
  }

  /** Where that displacement goes: the last byte of the short instruction. */
  ghost function ShortField(p: Program, i: nat): int
    requires FieldsIn(p) && i < |p.relocs|
  {
    NewPos(CutsOf(p), p.relocs[i].at + 4) - 1
  }

  /** A field is filled in by one of the first n references. */
  ghost predicate IsShortField(p: Program, n: nat, at: int)
    requires FieldsIn(p) && n <= |p.relocs|
  {
    exists i :: 0 <= i < n && Picked(p, i) && at == ShortField(p, i)
  }

  /** The compacted code with the displacements of the first n references filled in. */
  ghost predicate Filled(p: Program, n: nat, compacted: seq<byte>, now: seq<byte>)
    requires n <= |p.relocs| && FieldsIn(p)
  {
    && |now| == |compacted|
    && (forall i :: 0 <= i < n && Picked(p, i) ==>
         0 <= ShortField(p, i) < |now| && now[ShortField(p, i)] == Byte(ShortDisplacement(p, i)))
    && (forall at :: 0 <= at < |now| && !IsShortField(p, n, at) ==> now[at] == compacted[at])
  }

  ghost predicate MappedLabels(cuts: seq<Cut>, labelPos: seq<int>, n: nat, now: seq<int>)
    requires n <= |labelPos|
  {
    && |now| == |labelPos|
    && (forall i :: 0 <= i < n ==> now[i] == if labelPos[i] >= 0 then NewPos(cuts, labelPos[i]) else labelPos[i])
    && (forall i :: n <= i < |now| ==> now[i] == labelPos[i])
  }

  ghost predicate MappedAbsolute(cuts: seq<Cut>, absRelocs: seq<AbsReloc>, n: nat, now: seq<AbsReloc>)
    requires n <= |absRelocs|
  {
    && |now| == |absRelocs|
    && (forall i :: 0 <= i < n ==> now[i] == absRelocs[i].(at := NewPos(cuts, absRelocs[i].at)))
    && (forall i :: n <= i < |now| ==> now[i] == absRelocs[i])
  }

  /** The references among the first n that stay, in order, at their new offsets. */
  ghost function Kept(p: Program, n: nat): (r: seq<Reloc>)
    requires n <= |p.relocs| && FieldsIn(p)
    ensures |r| <= n
  {
    if n == 0 then []
    else Kept(p, n - 1) + if Picked(p, n - 1) then [] else [Reloc(NewPos(CutsOf(p), p.relocs[n - 1].at), p.relocs[n - 1].lbl)]
  }

  /** The whole effect of the pass. */
  ghost predicate Relaxed(p: Program, q: Program) {
    && FieldsIn(p) && GoodBranches(p.code, Branches(p))
    && Filled(p, |p.relocs|, Compacted(p.code, Branches(p)), q.code)
    && MappedLabels(CutsOf(p), p.labelPos, |p.labelPos|, q.labelPos)
    && q.relocs == Kept(p, |p.relocs|)
    && MappedAbsolute(CutsOf(p), p.absRelocs, |p.absRelocs|, q.absRelocs)
  }

  // ---- The chosen branches after compaction

  lemma ZeroStays(cuts: seq<Cut>)
    ensures NewPos(cuts, 0) == 0 && Boundary(cuts, 0)
  {
    SavedIsTotal(cuts, 0, |cuts|, 0);
  }

  /** A label keeps being set or unset; a set one stays in the code, at its mapped position. */
  lemma LabelMoves(p: Program, bounds: set<int>, now: seq<int>, lbl: int)
    requires WellFormed(p, bounds) && MappedLabels(CutsOf(p), p.labelPos, |p.labelPos|, now)
    ensures var target := LabelPosition(p.labelPos, lbl);
      if target >= 0 then target in bounds && LabelPosition(now, lbl) == NewPos(CutsOf(p), target) >= 0
      else LabelPosition(now, lbl) < 0
  {
    if LabelPosition(p.labelPos, lbl) >= 0 {
      CuttingIsSound(p, bounds);
      ZeroStays(CutsOf(p));
      Contracts(CutsOf(p), 0, LabelPosition(p.labelPos, lbl));
    }
  }

  /** The second displacement check never fails: the distance between two instruction
      boundaries only shrinks. */
  lemma FlaggedBranchFits(p: Program, bounds: set<int>, i: nat)
    requires WellFormed(p, bounds) && i < |p.relocs| && Picked(p, i)
    ensures FitsByte(ShortDisplacement(p, i))
  {
    CuttingIsSound(p, bounds);
    var target, end := LabelPosition(p.labelPos, p.relocs[i].lbl), p.relocs[i].at + 4;
    assert target in bounds && IsInstruction(bounds, BranchWord(p.code, p.relocs[i].at) / 2, end);
    DistanceShrinks(CutsOf(p), end, target);
  }

  /** A chosen branch is one of the cuts; its instruction ends where its field ends. */
  lemma PickedCut(p: Program, bounds: set<int>, i: nat) returns (k: nat)
    requires WellFormed(p, bounds) && i < |p.relocs| && Picked(p, i)
    ensures k < |Branches(p)| && Branches(p)[k] == BranchWord(p.code, p.relocs[i].at)
    ensures CutsOf(p)[k].start == Branches(p)[k] / 2 && CutsOf(p)[k].keep == 2
    ensures CutsOf(p)[k].start + CutsOf(p)[k].size == p.relocs[i].at + 4 <= |p.code|
    ensures CutsOf(p)[k].start < p.relocs[i].at
  {
    k := PickIndex(p, |p.relocs|, i);
  }

  lemma FieldOfCut(cuts: seq<Cut>, k: nat, at: int)
    requires k < |cuts| && Ordered(cuts) && cuts[k].keep == 2
    requires cuts[k].start < at && cuts[k].start + cuts[k].size == at + 4
    ensures NewPos(cuts, at + 4) - 1 == NewPos(cuts, at) + 3 == NewPos(cuts, cuts[k].start) + 1
  {
    AtCut(cuts, k, cuts[k].start, at + 4);
    InCut(cuts, k, at + 4);
    InCut(cuts, k, at);
  }

  /** Where the cursor finds the field, and the short instruction it belongs to. */
  lemma PickedPlace(p: Program, bounds: set<int>, i: nat)
    requires WellFormed(p, bounds) && i < |p.relocs| && Picked(p, i)
    ensures ShortField(p, i) == NewPos(CutsOf(p), p.relocs[i].at) + 3
    ensures ShortField(p, i) == NewPos(CutsOf(p), BranchWord(p.code, p.relocs[i].at) / 2) + 1
    ensures GoodBranches(p.code, Branches(p))
    ensures 1 <= ShortField(p, i) < |Compacted(p.code, Branches(p))|
  {
    var k := PickedCut(p, bounds, i);
    CuttingIsSound(p, bounds);
    var cuts := CutsOf(p);
    assert ShortField(p, i) == NewPos(cuts, p.relocs[i].at + 4) - 1;
    hide *;
    FieldOfCut(cuts, k, p.relocs[i].at);
    ShortFormAt(p.code, Branches(p), k, cuts[k].start);
  }

  /** Different chosen branches have different displacement bytes. */
  lemma PickedApart(p: Program, bounds: set<int>, i: nat, j: nat)
    requires WellFormed(p, bounds) && i < |p.relocs| && j < |p.relocs| && i != j
    requires Picked(p, i) && Picked(p, j)
    ensures ShortField(p, i) != ShortField(p, j)
  {
    CuttingIsSound(p, bounds);
    var cuts, s, t := CutsOf(p), p.relocs[i].at + 4, p.relocs[j].at + 4;
    assert Apart(p.relocs[i].at, p.relocs[j].at);
    assert s in bounds && t in bounds by {
      assert IsInstruction(bounds, BranchWord(p.code, p.relocs[i].at) / 2, s);
      assert IsInstruction(bounds, BranchWord(p.code, p.relocs[j].at) / 2, t);
    }
    hide WellFormed, Picked, Branches, CutsOf, BranchWord, NewPos, Boundary, Ordered;
    if s < t {
      Injective(cuts, s, t);
    } else {
      Injective(cuts, t, s);
    }
  }

  lemma FillSkip(p: Program, n: nat, compacted: seq<byte>, now: seq<byte>)
    requires FieldsIn(p) && n < |p.relocs| && !Picked(p, n) && Filled(p, n, compacted, now)
    ensures Filled(p, n + 1, compacted, now)
  {
    forall at | 0 <= at < |now| && !IsShortField(p, n + 1, at)
      ensures now[at] == compacted[at]
    {
      assert !IsShortField(p, n, at);
    }
  }

  lemma FillOne(p: Program, bounds: set<int>, n: nat, compacted: seq<byte>, now: seq<byte>)
    requires WellFormed(p, bounds) && n < |p.relocs| && Picked(p, n) && Filled(p, n, compacted, now)
    requires 0 <= ShortField(p, n) < |now|
    ensures Filled(p, n + 1, compacted, now[ShortField(p, n) := Byte(ShortDisplacement(p, n))])
  {
    var field := ShortField(p, n);
    var next := now[field := Byte(ShortDisplacement(p, n))];
    forall i | 0 <= i < n && Picked(p, i)
      ensures 0 <= ShortField(p, i) < |now| && next[ShortField(p, i)] == Byte(ShortDisplacement(p, i))
    {
      PickedApart(p, bounds, i, n);
    }
    assert IsShortField(p, n + 1, field);
    forall at | 0 <= at < |next| && !IsShortField(p, n + 1, at)
      ensures next[at] == compacted[at]
    {
      assert !IsShortField(p, n, at);
    }
  }

  /** Resolving references after compaction: n of them are done, the kept ones stand in front. */
  ghost predicate Resolving(p: Program, n: nat, marked: seq<Reloc>, code: seq<byte>, relocs: seq<Reloc>, count: nat) {
    && FieldsIn(p) && |p.code| < CODE_LIMIT && n <= |p.relocs| && count <= n
    && GoodBranches(p.code, Branches(p))
    && Marked(p, marked, |p.relocs|)
    && Filled(p, n, Compacted(p.code, Branches(p)), code)
    && |relocs| == |p.relocs| && relocs[..count] == Kept(p, n) && relocs[n..] == marked[n..]
  }

  lemma ResolveStart(p: Program, bounds: set<int>, marked: seq<Reloc>, code: seq<byte>)
    requires WellFormed(p, bounds) && GoodBranches(p.code, Branches(p))
    requires Marked(p, marked, |p.relocs|) && code == Compacted(p.code, Branches(p))
    ensures Resolving(p, 0, marked, code, marked, 0)
  {
  }

  /** The next reference is unmarked to the original one; its mark says whether it was chosen. */
  lemma ResolveRead(p: Program, n: nat, marked: seq<Reloc>, code: seq<byte>, relocs: seq<Reloc>, count: nat)
    requires Resolving(p, n, marked, code, relocs, count) && n < |p.relocs|
    ensures |relocs| == |p.relocs| && count <= n
    ensures Unmark(relocs[n].at) == p.relocs[n].at && Unmark(relocs[n].lbl) == p.relocs[n].lbl
    ensures relocs[n].lbl < 0 <==> Picked(p, n)
  {
    assert relocs[n] == relocs[n..][0] == marked[n..][0] == marked[n];
  }

  /** A chosen reference disappears into its displacement byte. */
  lemma ResolvePicked(p: Program, bounds: set<int>, n: nat, marked: seq<Reloc>, code: seq<byte>, relocs: seq<Reloc>, count: nat)
    requires WellFormed(p, bounds)
    requires Resolving(p, n, marked, code, relocs, count) && n < |p.relocs| && Picked(p, n)
    ensures 0 <= ShortField(p, n) < |code|
    ensures Resolving(p, n + 1, marked, code[ShortField(p, n) := Byte(ShortDisplacement(p, n))], relocs, count)
  {
    PickedPlace(p, bounds, n);
    FillOne(p, bounds, n, Compacted(p.code, Branches(p)), code);
    assert relocs[n + 1..] == relocs[n..][1..] == marked[n..][1..] == marked[n + 1..];
  }

  /** Any other reference moves with its field. */
  lemma ResolveKept(p: Program, n: nat, marked: seq<Reloc>, code: seq<byte>, relocs: seq<Reloc>, count: nat)
    requires Resolving(p, n, marked, code, relocs, count) && n < |p.relocs| && !Picked(p, n)
    ensures count < |relocs|
    ensures Resolving(p, n + 1, marked, code, relocs[count := Reloc(NewPos(CutsOf(p), p.relocs[n].at), p.relocs[n].lbl)], count + 1)
  {
    var r := Reloc(NewPos(CutsOf(p), p.relocs[n].at), p.relocs[n].lbl);
    var next := relocs[count := r];
    FillSkip(p, n, Compacted(p.code, Branches(p)), code);
    assert next[..count + 1] == relocs[..count] + [r];
    assert next[n + 1..] == relocs[n..][1..] == marked[n..][1..] == marked[n + 1..];
  }

  lemma ResolveEnd(p: Program, marked: seq<Reloc>, code: seq<byte>, relocs: seq<Reloc>, count: nat)
    requires Resolving(p, |p.relocs|, marked, code, relocs, count)
    ensures count <= |relocs| && relocs[..count] == Kept(p, |p.relocs|)
    ensures FieldsIn(p) && GoodBranches(p.code, Branches(p))
    ensures Filled(p, |p.relocs|, Compacted(p.code, Branches(p)), code)
  {
  }

  /** With no branch chosen nothing moves. */
  lemma {:induction false} NothingChosen(p: Program, n: nat)
    requires FieldsIn(p) && n <= |p.relocs| && Branches(p) == []
    ensures Kept(p, n) == p.relocs[..n]
    ensures forall i :: 0 <= i < n ==> !Picked(p, i)
  {
    if n > 0 {
      NothingChosen(p, n - 1);
      if Picked(p, n - 1) {
        var k := PickIndex(p, |p.relocs|, n - 1);
        assert false;
      }
      ZeroStays(CutsOf(p));
      assert p.relocs[..n] == p.relocs[..n - 1] + [p.relocs[n - 1]];
    }
  }

  lemma RelaxedNothing(p: Program, marked: seq<Reloc>)
    requires FieldsIn(p) && Branches(p) == [] && Marked(p, marked, |p.relocs|)
    ensures marked == p.relocs && Relaxed(p, p)
  {
    NothingChosen(p, |p.relocs|);
    assert p.relocs[..|p.relocs|] == p.relocs;
    assert Compacted(p.code, []) == p.code;
  }

  lemma BeforeRelaxing(p: Program, bounds: set<int>)
    requires WellFormed(p, bounds)
    ensures FieldsIn(p) && |p.code| < CODE_LIMIT && CutsOf(p) == Cuts(Branches(p))
    ensures GoodBranches(p.code, Branches(p)) && Increasing(Branches(p))
    ensures forall i :: 0 <= i < |p.absRelocs| ==> 0 <= p.absRelocs[i].at < HALF
  {
    CuttingIsSound(p, bounds);
  }

  lemma RelaxedIntro(p: Program, q: Program)
    requires FieldsIn(p) && GoodBranches(p.code, Branches(p))
    requires Filled(p, |p.relocs|, Compacted(p.code, Branches(p)), q.code)
    requires MappedLabels(CutsOf(p), p.labelPos, |p.labelPos|, q.labelPos)
    requires q.relocs == Kept(p, |p.relocs|)
    requires MappedAbsolute(CutsOf(p), p.absRelocs, |p.absRelocs|, q.absRelocs)
    ensures Relaxed(p, q)
  {
  }

  /** For a chosen reference the pass finds a set label, and a displacement that fits. */
  lemma PickedTarget(p: Program, bounds: set<int>, now: seq<int>, i: nat, newAt: int)
    requires WellFormed(p, bounds) && i < |p.relocs| && Picked(p, i)
    requires MappedLabels(CutsOf(p), p.labelPos, |p.labelPos|, now) && newAt == NewPos(CutsOf(p), p.relocs[i].at)
    ensures LabelPosition(now, p.relocs[i].lbl) >= 0
    ensures newAt + 3 == ShortField(p, i)
    ensures LabelPosition(now, p.relocs[i].lbl) - (newAt + 4) == ShortDisplacement(p, i)
    ensures -128 <= ShortDisplacement(p, i) <= 127
  {
    PickedPlace(p, bounds, i);
    LabelMoves(p, bounds, now, p.relocs[i].lbl);
    FlaggedBranchFits(p, bounds, i);
  }

  // ---- Final patching

  /** Fills one four-byte displacement, on top of the addend that stands in the field. */
  function PatchOne(code: seq<byte>, labelPos: seq<int>, r: Reloc): (now: seq<byte>)
    requires 0 <= r.at
    ensures |now| == |code|
  {
    var target := LabelPosition(labelPos, r.lbl);
    if r.at + 4 > |code| || target < 0 then code
    else Put32(code, r.at, target + Get32(code, r.at) - (r.at + 4))
  }

  /** The code after patching the first n references. */
  ghost function Patched(code: seq<byte>, labelPos: seq<int>, relocs: seq<Reloc>, n: nat): (now: seq<byte>)
    requires n <= |relocs| && (forall i :: 0 <= i < |relocs| ==> 0 <= relocs[i].at)
    ensures |now| == |code|
  {
    if n == 0 then code else PatchOne(Patched(code, labelPos, relocs, n - 1), labelPos, relocs[n - 1])
  }

  // ---- The pass

  class Asm {
    var code: seq<byte>
    var labelPos: seq<int>
    var relocs: seq<Reloc>
    var absRelocs: seq<AbsReloc>
    var patchFailed: bool

    ghost function Contents(): Program
      reads this
    {
      Program(code, labelPos, relocs, absRelocs)
    }

    /** Recognises the near JMP or Jcc of a reference whose displacement would fit a byte. */
    method Recognise(at: nat, lbl: nat) returns (start: int, kind: nat)
      requires at <= |code|
      ensures kind <= 1 && -1 <= start
      ensures Candidate(code, labelPos, Reloc(at, lbl)) == if start < 0 then -1 else start * 2 + kind
    {
      var target := LabelPosition(labelPos, lbl);
      if target < 0 {
        return -1, 0;
      }
      var disp := target - (at + 4);
      if disp < -128 || disp > 127 {
        return -1, 0;
      }
      if at >= 1 && code[at - 1] == 0xe9 {
        return at - 1, 0;
      } else if at >= 2 && code[at - 2] == 0x0f && code[at - 1] >= 0x80 && code[at - 1] <= 0x8f {
        return at - 2, 1;
      }
      return -1, 0;
    }

    /** Collects the branches that become short and marks their references. */
    method ChooseBranches() returns (branches: seq<nat>, savings: seq<int>)
      requires FieldsIn(Contents()) && |code| < CODE_LIMIT
      modifies this`relocs
      ensures branches == Branches(old(Contents()))
      ensures RunningTotals(branches, savings)
      ensures Marked(old(Contents()), relocs, |old(relocs)|)
    {
      hide Chosen, FieldsIn, Candidate, Branches, RunningTotals, Marked;
      ghost var p := Contents();
      branches, savings := [], [];
      var totalSaving := 0;
      ChooseStart(p);
      for i := 0 to |relocs|
        invariant |relocs| == |p.relocs|
        invariant Chosen(p, i, branches, savings, totalSaving, relocs)
      {
        ChooseStep(p, i, branches, savings, totalSaving, relocs);
        var at := Unmark(relocs[i].at);
        var lbl := Unmark(relocs[i].lbl);
        var start, kind := Recognise(at, lbl);
        if start >= 0 && !(|branches| > 0 && branches[|branches| - 1] / 2 >= start) {
          relocs := relocs[i := Reloc(if kind != 0 then Mark(at) else relocs[i].at, Mark(lbl))];
          totalSaving := totalSaving + 3 + kind;
          branches := branches + [start * 2 + kind];
          savings := savings + [totalSaving];
        }
      }
      ChooseEnd(p, branches, savings, totalSaving, relocs);
    }

    /** Bounds each lookup to the branches of one 256-byte span. */
    static method BuildIndex(branches: seq<nat>, oldLen: nat) returns (index: seq<nat>)
      requires Increasing(branches)
      ensures |index| == oldLen / 256 + 2 && Indexed(branches, index)
    {
      index := [];
      var indexedBranch := 0;
      for bucket := 0 to oldLen / 256 + 2
        invariant |index| == bucket && Indexed(branches, index)
        invariant indexedBranch <= |branches|
        invariant forall i :: 0 <= i < indexedBranch ==> branches[i] / 2 < bucket * 256
      {
        while indexedBranch < |branches| && branches[indexedBranch] / 2 < bucket * 256
          invariant indexedBranch <= |branches|
          invariant forall i :: 0 <= i < indexedBranch ==> branches[i] / 2 < bucket * 256
        {
          indexedBranch := indexedBranch + 1;
        }
        index := index + [indexedBranch];
      }
    }

    /** The indexed binary search. */
    static method RelaxedPosition(branches: seq<nat>, savings: seq<int>, index: seq<nat>, position: nat) returns (moved: int)
      requires Increasing(branches) && RunningTotals(branches, savings) && Indexed(branches, index)
      ensures moved == NewPos(Cuts(branches), position)
    {
      var lo, hi := 0, |branches|;
      var bucket := position / 256;
      if bucket >= 0 && bucket + 1 < |index| {
        lo, hi := index[bucket], index[bucket + 1];
        CountsMonotone(branches, lo, bucket * 256, hi, (bucket + 1) * 256);
      }
      while lo < hi
        invariant 0 <= lo <= hi <= |branches|
        invariant forall i :: 0 <= i < lo ==> branches[i] / 2 < position
        invariant forall i :: hi <= i < |branches| ==> branches[i] / 2 >= position
      {
        var mid := lo + (hi - lo) / 2;
        if branches[mid] / 2 < position {
          lo := mid + 1;
        } else {
          hi := mid;
        }
      }
      PositionFromCursor(branches, savings, lo, position);
      if lo == 0 {
        return position;
      }
      return position - savings[lo - 1];
    }

    /** Rewinds, then advances, a cursor over the branches to a field offset. */
    static method MoveCursor(branches: seq<nat>, savings: seq<int>, cursor: nat, at: nat) returns (moved: nat, newAt: int)
      requires Increasing(branches) && RunningTotals(branches, savings) && cursor <= |branches|
      ensures moved <= |branches| && newAt == NewPos(Cuts(branches), at)
    {
      moved := cursor;
      while moved > 0 && branches[moved - 1] / 2 >= at
        invariant moved <= |branches|
      {
        moved := moved - 1;
      }
      while moved < |branches| && branches[moved] / 2 < at
        invariant moved <= |branches|
        invariant moved > 0 ==> branches[moved - 1] / 2 < at
      {
        moved := moved + 1;
      }
      newAt := at;
      PositionFromCursor(branches, savings, moved, at);
      if moved > 0 {
        newAt := newAt - savings[moved - 1];
      }
    }

    /** Moves the span in front of a branch down and writes the branch's short form after it. */
    method ShortenOne(write: nat, read: nat, start: nat, kind: nat)
      requires write <= read <= start && kind <= 1 && start + 5 + kind <= |code|
      requires IsBranch(code, start * 2 + kind)
      modifies this`code
      ensures |code| == |old(code)| && code[start + 5 + kind..] == old(code)[start + 5 + kind..]
      ensures code[..write + (start - read) + 2]
           == old(code)[..write] + old(code)[read..start] + [ShortOpcode(old(code), start * 2 + kind), 0]
    {
      ghost var now := code;
      var span := start - read;
      code := Moved(code, write, read, span);
      var op := 0xeb;
      if kind != 0 {
        assert code[start + 1] == now[start + 1];
        op := code[start + 1] - 0x10;
      }
      code := code[write + span := op];
      code := code[write + span + 1 := 0];
      WriteShort(now, write, read, start, start + 5 + kind, op, code);
    }

    /** Moves the spans between the branches down and writes the short forms. */
    method Compact(branches: seq<nat>)
      requires GoodBranches(code, branches)
      modifies this`code
      ensures code == Compacted(old(code), branches)
    {
      hide *;
      ghost var was := code;
      var read: nat, write: nat, oldLen := 0, 0, |code|;
      CompactStart(was, branches);
      for branch := 0 to |branches|
        invariant CompactedUpTo(was, branches, branch, read, write, code)
      {
        ghost var now := code;
        CompactRoom(was, branches, branch, read, write, now);
        var start, kind := branches[branch] / 2, branches[branch] % 2;
        ShortenOne(write, read, start, kind);
        CompactBranch(was, branches, branch, read, write, now, start, start + 5 + kind, code);
        write := write + (start - read) + 2;
        read := start + 5 + kind;
      }
      CompactTail(was, branches, read, write, code);
      code := Moved(code, write, read, oldLen - read);
      code := code[..write + (oldLen - read)];
    }

    method MoveLabels(branches: seq<nat>, savings: seq<int>, index: seq<nat>)
      requires Increasing(branches) && RunningTotals(branches, savings) && Indexed(branches, index)
      modifies this`labelPos
      ensures MappedLabels(Cuts(branches), old(labelPos), |old(labelPos)|, labelPos)
    {
      ghost var was := labelPos;
      for i := 0 to |labelPos|
        invariant MappedLabels(Cuts(branches), was, i, labelPos)
      {
        hide RunningTotals, Indexed, Increasing, NewPos;
        var position := LabelPosition(labelPos, i);
        if position >= 0 {
          var moved := RelaxedPosition(branches, savings, index, position);
          labelPos := labelPos[i := moved];
        }
      }
    }

    method MoveAbsolutes(branches: seq<nat>, savings: seq<int>)
      requires Increasing(branches) && RunningTotals(branches, savings)
      requires forall i :: 0 <= i < |absRelocs| ==> 0 <= absRelocs[i].at < HALF
      modifies this`absRelocs
      ensures MappedAbsolute(Cuts(branches), old(absRelocs), |old(absRelocs)|, absRelocs)
    {
      ghost var was := absRelocs;
      var absBranch: nat := 0;
      for i := 0 to |absRelocs|
        invariant MappedAbsolute(Cuts(branches), was, i, absRelocs)
        invariant 0 <= absBranch <= |branches|
      {
        hide RunningTotals, Increasing, NewPos;
        var at := Unmark(absRelocs[i].at);
        var newAt;
        absBranch, newAt := MoveCursor(branches, savings, absBranch, at);
        absRelocs := absRelocs[i := absRelocs[i].(at := newAt)];
      }
    }

    /** Fills in the displacements of the marked references and moves the others. */
    method ResolveRelocs(branches: seq<nat>, savings: seq<int>, ghost p: Program, ghost bounds: set<int>)
      requires WellFormed(p, bounds) && FieldsIn(p) && branches == Branches(p) && CutsOf(p) == Cuts(branches)
      requires Increasing(branches) && RunningTotals(branches, savings)
      requires GoodBranches(p.code, branches) && code == Compacted(p.code, branches)
      requires Marked(p, relocs, |p.relocs|) && MappedLabels(CutsOf(p), p.labelPos, |p.labelPos|, labelPos)
      modifies this`code, this`relocs
      ensures Filled(p, |p.relocs|, Compacted(p.code, Branches(p)), code)
      ensures relocs == Kept(p, |p.relocs|)
    {
      hide *;
      ghost var marked := relocs;
      ResolveStart(p, bounds, marked, code);
      var relocCount: nat := 0;
      var relocBranch: nat := 0;
      for i := 0 to |relocs|
        invariant |relocs| == |marked| == |p.relocs| && 0 <= relocBranch <= |branches| && relocCount <= i
        invariant Resolving(p, i, marked, code, relocs, relocCount)
      {
        ResolveRead(p, i, marked, code, relocs, relocCount);
        var rawLabel := relocs[i].lbl;
        var at := Unmark(relocs[i].at);
        var lbl := Unmark(rawLabel);
        var newAt;
        relocBranch, newAt := MoveCursor(branches, savings, relocBranch, at);
        var target := LabelPosition(labelPos, lbl);
        if rawLabel < 0 {
          ResolvePicked(p, bounds, i, marked, code, relocs, relocCount);
          PickedTarget(p, bounds, labelPos, i, newAt);
        } else {
          ResolveKept(p, i, marked, code, relocs, relocCount);
        }
        if rawLabel < 0 && target >= 0 {
          var shortAt := newAt + 3;
          var disp := target - (shortAt + 1);
          if disp >= -128 && disp <= 127 {
            code := code[shortAt := Byte(disp)];
            continue;
          }
        }
        relocs := relocs[relocCount := Reloc(newAt, lbl)];
        relocCount := relocCount + 1;
      }
      ResolveEnd(p, marked, code, relocs, relocCount);
      relocs := relocs[..relocCount];
    }

    /** Shortens every chosen branch and moves everything that names a code position. */
    method RelaxBranches(ghost bounds: set<int>)
      requires WellFormed(Contents(), bounds)
      modifies this`code, this`labelPos, this`relocs, this`absRelocs
      ensures Relaxed(old(Contents()), Contents())
    {
      hide WellFormed, FieldsIn, Branches, Picked, Candidate, Marked, Relaxed, GoodBranches, Compacted, Filled, Kept, Cuts;
      ghost var p := Contents();
      BeforeRelaxing(p, bounds);
      var oldLen := |code|;
      var branches, savings := ChooseBranches();
      if |branches| == 0 {
        RelaxedNothing(p, relocs);
        return;
      }
      var index := BuildIndex(branches, oldLen);
      Compact(branches);
      MoveLabels(branches, savings, index);
      ResolveRelocs(branches, savings, p, bounds);
      MoveAbsolutes(branches, savings);
      RelaxedIntro(p, Contents());
    }

    /** Resolves the four-byte references that are left. */
    method PatchRelocations()
      requires forall i :: 0 <= i < |relocs| ==> 0 <= relocs[i].at < HALF && 0 <= relocs[i].lbl < HALF
      modifies this`code, this`patchFailed
      ensures code == Patched(old(code), labelPos, relocs, |relocs|)
      ensures patchFailed == (old(patchFailed) || exists i :: 0 <= i < |relocs| && relocs[i].at + 4 > |old(code)|)
    {
      hide Put32, Get32;
      ghost var was := code;
      for i := 0 to |relocs|
        invariant code == Patched(was, labelPos, relocs, i)
        invariant patchFailed == (old(patchFailed) || exists j :: 0 <= j < i && relocs[j].at + 4 > |was|)
      {
        var at := Unmark(relocs[i].at);
        var lbl := Unmark(relocs[i].lbl);
        var target := LabelPosition(labelPos, lbl);
        if at < 0 || at + 4 > |code| {
          patchFailed := true;
          continue;
        }
        if target < 0 {
          continue;
        }
        var addend := Get32(code, at);
        code := Put32(code, at, target + addend - (at + 4));
      }
    }
  }
}
