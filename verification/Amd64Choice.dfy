/** Which near branches become short, told by their bytes, labels and distances alone. */
module Amd64Choice {
  import opened Bytes
  import opened Emitted
  import opened Shrink
  import opened Amd64Relax
  import opened Amd64Flow

  /** The start of the near JMP (e9) or Jcc (0f 80 to 0f 8f) whose displacement is at `at`, or -1. */
  function NearBranchStart(code: seq<byte>, at: int): (start: int)
    ensures start >= 0 ==> start < at <= start + 2 && at <= |code|
  {
    if 1 <= at <= |code| && code[at - 1] == 0xe9 then at - 1
    else if 2 <= at <= |code| && code[at - 2] == 0x0f && 0x80 <= code[at - 1] <= 0x8f then at - 2
    else -1
  }

  /** The reference is that of a near JMP or Jcc to a set label whose distance fits a signed byte. */
  predicate Shortable(p: Program, i: nat)
    requires i < |p.relocs|
  {
    var at, lbl := p.relocs[i].at, p.relocs[i].lbl;
    && NearBranchStart(p.code, at) >= 0
    && 0 <= lbl < |p.labelPos| && p.labelPos[lbl] >= 0
    && -128 <= p.labelPos[lbl] - (at + 4) <= 127
  }

  /** The branch of a reference occupies two bytes of the new code: eb, or 70 to 7f for its
      condition, and the distance from its end to the image of its label. */
  ghost predicate IsTwoBytes(p: Program, q: Program, i: nat)
    requires FieldsIn(p) && i < |p.relocs|
  {
    var at, start, lbl := p.relocs[i].at, NearBranchStart(p.code, p.relocs[i].at), p.relocs[i].lbl;
    && start >= 0
    && var here, end := NewPos(CutsOf(p), start), NewPos(CutsOf(p), at + 4);
    && end - here == 2 && 0 <= here && end <= |q.code|
    && q.code[here] == (if p.code[start] == 0xe9 then 0xeb else p.code[start + 1] - 0x10)
    && 0 <= lbl < |q.labelPos| && q.code[here + 1] == (q.labelPos[lbl] - end) % 256
  }

  /** No branch that was shortened before starts at or behind this one. */
  ghost predicate Foremost(p: Program, q: Program, i: nat)
    requires FieldsIn(p) && i < |p.relocs|
  {
    forall j: nat :: j < i && IsTwoBytes(p, q, j) ==> NearBranchStart(p.code, p.relocs[j].at) < NearBranchStart(p.code, p.relocs[i].at)
  }

  /** The fields of the references stand in increasing order, as they are emitted. */
  ghost predicate FieldsIncrease(p: Program) {
    forall i, j :: 0 <= i < j < |p.relocs| ==> p.relocs[i].at < p.relocs[j].at
  }

  // ---- The choice of the pass

  lemma CandidateIs(p: Program, i: nat)
    requires FieldsIn(p) && i < |p.relocs|
    ensures Shortable(p, i) <==> Candidate(p.code, p.labelPos, p.relocs[i]) >= 0
    ensures Shortable(p, i) ==> Candidate(p.code, p.labelPos, p.relocs[i]) / 2 == NearBranchStart(p.code, p.relocs[i].at)
    ensures NearBranchStart(p.code, p.relocs[i].at) >= 0 <==> BranchWord(p.code, p.relocs[i].at) >= 0
    ensures NearBranchStart(p.code, p.relocs[i].at) >= 0 ==> BranchWord(p.code, p.relocs[i].at) / 2 == NearBranchStart(p.code, p.relocs[i].at)
  {
  }

  /** The last pick is the foremost. */
  lemma {:induction false} LastPick(p: Program, n: nat)
    requires FieldsIn(p) && n <= |p.relocs|
    ensures forall j: nat :: j < n && Picked(p, j) ==> Picks(p, n) != [] && NearBranchStart(p.code, p.relocs[j].at) <= Picks(p, n)[|Picks(p, n)| - 1] / 2
  {
    if n > 0 {
      LastPick(p, n - 1);
      CandidateIs(p, n - 1);
    }
  }

  ghost predicate PicksBehind(p: Program, i: nat)
    requires FieldsIn(p) && i < |p.relocs|
  {
    forall j: nat :: j < i && Picked(p, j) ==> NearBranchStart(p.code, p.relocs[j].at) < NearBranchStart(p.code, p.relocs[i].at)
  }

  lemma PickedIs(p: Program, i: nat)
    requires FieldsIn(p) && i < |p.relocs|
    ensures Picked(p, i) <==> Shortable(p, i) && PicksBehind(p, i)
  {
    CandidateIs(p, i);
    LastPick(p, i);
    if Picks(p, i) != [] {
      var o := PickOwner(p, i, |Picks(p, i)| - 1);
      CandidateIs(p, o);
    }
  }

  /** A near branch that is not picked keeps its length. */
  lemma UnpickedStays(p: Program, bounds: set<int>, i: nat)
    requires WellFormed(p, bounds) && i < |p.relocs| && !Picked(p, i) && NearBranchStart(p.code, p.relocs[i].at) >= 0
    ensures var start, end := NearBranchStart(p.code, p.relocs[i].at), p.relocs[i].at + 4;
      NewPos(CutsOf(p), end) - NewPos(CutsOf(p), start) == end - start
  {
    assert FieldsIn(p);
    var start, end := NearBranchStart(p.code, p.relocs[i].at), p.relocs[i].at + 4;
    CandidateIs(p, i);
    assert IsInstruction(bounds, start, end);
    var cuts := CutsOf(p);
    forall k | 0 <= k < |cuts|
      ensures !(start <= cuts[k].start < end)
    {
      var j := PickOwner(p, |p.relocs|, k);
      assert IsInstruction(bounds, BranchWord(p.code, p.relocs[j].at) / 2, p.relocs[j].at + 4);
      assert j == i || Apart(p.relocs[j].at, p.relocs[i].at);
    }
    Rigid(cuts, start, end);
  }

  lemma PickedIsTwoBytes(p: Program, q: Program, bounds: set<int>, i: nat)
    requires WellFormed(p, bounds) && Relaxed(p, q) && i < |p.relocs| && Picked(p, i)
    ensures FieldsIn(p) && IsTwoBytes(p, q, i)
  {
    hide WellFormed, Relaxed, Picks, NewPos, CutsOf, ShortDisplacement, ShortField;
    InFields(p, bounds);
    CandidateIs(p, i);
    var k, start, end := PickedInstruction(p, bounds, i);
    ShortBytes(p, q, bounds, i);
    LabelImage(p, q, bounds, i);
  }

  lemma LabelImage(p: Program, q: Program, bounds: set<int>, i: nat)
    requires WellFormed(p, bounds) && Relaxed(p, q) && i < |p.relocs| && Picked(p, i)
    ensures FieldsIn(p) && 0 <= p.relocs[i].lbl < |q.labelPos|
    ensures ShortDisplacement(p, i) == q.labelPos[p.relocs[i].lbl] - NewPos(CutsOf(p), p.relocs[i].at + 4)
    ensures ShortField(p, i) == NewPos(CutsOf(p), p.relocs[i].at + 4) - 1
  {
    hide Filled, Compacted, NewPos, CutsOf, Picks;
    CandidateIs(p, i);
    LabelMoves(p, bounds, q.labelPos, p.relocs[i].lbl);
  }

  lemma TwoBytesIs(p: Program, q: Program, bounds: set<int>, i: nat)
    requires WellFormed(p, bounds) && Relaxed(p, q) && i < |p.relocs|
    ensures FieldsIn(p) && (IsTwoBytes(p, q, i) <==> Picked(p, i))
  {
    hide WellFormed, Relaxed, Picked, NewPos, CutsOf;
    InFields(p, bounds);
    if Picked(p, i) {
      PickedIsTwoBytes(p, q, bounds, i);
    } else if NearBranchStart(p.code, p.relocs[i].at) >= 0 {
      UnpickedStays(p, bounds, i);
    }
  }

  // ---- The result

  /** A branch becomes a two-byte one exactly when it is a near JMP or Jcc to a set label in reach,
      and no branch that was shortened before starts at or behind it. */
  lemma ShortenedExactly(p: Program, q: Program, bounds: set<int>, i: nat)
    requires WellFormed(p, bounds) && Relaxed(p, q) && i < |p.relocs|
    ensures FieldsIn(p) && (IsTwoBytes(p, q, i) <==> Shortable(p, i) && Foremost(p, q, i))
  {
    hide WellFormed, Relaxed, Picked, IsTwoBytes, Shortable;
    InFields(p, bounds);
    PickedIs(p, i);
    TwoBytesIs(p, q, bounds, i);
    forall j: nat | j < i
      ensures IsTwoBytes(p, q, j) <==> Picked(p, j)
    {
      TwoBytesIs(p, q, bounds, j);
    }
  }

  /** In code order: exactly the near JMPs and Jccs to a set label in reach. */
  lemma ShortenedInOrder(p: Program, q: Program, bounds: set<int>, i: nat)
    requires WellFormed(p, bounds) && Relaxed(p, q) && i < |p.relocs| && FieldsIncrease(p)
    ensures FieldsIn(p) && (IsTwoBytes(p, q, i) <==> Shortable(p, i))
  {
    ShortenedExactly(p, q, bounds, i);
    hide Relaxed, NewPos, CutsOf;
    forall j: nat | j < i
      ensures p.relocs[j].at + 4 <= p.relocs[i].at
    {
      assert Apart(p.relocs[j].at, p.relocs[i].at);
    }
  }

  /** What the first n references save: three bytes for a JMP, four for a Jcc. */
  function Savings(p: Program, n: nat): int
    requires n <= |p.relocs|
  {
    if n == 0 then 0
    else Savings(p, n - 1) + if !Shortable(p, n - 1) then 0 else if p.code[p.relocs[n - 1].at - 1] == 0xe9 then 3 else 4
  }

  lemma {:induction false} TotalAppend(cuts: seq<Cut>, more: seq<Cut>, n: nat)
    requires n <= |cuts|
    ensures Total(cuts + more, n) == Total(cuts, n)
  {
    if n > 0 {
      TotalAppend(cuts, more, n - 1);
    }
  }

  lemma {:induction false} PicksSave(p: Program, n: nat)
    requires FieldsIn(p) && n <= |p.relocs| && (forall i: nat :: i < n ==> (Picked(p, i) <==> Shortable(p, i)))
    ensures Total(Cuts(Picks(p, n)), |Picks(p, n)|) == Savings(p, n)
  {
    hide Picked, Candidate, Shortable;
    if n > 0 {
      PicksSave(p, n - 1);
      assert Picked(p, n - 1) <==> Shortable(p, n - 1);
      if !Picked(p, n - 1) {
        assert Picks(p, n) == Picks(p, n - 1);
      } else {
        var w := Candidate(p.code, p.labelPos, p.relocs[n - 1]);
        LastSaves(p, n - 1);
        assert Cuts(Picks(p, n)) == Cuts(Picks(p, n - 1)) + [CutOf(w)];
        TotalAppend(Cuts(Picks(p, n - 1)), [CutOf(w)], |Picks(p, n - 1)|);
      }
    }
  }

  lemma LastSaves(p: Program, i: nat)
    requires FieldsIn(p) && i < |p.relocs| && Picked(p, i)
    ensures Candidate(p.code, p.labelPos, p.relocs[i]) >= 0 && p.relocs[i].at >= 1
    ensures Saving(CutOf(Candidate(p.code, p.labelPos, p.relocs[i]))) == if p.code[p.relocs[i].at - 1] == 0xe9 then 3 else 4
  {
  }

  /** In code order the code shrinks by three bytes for each JMP and four for each Jcc in reach. */
  lemma LengthAfter(p: Program, q: Program, bounds: set<int>)
    requires WellFormed(p, bounds) && Relaxed(p, q) && FieldsIncrease(p)
    ensures |q.code| == |p.code| - Savings(p, |p.relocs|)
  {
    hide Picked, Shortable, Candidate, IsTwoBytes;
    InFields(p, bounds);
    forall i: nat | i < |p.relocs|
      ensures Picked(p, i) <==> Shortable(p, i)
    {
      ShortenedInOrder(p, q, bounds, i);
      TwoBytesIs(p, q, bounds, i);
    }
    PicksSave(p, |p.relocs|);
    AllSaved(p, q, bounds);
  }

  lemma AllSaved(p: Program, q: Program, bounds: set<int>)
    requires WellFormed(p, bounds) && Relaxed(p, q)
    ensures |q.code| == |p.code| - Total(CutsOf(p), |CutsOf(p)|)
  {
    var cuts := CutsOf(p);
    CuttingIsSound(p, bounds);
    RebuiltLength(p.code, cuts, ShortForms(p.code, Branches(p)));
    SavedIsTotal(cuts, |cuts|, |cuts|, |p.code|);
  }
}
