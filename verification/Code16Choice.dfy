/** Which near transfers of 16-bit code are narrowed, told by bytes, labels and distances alone. */
module Code16Choice {
  import opened Bytes
  import opened Emitted
  import opened Shrink
  import opened Code16Narrow

  /** The start of the overridden near JMP (66 e9) or Jcc (66 0f 80 to 66 0f 8f) whose rel32
      displacement is at `at`, or -1. */
  function OverriddenStart(code: seq<byte>, at: int): (start: int)
    ensures start >= 0 ==> start + 2 <= at <= start + 3 && at + 4 <= |code|
  {
    if at + 4 > |code| then -1
    else if at >= 2 && code[at - 2] == 0x66 && code[at - 1] == 0xe9 then at - 2
    else if at >= 3 && code[at - 3] == 0x66 && code[at - 2] == 0x0f && 0x80 <= code[at - 1] <= 0x8f then at - 3
    else -1
  }

  /** The reference is that of an overridden near transfer to a set label in reach of sixteen bits,
      and no data reference shares its field. */
  predicate Narrowable(p: Program, i: nat)
    requires i < |p.relocs|
  {
    var at, lbl := p.relocs[i].at, p.relocs[i].lbl;
    && OverriddenStart(p.code, at) >= 0
    && 0 <= lbl < |p.labelPos| && p.labelPos[lbl] >= 0
    && -32768 <= p.labelPos[lbl] - (at + 4) <= 32767
    && (forall k :: 0 <= k < |p.absRelocs| ==> p.absRelocs[k].at != at)
  }

  /** The transfer of a reference is three bytes shorter, without its override and with a zero rel16
      field, which its reference names with a mark. */
  ghost predicate IsNarrow(p: Program, q: Program, i: nat)
    requires i < |p.relocs|
  {
    var at, start := p.relocs[i].at, OverriddenStart(p.code, p.relocs[i].at);
    && start >= 0
    && var here, end := NewPos(CutsOf(p), start), NewPos(CutsOf(p), at + 4);
    && end - here == (at + 4 - start) - 3 && 0 <= here && end <= |q.code|
    && q.code[here..end] == p.code[start + 1..at] + [0, 0]
    && |q.relocs| == |p.relocs| && q.relocs[i].at == end - 2 - HALF && q.relocs[i].lbl == p.relocs[i].lbl
  }

  lemma CandidateIs(p: Program, i: nat)
    requires i < |p.relocs|
    ensures Narrowable(p, i) <==> Candidate(p, i)
    ensures OverriddenStart(p.code, p.relocs[i].at) == NearStart(p.code, p.relocs[i].at)
  {
    assert External(p.absRelocs, p.relocs[i].at) <==> !(forall k :: 0 <= k < |p.absRelocs| ==> p.absRelocs[k].at != p.relocs[i].at);
  }

  lemma FormIs(p: Program, i: nat)
    requires i < |p.relocs| && NearStart(p.code, p.relocs[i].at) >= 0
    ensures FormOf(p, i) == p.code[NearStart(p.code, p.relocs[i].at) + 1..p.relocs[i].at] + [0, 0]
  {
  }

  /** A transfer that is no candidate keeps its length. */
  lemma OthersStay(p: Program, bounds: set<int>, i: nat)
    requires WellFormed(p, bounds) && i < |p.relocs| && !Candidate(p, i) && NearStart(p.code, p.relocs[i].at) >= 0
    ensures var start, end := NearStart(p.code, p.relocs[i].at), p.relocs[i].at + 4;
      NewPos(CutsOf(p), end) - NewPos(CutsOf(p), start) == end - start
  {
    var start, end := NearStart(p.code, p.relocs[i].at), p.relocs[i].at + 4;
    var cuts, owners := CutsOf(p), Owners(p, |p.code|);
    assert IsInstruction(bounds, start, end);
    forall k | 0 <= k < |cuts|
      ensures !(start <= cuts[k].start < end)
    {
      var j := owners[k];
      assert Candidate(p, j);
      assert IsInstruction(bounds, NearStart(p.code, p.relocs[j].at), p.relocs[j].at + 4);
      assert j != i && Apart(p.relocs[j].at, p.relocs[i].at);
    }
    Rigid(cuts, start, end);
  }

  /** A transfer is narrowed exactly when it is an overridden near JMP or Jcc to a set label in reach
      that no data reference shares. */
  lemma NarrowedExactly(p: Program, q: Program, bounds: set<int>, i: nat)
    requires WellFormed(p, bounds) && Narrowed(p, q) && i < |p.relocs|
    ensures IsNarrow(p, q, i) <==> Narrowable(p, i)
  {
    hide WellFormed, Narrowed, Candidate, NewPos, CutsOf, NearStart, OverriddenStart, Narrowable, FormOf;
    CandidateIs(p, i);
    if Candidate(p, i) {
      NarrowedTransfer(p, q, bounds, i);
      FormIs(p, i);
      ShorterByThree(p, i);
    } else if NearStart(p.code, p.relocs[i].at) >= 0 {
      OthersStay(p, bounds, i);
    }
  }

  lemma ShorterByThree(p: Program, i: nat)
    requires i < |p.relocs| && NearStart(p.code, p.relocs[i].at) >= 0
    ensures |FormOf(p, i)| == p.relocs[i].at + 4 - NearStart(p.code, p.relocs[i].at) - 3
  {
  }

  // ---- The length of the narrowed code

  lemma {:induction false} AsManyAs<T>(s: seq<T>, t: set<T>)
    requires (forall i, j :: 0 <= i < j < |s| ==> s[i] != s[j]) && (forall x :: x in s <==> x in t)
    ensures |s| == |t|
  {
    if s == [] {
      assert t == {};
    } else {
      var front, last := s[..|s| - 1], s[|s| - 1];
      assert s == front + [last];
      AsManyAs(front, t - {last});
    }
  }

  /** The code shrinks by three bytes for each transfer in reach. */
  lemma LengthAfter(p: Program, q: Program, bounds: set<int>)
    requires WellFormed(p, bounds) && Narrowed(p, q)
    ensures |q.code| == |p.code| - 3 * |set i | 0 <= i < |p.relocs| && Narrowable(p, i)|
  {
    hide Narrowable, NearStart, NewPos, Candidate;
    var owners, chosen := Owners(p, |p.code|), set i | 0 <= i < |p.relocs| && Narrowable(p, i);
    forall i
      ensures i in owners <==> i in chosen
    {
      OwnerIs(p, bounds, i);
    }
    OwnersIncrease(p, |p.code|);
    AsManyAs(owners, chosen);
    EndMoves(p, q, bounds);
  }

  lemma OwnerIs(p: Program, bounds: set<int>, i: int)
    requires WellFormed(p, bounds)
    ensures i in Owners(p, |p.code|) <==> 0 <= i < |p.relocs| && Narrowable(p, i)
  {
    if 0 <= i < |p.relocs| {
      CandidateIs(p, i);
      if Candidate(p, i) {
        var k := OwnerIndex(p, |p.code|, i);
        UniqueStart(p, bounds, i, Owners(p, |p.code|)[k]);
      }
    }
  }

  lemma EndMoves(p: Program, q: Program, bounds: set<int>)
    requires WellFormed(p, bounds) && Narrowed(p, q)
    ensures |q.code| == |p.code| - 3 * |Owners(p, |p.code|)|
  {
    var cuts := CutsOf(p);
    CuttingIsSound(p, bounds);
    RebuiltLength(p.code, cuts, FormsOf(p));
    SavedIsTotal(cuts, |cuts|, |cuts|, |p.code|);
    ThreesTotal(p, |cuts|);
  }

  lemma {:induction false} ThreesTotal(p: Program, n: nat)
    requires n <= |CutsOf(p)|
    ensures Total(CutsOf(p), n) == 3 * n
  {
    if n > 0 {
      ThreesTotal(p, n - 1);
    }
  }
}
