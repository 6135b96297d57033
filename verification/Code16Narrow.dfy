/** Narrowing of near transfers in 16-bit code: JMP and Jcc with an operand-size override and a
    rel32 field become the plain rel16 forms, in one pass over the code. */
module Code16Narrow {
  import opened Bytes
  import opened Emitted
  import opened Shrink
  import opened Wrappers

  /** What the pass works on; `ends` are the end positions of the function ranges. */
  datatype Program = Program(code: seq<byte>, labelPos: seq<int>, relocs: seq<Reloc>, absRelocs: seq<AbsReloc>, ends: seq<int>)

  predicate FitsWord(d: int) {
    -32768 <= d <= 32767
  }

  /** The start of the overridden near transfer whose displacement field is at `at`, or -1. */
  function NearStart(code: seq<byte>, at: int): (start: int)
    ensures start >= 0 ==> start + 2 <= at <= start + 3 && at + 4 <= |code|
    ensures start >= 0 ==> code[start] == 0x66 && code[at - 1] == (if at == start + 2 then 0xe9 else code[at - 1])
  {
    if 2 <= at && at + 4 <= |code| && code[at - 2] == 0x66 && code[at - 1] == 0xe9 then at - 2
    else if 3 <= at && at + 4 <= |code| && code[at - 3] == 0x66 && code[at - 2] == 0x0f && code[at - 1] / 16 == 8 then at - 3
    else -1
  }

  predicate External(absRelocs: seq<AbsReloc>, at: int) {
    exists k :: 0 <= k < |absRelocs| && absRelocs[k].at == at
  }

  /** A local near transfer to a set label within the reach of sixteen bits. */
  ghost predicate Candidate(p: Program, i: nat)
    requires i < |p.relocs|
  {
    var r := p.relocs[i];
    && LabelPosition(p.labelPos, r.lbl) >= 0
    && NearStart(p.code, r.at) >= 0
    && !External(p.absRelocs, r.at)
    && FitsWord(LabelPosition(p.labelPos, r.lbl) - (r.at + 4))
  }

  /** Instruction boundaries of the program: labels and function ends lie on them, fields inside
      one instruction each; label fields do not overlap, and a data field is apart from a label
      field or is the same field; a near-transfer pattern starts the instruction it ends. */
  ghost predicate WellFormed(p: Program, bounds: set<int>) {
    && |p.code| in bounds && (forall b :: b in bounds ==> 0 <= b <= |p.code|)
    && (forall l :: 0 <= l < |p.labelPos| ==> p.labelPos[l] < 0 || p.labelPos[l] in bounds)
    && (forall l :: 0 <= l < |p.ends| ==> p.ends[l] in bounds)
    && (forall i :: 0 <= i < |p.relocs| ==> FieldIn(p.code, bounds, p.relocs[i].at))
    && (forall i, j :: 0 <= i < |p.relocs| && 0 <= j < |p.relocs| && i != j ==> Apart(p.relocs[i].at, p.relocs[j].at))
    && (forall i :: 0 <= i < |p.relocs| && NearStart(p.code, p.relocs[i].at) >= 0 ==>
         IsInstruction(bounds, NearStart(p.code, p.relocs[i].at), p.relocs[i].at + 4))
    && (forall i :: 0 <= i < |p.absRelocs| ==> FieldIn(p.code, bounds, p.absRelocs[i].at))
    && (forall i, j :: 0 <= i < |p.absRelocs| && 0 <= j < |p.relocs| ==>
         p.absRelocs[i].at == p.relocs[j].at || Apart(p.absRelocs[i].at, p.relocs[j].at))
  }

  ghost predicate FieldIn(code: seq<byte>, bounds: set<int>, at: int) {
    0 <= at && at + 4 <= |code| && Inside(bounds, at, at + 4)
  }

  // ---- The candidates in code order

  /** The last candidate among the first n references that starts at a position. */
  ghost function Find(p: Program, n: nat, start: nat): (r: Option<nat>)
    requires n <= |p.relocs|
    ensures r.Some? ==> r.value < n && Candidate(p, r.value) && NearStart(p.code, p.relocs[r.value].at) == start
    ensures r.None? ==> forall i :: 0 <= i < n && Candidate(p, i) ==> NearStart(p.code, p.relocs[i].at) != start
  {
    if n == 0 then None
    else if Candidate(p, n - 1) && NearStart(p.code, p.relocs[n - 1].at) == start then Some(n - 1)
    else Find(p, n - 1, start)
  }

  /** Six or seven bytes turn into three or four. */
  function CutOf(p: Program, i: nat): Cut
    requires i < |p.relocs| && NearStart(p.code, p.relocs[i].at) >= 0
  {
    var start, end := NearStart(p.code, p.relocs[i].at), p.relocs[i].at + 4;
    Cut(start, end - start, end - start - 3)
  }

  /** The rel16 form with a zero displacement. */
  function FormOf(p: Program, i: nat): (form: seq<byte>)
    requires i < |p.relocs| && NearStart(p.code, p.relocs[i].at) >= 0
    ensures |form| == CutOf(p, i).keep
  {
    var at := p.relocs[i].at;
    if at == NearStart(p.code, at) + 2 then [p.code[at - 1], 0, 0] else [0x0f, p.code[at - 1], 0, 0]
  }

  /** The candidates that start before a position, by their references, in code order. */
  ghost function Owners(p: Program, at: nat): (r: seq<nat>)
    ensures forall k :: 0 <= k < |r| ==> r[k] < |p.relocs| && Candidate(p, r[k]) && NearStart(p.code, p.relocs[r[k]].at) < at
  {
    if at == 0 then []
    else Owners(p, at - 1) + match Find(p, |p.relocs|, at - 1) case None => [] case Some(i) => [i]
  }

  ghost function CutsOf(p: Program): (cuts: seq<Cut>)
    ensures |cuts| == |Owners(p, |p.code|)|
    ensures forall k :: 0 <= k < |cuts| ==> cuts[k] == CutOf(p, Owners(p, |p.code|)[k])
  {
    var owners := Owners(p, |p.code|);
    seq(|owners|, k requires 0 <= k < |owners| => CutOf(p, owners[k]))
  }

  ghost function FormsOf(p: Program): (forms: seq<seq<byte>>)
    ensures |forms| == |Owners(p, |p.code|)|
    ensures forall k :: 0 <= k < |forms| ==> forms[k] == FormOf(p, Owners(p, |p.code|)[k])
  {
    var owners := Owners(p, |p.code|);
    seq(|owners|, k requires 0 <= k < |owners| => FormOf(p, owners[k]))
  }

  lemma {:induction false} OwnersIncrease(p: Program, at: nat)
    ensures forall k, l :: 0 <= k < l < |Owners(p, at)| ==>
      NearStart(p.code, p.relocs[Owners(p, at)[k]].at) < NearStart(p.code, p.relocs[Owners(p, at)[l]].at)
  {
    if at > 0 {
      OwnersIncrease(p, at - 1);
    }
  }

  lemma {:induction false} OwnerIndex(p: Program, at: nat, i: nat) returns (k: nat)
    requires i < |p.relocs| && Candidate(p, i) && NearStart(p.code, p.relocs[i].at) < at
    ensures k < |Owners(p, at)| && NearStart(p.code, p.relocs[Owners(p, at)[k]].at) == NearStart(p.code, p.relocs[i].at)
  {
    if NearStart(p.code, p.relocs[i].at) == at - 1 {
      k := |Owners(p, at - 1)|;
    } else {
      k := OwnerIndex(p, at - 1, i);
    }
  }

  /** The candidates are whole, disjoint instructions: no instruction boundary is lost, and each
      has a replacement of the right length. */
  lemma CuttingIsSound(p: Program, bounds: set<int>)
    requires WellFormed(p, bounds)
    ensures Fits(p.code, CutsOf(p), FormsOf(p))
    ensures forall b :: b in bounds ==> Boundary(CutsOf(p), b)
    ensures forall k :: 0 <= k < |CutsOf(p)| ==> IsInstruction(bounds, CutsOf(p)[k].start, CutsOf(p)[k].start + CutsOf(p)[k].size)
  {
    var owners, cuts := Owners(p, |p.code|), CutsOf(p);
    forall k | 0 <= k < |cuts|
      ensures IsInstruction(bounds, cuts[k].start, cuts[k].start + cuts[k].size) && cuts[k].start + cuts[k].size <= |p.code|
    {
      assert Candidate(p, owners[k]);
    }
    OwnersIncrease(p, |p.code|);
    InstructionsAreCuts(bounds, cuts);
  }

  /** The position map subtracts three bytes for each candidate that lies before. */
  lemma ThreeBytesEach(p: Program, q: int)
    ensures NewPos(CutsOf(p), q) == q - 3 * |set k | 0 <= k < |CutsOf(p)| && CutsOf(p)[k].start < q|
  {
    SavedByThrees(CutsOf(p), |CutsOf(p)|, q);
  }

  // ---- What the pass establishes

  ghost predicate MappedAll(cuts: seq<Cut>, was: seq<int>, now: seq<int>, n: nat)
    requires n <= |was|
  {
    && |now| == |was|
    && (forall i :: 0 <= i < n ==> now[i] == if was[i] < 0 then was[i] else NewPos(cuts, was[i]))
    && (forall i :: n <= i < |was| ==> now[i] == was[i])
  }

  /** A candidate's field is the last two bytes of its rel16 form, and carries the mark; any
      other field moves with its instruction. */
  ghost function MovedReloc(p: Program, i: nat): Reloc
    requires i < |p.relocs|
  {
    var at, lbl := p.relocs[i].at, p.relocs[i].lbl;
    if Candidate(p, i) then Reloc(NewPos(CutsOf(p), at + 4) - 2 - HALF, lbl) else Reloc(NewPos(CutsOf(p), at), lbl)
  }

  ghost predicate MappedRelocs(p: Program, now: seq<Reloc>, n: nat)
    requires n <= |p.relocs|
  {
    && |now| == |p.relocs|
    && (forall i :: 0 <= i < n ==> now[i] == MovedReloc(p, i))
    && (forall i :: n <= i < |now| ==> now[i] == p.relocs[i])
  }

  ghost predicate MappedAbsolute(p: Program, now: seq<AbsReloc>, n: nat)
    requires n <= |p.absRelocs|
  {
    && |now| == |p.absRelocs|
    && (forall i :: 0 <= i < n ==> now[i] == p.absRelocs[i].(at := NewPos(CutsOf(p), p.absRelocs[i].at)))
    && (forall i :: n <= i < |now| ==> now[i] == p.absRelocs[i])
  }

  /** The whole effect of the pass: the code rebuilt around the candidates, and every label,
      reference, data reference and function end moved along. */
  ghost predicate Narrowed(p: Program, q: Program) {
    && Fits(p.code, CutsOf(p), FormsOf(p))
    && q.code == Rebuilt(p.code, CutsOf(p), FormsOf(p))
    && MappedAll(CutsOf(p), p.labelPos, q.labelPos, |p.labelPos|)
    && MappedAll(CutsOf(p), p.ends, q.ends, |p.ends|)
    && MappedRelocs(p, q.relocs, |p.relocs|)
    && MappedAbsolute(p, q.absRelocs, |p.absRelocs|)
  }

  /** The closing check never fails: a candidate chosen on the old distances still fits. */
  lemma CandidateFits(p: Program, bounds: set<int>, i: nat)
    requires WellFormed(p, bounds) && i < |p.relocs| && Candidate(p, i)
    ensures FitsWord(NewPos(CutsOf(p), LabelPosition(p.labelPos, p.relocs[i].lbl)) - NewPos(CutsOf(p), p.relocs[i].at + 4))
  {
    CuttingIsSound(p, bounds);
    var target, end := LabelPosition(p.labelPos, p.relocs[i].lbl), p.relocs[i].at + 4;
    assert target in bounds && IsInstruction(bounds, NearStart(p.code, p.relocs[i].at), end);
    DistanceShrinks(CutsOf(p), end, target);
  }

  /** Candidates with the same start are the same reference. */
  lemma UniqueStart(p: Program, bounds: set<int>, i: nat, j: nat)
    requires WellFormed(p, bounds) && i < |p.relocs| && j < |p.relocs| && Candidate(p, i) && Candidate(p, j)
    ensures i != j ==> NearStart(p.code, p.relocs[i].at) != NearStart(p.code, p.relocs[j].at)
  {
    assert i == j || Apart(p.relocs[i].at, p.relocs[j].at);
  }

  /** The cut of a candidate. */
  lemma CandidateCut(p: Program, bounds: set<int>, i: nat) returns (k: nat)
    requires WellFormed(p, bounds) && i < |p.relocs| && Candidate(p, i)
    ensures k < |CutsOf(p)| && Owners(p, |p.code|)[k] == i && CutsOf(p)[k] == CutOf(p, i) && FormsOf(p)[k] == FormOf(p, i)
  {
    k := OwnerIndex(p, |p.code|, i);
    UniqueStart(p, bounds, Owners(p, |p.code|)[k], i);
  }

  // ---- Scanning the code

  /** A candidate as the pass records it. */
  datatype Near = Near(start: nat, at: nat, end: nat, lbl: int, cond: bool)

  ghost predicate IsNear(p: Program, i: nat, c: Near)
    requires i < |p.relocs|
  {
    && Candidate(p, i) && c.at == p.relocs[i].at && c.lbl == p.relocs[i].lbl
    && c.start == NearStart(p.code, c.at) && c.end == c.at + 4 && (c.cond <==> c.at == c.start + 3)
  }

  /** The candidates among the first n references and their index by start position. */
  ghost predicate Table(p: Program, n: nat, owners: seq<nat>, candidates: seq<Near>, byStart: seq<int>)
    requires n <= |p.relocs|
  {
    && |owners| == |candidates| && |byStart| == |p.code| + 1
    && (forall k :: 0 <= k < |owners| ==> owners[k] < n && IsNear(p, owners[k], candidates[k]))
    && (forall k, l :: 0 <= k < l < |owners| ==> owners[k] < owners[l])
    && (forall i :: 0 <= i < n && Candidate(p, i) ==> i in owners)
    && (forall s :: 0 <= s < |byStart| ==>
         match Find(p, n, s)
         case None => byStart[s] == -1
         case Some(i) => 0 <= byStart[s] < |owners| && owners[byStart[s]] == i)
  }

  lemma TableStart(p: Program, byStart: seq<int>)
    requires |byStart| == |p.code| + 1 && (forall s :: 0 <= s < |byStart| ==> byStart[s] == -1)
    ensures Table(p, 0, [], [], byStart)
  {
  }

  lemma TableSkip(p: Program, n: nat, owners: seq<nat>, candidates: seq<Near>, byStart: seq<int>)
    requires n < |p.relocs| && !Candidate(p, n) && Table(p, n, owners, candidates, byStart)
    ensures Table(p, n + 1, owners, candidates, byStart)
  {
  }

  lemma TableAdd(p: Program, n: nat, owners: seq<nat>, candidates: seq<Near>, byStart: seq<int>, c: Near)
    requires n < |p.relocs| && Table(p, n, owners, candidates, byStart) && IsNear(p, n, c)
    ensures c.start < |byStart|
    ensures Table(p, n + 1, owners + [n], candidates + [c], byStart[c.start := |candidates|])
  {
  }

  /** Where the scan stands when a candidate starts at its position. */
  lemma CandidateHere(p: Program, bounds: set<int>, owners: seq<nat>, candidates: seq<Near>, byStart: seq<int>, here: nat) returns (k: nat)
    requires WellFormed(p, bounds) && Table(p, |p.relocs|, owners, candidates, byStart) && here < |p.code| && byStart[here] >= 0
    ensures byStart[here] < |candidates| && |owners| == |candidates|
    ensures owners[byStart[here]] < |p.relocs| && IsNear(p, owners[byStart[here]], candidates[byStart[here]])
    ensures candidates[byStart[here]].start == here && here < candidates[byStart[here]].end <= |p.code|
    ensures k < |CutsOf(p)| && CutsOf(p)[k].start == here && CutsOf(p)[k].start + CutsOf(p)[k].size == candidates[byStart[here]].end
    ensures FormsOf(p)[k] == FormOf(p, owners[byStart[here]])
  {
    k := CandidateCut(p, bounds, owners[byStart[here]]);
  }

  lemma NoCandidateHere(p: Program, owners: seq<nat>, candidates: seq<Near>, byStart: seq<int>, here: nat)
    requires Table(p, |p.relocs|, owners, candidates, byStart) && here < |p.code| && byStart[here] < 0
    ensures forall j :: 0 <= j < |CutsOf(p)| ==> CutsOf(p)[j].start != here
  {
    assert Find(p, |p.relocs|, here).None?;
    forall j | 0 <= j < |CutsOf(p)|
      ensures CutsOf(p)[j].start != here
    {
      assert Candidate(p, Owners(p, |p.code|)[j]);
    }
  }

  /** The fields of the candidates that the scan has passed: the last two bytes of each form. */
  ghost predicate FieldsSet(p: Program, candidates: seq<Near>, newFields: seq<int>, here: int) {
    && |newFields| == |candidates|
    && (forall k :: 0 <= k < |candidates| && candidates[k].start < here ==> newFields[k] == NewPos(CutsOf(p), candidates[k].end) - 2)
  }

  /** Passing a candidate sets its field and no other one. */
  lemma FieldsSetNext(p: Program, bounds: set<int>, owners: seq<nat>, candidates: seq<Near>, byStart: seq<int>,
                      newFields: seq<int>, here: nat, field: int)
    requires WellFormed(p, bounds) && Table(p, |p.relocs|, owners, candidates, byStart) && FieldsSet(p, candidates, newFields, here)
    requires here < |p.code| && byStart[here] >= 0
    requires field == NewPos(CutsOf(p), candidates[byStart[here]].end) - 2
    ensures FieldsSet(p, candidates, newFields[byStart[here] := field], candidates[byStart[here]].end)
  {
    hide CutsOf, NewPos, Find;
    var c := byStart[here];
    var i := CandidateHere(p, bounds, owners, candidates, byStart, here);
    forall k | 0 <= k < |candidates| && candidates[k].start < candidates[c].end && k != c
      ensures candidates[k].start < here
    {
      OtherStart(p, bounds, owners, candidates, c, k, byStart);
    }
  }

  lemma FieldsSetStart(p: Program, candidates: seq<Near>, newFields: seq<int>)
    requires |newFields| == |candidates|
    ensures FieldsSet(p, candidates, newFields, 0)
  {
  }

  lemma FieldsSetKeep(p: Program, bounds: set<int>, owners: seq<nat>, candidates: seq<Near>, byStart: seq<int>,
                      newFields: seq<int>, here: nat)
    requires Table(p, |p.relocs|, owners, candidates, byStart) && FieldsSet(p, candidates, newFields, here)
    requires here < |p.code| && byStart[here] < 0
    ensures FieldsSet(p, candidates, newFields, here + 1)
  {
    forall k | 0 <= k < |candidates|
      ensures candidates[k].start != here
    {
      assert IsNear(p, owners[k], candidates[k]);
    }
  }

  /** No other candidate starts at or within one. */
  lemma OtherStart(p: Program, bounds: set<int>, owners: seq<nat>, candidates: seq<Near>, c: nat, k: nat, byStart: seq<int>)
    requires WellFormed(p, bounds) && Table(p, |p.relocs|, owners, candidates, byStart)
    requires c < |candidates| && k < |candidates| && k != c
    ensures candidates[k].start < candidates[c].start || candidates[c].end <= candidates[k].start
  {
    assert IsNear(p, owners[c], candidates[c]) && IsNear(p, owners[k], candidates[k]);
    assert owners[c] != owners[k];
    assert IsInstruction(bounds, candidates[c].start, candidates[c].end);
    assert IsInstruction(bounds, candidates[k].start, candidates[k].end);
    UniqueStart(p, bounds, owners[c], owners[k]);
  }

  /** A position table that answers every boundary with its mapped position. */
  ghost predicate Positions(p: Program, positions: seq<int>) {
    && |positions| == |p.code| + 1
    && (forall q :: 0 <= q <= |p.code| ==> positions[q] >= 0 && (Boundary(CutsOf(p), q) ==> positions[q] == NewPos(CutsOf(p), q)))
  }

  /** A field that is not a candidate's own lies outside every candidate, so its offset is looked
      up like a boundary. */
  lemma FieldIsBoundary(p: Program, bounds: set<int>, at: int)
    requires WellFormed(p, bounds) && FieldIn(p.code, bounds, at)
    requires forall i :: 0 <= i < |p.relocs| && Candidate(p, i) ==> Apart(at, p.relocs[i].at)
    ensures Boundary(CutsOf(p), at) && Boundary(CutsOf(p), at + 4)
    ensures forall k :: 0 <= k < |CutsOf(p)| ==> at + 4 <= CutsOf(p)[k].start || CutsOf(p)[k].start + CutsOf(p)[k].size <= at
  {
    forall k | 0 <= k < |CutsOf(p)|
      ensures at + 4 <= CutsOf(p)[k].start || CutsOf(p)[k].start + CutsOf(p)[k].size <= at
    {
      var i := Owners(p, |p.code|)[k];
      assert Candidate(p, i) && IsInstruction(bounds, CutsOf(p)[k].start, p.relocs[i].at + 4);
    }
  }

  lemma KeptRelocMoves(p: Program, bounds: set<int>, positions: seq<int>, i: nat)
    requires WellFormed(p, bounds) && Positions(p, positions) && i < |p.relocs| && !Candidate(p, i)
    ensures 0 <= p.relocs[i].at < |positions| && positions[p.relocs[i].at] >= 0
    ensures MovedReloc(p, i) == Reloc(positions[p.relocs[i].at], p.relocs[i].lbl)
  {
    forall j | 0 <= j < |p.relocs| && Candidate(p, j)
      ensures Apart(p.relocs[i].at, p.relocs[j].at)
    {
      assert j != i;
    }
    FieldIsBoundary(p, bounds, p.relocs[i].at);
  }

  lemma AbsoluteMoves(p: Program, bounds: set<int>, positions: seq<int>, i: nat)
    requires WellFormed(p, bounds) && Positions(p, positions) && i < |p.absRelocs|
    ensures 0 <= p.absRelocs[i].at < |positions| && positions[p.absRelocs[i].at] >= 0
    ensures positions[p.absRelocs[i].at] == NewPos(CutsOf(p), p.absRelocs[i].at)
  {
    forall j | 0 <= j < |p.relocs| && Candidate(p, j)
      ensures Apart(p.absRelocs[i].at, p.relocs[j].at)
    {
      assert External(p.absRelocs, p.absRelocs[i].at);
    }
    FieldIsBoundary(p, bounds, p.absRelocs[i].at);
  }

  /** The linear search for a converted field finds a candidate exactly for the chosen ones. */
  lemma ConvertedOwner(p: Program, bounds: set<int>, owners: seq<nat>, candidates: seq<Near>, byStart: seq<int>, newFields: seq<int>, i: nat, k: nat)
    requires WellFormed(p, bounds) && Table(p, |p.relocs|, owners, candidates, byStart) && FieldsSet(p, candidates, newFields, |p.code|)
    requires i < |p.relocs| && k < |candidates| && candidates[k].at == p.relocs[i].at
    ensures Candidate(p, i) && k < |newFields| && MovedReloc(p, i) == Reloc(newFields[k] - HALF, p.relocs[i].lbl)
  {
    assert IsNear(p, owners[k], candidates[k]);
    assert owners[k] != i ==> Apart(p.relocs[owners[k]].at, p.relocs[i].at);
    assert candidates[k].start < |p.code|;
  }

  lemma NotConverted(p: Program, owners: seq<nat>, candidates: seq<Near>, byStart: seq<int>, i: nat)
    requires Table(p, |p.relocs|, owners, candidates, byStart) && i < |p.relocs|
    requires forall k :: 0 <= k < |candidates| ==> candidates[k].at != p.relocs[i].at
    ensures !Candidate(p, i)
  {
  }

  lemma {:induction false} OwnersEmpty(p: Program, at: nat)
    requires forall i :: 0 <= i < |p.relocs| ==> !Candidate(p, i)
    ensures Owners(p, at) == []
  {
    if at > 0 {
      OwnersEmpty(p, at - 1);
    }
  }

  lemma NoCandidates(p: Program, owners: seq<nat>, byStart: seq<int>, bounds: set<int>)
    requires WellFormed(p, bounds) && Table(p, |p.relocs|, owners, [], byStart)
    ensures Narrowed(p, p)
  {
    hide WellFormed, Candidate, Fits, Rebuilt;
    forall i | 0 <= i < |p.relocs|
      ensures !Candidate(p, i)
    {
      NotConverted(p, owners, [], byStart, i);
    }
    CuttingIsSound(p, bounds);
    OwnersEmpty(p, |p.code|);
    assert CutsOf(p) == [];
    NothingRebuilt(p.code, FormsOf(p));
  }

  lemma NothingRebuilt(code: seq<byte>, forms: seq<seq<byte>>)
    requires Fits(code, [], forms)
    ensures Rebuilt(code, [], forms) == code
  {
  }

  /** What the closing loop finds for each candidate: a distance that fits, and a zero field. */
  lemma ClosingCheck(p: Program, bounds: set<int>, owners: seq<nat>, candidates: seq<Near>, byStart: seq<int>, newFields: seq<int>,
                     newCode: seq<byte>, labels: seq<int>, k: nat)
    requires WellFormed(p, bounds) && Table(p, |p.relocs|, owners, candidates, byStart) && FieldsSet(p, candidates, newFields, |p.code|)
    requires Fits(p.code, CutsOf(p), FormsOf(p)) && newCode == Rebuilt(p.code, CutsOf(p), FormsOf(p))
    requires MappedAll(CutsOf(p), p.labelPos, labels, |p.labelPos|) && k < |candidates|
    ensures 0 <= candidates[k].lbl < |labels| && k < |newFields|
    ensures FitsWord(labels[candidates[k].lbl] - (newFields[k] + 2))
    ensures 0 <= newFields[k] && newFields[k] + 2 <= |newCode| && newCode[newFields[k]] == 0 && newCode[newFields[k] + 1] == 0
  {
    hide *;
    var i := TableOwner(p, owners, candidates, byStart, newFields, labels, k);
    CandidateFits(p, bounds, i);
    var j := CandidateCut(p, bounds, i);
    FormEndsInZeros(p, i);
    RebuiltFormEnd(p.code, CutsOf(p), FormsOf(p), j, candidates[k].end, 1);
    RebuiltFormEnd(p.code, CutsOf(p), FormsOf(p), j, candidates[k].end, 2);
  }

  lemma TableOwner(p: Program, owners: seq<nat>, candidates: seq<Near>, byStart: seq<int>, newFields: seq<int>, labels: seq<int>, k: nat)
    returns (i: nat)
    requires Table(p, |p.relocs|, owners, candidates, byStart) && FieldsSet(p, candidates, newFields, |p.code|)
    requires MappedAll(CutsOf(p), p.labelPos, labels, |p.labelPos|) && k < |candidates|
    ensures i < |p.relocs| && Candidate(p, i) && |newFields| == |candidates|
    ensures candidates[k].end == p.relocs[i].at + 4 && candidates[k].lbl == p.relocs[i].lbl
    ensures newFields[k] == NewPos(CutsOf(p), p.relocs[i].at + 4) - 2
    ensures 0 <= p.relocs[i].lbl < |labels|
    ensures labels[p.relocs[i].lbl] == NewPos(CutsOf(p), LabelPosition(p.labelPos, p.relocs[i].lbl))
    ensures NearStart(p.code, p.relocs[i].at) >= 0
    ensures CutOf(p, i).start + CutOf(p, i).size == p.relocs[i].at + 4
  {
    i := owners[k];
    assert IsNear(p, i, candidates[k]) && candidates[k].start < |p.code|;
  }

  lemma FormEndsInZeros(p: Program, i: nat)
    requires i < |p.relocs| && NearStart(p.code, p.relocs[i].at) >= 0
    ensures CutOf(p, i).keep >= 3 && FormOf(p, i)[CutOf(p, i).keep - 1] == 0 && FormOf(p, i)[CutOf(p, i).keep - 2] == 0
  {
  }

  lemma BoundsAnswered(p: Program, bounds: set<int>, positions: seq<int>)
    requires WellFormed(p, bounds) && Positions(p, positions)
    ensures forall b :: b in bounds ==> 0 <= b < |positions| && 0 <= positions[b] == NewPos(CutsOf(p), b)
  {
    CuttingIsSound(p, bounds);
  }

  lemma WordMeans(d: int)
    requires FitsWord(d)
    ensures -32768 <= d <= 32767
  {
  }

  lemma WellFormedFacts(p: Program, bounds: set<int>)
    requires WellFormed(p, bounds)
    ensures forall i :: 0 <= i < |p.labelPos| ==> p.labelPos[i] < 0 || p.labelPos[i] in bounds
    ensures forall i :: 0 <= i < |p.ends| ==> p.ends[i] in bounds
  {
  }

  lemma TableLength(p: Program, owners: seq<nat>, candidates: seq<Near>, byStart: seq<int>)
    requires Table(p, |p.relocs|, owners, candidates, byStart)
    ensures |byStart| == |p.code| + 1 && (candidates == [] ==> owners == [])
  {
  }

  lemma PositionsIntro(p: Program, positions: seq<int>)
    requires |positions| == |p.code| + 1
    requires forall q :: 0 <= q <= |p.code| ==> positions[q] >= 0 && (Boundary(CutsOf(p), q) ==> positions[q] == NewPos(CutsOf(p), q))
    ensures Positions(p, positions)
  {
  }

  lemma NarrowedIntro(p: Program, q: Program)
    requires Fits(p.code, CutsOf(p), FormsOf(p)) && q.code == Rebuilt(p.code, CutsOf(p), FormsOf(p))
    requires MappedAll(CutsOf(p), p.labelPos, q.labelPos, |p.labelPos|) && MappedAll(CutsOf(p), p.ends, q.ends, |p.ends|)
    requires MappedRelocs(p, q.relocs, |p.relocs|) && MappedAbsolute(p, q.absRelocs, |p.absRelocs|)
    ensures Narrowed(p, q)
  {
  }

  // ---- What the result means

  /** Every byte outside the candidates is kept, at its mapped position. */
  lemma NarrowedByte(p: Program, q: Program, at: nat)
    requires Narrowed(p, q) && at < |p.code| && Untouched(CutsOf(p), at)
    ensures 0 <= NewPos(CutsOf(p), at) < |q.code| && q.code[NewPos(CutsOf(p), at)] == p.code[at]
  {
    RebuiltByte(p.code, CutsOf(p), FormsOf(p), at);
  }

  /** A candidate becomes its rel16 form at the mapped start. Its marked reference names the last
      two bytes, which hold zero, and the image of its label is within their reach. */
  lemma NarrowedTransfer(p: Program, q: Program, bounds: set<int>, i: nat)
    requires WellFormed(p, bounds) && Narrowed(p, q) && i < |p.relocs| && Candidate(p, i)
    ensures var start, end := NearStart(p.code, p.relocs[i].at), p.relocs[i].at + 4;
      && start >= 0 && 0 <= NewPos(CutsOf(p), start) && NewPos(CutsOf(p), end) == NewPos(CutsOf(p), start) + |FormOf(p, i)| <= |q.code|
      && q.code[NewPos(CutsOf(p), start)..NewPos(CutsOf(p), end)] == FormOf(p, i)
      && |q.relocs| == |p.relocs| && q.relocs[i] == Reloc(NewPos(CutsOf(p), end) - 2 - HALF, p.relocs[i].lbl)
      && FitsWord(LabelPosition(q.labelPos, q.relocs[i].lbl) - NewPos(CutsOf(p), end))
  {
    hide *;
    var start, end := NearStart(p.code, p.relocs[i].at), p.relocs[i].at + 4;
    NarrowedFacts(p, q, bounds, i);
    CandidateFits(p, bounds, i);
    var j := CandidateCut(p, bounds, i);
    RebuiltForm(p.code, CutsOf(p), FormsOf(p), j, start);
    AtCut(CutsOf(p), j, start, end);
  }

  lemma NarrowedFacts(p: Program, q: Program, bounds: set<int>, i: nat)
    requires WellFormed(p, bounds) && Narrowed(p, q) && i < |p.relocs| && Candidate(p, i)
    ensures Fits(p.code, CutsOf(p), FormsOf(p)) && Ordered(CutsOf(p)) && q.code == Rebuilt(p.code, CutsOf(p), FormsOf(p))
    ensures |q.relocs| == |p.relocs| && q.relocs[i] == Reloc(NewPos(CutsOf(p), p.relocs[i].at + 4) - 2 - HALF, p.relocs[i].lbl)
    ensures NearStart(p.code, p.relocs[i].at) >= 0
    ensures CutOf(p, i) == Cut(NearStart(p.code, p.relocs[i].at), p.relocs[i].at + 4 - NearStart(p.code, p.relocs[i].at), |FormOf(p, i)|)
    ensures LabelPosition(q.labelPos, p.relocs[i].lbl) == NewPos(CutsOf(p), LabelPosition(p.labelPos, p.relocs[i].lbl))
  {
    hide Rebuilt, NewPos, MappedAbsolute, Inside;
  }

  // ---- The pass

  class Asm386 {
    var code: seq<byte>
    var labelPos: seq<int>
    var relocs: seq<Reloc>
    var absRelocs: seq<AbsReloc>
    var ends: seq<int>

    ghost function Contents(): (p: Program)
      reads this
      ensures p.code == code && p.labelPos == labelPos && p.relocs == relocs && p.absRelocs == absRelocs && p.ends == ends
    {
      Program(code, labelPos, relocs, absRelocs, ends)
    }

    /** Recognises an overridden near JMP or Jcc to a set label within reach. */
    method Recognise(i: nat) returns (found: bool, c: Near)
      requires i < |relocs|
      ensures found <==> Candidate(Contents(), i)
      ensures found ==> IsNear(Contents(), i, c)
    {
      c := Near(0, 0, 0, 0, false);
      var at, lbl := relocs[i].at, relocs[i].lbl;
      if lbl < 0 || lbl >= |labelPos| || labelPos[lbl] < 0 {
        return false, c;
      }
      var start: int, end: int, cond := -1, -1, false;
      if at >= 2 && at + 4 <= |code| && code[at - 2] == 0x66 && code[at - 1] == 0xe9 {
        start, end := at - 2, at + 4;
      } else if at >= 3 && at + 4 <= |code| && code[at - 3] == 0x66 && code[at - 2] == 0x0f && code[at - 1] / 16 == 8 {
        start, end, cond := at - 3, at + 4, true;
      }
      if start < 0 {
        return false, c;
      }
      for k := 0 to |absRelocs|
        invariant forall j :: 0 <= j < k ==> absRelocs[j].at != at
      {
        if absRelocs[k].at == at {
          return false, c;
        }
      }
      var distance := labelPos[lbl] - end;
      if distance < -32768 || distance > 32767 {
        return false, c;
      }
      return true, Near(start, at, end, lbl, cond);
    }

    method FindCandidates() returns (candidates: seq<Near>, byStart: seq<int>, ghost owners: seq<nat>)
      ensures Table(Contents(), |relocs|, owners, candidates, byStart)
    {
      ghost var p := Contents();
      candidates, owners := [], [];
      byStart := seq(|code| + 1, _ => -1);
      TableStart(p, byStart);
      for i := 0 to |relocs|
        invariant Table(p, i, owners, candidates, byStart)
      {
        hide Table, Candidate;
        var found, c := Recognise(i);
        if found {
          TableAdd(p, i, owners, candidates, byStart, c);
          byStart := byStart[c.start := |candidates|];
          candidates := candidates + [c];
          owners := owners + [i];
        } else {
          TableSkip(p, i, owners, candidates, byStart);
        }
      }
    }

    /** The form of a candidate, as the scan appends it. */
    method AppendForm(c: Near, newCode: seq<byte>, ghost i: nat) returns (now: seq<byte>, field: nat)
      requires i < |relocs| && IsNear(Contents(), i, c)
      ensures now == newCode + FormOf(Contents(), i) && field == |now| - 2
    {
      now := newCode;
      if c.cond {
        now := now + [0x0f, code[c.at - 1]];
      } else {
        now := now + [code[c.at - 1]];
      }
      field := |now|;
      now := now + [0, 0];
    }

    /** Writes the rel16 form of the candidate at the scan position, and maps its inside. */
    method PassCandidate(c: Near, index: nat, here: nat, newCode: seq<byte>, positions: seq<int>, newFields: seq<int>, ghost i: nat)
      returns (now: seq<byte>, mapped: seq<int>, fields: seq<int>)
      requires i < |relocs| && IsNear(Contents(), i, c) && here == c.start && c.end <= |code| < |positions| && index < |newFields|
      ensures now == newCode + FormOf(Contents(), i) && fields == newFields[index := |now| - 2]
      ensures |mapped| == |positions| && mapped[here] == |newCode|
      ensures forall q :: 0 <= q < here || c.end <= q < |mapped| ==> mapped[q] == positions[q]
      ensures forall q :: here < q < c.end ==> mapped[q] >= 0
    {
      mapped := positions[here := |newCode|];
      var field;
      now, field := AppendForm(c, newCode, i);
      fields := newFields[index := field];
      hide Candidate, NearStart, FormOf;
      for interior := here + 1 to c.end
        invariant |mapped| == |positions| && mapped[here] == |newCode|
        invariant forall q :: 0 <= q < here || interior <= q < |mapped| ==> mapped[q] == positions[q]
        invariant forall q :: here < q < interior ==> mapped[q] >= 0
      {
        mapped := mapped[interior := |now|];
      }
    }

    /** Builds the new code in one scan, with the position of every old byte. */
    method Scan(candidates: seq<Near>, byStart: seq<int>, ghost owners: seq<nat>, ghost bounds: set<int>)
      returns (newCode: seq<byte>, positions: seq<int>, newFields: seq<int>)
      requires WellFormed(Contents(), bounds) && Table(Contents(), |relocs|, owners, candidates, byStart)
      requires |byStart| == |code| + 1
      ensures Fits(code, CutsOf(Contents()), FormsOf(Contents()))
      ensures newCode == Rebuilt(code, CutsOf(Contents()), FormsOf(Contents()))
      ensures |positions| == |code| + 1 && FieldsSet(Contents(), candidates, newFields, |code|)
      ensures forall q :: 0 <= q <= |code| ==>
        positions[q] >= 0 && (Boundary(CutsOf(Contents()), q) ==> positions[q] == NewPos(CutsOf(Contents()), q))
    {
      hide *;
      ghost var p := Contents();
      ghost var cuts, forms := CutsOf(p), FormsOf(p);
      CuttingIsSound(p, bounds);
      positions := seq(|code| + 1, _ => -1);
      newCode := [];
      newFields := seq(|candidates|, _ => 0);
      var here: nat := 0;
      ghost var k: nat := 0;
      ScanStart(code, cuts, forms, positions);
      FieldsSetStart(p, candidates, newFields);
      while here < |code|
        invariant here <= |code| && |positions| == |code| + 1 && |newFields| == |candidates|
        invariant Scanned(code, cuts, forms, k, here, newCode, positions)
        invariant FieldsSet(p, candidates, newFields, here)
        decreases |code| - here
      {
        var index := byStart[here];
        if index < 0 {
          NoCandidateHere(p, owners, candidates, byStart, here);
          ScanKeep(code, cuts, forms, k, here, newCode, positions);
          FieldsSetKeep(p, bounds, owners, candidates, byStart, newFields, here);
          positions := positions[here := |newCode|];
          newCode := newCode + [code[here]];
          here := here + 1;
        } else {
          ghost var j := CandidateHere(p, bounds, owners, candidates, byStart, here);
          ScanFinds(code, cuts, forms, k, here, newCode, positions, j);
          var c := candidates[index];
          ghost var was, before, fields := newCode, positions, newFields;
          newCode, positions, newFields := PassCandidate(c, index, here, newCode, positions, newFields, owners[index]);
          ScanReplace(code, cuts, forms, k, here, was, before, c.end, positions);
          FieldsSetNext(p, bounds, owners, candidates, byStart, fields, here, |newCode| - 2);
          here := c.end;
          k := k + 1;
        }
      }
      ScanEnd(code, cuts, forms, k, newCode, positions);
      positions := positions[|code| := |newCode|];
    }

    /** Looks positions up; an unset one stays, and a position outside the table fails. */
    static method MapAll(was: seq<int>, positions: seq<int>, ghost p: Program, ghost bounds: set<int>) returns (now: seq<int>, ok: bool)
      requires WellFormed(p, bounds) && Positions(p, positions) && (forall i :: 0 <= i < |was| ==> was[i] < 0 || was[i] in bounds)
      ensures ok && MappedAll(CutsOf(p), was, now, |was|)
    {
      hide WellFormed, Positions, CutsOf, NewPos;
      BoundsAnswered(p, bounds, positions);
      now := was;
      for i := 0 to |was|
        invariant MappedAll(CutsOf(p), was, now, i)
      {
        if now[i] < 0 {
          continue;
        }
        if now[i] >= |positions| || positions[now[i]] < 0 {
          return now, false;
        }
        now := now[i := positions[now[i]]];
      }
      ok := true;
    }

    method MapRelocs(positions: seq<int>, candidates: seq<Near>, newFields: seq<int>, ghost owners: seq<nat>, ghost byStart: seq<int>,
                     ghost p: Program, ghost bounds: set<int>) returns (ok: bool)
      requires WellFormed(p, bounds) && Positions(p, positions) && relocs == p.relocs
      requires Table(p, |p.relocs|, owners, candidates, byStart) && FieldsSet(p, candidates, newFields, |p.code|)
      modifies this`relocs
      ensures ok && MappedRelocs(p, relocs, |p.relocs|)
    {
      hide WellFormed, Positions, Table, FieldsSet, CutsOf, Candidate, MovedReloc;
      for i := 0 to |relocs|
        invariant MappedRelocs(p, relocs, i)
      {
        var at := relocs[i].at;
        var converted: int := -1;
        for k := 0 to |candidates|
          invariant converted == -1 && forall j :: 0 <= j < k ==> candidates[j].at != at
        {
          if candidates[k].at == at {
            converted := k;
            break;
          }
        }
        if converted >= 0 {
          ConvertedOwner(p, bounds, owners, candidates, byStart, newFields, i, converted);
          relocs := relocs[i := Reloc(newFields[converted] - HALF, relocs[i].lbl)];
          continue;
        }
        NotConverted(p, owners, candidates, byStart, i);
        KeptRelocMoves(p, bounds, positions, i);
        if at < 0 || at >= |positions| || positions[at] < 0 {
          return false;
        }
        relocs := relocs[i := Reloc(positions[at], relocs[i].lbl)];
      }
      ok := true;
    }

    method MapAbsolutes(positions: seq<int>, ghost p: Program, ghost bounds: set<int>) returns (ok: bool)
      requires WellFormed(p, bounds) && Positions(p, positions) && absRelocs == p.absRelocs
      modifies this`absRelocs
      ensures ok && MappedAbsolute(p, absRelocs, |p.absRelocs|)
    {
      hide WellFormed, Positions, CutsOf;
      for i := 0 to |absRelocs|
        invariant MappedAbsolute(p, absRelocs, i)
      {
        AbsoluteMoves(p, bounds, positions, i);
        var at := absRelocs[i].at;
        if at < 0 || at >= |positions| || positions[at] < 0 {
          return false;
        }
        absRelocs := absRelocs[i := absRelocs[i].(at := positions[at])];
      }
      ok := true;
    }

    /** Checks the new distances and leaves a zero addend in each field. */
    method CloseFields(candidates: seq<Near>, newFields: seq<int>, ghost owners: seq<nat>, ghost byStart: seq<int>,
                       ghost p: Program, ghost bounds: set<int>) returns (ok: bool)
      requires WellFormed(p, bounds) && Table(p, |p.relocs|, owners, candidates, byStart) && FieldsSet(p, candidates, newFields, |p.code|)
      requires Fits(p.code, CutsOf(p), FormsOf(p)) && code == Rebuilt(p.code, CutsOf(p), FormsOf(p))
      requires MappedAll(CutsOf(p), p.labelPos, labelPos, |p.labelPos|)
      modifies this`code
      ensures ok && code == old(code)
    {
      hide *;
      for k := 0 to |candidates|
        invariant code == old(code)
      {
        ClosingCheck(p, bounds, owners, candidates, byStart, newFields, code, labelPos, k);
        WordMeans(labelPos[candidates[k].lbl] - (newFields[k] + 2));
        var field := newFields[k];
        var distance := labelPos[candidates[k].lbl] - (field + 2);
        if distance < -32768 || distance > 32767 {
          return false;
        }
        code := code[field := 0];
        code := code[field + 1 := 0];
      }
      ok := true;
    }

    /** Narrows every candidate and moves everything that names a code position. It never fails
        on well-formed code. */
    method Narrow(ghost bounds: set<int>) returns (ok: bool)
      requires WellFormed(Contents(), bounds)
      modifies this
      ensures ok && Narrowed(old(Contents()), Contents())
    {
      hide *;
      ghost var p := Contents();
      WellFormedFacts(p, bounds);
      var candidates, byStart, owners := FindCandidates();
      TableLength(p, owners, candidates, byStart);
      if |candidates| == 0 {
        NoCandidates(p, owners, byStart, bounds);
        return true;
      }
      var newCode, positions, newFields := Scan(candidates, byStart, owners, bounds);
      PositionsIntro(p, positions);
      labelPos, ok := MapAll(labelPos, positions, p, bounds);
      if !ok {
        return;
      }
      ok := MapRelocs(positions, candidates, newFields, owners, byStart, p, bounds);
      if !ok {
        return;
      }
      ok := MapAbsolutes(positions, p, bounds);
      if !ok {
        return;
      }
      ends, ok := MapAll(ends, positions, p, bounds);
      if !ok {
        return;
      }
      code := newCode;
      ok := CloseFields(candidates, newFields, owners, byStart, p, bounds);
      NarrowedIntro(p, Contents());
    }
  }
}
