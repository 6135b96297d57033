/** Shortening instructions in place: what happens to positions.

    A cut is an instruction that occupies `size` bytes at `start` and `keep` bytes afterwards.
    The map of positions subtracts, from each position, everything saved strictly before it. */
module Shrink {
  import opened Emitted

  datatype Cut = Cut(start: nat, size: nat, keep: nat)

  function Saving(c: Cut): int {
    c.size - c.keep
  }

  /** Each cut keeps at least one byte; cuts come in code order and do not overlap. */
  ghost predicate Ordered(cuts: seq<Cut>) {
    && (forall i :: 0 <= i < |cuts| ==> 0 < cuts[i].keep <= cuts[i].size)
    && (forall i, j :: 0 <= i < j < |cuts| ==> cuts[i].start + cuts[i].size <= cuts[j].start)
  }

  /** What the first n cuts save before a position. */
  function SavedBefore(cuts: seq<Cut>, n: nat, p: int): int
    requires n <= |cuts|
  {
    if n == 0 then 0
    else SavedBefore(cuts, n - 1, p) + if cuts[n - 1].start < p then Saving(cuts[n - 1]) else 0
  }

  /** The simple definition of the position map. */
  function NewPos(cuts: seq<Cut>, p: int): int {
    p - SavedBefore(cuts, |cuts|, p)
  }

  /** The running total of savings. */
  function Total(cuts: seq<Cut>, n: nat): int
    requires n <= |cuts|
  {
    if n == 0 then 0 else Total(cuts, n - 1) + Saving(cuts[n - 1])
  }

  /** A position that no cut has strictly inside it. */
  ghost predicate Boundary(cuts: seq<Cut>, p: int) {
    forall i :: 0 <= i < |cuts| ==> !(cuts[i].start < p < cuts[i].start + cuts[i].size)
  }

  /** A byte that belongs to no cut. */
  ghost predicate Untouched(cuts: seq<Cut>, p: int) {
    forall i :: 0 <= i < |cuts| ==> !(cuts[i].start <= p < cuts[i].start + cuts[i].size)
  }

  /** With k cuts starting before p and the others not, the running total answers the sum. */
  lemma {:induction false} SavedIsTotal(cuts: seq<Cut>, k: nat, n: nat, p: int)
    requires k <= n <= |cuts|
    requires forall i :: 0 <= i < k ==> cuts[i].start < p
    requires forall i :: k <= i < n ==> cuts[i].start >= p
    ensures SavedBefore(cuts, n, p) == Total(cuts, k)
    decreases n
  {
    if n > k {
      SavedIsTotal(cuts, k, n - 1, p);
    } else if n > 0 {
      SavedIsTotal(cuts, k - 1, n - 1, p);
    }
  }

  /** Between two positions outside the instructions' insides the map is monotone and never
      stretches the distance. */
  lemma {:induction false} SavedContracts(cuts: seq<Cut>, n: nat, p: int, q: int)
    requires n <= |cuts| && Ordered(cuts) && p <= q
    requires Boundary(cuts, p) && Boundary(cuts, q)
    ensures 0 <= SavedBefore(cuts, n, q) - SavedBefore(cuts, n, p) <= q - p
  {
    if n > 0 {
      var last := cuts[n - 1];
      if p <= last.start < q {
        assert last.start + last.size <= q;
        assert Boundary(cuts, last.start);
        SavedContracts(cuts, n - 1, p, last.start);
        SavedSame(cuts, n - 1, last.start, q);
      } else {
        SavedContracts(cuts, n - 1, p, q);
      }
    }
  }

  lemma {:induction false} SavedSame(cuts: seq<Cut>, n: nat, p: int, q: int)
    requires n <= |cuts|
    requires forall i :: 0 <= i < n ==> (cuts[i].start < p <==> cuts[i].start < q)
    ensures SavedBefore(cuts, n, p) == SavedBefore(cuts, n, q)
  {
    if n > 0 {
      SavedSame(cuts, n - 1, p, q);
    }
  }

  lemma Contracts(cuts: seq<Cut>, p: int, q: int)
    requires Ordered(cuts) && p <= q && Boundary(cuts, p) && Boundary(cuts, q)
    ensures 0 <= NewPos(cuts, q) - NewPos(cuts, p) <= q - p
  {
    SavedContracts(cuts, |cuts|, p, q);
  }

  /** A signed distance between boundaries keeps its direction and does not grow. */
  lemma DistanceShrinks(cuts: seq<Cut>, from: int, to: int)
    requires Ordered(cuts) && Boundary(cuts, from) && Boundary(cuts, to)
    ensures from <= to ==> 0 <= NewPos(cuts, to) - NewPos(cuts, from) <= to - from
    ensures to <= from ==> to - from <= NewPos(cuts, to) - NewPos(cuts, from) <= 0
  {
    if from <= to {
      Contracts(cuts, from, to);
    }
    if to <= from {
      Contracts(cuts, to, from);
    }
  }

  /** A stretch of code that no cut starts in moves rigidly. */
  lemma Rigid(cuts: seq<Cut>, p: int, q: int)
    requires p <= q && (forall i :: 0 <= i < |cuts| ==> !(p <= cuts[i].start < q))
    ensures NewPos(cuts, q) - NewPos(cuts, p) == q - p
  {
    SavedSame(cuts, |cuts|, p, q);
  }

  /** No cut starts between two positions, in either order. */
  ghost predicate NothingBetween(cuts: seq<Cut>, p: int, q: int) {
    forall k :: 0 <= k < |cuts| ==> !(p <= cuts[k].start < q) && !(q <= cuts[k].start < p)
  }

  lemma {:induction false} SavedBetween(cuts: seq<Cut>, n: nat, p: int, q: int)
    requires n <= |cuts| && p <= q && (forall k :: 0 <= k < |cuts| ==> cuts[k].keep < cuts[k].size)
    ensures SavedBefore(cuts, n, p) <= SavedBefore(cuts, n, q)
    ensures SavedBefore(cuts, n, p) == SavedBefore(cuts, n, q) <==> forall k :: 0 <= k < n ==> !(p <= cuts[k].start < q)
  {
    if n > 0 {
      SavedBetween(cuts, n - 1, p, q);
    }
  }

  /** Where every cut saves something, a distance is kept exactly when no cut starts in between. */
  lemma RigidIff(cuts: seq<Cut>, p: int, q: int)
    requires forall k :: 0 <= k < |cuts| ==> cuts[k].keep < cuts[k].size
    ensures NewPos(cuts, q) - NewPos(cuts, p) == q - p <==> NothingBetween(cuts, p, q)
  {
    if p <= q {
      SavedBetween(cuts, |cuts|, p, q);
    } else {
      SavedBetween(cuts, |cuts|, q, p);
    }
  }

  /** Positions around the k-th cut, in terms of the running totals. */
  lemma AtCut(cuts: seq<Cut>, k: nat, start: int, end: int)
    requires k < |cuts| && Ordered(cuts) && start == cuts[k].start && end == start + cuts[k].size
    ensures NewPos(cuts, start) == start - Total(cuts, k)
    ensures NewPos(cuts, end) == NewPos(cuts, start) + cuts[k].keep
  {
    assert 0 < cuts[k].keep <= cuts[k].size;
    AtStart(cuts, k, start);
    InCut(cuts, k, end);
  }

  lemma AtStart(cuts: seq<Cut>, k: nat, p: int)
    requires k < |cuts| && Ordered(cuts) && p == cuts[k].start
    ensures NewPos(cuts, p) == p - Total(cuts, k)
  {
    assert forall i :: 0 <= i < k ==> cuts[i].start < p;
    SavedIsTotal(cuts, k, |cuts|, p);
  }

  lemma InCut(cuts: seq<Cut>, k: nat, p: int)
    requires k < |cuts| && Ordered(cuts)
    requires cuts[k].start < p <= cuts[k].start + cuts[k].size
    ensures NewPos(cuts, p) == p - Total(cuts, k) - Saving(cuts[k])
  {
    assert forall i :: k < i < |cuts| ==> cuts[i].start >= p;
    SavedIsTotal(cuts, k + 1, |cuts|, p);
  }

  /** Different untouched bytes have different images, and none falls into a kept instruction. */
  lemma Injective(cuts: seq<Cut>, p: int, q: int)
    requires Ordered(cuts) && p < q && Boundary(cuts, p) && Boundary(cuts, q)
    ensures NewPos(cuts, p) < NewPos(cuts, q)
    ensures Untouched(cuts, p) ==> NewPos(cuts, p) + 1 <= NewPos(cuts, q)
  {
    if k :| 0 <= k < |cuts| && cuts[k].start == p {
      var end := p + cuts[k].size;
      AtCut(cuts, k, p, end);
      assert Boundary(cuts, end);
      Contracts(cuts, end, q);
    } else {
      assert Boundary(cuts, p + 1);
      Rigid(cuts, p, p + 1);
      Contracts(cuts, p + 1, q);
    }
  }

  /** Every new position up to the new length is the image of exactly one untouched byte, or
      lies in exactly one kept instruction. */
  lemma {:induction false} Covers(cuts: seq<Cut>, n: nat, len: nat, at: int)
    requires n <= |cuts| && Ordered(cuts)
    requires n == |cuts| || cuts[n].start >= len
    requires n > 0 ==> cuts[n - 1].start + cuts[n - 1].size <= len
    requires 0 <= at < len - Total(cuts, n)
    ensures (exists p :: 0 <= p < len && Untouched(cuts, p) && NewPos(cuts, p) == at)
         || (exists k :: 0 <= k < n && NewPos(cuts, cuts[k].start) <= at < NewPos(cuts, cuts[k].start) + cuts[k].keep)
    decreases n
  {
    var from := if n == 0 then 0 else cuts[n - 1].start + cuts[n - 1].size;
    var p := at + Total(cuts, n);
    if p >= from {
      SavedIsTotal(cuts, n, |cuts|, p);
      assert Untouched(cuts, p) && NewPos(cuts, p) == at;
    } else {
      var last := cuts[n - 1];
      AtCut(cuts, n - 1, last.start, from);
      if at >= NewPos(cuts, last.start) {
        assert NewPos(cuts, last.start) <= at < NewPos(cuts, last.start) + last.keep;
      } else {
        Covers(cuts, n - 1, last.start, at);
      }
    }
  }

  /** Whole instructions in code order are disjoint, and no other instruction boundary is lost. */
  lemma InstructionsAreCuts(bounds: set<int>, cuts: seq<Cut>)
    requires forall k :: 0 <= k < |cuts| ==> IsInstruction(bounds, cuts[k].start, cuts[k].start + cuts[k].size)
    requires forall k :: 0 <= k < |cuts| ==> 0 < cuts[k].keep <= cuts[k].size
    requires forall i, j :: 0 <= i < j < |cuts| ==> cuts[i].start < cuts[j].start
    ensures Ordered(cuts)
    ensures forall b :: b in bounds ==> Boundary(cuts, b)
  {
    forall i, j | 0 <= i < j < |cuts|
      ensures cuts[i].start + cuts[i].size <= cuts[j].start
    {
      assert cuts[j].start in bounds && IsInstruction(bounds, cuts[i].start, cuts[i].start + cuts[i].size);
    }
    forall b | b in bounds
      ensures Boundary(cuts, b)
    {
      forall k | 0 <= k < |cuts|
        ensures !(cuts[k].start < b < cuts[k].start + cuts[k].size)
      {
        assert IsInstruction(bounds, cuts[k].start, cuts[k].start + cuts[k].size);
      }
    }
  }

  /** When every cut saves three bytes, the map subtracts three for each cut lying before. */
  lemma {:induction false} SavedByThrees(cuts: seq<Cut>, n: nat, q: int)
    requires n <= |cuts| && (forall k :: 0 <= k < n ==> Saving(cuts[k]) == 3)
    ensures SavedBefore(cuts, n, q) == 3 * |set k | 0 <= k < n && cuts[k].start < q|
  {
    var before := set k | 0 <= k < n && cuts[k].start < q;
    if n > 0 {
      SavedByThrees(cuts, n - 1, q);
      var rest := set k | 0 <= k < n - 1 && cuts[k].start < q;
      assert before == if cuts[n - 1].start < q then rest + {n - 1} else rest;
    } else {
      assert before == {};
    }
  }

  // ---- The code with every cut replaced

  /** Each cut lies in the code and has a replacement of the length it keeps. */
  ghost predicate Fits<T>(was: seq<T>, cuts: seq<Cut>, forms: seq<seq<T>>) {
    && Ordered(cuts) && |forms| == |cuts|
    && (forall k :: 0 <= k < |cuts| ==> |forms[k]| == cuts[k].keep && cuts[k].start + cuts[k].size <= |was|)
  }

  /** Where the k-th stretch of kept code begins. */
  function EndOf(cuts: seq<Cut>, k: nat): nat
    requires k <= |cuts|
  {
    if k == 0 then 0 else cuts[k - 1].start + cuts[k - 1].size
  }

  /** The new code up to and including the k-th replacement. */
  ghost function Laid<T>(was: seq<T>, cuts: seq<Cut>, forms: seq<seq<T>>, k: nat): (now: seq<T>)
    requires Fits(was, cuts, forms) && k <= |cuts|
  {
    if k == 0 then [] else Laid(was, cuts, forms, k - 1) + was[EndOf(cuts, k - 1)..cuts[k - 1].start] + forms[k - 1]
  }

  /** The whole new code. */
  ghost function Rebuilt<T>(was: seq<T>, cuts: seq<Cut>, forms: seq<seq<T>>): seq<T>
    requires Fits(was, cuts, forms)
  {
    Laid(was, cuts, forms, |cuts|) + was[EndOf(cuts, |cuts|)..]
  }

  lemma {:induction false} LaidLength<T>(was: seq<T>, cuts: seq<Cut>, forms: seq<seq<T>>, k: nat)
    requires Fits(was, cuts, forms) && k <= |cuts|
    ensures |Laid(was, cuts, forms, k)| == EndOf(cuts, k) - Total(cuts, k)
    ensures 0 <= Total(cuts, k)
  {
    if k > 0 {
      LaidLength(was, cuts, forms, k - 1);
    }
  }

  /** Before the k-th cut the map subtracts what the first k cuts save. */
  lemma BetweenCuts(cuts: seq<Cut>, k: nat, p: int)
    requires Ordered(cuts) && k <= |cuts| && EndOf(cuts, k) <= p && (k < |cuts| ==> p <= cuts[k].start)
    requires k > 0 ==> cuts[k - 1].start < p
    ensures NewPos(cuts, p) == p - Total(cuts, k)
  {
    forall i | 0 <= i < k
      ensures cuts[i].start < p
    {
    }
    SavedIsTotal(cuts, k, |cuts|, p);
  }

  /** An untouched byte is found at its mapped position. */
  lemma {:induction false} LaidByte<T>(was: seq<T>, cuts: seq<Cut>, forms: seq<seq<T>>, k: nat, p: nat)
    requires Fits(was, cuts, forms) && k <= |cuts| && p < EndOf(cuts, k) && Untouched(cuts, p)
    ensures 0 <= NewPos(cuts, p) < |Laid(was, cuts, forms, k)|
    ensures Laid(was, cuts, forms, k)[NewPos(cuts, p)] == was[p]
  {
    LaidLength(was, cuts, forms, k - 1);
    if p < EndOf(cuts, k - 1) {
      LaidByte(was, cuts, forms, k - 1, p);
    } else {
      BetweenCuts(cuts, k - 1, p);
    }
  }

  /** A replacement is found at the mapped start of its cut. */
  lemma {:induction false} LaidForm<T>(was: seq<T>, cuts: seq<Cut>, forms: seq<seq<T>>, k: nat, j: nat, start: nat)
    requires Fits(was, cuts, forms) && j < k <= |cuts| && start == cuts[j].start
    ensures 0 <= NewPos(cuts, start) && NewPos(cuts, start) + cuts[j].keep <= |Laid(was, cuts, forms, k)|
    ensures Laid(was, cuts, forms, k)[NewPos(cuts, start)..NewPos(cuts, start) + cuts[j].keep] == forms[j]
    decreases k
  {
    hide Laid, Fits, NewPos;
    LaidGrows(was, cuts, forms, k);
    if j < k - 1 {
      LaidForm(was, cuts, forms, k - 1, j, start);
    } else {
      LaidLast(was, cuts, forms, j);
    }
  }

  lemma LaidGrows<T>(was: seq<T>, cuts: seq<Cut>, forms: seq<seq<T>>, k: nat)
    requires Fits(was, cuts, forms) && 0 < k <= |cuts|
    ensures Laid(was, cuts, forms, k - 1) <= Laid(was, cuts, forms, k)
  {
  }

  lemma LaidLast<T>(was: seq<T>, cuts: seq<Cut>, forms: seq<seq<T>>, j: nat)
    requires Fits(was, cuts, forms) && j < |cuts|
    ensures 0 <= NewPos(cuts, cuts[j].start) && NewPos(cuts, cuts[j].start) + cuts[j].keep <= |Laid(was, cuts, forms, j + 1)|
    ensures Laid(was, cuts, forms, j + 1)[NewPos(cuts, cuts[j].start)..NewPos(cuts, cuts[j].start) + cuts[j].keep] == forms[j]
  {
    hide Laid, NewPos, Total;
    var front := Laid(was, cuts, forms, j) + was[EndOf(cuts, j)..cuts[j].start];
    LaidStep(was, cuts, forms, j);
    LaidLength(was, cuts, forms, j);
    AtStart(cuts, j, cuts[j].start);
    TailOf(front, forms[j]);
  }

  lemma LaidStep<T>(was: seq<T>, cuts: seq<Cut>, forms: seq<seq<T>>, j: nat)
    requires Fits(was, cuts, forms) && j < |cuts|
    ensures EndOf(cuts, j) <= cuts[j].start
    ensures Laid(was, cuts, forms, j + 1) == Laid(was, cuts, forms, j) + was[EndOf(cuts, j)..cuts[j].start] + forms[j]
  {
  }

  lemma TailOf<T>(front: seq<T>, tail: seq<T>)
    ensures (front + tail)[|front|..|front| + |tail|] == tail
  {
  }

  lemma RebuiltLength<T>(was: seq<T>, cuts: seq<Cut>, forms: seq<seq<T>>)
    requires Fits(was, cuts, forms)
    ensures |Rebuilt(was, cuts, forms)| == NewPos(cuts, |was|)
  {
    LaidLength(was, cuts, forms, |cuts|);
    BetweenCuts(cuts, |cuts|, |was|);
  }

  lemma RebuiltByte<T>(was: seq<T>, cuts: seq<Cut>, forms: seq<seq<T>>, p: nat)
    requires Fits(was, cuts, forms) && p < |was| && Untouched(cuts, p)
    ensures 0 <= NewPos(cuts, p) < |Rebuilt(was, cuts, forms)|
    ensures Rebuilt(was, cuts, forms)[NewPos(cuts, p)] == was[p]
  {
    LaidLength(was, cuts, forms, |cuts|);
    if p < EndOf(cuts, |cuts|) {
      LaidByte(was, cuts, forms, |cuts|, p);
    } else {
      BetweenCuts(cuts, |cuts|, p);
    }
  }

  lemma RebuiltForm<T>(was: seq<T>, cuts: seq<Cut>, forms: seq<seq<T>>, j: nat, start: nat)
    requires Fits(was, cuts, forms) && j < |cuts| && start == cuts[j].start
    ensures 0 <= NewPos(cuts, start) && NewPos(cuts, start) + cuts[j].keep <= |Rebuilt(was, cuts, forms)|
    ensures Rebuilt(was, cuts, forms)[NewPos(cuts, start)..NewPos(cuts, start) + cuts[j].keep] == forms[j]
  {
    LaidForm(was, cuts, forms, |cuts|, j, start);
  }

  /** Counted from the end of its instruction, a replacement's byte is found from the mapped end. */
  lemma RebuiltFormEnd<T>(was: seq<T>, cuts: seq<Cut>, forms: seq<seq<T>>, j: nat, end: nat, back: nat)
    requires Fits(was, cuts, forms) && j < |cuts| && end == cuts[j].start + cuts[j].size
    requires 0 < back <= cuts[j].keep
    ensures back <= NewPos(cuts, end) <= |Rebuilt(was, cuts, forms)|
    ensures Rebuilt(was, cuts, forms)[NewPos(cuts, end) - back] == forms[j][cuts[j].keep - back]
  {
    var start := cuts[j].start;
    RebuiltForm(was, cuts, forms, j, start);
    AtCut(cuts, j, start, end);
    var at, now := NewPos(cuts, start), Rebuilt(was, cuts, forms);
    hide NewPos, Rebuilt, Fits;
    assert now[at..at + cuts[j].keep][cuts[j].keep - back] == forms[j][cuts[j].keep - back];
  }

  // ---- Rebuilding in one scan, with a table of positions

  /** The scan at position `here`: k cuts are behind it. */
  ghost predicate Scanned<T>(was: seq<T>, cuts: seq<Cut>, forms: seq<seq<T>>, k: nat, here: nat, now: seq<T>, positions: seq<int>) {
    && Fits(was, cuts, forms) && k <= |cuts| && |positions| == |was| + 1
    && EndOf(cuts, k) <= here <= |was| && (k < |cuts| ==> here <= cuts[k].start)
    && now == Laid(was, cuts, forms, k) + was[EndOf(cuts, k)..here]
    && (forall q :: 0 <= q < here ==> positions[q] >= 0 && (Boundary(cuts, q) ==> positions[q] == NewPos(cuts, q)))
  }

  lemma ScanStart<T>(was: seq<T>, cuts: seq<Cut>, forms: seq<seq<T>>, positions: seq<int>)
    requires Fits(was, cuts, forms) && |positions| == |was| + 1
    ensures Scanned(was, cuts, forms, 0, 0, [], positions)
  {
  }

  /** The length of the output is the new position. */
  lemma ScanPosition<T>(was: seq<T>, cuts: seq<Cut>, forms: seq<seq<T>>, k: nat, here: nat, now: seq<T>, positions: seq<int>)
    requires Scanned(was, cuts, forms, k, here, now, positions)
    ensures |now| == NewPos(cuts, here) && here <= |was| && |positions| == |was| + 1
  {
    hide NewPos;
    LaidLength(was, cuts, forms, k);
    BetweenCuts(cuts, k, here);
  }

  lemma ScanKeep<T>(was: seq<T>, cuts: seq<Cut>, forms: seq<seq<T>>, k: nat, here: nat, now: seq<T>, positions: seq<int>)
    requires Scanned(was, cuts, forms, k, here, now, positions) && here < |was|
    requires forall j :: 0 <= j < |cuts| ==> cuts[j].start != here
    ensures Scanned(was, cuts, forms, k, here + 1, now + [was[here]], positions[here := |now|])
  {
    ScanPosition(was, cuts, forms, k, here, now, positions);
    hide NewPos, Boundary, Fits, Laid;
    assert was[EndOf(cuts, k)..here + 1] == was[EndOf(cuts, k)..here] + [was[here]];
  }

  lemma StartsBeforeEnd(cuts: seq<Cut>, k: nat, i: nat)
    requires Ordered(cuts) && i < k <= |cuts|
    ensures cuts[i].start < EndOf(cuts, k)
  {
    assert i < k - 1 ==> cuts[i].start + cuts[i].size <= cuts[k - 1].start;
  }

  /** The cut that starts at the scan position is the next one. */
  lemma ScanFinds<T>(was: seq<T>, cuts: seq<Cut>, forms: seq<seq<T>>, k: nat, here: nat, now: seq<T>, positions: seq<int>, j: nat)
    requires Scanned(was, cuts, forms, k, here, now, positions) && j < |cuts| && cuts[j].start == here
    ensures j == k
  {
    assert forall i :: 0 <= i < k ==> cuts[i].start < EndOf(cuts, k) by {
      forall i | 0 <= i < k
        ensures cuts[i].start < EndOf(cuts, k)
      {
        StartsBeforeEnd(cuts, k, i);
      }
    }
  }

  lemma ScanReplace<T>(was: seq<T>, cuts: seq<Cut>, forms: seq<seq<T>>, k: nat, here: nat, now: seq<T>, positions: seq<int>,
                       end: nat, next: seq<int>)
    requires Scanned(was, cuts, forms, k, here, now, positions)
    requires k < |cuts| && cuts[k].start == here && end == here + cuts[k].size
    requires |next| == |positions| && (forall q :: 0 <= q < here ==> next[q] == positions[q])
    requires next[here] == |now| && (forall q :: here < q < end ==> next[q] >= 0)
    ensures Scanned(was, cuts, forms, k + 1, end, now + forms[k], next)
    ensures |now + forms[k]| == NewPos(cuts, end)
  {
    ScanPosition(was, cuts, forms, k, here, now, positions);
    assert was[EndOf(cuts, k + 1)..end] == [];
    assert Laid(was, cuts, forms, k + 1) == Laid(was, cuts, forms, k) + was[EndOf(cuts, k)..here] + forms[k];
    assert k + 1 < |cuts| ==> end <= cuts[k + 1].start;
    assert Fits(was, cuts, forms);
    hide NewPos, Fits, Laid;
    forall q | 0 <= q < end
      ensures next[q] >= 0 && (Boundary(cuts, q) ==> next[q] == NewPos(cuts, q))
    {
      if q > here {
        assert cuts[k].start < q < cuts[k].start + cuts[k].size;
      }
    }
    ScanPosition(was, cuts, forms, k + 1, end, now + forms[k], next);
  }

  lemma ScanEnd<T>(was: seq<T>, cuts: seq<Cut>, forms: seq<seq<T>>, k: nat, now: seq<T>, positions: seq<int>)
    requires Scanned(was, cuts, forms, k, |was|, now, positions)
    ensures now == Rebuilt(was, cuts, forms) && |now| == NewPos(cuts, |was|)
    ensures forall q :: 0 <= q < |was| ==> positions[q] >= 0 && (Boundary(cuts, q) ==> positions[q] == NewPos(cuts, q))
  {
    ScanPosition(was, cuts, forms, k, |was|, now, positions);
  }
}
