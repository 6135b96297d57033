/** Emission through the cache, compared with plain emission: a hit, a miss and a refused hit. */
module ObjectEmission {
  import opened Bytes
  import opened Emitted
  import opened ObjectIndex
  import opened ObjectRecord
  import opened ObjectReplay
  import opened ObjectRefusal
  import opened Wrappers

  // ---- Where interning finds a string

  predicate Matches(pool: seq<Text>, data: seq<byte>, msg: seq<byte>, k: nat)
    requires k < |pool|
  {
    pool[k].len == |msg| && IsAt(data, pool[k].off, msg)
  }

  /** Entry k is the first remembered string with the content. */
  ghost predicate FirstMatch(pool: seq<Text>, data: seq<byte>, msg: seq<byte>, k: nat) {
    k < |pool| && Matches(pool, data, msg, k) && forall j :: 0 <= j < k ==> !Matches(pool, data, msg, j)
  }

  ghost predicate Remembered(pool: seq<Text>, data: seq<byte>, msg: seq<byte>) {
    exists k: nat :: FirstMatch(pool, data, msg, k)
  }

  lemma {:induction false} LookupIs(pool: seq<Text>, data: seq<byte>, msg: seq<byte>) returns (k: nat)
    ensures if Lookup(pool, data, msg) < 0 then forall j :: 0 <= j < |pool| ==> !Matches(pool, data, msg, j)
            else FirstMatch(pool, data, msg, k) && pool[k].off == Lookup(pool, data, msg)
  {
    k := 0;
    if pool != [] && !Matches(pool, data, msg, 0) {
      var l := LookupIs(pool[1..], data, msg);
      forall j | 0 < j < |pool|
        ensures Matches(pool, data, msg, j) <==> Matches(pool[1..], data, msg, j - 1)
      {
      }
      k := l + 1;
    }
  }

  lemma OneFirst(pool: seq<Text>, data: seq<byte>, msg: seq<byte>, j: nat, k: nat)
    requires FirstMatch(pool, data, msg, j) && FirstMatch(pool, data, msg, k)
    ensures j == k
  {
  }

  /** The content stands at an offset, with a zero behind it. */
  predicate Terminated(data: seq<byte>, msg: seq<byte>, off: nat) {
    off + |msg| < |data| && data[off + |msg|] == 0 && data[off..off + |msg|] == msg
  }

  /** The first terminated occurrence from an offset on. */
  ghost predicate FirstFrom(data: seq<byte>, msg: seq<byte>, from: nat, off: nat) {
    from <= off && Terminated(data, msg, off) && forall i :: from <= i < off ==> !Terminated(data, msg, i)
  }

  lemma {:induction false} SearchIs(data: seq<byte>, msg: seq<byte>, from: nat)
    ensures if Search(data, msg, from) < 0 then forall i :: from <= i ==> !Terminated(data, msg, i)
            else FirstFrom(data, msg, from, Search(data, msg, from))
    decreases |data| - from
  {
    if from + |msg| < |data| && !Terminated(data, msg, from) {
      SearchIs(data, msg, from + 1);
    }
  }

  function WindowStart(data: seq<byte>): nat {
    if |data| < 512 then 0 else |data| - 512
  }

  /** Interning returns an offset exactly when it is the first remembered string of the content; or
      none is remembered and it is the first occurrence near the end of the data; or there is no
      such occurrence either and it is the end of the data. */
  lemma InternReturns(g: Gen, msg: seq<byte>, off: nat)
    ensures Intern(g, msg).1 == off <==>
      if Remembered(g.pool, g.data, msg) then exists k: nat :: FirstMatch(g.pool, g.data, msg, k) && g.pool[k].off == off
      else if exists i: nat :: FirstFrom(g.data, msg, WindowStart(g.data), i) then FirstFrom(g.data, msg, WindowStart(g.data), off)
      else off == |g.data|
  {
    hide IsAt, Search, Lookup, Terminated;
    var k := LookupIs(g.pool, g.data, msg);
    SearchIs(g.data, msg, WindowStart(g.data));
    if Lookup(g.pool, g.data, msg) >= 0 {
      forall j: nat | FirstMatch(g.pool, g.data, msg, j)
        ensures j == k
      {
        OneFirst(g.pool, g.data, msg, j, k);
      }
    } else if Search(g.data, msg, WindowStart(g.data)) >= 0 {
      var found := Search(g.data, msg, WindowStart(g.data));
      forall i: nat | FirstFrom(g.data, msg, WindowStart(g.data), i)
        ensures i == found
      {
        assert !(i < found) && !(found < i);
      }
    }
  }

  // ---- Older strings of a replayed record

  /** The content of an older string. */
  function Content(g: Gen, r: AbsReloc): seq<byte>
    requires r.off >= 0 && 0 <= TextLength(g.refs, r.off) && r.off + TextLength(g.refs, r.off) <= |g.data|
  {
    g.data[r.off..r.off + TextLength(g.refs, r.off)]
  }

  lemma KnownText(g: Gen, m: Mark, k: nat)
    requires OldStringsKnown(g, m) && m.abs <= k < |g.absRelocs|
    ensures var r := g.absRelocs[k]; IsOldString(m, r) ==> 0 <= TextLength(g.refs, r.off) && r.off + TextLength(g.refs, r.off) < |g.data|
  {
  }

  // ---- All of them, from where the replay starts

  /** Interning finds a string at an offset, without appending it: it is the first remembered one of
      its content or, when none is remembered, the first terminated one near the end of the data. */
  ghost predicate FoundAt(pool: seq<Text>, data: seq<byte>, msg: seq<byte>, off: int) {
    0 <= off < |data|
    && if Remembered(pool, data, msg) then exists k: nat :: FirstMatch(pool, data, msg, k) && pool[k].off == off
       else FirstFrom(data, msg, WindowStart(data), off)
  }

  lemma FoundAtIs(g: Gen, msg: seq<byte>, off: nat)
    requires off < |g.data|
    ensures Intern(g, msg).1 == off <==> FoundAt(g.pool, g.data, msg, off)
  {
    hide Intern, Remembered, FirstMatch, FirstFrom;
    InternReturns(g, msg, off);
  }

  lemma {:induction false} LookupAppend(pool: seq<Text>, more: seq<Text>, data: seq<byte>, msg: seq<byte>)
    ensures Lookup(pool + more, data, msg) == if Lookup(pool, data, msg) >= 0 then Lookup(pool, data, msg) else Lookup(more, data, msg)
  {
    hide IsAt;
    if pool == [] {
      assert pool + more == more;
    } else {
      assert (pool + more)[1..] == pool[1..] + more;
      LookupAppend(pool[1..], more, data, msg);
    }
  }

  /** The same data, and a pool that remembers besides only what interning found in it. */
  ghost predicate Grown(base: Gen, acc: Gen) {
    && acc.data == base.data && base.pool <= acc.pool
    && (forall j :: |base.pool| <= j < |acc.pool| ==> Refound(base, acc.pool[j]))
  }

  predicate Refound(base: Gen, t: Text) {
    t.off + t.len <= |base.data| && Intern(base, base.data[t.off..t.off + t.len]).1 == t.off
  }

  /** Then interning returns the same offset. */
  lemma SameIntern(base: Gen, acc: Gen, msg: seq<byte>)
    requires Grown(base, acc)
    ensures Intern(acc, msg).1 == Intern(base, msg).1
  {
    hide Search, Lookup;
    var more := acc.pool[|base.pool|..];
    assert acc.pool == base.pool + more;
    LookupAppend(base.pool, more, base.data, msg);
    var k := LookupIs(more, base.data, msg);
    if Lookup(base.pool, base.data, msg) < 0 && Lookup(more, base.data, msg) >= 0 {
      assert Matches(more, base.data, msg, k) && acc.pool[|base.pool| + k] == more[k];
    }
  }

  /** A string that is found leaves the generator grown. */
  lemma GrownNext(base: Gen, acc: Gen, msg: seq<byte>)
    requires Grown(base, acc) && Intern(base, msg).1 < |base.data|
    ensures var next := Intern(acc, msg).0; next == acc.(pool := next.pool) && Grown(base, next)
  {
    SameIntern(base, acc, msg);
    hide Search, Lookup;
  }

  /** Every older string from reference i on is found at its own offset. */
  ghost predicate AllFound(g: Gen, m: Mark, i: nat, base: Gen)
    requires m.abs <= i <= |g.absRelocs| && OldStringsKnown(g, m)
  {
    forall k :: i <= k < |g.absRelocs| && IsOldString(m, g.absRelocs[k]) ==>
      Intern(base, Content(g, g.absRelocs[k])).1 == g.absRelocs[k].off
  }

  /** The references from i on are those of the record, behind others. */
  ghost predicate SameFrom(g: Gen, i: nat, r: Gen, from: nat)
    requires i <= |g.absRelocs|
  {
    from <= |r.absRelocs| && r.absRelocs[from..] == g.absRelocs[i..]
  }

  /** Replayed at the same bases the data references come back exactly when each older string is
      found at its own offset to begin with; then the data and recorded strings do not change. */
  lemma {:induction false} AbsolutesInPlaceIff(g: Gen, m: Mark, b: Bases, i: nat, base: Gen, acc: Gen)
    requires m.abs <= i <= |g.absRelocs| && OldStringsKnown(g, m) && Grown(base, acc) && base.data == g.data && |g.data| < HALF
    requires b.code == m.code && b.data == m.data && b.bss == m.bss
    requires forall k :: i <= k < |g.absRelocs| ==> InRange(m, g.absRelocs[k])
    ensures var r := AbsolutesTo(g, m, b, i, acc);
      && (SameFrom(g, i, r, |acc.absRelocs|) <==> AllFound(g, m, i, base))
      && (AllFound(g, m, i, base) ==> r == acc.(pool := r.pool, absRelocs := acc.absRelocs + g.absRelocs[i..]))
    decreases |g.absRelocs| - i
  {
    hide Intern, IsAt, Unmark, OldStringsKnown, InRange, Grown, SameFrom, AllFound;
    if i == |g.absRelocs| {
      NothingToReplay(g, m, acc, base);
    } else {
      var r := g.absRelocs[i];
      KnownText(g, m, i);
      RangeStays(m, b, r);
      AllFoundNext(g, m, i, base);
      var next := AbsTo(g, m, b, r, acc);
      var end := AbsolutesTo(g, m, b, i + 1, next);
      AbsToPoints(g, m, b, r, acc);
      AbsolutesToShape(g, m, b, i + 1, next);
      StepInPlace(g, m, b, i, base, acc);
      SameFromNext(g, i, end, acc, next);
      if next.absRelocs == acc.absRelocs + [r] {
        AbsolutesInPlaceIff(g, m, b, i + 1, base, next);
        assert acc.absRelocs + [r] + g.absRelocs[i + 1..] == acc.absRelocs + g.absRelocs[i..];
      }
    }
  }

  lemma NothingToReplay(g: Gen, m: Mark, acc: Gen, base: Gen)
    requires m.abs <= |g.absRelocs| && OldStringsKnown(g, m)
    ensures SameFrom(g, |g.absRelocs|, acc, |acc.absRelocs|) && AllFound(g, m, |g.absRelocs|, base)
    ensures acc == acc.(pool := acc.pool, absRelocs := acc.absRelocs + g.absRelocs[|g.absRelocs|..])
  {
    assert acc.absRelocs + g.absRelocs[|g.absRelocs|..] == acc.absRelocs;
  }

  lemma AllFoundNext(g: Gen, m: Mark, i: nat, base: Gen)
    requires m.abs <= i < |g.absRelocs| && OldStringsKnown(g, m)
    ensures var r := g.absRelocs[i];
      AllFound(g, m, i, base) <==> (IsOldString(m, r) ==> Intern(base, Content(g, r)).1 == r.off) && AllFound(g, m, i + 1, base)
  {
    hide Intern, Content;
  }

  /** One reference is kept exactly when it is no older string or is found at its offset. */
  lemma StepInPlace(g: Gen, m: Mark, b: Bases, i: nat, base: Gen, acc: Gen)
    requires m.abs <= i < |g.absRelocs| && OldStringsKnown(g, m) && Grown(base, acc) && base.data == g.data && |g.data| < HALF
    requires b.code == m.code && b.data == m.data && b.bss == m.bss && InRange(m, g.absRelocs[i])
    requires IsOldString(m, g.absRelocs[i]) ==>
      0 <= TextLength(g.refs, g.absRelocs[i].off) && g.absRelocs[i].off + TextLength(g.refs, g.absRelocs[i].off) < |g.data|
    ensures var r, next := g.absRelocs[i], AbsTo(g, m, b, g.absRelocs[i], acc);
      var stays := IsOldString(m, r) ==> Intern(base, Content(g, r)).1 == r.off;
      && (next.absRelocs == acc.absRelocs + [r] <==> stays)
      && (stays ==> next == acc.(pool := next.pool, absRelocs := acc.absRelocs + [r]) && Grown(base, next))
  {
    hide IsAt, OldStringsKnown, Grown, Intern, TextLength, Unmark;
    var r := g.absRelocs[i];
    RangeStays(m, b, r);
    var next := AbsTo(g, m, b, r, acc);
    if IsOldString(m, r) {
      var msg := Content(g, r);
      SameIntern(base, acc, msg);
      InternWithin(base, msg);
      OneMore(acc.absRelocs, next.absRelocs[|acc.absRelocs|], r);
      if Intern(base, msg).1 == r.off {
        GrownNext(base, acc, msg);
        GrownAlike(base, Intern(acc, msg).0, next);
      }
    } else {
      GrownAlike(base, acc, next);
    }
  }

  lemma GrownAlike(base: Gen, a: Gen, b: Gen)
    requires a.data == b.data && a.pool == b.pool
    ensures Grown(base, a) <==> Grown(base, b)
  {
  }

  lemma InternWithin(g: Gen, msg: seq<byte>)
    ensures Intern(g, msg).1 <= |g.data|
    ensures |g.data| < HALF ==> Unmark(Intern(g, msg).1) == Intern(g, msg).1
  {
  }

  lemma OneMore(s: seq<AbsReloc>, x: AbsReloc, y: AbsReloc)
    ensures s + [x] == s + [y] <==> x == y
  {
    assert (s + [x])[|s|] == x && (s + [y])[|s|] == y;
  }

  lemma SameFromNext(g: Gen, i: nat, end: Gen, acc: Gen, next: Gen)
    requires i < |g.absRelocs| && |next.absRelocs| == |acc.absRelocs| + 1 && acc.absRelocs <= next.absRelocs <= end.absRelocs
    ensures SameFrom(g, i, end, |acc.absRelocs|)
      <==> next.absRelocs == acc.absRelocs + [g.absRelocs[i]] && SameFrom(g, i + 1, end, |next.absRelocs|)
  {
    var n := |acc.absRelocs|;
    assert end.absRelocs[n..] == [end.absRelocs[n]] + end.absRelocs[n + 1..];
    assert g.absRelocs[i..] == [g.absRelocs[i]] + g.absRelocs[i + 1..];
    assert next.absRelocs == acc.absRelocs + [end.absRelocs[n]];
    OneMore(acc.absRelocs, end.absRelocs[n], g.absRelocs[i]);
  }

  predicate InRange(m: Mark, r: AbsReloc) {
    m.code <= r.at < HALF && 0 <= r.off < HALF && 0 <= r.kind < HALF
  }

  lemma RangeStays(m: Mark, b: Bases, r: AbsReloc)
    requires InRange(m, r) && b.code == m.code && b.data == m.data && b.bss == m.bss
    ensures Unmark(b.code + (r.at - m.code)) == r.at && Unmark(r.off) == r.off && Unmark(r.kind) == r.kind && NewOffset(m, b, r) == r.off
  {
  }

  // ---- A hit where the function was emitted

  function MarkOf(g: Gen, objectData: nat): Mark {
    Mark(|g.code|, |g.labelPos|, |g.relocs|, |g.absRelocs|, |g.queue|, |g.data|, g.bssSize, |g.refs|, objectData)
  }

  /** Plain emission of a function took the generator from g0 to g: it appends, sets no older label
      but the function's own, and marks what it queues, among them every function it refers to. */
  ghost predicate EmittedFrom(fs: Functions, g0: Gen, g: Gen, own: nat)
    requires |fs.labels| == |fs.ids|
  {
    && g0.code <= g.code && g0.data <= g.data && g0.refs <= g.refs && g0.relocs <= g.relocs && g0.absRelocs <= g.absRelocs
    && g0.queue <= g.queue && g0.bssSize <= g.bssSize && |g.marked| == |g0.marked| == |fs.ids|
    && |g0.labelPos| <= |g.labelPos| && (forall l :: 0 <= l < |g0.labelPos| && l != own ==> g.labelPos[l] == g0.labelPos[l])
    && (forall l :: |g0.labelPos| <= l < |g.labelPos| ==> g.labelPos[l] >= -1)
    && (forall f :: 0 <= f < |g.marked| ==>
         (g.marked[f] <==> g0.marked[f] || exists k :: |g0.queue| <= k < |g.queue| && g.queue[k] == f))
    && (forall k :: |g0.relocs| <= k < |g.relocs| && FunctionOf(fs.labels, g.relocs[k].lbl, 0) < |fs.labels| ==>
         g.marked[FunctionOf(fs.labels, g.relocs[k].lbl, 0)])
  }

  /** In one program a function is found again as itself. */
  lemma FoundAgain(fs: Functions, f: nat)
    requires |fs.labels| == |fs.ids| && f < |fs.ids| && Distinct(fs.ids)
    ensures Find(fs.ids, fs.ids[f]) == f
  {
    assert fs.ids[f] == fs.ids[f];
  }

  lemma SameMarks(fs: Functions, g0: Gen, g: Gen, m: Mark, fn: nat, r: Gen)
    requires Emission(fs, g, m, fn) && Distinct(fs.ids) && EmittedFrom(fs, g0, g, fs.labels[fn])
    requires m.reloc == |g0.relocs| && m.queue == |g0.queue| && |r.marked| == |g0.marked|
    requires forall f :: 0 <= f < |g0.marked| ==> (r.marked[f] <==> g0.marked[f] || MarkedBy(fs, g, m, fs, f))
    ensures r.marked == g.marked
  {
    hide FunctionOf, Find, Distinct;
    forall f | 0 <= f < |g0.marked|
      ensures r.marked[f] == g.marked[f]
    {
      if g.marked[f] && !g0.marked[f] {
        var k :| |g0.queue| <= k < |g.queue| && g.queue[k] == f;
        FoundAgain(fs, f);
        assert Find(fs.ids, fs.ids[g.queue[k]]) == f;
      }
      if r.marked[f] && !g0.marked[f] {
        if k :| m.reloc <= k < |g.relocs| && Callee(fs, fs, g.relocs[k].lbl) == f {
          FoundAgain(fs, FunctionOf(fs.labels, g.relocs[k].lbl, 0));
        } else {
          var k :| m.queue <= k < |g.queue| && Find(fs.ids, fs.ids[g.queue[k]]) == f;
          FoundAgain(fs, g.queue[k]);
        }
      }
    }
  }

  lemma {:induction false} StringsInPlace(g: Gen, m: Mark, b: Bases, i: nat)
    requires i <= |g.refs| && b.data == m.data && (forall k :: i <= k < |g.refs| ==> m.data <= g.refs[k].off)
    ensures StringsTo(g, m, b, i) == g.refs[i..]
    decreases |g.refs| - i
  {
    if i < |g.refs| {
      StringsInPlace(g, m, b, i + 1);
    }
  }

  /** The generator of a hit when its data references are due. */
  ghost function AtAbsolutes(fs: Functions, g0: Gen, g: Gen, m: Mark, fn: nat): (acc: Gen)
    requires Emission(fs, g, m, fn) && Storable(fs, g, m, fn) && Hosts(fs, g0, fn)
    ensures acc.pool == g0.pool && acc.absRelocs == g0.absRelocs && acc.data == g0.data + g.data[m.data..]
    ensures acc.refs == g0.refs + StringsTo(g, m, BasesOf(g0), m.text)
  {
    RelocsToShape(fs, g, m, fs, BasesOf(g0), m.reloc, Labelled(fs, g, m, fn, fs, g0, fn));
    RelocsTo(fs, g, m, fs, BasesOf(g0), m.reloc, Labelled(fs, g, m, fn, fs, g0, fn))
  }

  /** An emission from g0 to g that can be stored, and replayed at g0. */
  ghost predicate Repeatable(fs: Functions, g0: Gen, g: Gen, objectData: nat, fn: nat) {
    var m := MarkOf(g0, objectData);
    && Emission(fs, g, m, fn) && Storable(fs, g, m, fn) && Encodable(fs, g, m, fn) && Receives(fs, g, m, fn, fs, g0, fn)
    && Distinct(fs.ids) && EmittedFrom(fs, g0, g, fs.labels[fn])
  }

  /** A hit in the very generator the record was made from does what plain emission did: the same
      code, labels, references, bss and marks. */
  lemma HitIsEmission(fs: Functions, g0: Gen, g: Gen, objectData: nat, fn: nat, peephole: Peephole)
    requires Repeatable(fs, g0, g, objectData, fn)
    ensures var hit := Replayed(fs, g0, fn, Stored(fs, g, MarkOf(g0, objectData), fn, peephole));
      hit.Reached? && hit.g.code == g.code && hit.g.labelPos == g.labelPos && hit.g.relocs == g.relocs && hit.g.bssSize == g.bssSize
      && hit.g.marked == g.marked
  {
    hide Rebased, Replayed, Stored, NewReloc, FunctionOf, Find, OldStringsKnown, Callee, IsAt, MarkedBy, Distinct;
    var m := MarkOf(g0, objectData);
    StoreThenReplay(fs, g, m, fn, peephole, fs, g0, fn);
    RebasedIsShifted(fs, g, m, fn, fs, g0, fn);
    ReplayInPlace(fs, g, m, fn, peephole, g0);
    SameMarks(fs, g0, g, m, fn, Rebased(fs, g, m, fn, fs, g0, fn));
  }

  /** Each older string that the function refers to is found at its own offset in the generator it was
      emitted from: first in the pool, or not in the pool and first near the end of the data. */
  ghost predicate StringsFound(g0: Gen, g: Gen, objectData: nat)
    requires |g0.absRelocs| <= |g.absRelocs| && OldStringsKnown(g, MarkOf(g0, objectData))
  {
    var m := MarkOf(g0, objectData);
    forall k :: |g0.absRelocs| <= k < |g.absRelocs| && IsOldString(m, g.absRelocs[k]) ==>
      FoundAt(g0.pool, g.data, Content(g, g.absRelocs[k]), g.absRelocs[k].off)
  }

  lemma StringsFoundIs(g0: Gen, g: Gen, objectData: nat, base: Gen)
    requires |g0.absRelocs| <= |g.absRelocs| && OldStringsKnown(g, MarkOf(g0, objectData)) && base.pool == g0.pool && base.data == g.data
    ensures StringsFound(g0, g, objectData) <==> AllFound(g, MarkOf(g0, objectData), |g0.absRelocs|, base)
  {
    hide Intern, FoundAt, OldStringsKnown, TextLength;
    var m := MarkOf(g0, objectData);
    forall k | |g0.absRelocs| <= k < |g.absRelocs| && IsOldString(m, g.absRelocs[k])
      ensures 0 <= TextLength(g.refs, g.absRelocs[k].off) && g.absRelocs[k].off + TextLength(g.refs, g.absRelocs[k].off) < |g.data|
      ensures Intern(base, Content(g, g.absRelocs[k])).1 == g.absRelocs[k].off
         <==> FoundAt(g0.pool, g.data, Content(g, g.absRelocs[k]), g.absRelocs[k].off)
    {
      KnownText(g, m, k);
      FoundAtIs(base, Content(g, g.absRelocs[k]), g.absRelocs[k].off);
    }
  }

  /** Besides what replaying the data references does, a hit leaves what plain emission left. */
  lemma HitBesidesStrings(fs: Functions, g0: Gen, g: Gen, objectData: nat, fn: nat, peephole: Peephole)
    requires Repeatable(fs, g0, g, objectData, fn)
    ensures var m := MarkOf(g0, objectData);
      && OldStringsKnown(g, m) && |g0.absRelocs| <= |g.absRelocs| && g0.absRelocs <= g.absRelocs && |g.data| < HALF
      && (forall k :: m.abs <= k < |g.absRelocs| ==> InRange(m, g.absRelocs[k]))
      && var acc, hit := AtAbsolutes(fs, g0, g, m, fn), Replayed(fs, g0, fn, Stored(fs, g, m, fn, peephole)).g;
      && acc.data == g.data && acc.refs == g.refs && acc.pool == g0.pool && acc.absRelocs == g0.absRelocs
      && var r := AbsolutesTo(g, m, BasesOf(g0), m.abs, acc);
      hit == g.(data := r.data, refs := r.refs, pool := r.pool, absRelocs := r.absRelocs, queue := hit.queue)
  {
    hide Rebased, Replayed, Stored, FunctionOf, Find, OldStringsKnown, IsAt, Distinct, AbsolutesTo, AtAbsolutes, Hosts, Known;
    var m := MarkOf(g0, objectData);
    StoreThenReplay(fs, g, m, fn, peephole, fs, g0, fn);
    HitIsEmission(fs, g0, g, objectData, fn, peephole);
    HitParts(fs, g0, g, m, fn);
    StringsInPlace(g, m, BasesOf(g0), m.text);
  }

  /** A hit leaves the whole of plain emission, but for the pool and the order of the queue, exactly
      when every older string is found at its own offset; otherwise a data reference differs. */
  lemma HitIsWholeEmissionIff(fs: Functions, g0: Gen, g: Gen, objectData: nat, fn: nat, peephole: Peephole)
    requires Repeatable(fs, g0, g, objectData, fn)
    ensures var hit := Replayed(fs, g0, fn, Stored(fs, g, MarkOf(g0, objectData), fn, peephole)).g;
      && (hit == g.(pool := hit.pool, queue := hit.queue) <==> StringsFound(g0, g, objectData))
      && (hit.absRelocs == g.absRelocs <==> StringsFound(g0, g, objectData))
  {
    hide Replayed, Stored, OldStringsKnown, AbsolutesTo, AtAbsolutes, StringsFound, AllFound, SameFrom, Grown, InRange, PointsAlike;
    hide Storable, Encodable, Hosts, Known, EmittedFrom, Distinct;
    HitBesidesStrings(fs, g0, g, objectData, fn, peephole);
    var m := MarkOf(g0, objectData);
    var acc := AtAbsolutes(fs, g0, g, m, fn);
    StartsGrown(acc);
    AbsolutesInPlaceIff(g, m, BasesOf(g0), m.abs, acc, acc);
    StringsFoundIs(g0, g, objectData, acc);
    AbsolutesToShape(g, m, BasesOf(g0), m.abs, acc);
    SameWhole(g0, g, AbsolutesTo(g, m, BasesOf(g0), m.abs, acc));
  }

  lemma StartsGrown(acc: Gen)
    ensures Grown(acc, acc)
  {
  }

  lemma SameWhole(g0: Gen, g: Gen, r: Gen)
    requires g0.absRelocs <= g.absRelocs && g0.absRelocs <= r.absRelocs
    ensures SameFrom(g, |g0.absRelocs|, r, |g0.absRelocs|) <==> r.absRelocs == g.absRelocs
  {
    assert r.absRelocs == g0.absRelocs + r.absRelocs[|g0.absRelocs|..];
    assert g.absRelocs == g0.absRelocs + g.absRelocs[|g0.absRelocs|..];
  }

  lemma HitParts(fs: Functions, g0: Gen, g: Gen, m: Mark, fn: nat)
    requires Emission(fs, g, m, fn) && Storable(fs, g, m, fn) && Receives(fs, g, m, fn, fs, g0, fn)
    ensures var hit := Rebased(fs, g, m, fn, fs, g0, fn); var data := AbsolutesTo(g, m, BasesOf(g0), m.abs, AtAbsolutes(fs, g0, g, m, fn));
      hit.data == data.data && hit.refs == data.refs && hit.pool == data.pool && hit.absRelocs == data.absRelocs
  {
    hide RelocsTo, AbsolutesTo, QueueTo, Labelled, FunctionOf, Find;
    QueueToShape(fs, g, fs, m.queue, AbsolutesTo(g, m, BasesOf(g0), m.abs, AtAbsolutes(fs, g0, g, m, fn)));
  }

  /** Two copies of one string, of which the pool remembers the first, and an emission that refers
      to the second. */
  predicate SecondCopy(fs: Functions, g0: Gen, g: Gen) {
    && fs == Functions([0], [Identity(1, 2)])
    && g0 == Gen([], [97, 0, 97, 0], [-1], [], [], 0, [Text(0, 1), Text(2, 1)], [Text(0, 1)], [true], [0])
    && g == g0.(code := [0x90], labelPos := [0], absRelocs := [AbsReloc(0, 2, 0)])
  }

  lemma SecondCopyRepeats(fs: Functions, g0: Gen, g: Gen)
    requires SecondCopy(fs, g0, g)
    ensures Repeatable(fs, g0, g, 0, 0) && TextLength(g.refs, 2) == 1
  {
    hide FunctionOf, Find;
    FirstIsFound(fs);
    assert TextLength(g.refs, 2) == 1 by {
      assert g.refs[1..][0] == Text(2, 1);
    }
  }

  lemma SecondCopyInterned(g: Gen, m: Mark, b: Bases, acc: Gen)
    requires g.data == acc.data == [97, 0, 97, 0] && acc.pool == [Text(0, 1)] && acc.absRelocs == []
    requires g.absRelocs == [AbsReloc(0, 2, 0)] && TextLength(g.refs, 2) == 1 && m.abs == 0 && m.code == 0 && b.code == 0
    requires IsOldString(m, g.absRelocs[0]) && OldStringsKnown(g, m)
    ensures AbsolutesTo(g, m, b, 0, acc) == acc.(absRelocs := [AbsReloc(0, 0, 0)])
  {
    assert g.data[2..3] == [97] == acc.data[0..1];
    assert Lookup(acc.pool, acc.data, [97]) == 0;
    var next := AbsTo(g, m, b, g.absRelocs[0], acc);
    assert AbsolutesTo(g, m, b, 1, next) == next;
  }

  /** The reference to the second copy is replayed to the first. */
  lemma OlderStringMoves(fs: Functions, g0: Gen, g: Gen, peephole: Peephole)
    requires SecondCopy(fs, g0, g)
    ensures Repeatable(fs, g0, g, 0, 0)
    ensures var hit := Replayed(fs, g0, 0, Stored(fs, g, MarkOf(g0, 0), 0, peephole));
      hit.Reached? && hit.g.absRelocs == [AbsReloc(0, 0, 0)] != g.absRelocs
  {
    hide Replayed, Stored, Rebased, FunctionOf, Find, Encodable, AtAbsolutes, AbsolutesTo, TextLength, EmittedFrom, Hosts, Known, Distinct;
    var m := MarkOf(g0, 0);
    SecondCopyRepeats(fs, g0, g);
    StoreThenReplay(fs, g, m, 0, peephole, fs, g0, 0);
    HitParts(fs, g0, g, m, 0);
    SecondCopyInterned(g, m, BasesOf(g0), AtAbsolutes(fs, g0, g, m, 0));
  }

  // ---- A hit, a miss, and a refused hit

  /** What plain emission of a function does to a generator and its peephole state. */
  datatype Emitting = Emitting(g: Gen, peephole: Peephole, ok: bool)

  /** Emission with the record that was found in the cache, if any: a refused record is followed by
      plain emission, in the generator as the refusal left it. */
  function CachedEmission(fs: Functions, g: Gen, peephole: Peephole, fn: int, found: Option<seq<byte>>, emit: (Gen, Peephole) -> Emitting):
    Emitting
  {
    match found
    case None => emit(g, peephole)
    case Some(record) =>
      match Replayed(fs, g, fn, record)
      case Reached(r, _) => Emitting(r, ReadPeephole(record), true)
      case Stopped(r) => emit(r, peephole)
  }

  /** The emitter appends as much code to one generator as to another. */
  ghost predicate AppendsAlike(emit: (Gen, Peephole) -> Emitting, peephole: Peephole, a: Gen, b: Gen) {
    |emit(a, peephole).g.code| - |a.code| == |emit(b, peephole).g.code| - |b.code|
  }

  /** A miss, and a record refused by its header, are plain emission. Any other refused record leaves
      its own code in front of the emission: for an emitter that appends as much code anywhere, the
      outcome has the length of plain emission exactly when the header refused the record or it has
      no code. */
  lemma RefusedHitAgreesIff(fs: Functions, g: Gen, peephole: Peephole, fn: int, found: Option<seq<byte>>, emit: (Gen, Peephole) -> Emitting)
    requires found.Some? ==> Replayed(fs, g, fn, found.value).Stopped?
    ensures var cached, plain := CachedEmission(fs, g, peephole, fn, found, emit), emit(g, peephole);
      && (found.None? || HeaderRefuses(found.value) ==> cached == plain)
      && (found.Some? && AppendsAlike(emit, peephole, g, Replayed(fs, g, fn, found.value).g) ==>
            (|cached.g.code| == |plain.g.code| <==> HeaderRefuses(found.value) || ReadHeader(found.value).value.codeLen == 0))
  {
    hide Replayed, ReadHeader, OnlyAdds;
    if found.Some? {
      ReplayLeaves(fs, g, fn, found.value);
    }
  }

  /** A stored function with code, found by a program that does not know all its callees, is not
      emitted as without the cache. */
  lemma RefusedFunctionDiffers(fs: Functions, g: Gen, m: Mark, fn: nat, stored: Peephole, fs': Functions, g': Gen, fn': nat,
                               peephole: Peephole, emit: (Gen, Peephole) -> Emitting)
    requires Emission(fs, g, m, fn) && Storable(fs, g, m, fn) && Encodable(fs, g, m, fn) && Hosts(fs', g', fn') && m.code < |g.code|
    requires !Known(fs, g, m, fn, fs', g')
    requires AppendsAlike(emit, peephole, g', Replayed(fs', g', fn', Stored(fs, g, m, fn, stored)).g)
    ensures CachedEmission(fs', g', peephole, fn', Some(Stored(fs, g, m, fn, stored)), emit) != emit(g', peephole)
  {
    hide Replayed, Stored, ReadHeader, Storable, Encodable, Known, Hosts;
    UnknownIsRefused(fs, g, m, fn, stored, fs', g', fn');
  }

  /** A hit where the record was made is plain emission, up to the pool, the order of the queue and
      the peephole state, exactly when the older strings are found at their own offsets; and the
      peephole state is restored exactly when nothing negative was pending. */
  lemma HitAgreesIff(fs: Functions, g0: Gen, g: Gen, objectData: nat, fn: nat, peephole: Peephole, emit: (Gen, Peephole) -> Emitting,
                     before: Peephole)
    requires Repeatable(fs, g0, g, objectData, fn) && emit(g0, before) == Emitting(g, peephole, true)
    requires peephole.storeEnd < HALF && peephole.storeOff < HALF && peephole.load < HALF
    ensures var cached := CachedEmission(fs, g0, before, fn, Some(Stored(fs, g, MarkOf(g0, objectData), fn, peephole)), emit);
      && cached.ok
      && (cached.g == g.(pool := cached.g.pool, queue := cached.g.queue) <==> StringsFound(g0, g, objectData))
      && (cached.peephole == peephole <==> peephole.storeEnd >= -1 && peephole.storeOff >= 0 && peephole.load >= 0)
  {
    hide Replayed, Stored, Storable, Encodable, Known, Hosts, StringsFound, ReadPeephole, EmittedFrom;
    HitIsEmission(fs, g0, g, objectData, fn, peephole);
    HitIsWholeEmissionIff(fs, g0, g, objectData, fn, peephole);
    PeepholeRestored(fs, g, MarkOf(g0, objectData), fn, peephole);
  }
}
