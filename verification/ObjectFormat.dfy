/** The record format, word by word: exactly which byte strings a replay accepts, and what it takes from them. */
module ObjectFormat {
  import opened Bytes
  import opened Emitted
  import opened ObjectIndex
  import opened ObjectRecord
  import opened ObjectRefusal
  import opened Wrappers

  // ---- The entries of the five tables

  /** Function f has the identity, and no other function has it. */
  ghost predicate OnlyOne(fs: Functions, a: nat, b: nat, f: nat) {
    f < |fs.ids| && forall j :: 0 <= j < |fs.ids| ==> (fs.ids[j] == Identity(a, b) <==> j == f)
  }

  ghost predicate Unique(fs: Functions, a: nat, b: nat) {
    exists f: nat :: OnlyOne(fs, a, b, f)
  }

  lemma FindIsOnlyOne(fs: Functions, a: nat, b: nat)
    ensures Find(fs.ids, Identity(a, b)) >= 0 <==> Unique(fs, a, b)
    ensures forall f: nat :: OnlyOne(fs, a, b, f) ==> Find(fs.ids, Identity(a, b)) == f
  {
    hide Find;
    var found := Find(fs.ids, Identity(a, b));
    if found >= 0 {
      forall j | 0 <= j < |fs.ids| && fs.ids[j] == Identity(a, b)
        ensures j == found
      {
        assert !(j < found) && !(found < j);
      }
      assert OnlyOne(fs, a, b, found);
    }
    if Unique(fs, a, b) {
      var f: nat :| OnlyOne(fs, a, b, f);
      assert fs.ids[f] == Identity(a, b);
    }
  }

  /** A string: offset and length, with room for a zero behind it. */
  predicate StringFits(data: seq<byte>, p: nat, dataLen: nat) {
    p + 8 <= |data| && Get32(data, p) + Get32(data, p + 4) < dataLen
  }

  /** A label: a flag and a position. */
  predicate LabelFits(data: seq<byte>, p: nat, codeLen: nat) {
    p + 8 <= |data| && Get32(data, p) <= 1 && Get32(data, p + 4) <= codeLen
  }

  /** A label reference: a field, a kind, and a label of the record, an identity of a function or the
      number of an older label behind those of the functions. */
  ghost predicate RelocFits(fs: Functions, data: seq<byte>, p: nat, codeLen: nat, labelCount: nat, older: nat) {
    && p + 12 <= |data| && Get32(data, p) < codeLen && Get32(data, p + 4) <= 2
    && (Get32(data, p + 4) == 0 ==> Get32(data, p + 8) < labelCount)
    && (Get32(data, p + 4) == 1 ==> p + 16 <= |data| && Unique(fs, Get32(data, p + 8), Get32(data, p + 12)))
    && (Get32(data, p + 4) == 2 ==> |fs.labels| + Get32(data, p + 8) < older)
  }

  /** What the reference becomes. */
  ghost predicate RelocReads(fs: Functions, data: seq<byte>, p: nat, code: nat, older: nat, marked: seq<bool>, r: Reloc)
    requires p + 12 <= |data| && |fs.labels| == |fs.ids| == |marked|
  {
    var kind, value := Get32(data, p + 4), Get32(data, p + 8);
    && r.at == (code + Get32(data, p)) % 0x8000_0000
    && (kind == 0 ==> r.lbl == (older + value) % 0x8000_0000)
    && (kind == 1 ==> p + 16 <= |data| && exists f: nat ::
          OnlyOne(fs, value, Get32(data, p + 12), f) && marked[f] && r.lbl == fs.labels[f] % 0x8000_0000)
    && (kind == 2 ==> r.lbl == (|fs.labels| + value) % 0x8000_0000)
  }

  function RelocSize(data: seq<byte>, p: nat): nat {
    if p + 8 <= |data| && Get32(data, p + 4) == 1 then 16 else 12
  }

  /** Where label reference i stands. */
  function RelocStart(data: seq<byte>, pos: nat, i: nat): nat
    decreases i
  {
    if i == 0 then pos else RelocStart(data, pos + RelocSize(data, pos), i - 1)
  }

  /** A data reference: a field, a kind, and an offset or a string with its length in front. */
  predicate AbsFits(data: seq<byte>, p: nat, codeLen: nat) {
    && p + 12 <= |data| && Get32(data, p) < codeLen
    && (Get32(data, p + 4) == 3 ==> p + 12 + Get32(data, p + 8) <= |data|)
  }

  function AbsSize(data: seq<byte>, p: nat): nat {
    if p + 12 <= |data| && Get32(data, p + 4) == 3 then 12 + Get32(data, p + 8) else 12
  }

  function AbsStart(data: seq<byte>, pos: nat, i: nat): nat
    decreases i
  {
    if i == 0 then pos else AbsStart(data, pos + AbsSize(data, pos), i - 1)
  }

  /** A queued function: an identity. */
  ghost predicate QueueFits(fs: Functions, data: seq<byte>, p: nat) {
    p + 8 <= |data| && Unique(fs, Get32(data, p), Get32(data, p + 4))
  }

  // ---- The tables

  /** Entry i of a table of pairs. */
  function Pair(pos: nat, i: nat): nat {
    pos + 8 * i
  }

  lemma PairsShift(pos: nat)
    ensures Pair(pos, 0) == pos
    ensures forall i: nat {:trigger Pair(pos + 8, i)} :: Pair(pos + 8, i) == Pair(pos, i + 1)
    ensures forall i: nat :: i > 0 ==> Pair(pos, i) == Pair(pos + 8, i - 1)
  {
  }

  ghost predicate AllStrings(data: seq<byte>, pos: nat, n: nat, dataLen: nat) {
    forall i: nat :: i < n ==> StringFits(data, Pair(pos, i), dataLen)
  }

  ghost predicate AllLabels(data: seq<byte>, pos: nat, n: nat, codeLen: nat) {
    forall i: nat :: i < n ==> LabelFits(data, Pair(pos, i), codeLen)
  }

  ghost predicate AllRelocs(fs: Functions, data: seq<byte>, pos: nat, n: nat, codeLen: nat, labelCount: nat, older: nat) {
    forall i: nat :: i < n ==> RelocFits(fs, data, RelocStart(data, pos, i), codeLen, labelCount, older)
  }

  ghost predicate AllAbsolutes(data: seq<byte>, pos: nat, n: nat, codeLen: nat) {
    forall i: nat :: i < n ==> AbsFits(data, AbsStart(data, pos, i), codeLen)
  }

  ghost predicate AllQueued(fs: Functions, data: seq<byte>, pos: nat, n: nat) {
    forall i: nat :: i < n ==> QueueFits(fs, data, Pair(pos, i))
  }

  /** The strings that a table of pairs adds. */
  ghost predicate StringsRead(data: seq<byte>, pos: nat, n: nat, base: nat, refs: seq<Text>, r: seq<Text>) {
    && refs <= r && |r| == |refs| + n && Pair(pos, n) <= |data|
    && forall i: nat :: i < n ==> r[|refs| + i] == Text(base + Get32(data, Pair(pos, i)), Get32(data, Pair(pos, i) + 4))
  }

  lemma {:induction false} StringsFormat(data: seq<byte>, pos: nat, n: nat, h: Header, b: Bases, g: Gen)
    requires pos <= |data|
    ensures var r := Strings(data, pos, n, h, b, g);
      && (r.Reached? <==> AllStrings(data, pos, n, h.dataLen))
      && (r.Reached? ==> r.pos == Pair(pos, n) && StringsRead(data, pos, n, b.data, g.refs, r.g.refs))
    decreases n
  {
    hide Get32, Pair;
    PairsShift(pos);
    if n > 0 {
      if AllStrings(data, pos, n, h.dataLen) {
        assert StringFits(data, Pair(pos, 0), h.dataLen);
      }
      if StringFits(data, pos, h.dataLen) {
        var g1 := g.(refs := g.refs + [Text(b.data + Get32(data, pos), Get32(data, pos + 4))]);
        StringsFormat(data, pos + 8, n - 1, h, b, g1);
        assert AllStrings(data, pos, n, h.dataLen) <==> AllStrings(data, pos + 8, n - 1, h.dataLen);
      }
    }
  }

  ghost predicate LabelsRead(data: seq<byte>, pos: nat, n: nat, base: nat, labelPos: seq<int>, r: seq<int>) {
    && labelPos <= r && |r| == |labelPos| + n && Pair(pos, n) <= |data|
    && forall i: nat :: i < n ==>
         r[|labelPos| + i] == if Get32(data, Pair(pos, i)) == 0 then -1 else base + Get32(data, Pair(pos, i) + 4)
  }

  lemma {:induction false} LabelsFormat(data: seq<byte>, pos: nat, n: nat, h: Header, b: Bases, g: Gen)
    requires pos <= |data|
    ensures var r := Labels(data, pos, n, h, b, g);
      && (r.Reached? <==> AllLabels(data, pos, n, h.codeLen))
      && (r.Reached? ==> r.pos == Pair(pos, n) && LabelsRead(data, pos, n, b.code, g.labelPos, r.g.labelPos))
    decreases n
  {
    hide Get32, Pair;
    PairsShift(pos);
    if n > 0 {
      if AllLabels(data, pos, n, h.codeLen) {
        assert LabelFits(data, Pair(pos, 0), h.codeLen);
      }
      if LabelFits(data, pos, h.codeLen) {
        var g1 := g.(labelPos := g.labelPos + [if Get32(data, pos) == 0 then -1 else b.code + Get32(data, pos + 4)]);
        LabelsFormat(data, pos + 8, n - 1, h, b, g1);
        assert AllLabels(data, pos, n, h.codeLen) <==> AllLabels(data, pos + 8, n - 1, h.codeLen);
      }
    }
  }

  /** One label reference is accepted exactly when it fits, and becomes what it reads as. */
  lemma RelocFormat(fs: Functions, data: seq<byte>, pos: nat, h: Header, b: Bases, g: Gen)
    requires |fs.labels| == |fs.ids| == |g.marked| && b.lbl + h.labelCount <= |g.labelPos|
    requires forall f :: 0 <= f < |fs.labels| ==> fs.labels[f] < |g.labelPos|
    ensures var r := RelocOne(fs, data, pos, h, b, g);
      && (r.Reached? <==> RelocFits(fs, data, pos, h.codeLen, h.labelCount, b.lbl))
      && (r.Reached? ==> r.pos <= |data|)
      && (r.Reached? ==> r.pos == pos + RelocSize(data, pos) && |r.g.relocs| == |g.relocs| + 1 && g.relocs <= r.g.relocs)
      && (r.Reached? ==> |r.g.marked| == |g.marked| && r.g.labelPos == g.labelPos)
      && (r.Reached? ==> RelocReads(fs, data, pos, b.code, b.lbl, r.g.marked, r.g.relocs[|g.relocs|]))
  {
    hide Get32, Find, Unique, OnlyOne, MarkFunc;
    if pos + 16 <= |data| {
      FindIsOnlyOne(fs, Get32(data, pos + 8), Get32(data, pos + 12));
      MarkFacts(g, Find(fs.ids, Identity(Get32(data, pos + 8), Get32(data, pos + 12))));
      UniqueIs(fs, Get32(data, pos + 8), Get32(data, pos + 12));
    }
  }

  lemma UniqueIs(fs: Functions, a: nat, b: nat)
    ensures Unique(fs, a, b) <==> exists f: nat :: OnlyOne(fs, a, b, f)
    ensures forall f: nat :: OnlyOne(fs, a, b, f) ==> f < |fs.ids|
  {
  }

  lemma MarkFacts(g: Gen, f: int)
    ensures var r := MarkFunc(g, f);
      && r == g.(marked := r.marked, queue := r.queue) && |r.marked| == |g.marked| && (0 <= f < |g.marked| ==> r.marked[f])
  {
  }

  ghost predicate RelocsRead(fs: Functions, data: seq<byte>, pos: nat, n: nat, code: nat, older: nat, relocs: seq<Reloc>, r: Gen)
    requires |fs.labels| == |fs.ids| == |r.marked|
  {
    && relocs <= r.relocs && |r.relocs| == |relocs| + n
    && forall i: nat :: i < n ==> RelocStart(data, pos, i) + 12 <= |data|
                                  && RelocReads(fs, data, RelocStart(data, pos, i), code, older, r.marked, r.relocs[|relocs| + i])
  }

  lemma StillReads(fs: Functions, data: seq<byte>, p: nat, code: nat, older: nat, marked: seq<bool>, marked': seq<bool>, r: Reloc)
    requires p + 12 <= |data| && |fs.labels| == |fs.ids| == |marked| == |marked'|
    requires RelocReads(fs, data, p, code, older, marked, r) && forall f :: 0 <= f < |marked| && marked[f] ==> marked'[f]
    ensures RelocReads(fs, data, p, code, older, marked', r)
  {
    hide Get32;
  }

  lemma RelocFitsHas(fs: Functions, data: seq<byte>, p: nat, codeLen: nat, labelCount: nat, older: nat)
    ensures RelocFits(fs, data, p, codeLen, labelCount, older) ==> p + 12 <= |data|
  {
  }

  lemma RelocsShift(data: seq<byte>, pos: nat)
    ensures RelocStart(data, pos, 0) == pos
    ensures forall i: nat {:trigger RelocStart(data, pos + RelocSize(data, pos), i)} ::
              RelocStart(data, pos + RelocSize(data, pos), i) == RelocStart(data, pos, i + 1)
    ensures forall i: nat :: i > 0 ==> RelocStart(data, pos, i) == RelocStart(data, pos + RelocSize(data, pos), i - 1)
  {
  }

  lemma {:induction false} RelocsFormat(fs: Functions, data: seq<byte>, pos: nat, n: nat, h: Header, b: Bases, g: Gen)
    requires |fs.labels| == |fs.ids| == |g.marked| && b.lbl + h.labelCount <= |g.labelPos|
    requires forall f :: 0 <= f < |fs.labels| ==> fs.labels[f] < |g.labelPos|
    ensures var r := Relocs(fs, data, pos, n, h, b, g);
      && |r.g.marked| == |g.marked|
      && (r.Reached? <==> AllRelocs(fs, data, pos, n, h.codeLen, h.labelCount, b.lbl))
      && (r.Reached? && pos <= |data| ==> r.pos <= |data|)
      && (r.Reached? ==> r.pos == RelocStart(data, pos, n) && RelocsRead(fs, data, pos, n, b.code, b.lbl, g.relocs, r.g))
    decreases n
  {
    hide RelocFits, RelocReads, RelocSize, RelocStart, RelocOne;
    RelocsAdd(fs, data, pos, n, h, b, g);
    RelocsShift(data, pos);
    if n > 0 {
      RelocFormat(fs, data, pos, h, b, g);
      var one := RelocOne(fs, data, pos, h, b, g);
      if AllRelocs(fs, data, pos, n, h.codeLen, h.labelCount, b.lbl) {
        assert RelocFits(fs, data, RelocStart(data, pos, 0), h.codeLen, h.labelCount, b.lbl);
      }
      if one.Reached? {
        RelocsFormat(fs, data, one.pos, n - 1, h, b, one.g);
        assert AllRelocs(fs, data, pos, n, h.codeLen, h.labelCount, b.lbl) <==> AllRelocs(fs, data, one.pos, n - 1, h.codeLen, h.labelCount, b.lbl);
        if AllRelocs(fs, data, pos, n, h.codeLen, h.labelCount, b.lbl) {
          RelocsAdd(fs, data, one.pos, n - 1, h, b, one.g);
          var last := Relocs(fs, data, one.pos, n - 1, h, b, one.g).g;
          RelocFitsHas(fs, data, pos, h.codeLen, h.labelCount, b.lbl);
          StillReads(fs, data, pos, b.code, b.lbl, one.g.marked, last.marked, one.g.relocs[|g.relocs|]);
        }
      }
    }
  }

  /** What a data reference becomes: a string's content stands where it points; other offsets move
      with the data or the bss when they lie behind the old bases. */
  ghost predicate AbsReads(data: seq<byte>, p: nat, b: Bases, now: seq<byte>, r: AbsReloc)
    requires p + 12 <= |data| && |data| >= 60
  {
    var kind, value := Get32(data, p + 4), Get32(data, p + 8);
    && r.at == (b.code + Get32(data, p)) % 0x8000_0000
    && (kind == 3 ==> r.kind == 0 && StringReads(data, p + 12, value, now, r.off))
    && (kind != 3 ==> r.kind == kind % 0x8000_0000)
    && (kind == 0 ==> r.off == (if value >= Get32(data, 48) then b.data + value - Get32(data, 48) else value) % 0x8000_0000)
    && (kind == 1 ==> r.off == (if value >= Get32(data, 52) then b.bss + value - Get32(data, 52) else value) % 0x8000_0000)
    && (kind != 0 && kind != 1 && kind != 3 ==> r.off == value % 0x8000_0000)
  }

  /** The data hold the bytes of the record at an offset, which is masked to 31 bits. */
  ghost predicate StringReads(data: seq<byte>, p: nat, length: nat, now: seq<byte>, off: int) {
    p + length <= |data| && exists at: nat :: IsAt(now, at, data[p..p + length]) && off == at % 0x8000_0000
  }

  lemma AbsFormat(data: seq<byte>, pos: nat, h: Header, b: Bases, g: Gen)
    requires |data| >= 60 && h.oldDataBase == Get32(data, 48) && h.oldBssBase == Get32(data, 52)
    ensures var r := AbsOne(data, pos, h, b, g);
      && (r.Reached? <==> AbsFits(data, pos, h.codeLen))
      && (r.Reached? ==> r.pos <= |data|)
      && (r.Reached? ==> r.pos == pos + AbsSize(data, pos) && |r.g.absRelocs| == |g.absRelocs| + 1 && g.absRelocs <= r.g.absRelocs)
      && (r.Reached? ==> AbsReads(data, pos, b, r.g.data, r.g.absRelocs[|g.absRelocs|]))
  {
    hide Get32, Intern, IsAt;
    if pos + 12 <= |data| && Get32(data, pos + 4) == 3 && pos + 12 + Get32(data, pos + 8) <= |data| {
      var msg := data[pos + 12..pos + 12 + Get32(data, pos + 8)];
      var (g', off) := Intern(g, msg);
      assert IsAt(g'.data, off, msg);
    }
  }

  ghost predicate AbsolutesRead(data: seq<byte>, pos: nat, n: nat, b: Bases, absRelocs: seq<AbsReloc>, r: Gen)
    requires |data| >= 60
  {
    && absRelocs <= r.absRelocs && |r.absRelocs| == |absRelocs| + n
    && forall i: nat :: i < n ==> AbsStart(data, pos, i) + 12 <= |data|
                                  && AbsReads(data, AbsStart(data, pos, i), b, r.data, r.absRelocs[|absRelocs| + i])
  }

  lemma StillPoints(data: seq<byte>, p: nat, b: Bases, now: seq<byte>, now': seq<byte>, r: AbsReloc)
    requires p + 12 <= |data| && |data| >= 60 && AbsReads(data, p, b, now, r) && now <= now'
    ensures AbsReads(data, p, b, now', r)
  {
    hide Get32;
    if Get32(data, p + 4) == 3 {
      var value := Get32(data, p + 8);
      var msg := data[p + 12..p + 12 + value];
      var at: nat :| IsAt(now, at, msg) && r.off == at % 0x8000_0000;
      assert now'[at..at + |msg|] == now[at..at + |msg|];
      assert IsAt(now', at, msg);
    }
  }

  lemma AbsolutesShift(data: seq<byte>, pos: nat)
    ensures AbsStart(data, pos, 0) == pos
    ensures forall i: nat {:trigger AbsStart(data, pos + AbsSize(data, pos), i)} ::
              AbsStart(data, pos + AbsSize(data, pos), i) == AbsStart(data, pos, i + 1)
    ensures forall i: nat :: i > 0 ==> AbsStart(data, pos, i) == AbsStart(data, pos + AbsSize(data, pos), i - 1)
  {
  }

  lemma AbsFitsHas(data: seq<byte>, p: nat, codeLen: nat)
    ensures AbsFits(data, p, codeLen) ==> p + 12 <= |data|
  {
  }

  lemma AllAbsolutesNext(data: seq<byte>, pos: nat, n: nat, codeLen: nat)
    requires n > 0 && AbsFits(data, pos, codeLen)
    ensures AllAbsolutes(data, pos, n, codeLen) <==> AllAbsolutes(data, pos + AbsSize(data, pos), n - 1, codeLen)
  {
    hide AbsFits, AbsStart, AbsSize;
    AbsolutesShift(data, pos);
    var q := pos + AbsSize(data, pos);
    if AllAbsolutes(data, pos, n, codeLen) {
      forall i: nat | i < n - 1
        ensures AbsFits(data, AbsStart(data, q, i), codeLen)
      {
        assert AbsFits(data, AbsStart(data, pos, i + 1), codeLen);
      }
    }
  }

  lemma {:induction false} AbsolutesFormat(data: seq<byte>, pos: nat, n: nat, h: Header, b: Bases, g: Gen)
    requires |data| >= 60 && h.oldDataBase == Get32(data, 48) && h.oldBssBase == Get32(data, 52)
    ensures var r := Absolutes(data, pos, n, h, b, g);
      && (r.Reached? <==> AllAbsolutes(data, pos, n, h.codeLen))
      && (r.Reached? && pos <= |data| ==> r.pos <= |data|)
      && (r.Reached? ==> r.pos == AbsStart(data, pos, n) && AbsolutesRead(data, pos, n, b, g.absRelocs, r.g))
    decreases n
  {
    hide AbsFits, AbsReads, AbsSize, AbsStart, AbsOne;
    AbsolutesShift(data, pos);
    if n > 0 {
      AbsFormat(data, pos, h, b, g);
      AbsFitsHas(data, pos, h.codeLen);
      var one := AbsOne(data, pos, h, b, g);
      if AllAbsolutes(data, pos, n, h.codeLen) {
        assert AbsFits(data, AbsStart(data, pos, 0), h.codeLen);
      }
      if one.Reached? {
        AbsolutesFormat(data, one.pos, n - 1, h, b, one.g);
        AllAbsolutesNext(data, pos, n, h.codeLen);
        if AllAbsolutes(data, pos, n, h.codeLen) {
          AbsolutesAdd(data, one.pos, n - 1, h, b, one.g);
          var last := Absolutes(data, one.pos, n - 1, h, b, one.g).g;
          StillPoints(data, pos, b, one.g.data, last.data, one.g.absRelocs[|g.absRelocs|]);
        }
      }
    }
  }

  ghost predicate QueueRead(fs: Functions, data: seq<byte>, pos: nat, n: nat, marked: seq<bool>)
    requires |fs.ids| == |marked|
  {
    Pair(pos, n) <= |data|
    && forall i: nat :: i < n ==> exists f: nat :: OnlyOne(fs, Get32(data, Pair(pos, i)), Get32(data, Pair(pos, i) + 4), f) && marked[f]
  }

  lemma {:induction false} QueueFormat(fs: Functions, data: seq<byte>, pos: nat, n: nat, g: Gen)
    requires pos <= |data| && |g.marked| == |fs.ids|
    ensures var r := Queue(fs, data, pos, n, g);
      && |r.g.marked| == |g.marked|
      && (r.Reached? <==> AllQueued(fs, data, pos, n))
      && (r.Reached? ==> r.pos == Pair(pos, n) && QueueRead(fs, data, pos, n, r.g.marked))
    decreases n
  {
    hide Get32, Pair, Find, Unique, OnlyOne, MarkFunc;
    QueueAdd(fs, data, pos, n, g);
    PairsShift(pos);
    if n > 0 {
      if AllQueued(fs, data, pos, n) {
        assert QueueFits(fs, data, Pair(pos, 0));
      }
      if pos + 8 <= |data| {
        FindIsOnlyOne(fs, Get32(data, pos), Get32(data, pos + 4));
        UniqueIs(fs, Get32(data, pos), Get32(data, pos + 4));
        var callee := Find(fs.ids, Identity(Get32(data, pos), Get32(data, pos + 4)));
        if callee >= 0 {
          MarkFacts(g, callee);
          QueueFormat(fs, data, pos + 8, n - 1, MarkFunc(g, callee));
          QueueAdd(fs, data, pos + 8, n - 1, MarkFunc(g, callee));
          assert AllQueued(fs, data, pos, n) <==> AllQueued(fs, data, pos + 8, n - 1);
        }
      }
    }
  }

  // ---- Whole records

  /** Where the label, label reference, data reference and queue tables start. */
  function LabelsAt(data: seq<byte>): nat
    requires |data| >= 60
  {
    Pair(60 + Get32(data, 4) + Get32(data, 40), Get32(data, 56))
  }

  function RelocsAt(data: seq<byte>): nat
    requires |data| >= 60
  {
    Pair(LabelsAt(data), Get32(data, 8))
  }

  function AbsolutesAt(data: seq<byte>): nat
    requires |data| >= 60
  {
    RelocStart(data, RelocsAt(data), Get32(data, 16))
  }

  function QueueAt(data: seq<byte>): nat
    requires |data| >= 60
  {
    AbsStart(data, AbsolutesAt(data), Get32(data, 20))
  }

  /** The tables behind the strings fit, and the record ends with the last one. */
  ghost predicate TablesFit(fs: Functions, older: nat, data: seq<byte>)
    requires |data| >= 60
  {
    && AllLabels(data, LabelsAt(data), Get32(data, 8), Get32(data, 4))
    && AllRelocs(fs, data, RelocsAt(data), Get32(data, 16), Get32(data, 4), Get32(data, 8), older)
    && AllAbsolutes(data, AbsolutesAt(data), Get32(data, 20), Get32(data, 4))
    && AllQueued(fs, data, QueueAt(data), Get32(data, 24))
    && Pair(QueueAt(data), Get32(data, 24)) == |data|
  }

  /** A record that can be replayed for function fn, where so many labels exist. */
  ghost predicate WellFormed(fs: Functions, older: nat, fn: int, data: seq<byte>) {
    && |data| >= 60 && Get32(data, 0) == 0x524f424a && 60 + Get32(data, 4) + Get32(data, 40) <= |data|
    && 0 <= fn < |fs.labels| && Get32(data, 12) <= Get32(data, 4)
    && AllStrings(data, 60 + Get32(data, 4) + Get32(data, 40), Get32(data, 56), Get32(data, 40))
    && TablesFit(fs, older, data)
  }

  /** What the tables behind the strings add. */
  ghost predicate TablesRead(fs: Functions, data: seq<byte>, b: Bases, g: Gen, r: Gen)
    requires |data| >= 60 && |fs.labels| == |fs.ids| == |r.marked|
  {
    && LabelsRead(data, LabelsAt(data), Get32(data, 8), b.code, g.labelPos, r.labelPos)
    && RelocsRead(fs, data, RelocsAt(data), Get32(data, 16), b.code, b.lbl, g.relocs, r)
    && AbsolutesRead(data, AbsolutesAt(data), Get32(data, 20), b, g.absRelocs, r)
    && QueueRead(fs, data, QueueAt(data), Get32(data, 24), r.marked)
  }

  /** The generator after the replay of a record: r, where it was g. */
  ghost predicate ReadsAs(fs: Functions, g: Gen, fn: int, data: seq<byte>, r: Gen)
    requires |data| >= 60 && |fs.labels| == |fs.ids| && 0 <= fn < |fs.labels| && fs.labels[fn] < |g.labelPos|
    requires 60 + Get32(data, 4) + Get32(data, 40) <= |data|
  {
    var p1, b := 60 + Get32(data, 4) + Get32(data, 40), Bases(|g.code|, |g.labelPos|, |g.data|, g.bssSize);
    && r.code == g.code + data[60..60 + Get32(data, 4)] && g.data + data[60 + Get32(data, 4)..p1] <= r.data
    && r.bssSize == g.bssSize + Get32(data, 44) && |r.marked| == |fs.ids|
    && |g.refs| + Get32(data, 56) <= |r.refs| && StringsRead(data, p1, Get32(data, 56), |g.data|, g.refs, r.refs[..|g.refs| + Get32(data, 56)])
    && TablesRead(fs, data, b, g.(labelPos := g.labelPos[fs.labels[fn] := |g.code| + Get32(data, 12)]), r)
  }

  lemma RelocsStillRead(fs: Functions, data: seq<byte>, pos: nat, n: nat, code: nat, older: nat, relocs: seq<Reloc>, g: Gen, r: Gen)
    requires |fs.labels| == |fs.ids| == |g.marked| == |r.marked| && RelocsRead(fs, data, pos, n, code, older, relocs, g)
    requires r.relocs == g.relocs && forall f :: 0 <= f < |g.marked| && g.marked[f] ==> r.marked[f]
    ensures RelocsRead(fs, data, pos, n, code, older, relocs, r)
  {
    hide RelocReads, RelocStart;
    forall i: nat | i < n
      ensures RelocReads(fs, data, RelocStart(data, pos, i), code, older, r.marked, r.relocs[|relocs| + i])
    {
      StillReads(fs, data, RelocStart(data, pos, i), code, older, g.marked, r.marked, g.relocs[|relocs| + i]);
    }
  }

  /** The header holds its words in order. */
  lemma HeaderFormat(data: seq<byte>)
    ensures ReadHeader(data).Some? <==> |data| >= 60 && Get32(data, 0) == 0x524f424a
    ensures ReadHeader(data).Some? ==>
              ReadHeader(data).value == Header(Get32(data, 4), Get32(data, 8), Get32(data, 12), Get32(data, 16), Get32(data, 20),
                                               Get32(data, 24), Get32(data, 40), Get32(data, 44), Get32(data, 48), Get32(data, 52), Get32(data, 56))
  {
    hide Get32;
  }

  lemma TablesFormat(fs: Functions, data: seq<byte>, h: Header, b: Bases, g: Gen)
    requires ReadHeader(data) == Some(h) && |data| >= 60 && LabelsAt(data) <= |data|
    requires |fs.labels| == |fs.ids| == |g.marked| && b.lbl == |g.labelPos|
    requires forall f :: 0 <= f < |fs.labels| ==> fs.labels[f] < |g.labelPos|
    ensures var r := ReplayedRest(fs, g, data, LabelsAt(data), h, b);
      && (r.Reached? <==> TablesFit(fs, b.lbl, data))
      && (r.Reached? ==> |r.g.marked| == |g.marked| && TablesRead(fs, data, b, g, r.g))
  {
    hide Get32, Pair, RelocStart, AbsStart, AllLabels, AllRelocs, AllAbsolutes, AllQueued, RelocsRead, AbsolutesRead, QueueRead;
    hide Labels, Relocs, Absolutes, Queue, ReadHeader;
    HeaderFormat(data);
    LabelsFormat(data, LabelsAt(data), h.labelCount, h, b, g);
    LabelsAdd(data, LabelsAt(data), h.labelCount, h, b, g);
    match Labels(data, LabelsAt(data), h.labelCount, h, b, g)
    case Stopped(_) =>
    case Reached(g2, p2) =>
      RelocsFormat(fs, data, p2, h.relocCount, h, b, g2);
      RelocsAdd(fs, data, p2, h.relocCount, h, b, g2);
      match Relocs(fs, data, p2, h.relocCount, h, b, g2)
      case Stopped(_) =>
      case Reached(g3, p3) =>
        AbsolutesFormat(data, p3, h.absCount, h, b, g3);
        AbsolutesAdd(data, p3, h.absCount, h, b, g3);
        match Absolutes(data, p3, h.absCount, h, b, g3)
        case Stopped(_) =>
        case Reached(g4, p4) =>
          QueueFormat(fs, data, p4, h.queueCount, g4);
          QueueAdd(fs, data, p4, h.queueCount, g4);
          var g5 := Queue(fs, data, p4, h.queueCount, g4).g;
          RelocsStillRead(fs, data, p2, h.relocCount, b.code, b.lbl, g.relocs, g3, g5);
          AbsolutesStillRead(data, p3, h.absCount, b, g.absRelocs, g4, g5);
  }

  lemma AbsolutesStillRead(data: seq<byte>, pos: nat, n: nat, b: Bases, absRelocs: seq<AbsReloc>, g: Gen, r: Gen)
    requires |data| >= 60 && AbsolutesRead(data, pos, n, b, absRelocs, g) && r.absRelocs == g.absRelocs && r.data == g.data
    ensures AbsolutesRead(data, pos, n, b, absRelocs, r)
  {
    hide AbsReads, AbsStart;
  }

  lemma StringsEnd(data: seq<byte>, pos: nat, n: nat, base: nat, refs: seq<Text>, r: seq<Text>)
    requires StringsRead(data, pos, n, base, refs, r)
    ensures Pair(pos, n) <= |data| && |r| == |refs| + n
  {
  }

  /** A replay accepts exactly the well-formed records, and takes from them what they say. */
  lemma AcceptedIffWellFormed(fs: Functions, g: Gen, fn: int, data: seq<byte>)
    requires |fs.labels| == |fs.ids| == |g.marked| && forall f :: 0 <= f < |fs.labels| ==> fs.labels[f] < |g.labelPos|
    ensures Replayed(fs, g, fn, data).Reached? <==> WellFormed(fs, |g.labelPos|, fn, data)
    ensures Replayed(fs, g, fn, data).Reached? ==> ReadsAs(fs, g, fn, data, Replayed(fs, g, fn, data).g)
  {
    hide Get32, Pair, TablesFit, AllStrings, StringsRead, LabelsRead, RelocsRead, AbsolutesRead, QueueRead, Strings, ReplayedRest, ReadHeader;
    HeaderFormat(data);
    if !HeaderRefuses(data) {
      var h := ReadHeader(data).value;
      var b, p := Bases(|g.code|, |g.labelPos|, |g.data|, g.bssSize), 60 + h.codeLen + h.dataLen;
      StringsFormat(data, p, h.stringCount, h, b, Opened(g, data, h));
      StringsAdd(data, p, h.stringCount, h, b, Opened(g, data, h));
      match Strings(data, p, h.stringCount, h, b, Opened(g, data, h))
      case Stopped(_) =>
      case Reached(g1, p1) =>
        StringsEnd(data, p, h.stringCount, b.data, g.refs, g1.refs);
        if 0 <= fn < |fs.labels| && h.funcLabelRel <= h.codeLen {
          var g2 := g1.(labelPos := g1.labelPos[fs.labels[fn] := b.code + h.funcLabelRel]);
          TablesFormat(fs, data, h, b, g2);
          RestAdds(fs, g2, data, p1, h, b);
          var r := ReplayedRest(fs, g2, data, p1, h, b).g;
          assert r.refs[..|g1.refs|] == g1.refs;
        }
    }
  }
}
