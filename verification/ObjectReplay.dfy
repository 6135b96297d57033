/** Replaying a stored record is emission at other bases. */
module ObjectReplay {
  import opened Bytes
  import opened Emitted
  import opened ObjectIndex
  import opened ObjectRecord
  import opened Wrappers

  // ---- What stands where in a record

  ghost predicate At(data: seq<byte>, pos: nat, chunk: seq<byte>) {
    pos + |chunk| <= |data| && data[pos..pos + |chunk|] == chunk
  }

  lemma AtSplit(data: seq<byte>, pos: nat, a: seq<byte>, b: seq<byte>)
    requires At(data, pos, a + b)
    ensures At(data, pos, a) && At(data, pos + |a|, b)
  {
    var whole := data[pos..pos + |a + b|];
    assert whole[..|a|] == a && whole[|a|..] == b;
    assert data[pos..pos + |a|] == whole[..|a|];
    assert data[pos + |a|..pos + |a| + |b|] == whole[|a|..];
  }

  lemma WordAt(data: seq<byte>, pos: nat, v: int)
    requires At(data, pos, Le32(v)) && 0 <= v < WORD
    ensures HasWord(data, pos) && Get32(data, pos) == v
  {
    var w := Le32(v);
    assert |w| == 4;
    assert data[pos..pos + 4][0] == w[0] && data[pos..pos + 4][1] == w[1] && data[pos..pos + 4][2] == w[2] && data[pos..pos + 4][3] == w[3];
    WordOfLe32(v);
  }

  /** Two words, then the rest. */
  lemma PairAt(data: seq<byte>, pos: nat, v: int, w: int, rest: seq<byte>)
    requires At(data, pos, Le32(v) + Le32(w) + rest) && 0 <= v < WORD && 0 <= w < WORD
    ensures HasWord(data, pos + 4) && Get32(data, pos) == v && Get32(data, pos + 4) == w && At(data, pos + 8, rest)
  {
    hide Le32, Get32;
    AtSplit(data, pos, Le32(v) + Le32(w), rest);
    AtSplit(data, pos, Le32(v), Le32(w));
    WordAt(data, pos, v);
    WordAt(data, pos + 4, w);
  }

  // ---- The emission, element by element, at new bases

  function StringsTo(g: Gen, m: Mark, b: Bases, i: nat): seq<Text>
    requires i <= |g.refs| && (forall k :: i <= k < |g.refs| ==> m.data <= g.refs[k].off)
    decreases |g.refs| - i
  {
    if i == |g.refs| then [] else [Text(b.data + (g.refs[i].off - m.data), g.refs[i].len)] + StringsTo(g, m, b, i + 1)
  }

  function LabelTo(m: Mark, b: Bases, position: int): int {
    if position < 0 then -1 else b.code + (position - m.code)
  }

  function LabelsTo(g: Gen, m: Mark, b: Bases, i: nat): (r: seq<int>)
    requires i <= |g.labelPos|
    ensures |r| == |g.labelPos| - i
    ensures forall k :: 0 <= k < |r| ==> r[k] == LabelTo(m, b, g.labelPos[i + k])
    decreases |g.labelPos| - i
  {
    if i == |g.labelPos| then [] else [LabelTo(m, b, g.labelPos[i])] + LabelsTo(g, m, b, i + 1)
  }

  /** The label a reference is replayed to. */
  function NewLabel(fs: Functions, m: Mark, fs': Functions, b: Bases, lbl: int): int
    requires |fs.labels| == |fs.ids| && |fs'.labels| == |fs'.ids|
  {
    var f := FunctionOf(fs.labels, lbl, 0);
    if f < |fs.labels| then (var callee := Find(fs'.ids, fs.ids[f]); if callee < 0 then -1 else fs'.labels[callee])
    else if lbl >= m.lbl then b.lbl + (lbl - m.lbl)
    else |fs'.labels| + (lbl - |fs.labels|)
  }

  /** The function a reference marks, or -1. */
  function Callee(fs: Functions, fs': Functions, lbl: int): int
    requires |fs.labels| == |fs.ids|
  {
    var f := FunctionOf(fs.labels, lbl, 0);
    if f < |fs.labels| then Find(fs'.ids, fs.ids[f]) else -1
  }

  function RelocTo(fs: Functions, m: Mark, fs': Functions, b: Bases, r: Reloc, acc: Gen): Gen
    requires |fs.labels| == |fs.ids| && |fs'.labels| == |fs'.ids|
  {
    var marked := MarkFunc(acc, Callee(fs, fs', r.lbl));
    marked.(relocs := marked.relocs + [Reloc(Unmark(b.code + (r.at - m.code)), Unmark(NewLabel(fs, m, fs', b, r.lbl)))])
  }

  function RelocsTo(fs: Functions, g: Gen, m: Mark, fs': Functions, b: Bases, i: nat, acc: Gen): Gen
    requires |fs.labels| == |fs.ids| && |fs'.labels| == |fs'.ids| && i <= |g.relocs|
    decreases |g.relocs| - i
  {
    if i == |g.relocs| then acc else RelocsTo(fs, g, m, fs', b, i + 1, RelocTo(fs, m, fs', b, g.relocs[i], acc))
  }

  /** The offset a data reference is replayed to, when it is not an older string. */
  function NewOffset(m: Mark, b: Bases, r: AbsReloc): int {
    if r.kind == BSS && r.off >= m.bss then b.bss + (r.off - m.bss)
    else if r.kind == 0 && r.off >= m.data then b.data + (r.off - m.data)
    else r.off
  }

  ghost function AbsTo(g: Gen, m: Mark, b: Bases, r: AbsReloc, acc: Gen): Gen
    requires IsOldString(m, r) ==> 0 <= TextLength(g.refs, r.off) && r.off + TextLength(g.refs, r.off) <= |g.data|
  {
    if IsOldString(m, r) then
      var (acc', off) := Intern(acc, g.data[r.off..r.off + TextLength(g.refs, r.off)]);
      acc'.(absRelocs := acc'.absRelocs + [AbsReloc(Unmark(b.code + (r.at - m.code)), Unmark(off), 0)])
    else
      acc.(absRelocs := acc.absRelocs + [AbsReloc(Unmark(b.code + (r.at - m.code)), Unmark(NewOffset(m, b, r)), Unmark(r.kind))])
  }

  ghost function AbsolutesTo(g: Gen, m: Mark, b: Bases, i: nat, acc: Gen): Gen
    requires m.abs <= i <= |g.absRelocs| && OldStringsKnown(g, m)
    decreases |g.absRelocs| - i
  {
    if i == |g.absRelocs| then acc else AbsolutesTo(g, m, b, i + 1, AbsTo(g, m, b, g.absRelocs[i], acc))
  }

  function QueueTo(fs: Functions, g: Gen, fs': Functions, i: nat, acc: Gen): Gen
    requires i <= |g.queue| && (forall k :: 0 <= k < |g.queue| ==> g.queue[k] < |fs.ids|)
    decreases |g.queue| - i
  {
    if i == |g.queue| then acc else QueueTo(fs, g, fs', i + 1, MarkFunc(acc, Find(fs'.ids, fs.ids[g.queue[i]])))
  }

  // ---- Conditions

  /** The emission is within what a record can hold: everything fits 31 bits, references lie in the
      function's own code, data references are of the three plain kinds. */
  ghost predicate Encodable(fs: Functions, g: Gen, m: Mark, fn: nat)
    requires Emission(fs, g, m, fn)
  {
    && |g.code| < HALF && |g.labelPos| < HALF && |g.relocs| < HALF && |g.absRelocs| < HALF && |g.queue| < HALF
    && |g.data| < HALF && g.bssSize < HALF && |g.refs| < HALF
    && m.code <= LabelPosition(g.labelPos, fs.labels[fn]) <= |g.code|
    && (forall f :: 0 <= f < |fs.ids| ==> Hashed(fs.ids[f]))
    && (forall i :: m.reloc <= i < |g.relocs| ==> m.code <= g.relocs[i].at < |g.code| && 0 <= g.relocs[i].lbl < |g.labelPos|)
    && (forall i :: m.abs <= i < |g.absRelocs| ==>
         m.code <= g.absRelocs[i].at < |g.code| && 0 <= g.absRelocs[i].off < HALF && 0 <= g.absRelocs[i].kind <= 2)
  }

  /** The replaying generator has a label for every function, and room for the new ones. */
  ghost predicate Hosts(fs': Functions, g': Gen, fn': nat) {
    && |fs'.labels| == |fs'.ids| && fn' < |fs'.labels| && |g'.labelPos| < HALF
    && (forall f :: 0 <= f < |fs'.labels| ==> fs'.labels[f] < |g'.labelPos|)
  }

  /** A reference can be replayed: to a function that is found there again, uniquely, to a label of
      the emission itself, or to a runtime label that exists there. */
  ghost predicate KnownReloc(fs: Functions, m: Mark, fs': Functions, g': Gen, r: Reloc)
    requires |fs.labels| == |fs.ids|
  {
    var f := FunctionOf(fs.labels, r.lbl, 0);
    && (f < |fs.labels| ==> Find(fs'.ids, fs.ids[f]) >= 0)
    && (f == |fs.labels| && r.lbl < m.lbl ==> |fs'.labels| + (r.lbl - |fs.labels|) < |g'.labelPos|)
  }

  /** The replaying program knows, uniquely, every function that the emission refers to or queued,
      and has the runtime labels it refers to. */
  ghost predicate Known(fs: Functions, g: Gen, m: Mark, fn: nat, fs': Functions, g': Gen)
    requires Emission(fs, g, m, fn)
  {
    && (forall i :: m.reloc <= i < |g.relocs| ==> KnownReloc(fs, m, fs', g', g.relocs[i]))
    && (forall i :: m.queue <= i < |g.queue| ==> Find(fs'.ids, fs.ids[g.queue[i]]) >= 0)
  }

  ghost predicate Receives(fs: Functions, g: Gen, m: Mark, fn: nat, fs': Functions, g': Gen, fn': nat)
    requires Emission(fs, g, m, fn)
  {
    Hosts(fs', g', fn') && Known(fs, g, m, fn, fs', g')
  }

  /** The header that is read back. */
  function HeaderOf(g: Gen, m: Mark, funcLabel: int): Header
    requires m.code <= |g.code| && m.lbl <= |g.labelPos| && m.reloc <= |g.relocs| && m.abs <= |g.absRelocs|
    requires m.queue <= |g.queue| && m.data <= |g.data| && m.bss <= g.bssSize && m.text <= |g.refs|
    requires m.code <= LabelPosition(g.labelPos, funcLabel)
  {
    Header(|g.code| - m.code, |g.labelPos| - m.lbl, LabelPosition(g.labelPos, funcLabel) - m.code, |g.relocs| - m.reloc,
           |g.absRelocs| - m.abs, |g.queue| - m.queue, |g.data| - m.data, g.bssSize - m.bss, m.data, m.bss, |g.refs| - m.text)
  }

  // ---- Reading each part back

  lemma {:induction false} StringsRead(data: seq<byte>, pos: nat, g: Gen, m: Mark, i: nat, h: Header, b: Bases, acc: Gen)
    requires i <= |g.refs| && |g.data| < HALF && m.data <= |g.data| && h.dataLen == |g.data| - m.data
    requires forall k :: i <= k < |g.refs| ==> m.data <= g.refs[k].off && g.refs[k].off + g.refs[k].len < |g.data|
    requires At(data, pos, StringBytes(g, m, i))
    ensures Strings(data, pos, |g.refs| - i, h, b, acc)
         == Reached(acc.(refs := acc.refs + StringsTo(g, m, b, i)), pos + |StringBytes(g, m, i)|)
    decreases |g.refs| - i
  {
    hide At, Le32, Get32, HasWord, Find, MarkFunc;
    if i < |g.refs| {
      PairAt(data, pos, g.refs[i].off - m.data, g.refs[i].len, StringBytes(g, m, i + 1));
      var t := Text(b.data + (g.refs[i].off - m.data), g.refs[i].len);
      var next := acc.(refs := acc.refs + [t]);
      StringsRead(data, pos + 8, g, m, i + 1, h, b, next);
      assert acc.refs + [t] + StringsTo(g, m, b, i + 1) == acc.refs + ([t] + StringsTo(g, m, b, i + 1));
    } else {
      assert acc.refs + [] == acc.refs;
    }
  }

  lemma {:induction false} LabelsRead(data: seq<byte>, pos: nat, g: Gen, m: Mark, i: nat, h: Header, b: Bases, acc: Gen)
    requires i <= |g.labelPos| && |g.code| < HALF && m.code <= |g.code| && h.codeLen == |g.code| - m.code
    requires forall k :: i <= k < |g.labelPos| && g.labelPos[k] >= 0 ==> m.code <= g.labelPos[k] <= |g.code|
    requires At(data, pos, LabelBytes(g, m, i))
    ensures Labels(data, pos, |g.labelPos| - i, h, b, acc)
         == Reached(acc.(labelPos := acc.labelPos + LabelsTo(g, m, b, i)), pos + |LabelBytes(g, m, i)|)
    decreases |g.labelPos| - i
  {
    hide At, Le32, Get32, HasWord, Find, MarkFunc;
    if i < |g.labelPos| {
      var p := g.labelPos[i];
      if p >= 0 {
        PairAt(data, pos, 1, p - m.code, LabelBytes(g, m, i + 1));
      } else {
        PairAt(data, pos, 0, 0, LabelBytes(g, m, i + 1));
      }
      var l := LabelTo(m, b, p);
      LabelsRead(data, pos + 8, g, m, i + 1, h, b, acc.(labelPos := acc.labelPos + [l]));
      assert acc.labelPos + [l] + LabelsTo(g, m, b, i + 1) == acc.labelPos + ([l] + LabelsTo(g, m, b, i + 1));
    } else {
      assert acc.labelPos + [] == acc.labelPos;
    }
  }

  lemma {:induction false} QueueRead(data: seq<byte>, pos: nat, fs: Functions, g: Gen, fs': Functions, i: nat, acc: Gen)
    requires i <= |g.queue| && (forall k :: 0 <= k < |g.queue| ==> g.queue[k] < |fs.ids|)
    requires forall f :: 0 <= f < |fs.ids| ==> Hashed(fs.ids[f])
    requires forall k :: i <= k < |g.queue| ==> Find(fs'.ids, fs.ids[g.queue[k]]) >= 0
    requires At(data, pos, QueueBytes(fs, g, i))
    ensures Queue(fs', data, pos, |g.queue| - i, acc) == Reached(QueueTo(fs, g, fs', i, acc), pos + |QueueBytes(fs, g, i)|)
    decreases |g.queue| - i
  {
    hide At, Le32, Get32, HasWord, Find, MarkFunc;
    if i < |g.queue| {
      var id := fs.ids[g.queue[i]];
      PairAt(data, pos, id.a, id.b, QueueBytes(fs, g, i + 1));
      QueueRead(data, pos + 8, fs, g, fs', i + 1, MarkFunc(acc, Find(fs'.ids, id)));
    }
  }

  lemma TripleAt(data: seq<byte>, pos: nat, u: int, v: int, w: int, rest: seq<byte>)
    requires At(data, pos, Le32(u) + (Le32(v) + Le32(w) + rest)) && 0 <= u < WORD && 0 <= v < WORD && 0 <= w < WORD
    ensures HasWord(data, pos + 8) && At(data, pos + 12, rest)
    ensures Get32(data, pos) == u && Get32(data, pos + 4) == v && Get32(data, pos + 8) == w
  {
    hide Le32, Get32;
    AtSplit(data, pos, Le32(u), Le32(v) + Le32(w) + rest);
    WordAt(data, pos, u);
    PairAt(data, pos + 4, v, w, rest);
  }

  /** What one reference needs of the replaying generator. */
  ghost predicate RelocOk(fs: Functions, g: Gen, m: Mark, fs': Functions, b: Bases, h: Header, r: Reloc, acc: Gen)
    requires |fs.labels| == |fs.ids|
  {
    var f := FunctionOf(fs.labels, r.lbl, 0);
    && |fs'.labels| == |fs'.ids| && |g.labelPos| < HALF && |g.code| < HALF && m.lbl <= |g.labelPos| && m.code <= r.at < |g.code|
    && h.codeLen == |g.code| - m.code && h.labelCount == |g.labelPos| - m.lbl && 0 <= r.lbl < |g.labelPos|
    && (forall k :: 0 <= k < |fs.ids| ==> Hashed(fs.ids[k]))
    && (f < |fs.labels| ==> Find(fs'.ids, fs.ids[f]) >= 0 && fs'.labels[Find(fs'.ids, fs.ids[f])] < |acc.labelPos|)
    && (f == |fs.labels| && r.lbl < m.lbl ==> r.lbl >= |fs.labels| && |fs'.labels| + (r.lbl - |fs.labels|) < b.lbl)
    && b.lbl + h.labelCount <= |acc.labelPos|
  }

  lemma RelocRead(data: seq<byte>, pos: nat, fs: Functions, g: Gen, m: Mark, fs': Functions, b: Bases, h: Header, r: Reloc, acc: Gen,
                  rest: seq<byte>)
    requires |fs.labels| == |fs.ids| && RelocOk(fs, g, m, fs', b, h, r, acc)
    requires At(data, pos, RelocBytes(fs, m, r) + rest)
    ensures RelocOne(fs', data, pos, h, b, acc) == Reached(RelocTo(fs, m, fs', b, r, acc), pos + |RelocBytes(fs, m, r)|)
    ensures At(data, pos + |RelocBytes(fs, m, r)|, rest)
  {
    hide At, Le32, Get32, Find, Unmark;
    var f := FunctionOf(fs.labels, r.lbl, 0);
    if f < |fs.labels| {
      var id := fs.ids[f];
      assert RelocBytes(fs, m, r) + rest == Le32(r.at - m.code) + (Le32(FUNCTION) + Le32(id.a) + (Le32(id.b) + rest));
      TripleAt(data, pos, r.at - m.code, FUNCTION, id.a, Le32(id.b) + rest);
      AtSplit(data, pos + 12, Le32(id.b), rest);
      WordAt(data, pos + 12, id.b);
    } else if r.lbl >= m.lbl {
      assert RelocBytes(fs, m, r) + rest == Le32(r.at - m.code) + (Le32(LOCAL) + Le32(r.lbl - m.lbl) + rest);
      TripleAt(data, pos, r.at - m.code, LOCAL, r.lbl - m.lbl, rest);
    } else {
      assert RelocBytes(fs, m, r) + rest == Le32(r.at - m.code) + (Le32(RUNTIME) + Le32(r.lbl - |fs.labels|) + rest);
      TripleAt(data, pos, r.at - m.code, RUNTIME, r.lbl - |fs.labels|, rest);
    }
  }

  lemma {:induction false} RelocsRead(data: seq<byte>, pos: nat, fs: Functions, g: Gen, m: Mark, fs': Functions, b: Bases, h: Header,
                                      i: nat, acc: Gen)
    requires |fs.labels| == |fs.ids| && |fs'.labels| == |fs'.ids| && i <= |g.relocs|
    requires forall k :: i <= k < |g.relocs| ==> RelocOk(fs, g, m, fs', b, h, g.relocs[k], acc)
    requires At(data, pos, RelocsBytes(fs, g, m, i))
    ensures Relocs(fs', data, pos, |g.relocs| - i, h, b, acc)
         == Reached(RelocsTo(fs, g, m, fs', b, i, acc), pos + |RelocsBytes(fs, g, m, i)|)
    decreases |g.relocs| - i
  {
    hide At, RelocBytes, RelocOne, RelocOk, Find;
    if i < |g.relocs| {
      var r := g.relocs[i];
      var next := RelocTo(fs, m, fs', b, r, acc);
      RelocRead(data, pos, fs, g, m, fs', b, h, r, acc, RelocsBytes(fs, g, m, i + 1));
      forall k | i + 1 <= k < |g.relocs|
        ensures RelocOk(fs, g, m, fs', b, h, g.relocs[k], next)
      {
        RelocOkStays(fs, g, m, fs', b, h, g.relocs[k], acc, next);
      }
      RelocsRead(data, pos + |RelocBytes(fs, m, r)|, fs, g, m, fs', b, h, i + 1, next);
    }
  }

  lemma RelocOkStays(fs: Functions, g: Gen, m: Mark, fs': Functions, b: Bases, h: Header, r: Reloc, acc: Gen, next: Gen)
    requires |fs.labels| == |fs.ids| && RelocOk(fs, g, m, fs', b, h, r, acc) && next.labelPos == acc.labelPos
    ensures RelocOk(fs, g, m, fs', b, h, r, next)
  {
  }

  /** What one data reference needs. */
  ghost predicate AbsOk(g: Gen, m: Mark, h: Header, r: AbsReloc) {
    && |g.code| < HALF && |g.data| < HALF && m.code <= r.at < |g.code| && h.codeLen == |g.code| - m.code
    && 0 <= r.off < HALF && 0 <= r.kind <= 2 && h.oldDataBase == m.data && h.oldBssBase == m.bss
    && (IsOldString(m, r) ==> 0 <= TextLength(g.refs, r.off) && r.off + TextLength(g.refs, r.off) <= |g.data|)
  }

  lemma AbsRead(data: seq<byte>, pos: nat, g: Gen, m: Mark, b: Bases, h: Header, r: AbsReloc, acc: Gen, rest: seq<byte>)
    requires AbsOk(g, m, h, r) && At(data, pos, AbsBytes(g, m, r) + rest)
    ensures AbsOne(data, pos, h, b, acc) == Reached(AbsTo(g, m, b, r, acc), pos + |AbsBytes(g, m, r)|)
    ensures At(data, pos + |AbsBytes(g, m, r)|, rest)
  {
    hide Le32, Get32, HasWord, Unmark, Intern;
    if IsOldString(m, r) {
      var msg := g.data[r.off..r.off + TextLength(g.refs, r.off)];
      assert AbsBytes(g, m, r) + rest == Le32(r.at - m.code) + (Le32(STRING) + Le32(|msg|) + (msg + rest));
      TripleAt(data, pos, r.at - m.code, STRING, |msg|, msg + rest);
      AtSplit(data, pos + 12, msg, rest);
      assert data[pos + 12..pos + 12 + |msg|] == msg;
      KindStays(0);
    } else {
      assert AbsBytes(g, m, r) + rest == Le32(r.at - m.code) + (Le32(r.kind) + Le32(r.off) + rest);
      TripleAt(data, pos, r.at - m.code, r.kind, r.off, rest);
    }
  }

  lemma KindStays(kind: int)
    requires 0 <= kind < HALF
    ensures Unmark(kind) == kind
  {
  }

  lemma {:induction false} AbsolutesRead(data: seq<byte>, pos: nat, g: Gen, m: Mark, b: Bases, h: Header, i: nat, acc: Gen)
    requires m.abs <= i <= |g.absRelocs| && OldStringsKnown(g, m)
    requires forall k :: i <= k < |g.absRelocs| ==> AbsOk(g, m, h, g.absRelocs[k])
    requires At(data, pos, AbsolutesBytes(g, m, i))
    ensures Absolutes(data, pos, |g.absRelocs| - i, h, b, acc)
         == Reached(AbsolutesTo(g, m, b, i, acc), pos + |AbsolutesBytes(g, m, i)|)
    decreases |g.absRelocs| - i
  {
    hide At, AbsBytes, AbsOne, AbsOk, AbsTo;
    if i < |g.absRelocs| {
      var r := g.absRelocs[i];
      AbsRead(data, pos, g, m, b, h, r, acc, AbsolutesBytes(g, m, i + 1));
      AbsolutesRead(data, pos + |AbsBytes(g, m, r)|, g, m, b, h, i + 1, AbsTo(g, m, b, r, acc));
    }
  }

  // ---- The theorem

  lemma {:induction false} WordsAt(data: seq<byte>, pos: nat, ws: seq<int>, k: nat)
    requires At(data, pos, WordsBytes(ws)) && k < |ws| && 0 <= ws[k] < WORD
    ensures HasWord(data, pos + 4 * k) && Get32(data, pos + 4 * k) == ws[k]
    decreases k
  {
    hide At, Le32, Get32, HasWord;
    AtSplit(data, pos, Le32(ws[0]), WordsBytes(ws[1..]));
    if k == 0 {
      WordAt(data, pos, ws[0]);
    } else {
      WordsAt(data, pos + 4, ws[1..], k - 1);
    }
  }

  ghost predicate Readable(ws: seq<int>) {
    |ws| == 15 && ws[0] == MAGIC && forall k :: 0 <= k < 15 && !(7 <= k < 10) ==> 0 <= ws[k] < WORD
  }

  lemma HeaderFits(fs: Functions, g: Gen, m: Mark, fn: nat, peephole: Peephole)
    requires Emission(fs, g, m, fn) && Encodable(fs, g, m, fn)
    ensures Readable(HeaderWords(g, m, fs.labels[fn], peephole))
  {
  }

  lemma WordsEnd(data: seq<byte>, ws: seq<int>)
    requires At(data, 0, WordsBytes(ws))
    ensures 4 * |ws| <= |data|
  {
  }

  lemma ReadableAt(data: seq<byte>, ws: seq<int>, k: nat)
    requires At(data, 0, WordsBytes(ws)) && Readable(ws) && k < 15 && !(7 <= k < 10)
    ensures 4 * k + 4 <= |data| && Get32(data, 4 * k) == ws[k] && ws[k] >= 0
  {
    hide At, WordsBytes, Get32;
    WordsAt(data, 0, ws, k);
    WordsEnd(data, ws);
  }

  lemma WordsHeader(data: seq<byte>, ws: seq<int>)
    requires At(data, 0, WordsBytes(ws)) && Readable(ws)
    ensures |data| >= 60 && |ws| == 15 && ws[1] >= 0 && ws[2] >= 0 && ws[3] >= 0 && ws[4] >= 0 && ws[5] >= 0 && ws[6] >= 0
    ensures ws[10] >= 0 && ws[11] >= 0 && ws[12] >= 0 && ws[13] >= 0 && ws[14] >= 0
    ensures ReadHeader(data)
         == Some(Header(ws[1], ws[2], ws[3], ws[4], ws[5], ws[6], ws[10], ws[11], ws[12], ws[13], ws[14]))
  {
    hide At, WordsBytes, Get32;
    WordsEnd(data, ws);
    ReadableAt(data, ws, 0);
    ReadableAt(data, ws, 1);
    ReadableAt(data, ws, 2);
    ReadableAt(data, ws, 3);
    ReadableAt(data, ws, 4);
    ReadableAt(data, ws, 5);
    ReadableAt(data, ws, 6);
    ReadableAt(data, ws, 10);
    ReadableAt(data, ws, 11);
    ReadableAt(data, ws, 12);
    ReadableAt(data, ws, 13);
    ReadableAt(data, ws, 14);
  }

  lemma HeaderRead(data: seq<byte>, fs: Functions, g: Gen, m: Mark, fn: nat, peephole: Peephole)
    requires Emission(fs, g, m, fn) && Encodable(fs, g, m, fn)
    requires At(data, 0, WordsBytes(HeaderWords(g, m, fs.labels[fn], peephole)))
    ensures ReadHeader(data) == Some(HeaderOf(g, m, fs.labels[fn])) && |data| >= 60
  {
    hide At, WordsBytes, Get32, ReadHeader, Readable;
    HeaderFits(fs, g, m, fn, peephole);
    WordsHeader(data, HeaderWords(g, m, fs.labels[fn], peephole));
  }

  function BasesOf(g: Gen): Bases {
    Bases(|g.code|, |g.labelPos|, |g.data|, g.bssSize)
  }

  /** The emission appended to another generator: its code, data and bss. */
  function Appended(g: Gen, m: Mark, g': Gen): Gen
    requires m.code <= |g.code| && m.data <= |g.data| && m.bss <= g.bssSize
  {
    g'.(code := g'.code + g.code[m.code..], data := g'.data + g.data[m.data..], bssSize := g'.bssSize + (g.bssSize - m.bss))
  }

  /** The emission with its strings and labels, the function's own label set. */
  function Labelled(fs: Functions, g: Gen, m: Mark, fn: nat, fs': Functions, g': Gen, fn': nat): Gen
    requires m.code <= |g.code| && m.data <= |g.data| && m.bss <= g.bssSize && m.lbl <= |g.labelPos| && m.text <= |g.refs|
    requires fn < |fs.labels| && fn' < |fs'.labels| && fs'.labels[fn'] < |g'.labelPos|
    requires forall k :: m.text <= k < |g.refs| ==> m.data <= g.refs[k].off
  {
    var b := BasesOf(g');
    Appended(g, m, g').(
      refs := g'.refs + StringsTo(g, m, b, m.text),
      labelPos := g'.labelPos[fs'.labels[fn'] := b.code + (LabelPosition(g.labelPos, fs.labels[fn]) - m.code)] + LabelsTo(g, m, b, m.lbl))
  }

  /** The rebased emission: what replaying must produce. */
  ghost function Rebased(fs: Functions, g: Gen, m: Mark, fn: nat, fs': Functions, g': Gen, fn': nat): Gen
    requires Emission(fs, g, m, fn) && Storable(fs, g, m, fn) && Receives(fs, g, m, fn, fs', g', fn')
  {
    var b := BasesOf(g');
    var labelled := Labelled(fs, g, m, fn, fs', g', fn');
    QueueTo(fs, g, fs', m.queue, AbsolutesTo(g, m, b, m.abs, RelocsTo(fs, g, m, fs', b, m.reloc, labelled)))
  }

  /** The parts of a record, one behind the other. */
  ghost predicate Parts(data: seq<byte>, fs: Functions, g: Gen, m: Mark, fn: nat, peephole: Peephole, p1: nat, p2: nat, p3: nat, p4: nat, p5: nat)
    requires Emission(fs, g, m, fn) && Storable(fs, g, m, fn)
  {
    && At(data, 0, WordsBytes(HeaderWords(g, m, fs.labels[fn], peephole)))
    && At(data, 60, g.code[m.code..]) && At(data, 60 + (|g.code| - m.code), g.data[m.data..])
    && p1 == 60 + (|g.code| - m.code) + (|g.data| - m.data) && At(data, p1, StringBytes(g, m, m.text))
    && p2 == p1 + |StringBytes(g, m, m.text)| && At(data, p2, LabelBytes(g, m, m.lbl))
    && p3 == p2 + |LabelBytes(g, m, m.lbl)| && At(data, p3, RelocsBytes(fs, g, m, m.reloc))
    && p4 == p3 + |RelocsBytes(fs, g, m, m.reloc)| && At(data, p4, AbsolutesBytes(g, m, m.abs))
    && p5 == p4 + |AbsolutesBytes(g, m, m.abs)| && At(data, p5, QueueBytes(fs, g, m.queue))
    && |data| == p5 + |QueueBytes(fs, g, m.queue)|
  }

  lemma FourParts(data: seq<byte>, pos: nat, a: seq<byte>, b: seq<byte>, c: seq<byte>, d: seq<byte>)
    requires At(data, pos, a + b + c + d)
    ensures At(data, pos, a) && At(data, pos + |a|, b) && At(data, pos + |a| + |b|, c) && At(data, pos + |a| + |b| + |c|, d)
  {
    hide At;
    AtSplit(data, pos, a + b + c, d);
    AtSplit(data, pos, a + b, c);
    AtSplit(data, pos, a, b);
  }

  lemma StoredParts(fs: Functions, g: Gen, m: Mark, fn: nat, peephole: Peephole) returns (p1: nat, p2: nat, p3: nat, p4: nat, p5: nat)
    requires Emission(fs, g, m, fn) && Storable(fs, g, m, fn)
    ensures Parts(Stored(fs, g, m, fn, peephole), fs, g, m, fn, peephole, p1, p2, p3, p4, p5)
  {
    hide At, StringBytes, LabelBytes, RelocsBytes, AbsolutesBytes, QueueBytes, WordsBytes, OldStringsKnown, Le32;
    var a := WordsBytes(HeaderWords(g, m, fs.labels[fn], peephole));
    var code, bytes := g.code[m.code..], g.data[m.data..];
    var s, l := StringBytes(g, m, m.text), LabelBytes(g, m, m.lbl);
    var r, ab, q := RelocsBytes(fs, g, m, m.reloc), AbsolutesBytes(g, m, m.abs), QueueBytes(fs, g, m.queue);
    var data := Stored(fs, g, m, fn, peephole);
    assert data == (a + code + bytes + s) + (l + r + ab + q);
    WholeAt(data);
    AtSplit(data, 0, a + code + bytes + s, l + r + ab + q);
    FourParts(data, 0, a, code, bytes, s);
    p1 := 60 + |code| + |bytes|;
    p2 := p1 + |s|;
    FourParts(data, p2, l, r, ab, q);
    p3 := p2 + |l|;
    p4 := p3 + |r|;
    p5 := p4 + |ab|;
  }

  lemma WholeAt(data: seq<byte>)
    ensures At(data, 0, data)
  {
  }

  lemma RelocIsOk(fs: Functions, g: Gen, m: Mark, fn: nat, fs': Functions, g': Gen, fn': nat, acc: Gen, k: nat)
    requires Emission(fs, g, m, fn) && Storable(fs, g, m, fn) && Encodable(fs, g, m, fn) && Hosts(fs', g', fn')
    requires |acc.labelPos| == |g'.labelPos| + |g.labelPos| - m.lbl && m.reloc <= k < |g.relocs|
    requires KnownReloc(fs, m, fs', g', g.relocs[k])
    ensures RelocOk(fs, g, m, fs', BasesOf(g'), HeaderOf(g, m, fs.labels[fn]), g.relocs[k], acc)
  {
    hide Find;
  }

  lemma RelocsAreOk(fs: Functions, g: Gen, m: Mark, fn: nat, fs': Functions, g': Gen, fn': nat, acc: Gen)
    requires Emission(fs, g, m, fn) && Storable(fs, g, m, fn) && Encodable(fs, g, m, fn) && Receives(fs, g, m, fn, fs', g', fn')
    requires |acc.labelPos| == |g'.labelPos| + |g.labelPos| - m.lbl
    ensures forall k :: m.reloc <= k < |g.relocs| ==>
              RelocOk(fs, g, m, fs', BasesOf(g'), HeaderOf(g, m, fs.labels[fn]), g.relocs[k], acc)
  {
    hide RelocOk, KnownReloc, Storable, FunctionOf, Find;
    forall k | m.reloc <= k < |g.relocs|
      ensures RelocOk(fs, g, m, fs', BasesOf(g'), HeaderOf(g, m, fs.labels[fn]), g.relocs[k], acc)
    {
      RelocIsOk(fs, g, m, fn, fs', g', fn', acc, k);
    }
  }

  lemma AbsolutesAreOk(fs: Functions, g: Gen, m: Mark, fn: nat)
    requires Emission(fs, g, m, fn) && Storable(fs, g, m, fn) && Encodable(fs, g, m, fn)
    ensures OldStringsKnown(g, m)
    ensures forall k :: m.abs <= k < |g.absRelocs| ==> AbsOk(g, m, HeaderOf(g, m, fs.labels[fn]), g.absRelocs[k])
  {
  }

  /** The fields before the references: the code, data and bss appended, the strings and labels rebased. */
  lemma FrontRead(fs: Functions, g: Gen, m: Mark, fn: nat, peephole: Peephole, fs': Functions, g': Gen, fn': nat, data: seq<byte>,
                  p1: nat, p2: nat, p3: nat, p4: nat, p5: nat)
    requires Emission(fs, g, m, fn) && Storable(fs, g, m, fn) && Encodable(fs, g, m, fn) && Hosts(fs', g', fn')
    requires Parts(data, fs, g, m, fn, peephole, p1, p2, p3, p4, p5)
    ensures var h := HeaderOf(g, m, fs.labels[fn]); var b := BasesOf(g');
      && 60 + h.codeLen + h.dataLen == p1 <= |data| && Opened(g', data, h) == Appended(g, m, g')
      && Strings(data, p1, h.stringCount, h, b, Appended(g, m, g'))
         == Reached(Appended(g, m, g').(refs := g'.refs + StringsTo(g, m, b, m.text)), p2)
      && Labels(data, p2, h.labelCount, h, b, Labelled(fs, g, m, fn, fs', g', fn').(labelPos := g'.labelPos[fs'.labels[fn'] := b.code + h.funcLabelRel]))
         == Reached(Labelled(fs, g, m, fn, fs', g', fn'), p3)
  {
    hide Get32, WordsBytes, StringBytes, LabelBytes, RelocsBytes, AbsolutesBytes, QueueBytes, StringsTo, LabelsTo, Strings, Labels;
    hide OldStringsKnown, FunctionOf, Find;
    var h, b := HeaderOf(g, m, fs.labels[fn]), BasesOf(g');
    StringsRead(data, p1, g, m, m.text, h, b, Appended(g, m, g'));
    LabelsRead(data, p2, g, m, m.lbl, h, b,
               Labelled(fs, g, m, fn, fs', g', fn').(labelPos := g'.labelPos[fs'.labels[fn'] := b.code + h.funcLabelRel]));
  }

  lemma BackRead(fs: Functions, g: Gen, m: Mark, fn: nat, peephole: Peephole, fs': Functions, g': Gen, fn': nat, data: seq<byte>,
                 p1: nat, p2: nat, p3: nat, p4: nat, p5: nat)
    requires Emission(fs, g, m, fn) && Storable(fs, g, m, fn) && Encodable(fs, g, m, fn) && Receives(fs, g, m, fn, fs', g', fn')
    requires Parts(data, fs, g, m, fn, peephole, p1, p2, p3, p4, p5)
    ensures OldStringsKnown(g, m)
    ensures var h := HeaderOf(g, m, fs.labels[fn]); var b := BasesOf(g');
      var g2 := Labelled(fs, g, m, fn, fs', g', fn'); var g3 := RelocsTo(fs, g, m, fs', b, m.reloc, g2); var g4 := AbsolutesTo(g, m, b, m.abs, g3);
      && Relocs(fs', data, p3, h.relocCount, h, b, g2) == Reached(g3, p4)
      && Absolutes(data, p4, h.absCount, h, b, g3) == Reached(g4, p5)
      && Queue(fs', data, p5, h.queueCount, g4) == Reached(Rebased(fs, g, m, fn, fs', g', fn'), |data|)
  {
    hide At, Get32, WordsBytes, StringBytes, LabelBytes, RelocsBytes, AbsolutesBytes, QueueBytes, Relocs, Absolutes, Queue;
    hide RelocsTo, AbsolutesTo, QueueTo, OldStringsKnown, FunctionOf, Find, RelocOk, AbsOk;
    var h, b := HeaderOf(g, m, fs.labels[fn]), BasesOf(g');
    var g2 := Labelled(fs, g, m, fn, fs', g', fn');
    RelocsAreOk(fs, g, m, fn, fs', g', fn', g2);
    AbsolutesAreOk(fs, g, m, fn);
    RelocsRead(data, p3, fs, g, m, fs', b, h, m.reloc, g2);
    AbsolutesRead(data, p4, g, m, b, h, m.abs, RelocsTo(fs, g, m, fs', b, m.reloc, g2));
    QueueRead(data, p5, fs, g, fs', m.queue, AbsolutesTo(g, m, b, m.abs, RelocsTo(fs, g, m, fs', b, m.reloc, g2)));
  }

  /** The phases one after the other, each starting where the last one stopped. */
  lemma PhasesChain(fs: Functions, g: Gen, fn: nat, data: seq<byte>, h: Header, g0: Gen, g1: Gen, g2: Gen, g3: Gen, g4: Gen, g5: Gen,
                    p2: nat, p3: nat, p4: nat, p5: nat)
    requires fn < |fs.labels| && fs.labels[fn] < |g.labelPos| && g1.labelPos == g.labelPos && h.funcLabelRel <= h.codeLen
    requires ReadHeader(data) == Some(h) && 60 + h.codeLen + h.dataLen <= |data| && Opened(g, data, h) == g0
    requires Strings(data, 60 + h.codeLen + h.dataLen, h.stringCount, h, BasesOf(g), g0) == Reached(g1, p2)
    requires Labels(data, p2, h.labelCount, h, BasesOf(g), g1.(labelPos := g.labelPos[fs.labels[fn] := |g.code| + h.funcLabelRel]))
          == Reached(g2, p3)
    requires Relocs(fs, data, p3, h.relocCount, h, BasesOf(g), g2) == Reached(g3, p4)
    requires Absolutes(data, p4, h.absCount, h, BasesOf(g), g3) == Reached(g4, p5)
    requires Queue(fs, data, p5, h.queueCount, g4) == Reached(g5, |data|)
    ensures Replayed(fs, g, fn, data) == Reached(g5, |data|)
  {
    hide Strings, Labels, Relocs, Absolutes, Queue, Opened, ReadHeader;
  }

  /** Replaying a stored record succeeds, reads it to its very end, and leaves the generator as
      emitting the function at the new bases would have. */
  lemma StoreThenReplay(fs: Functions, g: Gen, m: Mark, fn: nat, peephole: Peephole, fs': Functions, g': Gen, fn': nat)
    requires Emission(fs, g, m, fn) && Storable(fs, g, m, fn) && Encodable(fs, g, m, fn) && Receives(fs, g, m, fn, fs', g', fn')
    ensures var data := Stored(fs, g, m, fn, peephole);
      Replayed(fs', g', fn', data) == Reached(Rebased(fs, g, m, fn, fs', g', fn'), |data|)
  {
    hide At, Stored, RelocsTo, AbsolutesTo, QueueTo, StringsTo, LabelsTo, Strings, Labels, Relocs, Absolutes, Queue;
    hide Opened, ReadHeader, Rebased, Replayed, ReplayedRest, FunctionOf, Find, OldStringsKnown;
    hide StringBytes, LabelBytes, RelocsBytes, AbsolutesBytes, QueueBytes, WordsBytes;
    var data := Stored(fs, g, m, fn, peephole);
    var p1, p2, p3, p4, p5 := StoredParts(fs, g, m, fn, peephole);
    HeaderRead(data, fs, g, m, fn, peephole);
    FrontRead(fs, g, m, fn, peephole, fs', g', fn', data, p1, p2, p3, p4, p5);
    BackRead(fs, g, m, fn, peephole, fs', g', fn', data, p1, p2, p3, p4, p5);
    var b, h := BasesOf(g'), HeaderOf(g, m, fs.labels[fn]);
    var g0 := Appended(g, m, g');
    var g2 := Labelled(fs, g, m, fn, fs', g', fn');
    var g3 := RelocsTo(fs, g, m, fs', b, m.reloc, g2);
    PhasesChain(fs', g', fn', data, h, g0, g0.(refs := g'.refs + StringsTo(g, m, b, m.text)), g2, g3, AbsolutesTo(g, m, b, m.abs, g3),
                Rebased(fs, g, m, fn, fs', g', fn'), p2, p3, p4, p5);
  }

  // ---- The peephole state

  lemma {:induction false} AnyWordAt(data: seq<byte>, pos: nat, ws: seq<int>, k: nat)
    requires At(data, pos, WordsBytes(ws)) && k < |ws|
    ensures HasWord(data, pos + 4 * k) && Get32(data, pos + 4 * k) == ws[k] % WORD
    decreases k
  {
    AtSplit(data, pos, Le32(ws[0]), WordsBytes(ws[1..]));
    if k == 0 {
      var w := Le32(ws[0]);
      assert data[pos..pos + 4][0] == w[0] && data[pos..pos + 4][1] == w[1] && data[pos..pos + 4][2] == w[2] && data[pos..pos + 4][3] == w[3];
      WordOfLe32(ws[0]);
    } else {
      hide At, Le32, Get32, HasWord;
      AnyWordAt(data, pos + 4, ws[1..], k - 1);
    }
  }

  /** The words of the peephole state come back without a sign: the state is restored exactly when
      none of them was negative. */
  lemma PeepholeRestored(fs: Functions, g: Gen, m: Mark, fn: nat, peephole: Peephole)
    requires Emission(fs, g, m, fn) && Storable(fs, g, m, fn) && Encodable(fs, g, m, fn)
    requires peephole.storeEnd < HALF && peephole.storeOff < HALF && peephole.load < HALF
    ensures var data := Stored(fs, g, m, fn, peephole);
      |data| >= 60 && (ReadPeephole(data) == peephole <==> peephole.storeEnd >= -1 && peephole.storeOff >= 0 && peephole.load >= 0)
  {
    hide At, Stored, Get32, WordsBytes, StringBytes, LabelBytes, RelocsBytes, AbsolutesBytes, QueueBytes, Storable, Encodable;
    var data := Stored(fs, g, m, fn, peephole);
    var p1, p2, p3, p4, p5 := StoredParts(fs, g, m, fn, peephole);
    var ws := HeaderWords(g, m, fs.labels[fn], peephole);
    WordsEnd(data, ws);
    AnyWordAt(data, 0, ws, 7);
    AnyWordAt(data, 0, ws, 8);
    AnyWordAt(data, 0, ws, 9);
  }

  /** A pending push, marked by a negative number, comes back as a load far behind all code. */
  lemma PendingPushIsLost(fs: Functions, g: Gen, m: Mark, fn: nat)
    requires Emission(fs, g, m, fn) && Storable(fs, g, m, fn) && Encodable(fs, g, m, fn)
    ensures var data := Stored(fs, g, m, fn, Peephole(-1, 0, -9)); |data| >= 60 && ReadPeephole(data) == Peephole(-1, 0, WORD - 9)
  {
    hide At, Stored, Get32, WordsBytes, StringBytes, LabelBytes, RelocsBytes, AbsolutesBytes, QueueBytes, Storable, Encodable;
    var data := Stored(fs, g, m, fn, Peephole(-1, 0, -9));
    var p1, p2, p3, p4, p5 := StoredParts(fs, g, m, fn, Peephole(-1, 0, -9));
    var ws := HeaderWords(g, m, fs.labels[fn], Peephole(-1, 0, -9));
    WordsEnd(data, ws);
    AnyWordAt(data, 0, ws, 7);
    AnyWordAt(data, 0, ws, 8);
    AnyWordAt(data, 0, ws, 9);
  }

  // ---- What the rebased emission is

  /** The reference at k, rebased. */
  function NewReloc(fs: Functions, m: Mark, fs': Functions, b: Bases, r: Reloc): Reloc
    requires |fs.labels| == |fs.ids| && |fs'.labels| == |fs'.ids|
  {
    Reloc(Unmark(b.code + (r.at - m.code)), Unmark(NewLabel(fs, m, fs', b, r.lbl)))
  }

  lemma {:induction false} RelocsToShape(fs: Functions, g: Gen, m: Mark, fs': Functions, b: Bases, i: nat, acc: Gen)
    requires |fs.labels| == |fs.ids| && |fs'.labels| == |fs'.ids| && i <= |g.relocs|
    ensures var r := RelocsTo(fs, g, m, fs', b, i, acc);
      && r == acc.(relocs := r.relocs, marked := r.marked, queue := r.queue)
      && acc.relocs <= r.relocs && |r.relocs| == |acc.relocs| + |g.relocs| - i
      && (forall k :: i <= k < |g.relocs| ==> r.relocs[|acc.relocs| + k - i] == NewReloc(fs, m, fs', b, g.relocs[k]))
      && |r.marked| == |acc.marked|
      && (forall f :: 0 <= f < |acc.marked| ==>
            (r.marked[f] <==> acc.marked[f] || exists k :: i <= k < |g.relocs| && Callee(fs, fs', g.relocs[k].lbl) == f))
    decreases |g.relocs| - i
  {
    hide NewLabel, Callee, Unmark, MarkFunc;
    if i < |g.relocs| {
      var next := RelocTo(fs, m, fs', b, g.relocs[i], acc);
      RelocsToShape(fs, g, m, fs', b, i + 1, next);
      assert acc.relocs <= next.relocs;
    }
  }

  /** Where a rebased data reference must point: an older string's content is found there again,
      anything else is moved with its segment. */
  ghost predicate PointsAlike(g: Gen, m: Mark, b: Bases, r: AbsReloc, data: seq<byte>, r': AbsReloc) {
    && r'.at == Unmark(b.code + (r.at - m.code))
    && if IsOldString(m, r) then
         0 <= TextLength(g.refs, r.off) && r.off + TextLength(g.refs, r.off) <= |g.data| && r'.kind == 0
         && exists off: nat :: r'.off == Unmark(off) && IsAt(data, off, g.data[r.off..r.off + TextLength(g.refs, r.off)])
       else r'.off == Unmark(NewOffset(m, b, r)) && r'.kind == Unmark(r.kind)
  }

  lemma PointsAlikeStays(g: Gen, m: Mark, b: Bases, r: AbsReloc, data: seq<byte>, more: seq<byte>, r': AbsReloc)
    requires PointsAlike(g, m, b, r, data, r') && data <= more
    ensures PointsAlike(g, m, b, r, more, r')
  {
    if IsOldString(m, r) {
      var msg := g.data[r.off..r.off + TextLength(g.refs, r.off)];
      var off: nat :| r'.off == Unmark(off) && IsAt(data, off, msg);
      assert more[off..off + |msg|] == data[off..off + |msg|];
      assert IsAt(more, off, msg);
    }
  }

  lemma AbsToPoints(g: Gen, m: Mark, b: Bases, r: AbsReloc, acc: Gen)
    requires IsOldString(m, r) ==> 0 <= TextLength(g.refs, r.off) && r.off + TextLength(g.refs, r.off) <= |g.data|
    ensures var next := AbsTo(g, m, b, r, acc);
      && next == acc.(data := next.data, refs := next.refs, pool := next.pool, absRelocs := next.absRelocs)
      && acc.data <= next.data && acc.absRelocs <= next.absRelocs && |next.absRelocs| == |acc.absRelocs| + 1
      && PointsAlike(g, m, b, r, next.data, next.absRelocs[|acc.absRelocs|])
  {
    hide Unmark, IsAt, Intern;
    if IsOldString(m, r) {
      var (acc', off) := Intern(acc, g.data[r.off..r.off + TextLength(g.refs, r.off)]);
      var next := AbsTo(g, m, b, r, acc);
      assert next.data == acc'.data && next.absRelocs[|acc.absRelocs|].off == Unmark(off);
    }
  }

  lemma {:induction false} AbsolutesToShape(g: Gen, m: Mark, b: Bases, i: nat, acc: Gen)
    requires m.abs <= i <= |g.absRelocs| && OldStringsKnown(g, m)
    ensures var r := AbsolutesTo(g, m, b, i, acc);
      && r == acc.(data := r.data, refs := r.refs, pool := r.pool, absRelocs := r.absRelocs)
      && acc.data <= r.data && acc.absRelocs <= r.absRelocs && |r.absRelocs| == |acc.absRelocs| + |g.absRelocs| - i
      && (forall k :: i <= k < |g.absRelocs| ==> PointsAlike(g, m, b, g.absRelocs[k], r.data, r.absRelocs[|acc.absRelocs| + k - i]))
    decreases |g.absRelocs| - i
  {
    hide PointsAlike, AbsTo;
    if i < |g.absRelocs| {
      var next := AbsTo(g, m, b, g.absRelocs[i], acc);
      AbsToPoints(g, m, b, g.absRelocs[i], acc);
      AbsolutesToShape(g, m, b, i + 1, next);
      var r := AbsolutesTo(g, m, b, i, acc);
      PointsAlikeStays(g, m, b, g.absRelocs[i], next.data, r.data, next.absRelocs[|acc.absRelocs|]);
    }
  }

  lemma {:induction false} QueueToShape(fs: Functions, g: Gen, fs': Functions, i: nat, acc: Gen)
    requires i <= |g.queue| && (forall k :: 0 <= k < |g.queue| ==> g.queue[k] < |fs.ids|)
    ensures var r := QueueTo(fs, g, fs', i, acc);
      && r == acc.(marked := r.marked, queue := r.queue) && |r.marked| == |acc.marked|
      && (forall f :: 0 <= f < |acc.marked| ==>
            (r.marked[f] <==> acc.marked[f] || exists k :: i <= k < |g.queue| && Find(fs'.ids, fs.ids[g.queue[k]]) == f))
    decreases |g.queue| - i
  {
    hide Find, MarkFunc;
    if i < |g.queue| {
      QueueToShape(fs, g, fs', i + 1, MarkFunc(acc, Find(fs'.ids, fs.ids[g.queue[i]])));
    }
  }

  /** The functions a replay newly marks: those the code refers to and those the emission queued. */
  ghost predicate MarkedBy(fs: Functions, g: Gen, m: Mark, fs': Functions, f: int)
    requires |fs.labels| == |fs.ids| && (forall k :: 0 <= k < |g.queue| ==> g.queue[k] < |fs.ids|)
  {
    || (exists k :: m.reloc <= k < |g.relocs| && Callee(fs, fs', g.relocs[k].lbl) == f)
    || (exists k :: m.queue <= k < |g.queue| && Find(fs'.ids, fs.ids[g.queue[k]]) == f)
  }

  /** The rebased emission in terms of the recorded one: the same code and data, every position in
      the function moved to the new code base, references to functions found again by identity,
      offsets into the function's own data and bss moved to the new bases and older ones kept,
      older strings found by content, and exactly the referenced and queued functions marked. */
  lemma RebasedIsShifted(fs: Functions, g: Gen, m: Mark, fn: nat, fs': Functions, g': Gen, fn': nat)
    requires Emission(fs, g, m, fn) && Storable(fs, g, m, fn) && Receives(fs, g, m, fn, fs', g', fn')
    ensures var r := Rebased(fs, g, m, fn, fs', g', fn'); var b := BasesOf(g'); var own := fs'.labels[fn'];
      && r.code == g'.code + g.code[m.code..] && g'.data + g.data[m.data..] <= r.data && r.bssSize == g'.bssSize + (g.bssSize - m.bss)
      && |r.labelPos| == |g'.labelPos| + (|g.labelPos| - m.lbl)
      && r.labelPos[own] == b.code + (LabelPosition(g.labelPos, fs.labels[fn]) - m.code)
      && (forall k :: 0 <= k < |g'.labelPos| && k != own ==> r.labelPos[k] == g'.labelPos[k])
      && (forall k :: m.lbl <= k < |g.labelPos| ==> r.labelPos[|g'.labelPos| + k - m.lbl] == LabelTo(m, b, g.labelPos[k]))
      && g'.relocs <= r.relocs && |r.relocs| == |g'.relocs| + |g.relocs| - m.reloc
      && (forall k :: m.reloc <= k < |g.relocs| ==> r.relocs[|g'.relocs| + k - m.reloc] == NewReloc(fs, m, fs', b, g.relocs[k]))
      && g'.absRelocs <= r.absRelocs && |r.absRelocs| == |g'.absRelocs| + |g.absRelocs| - m.abs
      && (forall k :: m.abs <= k < |g.absRelocs| ==>
            PointsAlike(g, m, b, g.absRelocs[k], r.data, r.absRelocs[|g'.absRelocs| + k - m.abs]))
      && |r.marked| == |g'.marked|
      && (forall f :: 0 <= f < |g'.marked| ==> (r.marked[f] <==> g'.marked[f] || MarkedBy(fs, g, m, fs', f)))
  {
    hide RelocsTo, AbsolutesTo, QueueTo, PointsAlike, NewReloc, Callee, Find, StringsTo, LabelTo, OldStringsKnown, FunctionOf;
    var b := BasesOf(g');
    var g2 := Labelled(fs, g, m, fn, fs', g', fn');
    var g3 := RelocsTo(fs, g, m, fs', b, m.reloc, g2);
    RelocsToShape(fs, g, m, fs', b, m.reloc, g2);
    AbsolutesToShape(g, m, b, m.abs, g3);
    QueueToShape(fs, g, fs', m.queue, AbsolutesTo(g, m, b, m.abs, g3));
  }

  /** The content of a recorded string stands in other data, at an offset. */
  ghost predicate SameText(g: Gen, from: int, data: seq<byte>, to: int) {
    exists j :: 0 <= j < |g.refs| && g.refs[j].off == from && 0 <= to && to + g.refs[j].len <= |data|
      && from + g.refs[j].len <= |g.data| && data[to..to + g.refs[j].len] == g.data[from..from + g.refs[j].len]
  }

  /** A data reference, range by range. Into the data (kind 0): a string older than the function but
      not than the build is found by its content; the function's own data moves with it; what is older
      than the build stays. Into the bss (kind 1): the function's own moves, the rest stays. Imports
      (kind 2) stay. */
  lemma DataReferenceMoves(fs: Functions, g: Gen, m: Mark, fn: nat, fs': Functions, g': Gen, fn': nat, k: nat)
    requires Emission(fs, g, m, fn) && Storable(fs, g, m, fn) && Encodable(fs, g, m, fn) && Receives(fs, g, m, fn, fs', g', fn')
    requires m.abs <= k < |g.absRelocs|
    ensures var r, now := g.absRelocs[k], Rebased(fs, g, m, fn, fs', g', fn');
      && |now.absRelocs| == |g'.absRelocs| + |g.absRelocs| - m.abs
      && var r' := now.absRelocs[|g'.absRelocs| + k - m.abs];
      && r'.at == (|g'.code| + r.at - m.code) % HALF && r'.kind == r.kind
      && (r.kind == 0 && m.objectData <= r.off < m.data ==> exists to: nat :: r'.off == to % HALF && SameText(g, r.off, now.data, to))
      && (r.kind == 0 && r.off >= m.data ==> r'.off == (|g'.data| + r.off - m.data) % HALF)
      && (r.kind == 0 && r.off < m.data && r.off < m.objectData ==> r'.off == r.off)
      && (r.kind == 1 && r.off >= m.bss ==> r'.off == (g'.bssSize + r.off - m.bss) % HALF)
      && (r.kind == 1 && r.off < m.bss ==> r'.off == r.off)
      && (r.kind == 2 ==> r'.off == r.off)
  {
    hide Rebased, FunctionOf, Find, OldStringsKnown, Callee, MarkedBy, NewReloc, Storable, Hosts, Known, TextLength;
    RebasedIsShifted(fs, g, m, fn, fs', g', fn');
    var now := Rebased(fs, g, m, fn, fs', g', fn');
    PointsWrittenOut(g, m, BasesOf(g'), g.absRelocs[k], now.data, now.absRelocs[|g'.absRelocs| + k - m.abs]);
  }

  lemma PointsWrittenOut(g: Gen, m: Mark, b: Bases, r: AbsReloc, data: seq<byte>, r': AbsReloc)
    requires PointsAlike(g, m, b, r, data, r') && 0 <= r.off < HALF && 0 <= r.kind <= 2
    ensures r'.at == (b.code + r.at - m.code) % HALF && r'.kind == r.kind
    ensures r.kind == 0 && m.objectData <= r.off < m.data ==> exists to: nat :: r'.off == to % HALF && SameText(g, r.off, data, to)
    ensures r.kind == 0 && r.off >= m.data ==> r'.off == (b.data + r.off - m.data) % HALF
    ensures r.kind == 0 && r.off < m.data && r.off < m.objectData ==> r'.off == r.off
    ensures r.kind == 1 && r.off >= m.bss ==> r'.off == (b.bss + r.off - m.bss) % HALF
    ensures r.kind == 1 && r.off < m.bss ==> r'.off == r.off
    ensures r.kind == 2 ==> r'.off == r.off
  {
    hide TextLength, IsAt, SameText, Unmark;
    UnmarkIs(b.code + (r.at - m.code));
    UnmarkIs(NewOffset(m, b, r));
    UnmarkIs(r.kind);
    KindStays(r.kind);
    KindStays(r.off);
    if IsOldString(m, r) {
      var to: nat :| r'.off == Unmark(to) && IsAt(data, to, g.data[r.off..r.off + TextLength(g.refs, r.off)]);
      UnmarkIs(to);
      TextStands(g, r.off, data, to);
    }
  }

  lemma UnmarkIs(v: int)
    ensures Unmark(v) == v % HALF
  {
  }

  lemma TextStands(g: Gen, off: int, data: seq<byte>, to: nat)
    requires 0 <= off && 0 <= TextLength(g.refs, off) && off + TextLength(g.refs, off) <= |g.data|
    requires IsAt(data, to, g.data[off..off + TextLength(g.refs, off)])
    ensures SameText(g, off, data, to)
  {
    hide TextLength;
    var j :| 0 <= j < |g.refs| && g.refs[j].off == off && g.refs[j].len == TextLength(g.refs, off);
  }

  /** A label reference, case by case: a function's goes to the label of the function with the same
      identity, one to a label of the emission moves with the labels, a runtime label keeps its
      distance from the function labels. */
  lemma LabelReferenceMoves(fs: Functions, g: Gen, m: Mark, fn: nat, fs': Functions, g': Gen, fn': nat, k: nat)
    requires Emission(fs, g, m, fn) && Storable(fs, g, m, fn) && Encodable(fs, g, m, fn) && Receives(fs, g, m, fn, fs', g', fn')
    requires m.reloc <= k < |g.relocs|
    ensures var r, now := g.relocs[k], Rebased(fs, g, m, fn, fs', g', fn');
      && |now.relocs| == |g'.relocs| + |g.relocs| - m.reloc
      && var r' := now.relocs[|g'.relocs| + k - m.reloc];
      && r'.at == (|g'.code| + r.at - m.code) % HALF
      && ((exists f :: 0 <= f < |fs.labels| && fs.labels[f] == r.lbl) ==> SameFunction(fs, r.lbl, fs', r'.lbl))
      && (!(exists f :: 0 <= f < |fs.labels| && fs.labels[f] == r.lbl) ==>
            r'.lbl == (if r.lbl >= m.lbl then |g'.labelPos| + r.lbl - m.lbl else |fs'.labels| + r.lbl - |fs.labels|) % HALF)
  {
    hide Rebased, OldStringsKnown, Callee, MarkedBy, Storable, LabelTo, PointsAlike;
    RebasedIsShifted(fs, g, m, fn, fs', g', fn');
    var r := g.relocs[k];
    var f := FunctionOf(fs.labels, r.lbl, 0);
    if f < |fs.labels| {
      assert KnownReloc(fs, m, fs', g', r);
      var callee := Find(fs'.ids, fs.ids[f]);
      FunctionLabelFits(fs', g', fn', callee);
      assert fs.labels[f] == r.lbl && fs.ids[f] == fs'.ids[callee] && fs'.labels[callee] < HALF;
    }
  }

  lemma FunctionLabelFits(fs': Functions, g': Gen, fn': nat, f: nat)
    requires Hosts(fs', g', fn') && f < |fs'.labels|
    ensures fs'.labels[f] < HALF
  {
  }

  /** Two labels, in two programs, of functions with the same identity. */
  ghost predicate SameFunction(fs: Functions, lbl: int, fs': Functions, lbl': int)
    requires |fs.labels| == |fs.ids| && |fs'.labels| == |fs'.ids|
  {
    exists f, f' :: 0 <= f < |fs.labels| && 0 <= f' < |fs'.labels| && fs.labels[f] == lbl && fs'.labels[f'] == lbl' && fs.ids[f] == fs'.ids[f']
  }

  /** A label of the emission: unset ones stay unset, set ones move with the code. */
  lemma LabelMoves(fs: Functions, g: Gen, m: Mark, fn: nat, fs': Functions, g': Gen, fn': nat, k: nat)
    requires Emission(fs, g, m, fn) && Storable(fs, g, m, fn) && Receives(fs, g, m, fn, fs', g', fn') && m.lbl <= k < |g.labelPos|
    ensures var now := Rebased(fs, g, m, fn, fs', g', fn');
      && |now.labelPos| == |g'.labelPos| + |g.labelPos| - m.lbl
      && now.labelPos[|g'.labelPos| + k - m.lbl] == if g.labelPos[k] < 0 then -1 else |g'.code| + g.labelPos[k] - m.code
  {
    hide Rebased, FunctionOf, Find, OldStringsKnown, Callee, MarkedBy, NewReloc, PointsAlike;
    RebasedIsShifted(fs, g, m, fn, fs', g', fn');
  }

  /** The conditions can be met: a function of one byte that calls itself, replayed behind itself. */
  lemma OneFunction(fs: Functions, g: Gen, m: Mark)
    requires fs == Functions([0], [Identity(1, 2)]) && m == Mark(0, 1, 0, 0, 0, 0, 0, 0, 0)
    requires g == Gen([0x90], [], [0], [Reloc(0, 0)], [], 0, [], [], [true], [0])
    ensures Emission(fs, g, m, 0) && Storable(fs, g, m, 0) && Encodable(fs, g, m, 0) && Receives(fs, g, m, 0, fs, g, 0)
  {
    FirstIsFound(fs);
    hide FunctionOf, Find;
    assert Emission(fs, g, m, 0);
  }

  lemma FirstIsFound(fs: Functions)
    requires fs == Functions([0], [Identity(1, 2)])
    ensures FunctionOf(fs.labels, 0, 0) == 0 && Find(fs.ids, fs.ids[0]) == 0
  {
    assert fs.ids[0] == fs.ids[0];
  }

  // ---- Replaying where the function was emitted

  ghost predicate Distinct(ids: seq<Identity>) {
    forall i, j :: 0 <= i < j < |ids| ==> ids[i] != ids[j]
  }

  lemma SameReloc(fs: Functions, g: Gen, m: Mark, fn: nat, r: Reloc)
    requires Emission(fs, g, m, fn) && Distinct(fs.ids)
    requires m.code <= r.at < HALF && 0 <= r.lbl < HALF
    ensures NewReloc(fs, m, fs, Bases(m.code, m.lbl, m.data, m.bss), r) == r
  {
    var f := FunctionOf(fs.labels, r.lbl, 0);
    if f < |fs.labels| {
      assert fs.ids[f] == fs.ids[f];
      assert Find(fs.ids, fs.ids[f]) == f;
    }
  }

  /** Replaying a record at the very place it was recorded, in the same program, reproduces the
      emission: the same code, label positions, references and bss, and the same data references
      except that older strings may be found elsewhere. */
  lemma ReplayInPlace(fs: Functions, g: Gen, m: Mark, fn: nat, peephole: Peephole, g': Gen)
    requires Emission(fs, g, m, fn) && Storable(fs, g, m, fn) && Encodable(fs, g, m, fn) && Receives(fs, g, m, fn, fs, g', fn)
    requires BasesOf(g') == Bases(m.code, m.lbl, m.data, m.bss) && Distinct(fs.ids)
    requires forall k :: m.lbl <= k < |g.labelPos| ==> g.labelPos[k] >= -1
    ensures var replayed := Replayed(fs, g', fn, Stored(fs, g, m, fn, peephole)); replayed.Reached? && var r := replayed.g;
      && r.code == g'.code + g.code[m.code..] && r.bssSize == g.bssSize
      && r.labelPos == g'.labelPos[fs.labels[fn] := g.labelPos[fs.labels[fn]]] + g.labelPos[m.lbl..]
      && r.relocs == g'.relocs + g.relocs[m.reloc..]
      && |r.absRelocs| == |g'.absRelocs| + |g.absRelocs| - m.abs
      && (forall k :: m.abs <= k < |g.absRelocs| && !IsOldString(m, g.absRelocs[k]) ==>
            r.absRelocs[|g'.absRelocs| + k - m.abs] == g.absRelocs[k])
  {
    hide Rebased, Replayed, Stored, NewReloc, FunctionOf, Find, OldStringsKnown, Callee, IsAt, MarkedBy, Distinct;
    StoreThenReplay(fs, g, m, fn, peephole, fs, g', fn);
    RebasedIsShifted(fs, g, m, fn, fs, g', fn);
    forall k | m.reloc <= k < |g.relocs|
      ensures NewReloc(fs, m, fs, BasesOf(g'), g.relocs[k]) == g.relocs[k]
    {
      SameReloc(fs, g, m, fn, g.relocs[k]);
    }
  }
}
