/** Serialising an emitted function and replaying it at other bases. */
module ObjectRecord {
  import opened Bytes
  import opened Emitted
  import opened ObjectIndex
  import opened Wrappers

  /** A static string in the data: its offset and length. */
  datatype Text = Text(off: nat, len: nat)

  /** The generator state that emitting a function appends to. `refs` are the recorded static
      strings, `pool` the ones that interning remembers. */
  datatype Gen = Gen(code: seq<byte>, data: seq<byte>, labelPos: seq<int>, relocs: seq<Reloc>, absRelocs: seq<AbsReloc>,
                     bssSize: nat, refs: seq<Text>, pool: seq<Text>, marked: seq<bool>, queue: seq<nat>)

  /** The functions of the program: a label and an identity each. */
  datatype Functions = Functions(labels: seq<nat>, ids: seq<Identity>)

  const MAGIC := 0x524f424a
  const LOCAL := 0
  const FUNCTION := 1
  const RUNTIME := 2
  const STRING := 3
  const BSS := 1

  // ---- Marking and interning

  function MarkFunc(g: Gen, f: int): (r: Gen)
    ensures r == g.(marked := r.marked, queue := r.queue) && |r.marked| == |g.marked|
    ensures forall i :: 0 <= i < |g.marked| ==> r.marked[i] == (g.marked[i] || i == f)
  {
    if f < 0 || f >= |g.marked| || g.marked[f] then g
    else g.(marked := g.marked[f := true], queue := g.queue + [f])
  }

  predicate IsAt(data: seq<byte>, off: int, msg: seq<byte>) {
    0 <= off && off + |msg| <= |data| && data[off..off + |msg|] == msg
  }

  /** The first remembered string with the given content. */
  function Lookup(pool: seq<Text>, data: seq<byte>, msg: seq<byte>): (off: int)
    ensures off >= 0 ==> IsAt(data, off, msg)
  {
    if pool == [] then -1
    else if pool[0].len == |msg| && IsAt(data, pool[0].off, msg) then pool[0].off
    else Lookup(pool[1..], data, msg)
  }

  /** A zero-terminated occurrence of the content from an offset on. */
  function Search(data: seq<byte>, msg: seq<byte>, off: nat): (found: int)
    ensures found >= 0 ==> IsAt(data, found, msg)
    decreases |data| - off
  {
    if off + |msg| >= |data| then -1
    else if data[off + |msg|] == 0 && data[off..off + |msg|] == msg then off
    else Search(data, msg, off + 1)
  }

  const WINDOW := 512

  /** Interns a string by content: a remembered one, one near the end of the data, or a new one. */
  function Intern(g: Gen, msg: seq<byte>): (r: (Gen, nat))
    ensures r.0 == g.(data := r.0.data, refs := r.0.refs, pool := r.0.pool)
    ensures g.data <= r.0.data && IsAt(r.0.data, r.1, msg)
  {
    var off := Lookup(g.pool, g.data, msg);
    if off >= 0 then (g, off)
    else
      var near := Search(g.data, msg, if |g.data| < WINDOW then 0 else |g.data| - WINDOW);
      if near >= 0 then (g.(pool := g.pool + [Text(near, |msg|)]), near)
      else
        var here := |g.data|;
        (g.(data := g.data + msg + [0], refs := g.refs + [Text(here, |msg|)], pool := g.pool + [Text(here, |msg|)]), here)
  }

  // ---- Reading

  predicate HasWord(data: seq<byte>, pos: nat) {
    pos + 4 <= |data|
  }

  /** Where the fixed fields of a record stand. */
  datatype Header = Header(codeLen: nat, labelCount: nat, funcLabelRel: nat, relocCount: nat, absCount: nat, queueCount: nat,
                           dataLen: nat, bssDelta: nat, oldDataBase: nat, oldBssBase: nat, stringCount: nat)

  function ReadHeader(data: seq<byte>): Option<Header> {
    if |data| < 60 || Get32(data, 0) != MAGIC then None
    else Some(Header(Get32(data, 4), Get32(data, 8), Get32(data, 12), Get32(data, 16), Get32(data, 20), Get32(data, 24),
                     Get32(data, 40), Get32(data, 44), Get32(data, 48), Get32(data, 52), Get32(data, 56)))
  }

  /** The bases at which a record is replayed. */
  datatype Bases = Bases(code: nat, lbl: nat, data: nat, bss: nat)

  /** How a phase of the replay ends: at a position of the record, or stopped by a refusal. Either
      way the generator keeps what was added to it. */
  datatype Outcome = Stopped(g: Gen) | Reached(g: Gen, pos: nat)

  /** A word of the record as it is read: zero behind the end. */
  function WordOr0(data: seq<byte>, pos: nat): nat {
    if HasWord(data, pos) then Get32(data, pos) else 0
  }

  function Strings(data: seq<byte>, pos: nat, n: nat, h: Header, b: Bases, g: Gen): Outcome
    decreases n
  {
    if n == 0 then Reached(g, pos)
    else if !HasWord(data, pos + 4) then Stopped(g)
    else
      var off, length := Get32(data, pos), Get32(data, pos + 4);
      if off + length >= h.dataLen then Stopped(g)
      else Strings(data, pos + 8, n - 1, h, b, g.(refs := g.refs + [Text(b.data + off, length)]))
  }

  function Labels(data: seq<byte>, pos: nat, n: nat, h: Header, b: Bases, g: Gen): Outcome
    decreases n
  {
    if n == 0 then Reached(g, pos)
    else if !HasWord(data, pos + 4) then Stopped(g)
    else
      var isSet, position := Get32(data, pos), Get32(data, pos + 4);
      if isSet > 1 || position > h.codeLen then Stopped(g)
      else Labels(data, pos + 8, n - 1, h, b, g.(labelPos := g.labelPos + [if isSet == 0 then -1 else b.code + position]))
  }

  /** One label reference; a function's is found by identity and marks the function, even when
      the reference is refused then. */
  function RelocOne(fs: Functions, data: seq<byte>, pos: nat, h: Header, b: Bases, g: Gen): Outcome {
    var at, kind, value := WordOr0(data, pos), WordOr0(data, pos + 4), WordOr0(data, pos + 8);
    if kind == LOCAL then
      if value >= h.labelCount then Stopped(g) else AddReloc(data, h, b, g, at, b.lbl + value, pos + 12)
    else if kind == FUNCTION then
      var callee := Find(fs.ids, Identity(value, WordOr0(data, pos + 12)));
      if callee < 0 || callee >= |fs.labels| then Stopped(g)
      else AddReloc(data, h, b, MarkFunc(g, callee), at, fs.labels[callee], pos + 16)
    else if kind == RUNTIME then
      if |fs.labels| + value >= b.lbl then Stopped(g) else AddReloc(data, h, b, g, at, |fs.labels| + value, pos + 12)
    else Stopped(g)
  }

  function AddReloc(data: seq<byte>, h: Header, b: Bases, g: Gen, at: nat, lbl: nat, pos: nat): Outcome {
    if pos > |data| || at >= h.codeLen || lbl >= |g.labelPos| then Stopped(g)
    else Reached(g.(relocs := g.relocs + [Reloc(Unmark(b.code + at), Unmark(lbl))]), pos)
  }

  function Relocs(fs: Functions, data: seq<byte>, pos: nat, n: nat, h: Header, b: Bases, g: Gen): Outcome
    decreases n
  {
    if n == 0 then Reached(g, pos)
    else
      match RelocOne(fs, data, pos, h, b, g)
      case Stopped(g') => Stopped(g')
      case Reached(g', pos') => Relocs(fs, data, pos', n - 1, h, b, g')
  }

  /** One data reference: an older string is interned by content, other offsets are rebased when
      they point behind the old bases. The string stays when the reference is refused then. */
  function AbsOne(data: seq<byte>, pos: nat, h: Header, b: Bases, g: Gen): Outcome {
    if !HasWord(data, pos + 8) then Stopped(g)
    else
      var at, kind, value := Get32(data, pos), Get32(data, pos + 4), Get32(data, pos + 8);
      if kind == STRING then
        if pos + 12 + value > |data| then Stopped(g)
        else
          var (g', off) := Intern(g, data[pos + 12..pos + 12 + value]);
          if at >= h.codeLen then Stopped(g') else Reached(AddAbs(b, g', at, off, 0), pos + 12 + value)
      else if at >= h.codeLen then Stopped(g)
      else Reached(AddAbs(b, g, at, RebasedOffset(h, b, kind, value), kind), pos + 12)
  }

  function RebasedOffset(h: Header, b: Bases, kind: nat, off: nat): int {
    if kind == BSS && off >= h.oldBssBase then b.bss + off - h.oldBssBase
    else if kind == 0 && off >= h.oldDataBase then b.data + off - h.oldDataBase
    else off
  }

  function AddAbs(b: Bases, g: Gen, at: nat, off: int, kind: nat): Gen {
    g.(absRelocs := g.absRelocs + [AbsReloc(Unmark(b.code + at), Unmark(off), Unmark(kind))])
  }

  function Absolutes(data: seq<byte>, pos: nat, n: nat, h: Header, b: Bases, g: Gen): Outcome
    decreases n
  {
    if n == 0 then Reached(g, pos)
    else
      match AbsOne(data, pos, h, b, g)
      case Stopped(g') => Stopped(g')
      case Reached(g', pos') => Absolutes(data, pos', n - 1, h, b, g')
  }

  function Queue(fs: Functions, data: seq<byte>, pos: nat, n: nat, g: Gen): Outcome
    decreases n
  {
    if n == 0 then Reached(g, pos)
    else if !HasWord(data, pos + 4) then Stopped(g)
    else
      var callee := Find(fs.ids, Identity(Get32(data, pos), Get32(data, pos + 4)));
      if callee < 0 then Stopped(g) else Queue(fs, data, pos + 8, n - 1, MarkFunc(g, callee))
  }

  /** The code, data and bss of the record are appended before anything else. */
  function Opened(g: Gen, data: seq<byte>, h: Header): Gen
    requires 60 + h.codeLen + h.dataLen <= |data|
  {
    g.(code := g.code + data[60..60 + h.codeLen], data := g.data + data[60 + h.codeLen..60 + h.codeLen + h.dataLen],
       bssSize := g.bssSize + h.bssDelta)
  }

  /** The header alone refuses a record: too short, not a record, or without all its bytes. */
  predicate HeaderRefuses(data: seq<byte>) {
    match ReadHeader(data)
    case None => true
    case Some(h) => 60 + h.codeLen + h.dataLen > |data|
  }

  /** The whole replay. */
  function Replayed(fs: Functions, g: Gen, fn: int, data: seq<byte>): Outcome {
    if HeaderRefuses(data) then Stopped(g)
    else
      var h := ReadHeader(data).value;
      var b := Bases(|g.code|, |g.labelPos|, |g.data|, g.bssSize);
      match Strings(data, 60 + h.codeLen + h.dataLen, h.stringCount, h, b, Opened(g, data, h))
      case Stopped(g1) => Stopped(g1)
      case Reached(g1, pos1) =>
        if fn < 0 || fn >= |fs.labels| || h.funcLabelRel > h.codeLen || fs.labels[fn] >= |g1.labelPos| then Stopped(g1)
        else ReplayedRest(fs, g1.(labelPos := g1.labelPos[fs.labels[fn] := b.code + h.funcLabelRel]), data, pos1, h, b)
  }

  function ReplayedRest(fs: Functions, g: Gen, data: seq<byte>, pos: nat, h: Header, b: Bases): Outcome {
    match Labels(data, pos, h.labelCount, h, b, g)
    case Stopped(g2) => Stopped(g2)
    case Reached(g2, pos2) =>
      match Relocs(fs, data, pos2, h.relocCount, h, b, g2)
      case Stopped(g3) => Stopped(g3)
      case Reached(g3, pos3) =>
        match Absolutes(data, pos3, h.absCount, h, b, g3)
        case Stopped(g4) => Stopped(g4)
        case Reached(g4, pos4) =>
          match Queue(fs, data, pos4, h.queueCount, g4)
          case Stopped(g5) => Stopped(g5)
          case Reached(g5, pos5) => if pos5 == |data| then Reached(g5, pos5) else Stopped(g5)
  }

  // ---- Storing

  /** Where the emission of a function began: lengths of the generator's buffers before it, and
      the data length when the cache was set up. */
  datatype Mark = Mark(code: nat, lbl: nat, reloc: nat, abs: nat, queue: nat, data: nat, bss: nat, text: nat, objectData: nat)

  /** The first function with a label. */
  function FunctionOf(labels: seq<nat>, lbl: int, i: nat): (f: nat)
    requires i <= |labels|
    ensures i <= f <= |labels|
    ensures f < |labels| ==> labels[f] == lbl
    ensures forall j :: i <= j < f ==> labels[j] != lbl
    decreases |labels| - i
  {
    if i == |labels| || labels[i] == lbl then i else FunctionOf(labels, lbl, i + 1)
  }

  /** The length of the first recorded string at an offset, or -1. */
  function TextLength(refs: seq<Text>, off: int): (length: int)
    ensures length >= 0 ==> exists k :: 0 <= k < |refs| && refs[k].off == off && refs[k].len == length
  {
    if refs == [] then -1 else if refs[0].off == off then refs[0].len else TextLength(refs[1..], off)
  }

  function StringBytes(g: Gen, m: Mark, i: nat): seq<byte>
    requires i <= |g.refs|
    decreases |g.refs| - i
  {
    if i == |g.refs| then [] else Le32(g.refs[i].off - m.data) + Le32(g.refs[i].len) + StringBytes(g, m, i + 1)
  }

  function LabelBytes(g: Gen, m: Mark, i: nat): seq<byte>
    requires i <= |g.labelPos|
    decreases |g.labelPos| - i
  {
    if i == |g.labelPos| then []
    else (if g.labelPos[i] >= 0 then Le32(1) + Le32(g.labelPos[i] - m.code) else Le32(0) + Le32(0)) + LabelBytes(g, m, i + 1)
  }

  /** A reference to a function by identity, to a label of this emission by index, to an older
      runtime label by its distance from the function labels. */
  function RelocBytes(fs: Functions, m: Mark, r: Reloc): seq<byte>
    requires |fs.labels| == |fs.ids|
  {
    var f := FunctionOf(fs.labels, r.lbl, 0);
    Le32(r.at - m.code)
    + if f < |fs.labels| then Le32(FUNCTION) + Le32(fs.ids[f].a) + Le32(fs.ids[f].b)
      else if r.lbl >= m.lbl then Le32(LOCAL) + Le32(r.lbl - m.lbl)
      else Le32(RUNTIME) + Le32(r.lbl - |fs.labels|)
  }

  function RelocsBytes(fs: Functions, g: Gen, m: Mark, i: nat): seq<byte>
    requires |fs.labels| == |fs.ids| && i <= |g.relocs|
    decreases |g.relocs| - i
  {
    if i == |g.relocs| then [] else RelocBytes(fs, m, g.relocs[i]) + RelocsBytes(fs, g, m, i + 1)
  }

  /** A reference into data of the same build but older than this function: a shared string. */
  predicate IsOldString(m: Mark, r: AbsReloc) {
    r.kind == 0 && m.objectData <= r.off < m.data
  }

  function AbsBytes(g: Gen, m: Mark, r: AbsReloc): seq<byte>
    requires IsOldString(m, r) ==> 0 <= TextLength(g.refs, r.off) && r.off + TextLength(g.refs, r.off) <= |g.data|
  {
    Le32(r.at - m.code)
    + if IsOldString(m, r) then
        Le32(STRING) + Le32(TextLength(g.refs, r.off)) + g.data[r.off..r.off + TextLength(g.refs, r.off)]
      else Le32(r.kind) + Le32(r.off)
  }

  ghost predicate OldStringsKnown(g: Gen, m: Mark) {
    forall i :: m.abs <= i < |g.absRelocs| && IsOldString(m, g.absRelocs[i]) ==>
      0 <= TextLength(g.refs, g.absRelocs[i].off) && g.absRelocs[i].off + TextLength(g.refs, g.absRelocs[i].off) < |g.data|
  }

  ghost function AbsolutesBytes(g: Gen, m: Mark, i: nat): seq<byte>
    requires m.abs <= i <= |g.absRelocs| && OldStringsKnown(g, m)
    decreases |g.absRelocs| - i
  {
    if i == |g.absRelocs| then [] else AbsBytes(g, m, g.absRelocs[i]) + AbsolutesBytes(g, m, i + 1)
  }

  function QueueBytes(fs: Functions, g: Gen, i: nat): seq<byte>
    requires i <= |g.queue| && (forall k :: 0 <= k < |g.queue| ==> g.queue[k] < |fs.ids|)
    decreases |g.queue| - i
  {
    if i == |g.queue| then [] else Le32(fs.ids[g.queue[i]].a) + Le32(fs.ids[g.queue[i]].b) + QueueBytes(fs, g, i + 1)
  }

  /** The peephole state: where the last store of the primary register ended, its offset, and the
      last load, which is negative while a push is pending. */
  datatype Peephole = Peephole(storeEnd: int, storeOff: int, load: int)

  /** The peephole state as it is read back, from words without a sign. */
  function ReadPeephole(data: seq<byte>): Peephole
    requires |data| >= 40
  {
    Peephole(Get32(data, 28) - 1, Get32(data, 32), Get32(data, 36))
  }

  /** Words one after the other. */
  function WordsBytes(ws: seq<int>): (bytes: seq<byte>)
    ensures |bytes| == 4 * |ws|
  {
    if ws == [] then [] else Le32(ws[0]) + WordsBytes(ws[1..])
  }

  function HeaderWords(g: Gen, m: Mark, funcLabel: int, peephole: Peephole): seq<int> {
    [MAGIC, |g.code| - m.code, |g.labelPos| - m.lbl, LabelPosition(g.labelPos, funcLabel) - m.code,
     |g.relocs| - m.reloc, |g.absRelocs| - m.abs, |g.queue| - m.queue,
     peephole.storeEnd + 1, peephole.storeOff, peephole.load,
     |g.data| - m.data, g.bssSize - m.bss, m.data, m.bss, |g.refs| - m.text]
  }

  /** The function's own emission: what the generator appended since the mark. */
  ghost predicate Emission(fs: Functions, g: Gen, m: Mark, fn: nat) {
    && m.code <= |g.code| && m.lbl <= |g.labelPos| && m.reloc <= |g.relocs| && m.abs <= |g.absRelocs|
    && m.queue <= |g.queue| && m.data <= |g.data| && m.bss <= g.bssSize && m.text <= |g.refs|
    && |fs.labels| == |fs.ids| && fn < |fs.labels|
    && (forall k :: 0 <= k < |g.queue| ==> g.queue[k] < |fs.ids|)
  }

  /** The conditions under which a record is written at all. */
  ghost predicate Storable(fs: Functions, g: Gen, m: Mark, fn: nat)
    requires Emission(fs, g, m, fn)
  {
    && LabelPosition(g.labelPos, fs.labels[fn]) >= 0
    && (forall i :: 0 <= i < m.lbl && i != fs.labels[fn] ==> g.labelPos[i] < m.code)
    && (forall i :: m.text <= i < |g.refs| ==> m.data <= g.refs[i].off && g.refs[i].off + g.refs[i].len < |g.data|)
    && (forall i :: m.lbl <= i < |g.labelPos| && g.labelPos[i] >= 0 ==> m.code <= g.labelPos[i] <= |g.code|)
    && (forall i :: m.reloc <= i < |g.relocs| ==>
         FunctionOf(fs.labels, g.relocs[i].lbl, 0) < |fs.labels| || g.relocs[i].lbl >= m.lbl || g.relocs[i].lbl >= |fs.labels|)
    && OldStringsKnown(g, m)
  }

  ghost function Stored(fs: Functions, g: Gen, m: Mark, fn: nat, peephole: Peephole): seq<byte>
    requires Emission(fs, g, m, fn) && Storable(fs, g, m, fn)
  {
    WordsBytes(HeaderWords(g, m, fs.labels[fn], peephole)) + g.code[m.code..] + g.data[m.data..]
    + StringBytes(g, m, m.text) + LabelBytes(g, m, m.lbl) + RelocsBytes(fs, g, m, m.reloc)
    + AbsolutesBytes(g, m, m.abs) + QueueBytes(fs, g, m.queue)
  }
}
