/** Storing and replaying function records, step by step. */
module ObjectCache {
  import opened Bytes
  import opened Emitted
  import opened ObjectEmission
  import opened ObjectIndex
  import opened ObjectRecord
  import opened ObjectRefusal
  import opened Wrappers

  /** A cursor over a record: once a read fails, every later one does. */
  class Reader {
    const data: seq<byte>
    var pos: nat
    var ok: bool

    constructor (data: seq<byte>)
      ensures this.data == data && pos == 0 && ok
    {
      this.data := data;
      pos := 0;
      ok := true;
    }

    method Next() returns (value: nat)
      modifies this
      ensures ok == (old(ok) && HasWord(data, old(pos)))
      ensures ok ==> value == Get32(data, old(pos)) && pos == old(pos) + 4
      ensures !ok ==> value == 0 && pos == old(pos)
    {
      if !ok || pos + 4 > |data| {
        ok := false;
        return 0;
      }
      value := Get32(data, pos);
      pos := pos + 4;
    }
  }

  class Generator {
    const functions: Functions
    const buckets: seq<int>
    const next: seq<int>
    var code: seq<byte>
    var data: seq<byte>
    var labelPos: seq<int>
    var relocs: seq<Reloc>
    var absRelocs: seq<AbsReloc>
    var bssSize: nat
    var refs: seq<Text>
    var pool: seq<Text>
    var marked: seq<bool>
    var queue: seq<nat>
    var peephole: Peephole

    function State(): (g: Gen)
      reads this
      ensures g.code == code && g.data == data && g.labelPos == labelPos && g.relocs == relocs && g.absRelocs == absRelocs
      ensures g.bssSize == bssSize && g.refs == refs && g.pool == pool && g.marked == marked && g.queue == queue
    {
      Gen(code, data, labelPos, relocs, absRelocs, bssSize, refs, pool, marked, queue)
    }

    /** The identity index is built and there is one flag and one label per function. */
    ghost predicate Ready()
      reads this
    {
      && Indexed(functions.ids, buckets, next) && |next| == |functions.ids| == |functions.labels| == |marked|
    }

    method MarkFunction(f: int)
      modifies `marked, `queue
      ensures State() == MarkFunc(old(State()), f)
    {
      if f < 0 || f >= |marked| || marked[f] {
        return;
      }
      marked := marked[f := true];
      queue := queue + [f];
    }

    // ---- Strings

    method LookupString(msg: seq<byte>) returns (off: int)
      ensures off == Lookup(pool, data, msg)
    {
      for i := 0 to |pool|
        invariant Lookup(pool, data, msg) == Lookup(pool[i..], data, msg)
      {
        assert pool[i..][1..] == pool[i + 1..];
        if pool[i].len == |msg| && IsAt(data, pool[i].off, msg) {
          return pool[i].off;
        }
      }
      off := -1;
    }

    method SearchString(msg: seq<byte>, start: nat) returns (off: int)
      ensures off == Search(data, msg, start)
    {
      var i := start;
      while i + |msg| < |data|
        invariant Search(data, msg, start) == Search(data, msg, i)
        decreases |data| - i
      {
        if data[i + |msg|] == 0 && data[i..i + |msg|] == msg {
          return i;
        }
        i := i + 1;
      }
      off := -1;
    }

    method AddString(msg: seq<byte>) returns (off: nat)
      modifies `data, `refs, `pool
      ensures (State(), off) == Intern(old(State()), msg)
    {
      var known := LookupString(msg);
      if known >= 0 {
        return known;
      }
      var near := SearchString(msg, if |data| < WINDOW then 0 else |data| - WINDOW);
      if near >= 0 {
        pool := pool + [Text(near, |msg|)];
        return near;
      }
      off := |data|;
      data := data + msg + [0];
      refs := refs + [Text(off, |msg|)];
      pool := pool + [Text(off, |msg|)];
    }

    // ---- Replaying, phase by phase

    method ReplayStrings(r: Reader, h: Header, b: Bases) returns (ok: bool)
      requires r.ok
      modifies r, `refs
      ensures !ok ==> Strings(r.data, old(r.pos), h.stringCount, h, b, old(State())) == Stopped(State())
      ensures ok ==> r.ok && Strings(r.data, old(r.pos), h.stringCount, h, b, old(State())) == Reached(State(), r.pos)
    {
      ghost var start, g := r.pos, State();
      for i := 0 to h.stringCount
        invariant r.ok && State() == g.(refs := refs)
        invariant Strings(r.data, start, h.stringCount, h, b, g) == Strings(r.data, r.pos, h.stringCount - i, h, b, State())
      {
        var off := r.Next();
        var length := r.Next();
        if !r.ok || off + length >= h.dataLen {
          return false;
        }
        refs := refs + [Text(b.data + off, length)];
      }
      ok := true;
    }

    method ReplayLabels(r: Reader, h: Header, b: Bases) returns (ok: bool)
      requires r.ok
      modifies r, `labelPos
      ensures !ok ==> Labels(r.data, old(r.pos), h.labelCount, h, b, old(State())) == Stopped(State())
      ensures ok ==> r.ok && Labels(r.data, old(r.pos), h.labelCount, h, b, old(State())) == Reached(State(), r.pos)
    {
      ghost var start, g := r.pos, State();
      for i := 0 to h.labelCount
        invariant r.ok && State() == g.(labelPos := labelPos)
        invariant Labels(r.data, start, h.labelCount, h, b, g) == Labels(r.data, r.pos, h.labelCount - i, h, b, State())
      {
        var isSet := r.Next();
        var position := r.Next();
        if !r.ok || isSet > 1 || position > h.codeLen {
          return false;
        }
        if isSet == 0 {
          labelPos := labelPos + [-1];
        } else {
          labelPos := labelPos + [b.code + position];
        }
      }
      ok := true;
    }

    /** One label reference. */
    method ReplayReloc(r: Reader, h: Header, b: Bases) returns (ok: bool)
      requires r.ok && Ready()
      modifies r, `relocs, `marked, `queue
      ensures Ready()
      ensures !ok ==> RelocOne(functions, r.data, old(r.pos), h, b, old(State())) == Stopped(State())
      ensures ok ==> r.ok && RelocOne(functions, r.data, old(r.pos), h, b, old(State())) == Reached(State(), r.pos)
    {
      hide Find, Get32, MarkFunc, Unmark;
      ghost var start, g := r.pos, State();
      var at := r.Next();
      var kind := r.Next();
      var valueA := r.Next();
      var lbl := 0;
      if kind == LOCAL {
        lbl := b.lbl + valueA;
        if valueA >= h.labelCount {
          return false;
        }
      } else if kind == FUNCTION {
        var valueB := r.Next();
        var callee := FindFunction(functions.ids, buckets, next, Identity(valueA, valueB));
        if callee < 0 || callee >= |functions.labels| {
          return false;
        }
        MarkFunction(callee);
        lbl := functions.labels[callee];
      } else if kind == RUNTIME {
        lbl := |functions.labels| + valueA;
        if lbl >= b.lbl {
          return false;
        }
      } else {
        return false;
      }
      if !r.ok || at >= h.codeLen || lbl >= |labelPos| {
        return false;
      }
      relocs := relocs + [Reloc(Unmark(b.code + at), Unmark(lbl))];
      ok := true;
    }

    method ReplayRelocs(r: Reader, h: Header, b: Bases) returns (ok: bool)
      requires r.ok && Ready()
      modifies r, `relocs, `marked, `queue
      ensures Ready()
      ensures !ok ==> Relocs(functions, r.data, old(r.pos), h.relocCount, h, b, old(State())) == Stopped(State())
      ensures ok ==> r.ok && Relocs(functions, r.data, old(r.pos), h.relocCount, h, b, old(State())) == Reached(State(), r.pos)
    {
      hide RelocOne, Indexed;
      ghost var start, g := r.pos, State();
      for i := 0 to h.relocCount
        invariant r.ok && Ready()
        invariant Relocs(functions, r.data, start, h.relocCount, h, b, g)
               == Relocs(functions, r.data, r.pos, h.relocCount - i, h, b, State())
      {
        var one := ReplayReloc(r, h, b);
        if !one {
          return false;
        }
      }
      ok := true;
    }

    /** One data reference. */
    method ReplayAbsolute(r: Reader, h: Header, b: Bases) returns (ok: bool)
      requires r.ok
      modifies r, `absRelocs, `data, `refs, `pool
      ensures !ok ==> AbsOne(r.data, old(r.pos), h, b, old(State())) == Stopped(State())
      ensures ok ==> r.ok && AbsOne(r.data, old(r.pos), h, b, old(State())) == Reached(State(), r.pos)
    {
      hide Get32, Intern, Unmark;
      var at := r.Next();
      var kind := r.Next();
      var off: int := 0;
      var resolved := false;
      if kind == STRING {
        var length := r.Next();
        if !r.ok || r.pos + length > |r.data| {
          return false;
        }
        off := AddString(r.data[r.pos..r.pos + length]);
        r.pos := r.pos + length;
        kind := 0;
        resolved := true;
      } else {
        off := r.Next();
      }
      if !r.ok || at >= h.codeLen {
        return false;
      }
      if kind == BSS && off >= h.oldBssBase {
        off := b.bss + off - h.oldBssBase;
      } else if kind == 0 && !resolved && off >= h.oldDataBase {
        off := b.data + off - h.oldDataBase;
      }
      absRelocs := absRelocs + [AbsReloc(Unmark(b.code + at), Unmark(off), Unmark(kind))];
      ok := true;
    }

    method ReplayAbsolutes(r: Reader, h: Header, b: Bases) returns (ok: bool)
      requires r.ok
      modifies r, `absRelocs, `data, `refs, `pool
      ensures !ok ==> Absolutes(r.data, old(r.pos), h.absCount, h, b, old(State())) == Stopped(State())
      ensures ok ==> r.ok && Absolutes(r.data, old(r.pos), h.absCount, h, b, old(State())) == Reached(State(), r.pos)
    {
      hide AbsOne;
      ghost var start, g := r.pos, State();
      for i := 0 to h.absCount
        invariant r.ok
        invariant Absolutes(r.data, start, h.absCount, h, b, g) == Absolutes(r.data, r.pos, h.absCount - i, h, b, State())
      {
        var one := ReplayAbsolute(r, h, b);
        if !one {
          return false;
        }
      }
      ok := true;
    }

    method ReplayQueue(r: Reader, h: Header) returns (ok: bool)
      requires r.ok && Ready()
      modifies r, `marked, `queue
      ensures Ready()
      ensures !ok ==> Queue(functions, r.data, old(r.pos), h.queueCount, old(State())) == Stopped(State())
      ensures ok ==> r.ok && Queue(functions, r.data, old(r.pos), h.queueCount, old(State())) == Reached(State(), r.pos)
    {
      hide Find, Get32, MarkFunc;
      ghost var start, g := r.pos, State();
      for i := 0 to h.queueCount
        invariant r.ok && Ready()
        invariant Queue(functions, r.data, start, h.queueCount, g) == Queue(functions, r.data, r.pos, h.queueCount - i, State())
      {
        var a := r.Next();
        var second := r.Next();
        var callee := FindFunction(functions.ids, buckets, next, Identity(a, second));
        if !r.ok || callee < 0 {
          return false;
        }
        MarkFunction(callee);
      }
      ok := true;
    }

    /** The six counts that follow the magic word. */
    method ReplayCounts(r: Reader)
      returns (codeLen: nat, labelCount: nat, funcLabelRel: nat, relocCount: nat, absCount: nat, queueCount: nat)
      requires r.ok
      modifies r
      ensures r.ok <==> old(r.pos) + 24 <= |r.data|
      ensures r.ok ==> r.pos == old(r.pos) + 24
                       && codeLen == Get32(r.data, old(r.pos)) && labelCount == Get32(r.data, old(r.pos) + 4)
                       && funcLabelRel == Get32(r.data, old(r.pos) + 8) && relocCount == Get32(r.data, old(r.pos) + 12)
                       && absCount == Get32(r.data, old(r.pos) + 16) && queueCount == Get32(r.data, old(r.pos) + 20)
    {
      hide Get32;
      codeLen := r.Next();
      labelCount := r.Next();
      funcLabelRel := r.Next();
      relocCount := r.Next();
      absCount := r.Next();
      queueCount := r.Next();
    }

    /** The peephole state, then the sizes of the data and bss. */
    method ReplaySizes(r: Reader) returns (restored: Peephole, dataLen: nat, bssDelta: nat, oldDataBase: nat, oldBssBase: nat, stringCount: nat)
      requires r.ok
      modifies r
      ensures r.ok <==> old(r.pos) + 32 <= |r.data|
      ensures r.ok ==> r.pos == old(r.pos) + 32
                       && restored == Peephole(Get32(r.data, old(r.pos)) - 1, Get32(r.data, old(r.pos) + 4), Get32(r.data, old(r.pos) + 8))
                       && dataLen == Get32(r.data, old(r.pos) + 12) && bssDelta == Get32(r.data, old(r.pos) + 16)
                       && oldDataBase == Get32(r.data, old(r.pos) + 20) && oldBssBase == Get32(r.data, old(r.pos) + 24)
                       && stringCount == Get32(r.data, old(r.pos) + 28)
    {
      hide Get32;
      var lastStoreEnd := r.Next();
      var lastStoreOff := r.Next();
      var lastLoad := r.Next();
      restored := Peephole((lastStoreEnd as int) - 1, lastStoreOff, lastLoad);
      dataLen := r.Next();
      bssDelta := r.Next();
      oldDataBase := r.Next();
      oldBssBase := r.Next();
      stringCount := r.Next();
    }

    /** The fixed words in front of a record. */
    method ReplayHeader(r: Reader) returns (ok: bool, h: Header, restored: Peephole)
      requires r.ok && r.pos == 0
      modifies r
      ensures ok <==> !HeaderRefuses(r.data)
      ensures ok ==> r.ok && r.pos == 60 && ReadHeader(r.data) == Some(h) && restored == ReadPeephole(r.data)
      ensures ReadHeader(r.data).Some? ==> ReadHeader(r.data) == Some(h)
    {
      hide Get32;
      h, restored := Header(0, 0, 0, 0, 0, 0, 0, 0, 0, 0, 0), Peephole(0, 0, 0);
      var magic := r.Next();
      if !r.ok || magic != MAGIC {
        return false, h, restored;
      }
      var codeLen, labelCount, funcLabelRel, relocCount, absCount, queueCount := ReplayCounts(r);
      if !r.ok {
        return false, h, restored;
      }
      var dataLen, bssDelta, oldDataBase, oldBssBase, stringCount;
      restored, dataLen, bssDelta, oldDataBase, oldBssBase, stringCount := ReplaySizes(r);
      h := Header(codeLen, labelCount, funcLabelRel, relocCount, absCount, queueCount, dataLen, bssDelta, oldDataBase, oldBssBase,
                  stringCount);
      ok := r.ok && r.pos + codeLen + dataLen <= |r.data|;
    }

    /** Appends the code, data and bss of a record. */
    method ReplaySegments(r: Reader, h: Header)
      requires r.pos == 60 && 60 + h.codeLen + h.dataLen <= |r.data|
      modifies r`pos, `code, `data, `bssSize
      ensures State() == Opened(old(State()), r.data, h) && r.pos == 60 + h.codeLen + h.dataLen
    {
      code := code + r.data[r.pos..r.pos + h.codeLen];
      r.pos := r.pos + h.codeLen;
      data := data + r.data[r.pos..r.pos + h.dataLen];
      r.pos := r.pos + h.dataLen;
      bssSize := bssSize + h.bssDelta;
    }

    /** Replays a record. Whether it is accepted or refused, the state is what the definition says:
        a refused record leaves behind what was appended before the refusal. */
    method Replay(fnIndex: int, record: seq<byte>) returns (ok: bool)
      requires Ready() && (forall f :: 0 <= f < |functions.labels| ==> functions.labels[f] < |labelPos|)
      modifies this
      ensures Ready()
      ensures !ok ==> Replayed(functions, old(State()), fnIndex, record) == Stopped(State())
      ensures if ok then |record| >= 60 && peephole == ReadPeephole(record) else peephole == old(peephole)
      ensures ok ==> Replayed(functions, old(State()), fnIndex, record) == Reached(State(), |record|)
    {
      hide ReadHeader, Opened, Strings, ReplayedRest, Indexed;
      var r := new Reader(record);
      var read, h, restored := ReplayHeader(r);
      if !read {
        return false;
      }
      var b := Bases(|code|, |labelPos|, |data|, bssSize);
      ReplaySegments(r, h);
      var stringsRead := ReplayStrings(r, h, b);
      if !stringsRead {
        return false;
      }
      if fnIndex < 0 || fnIndex >= |functions.labels| || h.funcLabelRel > h.codeLen {
        return false;
      }
      labelPos := labelPos[functions.labels[fnIndex] := b.code + h.funcLabelRel];
      ok := ReplayReferences(r, h, b);
      if ok {
        peephole := restored;
      }
    }

    method ReplayReferences(r: Reader, h: Header, b: Bases) returns (ok: bool)
      requires r.ok && Ready()
      modifies this, r
      ensures Ready() && peephole == old(peephole)
      ensures !ok ==> ReplayedRest(functions, old(State()), r.data, old(r.pos), h, b) == Stopped(State())
      ensures ok ==> ReplayedRest(functions, old(State()), r.data, old(r.pos), h, b) == Reached(State(), |r.data|)
    {
      hide Labels, Relocs, Absolutes, Queue, Indexed;
      var labelsRead := ReplayLabels(r, h, b);
      if !labelsRead {
        return false;
      }
      var relocsRead := ReplayRelocs(r, h, b);
      if !relocsRead {
        return false;
      }
      var absolutesRead := ReplayAbsolutes(r, h, b);
      if !absolutesRead {
        return false;
      }
      var queueRead := ReplayQueue(r, h);
      ok := queueRead && r.pos == |r.data|;
    }

    // ---- Storing

    /** No label from before the emission, other than the function's own, may stand in the new code. */
    method OldLabelsBelow(m: Mark, funcLabel: nat) returns (ok: bool)
      requires m.lbl <= |labelPos|
      ensures ok <==> forall i :: 0 <= i < m.lbl && i != funcLabel ==> labelPos[i] < m.code
    {
      for i := 0 to m.lbl
        invariant forall k :: 0 <= k < i && k != funcLabel ==> labelPos[k] < m.code
      {
        var position := LabelPosition(labelPos, i);
        if i != funcLabel && position >= m.code {
          return false;
        }
      }
      ok := true;
    }

    method StoreStrings(m: Mark) returns (ok: bool, out: seq<byte>)
      requires m.text <= |refs| && m.data <= |data|
      ensures ok <==> forall i :: m.text <= i < |refs| ==> m.data <= refs[i].off && refs[i].off + refs[i].len < |data|
      ensures ok ==> out == StringBytes(State(), m, m.text)
    {
      hide Le32;
      out := [];
      for i := m.text to |refs|
        invariant forall k :: m.text <= k < i ==> m.data <= refs[k].off && refs[k].off + refs[k].len < |data|
        invariant out + StringBytes(State(), m, i) == StringBytes(State(), m, m.text)
      {
        var off := refs[i].off - m.data;
        if off < 0 || off + refs[i].len >= |data| - m.data {
          return false, out;
        }
        ghost var rest := StringBytes(State(), m, i + 1);
        assert out + Le32(off) + Le32(refs[i].len) + rest == out + (Le32(off) + Le32(refs[i].len) + rest);
        out := out + Le32(off) + Le32(refs[i].len);
      }
      ok := true;
    }

    method StoreLabels(m: Mark) returns (ok: bool, out: seq<byte>)
      requires m.lbl <= |labelPos| && m.code <= |code|
      ensures ok <==> forall i :: m.lbl <= i < |labelPos| && labelPos[i] >= 0 ==> m.code <= labelPos[i] <= |code|
      ensures ok ==> out == LabelBytes(State(), m, m.lbl)
    {
      hide Le32;
      out := [];
      ghost var g := State();
      for i := m.lbl to |labelPos|
        invariant forall k :: m.lbl <= k < i && labelPos[k] >= 0 ==> m.code <= labelPos[k] <= |code|
        invariant out + LabelBytes(g, m, i) == LabelBytes(g, m, m.lbl)
      {
        var isSet, position := 0, 0;
        if labelPos[i] >= 0 {
          isSet := 1;
          position := labelPos[i] - m.code;
          if position < 0 || position > |code| - m.code {
            return false, out;
          }
        }
        ghost var rest := LabelBytes(g, m, i + 1);
        assert out + Le32(isSet) + Le32(position) + rest == out + (Le32(isSet) + Le32(position) + rest);
        out := out + Le32(isSet) + Le32(position);
      }
      ok := true;
    }

    method FunctionWithLabel(lbl: int) returns (owner: int)
      ensures owner == if FunctionOf(functions.labels, lbl, 0) < |functions.labels| then FunctionOf(functions.labels, lbl, 0) else -1
    {
      for j := 0 to |functions.labels|
        invariant FunctionOf(functions.labels, lbl, 0) == FunctionOf(functions.labels, lbl, j)
      {
        if functions.labels[j] == lbl {
          return j;
        }
      }
      owner := -1;
    }

    method StoreReloc(m: Mark, r: Reloc) returns (ok: bool, out: seq<byte>)
      requires |functions.labels| == |functions.ids| && Masked(r)
      ensures ok <==> FunctionOf(functions.labels, r.lbl, 0) < |functions.labels| || r.lbl >= m.lbl || r.lbl >= |functions.labels|
      ensures ok ==> out == RelocBytes(functions, m, r)
    {
      hide Le32;
      var at, lbl := Unmark(r.at), Unmark(r.lbl);
      out := Le32(at - m.code);
      var owner := FunctionWithLabel(lbl);
      if owner >= 0 {
        var id := functions.ids[owner];
        assert out + (Le32(FUNCTION) + Le32(id.a) + Le32(id.b)) == out + Le32(FUNCTION) + Le32(id.a) + Le32(id.b);
        out := out + Le32(FUNCTION) + Le32(id.a) + Le32(id.b);
      } else if lbl >= m.lbl {
        out := out + (Le32(LOCAL) + Le32(lbl - m.lbl));
      } else if lbl >= |functions.labels| {
        out := out + (Le32(RUNTIME) + Le32(lbl - |functions.labels|));
      } else {
        return false, out;
      }
      ok := true;
    }

    method StoreRelocs(m: Mark) returns (ok: bool, out: seq<byte>)
      requires |functions.labels| == |functions.ids| && m.reloc <= |relocs| && (forall i :: 0 <= i < |relocs| ==> Masked(relocs[i]))
      ensures ok <==> forall i :: m.reloc <= i < |relocs| ==>
                        FunctionOf(functions.labels, relocs[i].lbl, 0) < |functions.labels| || relocs[i].lbl >= m.lbl
                        || relocs[i].lbl >= |functions.labels|
      ensures ok ==> out == RelocsBytes(functions, State(), m, m.reloc)
    {
      hide Le32, RelocBytes, FunctionOf;
      out := [];
      for i := m.reloc to |relocs|
        invariant forall k :: m.reloc <= k < i ==>
                    FunctionOf(functions.labels, relocs[k].lbl, 0) < |functions.labels| || relocs[k].lbl >= m.lbl
                    || relocs[k].lbl >= |functions.labels|
        invariant out + RelocsBytes(functions, State(), m, i) == RelocsBytes(functions, State(), m, m.reloc)
      {
        var one, bytes := StoreReloc(m, relocs[i]);
        if !one {
          return false, out;
        }
        ghost var rest := RelocsBytes(functions, State(), m, i + 1);
        assert out + bytes + rest == out + (bytes + rest);
        out := out + bytes;
      }
      ok := true;
    }

    method StringLength(off: int) returns (length: int)
      ensures length == TextLength(refs, off)
    {
      for j := 0 to |refs|
        invariant TextLength(refs, off) == TextLength(refs[j..], off)
      {
        assert refs[j..][1..] == refs[j + 1..];
        if refs[j].off == off {
          return refs[j].len;
        }
      }
      length := -1;
    }

    /** An older string's content is stored in place of its offset. */
    method StoreAbsolute(m: Mark, r: AbsReloc) returns (ok: bool, out: seq<byte>)
      requires AbsMasked(r) && m.data <= |data|
      ensures ok <==> (IsOldString(m, r) ==> 0 <= TextLength(refs, r.off) && r.off + TextLength(refs, r.off) < |data|)
      ensures ok ==> out == AbsBytes(State(), m, r)
    {
      hide Le32, TextLength;
      var at, off, kind := Unmark(r.at), Unmark(r.off), Unmark(r.kind);
      out := Le32(at - m.code);
      if kind == 0 && off >= m.objectData && off < m.data {
        var length := StringLength(off);
        if length < 0 || off + length >= |data| {
          return false, out;
        }
        out := out + (Le32(STRING) + Le32(length) + data[off..off + length]);
      } else {
        out := out + (Le32(kind) + Le32(off));
      }
      ok := true;
    }

    method StoreAbsolutes(m: Mark) returns (ok: bool, out: seq<byte>)
      requires m.abs <= |absRelocs| && m.data <= |data| && (forall i :: 0 <= i < |absRelocs| ==> AbsMasked(absRelocs[i]))
      ensures ok <==> OldStringsKnown(State(), m)
      ensures ok ==> out == AbsolutesBytes(State(), m, m.abs)
    {
      hide Le32, AbsBytes, TextLength;
      out := [];
      ok := true;
      for i := m.abs to |absRelocs|
        invariant ok && forall k :: m.abs <= k < i && IsOldString(m, absRelocs[k]) ==>
                    0 <= TextLength(refs, absRelocs[k].off) && absRelocs[k].off + TextLength(refs, absRelocs[k].off) < |data|
        invariant OldStringsKnown(State(), m) ==> out + AbsolutesBytes(State(), m, i) == AbsolutesBytes(State(), m, m.abs)
      {
        var one, bytes := StoreAbsolute(m, absRelocs[i]);
        if !one {
          return false, out;
        }
        assert OldStringsKnown(State(), m) ==>
            out + bytes + AbsolutesBytes(State(), m, i + 1) == out + (bytes + AbsolutesBytes(State(), m, i + 1));
        out := out + bytes;
      }
    }

    method StoreQueue(m: Mark) returns (out: seq<byte>)
      requires m.queue <= |queue| && (forall k :: 0 <= k < |queue| ==> queue[k] < |functions.ids|)
      ensures out == QueueBytes(functions, State(), m.queue)
    {
      hide Le32;
      out := [];
      for i := m.queue to |queue|
        invariant out + QueueBytes(functions, State(), i) == QueueBytes(functions, State(), m.queue)
      {
        var id := functions.ids[queue[i]];
        ghost var rest := QueueBytes(functions, State(), i + 1);
        assert out + Le32(id.a) + Le32(id.b) + rest == out + (Le32(id.a) + Le32(id.b) + rest);
        out := out + Le32(id.a) + Le32(id.b);
      }
    }

    /** Serialises what was emitted since the mark; refused exactly when the emission is not one a
        record can stand for. */
    method Record(fnIndex: nat, m: Mark) returns (ok: bool, out: seq<byte>)
      requires Emission(functions, State(), m, fnIndex)
      requires (forall i :: 0 <= i < |relocs| ==> Masked(relocs[i])) && (forall i :: 0 <= i < |absRelocs| ==> AbsMasked(absRelocs[i]))
      ensures ok <==> Storable(functions, State(), m, fnIndex)
      ensures ok ==> out == Stored(functions, State(), m, fnIndex, peephole)
    {
      hide WordsBytes, StringBytes, LabelBytes, RelocsBytes, AbsolutesBytes, QueueBytes, FunctionOf, OldStringsKnown, Masked, AbsMasked;
      out := [];
      var funcLabel := functions.labels[fnIndex];
      var below := OldLabelsBelow(m, funcLabel);
      if LabelPosition(labelPos, funcLabel) < 0 || !below {
        return false, out;
      }
      out := WordsBytes(HeaderWords(State(), m, funcLabel, peephole)) + code[m.code..] + data[m.data..];
      var stringsOk, strings := StoreStrings(m);
      if !stringsOk {
        return false, out;
      }
      var labelsOk, labels := StoreLabels(m);
      if !labelsOk {
        return false, out;
      }
      var relocsOk, references := StoreRelocs(m);
      if !relocsOk {
        return false, out;
      }
      var absolutesOk, absolutes := StoreAbsolutes(m);
      if !absolutesOk {
        return false, out;
      }
      var queued := StoreQueue(m);
      out := out + strings + labels + references + absolutes + queued;
      ok := true;
    }

    // ---- Emitting through the cache

    /** What plain emission does to a generator that keeps the conventions: it appends, and keeps them. */
    ghost predicate Appends(g: Gen, r: Gen)
      reads this
    {
      && |g.code| <= |r.code| && |g.labelPos| <= |r.labelPos| && |g.relocs| <= |r.relocs| && |g.absRelocs| <= |r.absRelocs|
      && |g.queue| <= |r.queue| && |g.data| <= |r.data| && g.bssSize <= r.bssSize && |g.refs| <= |r.refs| && Sane(functions, r)
    }

    method Become(g: Gen, restored: Peephole)
      modifies this
      ensures State() == g && peephole == restored
    {
      code, data, labelPos, relocs, absRelocs := g.code, g.data, g.labelPos, g.relocs, g.absRelocs;
      bssSize, refs, pool, marked, queue := g.bssSize, g.refs, g.pool, g.marked, g.queue;
      peephole := restored;
    }

    /** Emits a function: from the record that was found, or plainly after a miss or a refusal; what
        was emitted plainly is recorded when it can be and the rest of the generator is settled. */
    method EmitCached(fnIndex: nat, found: Option<seq<byte>>, emit: (Gen, Peephole) -> Emitting, settled: (Gen, Gen) -> bool, objectData: nat)
      returns (ok: bool, stored: Option<seq<byte>>)
      requires Ready() && fnIndex < |functions.labels| && (forall f :: 0 <= f < |functions.labels| ==> functions.labels[f] < |labelPos|)
      requires Sane(functions, State()) && forall g, p :: Sane(functions, g) ==> Appends(g, emit(g, p).g)
      modifies this
      ensures Ready() && Sane(functions, State())
      ensures Emitting(State(), peephole, ok) == CachedEmission(functions, old(State()), old(peephole), fnIndex, found, emit)
      ensures var hit := found.Some? && Replayed(functions, old(State()), fnIndex, found.value).Reached?;
        var start := if found.Some? then Replayed(functions, old(State()), fnIndex, found.value).g else old(State());
        var m := MarkOf(start, objectData);
        && (!hit ==> Emission(functions, State(), m, fnIndex))
        && (stored.Some? <==> ok && !hit && settled(start, State()) && Storable(functions, State(), m, fnIndex))
        && (stored.Some? ==> stored.value == Stored(functions, State(), m, fnIndex, peephole))
    {
      hide Replayed, Indexed, Storable, Stored;
      stored := None;
      if found.Some? {
        ReplayStaysSane(functions, State(), fnIndex, found.value);
        var replayed := Replay(fnIndex, found.value);
        if replayed {
          return true, None;
        }
      }
      var start := State();
      var emitted := emit(start, peephole);
      Become(emitted.g, emitted.peephole);
      ok := emitted.ok;
      if ok && settled(start, State()) {
        var m := MarkOf(start, objectData);
        var written, record := Record(fnIndex, m);
        if written {
          stored := Some(record);
        }
      }
    }
  }
}
