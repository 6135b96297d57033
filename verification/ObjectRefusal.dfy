/** What a refused record leaves behind, and which stored records are refused. */
module ObjectRefusal {
  import opened Bytes
  import opened Emitted
  import opened ObjectIndex
  import opened ObjectRecord
  import opened ObjectReplay
  import opened Wrappers

  // ---- The parts of the generator that each phase may add to

  lemma {:induction false} StringsAdd(data: seq<byte>, pos: nat, n: nat, h: Header, b: Bases, g: Gen)
    ensures var r := Strings(data, pos, n, h, b, g).g; r == g.(refs := r.refs) && g.refs <= r.refs
    decreases n
  {
    hide Get32;
    if n > 0 && HasWord(data, pos + 4) {
      var off, length := Get32(data, pos), Get32(data, pos + 4);
      StringsAdd(data, pos + 8, n - 1, h, b, g.(refs := g.refs + [Text(b.data + off, length)]));
    }
  }

  lemma {:induction false} LabelsAdd(data: seq<byte>, pos: nat, n: nat, h: Header, b: Bases, g: Gen)
    ensures var r := Labels(data, pos, n, h, b, g).g; r == g.(labelPos := r.labelPos) && g.labelPos <= r.labelPos
    decreases n
  {
    hide Get32;
    if n > 0 && HasWord(data, pos + 4) {
      var isSet, position := Get32(data, pos), Get32(data, pos + 4);
      LabelsAdd(data, pos + 8, n - 1, h, b, g.(labelPos := g.labelPos + [if isSet == 0 then -1 else b.code + position]));
    }
  }

  /** Marks are only added, and every newly marked function is queued behind the others. */
  ghost predicate MarksGrow(g: Gen, r: Gen) {
    && |r.marked| == |g.marked| && g.queue <= r.queue
    && (forall f :: 0 <= f < |g.marked| && g.marked[f] ==> r.marked[f])
  }

  lemma {:induction false} RelocsAdd(fs: Functions, data: seq<byte>, pos: nat, n: nat, h: Header, b: Bases, g: Gen)
    ensures var r := Relocs(fs, data, pos, n, h, b, g).g;
      r == g.(relocs := r.relocs, marked := r.marked, queue := r.queue) && g.relocs <= r.relocs && MarksGrow(g, r)
    decreases n
  {
    hide Get32, Find, Unmark;
    if n > 0 {
      var one := RelocOne(fs, data, pos, h, b, g);
      assert one.g == g.(relocs := one.g.relocs, marked := one.g.marked, queue := one.g.queue) && g.relocs <= one.g.relocs && MarksGrow(g, one.g);
      if one.Reached? {
        RelocsAdd(fs, data, one.pos, n - 1, h, b, one.g);
      }
    }
  }

  lemma {:induction false} AbsolutesAdd(data: seq<byte>, pos: nat, n: nat, h: Header, b: Bases, g: Gen)
    ensures var r := Absolutes(data, pos, n, h, b, g).g;
      r == g.(data := r.data, refs := r.refs, pool := r.pool, absRelocs := r.absRelocs)
      && g.data <= r.data && g.refs <= r.refs && g.pool <= r.pool && g.absRelocs <= r.absRelocs
    decreases n
  {
    hide Get32, Unmark, RebasedOffset, Lookup, Search;
    if n > 0 {
      var one := AbsOne(data, pos, h, b, g);
      assert g.data <= one.g.data && g.refs <= one.g.refs && g.pool <= one.g.pool && g.absRelocs <= one.g.absRelocs;
      if one.Reached? {
        AbsolutesAdd(data, one.pos, n - 1, h, b, one.g);
      }
    }
  }

  lemma {:induction false} QueueAdd(fs: Functions, data: seq<byte>, pos: nat, n: nat, g: Gen)
    ensures var r := Queue(fs, data, pos, n, g).g; r == g.(marked := r.marked, queue := r.queue) && MarksGrow(g, r)
    decreases n
  {
    hide Get32, Find;
    if n > 0 && HasWord(data, pos + 4) {
      var callee := Find(fs.ids, Identity(Get32(data, pos), Get32(data, pos + 4)));
      if callee >= 0 {
        QueueAdd(fs, data, pos + 8, n - 1, MarkFunc(g, callee));
      }
    }
  }

  // ---- Any record

  /** Everything but the function's own label is only added to. */
  ghost predicate OnlyAdds(g: Gen, r: Gen, own: int) {
    && g.code <= r.code && g.data <= r.data && g.bssSize <= r.bssSize && g.refs <= r.refs && g.pool <= r.pool
    && g.relocs <= r.relocs && g.absRelocs <= r.absRelocs && MarksGrow(g, r)
    && |g.labelPos| <= |r.labelPos| && (forall l :: 0 <= l < |g.labelPos| && l != own ==> r.labelPos[l] == g.labelPos[l])
  }

  lemma RestAdds(fs: Functions, g: Gen, data: seq<byte>, pos: nat, h: Header, b: Bases)
    ensures var r := ReplayedRest(fs, g, data, pos, h, b).g;
      OnlyAdds(g, r, -1) && r.code == g.code && r.bssSize == g.bssSize
  {
    hide Labels, Relocs, Absolutes, Queue;
    LabelsAdd(data, pos, h.labelCount, h, b, g);
    match Labels(data, pos, h.labelCount, h, b, g)
    case Stopped(_) =>
    case Reached(g2, pos2) =>
      RelocsAdd(fs, data, pos2, h.relocCount, h, b, g2);
      match Relocs(fs, data, pos2, h.relocCount, h, b, g2)
      case Stopped(_) =>
      case Reached(g3, pos3) =>
        AbsolutesAdd(data, pos3, h.absCount, h, b, g3);
        match Absolutes(data, pos3, h.absCount, h, b, g3)
        case Stopped(_) =>
        case Reached(g4, pos4) =>
          QueueAdd(fs, data, pos4, h.queueCount, g4);
  }

  /** What any replay leaves behind, accepted or refused: a record that its header refuses changes
      nothing; any other one leaves all its code, data and bss, and only adds to the rest, the
      function's own label apart. */
  lemma ReplayLeaves(fs: Functions, g: Gen, fn: int, data: seq<byte>)
    ensures var r := Replayed(fs, g, fn, data).g;
      if HeaderRefuses(data) then Replayed(fs, g, fn, data) == Stopped(g)
      else
        var h := ReadHeader(data).value;
        && OnlyAdds(g, r, if 0 <= fn < |fs.labels| then fs.labels[fn] else -1)
        && r.code == Opened(g, data, h).code && Opened(g, data, h).data <= r.data && r.bssSize == Opened(g, data, h).bssSize
  {
    hide ReadHeader, Strings, ReplayedRest;
    if !HeaderRefuses(data) {
      var h := ReadHeader(data).value;
      var b, p := Bases(|g.code|, |g.labelPos|, |g.data|, g.bssSize), 60 + h.codeLen + h.dataLen;
      StringsAdd(data, p, h.stringCount, h, b, Opened(g, data, h));
      match Strings(data, p, h.stringCount, h, b, Opened(g, data, h))
      case Stopped(_) =>
      case Reached(g1, pos1) =>
        if 0 <= fn < |fs.labels| && h.funcLabelRel <= h.codeLen && fs.labels[fn] < |g1.labelPos| {
          RestAdds(fs, g1.(labelPos := g1.labelPos[fs.labels[fn] := b.code + h.funcLabelRel]), data, pos1, h, b);
        }
    }
  }

  /** A record with something to append: some code, data or bss. */
  predicate Declares(data: seq<byte>) {
    ReadHeader(data).Some? && ReadHeader(data).value.codeLen + ReadHeader(data).value.dataLen + ReadHeader(data).value.bssDelta > 0
  }

  /** The code stays as it was exactly when the header refuses the record or declares no code; the
      whole generator does exactly when the header refuses it, for records that declare anything. */
  lemma UnchangedIffHeaderRefuses(fs: Functions, g: Gen, fn: int, data: seq<byte>)
    ensures var r := Replayed(fs, g, fn, data).g;
      && (r.code == g.code <==> HeaderRefuses(data) || ReadHeader(data).value.codeLen == 0)
      && (Declares(data) || HeaderRefuses(data) ==> (r == g <==> HeaderRefuses(data)))
  {
    hide ReadHeader, Replayed, OnlyAdds;
    ReplayLeaves(fs, g, fn, data);
  }

  // ---- What a replay keeps of the emitter's conventions

  /** A field of a reference is masked to 31 bits when it is added. */
  predicate Masked(r: Reloc) {
    0 <= r.at < HALF && 0 <= r.lbl < HALF
  }

  predicate AbsMasked(r: AbsReloc) {
    0 <= r.at < HALF && 0 <= r.off < HALF && 0 <= r.kind < HALF
  }

  /** References are masked, the queue holds functions, and there is a mark for each. */
  ghost predicate Sane(fs: Functions, g: Gen) {
    && |g.marked| == |fs.ids| && (forall k :: 0 <= k < |g.queue| ==> g.queue[k] < |fs.ids|)
    && (forall i :: 0 <= i < |g.relocs| ==> Masked(g.relocs[i])) && (forall i :: 0 <= i < |g.absRelocs| ==> AbsMasked(g.absRelocs[i]))
  }

  lemma MarkStaysSane(fs: Functions, g: Gen, f: int)
    requires Sane(fs, g)
    ensures Sane(fs, MarkFunc(g, f))
  {
  }

  lemma {:induction false} RelocsStaySane(fs: Functions, data: seq<byte>, pos: nat, n: nat, h: Header, b: Bases, g: Gen)
    requires Sane(fs, g)
    ensures Sane(fs, Relocs(fs, data, pos, n, h, b, g).g)
    decreases n
  {
    hide Get32, Find, MarkFunc;
    if n > 0 {
      var one := RelocOne(fs, data, pos, h, b, g);
      MarkStaysSane(fs, g, Find(fs.ids, Identity(WordOr0(data, pos + 8), WordOr0(data, pos + 12))));
      assert Sane(fs, one.g);
      if one.Reached? {
        RelocsStaySane(fs, data, one.pos, n - 1, h, b, one.g);
      }
    }
  }

  lemma {:induction false} AbsolutesStaySane(fs: Functions, data: seq<byte>, pos: nat, n: nat, h: Header, b: Bases, g: Gen)
    requires Sane(fs, g)
    ensures Sane(fs, Absolutes(data, pos, n, h, b, g).g)
    decreases n
  {
    hide Get32, RebasedOffset, Intern, IsAt;
    if n > 0 {
      var one := AbsOne(data, pos, h, b, g);
      assert Sane(fs, one.g);
      if one.Reached? {
        AbsolutesStaySane(fs, data, one.pos, n - 1, h, b, one.g);
      }
    }
  }

  lemma {:induction false} QueueStaysSane(fs: Functions, data: seq<byte>, pos: nat, n: nat, g: Gen)
    requires Sane(fs, g)
    ensures Sane(fs, Queue(fs, data, pos, n, g).g)
    decreases n
  {
    hide Get32, Find, MarkFunc, Sane;
    if n > 0 && HasWord(data, pos + 4) {
      var callee := Find(fs.ids, Identity(Get32(data, pos), Get32(data, pos + 4)));
      if callee >= 0 {
        MarkStaysSane(fs, g, callee);
        QueueStaysSane(fs, data, pos + 8, n - 1, MarkFunc(g, callee));
      }
    }
  }

  lemma SameSane(fs: Functions, g: Gen, r: Gen)
    requires Sane(fs, g) && r.marked == g.marked && r.queue == g.queue && r.relocs == g.relocs && r.absRelocs == g.absRelocs
    ensures Sane(fs, r)
  {
  }

  lemma RestStaysSane(fs: Functions, g: Gen, data: seq<byte>, pos: nat, h: Header, b: Bases)
    requires Sane(fs, g)
    ensures Sane(fs, ReplayedRest(fs, g, data, pos, h, b).g)
  {
    hide Labels, Relocs, Absolutes, Queue, Sane;
    LabelsAdd(data, pos, h.labelCount, h, b, g);
    SameSane(fs, g, Labels(data, pos, h.labelCount, h, b, g).g);
    match Labels(data, pos, h.labelCount, h, b, g)
    case Stopped(_) =>
    case Reached(g2, pos2) =>
      RelocsStaySane(fs, data, pos2, h.relocCount, h, b, g2);
      match Relocs(fs, data, pos2, h.relocCount, h, b, g2)
      case Stopped(_) =>
      case Reached(g3, pos3) =>
        AbsolutesStaySane(fs, data, pos3, h.absCount, h, b, g3);
        match Absolutes(data, pos3, h.absCount, h, b, g3)
        case Stopped(_) =>
        case Reached(g4, pos4) =>
          QueueStaysSane(fs, data, pos4, h.queueCount, g4);
  }

  /** Accepted or refused, whatever the record holds, a replay keeps the conventions. */
  lemma ReplayStaysSane(fs: Functions, g: Gen, fn: int, data: seq<byte>)
    requires Sane(fs, g)
    ensures Sane(fs, Replayed(fs, g, fn, data).g)
  {
    hide ReadHeader, Strings, ReplayedRest, Sane;
    if !HeaderRefuses(data) {
      var h := ReadHeader(data).value;
      var b, p := Bases(|g.code|, |g.labelPos|, |g.data|, g.bssSize), 60 + h.codeLen + h.dataLen;
      StringsAdd(data, p, h.stringCount, h, b, Opened(g, data, h));
      SameSane(fs, g, Strings(data, p, h.stringCount, h, b, Opened(g, data, h)).g);
      match Strings(data, p, h.stringCount, h, b, Opened(g, data, h))
      case Stopped(_) =>
      case Reached(g1, pos1) =>
        if 0 <= fn < |fs.labels| && h.funcLabelRel <= h.codeLen && fs.labels[fn] < |g1.labelPos| {
          var g2 := g1.(labelPos := g1.labelPos[fs.labels[fn] := b.code + h.funcLabelRel]);
          SameSane(fs, g1, g2);
          RestStaysSane(fs, g2, data, pos1, h, b);
        }
    }
  }

  // ---- Stored records

  lemma RelocRefused(data: seq<byte>, pos: nat, fs: Functions, g: Gen, m: Mark, fn: nat, fs': Functions, g': Gen, fn': nat, k: nat, acc: Gen,
                     rest: seq<byte>)
    requires Emission(fs, g, m, fn) && Storable(fs, g, m, fn) && Encodable(fs, g, m, fn) && Hosts(fs', g', fn')
    requires m.reloc <= k < |g.relocs| && !KnownReloc(fs, m, fs', g', g.relocs[k])
    requires At(data, pos, RelocBytes(fs, m, g.relocs[k]) + rest)
    ensures RelocOne(fs', data, pos, HeaderOf(g, m, fs.labels[fn]), BasesOf(g'), acc) == Stopped(acc)
  {
    hide At, Le32, Get32, Find, Unmark, OldStringsKnown;
    var r := g.relocs[k];
    var f := FunctionOf(fs.labels, r.lbl, 0);
    if f < |fs.labels| {
      var id := fs.ids[f];
      assert RelocBytes(fs, m, r) + rest == Le32(r.at - m.code) + (Le32(FUNCTION) + Le32(id.a) + (Le32(id.b) + rest));
      TripleAt(data, pos, r.at - m.code, FUNCTION, id.a, Le32(id.b) + rest);
      AtSplit(data, pos + 12, Le32(id.b), rest);
      WordAt(data, pos + 12, id.b);
    } else {
      assert RelocBytes(fs, m, r) + rest == Le32(r.at - m.code) + (Le32(RUNTIME) + Le32(r.lbl - |fs.labels|) + rest);
      TripleAt(data, pos, r.at - m.code, RUNTIME, r.lbl - |fs.labels|, rest);
    }
  }

  /** The first reference that cannot be replayed stops the replay. */
  lemma {:induction false} RelocsRefused(data: seq<byte>, pos: nat, fs: Functions, g: Gen, m: Mark, fn: nat, fs': Functions, g': Gen, fn': nat,
                                         i: nat, acc: Gen)
    requires Emission(fs, g, m, fn) && Storable(fs, g, m, fn) && Encodable(fs, g, m, fn) && Hosts(fs', g', fn')
    requires m.reloc <= i <= |g.relocs| && |acc.labelPos| == |g'.labelPos| + |g.labelPos| - m.lbl
    requires exists k :: i <= k < |g.relocs| && !KnownReloc(fs, m, fs', g', g.relocs[k])
    requires At(data, pos, RelocsBytes(fs, g, m, i))
    ensures Relocs(fs', data, pos, |g.relocs| - i, HeaderOf(g, m, fs.labels[fn]), BasesOf(g'), acc).Stopped?
    decreases |g.relocs| - i
  {
    hide At, RelocBytes, RelocOne, RelocOk, Find, KnownReloc, Storable, FunctionOf;
    var h, b, rest := HeaderOf(g, m, fs.labels[fn]), BasesOf(g'), RelocsBytes(fs, g, m, i + 1);
    if KnownReloc(fs, m, fs', g', g.relocs[i]) {
      RelocIsOk(fs, g, m, fn, fs', g', fn', acc, i);
      RelocRead(data, pos, fs, g, m, fs', b, h, g.relocs[i], acc, rest);
      RelocsRefused(data, pos + |RelocBytes(fs, m, g.relocs[i])|, fs, g, m, fn, fs', g', fn', i + 1, RelocTo(fs, m, fs', b, g.relocs[i], acc));
    } else {
      RelocRefused(data, pos, fs, g, m, fn, fs', g', fn', i, acc, rest);
    }
  }

  lemma {:induction false} QueueRefused(data: seq<byte>, pos: nat, fs: Functions, g: Gen, fs': Functions, i: nat, acc: Gen)
    requires i <= |g.queue| && (forall k :: 0 <= k < |g.queue| ==> g.queue[k] < |fs.ids|)
    requires forall f :: 0 <= f < |fs.ids| ==> Hashed(fs.ids[f])
    requires exists k :: i <= k < |g.queue| && Find(fs'.ids, fs.ids[g.queue[k]]) < 0
    requires At(data, pos, QueueBytes(fs, g, i))
    ensures Queue(fs', data, pos, |g.queue| - i, acc).Stopped?
    decreases |g.queue| - i
  {
    hide At, Le32, Get32, HasWord, Find, MarkFunc;
    var id := fs.ids[g.queue[i]];
    PairAt(data, pos, id.a, id.b, QueueBytes(fs, g, i + 1));
    if Find(fs'.ids, id) >= 0 {
      QueueRefused(data, pos + 8, fs, g, fs', i + 1, MarkFunc(acc, Find(fs'.ids, id)));
    }
  }

  lemma RestRefused(fs: Functions, g: Gen, m: Mark, fn: nat, peephole: Peephole, fs': Functions, g': Gen, fn': nat, data: seq<byte>,
                    p1: nat, p2: nat, p3: nat, p4: nat, p5: nat, g2: Gen)
    requires Emission(fs, g, m, fn) && Storable(fs, g, m, fn) && Encodable(fs, g, m, fn) && Hosts(fs', g', fn')
    requires Parts(data, fs, g, m, fn, peephole, p1, p2, p3, p4, p5) && !Known(fs, g, m, fn, fs', g')
    requires |g2.labelPos| == |g'.labelPos| + |g.labelPos| - m.lbl
    ensures var h := HeaderOf(g, m, fs.labels[fn]); var b := BasesOf(g');
      var relocs := Relocs(fs', data, p3, h.relocCount, h, b, g2);
      relocs.Stopped? ||
      (relocs.Reached? && var absolutes := Absolutes(data, relocs.pos, h.absCount, h, b, relocs.g);
       absolutes.Stopped? || Queue(fs', data, absolutes.pos, h.queueCount, absolutes.g).Stopped?)
  {
    hide At, Get32, WordsBytes, StringBytes, LabelBytes, RelocsBytes, AbsolutesBytes, QueueBytes, Relocs, Absolutes, Queue;
    hide RelocsTo, AbsolutesTo, OldStringsKnown, FunctionOf, Find, RelocOk, AbsOk, KnownReloc;
    var h, b := HeaderOf(g, m, fs.labels[fn]), BasesOf(g');
    if exists k :: m.reloc <= k < |g.relocs| && !KnownReloc(fs, m, fs', g', g.relocs[k]) {
      RelocsRefused(data, p3, fs, g, m, fn, fs', g', fn', m.reloc, g2);
    } else {
      forall k | m.reloc <= k < |g.relocs|
        ensures RelocOk(fs, g, m, fs', b, h, g.relocs[k], g2)
      {
        RelocIsOk(fs, g, m, fn, fs', g', fn', g2, k);
      }
      AbsolutesAreOk(fs, g, m, fn);
      var g3 := RelocsTo(fs, g, m, fs', b, m.reloc, g2);
      RelocsRead(data, p3, fs, g, m, fs', b, h, m.reloc, g2);
      AbsolutesRead(data, p4, g, m, b, h, m.abs, g3);
      QueueRefused(data, p5, fs, g, fs', m.queue, AbsolutesTo(g, m, b, m.abs, g3));
    }
  }

  lemma ChainStops(fs: Functions, g: Gen, fn: nat, data: seq<byte>, h: Header, g0: Gen, g1: Gen, g2: Gen, p2: nat, p3: nat)
    requires fn < |fs.labels| && fs.labels[fn] < |g.labelPos| && g1.labelPos == g.labelPos && h.funcLabelRel <= h.codeLen
    requires ReadHeader(data) == Some(h) && 60 + h.codeLen + h.dataLen <= |data| && Opened(g, data, h) == g0
    requires Strings(data, 60 + h.codeLen + h.dataLen, h.stringCount, h, BasesOf(g), g0) == Reached(g1, p2)
    requires Labels(data, p2, h.labelCount, h, BasesOf(g), g1.(labelPos := g.labelPos[fs.labels[fn] := |g.code| + h.funcLabelRel]))
          == Reached(g2, p3)
    requires var relocs := Relocs(fs, data, p3, h.relocCount, h, BasesOf(g), g2);
      relocs.Stopped? ||
      (relocs.Reached? && var absolutes := Absolutes(data, relocs.pos, h.absCount, h, BasesOf(g), relocs.g);
       absolutes.Stopped? || Queue(fs, data, absolutes.pos, h.queueCount, absolutes.g).Stopped?)
    ensures Replayed(fs, g, fn, data).Stopped?
  {
    hide Strings, Labels, Relocs, Absolutes, Queue, Opened, ReadHeader;
  }

  /** A stored record whose references the program does not know is refused; its code, data and bss
      stay behind in the generator all the same. */
  lemma UnknownIsRefused(fs: Functions, g: Gen, m: Mark, fn: nat, peephole: Peephole, fs': Functions, g': Gen, fn': nat)
    requires Emission(fs, g, m, fn) && Storable(fs, g, m, fn) && Encodable(fs, g, m, fn) && Hosts(fs', g', fn')
    requires !Known(fs, g, m, fn, fs', g')
    ensures var r := Replayed(fs', g', fn', Stored(fs, g, m, fn, peephole));
      r.Stopped? && r.g.code == g'.code + g.code[m.code..] && g'.data + g.data[m.data..] <= r.g.data && r.g.bssSize == g'.bssSize + (g.bssSize - m.bss)
  {
    hide At, Stored, StringsTo, LabelsTo, Strings, Labels, Relocs, Absolutes, Queue, OnlyAdds;
    hide Opened, ReadHeader, Replayed, FunctionOf, Find, OldStringsKnown, KnownReloc, Known;
    hide StringBytes, LabelBytes, RelocsBytes, AbsolutesBytes, QueueBytes, WordsBytes;
    var data := Stored(fs, g, m, fn, peephole);
    var p1, p2, p3, p4, p5 := StoredParts(fs, g, m, fn, peephole);
    HeaderRead(data, fs, g, m, fn, peephole);
    FrontRead(fs, g, m, fn, peephole, fs', g', fn', data, p1, p2, p3, p4, p5);
    var g2 := Labelled(fs, g, m, fn, fs', g', fn');
    RestRefused(fs, g, m, fn, peephole, fs', g', fn', data, p1, p2, p3, p4, p5, g2);
    var g0 := Appended(g, m, g');
    ChainStops(fs', g', fn', data, HeaderOf(g, m, fs.labels[fn]), g0, g0.(refs := g'.refs + StringsTo(g, m, BasesOf(g'), m.text)), g2, p2, p3);
    ReplayLeaves(fs', g', fn', data);
  }

  /** A stored record is accepted exactly where the program knows every function that it refers to,
      uniquely, and the runtime labels. */
  lemma AcceptedIffKnown(fs: Functions, g: Gen, m: Mark, fn: nat, peephole: Peephole, fs': Functions, g': Gen, fn': nat)
    requires Emission(fs, g, m, fn) && Storable(fs, g, m, fn) && Encodable(fs, g, m, fn) && Hosts(fs', g', fn')
    ensures Replayed(fs', g', fn', Stored(fs, g, m, fn, peephole)).Reached? <==> Known(fs, g, m, fn, fs', g')
  {
    hide Known, Replayed, Stored, Rebased;
    if Known(fs, g, m, fn, fs', g') {
      StoreThenReplay(fs, g, m, fn, peephole, fs', g', fn');
    } else {
      UnknownIsRefused(fs, g, m, fn, peephole, fs', g', fn');
    }
  }

  /** A function of one byte that calls itself, replayed in a program with a second function of the
      same identity: the record is refused, and its byte stays behind. */
  lemma AmbiguousCalleeLeavesCode(fs: Functions, g: Gen, m: Mark, peephole: Peephole, fs': Functions, g': Gen)
    requires fs == Functions([0], [Identity(1, 2)]) && m == Mark(0, 1, 0, 0, 0, 0, 0, 0, 0)
    requires g == Gen([0x90], [], [0], [Reloc(0, 0)], [], 0, [], [], [true], [0])
    requires fs' == Functions([0, 1], [Identity(1, 2), Identity(1, 2)])
    requires g' == Gen([], [], [-1, -1], [], [], 0, [], [], [true, false], [0])
    ensures Emission(fs, g, m, 0) && Storable(fs, g, m, 0)
    ensures var r := Replayed(fs', g', 0, Stored(fs, g, m, 0, peephole)); r.Stopped? && r.g.code == [0x90] && r.g != g'
  {
    OneFunction(fs, g, m);
    hide Replayed, Stored, Storable, Encodable;
    assert fs'.ids[0] == fs'.ids[1] == fs.ids[0];
    assert Find(fs'.ids, fs.ids[0]) < 0;
    assert !KnownReloc(fs, m, fs', g', g.relocs[0]) by {
      assert FunctionOf(fs.labels, 0, 0) == 0;
    }
    UnknownIsRefused(fs, g, m, 0, peephole, fs', g', 0);
  }
}
