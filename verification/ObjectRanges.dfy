/** Whatever a record holds, and wherever its replay stops: no position points outside the generator, and the
    queue holds exactly the marked functions. */
module ObjectRanges {
  import opened Bytes
  import opened Emitted
  import opened ObjectIndex
  import opened ObjectRecord
  import opened ObjectRefusal
  import opened Wrappers

  /** Labels lie in the code, references in the code and at labels, strings with their zero in the data. */
  ghost predicate Ranged(g: Gen) {
    && (forall l :: 0 <= l < |g.labelPos| ==> -1 <= g.labelPos[l] <= |g.code|)
    && (forall i :: 0 <= i < |g.relocs| ==> 0 <= g.relocs[i].at < |g.code| && 0 <= g.relocs[i].lbl < |g.labelPos|)
    && (forall i :: 0 <= i < |g.absRelocs| ==> 0 <= g.absRelocs[i].at < |g.code|)
    && (forall i :: 0 <= i < |g.refs| ==> g.refs[i].off + g.refs[i].len < |g.data|)
  }

  /** Each marked function is in the queue once, and nothing else is. */
  ghost predicate Queued(g: Gen) {
    && (forall k :: 0 <= k < |g.queue| ==> g.queue[k] < |g.marked| && g.marked[g.queue[k]])
    && (forall f :: 0 <= f < |g.marked| && g.marked[f] ==> f in g.queue)
    && (forall j, k :: 0 <= j < k < |g.queue| ==> g.queue[j] != g.queue[k])
  }

  lemma MarkKeeps(g: Gen, f: int)
    requires Ranged(g) && Queued(g)
    ensures Ranged(MarkFunc(g, f)) && Queued(MarkFunc(g, f))
  {
    if 0 <= f < |g.marked| && !g.marked[f] {
      var r := MarkFunc(g, f);
      forall e | 0 <= e < |r.marked| && r.marked[e]
        ensures e in r.queue
      {
        if e == f {
          assert r.queue[|g.queue|] == f;
        }
      }
    }
  }

  lemma {:induction false} StringsKeep(data: seq<byte>, pos: nat, n: nat, h: Header, b: Bases, g: Gen)
    requires Ranged(g) && Queued(g) && b.data + h.dataLen <= |g.data|
    ensures Ranged(Strings(data, pos, n, h, b, g).g) && Queued(Strings(data, pos, n, h, b, g).g)
    decreases n
  {
    hide Get32;
    if n > 0 && HasWord(data, pos + 4) && Get32(data, pos) + Get32(data, pos + 4) < h.dataLen {
      StringsKeep(data, pos + 8, n - 1, h, b, g.(refs := g.refs + [Text(b.data + Get32(data, pos), Get32(data, pos + 4))]));
    }
  }

  lemma {:induction false} LabelsKeep(data: seq<byte>, pos: nat, n: nat, h: Header, b: Bases, g: Gen)
    requires Ranged(g) && Queued(g) && b.code + h.codeLen <= |g.code|
    ensures Ranged(Labels(data, pos, n, h, b, g).g) && Queued(Labels(data, pos, n, h, b, g).g)
    decreases n
  {
    hide Get32;
    if n > 0 && HasWord(data, pos + 4) && Get32(data, pos) <= 1 && Get32(data, pos + 4) <= h.codeLen {
      LabelsKeep(data, pos + 8, n - 1, h, b, g.(labelPos := g.labelPos + [if Get32(data, pos) == 0 then -1 else b.code + Get32(data, pos + 4)]));
    }
  }

  lemma RelocKeeps(fs: Functions, data: seq<byte>, pos: nat, h: Header, b: Bases, g: Gen)
    requires Ranged(g) && Queued(g) && b.code + h.codeLen <= |g.code|
    ensures var r := RelocOne(fs, data, pos, h, b, g); Ranged(r.g) && Queued(r.g) && r.g.code == g.code
  {
    hide Get32, Find, MarkFunc;
    var callee := Find(fs.ids, Identity(WordOr0(data, pos + 8), WordOr0(data, pos + 12)));
    MarkKeeps(g, callee);
    MarkKeepsCode(g, callee);
  }

  lemma MarkKeepsCode(g: Gen, f: int)
    ensures MarkFunc(g, f).code == g.code && MarkFunc(g, f).labelPos == g.labelPos
  {
  }

  lemma {:induction false} RelocsKeep(fs: Functions, data: seq<byte>, pos: nat, n: nat, h: Header, b: Bases, g: Gen)
    requires Ranged(g) && Queued(g) && b.code + h.codeLen <= |g.code|
    ensures Ranged(Relocs(fs, data, pos, n, h, b, g).g) && Queued(Relocs(fs, data, pos, n, h, b, g).g)
    decreases n
  {
    hide RelocOne, Ranged, Queued;
    if n > 0 {
      RelocKeeps(fs, data, pos, h, b, g);
      var one := RelocOne(fs, data, pos, h, b, g);
      if one.Reached? {
        RelocsKeep(fs, data, one.pos, n - 1, h, b, one.g);
      }
    }
  }

  lemma InternKeeps(g: Gen, msg: seq<byte>)
    requires Ranged(g) && Queued(g)
    ensures Ranged(Intern(g, msg).0) && Queued(Intern(g, msg).0)
  {
    hide Lookup, Search;
  }

  lemma AbsoluteKeeps(data: seq<byte>, pos: nat, h: Header, b: Bases, g: Gen)
    requires Ranged(g) && Queued(g) && b.code + h.codeLen <= |g.code|
    ensures var r := AbsOne(data, pos, h, b, g); Ranged(r.g) && Queued(r.g) && r.g.code == g.code
  {
    hide Get32, Intern, IsAt, RebasedOffset;
    if HasWord(data, pos + 8) && pos + 12 + Get32(data, pos + 8) <= |data| {
      InternKeeps(g, data[pos + 12..pos + 12 + Get32(data, pos + 8)]);
    }
  }

  lemma {:induction false} AbsolutesKeep(data: seq<byte>, pos: nat, n: nat, h: Header, b: Bases, g: Gen)
    requires Ranged(g) && Queued(g) && b.code + h.codeLen <= |g.code|
    ensures Ranged(Absolutes(data, pos, n, h, b, g).g) && Queued(Absolutes(data, pos, n, h, b, g).g)
    decreases n
  {
    hide AbsOne, Ranged, Queued;
    if n > 0 {
      AbsoluteKeeps(data, pos, h, b, g);
      var one := AbsOne(data, pos, h, b, g);
      if one.Reached? {
        AbsolutesKeep(data, one.pos, n - 1, h, b, one.g);
      }
    }
  }

  lemma {:induction false} QueueKeeps(fs: Functions, data: seq<byte>, pos: nat, n: nat, g: Gen)
    requires Ranged(g) && Queued(g)
    ensures Ranged(Queue(fs, data, pos, n, g).g) && Queued(Queue(fs, data, pos, n, g).g)
    decreases n
  {
    hide Get32, Find, MarkFunc, Ranged, Queued;
    if n > 0 && HasWord(data, pos + 4) {
      var callee := Find(fs.ids, Identity(Get32(data, pos), Get32(data, pos + 4)));
      if callee >= 0 {
        MarkKeeps(g, callee);
        QueueKeeps(fs, data, pos + 8, n - 1, MarkFunc(g, callee));
      }
    }
  }

  lemma RestKeeps(fs: Functions, g: Gen, data: seq<byte>, pos: nat, h: Header, b: Bases)
    requires Ranged(g) && Queued(g) && b.code + h.codeLen <= |g.code|
    ensures Ranged(ReplayedRest(fs, g, data, pos, h, b).g) && Queued(ReplayedRest(fs, g, data, pos, h, b).g)
  {
    hide Labels, Relocs, Absolutes, Queue, Ranged, Queued;
    LabelsKeep(data, pos, h.labelCount, h, b, g);
    LabelsAdd(data, pos, h.labelCount, h, b, g);
    match Labels(data, pos, h.labelCount, h, b, g)
    case Stopped(_) =>
    case Reached(g2, pos2) =>
      RelocsKeep(fs, data, pos2, h.relocCount, h, b, g2);
      RelocsAdd(fs, data, pos2, h.relocCount, h, b, g2);
      match Relocs(fs, data, pos2, h.relocCount, h, b, g2)
      case Stopped(_) =>
      case Reached(g3, pos3) =>
        AbsolutesKeep(data, pos3, h.absCount, h, b, g3);
        match Absolutes(data, pos3, h.absCount, h, b, g3)
        case Stopped(_) =>
        case Reached(g4, pos4) =>
          QueueKeeps(fs, data, pos4, h.queueCount, g4);
  }

  lemma OpenedKeeps(g: Gen, data: seq<byte>, h: Header)
    requires Ranged(g) && Queued(g) && 60 + h.codeLen + h.dataLen <= |data|
    ensures Ranged(Opened(g, data, h)) && Queued(Opened(g, data, h))
  {
  }

  lemma PlacedKeeps(g: Gen, lbl: nat, position: nat)
    requires Ranged(g) && Queued(g) && lbl < |g.labelPos| && position <= |g.code|
    ensures Ranged(g.(labelPos := g.labelPos[lbl := position])) && Queued(g.(labelPos := g.labelPos[lbl := position]))
  {
  }

  /** Any bytes, accepted or refused at any point. */
  lemma ReplayKeepsRanges(fs: Functions, g: Gen, fn: int, data: seq<byte>)
    requires Ranged(g) && Queued(g)
    ensures Ranged(Replayed(fs, g, fn, data).g) && Queued(Replayed(fs, g, fn, data).g)
  {
    hide ReadHeader, Strings, ReplayedRest, Ranged, Queued;
    if !HeaderRefuses(data) {
      var h := ReadHeader(data).value;
      var b, p := Bases(|g.code|, |g.labelPos|, |g.data|, g.bssSize), 60 + h.codeLen + h.dataLen;
      OpenedKeeps(g, data, h);
      StringsKeep(data, p, h.stringCount, h, b, Opened(g, data, h));
      StringsAdd(data, p, h.stringCount, h, b, Opened(g, data, h));
      match Strings(data, p, h.stringCount, h, b, Opened(g, data, h))
      case Stopped(_) =>
      case Reached(g1, pos1) =>
        if 0 <= fn < |fs.labels| && h.funcLabelRel <= h.codeLen && fs.labels[fn] < |g1.labelPos| {
          PlacedKeeps(g1, fs.labels[fn], b.code + h.funcLabelRel);
          RestKeeps(fs, g1.(labelPos := g1.labelPos[fs.labels[fn] := b.code + h.funcLabelRel]), data, pos1, h, b);
        }
    }
  }
}
