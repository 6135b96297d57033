/** Which emissions are recorded, without the functions that look labels and strings up. */
module ObjectStorable {
  import opened Bytes
  import opened Emitted
  import opened ObjectRecord

  /** The label belongs to a function. */
  ghost predicate OfFunction(fs: Functions, lbl: int) {
    exists f :: 0 <= f < |fs.labels| && fs.labels[f] == lbl
  }

  /** String k is the first recorded one at an offset. */
  ghost predicate FirstAt(refs: seq<Text>, off: int, k: nat) {
    k < |refs| && refs[k].off == off && forall j :: 0 <= j < k ==> refs[j].off != off
  }

  lemma {:induction false} TextLengthIs(refs: seq<Text>, off: int) returns (k: nat)
    ensures if TextLength(refs, off) < 0 then forall j :: 0 <= j < |refs| ==> refs[j].off != off
            else FirstAt(refs, off, k) && refs[k].len == TextLength(refs, off)
  {
    k := 0;
    if refs != [] && refs[0].off != off {
      var l := TextLengthIs(refs[1..], off);
      if TextLength(refs, off) >= 0 {
        k := l + 1;
        assert forall j :: 0 < j < |refs| ==> refs[j] == refs[1..][j - 1];
      } else {
        assert forall j :: 0 < j < |refs| ==> refs[j] == refs[1..][j - 1];
      }
    }
  }

  /** The first string recorded at an offset is there, and ends with room for a zero. */
  ghost predicate StringKnown(g: Gen, off: int) {
    exists k: nat :: FirstAt(g.refs, off, k) && off + g.refs[k].len < |g.data|
  }

  lemma StringKnownIs(g: Gen, off: int)
    ensures StringKnown(g, off) <==> 0 <= TextLength(g.refs, off) && off + TextLength(g.refs, off) < |g.data|
  {
    hide TextLength;
    var k := TextLengthIs(g.refs, off);
    forall j: nat | FirstAt(g.refs, off, j) && TextLength(g.refs, off) >= 0
      ensures j == k
    {
      assert !(j < k) && !(k < j);
    }
  }

  /** A function's emission is recorded exactly when its label is set, no older label stands in its
      code, its strings and labels lie within what it added, each label it refers to is that of a
      function, its own or a runtime label, and each older string it refers to is a recorded one. */
  lemma StorableExactly(fs: Functions, g: Gen, m: Mark, fn: nat)
    requires Emission(fs, g, m, fn)
    ensures Storable(fs, g, m, fn) <==>
      && fs.labels[fn] < |g.labelPos| && g.labelPos[fs.labels[fn]] >= 0
      && !(exists l :: 0 <= l < m.lbl && l != fs.labels[fn] && g.labelPos[l] >= m.code)
      && (forall i :: m.text <= i < |g.refs| ==> m.data <= g.refs[i].off && g.refs[i].off + g.refs[i].len < |g.data|)
      && (forall l :: m.lbl <= l < |g.labelPos| ==> g.labelPos[l] < 0 || m.code <= g.labelPos[l] <= |g.code|)
      && (forall i :: m.reloc <= i < |g.relocs| ==>
            OfFunction(fs, g.relocs[i].lbl) || g.relocs[i].lbl >= m.lbl || g.relocs[i].lbl >= |fs.labels|)
      && (forall i :: m.abs <= i < |g.absRelocs| && g.absRelocs[i].kind == 0 && m.objectData <= g.absRelocs[i].off < m.data ==>
            StringKnown(g, g.absRelocs[i].off))
  {
    hide TextLength, StringKnown;
    forall off: int
      ensures StringKnown(g, off) <==> 0 <= TextLength(g.refs, off) && off + TextLength(g.refs, off) < |g.data|
    {
      StringKnownIs(g, off);
    }
    forall lbl: int
      ensures OfFunction(fs, lbl) <==> FunctionOf(fs.labels, lbl, 0) < |fs.labels|
    {
    }
  }
}
