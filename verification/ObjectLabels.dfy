/** The relocatable-object writer's treatment of label references: a displacement when source
    and target share a section, a relocation against the target's section otherwise. */
module ObjectLabels {
  import opened Bytes
  import opened Emitted
  import opened ObjectSections
  import opened Wrappers

  // ---- Fields of two or four bytes

  function Span(n: nat): int {
    if n == 2 then 65536 else WORD
  }

  function GetN(s: seq<byte>, at: nat, n: nat): (v: int)
    requires (n == 2 || n == 4) && at + n <= |s|
    ensures 0 <= v < Span(n)
  {
    if n == 2 then s[at] + s[at + 1] * 256 else Get32(s, at)
  }

  function PutN(s: seq<byte>, at: nat, n: nat, v: int): (r: seq<byte>)
    requires (n == 2 || n == 4) && at + n <= |s|
    ensures |r| == |s|
  {
    if n == 2 then s[at := Byte(v)][at + 1 := Byte(v / 256)] else Put32(s, at, v)
  }

  function SignedN(v: int, n: nat): int {
    if v >= Span(n) / 2 then v - Span(n) else v
  }

  lemma GetPutN(s: seq<byte>, at: nat, n: nat, v: int)
    requires (n == 2 || n == 4) && at + n <= |s|
    ensures GetN(PutN(s, at, n, v), at, n) == v % Span(n)
    ensures forall j :: 0 <= j < |s| && !(at <= j < at + n) ==> PutN(s, at, n, v)[j] == s[j]
  {
    if n == 2 {
      DivDiv(v, 256, 256);
      assert v == v / 256 * 256 + v % 256 && v / 256 == v / 256 / 256 * 256 + v / 256 % 256;
    } else {
      GetPut32(s, at, v);
    }
  }

  /** Writing one field leaves the words of disjoint fields alone. */
  lemma PutApart(s: seq<byte>, at: nat, n: nat, v: int, other: nat, m: nat)
    requires (n == 2 || n == 4) && at + n <= |s| && (m == 2 || m == 4) && other + m <= |s|
    requires at + n <= other || other + m <= at
    ensures GetN(PutN(s, at, n, v), other, m) == GetN(s, other, m)
  {
    GetPutN(s, at, n, v);
  }

  // ---- Resolving one reference

  /** The target machine, and whether marked references are two-byte ones. */
  datatype Config = Config(elf386: bool, code16: bool)

  /** A placed reference: its field, and the place of its target. */
  datatype Ref = Ref(section: nat, offset: nat, size: nat, tsection: nat, toffset: nat)

  function FieldSize(c: Config, r: Reloc): nat {
    if c.elf386 && c.code16 && r.at < 0 then 2 else 4
  }

  function RefOf(c: Config, m: seq<Placed>, labelPos: seq<int>, r: Reloc): (f: Option<Ref>)
    ensures f.Some? ==> f.value.size == 2 || f.value.size == 4
    ensures f.Some? ==> exists k :: 0 <= k < |m| && m[k].section == f.value.section
    ensures f.Some? ==> exists k :: 0 <= k < |m| && m[k].section == f.value.tsection
  {
    var source, target := MapFrom(m, Unmark(r.at), 0), MapFrom(m, LabelPosition(labelPos, Unmark(r.lbl)), 0);
    if source.None? || target.None? then None
    else Some(Ref(source.value.0, source.value.1, FieldSize(c, r), target.value.0, target.value.1))
  }

  /** The addend that stands in a field: signed for a two-byte one. */
  function FieldAddend(data: seq<byte>, offset: nat, size: nat): int
    requires (size == 2 || size == 4) && offset + size <= |data|
  {
    if size == 2 then SignedN(GetN(data, offset, 2), 2) else GetN(data, offset, 4)
  }

  const PC32 := 2
  const PC16 := 21

  function RecordOf(f: Ref, addend: int): ElfReloc {
    ElfReloc(f.offset, f.tsection, if f.size == 2 then PC16 else PC32, f.toffset + addend - f.size)
  }

  ghost predicate InSections(sections: seq<Section>, m: seq<Placed>) {
    forall k :: 0 <= k < |m| ==> m[k].section < |sections|
  }

  /** One reference: patched in place, or turned into a relocation with a zeroed field. */
  function ResolveOne(c: Config, m: seq<Placed>, labelPos: seq<int>, sections: seq<Section>, r: Reloc): (s: Option<seq<Section>>)
    requires InSections(sections, m)
    ensures s.Some? ==> |s.value| == |sections| && SameFrames(sections, s.value)
  {
    match RefOf(c, m, labelPos, r)
    case None => None
    case Some(f) =>
      var source := sections[f.section];
      if f.offset + f.size > |source.data| then None
      else
        var addend := FieldAddend(source.data, f.offset, f.size);
        if f.section == f.tsection then
          var displacement := f.toffset + addend - (f.offset + f.size);
          if f.size == 2 && (displacement < -32768 || displacement > 32767) then None
          else Some(sections[f.section := source.(data := PutN(source.data, f.offset, f.size, displacement))])
        else
          Some(sections[f.section := source.(data := PutN(source.data, f.offset, f.size, 0),
                                            relocations := source.relocations + [RecordOf(f, addend)])])
  }

  function ResolveAll(c: Config, m: seq<Placed>, labelPos: seq<int>, sections: seq<Section>, relocs: seq<Reloc>, n: nat):
    (s: Option<seq<Section>>)
    requires InSections(sections, m) && n <= |relocs|
    ensures s.Some? ==> |s.value| == |sections| && SameFrames(sections, s.value)
  {
    if n == 0 then Some(sections)
    else
      match ResolveAll(c, m, labelPos, sections, relocs, n - 1)
      case None => None
      case Some(before) => ResolveOne(c, m, labelPos, before, relocs[n - 1])
  }

  /** One turn of the writer's loop over the label references. */
  method ResolveLabel(w: Writer, c: Config, labelPos: seq<int>, r: Reloc) returns (ok: bool)
    requires InSections(w.sections, w.codeMap)
    modifies w`sections
    ensures ok <==> ResolveOne(c, w.codeMap, labelPos, old(w.sections), r).Some?
    ensures ok ==> Some(w.sections) == ResolveOne(c, w.codeMap, labelPos, old(w.sections), r)
  {
    hide FieldAddend, PutN, GetN, RecordOf, MapFrom;
    var source := MapPosition(w.codeMap, Unmark(r.at));
    var target := MapPosition(w.codeMap, LabelPosition(labelPos, Unmark(r.lbl)));
    if source.None? || target.None? {
      return false;
    }
    var f := Ref(source.value.0, source.value.1, FieldSize(c, r), target.value.0, target.value.1);
    var section := w.sections[f.section];
    if f.offset + f.size > |section.data| {
      return false;
    }
    var addend := FieldAddend(section.data, f.offset, f.size);
    if f.section == f.tsection {
      var displacement := f.toffset + addend - (f.offset + f.size);
      if f.size == 2 && (displacement < -32768 || displacement > 32767) {
        return false;
      }
      w.sections := w.sections[f.section := section.(data := PutN(section.data, f.offset, f.size, displacement))];
    } else {
      w.sections := w.sections[f.section := section.(data := PutN(section.data, f.offset, f.size, 0),
                                                     relocations := section.relocations + [RecordOf(f, addend)])];
    }
    ok := true;
  }

  /** Resolves every label reference of the code. */
  method ResolveLabels(w: Writer, c: Config, labelPos: seq<int>, relocs: seq<Reloc>) returns (ok: bool)
    requires InSections(w.sections, w.codeMap)
    modifies w`sections
    ensures ok <==> ResolveAll(c, w.codeMap, labelPos, old(w.sections), relocs, |relocs|).Some?
    ensures ok ==> Some(w.sections) == ResolveAll(c, w.codeMap, labelPos, old(w.sections), relocs, |relocs|)
  {
    ghost var was := w.sections;
    hide ResolveOne;
    for i := 0 to |relocs|
      invariant |w.sections| == |was| && Some(w.sections) == ResolveAll(c, w.codeMap, labelPos, was, relocs, i)
    {
      ok := ResolveLabel(w, c, labelPos, relocs[i]);
      if !ok {
        ResolveStops(c, w.codeMap, labelPos, was, relocs, i + 1, |relocs|);
        return;
      }
    }
    ok := true;
  }

  lemma {:induction false} ResolveStops(c: Config, m: seq<Placed>, labelPos: seq<int>, sections: seq<Section>, relocs: seq<Reloc>, i: nat, n: nat)
    requires InSections(sections, m) && i <= n <= |relocs| && ResolveAll(c, m, labelPos, sections, relocs, i).None?
    ensures ResolveAll(c, m, labelPos, sections, relocs, n).None?
  {
    hide ResolveOne;
    if i < n {
      ResolveStops(c, m, labelPos, sections, relocs, i, n - 1);
    }
  }

  // ---- Distinct fields

  ghost predicate DisjointRefs(a: Ref, b: Ref) {
    a.section != b.section || a.offset + a.size <= b.offset || b.offset + b.size <= a.offset
  }

  /** The references are placed, their fields lie in their sections and do not overlap. */
  ghost predicate GoodRefs(c: Config, m: seq<Placed>, labelPos: seq<int>, sections: seq<Section>, relocs: seq<Reloc>) {
    && InSections(sections, m)
    && (forall i :: 0 <= i < |relocs| ==> RefOf(c, m, labelPos, relocs[i]).Some?)
    && (forall i :: 0 <= i < |relocs| ==>
         var f := RefOf(c, m, labelPos, relocs[i]).value; (f.size == 2 || f.size == 4) && f.offset + f.size <= |sections[f.section].data|)
    && (forall i, j :: 0 <= i < |relocs| && 0 <= j < |relocs| && i != j ==>
         DisjointRefs(RefOf(c, m, labelPos, relocs[i]).value, RefOf(c, m, labelPos, relocs[j]).value))
  }

  ghost function R(c: Config, m: seq<Placed>, labelPos: seq<int>, relocs: seq<Reloc>, i: nat): Ref
    requires i < |relocs| && RefOf(c, m, labelPos, relocs[i]).Some?
  {
    RefOf(c, m, labelPos, relocs[i]).value
  }

  /** What one reference does to its own field, to a disjoint field, and to the records. */
  lemma ResolveOneEffect(c: Config, m: seq<Placed>, labelPos: seq<int>, sections: seq<Section>, r: Reloc, now: seq<Section>)
    requires InSections(sections, m) && Some(now) == ResolveOne(c, m, labelPos, sections, r)
    ensures RefOf(c, m, labelPos, r).Some? && |now| == |sections|
    ensures var f := RefOf(c, m, labelPos, r).value;
      && (f.size == 2 || f.size == 4) && f.section < |sections| && f.offset + f.size <= |sections[f.section].data|
      && |now[f.section].data| == |sections[f.section].data|
      && (forall s :: 0 <= s < |sections| && s != f.section ==> now[s] == sections[s])
      && (var addend := FieldAddend(sections[f.section].data, f.offset, f.size);
          GetN(now[f.section].data, f.offset, f.size)
            == (if f.section == f.tsection then (f.toffset + addend - (f.offset + f.size)) % Span(f.size) else 0)
          && now[f.section].relocations
            == sections[f.section].relocations + if f.section == f.tsection then [] else [RecordOf(f, addend)])
  {
    hide RefOf, FieldAddend, PutN, GetN, RecordOf;
    var f := RefOf(c, m, labelPos, r).value;
    var addend := FieldAddend(sections[f.section].data, f.offset, f.size);
    GetPutN(sections[f.section].data, f.offset, f.size, if f.section == f.tsection then f.toffset + addend - (f.offset + f.size) else 0);
  }

  lemma ResolveOneApart(c: Config, m: seq<Placed>, labelPos: seq<int>, sections: seq<Section>, r: Reloc, now: seq<Section>, f: Ref)
    requires InSections(sections, m) && Some(now) == ResolveOne(c, m, labelPos, sections, r)
    requires RefOf(c, m, labelPos, r).Some? && DisjointRefs(RefOf(c, m, labelPos, r).value, f)
    requires f.section < |sections| && (f.size == 2 || f.size == 4) && f.offset + f.size <= |sections[f.section].data|
    ensures |now| == |sections| && |now[f.section].data| == |sections[f.section].data|
    ensures GetN(now[f.section].data, f.offset, f.size) == GetN(sections[f.section].data, f.offset, f.size)
    ensures FieldAddend(now[f.section].data, f.offset, f.size) == FieldAddend(sections[f.section].data, f.offset, f.size)
  {
    hide RefOf, PutN, GetN, RecordOf;
    var g := RefOf(c, m, labelPos, r).value;
    if g.section == f.section {
      var data := sections[g.section].data;
      var addend := FieldAddend(data, g.offset, g.size);
      PutApart(data, g.offset, g.size, if g.section == g.tsection then g.toffset + addend - (g.offset + g.size) else 0, f.offset, f.size);
    }
  }

  /** Up to its own turn a field keeps its word, and so does every disjoint field throughout. */
  lemma {:induction false} Untouched(c: Config, m: seq<Placed>, labelPos: seq<int>, sections: seq<Section>, relocs: seq<Reloc>, n: nat,
                                     now: seq<Section>, f: Ref)
    requires InSections(sections, m) && n <= |relocs| && Some(now) == ResolveAll(c, m, labelPos, sections, relocs, n)
    requires forall i :: 0 <= i < n ==> RefOf(c, m, labelPos, relocs[i]).Some? && DisjointRefs(R(c, m, labelPos, relocs, i), f)
    requires f.section < |sections| && (f.size == 2 || f.size == 4) && f.offset + f.size <= |sections[f.section].data|
    ensures |now| == |sections| && |now[f.section].data| == |sections[f.section].data|
    ensures GetN(now[f.section].data, f.offset, f.size) == GetN(sections[f.section].data, f.offset, f.size)
    ensures FieldAddend(now[f.section].data, f.offset, f.size) == FieldAddend(sections[f.section].data, f.offset, f.size)
  {
    hide RefOf, ResolveOne, GetN, FieldAddend, DisjointRefs;
    if n > 0 {
      var before := ResolveAll(c, m, labelPos, sections, relocs, n - 1).value;
      Untouched(c, m, labelPos, sections, relocs, n - 1, before, f);
      ResolveOneApart(c, m, labelPos, before, relocs[n - 1], now, f);
    }
  }

  /** Each field ends up with its displacement, or zero when it became a relocation. */
  lemma {:induction false} ResolvedField(c: Config, m: seq<Placed>, labelPos: seq<int>, sections: seq<Section>, relocs: seq<Reloc>, n: nat,
                                         now: seq<Section>, i: nat)
    requires GoodRefs(c, m, labelPos, sections, relocs) && i < n <= |relocs|
    requires Some(now) == ResolveAll(c, m, labelPos, sections, relocs, n)
    ensures |now| == |sections|
    ensures var f := R(c, m, labelPos, relocs, i);
      && (f.size == 2 || f.size == 4) && f.section < |sections|
      && f.offset + f.size <= |now[f.section].data| == |sections[f.section].data|
      && GetN(now[f.section].data, f.offset, f.size)
         == if f.section == f.tsection then (f.toffset + FieldAddend(sections[f.section].data, f.offset, f.size) - (f.offset + f.size)) % Span(f.size)
            else 0
    decreases n
  {
    hide RefOf, ResolveOne, GetN, FieldAddend, DisjointRefs;
    var before := ResolveAll(c, m, labelPos, sections, relocs, n - 1).value;
    var f := R(c, m, labelPos, relocs, i);
    if i == n - 1 {
      Untouched(c, m, labelPos, sections, relocs, n - 1, before, f);
      ResolveOneEffect(c, m, labelPos, before, relocs[n - 1], now);
    } else {
      ResolvedField(c, m, labelPos, sections, relocs, n - 1, before, i);
      ResolveOneApart(c, m, labelPos, before, relocs[n - 1], now, f);
    }
  }

  /** The references among the first n that became relocations of a section, in order. */
  ghost function Owners(c: Config, m: seq<Placed>, labelPos: seq<int>, relocs: seq<Reloc>, n: nat, s: nat): (r: seq<nat>)
    requires n <= |relocs| && (forall i :: 0 <= i < |relocs| ==> RefOf(c, m, labelPos, relocs[i]).Some?)
    ensures forall k :: 0 <= k < |r| ==> r[k] < n
    ensures forall k, l :: 0 <= k < l < |r| ==> r[k] < r[l]
  {
    if n == 0 then []
    else
      var f := R(c, m, labelPos, relocs, n - 1);
      Owners(c, m, labelPos, relocs, n - 1, s) + if f.section == s && f.tsection != s then [n - 1] else []
  }

  /** The relocation of each owner, in terms of the original addend of its field. */
  ghost predicate RecordsAre(c: Config, m: seq<Placed>, labelPos: seq<int>, sections: seq<Section>, relocs: seq<Reloc>,
                             owners: seq<nat>, records: seq<ElfReloc>)
    requires GoodRefs(c, m, labelPos, sections, relocs) && (forall k :: 0 <= k < |owners| ==> owners[k] < |relocs|)
  {
    && |records| == |owners|
    && (forall k :: 0 <= k < |records| ==>
         var f := R(c, m, labelPos, relocs, owners[k]);
         records[k] == RecordOf(f, FieldAddend(sections[f.section].data, f.offset, f.size)))
  }

  /** A section's relocations are exactly those of its owners. */
  lemma {:induction false} ResolvedRecords(c: Config, m: seq<Placed>, labelPos: seq<int>, sections: seq<Section>, relocs: seq<Reloc>, n: nat,
                                           now: seq<Section>, s: nat)
    requires GoodRefs(c, m, labelPos, sections, relocs) && n <= |relocs| && s < |sections| && sections[s].relocations == []
    requires Some(now) == ResolveAll(c, m, labelPos, sections, relocs, n)
    ensures |now| == |sections|
    ensures RecordsAre(c, m, labelPos, sections, relocs, Owners(c, m, labelPos, relocs, n, s), now[s].relocations)
  {
    hide RefOf, ResolveOne, GetN, FieldAddend, DisjointRefs, RecordOf, SameFrames;
    if n > 0 {
      var before := ResolveAll(c, m, labelPos, sections, relocs, n - 1).value;
      var f := R(c, m, labelPos, relocs, n - 1);
      ResolvedRecords(c, m, labelPos, sections, relocs, n - 1, before, s);
      Untouched(c, m, labelPos, sections, relocs, n - 1, before, f);
      ResolveOneEffect(c, m, labelPos, before, relocs[n - 1], now);
    }
  }

  // ---- Relocations at work

  /** How many bytes a linker writes for a relocation, by its number: R_386_PC32 and R_X86_64_PC32 are
      2, R_386_PC16 is 21, R_386_32 and R_X86_64_64 are 1. Other numbers are not interpreted. */
  function LinkedSize(elf386: bool, typ: nat): nat {
    if typ == 2 then 4 else if elf386 && typ == 21 then 2 else if typ == 1 then (if elf386 then 4 else 8) else 0
  }

  function RecordSize(elf386: bool, rec: ElfReloc): nat {
    LinkedSize(elf386, rec.typ)
  }

  /** What a linker makes of the number, with section k placed at base(k): 1 stands for the place of the
      symbol plus the addend, 2 and 21 for its distance from the field. The 386 keeps addends in fields. */
  function Link(elf386: bool, base: nat -> int, s: nat, data: seq<byte>, rec: ElfReloc): (r: seq<byte>)
    ensures |r| == |data|
  {
    var size := LinkedSize(elf386, rec.typ);
    if size == 0 || rec.offset + size > |data| then data
    else if size == 8 then
      var value := base(rec.symbol) + rec.addend;
      Put32(Put32(data, rec.offset, value), rec.offset + 4, value / WORD)
    else
      var addend := if elf386 then SignedN(GetN(data, rec.offset, size), size) else rec.addend;
      PutN(data, rec.offset, size, base(rec.symbol) + addend - (if rec.typ == 1 then 0 else base(s) + rec.offset))
  }

  /** How many bytes of addend the 386 writer stores in a field. */
  function StoredSize(rec: ElfReloc): nat {
    if rec.typ == 21 then 2 else 4
  }

  function Store(data: seq<byte>, rec: ElfReloc): (r: seq<byte>)
    ensures |r| == |data|
  {
    var size := StoredSize(rec);
    if rec.offset + size > |data| then data else PutN(data, rec.offset, size, GetN(data, rec.offset, size) + rec.addend)
  }

  /** One relocation of section s, either as the 386 writer stores its addend in the field, or linked. */
  function Pass(elf386: bool, linking: bool, base: nat -> int, s: nat, data: seq<byte>, rec: ElfReloc): (r: seq<byte>)
    ensures |r| == |data|
  {
    if linking then Link(elf386, base, s, data, rec) else Store(data, rec)
  }

  /** The relocation is relative to its field, by its number. */
  predicate Relative(elf386: bool, rec: ElfReloc) {
    rec.typ == 2 || (elf386 && rec.typ == 21)
  }

  lemma RelativeSize(elf386: bool, rec: ElfReloc)
    requires Relative(elf386, rec)
    ensures RecordSize(elf386, rec) == 2 || RecordSize(elf386, rec) == 4
    ensures elf386 ==> StoredSize(rec) == RecordSize(elf386, rec)
  {
  }

  function Passes(elf386: bool, linking: bool, base: nat -> int, s: nat, data: seq<byte>, recs: seq<ElfReloc>, n: nat): (r: seq<byte>)
    requires n <= |recs|
    ensures |r| == |data|
  {
    if n == 0 then data else Pass(elf386, linking, base, s, Passes(elf386, linking, base, s, data, recs, n - 1), recs[n - 1])
  }

  /** A section's bytes in the loaded program. */
  function Loaded(elf386: bool, base: nat -> int, s: nat, data: seq<byte>, recs: seq<ElfReloc>): seq<byte> {
    var stored := if elf386 then Passes(elf386, false, base, s, data, recs, |recs|) else data;
    Passes(elf386, true, base, s, stored, recs, |recs|)
  }

  predicate RecordApart(elf386: bool, rec: ElfReloc, offset: nat, size: nat) {
    Relative(elf386, rec) && (rec.offset + RecordSize(elf386, rec) <= offset || offset + size <= rec.offset)
  }

  lemma PassApart(elf386: bool, linking: bool, base: nat -> int, s: nat, data: seq<byte>, rec: ElfReloc, offset: nat, size: nat)
    requires (size == 2 || size == 4) && offset + size <= |data| && RecordApart(elf386, rec, offset, size) && (linking || elf386)
    ensures GetN(Pass(elf386, linking, base, s, data, rec), offset, size) == GetN(data, offset, size)
  {
    RelativeSize(elf386, rec);
    var n := RecordSize(elf386, rec);
    if rec.offset + n <= |data| {
      var v := if !linking then GetN(data, rec.offset, n) + rec.addend
               else base(rec.symbol) + (if elf386 then SignedN(GetN(data, rec.offset, n), n) else rec.addend) - (base(s) + rec.offset);
      hide PutN, GetN, SignedN;
      PutApart(data, rec.offset, n, v, offset, size);
    }
  }

  lemma {:induction false} PassesApart(elf386: bool, linking: bool, base: nat -> int, s: nat, data: seq<byte>, recs: seq<ElfReloc>, n: nat,
                                       offset: nat, size: nat)
    requires n <= |recs| && (size == 2 || size == 4) && offset + size <= |data| && (linking || elf386)
    requires forall k :: 0 <= k < n ==> RecordApart(elf386, recs[k], offset, size)
    ensures GetN(Passes(elf386, linking, base, s, data, recs, n), offset, size) == GetN(data, offset, size)
  {
    hide Pass, GetN, RecordApart;
    if n > 0 {
      PassesApart(elf386, linking, base, s, data, recs, n - 1, offset, size);
      PassApart(elf386, linking, base, s, Passes(elf386, linking, base, s, data, recs, n - 1), recs[n - 1], offset, size);
    }
  }

  /** What one pass leaves in the field of a relocation. */
  function PassValue(elf386: bool, linking: bool, base: nat -> int, s: nat, rec: ElfReloc, word: int): int
    requires Relative(elf386, rec)
  {
    var size := RecordSize(elf386, rec);
    (if !linking then word + rec.addend
     else base(rec.symbol) + (if elf386 then SignedN(word, size) else rec.addend) - (base(s) + rec.offset)) % Span(size)
  }

  lemma PassField(elf386: bool, linking: bool, base: nat -> int, s: nat, data: seq<byte>, rec: ElfReloc)
    requires rec.offset + RecordSize(elf386, rec) <= |data| && (linking || elf386) && Relative(elf386, rec)
    ensures RecordSize(elf386, rec) == 2 || RecordSize(elf386, rec) == 4
    ensures GetN(Pass(elf386, linking, base, s, data, rec), rec.offset, RecordSize(elf386, rec))
         == PassValue(elf386, linking, base, s, rec, GetN(data, rec.offset, RecordSize(elf386, rec)))
  {
    RelativeSize(elf386, rec);
    var size := RecordSize(elf386, rec);
    var word := GetN(data, rec.offset, size);
    var v := if !linking then word + rec.addend
             else base(rec.symbol) + (if elf386 then SignedN(word, size) else rec.addend) - (base(s) + rec.offset);
    hide PutN, GetN, SignedN;
    GetPutN(data, rec.offset, size, v);
  }

  lemma {:induction false} PassesField(elf386: bool, linking: bool, base: nat -> int, s: nat, data: seq<byte>, recs: seq<ElfReloc>, n: nat, k: nat)
    requires k < n <= |recs| && recs[k].offset + RecordSize(elf386, recs[k]) <= |data| && (linking || elf386) && Relative(elf386, recs[k])
    requires forall j :: 0 <= j < |recs| && j != k ==> RecordApart(elf386, recs[j], recs[k].offset, RecordSize(elf386, recs[k]))
    ensures GetN(Passes(elf386, linking, base, s, data, recs, n), recs[k].offset, RecordSize(elf386, recs[k]))
         == PassValue(elf386, linking, base, s, recs[k], GetN(data, recs[k].offset, RecordSize(elf386, recs[k])))
    decreases n
  {
    var rec := recs[k];
    RelativeSize(elf386, rec);
    var size := RecordSize(elf386, rec);
    var before := Passes(elf386, linking, base, s, data, recs, n - 1);
    if k == n - 1 {
      hide Pass, PassValue, GetN, RecordApart;
      PassesApart(elf386, linking, base, s, data, recs, n - 1, rec.offset, size);
      PassField(elf386, linking, base, s, before, rec);
    } else {
      hide GetN, Pass, PassValue, RecordApart, Relative, RecordSize;
      PassesField(elf386, linking, base, s, data, recs, n - 1, k);
      PassApart(elf386, linking, base, s, before, recs[n - 1], rec.offset, size);
    }
  }

  lemma AddModulo(a: int, b: int, m: int)
    requires m > 0
    ensures (a % m + b) % m == (a + b) % m
    ensures (a % m - m + b) % m == (a + b) % m
  {
    var q, r := (a + b) / m, (a + b) % m;
    assert a + b == q * m + r && a == a / m * m + a % m;
    assert a % m + b == (q - a / m) * m + r by {
      assert (q - a / m) * m == q * m - a / m * m;
    }
    QuotientUnique(a % m + b, m, q - a / m, r);
    assert a % m - m + b == (q - a / m - 1) * m + r by {
      assert (q - a / m - 1) * m == (q - a / m) * m - m;
    }
    QuotientUnique(a % m - m + b, m, q - a / m - 1, r);
  }

  /** A relocation's field in the loaded program, starting from zero: the place of its symbol
      plus its addend, relative to the field. */
  lemma LoadedRecord(elf386: bool, base: nat -> int, s: nat, data: seq<byte>, recs: seq<ElfReloc>, k: nat)
    requires k < |recs| && recs[k].offset + RecordSize(elf386, recs[k]) <= |data| && Relative(elf386, recs[k])
    requires forall j :: 0 <= j < |recs| && j != k ==> RecordApart(elf386, recs[j], recs[k].offset, RecordSize(elf386, recs[k]))
    requires GetN(data, recs[k].offset, RecordSize(elf386, recs[k])) == 0
    ensures GetN(Loaded(elf386, base, s, data, recs), recs[k].offset, RecordSize(elf386, recs[k]))
         == (base(recs[k].symbol) + recs[k].addend - (base(s) + recs[k].offset)) % Span(RecordSize(elf386, recs[k]))
  {
    hide GetN, Passes;
    var rec, size := recs[k], RecordSize(elf386, recs[k]);
    var stored := if elf386 then Passes(elf386, false, base, s, data, recs, |recs|) else data;
    PassesField(elf386, true, base, s, stored, recs, |recs|, k);
    if elf386 {
      PassesField(elf386, false, base, s, data, recs, |recs|, k);
      AddModulo(rec.addend, base(rec.symbol) - (base(s) + rec.offset), Span(size));
    }
  }

  lemma {:induction false} OwnerOf(c: Config, m: seq<Placed>, labelPos: seq<int>, relocs: seq<Reloc>, n: nat, s: nat, i: nat) returns (k: nat)
    requires i < n <= |relocs| && (forall j :: 0 <= j < |relocs| ==> RefOf(c, m, labelPos, relocs[j]).Some?)
    requires R(c, m, labelPos, relocs, i).section == s && R(c, m, labelPos, relocs, i).tsection != s
    ensures k < |Owners(c, m, labelPos, relocs, n, s)| && Owners(c, m, labelPos, relocs, n, s)[k] == i
    decreases n
  {
    hide RefOf;
    if i == n - 1 {
      k := |Owners(c, m, labelPos, relocs, n - 1, s)|;
    } else {
      k := OwnerOf(c, m, labelPos, relocs, n - 1, s, i);
    }
  }

  lemma {:induction false} OwnersSource(c: Config, m: seq<Placed>, labelPos: seq<int>, relocs: seq<Reloc>, n: nat, s: nat, k: nat)
    requires n <= |relocs| && (forall j :: 0 <= j < |relocs| ==> RefOf(c, m, labelPos, relocs[j]).Some?)
    requires k < |Owners(c, m, labelPos, relocs, n, s)|
    ensures var i := Owners(c, m, labelPos, relocs, n, s)[k];
      i < |relocs| && R(c, m, labelPos, relocs, i).section == s && R(c, m, labelPos, relocs, i).tsection != s
  {
    hide RefOf;
    if k < |Owners(c, m, labelPos, relocs, n - 1, s)| {
      OwnersSource(c, m, labelPos, relocs, n - 1, s, k);
    }
  }

  lemma RecordSpan(c: Config, f: Ref, r: Reloc, addend: int)
    requires f.size == FieldSize(c, r)
    ensures Relative(c.elf386, RecordOf(f, addend)) && RecordSize(c.elf386, RecordOf(f, addend)) == f.size
  {
  }

  /** Relocations of one section have disjoint fields, and are disjoint from every other field. */
  lemma RecordsApart(c: Config, m: seq<Placed>, labelPos: seq<int>, sections: seq<Section>, relocs: seq<Reloc>, s: nat,
                     recs: seq<ElfReloc>, j: nat, i: nat)
    requires GoodRefs(c, m, labelPos, sections, relocs) && j < |recs| && i < |relocs| && R(c, m, labelPos, relocs, i).section == s
    requires RecordsAre(c, m, labelPos, sections, relocs, Owners(c, m, labelPos, relocs, |relocs|, s), recs)
    requires Owners(c, m, labelPos, relocs, |relocs|, s)[j] != i
    ensures RecordApart(c.elf386, recs[j], R(c, m, labelPos, relocs, i).offset, R(c, m, labelPos, relocs, i).size)
  {
    var o := Owners(c, m, labelPos, relocs, |relocs|, s)[j];
    OwnersSource(c, m, labelPos, relocs, |relocs|, s, j);
    var f := R(c, m, labelPos, relocs, o);
    RecordSpan(c, f, relocs[o], FieldAddend(sections[f.section].data, f.offset, f.size));
    assert DisjointRefs(R(c, m, labelPos, relocs, o), R(c, m, labelPos, relocs, i));
  }

  /** A displacement patched in place is not disturbed by the relocations of its section, and does
      not depend on where the section goes. */
  lemma PatchedInPlace(elf386: bool, base: nat -> int, f: Ref, data: seq<byte>, recs: seq<ElfReloc>, addend: int)
    requires f.section == f.tsection && (f.size == 2 || f.size == 4) && f.offset + f.size <= |data|
    requires forall j :: 0 <= j < |recs| ==> RecordApart(elf386, recs[j], f.offset, f.size)
    requires GetN(data, f.offset, f.size) == (f.toffset + addend - (f.offset + f.size)) % Span(f.size)
    ensures GetN(Loaded(elf386, base, f.section, data, recs), f.offset, f.size)
         == (base(f.tsection) + f.toffset + addend - (base(f.section) + f.offset + f.size)) % Span(f.size)
  {
    hide GetN, Passes, RecordApart;
    var stored := if elf386 then Passes(elf386, false, base, f.section, data, recs, |recs|) else data;
    if elf386 {
      PassesApart(elf386, false, base, f.section, data, recs, |recs|, f.offset, f.size);
    }
    PassesApart(elf386, true, base, f.section, stored, recs, |recs|, f.offset, f.size);
  }

  /** The relocation that replaces a displacement computes it from the final addresses. */
  lemma LinkedLater(elf386: bool, base: nat -> int, f: Ref, data: seq<byte>, recs: seq<ElfReloc>, addend: int, k: nat)
    requires (f.size == 2 || f.size == 4) && f.offset + f.size <= |data| && k < |recs|
    requires recs[k] == RecordOf(f, addend) && Relative(elf386, recs[k]) && RecordSize(elf386, recs[k]) == f.size
    requires forall j :: 0 <= j < |recs| && j != k ==> RecordApart(elf386, recs[j], f.offset, f.size)
    requires GetN(data, f.offset, f.size) == 0
    ensures GetN(Loaded(elf386, base, f.section, data, recs), f.offset, f.size)
         == (base(f.tsection) + f.toffset + addend - (base(f.section) + f.offset + f.size)) % Span(f.size)
  {
    hide GetN, Loaded, RecordApart, RecordSize;
    LoadedRecord(elf386, base, f.section, data, recs, k);
  }

  /** The two ways a reference ends up after resolving, with everything else in its section apart. */
  lemma ResolvedReference(c: Config, m: seq<Placed>, labelPos: seq<int>, sections: seq<Section>, relocs: seq<Reloc>, now: seq<Section>, i: nat)
    returns (k: nat)
    requires GoodRefs(c, m, labelPos, sections, relocs) && i < |relocs|
    requires forall s :: 0 <= s < |sections| ==> sections[s].relocations == []
    requires Some(now) == ResolveAll(c, m, labelPos, sections, relocs, |relocs|)
    ensures |now| == |sections| && RefOf(c, m, labelPos, relocs[i]).Some?
    ensures var f := R(c, m, labelPos, relocs, i);
      && (f.size == 2 || f.size == 4) && f.section < |sections| && f.offset + f.size <= |sections[f.section].data| == |now[f.section].data|
      && (var addend := FieldAddend(sections[f.section].data, f.offset, f.size);
          var recs := now[f.section].relocations;
          && (forall j :: 0 <= j < |recs| && (f.section == f.tsection || j != k) ==> RecordApart(c.elf386, recs[j], f.offset, f.size))
          && GetN(now[f.section].data, f.offset, f.size)
             == (if f.section == f.tsection then (f.toffset + addend - (f.offset + f.size)) % Span(f.size) else 0)
          && (f.section != f.tsection ==>
               k < |recs| && recs[k] == RecordOf(f, addend) && Relative(c.elf386, recs[k]) && RecordSize(c.elf386, recs[k]) == f.size))
  {
    var f := R(c, m, labelPos, relocs, i);
    ResolvedField(c, m, labelPos, sections, relocs, |relocs|, now, i);
    ResolvedRecords(c, m, labelPos, sections, relocs, |relocs|, now, f.section);
    RefSize(c, m, labelPos, relocs[i]);
    assert forall j :: 0 <= j < |relocs| ==> RefOf(c, m, labelPos, relocs[j]).Some?;
    var recs := now[f.section].relocations;
    var owners := Owners(c, m, labelPos, relocs, |relocs|, f.section);
    k := 0;
    if f.section != f.tsection {
      k := OwnerOf(c, m, labelPos, relocs, |relocs|, f.section, i);
      RecordSpan(c, f, relocs[i], FieldAddend(sections[f.section].data, f.offset, f.size));
    }
    hide RefOf, GoodRefs, ResolveAll, GetN, FieldAddend, RecordApart, RecordOf;
    forall j | 0 <= j < |recs| && (f.section == f.tsection || j != k)
      ensures RecordApart(c.elf386, recs[j], f.offset, f.size)
    {
      OwnersSource(c, m, labelPos, relocs, |relocs|, f.section, j);
      RecordsApart(c, m, labelPos, sections, relocs, f.section, recs, j, i);
    }
  }

  /** Sections can be placed anywhere: for every assignment of base addresses, each label field of
      the loaded program holds the distance from its own end to its target, plus its addend. */
  lemma PlacementIndependent(c: Config, m: seq<Placed>, labelPos: seq<int>, sections: seq<Section>, relocs: seq<Reloc>, now: seq<Section>,
                             base: nat -> int, i: nat)
    requires GoodRefs(c, m, labelPos, sections, relocs) && i < |relocs|
    requires forall s :: 0 <= s < |sections| ==> sections[s].relocations == []
    requires Some(now) == ResolveAll(c, m, labelPos, sections, relocs, |relocs|)
    ensures |now| == |sections| && RefOf(c, m, labelPos, relocs[i]).Some?
    ensures var f := R(c, m, labelPos, relocs, i);
      && (f.size == 2 || f.size == 4) && f.section < |sections| && f.offset + f.size <= |sections[f.section].data| == |now[f.section].data|
      && GetN(Loaded(c.elf386, base, f.section, now[f.section].data, now[f.section].relocations), f.offset, f.size)
         == (base(f.tsection) + f.toffset + FieldAddend(sections[f.section].data, f.offset, f.size)
             - (base(f.section) + f.offset + f.size)) % Span(f.size)
  {
    hide RefOf, GoodRefs, ResolveAll, GetN, FieldAddend, RecordApart, RecordOf, Loaded, RecordSize;
    var k := ResolvedReference(c, m, labelPos, sections, relocs, now, i);
    var f := R(c, m, labelPos, relocs, i);
    var addend := FieldAddend(sections[f.section].data, f.offset, f.size);
    if f.section == f.tsection {
      PatchedInPlace(c.elf386, base, f, now[f.section].data, now[f.section].relocations, addend);
    } else {
      LinkedLater(c.elf386, base, f, now[f.section].data, now[f.section].relocations, addend, k);
    }
  }

  lemma RefSize(c: Config, m: seq<Placed>, labelPos: seq<int>, r: Reloc)
    requires RefOf(c, m, labelPos, r).Some?
    ensures RefOf(c, m, labelPos, r).value.size == FieldSize(c, r)
  {
  }

  // ---- Where good references come from

  /** Fields that are apart in the flat code, each within one placed stretch, are apart in the sections. */
  lemma FieldsStayApart(c: Config, m: seq<Placed>, sections: seq<Section>, labelPos: seq<int>, r: Reloc, q: Reloc)
    requires Extents(sections, m) && RefOf(c, m, labelPos, r).Some? && RefOf(c, m, labelPos, q).Some?
    requires NotCut(m, Unmark(r.at), FieldSize(c, r)) && NotCut(m, Unmark(q.at), FieldSize(c, q))
    requires Unmark(r.at) + FieldSize(c, r) <= Unmark(q.at) || Unmark(q.at) + FieldSize(c, q) <= Unmark(r.at)
    ensures DisjointRefs(RefOf(c, m, labelPos, r).value, RefOf(c, m, labelPos, q).value)
  {
    var i := MapOwner(m, Unmark(r.at), 0);
    var j := MapOwner(m, Unmark(q.at), 0);
    assert m[i].end >= Unmark(r.at) + FieldSize(c, r) && m[j].end >= Unmark(q.at) + FieldSize(c, q);
  }

  /** No placed stretch ends inside a field that starts in it. */
  ghost predicate NotCut(m: seq<Placed>, at: int, size: nat) {
    forall k :: 0 <= k < |m| && m[k].start <= at < m[k].end ==> at + size <= m[k].end
  }

  /** A field lies in the code, and no range begins or ends inside it. */
  ghost predicate WholeField(code: seq<byte>, ranges: seq<CodeRange>, at: int, size: nat) {
    && 0 <= at && at + size <= |code|
    && (forall k :: 0 <= k < |ranges| ==> !(at < ranges[k].start < at + size) && !(at < ranges[k].end < at + size))
  }

  /** The fields of the references are whole and pairwise apart. */
  ghost predicate WholeFields(c: Config, code: seq<byte>, ranges: seq<CodeRange>, relocs: seq<Reloc>) {
    && (forall i :: 0 <= i < |relocs| ==> WholeField(code, ranges, Unmark(relocs[i].at), FieldSize(c, relocs[i])))
    && (forall i, j :: 0 <= i < |relocs| && 0 <= j < |relocs| && i != j ==>
         Unmark(relocs[i].at) + FieldSize(c, relocs[i]) <= Unmark(relocs[j].at)
         || Unmark(relocs[j].at) + FieldSize(c, relocs[j]) <= Unmark(relocs[i].at))
  }

  /** The referenced labels are in the code, not at its end. */
  predicate LabelsInCode(code: seq<byte>, labelPos: seq<int>, relocs: seq<Reloc>) {
    forall i :: 0 <= i < |relocs| ==> 0 <= LabelPosition(labelPos, Unmark(relocs[i].lbl)) < |code|
  }

  /** Since only range ends are cuts, a whole field is within one stretch. */
  lemma WholeIsNotCut(code: seq<byte>, ranges: seq<CodeRange>, cuts: seq<int>, sections: seq<Section>, m: seq<Placed>, at: int, size: nat)
    requires CodePlaced(code, ranges, cuts, sections, m) && WholeField(code, ranges, at, size)
    ensures NotCut(m, at, size)
  {
    hide Extents, Holds, PlacedAsAsked, Increasing;
    forall k | 0 <= k < |m| && m[k].start <= at < m[k].end
      ensures at + size <= m[k].end
    {
      assert cuts[k + 1] in cuts;
      assert IsBoundary(code, ranges, cuts[k + 1]);
    }
  }

  lemma OutsideIsUnplaced(code: seq<byte>, ranges: seq<CodeRange>, cuts: seq<int>, sections: seq<Section>, m: seq<Placed>, position: int)
    requires CodePlaced(code, ranges, cuts, sections, m) && !(0 <= position < |code|)
    ensures MapFrom(m, position, 0).None?
  {
    hide IsCuts, Extents, PlacedAsAsked, MapFrom;
    if MapFrom(m, position, 0).Some? {
      var k := MapOwner(m, position, 0);
      StretchHolds(code, ranges, cuts, sections, m, k);
    }
  }

  /** A whole field of the placed code lies in its section, with its bytes, also after more has
      been placed. */
  lemma FieldPlaced(code: seq<byte>, ranges: seq<CodeRange>, cuts: seq<int>, placed: seq<Section>, m: seq<Placed>, sections: seq<Section>,
                    at: int, size: nat)
    requires CodePlaced(code, ranges, cuts, placed, m) && Grows(placed, sections)
    requires WholeField(code, ranges, at, size) && (size == 2 || size == 4)
    ensures MapFrom(m, at, 0).Some?
    ensures var (s, offset) := MapFrom(m, at, 0).value;
      && s < |sections| && 0 <= offset && offset + size <= |sections[s].data|
      && sections[s].data[offset..offset + size] == code[at..at + size]
  {
    hide CodePlaced, WholeField, Grows, MapFrom, Holds;
    WholeInCode(code, ranges, at, size);
    var k := CodeMapIsTotal(code, ranges, cuts, placed, m, at);
    WholeIsNotCut(code, ranges, cuts, placed, m, at, size);
    StretchHolds(code, ranges, cuts, placed, m, k);
    HoldsStays(placed, sections, code, m[k]);
    GrowsLength(placed, sections);
    HoldsPart(sections, code, m[k], at, size);
  }

  lemma WholeInCode(code: seq<byte>, ranges: seq<CodeRange>, at: int, size: nat)
    requires WholeField(code, ranges, at, size)
    ensures 0 <= at && at + size <= |code|
  {
  }

  lemma GrowsLength(a: seq<Section>, b: seq<Section>)
    requires Grows(a, b)
    ensures |a| <= |b|
  {
  }

  lemma HoldsPart(sections: seq<Section>, code: seq<byte>, p: Placed, at: int, size: nat)
    requires Holds(sections, code, p) && p.start <= at && at + size <= p.end
    ensures var offset, data := p.local + at - p.start, sections[p.section].data;
      offset + size <= |data| && data[offset..offset + size] == code[at..at + size]
  {
    var data := sections[p.section].data;
    var x := at - p.start;
    SliceOfSlice(data, p.local, p.local + (p.end - p.start), x, x + size);
    SliceOfSlice(code, p.start, p.end, x, x + size);
  }

  lemma SliceOfSlice(s: seq<byte>, lo: nat, hi: nat, x: nat, y: nat)
    requires lo <= hi <= |s| && x <= y <= hi - lo
    ensures s[lo..hi][x..y] == s[lo + x..lo + y]
  {
    assert forall i :: 0 <= i < y - x ==> s[lo..hi][x..y][i] == s[lo + x..lo + y][i];
  }

  /** The same bytes hold the same word. */
  lemma SameField(s: seq<byte>, at: nat, t: seq<byte>, at': nat, size: nat)
    requires (size == 2 || size == 4) && at + size <= |s| && at' + size <= |t| && s[at..at + size] == t[at'..at' + size]
    ensures FieldAddend(s, at, size) == FieldAddend(t, at', size)
  {
    var a, b := s[at..at + size], t[at'..at' + size];
    assert a[0] == b[0] && a[1] == b[1];
    if size == 4 {
      assert a[2] == b[2] && a[3] == b[3];
    }
  }

  /** References whose fields are whole and apart, to labels in the code, are placed, lie in their
      sections and do not overlap there. */
  lemma PlacedRefsAreGood(c: Config, code: seq<byte>, ranges: seq<CodeRange>, cuts: seq<int>, placed: seq<Section>, m: seq<Placed>,
                          sections: seq<Section>, labelPos: seq<int>, relocs: seq<Reloc>)
    requires CodePlaced(code, ranges, cuts, placed, m) && Grows(placed, sections)
    requires WholeFields(c, code, ranges, relocs) && LabelsInCode(code, labelPos, relocs)
    ensures GoodRefs(c, m, labelPos, sections, relocs)
  {
    hide CodePlaced, WholeField, Grows, MapFrom, NotCut, DisjointRefs, Extents, FieldSize, Unmark;
    forall i | 0 <= i < |relocs|
      ensures RefOf(c, m, labelPos, relocs[i]).Some? && NotCut(m, Unmark(relocs[i].at), FieldSize(c, relocs[i]))
      ensures var f := RefOf(c, m, labelPos, relocs[i]).value;
        f.section < |sections| && (f.size == 2 || f.size == 4) && f.offset + f.size <= |sections[f.section].data|
    {
      FieldSizes(c, relocs[i]);
      FieldPlaced(code, ranges, cuts, placed, m, sections, Unmark(relocs[i].at), FieldSize(c, relocs[i]));
      WholeIsNotCut(code, ranges, cuts, placed, m, Unmark(relocs[i].at), FieldSize(c, relocs[i]));
      var k := CodeMapIsTotal(code, ranges, cuts, placed, m, LabelPosition(labelPos, Unmark(relocs[i].lbl)));
    }
    PlacementFits(code, ranges, cuts, placed, m, sections);
    forall i, j | 0 <= i < |relocs| && 0 <= j < |relocs| && i != j
      ensures DisjointRefs(RefOf(c, m, labelPos, relocs[i]).value, RefOf(c, m, labelPos, relocs[j]).value)
    {
      FieldsStayApart(c, m, sections, labelPos, relocs[i], relocs[j]);
    }
  }

  lemma FieldSizes(c: Config, r: Reloc)
    ensures FieldSize(c, r) == 2 || FieldSize(c, r) == 4
  {
  }

  lemma PlacementFits(code: seq<byte>, ranges: seq<CodeRange>, cuts: seq<int>, placed: seq<Section>, m: seq<Placed>, sections: seq<Section>)
    requires CodePlaced(code, ranges, cuts, placed, m) && Grows(placed, sections)
    ensures Extents(sections, m) && InSections(sections, m)
  {
    ExtentsStay(placed, sections, m);
  }

  // ---- When resolving succeeds

  /** A two-byte displacement inside a section is within sixteen bits. */
  predicate ShortFits(code: seq<byte>, c: Config, m: seq<Placed>, labelPos: seq<int>, r: Reloc) {
    var source, target := MapFrom(m, Unmark(r.at), 0), MapFrom(m, LabelPosition(labelPos, Unmark(r.lbl)), 0);
    FieldSize(c, r) == 2 && source.Some? && target.Some? && source.value.0 == target.value.0 && Unmark(r.at) + 2 <= |code| ==>
      -32768 <= target.value.1 + FieldAddend(code, Unmark(r.at), 2) - (source.value.1 + 2) <= 32767
  }

  /** With every reference placed, only a two-byte displacement can fail, by its own distance. */
  lemma {:induction false} ResolvesWhenFitting(c: Config, m: seq<Placed>, labelPos: seq<int>, sections: seq<Section>, relocs: seq<Reloc>, n: nat)
    requires GoodRefs(c, m, labelPos, sections, relocs) && n <= |relocs|
    ensures ResolveAll(c, m, labelPos, sections, relocs, n).Some? <==> forall i :: 0 <= i < n ==> DistanceFits(c, m, labelPos, sections, relocs, i)
  {
    hide RefOf, ResolveOne, GetN, FieldAddend, DisjointRefs;
    if n > 0 {
      ResolvesWhenFitting(c, m, labelPos, sections, relocs, n - 1);
      if ResolveAll(c, m, labelPos, sections, relocs, n - 1).Some? {
        var before := ResolveAll(c, m, labelPos, sections, relocs, n - 1).value;
        Untouched(c, m, labelPos, sections, relocs, n - 1, before, R(c, m, labelPos, relocs, n - 1));
        OneResolves(c, m, labelPos, before, relocs[n - 1]);
        assert ResolveAll(c, m, labelPos, sections, relocs, n).Some? <==> DistanceFits(c, m, labelPos, sections, relocs, n - 1);
      }
    }
  }

  ghost predicate DistanceFits(c: Config, m: seq<Placed>, labelPos: seq<int>, sections: seq<Section>, relocs: seq<Reloc>, i: nat)
    requires GoodRefs(c, m, labelPos, sections, relocs) && i < |relocs|
  {
    var f := R(c, m, labelPos, relocs, i);
    f.size == 2 && f.section == f.tsection ==>
      -32768 <= f.toffset + FieldAddend(sections[f.section].data, f.offset, f.size) - (f.offset + f.size) <= 32767
  }

  lemma OneResolves(c: Config, m: seq<Placed>, labelPos: seq<int>, sections: seq<Section>, r: Reloc)
    requires InSections(sections, m) && RefOf(c, m, labelPos, r).Some?
    requires var f := RefOf(c, m, labelPos, r).value; f.section < |sections| && (f.size == 2 || f.size == 4) && f.offset + f.size <= |sections[f.section].data|
    ensures var f := RefOf(c, m, labelPos, r).value;
      ResolveOne(c, m, labelPos, sections, r).Some? <==>
      (f.size == 2 && f.section == f.tsection ==>
        -32768 <= f.toffset + FieldAddend(sections[f.section].data, f.offset, f.size) - (f.offset + f.size) <= 32767)
  {
    hide RefOf, FieldAddend, PutN, RecordOf;
  }

  /** Resolving the references of placed code succeeds exactly when every referenced label is in
      the code and every two-byte displacement inside a section is within sixteen bits. */
  lemma ResolvesExactly(c: Config, code: seq<byte>, ranges: seq<CodeRange>, cuts: seq<int>, placed: seq<Section>, m: seq<Placed>,
                        sections: seq<Section>, labelPos: seq<int>, relocs: seq<Reloc>)
    requires CodePlaced(code, ranges, cuts, placed, m) && Grows(placed, sections) && WholeFields(c, code, ranges, relocs)
    ensures InSections(sections, m)
    ensures ResolveAll(c, m, labelPos, sections, relocs, |relocs|).Some?
      <==> LabelsInCode(code, labelPos, relocs) && forall i :: 0 <= i < |relocs| ==> ShortFits(code, c, m, labelPos, relocs[i])
  {
    hide CodePlaced, Grows, MapFrom, FieldSize, Unmark, ResolveOne, ResolveAll, GoodRefs, DistanceFits, ShortFits, RefOf;
    PlacementFits(code, ranges, cuts, placed, m, sections);
    if LabelsInCode(code, labelPos, relocs) {
      PlacedRefsAreGood(c, code, ranges, cuts, placed, m, sections, labelPos, relocs);
      ResolvesWhenFitting(c, m, labelPos, sections, relocs, |relocs|);
      forall i | 0 <= i < |relocs|
        ensures DistanceFits(c, m, labelPos, sections, relocs, i) <==> ShortFits(code, c, m, labelPos, relocs[i])
      {
        SameDistance(c, code, ranges, cuts, placed, m, sections, labelPos, relocs, i);
      }
    } else {
      var i :| 0 <= i < |relocs| && !(0 <= LabelPosition(labelPos, Unmark(relocs[i].lbl)) < |code|);
      OutsideIsUnplaced(code, ranges, cuts, placed, m, LabelPosition(labelPos, Unmark(relocs[i].lbl)));
      UnplacedFails(c, m, labelPos, sections, relocs, i);
    }
  }

  lemma UnplacedFails(c: Config, m: seq<Placed>, labelPos: seq<int>, sections: seq<Section>, relocs: seq<Reloc>, i: nat)
    requires InSections(sections, m) && i < |relocs| && MapFrom(m, LabelPosition(labelPos, Unmark(relocs[i].lbl)), 0).None?
    ensures ResolveAll(c, m, labelPos, sections, relocs, |relocs|).None?
  {
    ResolveStops(c, m, labelPos, sections, relocs, i + 1, |relocs|);
  }

  lemma SameDistance(c: Config, code: seq<byte>, ranges: seq<CodeRange>, cuts: seq<int>, placed: seq<Section>, m: seq<Placed>,
                     sections: seq<Section>, labelPos: seq<int>, relocs: seq<Reloc>, i: nat)
    requires CodePlaced(code, ranges, cuts, placed, m) && Grows(placed, sections) && WholeFields(c, code, ranges, relocs)
    requires GoodRefs(c, m, labelPos, sections, relocs) && i < |relocs|
    ensures DistanceFits(c, m, labelPos, sections, relocs, i) <==> ShortFits(code, c, m, labelPos, relocs[i])
  {
    hide CodePlaced, Grows, MapFrom, FieldAddend, Unmark, WholeField;
    var at, size := Unmark(relocs[i].at), FieldSize(c, relocs[i]);
    FieldPlaced(code, ranges, cuts, placed, m, sections, at, size);
    WholeInCode(code, ranges, at, size);
    var f := R(c, m, labelPos, relocs, i);
    SameField(sections[f.section].data, f.offset, code, at, size);
  }

  // ---- From the flat code to the loaded program

  /** Where a position of the flat code is in the loaded program. */
  function Address(base: nat -> int, m: seq<Placed>, position: int): int
    requires MapFrom(m, position, 0).Some?
  {
    base(MapFrom(m, position, 0).value.0) + MapFrom(m, position, 0).value.1
  }

  /** A reference does in the loaded program what it says in the flat code: its field holds the
      distance from its own end to its label, plus the addend that stood in the code. */
  ghost predicate ReachesLabel(c: Config, code: seq<byte>, m: seq<Placed>, labelPos: seq<int>, sections: seq<Section>, base: nat -> int, r: Reloc) {
    var at, target := r.at % HALF, LabelPosition(labelPos, r.lbl % HALF);
    var size := if c.elf386 && c.code16 && r.at < 0 then 2 else 4;
    && at + size <= |code| && MapFrom(m, at, 0).Some? && MapFrom(m, target, 0).Some?
    && var (s, offset) := MapFrom(m, at, 0).value;
    && s < |sections| && 0 <= offset && offset + size <= |sections[s].data|
    && GetN(Loaded(c.elf386, base, s, sections[s].data, sections[s].relocations), offset, size)
       == (Address(base, m, target) + FieldAddend(code, at, size) - (Address(base, m, at) + size)) % Span(size)
  }

  /** Code that was placed and resolved works wherever its sections are loaded. */
  lemma LoadedAnywhere(c: Config, code: seq<byte>, ranges: seq<CodeRange>, cuts: seq<int>, placed: seq<Section>, m: seq<Placed>,
                       sections: seq<Section>, labelPos: seq<int>, relocs: seq<Reloc>, now: seq<Section>, base: nat -> int, i: nat)
    requires CodePlaced(code, ranges, cuts, placed, m) && Grows(placed, sections) && WholeFields(c, code, ranges, relocs)
    requires forall s :: 0 <= s < |sections| ==> sections[s].relocations == []
    requires i < |relocs| && InSections(sections, m) && Some(now) == ResolveAll(c, m, labelPos, sections, relocs, |relocs|)
    ensures ReachesLabel(c, code, m, labelPos, now, base, relocs[i])
  {
    hide CodePlaced, Grows, MapFrom, FieldAddend, Unmark, WholeField, GetN, Loaded, ResolveAll, GoodRefs, FieldSize;
    ResolvesExactly(c, code, ranges, cuts, placed, m, sections, labelPos, relocs);
    PlacedRefsAreGood(c, code, ranges, cuts, placed, m, sections, labelPos, relocs);
    PlacementIndependent(c, m, labelPos, sections, relocs, now, base, i);
    var at, size := Unmark(relocs[i].at), FieldSize(c, relocs[i]);
    FieldSizes(c, relocs[i]);
    Words(c, relocs[i]);
    FieldPlaced(code, ranges, cuts, placed, m, sections, at, size);
    WholeInCode(code, ranges, at, size);
    var f := R(c, m, labelPos, relocs, i);
    SameField(sections[f.section].data, f.offset, code, at, size);
  }

  lemma NoRelocationsYet(a: seq<Section>, b: seq<Section>)
    requires Grows(a, b) && forall s :: 0 <= s < |a| ==> a[s].relocations == []
    ensures forall s :: 0 <= s < |b| ==> b[s].relocations == []
  {
  }

  lemma SizedWhenFilled(sections: seq<Section>)
    requires forall i :: 0 <= i < |sections| ==> sections[i].size == |sections[i].data|
    ensures Sized(sections)
  {
  }

  lemma PlacedIsSized(code: seq<byte>, ranges: seq<CodeRange>, cuts: seq<int>, sections: seq<Section>, m: seq<Placed>)
    requires CodePlaced(code, ranges, cuts, sections, m)
    ensures |sections| >= 1 && Extents(sections, m) && forall i :: 0 <= i < |sections| ==> sections[i].size == |sections[i].data|
  {
  }

  /** The words of a reference: masked position and label, and the width of its field. */
  lemma Words(c: Config, r: Reloc)
    ensures Unmark(r.at) == r.at % HALF && Unmark(r.lbl) == r.lbl % HALF
    ensures FieldSize(c, r) == if c.elf386 && c.code16 && r.at < 0 then 2 else 4
  {
  }

  // ---- Every other byte of the code

  /** A byte of a section that belongs to no reference field. */
  ghost predicate OffFields(c: Config, m: seq<Placed>, labelPos: seq<int>, relocs: seq<Reloc>, s: nat, offset: nat) {
    forall i :: 0 <= i < |relocs| && RefOf(c, m, labelPos, relocs[i]).Some? ==>
      var f := RefOf(c, m, labelPos, relocs[i]).value; !(f.section == s && f.offset <= offset < f.offset + f.size)
  }

  lemma {:induction false} ResolvedByte(c: Config, m: seq<Placed>, labelPos: seq<int>, sections: seq<Section>, relocs: seq<Reloc>, n: nat,
                                        now: seq<Section>, s: nat, offset: nat)
    requires InSections(sections, m) && n <= |relocs| && Some(now) == ResolveAll(c, m, labelPos, sections, relocs, n)
    requires OffFields(c, m, labelPos, relocs, s, offset) && s < |sections| && offset < |sections[s].data|
    ensures |now| == |sections| && offset < |now[s].data| && now[s].data[offset] == sections[s].data[offset]
  {
    if n > 0 {
      hide RefOf, ResolveOne, SameFrames;
      var before := ResolveAll(c, m, labelPos, sections, relocs, n - 1).value;
      ResolvedByte(c, m, labelPos, sections, relocs, n - 1, before, s, offset);
      ResolvedOneByte(c, m, labelPos, before, relocs[n - 1], now, s, offset);
    }
  }

  lemma ResolvedOneByte(c: Config, m: seq<Placed>, labelPos: seq<int>, sections: seq<Section>, r: Reloc, now: seq<Section>, s: nat, offset: nat)
    requires InSections(sections, m) && Some(now) == ResolveOne(c, m, labelPos, sections, r) && s < |sections| && offset < |sections[s].data|
    requires RefOf(c, m, labelPos, r).Some? ==>
      var f := RefOf(c, m, labelPos, r).value; !(f.section == s && f.offset <= offset < f.offset + f.size)
    ensures |now| == |sections| && offset < |now[s].data| && now[s].data[offset] == sections[s].data[offset]
  {
    hide RefOf, FieldAddend, PutN, GetN, RecordOf, SameFrames;
    var f := RefOf(c, m, labelPos, r).value;
    var data := sections[f.section].data;
    GetPutN(data, f.offset, f.size, if f.section == f.tsection then f.toffset + FieldAddend(data, f.offset, f.size) - (f.offset + f.size) else 0);
  }

  /** A byte outside the field of every relocation is linked as it stands. */
  predicate ByteApart(elf386: bool, rec: ElfReloc, offset: nat) {
    Relative(elf386, rec) && !(rec.offset <= offset < rec.offset + RecordSize(elf386, rec))
  }

  lemma PassByte(elf386: bool, linking: bool, base: nat -> int, s: nat, data: seq<byte>, rec: ElfReloc, offset: nat)
    requires offset < |data| && ByteApart(elf386, rec, offset) && (linking || elf386)
    ensures Pass(elf386, linking, base, s, data, rec)[offset] == data[offset]
  {
    RelativeSize(elf386, rec);
    var n := RecordSize(elf386, rec);
    if rec.offset + n <= |data| {
      var v := if !linking then GetN(data, rec.offset, n) + rec.addend
               else base(rec.symbol) + (if elf386 then SignedN(GetN(data, rec.offset, n), n) else rec.addend) - (base(s) + rec.offset);
      hide PutN, GetN, SignedN;
      GetPutN(data, rec.offset, n, v);
    }
  }

  lemma {:induction false} PassesByte(elf386: bool, linking: bool, base: nat -> int, s: nat, data: seq<byte>, recs: seq<ElfReloc>, n: nat, offset: nat)
    requires n <= |recs| && offset < |data| && (linking || elf386) && (forall k :: 0 <= k < n ==> ByteApart(elf386, recs[k], offset))
    ensures Passes(elf386, linking, base, s, data, recs, n)[offset] == data[offset]
  {
    hide Pass, ByteApart;
    if n > 0 {
      PassesByte(elf386, linking, base, s, data, recs, n - 1, offset);
      PassByte(elf386, linking, base, s, Passes(elf386, linking, base, s, data, recs, n - 1), recs[n - 1], offset);
    }
  }

  lemma RecordsOffByte(c: Config, m: seq<Placed>, labelPos: seq<int>, sections: seq<Section>, relocs: seq<Reloc>, s: nat, recs: seq<ElfReloc>,
                       offset: nat)
    requires GoodRefs(c, m, labelPos, sections, relocs) && OffFields(c, m, labelPos, relocs, s, offset)
    requires RecordsAre(c, m, labelPos, sections, relocs, Owners(c, m, labelPos, relocs, |relocs|, s), recs)
    ensures forall k :: 0 <= k < |recs| ==> ByteApart(c.elf386, recs[k], offset)
  {
    hide RefOf, RecordOf, FieldAddend, RecordSize, Relative;
    forall k | 0 <= k < |recs|
      ensures ByteApart(c.elf386, recs[k], offset)
    {
      var o := Owners(c, m, labelPos, relocs, |relocs|, s)[k];
      OwnersSource(c, m, labelPos, relocs, |relocs|, s, k);
      var f := R(c, m, labelPos, relocs, o);
      RefSize(c, m, labelPos, relocs[o]);
      RecordSpan(c, f, relocs[o], FieldAddend(sections[f.section].data, f.offset, f.size));
      RecordStart(f, FieldAddend(sections[f.section].data, f.offset, f.size));
    }
  }

  lemma RecordStart(f: Ref, addend: int)
    ensures RecordOf(f, addend).offset == f.offset
  {
  }

  /** A position outside every field of the flat code is outside every field of the sections. */
  lemma OffFieldsPlaced(c: Config, code: seq<byte>, ranges: seq<CodeRange>, cuts: seq<int>, placed: seq<Section>, m: seq<Placed>,
                        labelPos: seq<int>, relocs: seq<Reloc>, x: nat)
    requires CodePlaced(code, ranges, cuts, placed, m) && WholeFields(c, code, ranges, relocs) && x < |code|
    requires forall i :: 0 <= i < |relocs| ==> !(Unmark(relocs[i].at) <= x < Unmark(relocs[i].at) + FieldSize(c, relocs[i]))
    ensures MapFrom(m, x, 0).Some? && MapFrom(m, x, 0).value.1 >= 0
    ensures OffFields(c, m, labelPos, relocs, MapFrom(m, x, 0).value.0, MapFrom(m, x, 0).value.1)
  {
    hide CodePlaced, WholeField, MapFrom, Unmark, FieldSize;
    var p := CodeMapIsTotal(code, ranges, cuts, placed, m, x);
    var (s, offset) := MapFrom(m, x, 0).value;
    forall i | 0 <= i < |relocs| && RefOf(c, m, labelPos, relocs[i]).Some?
      ensures var f := RefOf(c, m, labelPos, relocs[i]).value; !(f.section == s && f.offset <= offset < f.offset + f.size)
    {
      var at, size := Unmark(relocs[i].at), FieldSize(c, relocs[i]);
      WholeInCode(code, ranges, at, size);
      WholeIsNotCut(code, ranges, cuts, placed, m, at, size);
      var k := CodeMapIsTotal(code, ranges, cuts, placed, m, at);
      var f := RefOf(c, m, labelPos, relocs[i]).value;
      if f.section == s && f.offset <= offset < f.offset + f.size {
        var y := at + (offset - f.offset);
        var l := CodeMapIsTotal(code, ranges, cuts, placed, m, y);
        SameStretch(code, ranges, cuts, placed, m, at, y, k, l);
        PlacementFits(code, ranges, cuts, placed, m, placed);
        MapInjective(placed, m, x, y);
      }
    }
  }

  /** Positions of one stretch are found in it. */
  lemma SameStretch(code: seq<byte>, ranges: seq<CodeRange>, cuts: seq<int>, placed: seq<Section>, m: seq<Placed>, x: nat, y: nat, k: nat, l: nat)
    requires CodePlaced(code, ranges, cuts, placed, m) && k < |m| && l < |m|
    requires m[k].start <= x <= y < m[k].end && m[l].start <= y < m[l].end
    ensures k == l
  {
    hide CodePlaced;
    var last := CodeIsConsecutive(code, ranges, cuts, placed, m);
    StretchHolds(code, ranges, cuts, placed, m, k);
    OnlyInterval(cuts, m, y, k);
  }

  /** Every byte of the code that belongs to no reference field is in the loaded program as it was. */
  lemma LoadedByte(c: Config, code: seq<byte>, ranges: seq<CodeRange>, cuts: seq<int>, placed: seq<Section>, m: seq<Placed>,
                   sections: seq<Section>, labelPos: seq<int>, relocs: seq<Reloc>, now: seq<Section>, base: nat -> int, x: nat)
    requires CodePlaced(code, ranges, cuts, placed, m) && Grows(placed, sections) && WholeFields(c, code, ranges, relocs)
    requires forall s :: 0 <= s < |sections| ==> sections[s].relocations == []
    requires InSections(sections, m) && Some(now) == ResolveAll(c, m, labelPos, sections, relocs, |relocs|)
    requires x < |code|
    requires forall i :: 0 <= i < |relocs| ==> !(Unmark(relocs[i].at) <= x < Unmark(relocs[i].at) + FieldSize(c, relocs[i]))
    ensures KeptByte(c, code, m, now, base, x)
  {
    hide CodePlaced, WholeFields, Grows, MapFrom, GetN, ResolveAll, GoodRefs, FieldSize, Unmark, OffFields, Passes, RefOf;
    ResolvesExactly(c, code, ranges, cuts, placed, m, sections, labelPos, relocs);
    PlacedRefsAreGood(c, code, ranges, cuts, placed, m, sections, labelPos, relocs);
    OffFieldsPlaced(c, code, ranges, cuts, placed, m, labelPos, relocs, x);
    ByteStands(code, ranges, cuts, placed, m, sections, x);
    var (s, offset) := MapFrom(m, x, 0).value;
    ResolvedByte(c, m, labelPos, sections, relocs, |relocs|, now, s, offset);
    ResolvedRecords(c, m, labelPos, sections, relocs, |relocs|, now, s);
    RefsArePlaced(c, m, labelPos, sections, relocs);
    RecordsOffByte(c, m, labelPos, sections, relocs, s, now[s].relocations, offset);
    LinkedByte(c.elf386, base, s, now[s].data, now[s].relocations, offset);
  }

  lemma RefsArePlaced(c: Config, m: seq<Placed>, labelPos: seq<int>, sections: seq<Section>, relocs: seq<Reloc>)
    requires GoodRefs(c, m, labelPos, sections, relocs)
    ensures forall j :: 0 <= j < |relocs| ==> RefOf(c, m, labelPos, relocs[j]).Some?
  {
  }

  lemma LinkedByte(elf386: bool, base: nat -> int, s: nat, data: seq<byte>, recs: seq<ElfReloc>, offset: nat)
    requires offset < |data| && (forall k :: 0 <= k < |recs| ==> ByteApart(elf386, recs[k], offset))
    ensures Loaded(elf386, base, s, data, recs)[offset] == data[offset]
  {
    hide Passes, ByteApart;
    var stored := if elf386 then Passes(elf386, false, base, s, data, recs, |recs|) else data;
    if elf386 {
      PassesByte(elf386, false, base, s, data, recs, |recs|, offset);
    }
    PassesByte(elf386, true, base, s, stored, recs, |recs|, offset);
  }

  lemma ByteStands(code: seq<byte>, ranges: seq<CodeRange>, cuts: seq<int>, placed: seq<Section>, m: seq<Placed>, sections: seq<Section>, x: nat)
    requires CodePlaced(code, ranges, cuts, placed, m) && Grows(placed, sections) && x < |code|
    ensures MapFrom(m, x, 0).Some?
    ensures var (s, offset) := MapFrom(m, x, 0).value;
      s < |sections| && 0 <= offset < |sections[s].data| && sections[s].data[offset] == code[x]
  {
    hide CodePlaced, MapFrom, Holds;
    var k := CodeMapIsTotal(code, ranges, cuts, placed, m, x);
  }

  /** A byte of the flat code in the loaded program. */
  ghost predicate KeptByte(c: Config, code: seq<byte>, m: seq<Placed>, sections: seq<Section>, base: nat -> int, x: nat)
    requires x < |code|
  {
    && MapFrom(m, x, 0).Some?
    && var (s, offset) := MapFrom(m, x, 0).value;
    && s < |sections| && 0 <= offset < |sections[s].data|
    && Loaded(c.elf386, base, s, sections[s].data, sections[s].relocations)[offset] == code[x]
  }

  /** A position of the code that no reference field covers. */
  predicate OutsideFields(c: Config, relocs: seq<Reloc>, x: nat) {
    forall i :: 0 <= i < |relocs| ==>
      !(relocs[i].at % HALF <= x < relocs[i].at % HALF + if c.elf386 && c.code16 && relocs[i].at < 0 then 2 else 4)
  }

  lemma OutsideMeans(c: Config, relocs: seq<Reloc>, x: nat)
    requires OutsideFields(c, relocs, x)
    ensures forall i :: 0 <= i < |relocs| ==> !(Unmark(relocs[i].at) <= x < Unmark(relocs[i].at) + FieldSize(c, relocs[i]))
  {
  }

  /** The types of the sections of an object, by what was placed under their names. */
  ghost predicate TypesFrom(asked: seq<CodeRange>, items: seq<DataItem>, sections: seq<Section>) {
    forall name, t ::
      RangesTyped(asked, name, t) && (name == ".rodata" ==> t == 1) && ItemsTyped(items, |items|, name, t) && (name == ".bss" ==> t == 8)
      ==> NameTyped(sections, name, t)
  }

  lemma AllTypes(a: seq<Section>, b: seq<Section>, c: seq<Section>, d: seq<Section>, e: seq<Section>, asked: seq<CodeRange>, items: seq<DataItem>)
    requires |a| == 1 && CodeTypesFollow(a, b, asked) && TypesFollow(b, c, ".rodata", 1) && DataTypesFollow(c, d, items) && SameFrames(d, e)
    ensures TypesFrom(asked, items, e)
  {
    hide RangesTyped, ItemsTyped, SameFrames;
    forall name, t | RangesTyped(asked, name, t) && (name == ".rodata" ==> t == 1) && ItemsTyped(items, |items|, name, t) && (name == ".bss" ==> t == 8)
      ensures NameTyped(e, name, t)
    {
      assert NameTyped(a, name, t) && NameTyped(b, name, t) && NameTyped(c, name, t) && NameTyped(d, name, t);
      SameTypes(d, e, name, t);
    }
  }

  lemma GapsKept(a: seq<Section>, b: seq<Section>, m: seq<Placed>, declared: nat)
    requires SameFrames(a, b) && GapsPlaced(a, m, declared)
    ensures GapsPlaced(b, m, declared)
  {
    forall k | declared <= k < |m|
      ensures GapPlaced(b, m[k])
    {
      assert GapPlaced(a, m[k]);
    }
  }

  lemma ResolvedFrames(c: Config, m: seq<Placed>, labelPos: seq<int>, sections: seq<Section>, relocs: seq<Reloc>, now: seq<Section>)
    requires InSections(sections, m) && Some(now) == ResolveAll(c, m, labelPos, sections, relocs, |relocs|)
    ensures SameFrames(sections, now)
  {
  }

  /** The writer's way from the flat code to resolved sections. Whatever is loaded where, every
      reference with a field of its own reaches its label. */
  method PlaceAndResolve(w: Writer, c: Config, labelPos: seq<int>, symbols: seq<CodeSymbol>, functions: seq<FunctionRange>, strings: seq<byte>,
                         items: seq<DataItem>, bssSize: int, relocs: seq<Reloc>)
    returns (ok: bool, ghost asked: seq<CodeRange>, ghost whole: bool)
    requires w.sections == [Section("", 0, 0, 0, [], [])] && w.codeMap == [] && w.dataMap == []
    modifies w
    ensures w.code == old(w.code)
    ensures multiset(asked) == multiset(SymbolRanges(labelPos, symbols)) + multiset(FunctionRanges(labelPos, functions))
    ensures whole == WholeFields(c, w.code, asked, relocs)
    ensures whole ==>
      (ok <==> (forall k :: 0 <= k < |asked| ==> ValidRange(w.code, asked[k]))
               && AllFit(items, |items|) && ItemsInOrder(Declared(items, |items|))
               && LabelsInCode(w.code, labelPos, relocs)
               && (forall i :: 0 <= i < |relocs| ==> ShortFits(w.code, c, w.codeMap, labelPos, relocs[i])))
    ensures ok && whole ==> forall base, i :: 0 <= i < |relocs| ==> ReachesLabel(c, w.code, w.codeMap, labelPos, w.sections, base, relocs[i])
    ensures ok && whole ==> forall base, x: nat :: x < |w.code| && OutsideFields(c, relocs, x) ==> KeptByte(c, w.code, w.codeMap, w.sections, base, x)
    ensures ok ==> GapsPlaced(w.sections, w.dataMap, |Declared(items, |items|)|) && TypesFrom(asked, items, w.sections)
  {
    hide *;
    var ranges := CodeRanges(labelPos, symbols, functions);
    asked := ranges;
    whole := WholeFields(c, w.code, asked, relocs);
    ghost var start := w.sections;
    ghost var cuts;
    ok, cuts := w.PlaceCode(ranges);
    if !ok {
      return;
    }
    ghost var placed := w.sections;
    PlacedIsSized(w.code, ranges, cuts, placed, w.codeMap);
    var readOnly := w.PlaceStrings(strings);
    ghost var filled := w.sections;
    SizedWhenFilled(filled);
    var end;
    ok, end := w.PlaceData(items, bssSize);
    GrowsTransitive(placed, filled, w.sections);
    GrowsTransitive(start, placed, w.sections);
    NoRelocationsYet(start, w.sections);
    if !ok {
      return;
    }
    ghost var sections, m := w.sections, w.codeMap;
    PlacementFits(w.code, ranges, cuts, placed, m, sections);
    ok := ResolveLabels(w, c, labelPos, relocs);
    if ok {
      ResolvedFrames(c, m, labelPos, sections, relocs, w.sections);
      GapsKept(sections, w.sections, w.dataMap, |Declared(items, |items|)|);
      AllTypes(start, placed, filled, sections, w.sections, ranges, items);
    }
    if whole {
      ResolvesExactly(c, w.code, ranges, cuts, placed, m, sections, labelPos, relocs);
    }
    if whole && ok {
      forall base, i | 0 <= i < |relocs|
        ensures ReachesLabel(c, w.code, w.codeMap, labelPos, w.sections, base, relocs[i])
      {
        LoadedAnywhere(c, w.code, ranges, cuts, placed, m, sections, labelPos, relocs, w.sections, base, i);
      }
      forall base, x: nat | x < |w.code| && OutsideFields(c, relocs, x)
        ensures KeptByte(c, w.code, w.codeMap, w.sections, base, x)
      {
        OutsideMeans(c, relocs, x);
        LoadedByte(c, w.code, ranges, cuts, placed, m, sections, labelPos, relocs, w.sections, base, x);
      }
    }
  }

  /** The 386 writer has no room for addends in its relocations: it stores them in the fields. */
  method StoreAddends(data: seq<byte>, recs: seq<ElfReloc>, ghost base: nat -> int, ghost s: nat) returns (ok: bool, now: seq<byte>)
    ensures ok <==> forall k :: 0 <= k < |recs| ==> recs[k].offset + StoredSize(recs[k]) <= |data|
    ensures ok ==> now == Passes(true, false, base, s, data, recs, |recs|)
  {
    hide PutN, GetN;
    now := data;
    for j := 0 to |recs|
      invariant now == Passes(true, false, base, s, data, recs, j)
      invariant forall k :: 0 <= k < j ==> recs[k].offset + StoredSize(recs[k]) <= |data|
    {
      var fieldSize := 4;
      if recs[j].typ == 21 {
        fieldSize := 2;
      }
      if recs[j].offset + fieldSize > |now| {
        return false, now;
      }
      now := PutN(now, recs[j].offset, fieldSize, GetN(now, recs[j].offset, fieldSize) + recs[j].addend);
    }
    ok := true;
  }
}
