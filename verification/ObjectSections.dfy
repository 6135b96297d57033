/** The relocatable-object writer's placement of code and data into ELF sections. */
module ObjectSections {
  import opened Bytes
  import opened Emitted
  import opened Powers
  import opened Wrappers

  /** A relocation against the symbol of a section: field offset, symbol, type and addend. */
  datatype ElfReloc = ElfReloc(offset: nat, symbol: nat, typ: nat, addend: int)

  /** A section under construction. Entry 0 of the section list is the null section. */
  datatype Section = Section(name: string, typ: nat, alignment: nat, size: nat, data: seq<byte>, relocations: seq<ElfReloc>)

  /** A named stretch of code that asks to be placed in a section. */
  datatype CodeRange = CodeRange(start: int, end: int, name: string, alignment: int, priority: int)

  /** A stretch of the flat code or data space and where it was placed. */
  datatype Placed = Placed(start: int, end: int, section: nat, local: nat)

  const TEXT := ".text"

  // ---- Sorting and cutting

  ghost predicate SortedBy<T>(s: seq<T>, key: T -> int) {
    forall i, j :: 0 <= i < j < |s| ==> key(s[i]) <= key(s[j])
  }

  /** With the inserted value put into the hole at j, the elements are those of s. */
  ghost predicate SameElements<T>(r: seq<T>, j: nat, value: T, s: seq<T>) {
    j < |r| && multiset(r[j := value]) == multiset(s)
  }

  /** Moving the hole one place down. */
  lemma ShiftHole<T>(r: seq<T>, j: nat, value: T, s: seq<T>)
    requires 0 < j < |r| && SameElements(r, j, value, s)
    ensures SameElements(r[j := r[j - 1]], j - 1, value, s)
  {
    var was, now := r[j := value], r[j := r[j - 1]][j - 1 := value];
    assert now == was[j := was[j - 1]][j - 1 := value];
  }

  ghost predicate SortedBut<T>(r: seq<T>, key: T -> int, i: nat, j: nat) {
    forall a, b :: 0 <= a < b <= i && b < |r| && a != j && b != j ==> key(r[a]) <= key(r[b])
  }

  /** The elements behind the hole are greater than the value. */
  ghost predicate Above<T>(r: seq<T>, key: T -> int, i: nat, j: nat, value: T) {
    forall b :: j < b <= i && b < |r| ==> key(r[b]) > key(value)
  }

  /** The hole is filled where nothing before it is greater and nothing behind it is smaller. */
  lemma FillHole<T>(r: seq<T>, key: T -> int, i: nat, j: nat, value: T)
    requires j <= i < |r| && SortedBut(r, key, i, j) && (j > 0 ==> key(r[j - 1]) <= key(value))
    requires Above(r, key, i, j, value)
    ensures SortedBut(r[j := value], key, i, |r|)
  {
    var done := r[j := value];
    forall a, b | 0 <= a < b <= i
      ensures key(done[a]) <= key(done[b])
    {
    }
  }

  lemma HoleMoves<T>(r: seq<T>, key: T -> int, i: nat, j: nat, value: T)
    requires 0 < j <= i < |r| && SortedBut(r, key, i, j) && key(r[j - 1]) > key(value)
    requires Above(r, key, i, j, value)
    ensures SortedBut(r[j := r[j - 1]], key, i, j - 1) && Above(r[j := r[j - 1]], key, i, j - 1, value)
  {
  }

  /** The elements with one key, in order. */
  ghost function Keyed<T>(s: seq<T>, key: T -> int, x: int): seq<T> {
    if s == [] then []
    else Keyed(s[..|s| - 1], key, x) + if key(s[|s| - 1]) == x then [s[|s| - 1]] else []
  }

  /** Elements with the same key are in the same order. */
  ghost predicate SameOrderByKey<T>(s: seq<T>, r: seq<T>, key: T -> int) {
    forall x :: Keyed(r, key, x) == Keyed(s, key, x)
  }

  lemma {:induction false} KeyedAppend<T>(s: seq<T>, t: seq<T>, key: T -> int, x: int)
    ensures Keyed(s + t, key, x) == Keyed(s, key, x) + Keyed(t, key, x)
  {
    if t == [] {
      assert s + t == s;
    } else {
      KeyedAppend(s, t[..|t| - 1], key, x);
      assert (s + t)[..|s + t| - 1] == s + t[..|t| - 1];
    }
  }

  lemma KeyedTwo<T>(a: T, b: T, key: T -> int, x: int)
    requires key(a) != key(b)
    ensures Keyed([a, b], key, x) == Keyed([b, a], key, x)
  {
    assert [a, b][..1] == [a] && [b, a][..1] == [b] && [a][..0] == [] && [b][..0] == [];
  }

  /** Neighbours with different keys may change places. */
  lemma NeighboursSwap<T>(s: seq<T>, i: nat, key: T -> int)
    requires i + 1 < |s| && key(s[i]) != key(s[i + 1])
    ensures SameOrderByKey(s, s[i := s[i + 1]][i + 1 := s[i]], key)
  {
    var r := s[i := s[i + 1]][i + 1 := s[i]];
    assert s == s[..i] + [s[i], s[i + 1]] + s[i + 2..] && r == s[..i] + [s[i + 1], s[i]] + s[i + 2..];
    forall x
      ensures Keyed(r, key, x) == Keyed(s, key, x)
    {
      KeyedAppend(s[..i] + [s[i], s[i + 1]], s[i + 2..], key, x);
      KeyedAppend(s[..i], [s[i], s[i + 1]], key, x);
      KeyedAppend(s[..i] + [s[i + 1], s[i]], s[i + 2..], key, x);
      KeyedAppend(s[..i], [s[i + 1], s[i]], key, x);
      KeyedTwo(s[i], s[i + 1], key, x);
    }
  }

  /** The hole moves past an element with another key. */
  lemma HoleKeepsOrder<T>(s: seq<T>, r: seq<T>, j: nat, value: T, key: T -> int)
    requires 0 < j < |r| && key(r[j - 1]) != key(value) && SameOrderByKey(s, r[j := value], key)
    ensures SameOrderByKey(s, r[j := r[j - 1]][j - 1 := value], key)
  {
    hide Keyed;
    var was, now := r[j := value], r[j := r[j - 1]][j - 1 := value];
    NeighboursSwap(was, j - 1, key);
    assert now == was[j - 1 := was[j]][j := was[j - 1]];
  }

  /** Inserts element i into the sorted elements before it. */
  method InsertAt<T>(s: seq<T>, key: T -> int, i: nat) returns (r: seq<T>)
    requires i < |s| && SortedBut(s, key, i, i)
    ensures multiset(r) == multiset(s) && |r| == |s| && SortedBut(r, key, i, |s|) && SameOrderByKey(s, r, key)
  {
    r := s;
    var value := r[i];
    var j := i;
    SameStart(s, i);
    OrderOfItself(s, key);
    hide SameElements, SortedBut, SameOrderByKey;
    while j > 0 && key(r[j - 1]) > key(value)
      invariant 0 <= j <= i && |r| == |s|
      invariant SameElements(r, j, value, s) && SameOrderByKey(s, r[j := value], key)
      invariant SortedBut(r, key, i, j)
      invariant Above(r, key, i, j, value)
    {
      ShiftHole(r, j, value, s);
      HoleKeepsOrder(s, r, j, value, key);
      HoleMoves(r, key, i, j, value);
      r := r[j := r[j - 1]];
      j := j - 1;
    }
    FillHole(r, key, i, j, value);
    SameEnd(r, j, value, s);
    r := r[j := value];
  }

  lemma OrderOfItself<T>(s: seq<T>, key: T -> int)
    ensures SameOrderByKey(s, s, key)
  {
  }

  lemma SameStart<T>(s: seq<T>, i: nat)
    requires i < |s|
    ensures SameElements(s, i, s[i], s)
    ensures s[i := s[i]] == s
  {
    assert s[i := s[i]] == s;
  }

  lemma SameEnd<T>(r: seq<T>, j: nat, value: T, s: seq<T>)
    requires SameElements(r, j, value, s)
    ensures multiset(r[j := value]) == multiset(s)
  {
  }

  /** The insertion sort that the writer uses for ranges and for boundaries. */
  method InsertionSort<T>(s: seq<T>, key: T -> int) returns (r: seq<T>)
    ensures multiset(r) == multiset(s) && |r| == |s| && SortedBy(r, key) && SameOrderByKey(s, r, key)
  {
    r := s;
    var i := 1;
    while i < |r|
      invariant 1 <= i && |r| == |s| && multiset(r) == multiset(s) && SameOrderByKey(s, r, key)
      invariant forall a, b :: 0 <= a < b < i && b < |r| ==> key(r[a]) <= key(r[b])
    {
      r := InsertAt(r, key, i);
      i := i + 1;
    }
  }

  ghost predicate Increasing(s: seq<int>) {
    forall i, j :: 0 <= i < j < |s| ==> s[i] < s[j]
  }

  /** Drops repeated neighbours of a sorted list. */
  method Unique(s: seq<int>) returns (r: seq<int>)
    requires SortedBy(s, (x: int) => x)
    ensures Increasing(r) && forall x :: x in r <==> x in s
  {
    r := [];
    for i := 0 to |s|
      invariant Increasing(r) && (forall x :: x in r <==> x in s[..i])
      invariant |r| > 0 ==> i > 0 && r[|r| - 1] == s[i - 1]
    {
      assert s[..i + 1] == s[..i] + [s[i]];
      if |r| == 0 || r[|r| - 1] != s[i] {
        forall k | 0 <= k < |r|
          ensures r[k] < s[i]
        {
          assert r[k] in s[..i];
          var m :| 0 <= m < i && s[m] == r[k];
          assert s[m] <= s[i] && r[k] <= r[|r| - 1];
        }
        r := r + [s[i]];
      }
    }
    assert s[..|s|] == s;
  }

  /** Rounding up to a multiple. */
  function AlignValue(v: nat, alignment: nat): (r: nat)
    requires alignment > 0
    ensures v <= r < v + alignment && r % alignment == 0
  {
    var rem := v % alignment;
    if rem == 0 then v else
      RoundUp(v, alignment);
      v + alignment - rem
  }

  lemma RoundUp(v: nat, alignment: nat)
    requires alignment > 0
    ensures (v + alignment - v % alignment) % alignment == 0
  {
    var q := v / alignment;
    QuotientUnique(v + alignment - v % alignment, alignment, q + 1, 0);
  }

  // ---- Collecting the ranges

  /** A symbol that asks for a section of its own, by its first and its end label. */
  datatype CodeSymbol = CodeSymbol(lbl: int, endLabel: int, section: string, alignment: int)

  /** A function: its label, the position of its end, its section. */
  datatype FunctionRange = FunctionRange(lbl: int, end: int, section: string, alignment: int)

  function SymbolRanges(labelPos: seq<int>, symbols: seq<CodeSymbol>): (r: seq<CodeRange>) {
    if symbols == [] then []
    else
      var s := symbols[|symbols| - 1];
      SymbolRanges(labelPos, symbols[..|symbols| - 1])
      + if s.endLabel <= 0 then []
        else [CodeRange(LabelPosition(labelPos, s.lbl), LabelPosition(labelPos, s.endLabel), s.section, s.alignment, 2)]
  }

  function FunctionRanges(labelPos: seq<int>, functions: seq<FunctionRange>): (r: seq<CodeRange>)
    ensures |r| == |functions|
    ensures forall i :: 0 <= i < |r| ==>
      r[i] == CodeRange(LabelPosition(labelPos, functions[i].lbl), functions[i].end, functions[i].section, functions[i].alignment, 1)
  {
    seq(|functions|, i requires 0 <= i < |functions| =>
      CodeRange(LabelPosition(labelPos, functions[i].lbl), functions[i].end, functions[i].section, functions[i].alignment, 1))
  }

  function StartOf(r: CodeRange): int {
    r.start
  }

  /** The ranges of all symbols with an end label and of all functions, by their starts; those with one
      start in the order in which they were declared, symbols first. */
  method CodeRanges(labelPos: seq<int>, symbols: seq<CodeSymbol>, functions: seq<FunctionRange>) returns (ranges: seq<CodeRange>)
    ensures multiset(ranges) == multiset(SymbolRanges(labelPos, symbols)) + multiset(FunctionRanges(labelPos, functions))
    ensures SortedBy(ranges, StartOf) && SameOrderByKey(SymbolRanges(labelPos, symbols) + FunctionRanges(labelPos, functions), ranges, StartOf)
  {
    hide SameOrderByKey;
    ranges := [];
    for i := 0 to |symbols|
      invariant ranges == SymbolRanges(labelPos, symbols[..i])
    {
      assert symbols[..i + 1][..i] == symbols[..i];
      var s := symbols[i];
      if s.endLabel <= 0 {
        continue;
      }
      ranges := ranges + [CodeRange(LabelPosition(labelPos, s.lbl), LabelPosition(labelPos, s.endLabel), s.section, s.alignment, 2)];
    }
    assert symbols[..|symbols|] == symbols;
    var all := FunctionRanges(labelPos, functions);
    for i := 0 to |functions|
      invariant ranges == SymbolRanges(labelPos, symbols) + all[..i]
    {
      var f := functions[i];
      ranges := ranges + [CodeRange(LabelPosition(labelPos, f.lbl), f.end, f.section, f.alignment, 1)];
    }
    assert all[..|functions|] == all;
    ranges := InsertionSort(ranges, StartOf);
  }

  // ---- Choosing a range

  predicate Covers(r: CodeRange, start: int, end: int) {
    r.start <= start && r.end >= end
  }

  /** Higher priority wins; at equal priority the shorter range. */
  predicate Better(a: CodeRange, b: CodeRange) {
    a.priority > b.priority || (a.priority == b.priority && a.end - a.start < b.end - b.start)
  }

  /** Range c covers an interval, no covering range is better, and none before it is as good. */
  ghost predicate Preferred(ranges: seq<CodeRange>, start: int, end: int, c: int) {
    && 0 <= c < |ranges| && Covers(ranges[c], start, end)
    && (forall j :: 0 <= j < |ranges| && Covers(ranges[j], start, end) ==> !Better(ranges[j], ranges[c]))
    && (forall j :: 0 <= j < c && Covers(ranges[j], start, end) ==> Better(ranges[c], ranges[j]))
  }

  /** Written out: by priority, then by length, then by place in the list. */
  lemma PreferredIs(ranges: seq<CodeRange>, start: int, end: int, c: int)
    ensures Preferred(ranges, start, end, c) <==>
      && 0 <= c < |ranges| && ranges[c].start <= start && end <= ranges[c].end
      && forall j :: 0 <= j < |ranges| && ranges[j].start <= start && end <= ranges[j].end ==>
           && ranges[j].priority <= ranges[c].priority
           && (ranges[j].priority == ranges[c].priority ==> ranges[c].end - ranges[c].start <= ranges[j].end - ranges[j].start)
           && (ranges[j].priority == ranges[c].priority && ranges[c].end - ranges[c].start == ranges[j].end - ranges[j].start ==> c <= j)
  {
  }

  /** The range of a symbol with an end label: between its labels, ahead of functions. */
  predicate FromSymbol(labelPos: seq<int>, s: CodeSymbol, r: CodeRange) {
    && s.endLabel > 0 && r.start == (if 0 <= s.lbl < |labelPos| then labelPos[s.lbl] else -1)
    && r.end == (if s.endLabel < |labelPos| then labelPos[s.endLabel] else -1)
    && r.name == s.section && r.alignment == s.alignment && r.priority == 2
  }

  predicate FromFunction(labelPos: seq<int>, f: FunctionRange, r: CodeRange) {
    && r.start == (if 0 <= f.lbl < |labelPos| then labelPos[f.lbl] else -1) && r.end == f.end
    && r.name == f.section && r.alignment == f.alignment && r.priority == 1
  }

  ghost predicate OfSymbol(labelPos: seq<int>, symbols: seq<CodeSymbol>, r: CodeRange) {
    exists i :: 0 <= i < |symbols| && FromSymbol(labelPos, symbols[i], r)
  }

  ghost predicate OfFunction(labelPos: seq<int>, functions: seq<FunctionRange>, r: CodeRange) {
    exists i :: 0 <= i < |functions| && FromFunction(labelPos, functions[i], r)
  }

  lemma {:induction false} SymbolRangesAre(labelPos: seq<int>, symbols: seq<CodeSymbol>, r: CodeRange)
    ensures r in SymbolRanges(labelPos, symbols) <==> OfSymbol(labelPos, symbols, r)
  {
    if symbols != [] {
      var front, last := symbols[..|symbols| - 1], symbols[|symbols| - 1];
      SymbolRangesAre(labelPos, front, r);
      assert OfSymbol(labelPos, symbols, r) <==> OfSymbol(labelPos, front, r) || FromSymbol(labelPos, last, r) by {
        assert symbols == front + [last];
        if OfSymbol(labelPos, front, r) {
          var i :| 0 <= i < |front| && FromSymbol(labelPos, front[i], r);
          assert symbols[i] == front[i];
        }
      }
    }
  }

  lemma FunctionRangesAre(labelPos: seq<int>, functions: seq<FunctionRange>, r: CodeRange)
    ensures r in FunctionRanges(labelPos, functions) <==> OfFunction(labelPos, functions, r)
  {
    var all := FunctionRanges(labelPos, functions);
    if OfFunction(labelPos, functions, r) {
      var i :| 0 <= i < |functions| && FromFunction(labelPos, functions[i], r);
      assert all[i] == r;
    }
  }

  /** The writer's ranges are those of the symbols with an end label and of the functions; where a
      symbol's range covers a stretch, a symbol's is preferred. */
  lemma SymbolsComeFirst(labelPos: seq<int>, symbols: seq<CodeSymbol>, functions: seq<FunctionRange>, ranges: seq<CodeRange>,
                         start: int, end: int, c: int)
    requires multiset(ranges) == multiset(SymbolRanges(labelPos, symbols)) + multiset(FunctionRanges(labelPos, functions))
    ensures forall r :: r in ranges <==> OfSymbol(labelPos, symbols, r) || OfFunction(labelPos, functions, r)
    ensures Preferred(ranges, start, end, c) && (exists r :: OfSymbol(labelPos, symbols, r) && r.start <= start && end <= r.end) ==>
              OfSymbol(labelPos, symbols, ranges[c])
  {
    forall r
      ensures r in ranges <==> OfSymbol(labelPos, symbols, r) || OfFunction(labelPos, functions, r)
    {
      SymbolRangesAre(labelPos, symbols, r);
      FunctionRangesAre(labelPos, functions, r);
      assert r in ranges <==> r in multiset(ranges);
    }
    if Preferred(ranges, start, end, c) && exists r :: OfSymbol(labelPos, symbols, r) && r.start <= start && end <= r.end {
      var r :| OfSymbol(labelPos, symbols, r) && r.start <= start && end <= r.end;
      assert r in ranges && ranges[c] in ranges;
      var j :| 0 <= j < |ranges| && ranges[j] == r;
      assert !Better(ranges[j], ranges[c]);
    }
  }

  method Choose(ranges: seq<CodeRange>, start: int, end: int) returns (chosen: int)
    ensures if chosen < 0 then chosen == -1 && forall j :: 0 <= j < |ranges| ==> !Covers(ranges[j], start, end)
            else Preferred(ranges, start, end, chosen)
  {
    chosen := -1;
    for j := 0 to |ranges|
      invariant -1 <= chosen < j
      invariant chosen < 0 ==> forall i :: 0 <= i < j ==> !Covers(ranges[i], start, end)
      invariant chosen >= 0 ==> Covers(ranges[chosen], start, end)
      invariant chosen >= 0 ==> forall i :: 0 <= i < j && Covers(ranges[i], start, end) ==> !Better(ranges[i], ranges[chosen])
      invariant chosen >= 0 ==> forall i :: 0 <= i < chosen && Covers(ranges[i], start, end) ==> Better(ranges[chosen], ranges[i])
    {
      var r := ranges[j];
      if r.start <= start && r.end >= end
         && (chosen < 0 || r.priority > ranges[chosen].priority
             || (r.priority == ranges[chosen].priority && r.end - r.start < ranges[chosen].end - ranges[chosen].start)) {
        chosen := j;
      }
    }
  }

  /** The section name a range asks for: .text for no name. */
  function RangeName(r: CodeRange): string {
    if r.name == "" then TEXT else r.name
  }

  /** The alignment of an interval of a range: the range's own at its start, 16 by default. */
  function RangeAlignment(r: CodeRange, start: int): (alignment: nat)
    ensures alignment >= 1
  {
    if start != r.start then 1 else if r.alignment < 1 then 16 else r.alignment
  }

  /** The section name and alignment of an interval: the preferred range's, or .text and 1. */
  ghost predicate AskedFor(ranges: seq<CodeRange>, start: int, end: int, name: string, alignment: nat) {
    || (exists c :: Preferred(ranges, start, end, c) && name == RangeName(ranges[c]) && alignment == RangeAlignment(ranges[c], start))
    || ((forall c :: 0 <= c < |ranges| ==> !Covers(ranges[c], start, end)) && name == TEXT && alignment == 1)
  }

  /** A stretch that a range covers gets that range's name and, at its start, its alignment or 16; a
      stretch that none covers goes to .text. */
  lemma AskedIs(ranges: seq<CodeRange>, start: int, end: int, name: string, alignment: nat)
    requires AskedFor(ranges, start, end, name, alignment)
    ensures (forall c :: 0 <= c < |ranges| ==> !(ranges[c].start <= start && end <= ranges[c].end)) ==> name == ".text" && alignment == 1
    ensures (exists c :: 0 <= c < |ranges| && ranges[c].start <= start && end <= ranges[c].end) ==>
              exists c :: Preferred(ranges, start, end, c)
                && (name == ranges[c].name != "" || (name == ".text" && ranges[c].name == ""))
                && (ranges[c].start == start && ranges[c].alignment >= 1 ==> alignment == ranges[c].alignment)
                && (ranges[c].start == start && ranges[c].alignment < 1 ==> alignment == 16)
                && (ranges[c].start != start ==> alignment == 1)
  {
  }

  /** A place keeps an alignment: its offset is a multiple, and its section is aligned as much. */
  predicate AlignedIn(sections: seq<Section>, p: Placed, alignment: nat) {
    alignment > 0 && p.section < |sections| && p.local % alignment == 0 && alignment <= sections[p.section].alignment
  }

  /** A stretch is in the section, and at the alignment, that the ranges ask for. */
  ghost predicate PlacedAsAsked(ranges: seq<CodeRange>, sections: seq<Section>, p: Placed) {
    p.section < |sections|
    && exists alignment :: AskedFor(ranges, p.start, p.end, sections[p.section].name, alignment) && AlignedIn(sections, p, alignment)
  }

  lemma AskedStays(ranges: seq<CodeRange>, a: seq<Section>, b: seq<Section>, p: Placed)
    requires Grows(a, b) && PlacedAsAsked(ranges, a, p)
    ensures PlacedAsAsked(ranges, b, p)
  {
    hide AskedFor, UniqueNames;
    var alignment :| AskedFor(ranges, p.start, p.end, a[p.section].name, alignment) && AlignedIn(a, p, alignment);
    assert AskedFor(ranges, p.start, p.end, b[p.section].name, alignment) && AlignedIn(b, p, alignment);
  }

  /** Where a section is loaded at a multiple of its alignment, an aligned place in it has an
      aligned address. Alignments are powers of two; others need not divide one another. */
  lemma AlignedAddress(sections: seq<Section>, p: Placed, i: nat, j: nat, address: int)
    requires AlignedIn(sections, p, Pow2(i)) && sections[p.section].alignment == Pow2(j)
    requires address % Pow2(j) == 0
    ensures (address + p.local) % Pow2(i) == 0
  {
    if j < i {
      PowerBelow(j + 1, i);
    }
    PowerSum(i, j - i);
    AlignedSum(address, p.local, Pow2(i), Pow2(j - i));
  }

  lemma AlignedSum(a: int, b: nat, n: nat, m: nat)
    requires n > 0 && m > 0 && n * m > 0 && a % (n * m) == 0 && b % n == 0
    ensures (a + b) % n == 0
  {
    var q, l := a / (n * m), b / n;
    assert a == q * (n * m);
    assert q * (n * m) == (q * m) * n;
    assert (q * m + l) * n == (q * m) * n + l * n;
    QuotientUnique(a + b, n, q * m + l, 0);
  }

  /** An alignment of 3 in a section aligned to 4 gives no aligned address. */
  lemma OddAlignmentIsLost()
    ensures var sections, p := [Section(TEXT, 1, 0, 0, [], []), Section(TEXT, 1, 4, 8, [], [])], Placed(0, 2, 1, 6);
      AlignedIn(sections, p, 3) && 4 % sections[1].alignment == 0 && (4 + p.local) % 3 != 0
  {
  }

  method ChooseSection(ranges: seq<CodeRange>, start: int, end: int) returns (name: string, alignment: nat)
    ensures alignment > 0 && AskedFor(ranges, start, end, name, alignment)
  {
    hide Preferred;
    var chosen := Choose(ranges, start, end);
    name, alignment := TEXT, 1;
    if chosen >= 0 {
      name := ranges[chosen].name;
      if start == ranges[chosen].start {
        if ranges[chosen].alignment < 1 {
          alignment := 16;
        } else {
          alignment := ranges[chosen].alignment;
        }
      }
    }
    if name == "" {
      name := TEXT;
    }
  }

  // ---- Sections that only grow

  /** A type fits the name of every range, and .text, when code of that name is placed. */
  ghost predicate RangesTyped(ranges: seq<CodeRange>, name: string, typ: nat) {
    && (name == ".text" ==> typ == 1)
    && (forall k :: 0 <= k < |ranges| && (if ranges[k].name == "" then ".text" else ranges[k].name) == name ==> typ == 1)
  }

  ghost predicate CodeTypesFollow(a: seq<Section>, b: seq<Section>, ranges: seq<CodeRange>) {
    forall n, t :: NameTyped(a, n, t) && RangesTyped(ranges, n, t) ==> NameTyped(b, n, t)
  }

  lemma CodeTypesStep(a: seq<Section>, b: seq<Section>, c: seq<Section>, ranges: seq<CodeRange>, start: int, end: int, name: string, alignment: nat)
    requires CodeTypesFollow(a, b, ranges) && TypesFollow(b, c, name, 1) && AskedFor(ranges, start, end, name, alignment)
    ensures CodeTypesFollow(a, c, ranges)
  {
    hide NameTyped;
    forall n, t | NameTyped(a, n, t) && RangesTyped(ranges, n, t)
      ensures NameTyped(c, n, t)
    {
    }
  }

  lemma CodeTypesStart(a: seq<Section>, ranges: seq<CodeRange>)
    ensures CodeTypesFollow(a, a, ranges)
  {
    hide NameTyped;
  }

  /** Behind the null section, every name stands once. */
  ghost predicate UniqueNames(sections: seq<Section>) {
    forall i, j :: 1 <= i < j < |sections| ==> sections[i].name != sections[j].name
  }

  /** Every section of a name has a type. */
  ghost predicate NameTyped(sections: seq<Section>, name: string, typ: nat) {
    forall i :: 1 <= i < |sections| && sections[i].name == name ==> sections[i].typ == typ
  }

  /** Placing something under a name with a type gives no section another type than these. */
  ghost predicate TypesFollow(a: seq<Section>, b: seq<Section>, name: string, typ: nat) {
    forall n, t :: NameTyped(a, n, t) && (name == n ==> typ == t) ==> NameTyped(b, n, t)
  }

  lemma AddedTypes(a: seq<Section>, b: seq<Section>, name: string, typ: nat)
    requires |a| <= |b| <= |a| + 1 && (forall i :: 0 <= i < |a| ==> b[i].name == a[i].name && b[i].typ == a[i].typ)
    requires |a| < |b| ==> b[|a|].name == name && b[|a|].typ == typ
    ensures TypesFollow(a, b, name, typ)
  {
    forall n, t | NameTyped(a, n, t) && (name == n ==> typ == t)
      ensures NameTyped(b, n, t)
    {
      forall i | 1 <= i < |b| && b[i].name == n
        ensures b[i].typ == t
      {
        if i < |a| {
          assert a[i].name == n;
        }
      }
    }
  }

  lemma TypesFollowBoth(a: seq<Section>, b: seq<Section>, c: seq<Section>, name: string, typ: nat)
    requires TypesFollow(a, b, name, typ) && TypesFollow(b, c, name, typ)
    ensures TypesFollow(a, c, name, typ)
  {
    hide NameTyped;
  }

  lemma TypesFollowSelf(a: seq<Section>, name: string, typ: nat)
    ensures TypesFollow(a, a, name, typ)
  {
    hide NameTyped;
  }

  /** The same sections by name, type and alignment. */
  ghost predicate SameFrames(a: seq<Section>, b: seq<Section>) {
    |a| == |b| && forall i :: 0 <= i < |a| ==> b[i].name == a[i].name && b[i].typ == a[i].typ && b[i].alignment == a[i].alignment
  }

  lemma SameTypes(a: seq<Section>, b: seq<Section>, name: string, typ: nat)
    requires SameFrames(a, b)
    ensures NameTyped(a, name, typ) <==> NameTyped(b, name, typ)
  {
    forall i | 0 <= i < |a|
      ensures b[i].name == a[i].name && b[i].typ == a[i].typ
    {
    }
  }

  lemma TypesFollowOn(a: seq<Section>, b: seq<Section>, c: seq<Section>, name: string, typ: nat)
    requires TypesFollow(a, b, name, typ) && SameFrames(b, c)
    ensures TypesFollow(a, c, name, typ)
  {
    hide NameTyped, SameFrames;
    forall n, t | NameTyped(a, n, t) && (name == n ==> typ == t)
      ensures NameTyped(c, n, t)
    {
      SameTypes(b, c, n, t);
    }
  }

  /** Sections keep their names, types, bytes and relocations, and neither their sizes nor their
      alignments ever shrink; new ones have new names and no relocations. */
  ghost predicate Grows(a: seq<Section>, b: seq<Section>) {
    && |a| <= |b|
    && (forall i :: 0 <= i < |a| ==> b[i].name == a[i].name && a[i].size <= b[i].size && a[i].data <= b[i].data)
    && (forall i :: 0 <= i < |a| ==> a[i].alignment <= b[i].alignment && a[i].relocations == b[i].relocations && a[i].typ == b[i].typ)
    && (forall i :: |a| <= i < |b| ==> b[i].relocations == [])
    && (UniqueNames(a) ==> UniqueNames(b))
  }

  ghost predicate Sized(sections: seq<Section>) {
    forall i :: 0 <= i < |sections| ==> |sections[i].data| <= sections[i].size
  }

  /** Placed stretches lie inside their sections, and two in the same section, in order of
      placement, one after the other. */
  ghost predicate Extents(sections: seq<Section>, m: seq<Placed>) {
    && (forall i :: 0 <= i < |m| ==>
         && 1 <= m[i].section < |sections| && m[i].start <= m[i].end
         && m[i].local + (m[i].end - m[i].start) <= sections[m[i].section].size)
    && (forall i, j :: 0 <= i < j < |m| && m[i].section == m[j].section ==> m[i].local + (m[i].end - m[i].start) <= m[j].local)
  }

  /** A placed stretch of code has its bytes in its section. */
  ghost predicate Holds(sections: seq<Section>, code: seq<byte>, p: Placed) {
    && 0 <= p.start < p.end <= |code| && p.section < |sections|
    && p.local + (p.end - p.start) <= |sections[p.section].data|
    && sections[p.section].data[p.local..p.local + (p.end - p.start)] == code[p.start..p.end]
  }

  lemma GrowsSelf(a: seq<Section>)
    ensures Grows(a, a)
  {
  }

  lemma GrowsTransitive(a: seq<Section>, b: seq<Section>, c: seq<Section>)
    requires Grows(a, b) && Grows(b, c)
    ensures Grows(a, c)
  {
  }

  lemma HoldsStays(a: seq<Section>, b: seq<Section>, code: seq<byte>, p: Placed)
    requires Grows(a, b) && Holds(a, code, p)
    ensures Holds(b, code, p)
  {
    var s, t := a[p.section].data, b[p.section].data;
    assert t[p.local..p.local + (p.end - p.start)] == s[p.local..p.local + (p.end - p.start)];
  }

  lemma ExtentsStay(a: seq<Section>, b: seq<Section>, m: seq<Placed>)
    requires Grows(a, b) && Extents(a, m)
    ensures Extents(b, m)
  {
  }

  /** A stretch placed behind everything in its section. */
  lemma ExtentAdded(a: seq<Section>, b: seq<Section>, m: seq<Placed>, p: Placed)
    requires Grows(a, b) && Extents(a, m)
    requires 1 <= p.section < |a| && p.start <= p.end && a[p.section].size <= p.local
    requires p.local + (p.end - p.start) <= b[p.section].size
    ensures Extents(b, m + [p])
  {
    ExtentsStay(a, b, m);
    hide Grows;
    var n := m + [p];
    forall i, j | 0 <= i < j < |n| && n[i].section == n[j].section
      ensures n[i].local + (n[i].end - n[i].start) <= n[j].local
    {
      if j == |m| {
        assert n[i] == m[i];
      }
    }
  }

  // ---- Looking positions up

  /** The first placed stretch that contains a position. */
  function MapFrom(m: seq<Placed>, position: int, from: nat): (r: Option<(nat, int)>)
    requires from <= |m|
    ensures r.Some? ==> r.value.1 >= 0 && exists k :: 0 <= k < |m| && m[k].section == r.value.0
    decreases |m| - from
  {
    if from == |m| then None
    else if m[from].start <= position < m[from].end then Some((m[from].section, m[from].local + position - m[from].start))
    else MapFrom(m, position, from + 1)
  }

  method MapPosition(m: seq<Placed>, position: int) returns (r: Option<(nat, int)>)
    ensures r == MapFrom(m, position, 0)
  {
    for i := 0 to |m|
      invariant MapFrom(m, position, 0) == MapFrom(m, position, i)
    {
      if position >= m[i].start && position < m[i].end {
        return Some((m[i].section, m[i].local + position - m[i].start));
      }
    }
    return None;
  }

  lemma {:induction false} MapFinds(m: seq<Placed>, position: int, from: nat, k: nat)
    requires from <= k < |m| && m[k].start <= position < m[k].end
    requires forall i :: 0 <= i < |m| && i != k ==> !(m[i].start <= position < m[i].end)
    ensures MapFrom(m, position, from) == Some((m[k].section, m[k].local + position - m[k].start))
    decreases k - from
  {
    if from < k {
      MapFinds(m, position, from + 1, k);
    }
  }

  lemma {:induction false} MapOwner(m: seq<Placed>, position: int, from: nat) returns (k: nat)
    requires from <= |m| && MapFrom(m, position, from).Some?
    ensures from <= k < |m| && m[k].start <= position < m[k].end
    ensures MapFrom(m, position, from) == Some((m[k].section, m[k].local + position - m[k].start))
    decreases |m| - from
  {
    if m[from].start <= position < m[from].end {
      k := from;
    } else {
      k := MapOwner(m, position, from + 1);
    }
  }

  /** Two positions never share a place: stretches of the flat space are placed injectively. */
  lemma MapInjective(sections: seq<Section>, m: seq<Placed>, p: int, q: int)
    requires Extents(sections, m)
    requires MapFrom(m, p, 0).Some? && MapFrom(m, p, 0) == MapFrom(m, q, 0)
    ensures p == q
  {
    var i := MapOwner(m, p, 0);
    var j := MapOwner(m, q, 0);
  }

  /** The stretches of the flat space do not overlap. */
  ghost predicate Separate(m: seq<Placed>) {
    forall i, j :: 0 <= i < |m| && 0 <= j < |m| && i != j ==> m[i].end <= m[j].start || m[j].end <= m[i].start
  }

  /** The cuts partition a space from 0 up to its size into consecutive stretches. */
  ghost predicate Consecutive(m: seq<Placed>, cuts: seq<int>) {
    && |cuts| == |m| + 1
    && (forall k :: 0 <= k < |m| ==> m[k].start == cuts[k] && m[k].end == cuts[k + 1])
  }

  predicate ValidRange(code: seq<byte>, r: CodeRange) {
    0 <= r.start < r.end <= |code|
  }

  /** An end of the code or of a range. */
  ghost predicate IsBoundary(code: seq<byte>, ranges: seq<CodeRange>, x: int) {
    x == 0 || x == |code| || exists k :: 0 <= k < |ranges| && (ranges[k].start == x || ranges[k].end == x)
  }

  /** The cuts: strictly increasing positions in the code, its two ends and every range's, no others. */
  ghost predicate IsCuts(code: seq<byte>, ranges: seq<CodeRange>, cuts: seq<int>) {
    && Increasing(cuts)
    && (forall x :: x in cuts ==> 0 <= x <= |code| && IsBoundary(code, ranges, x))
    && 0 in cuts && |code| in cuts
    && (forall k :: 0 <= k < |ranges| ==> ranges[k].start in cuts && ranges[k].end in cuts)
  }

  /** The first n intervals between the cuts are placed. */
  ghost predicate PlacedUpTo(code: seq<byte>, ranges: seq<CodeRange>, cuts: seq<int>, n: nat, sections: seq<Section>, m: seq<Placed>) {
    && n < |cuts| && |m| == n && |sections| >= 1
    && (forall i :: 0 <= i < |sections| ==> sections[i].size == |sections[i].data|)
    && Extents(sections, m)
    && (forall k :: 0 <= k < n ==> m[k].start == cuts[k] && m[k].end == cuts[k + 1] && Holds(sections, code, m[k]))
    && (forall k :: 0 <= k < n ==> PlacedAsAsked(ranges, sections, m[k]))
  }

  /** The whole code is partitioned: consecutive stretches from 0 to its end, each with its bytes
      in the section, and at the alignment, that its preferred range asks for. */
  ghost predicate CodePlaced(code: seq<byte>, ranges: seq<CodeRange>, cuts: seq<int>, sections: seq<Section>, m: seq<Placed>) {
    IsCuts(code, ranges, cuts) && PlacedUpTo(code, ranges, cuts, |cuts| - 1, sections, m)
  }

  lemma PlacedNext(code: seq<byte>, ranges: seq<CodeRange>, cuts: seq<int>, n: nat, a: seq<Section>, m: seq<Placed>,
                   b: seq<Section>, m': seq<Placed>)
    requires PlacedUpTo(code, ranges, cuts, n, a, m) && n + 1 < |cuts|
    requires Grows(a, b) && Extents(b, m') && (forall i :: 0 <= i < |b| ==> b[i].size == |b[i].data|)
    requires |m'| == n + 1 && m'[..n] == m && (forall k :: 0 <= k < |m'| ==> Holds(b, code, m'[k]))
    requires m'[n].start == cuts[n] && m'[n].end == cuts[n + 1]
    requires PlacedAsAsked(ranges, b, m'[n])
    ensures PlacedUpTo(code, ranges, cuts, n + 1, b, m')
  {
    hide UniqueNames, Holds, PlacedAsAsked;
    forall k | 0 <= k < n + 1
      ensures m'[k].start == cuts[k] && m'[k].end == cuts[k + 1]
      ensures PlacedAsAsked(ranges, b, m'[k])
    {
      if k < n {
        assert m'[k] == m'[..n][k] == m[k];
        AskedStays(ranges, a, b, m[k]);
      }
    }
  }

  /** No range begins or ends strictly inside a stretch: it is covered as a whole or not at all. */
  lemma RangesRespectCuts(code: seq<byte>, ranges: seq<CodeRange>, cuts: seq<int>, sections: seq<Section>, m: seq<Placed>, k: nat, r: nat)
    requires CodePlaced(code, ranges, cuts, sections, m) && k < |m| && r < |ranges| && ValidRange(code, ranges[r])
    ensures Covers(ranges[r], m[k].start, m[k].end) || ranges[r].end <= m[k].start || m[k].end <= ranges[r].start
  {
    hide Extents, Holds, PlacedAsAsked, Increasing, IsBoundary;
    CutsSpan(cuts, k, ranges[r].start);
    CutsSpan(cuts, k, ranges[r].end);
  }

  lemma CutsSpan(cuts: seq<int>, k: nat, x: int)
    requires Increasing(cuts) && k + 1 < |cuts| && x in cuts
    ensures x <= cuts[k] || cuts[k + 1] <= x
  {
    var a :| 0 <= a < |cuts| && cuts[a] == x;
  }

  lemma {:induction false} CutBefore(cuts: seq<int>, position: int, k: nat) returns (i: nat)
    requires k < |cuts| && cuts[0] <= position < cuts[k]
    ensures i < k && cuts[i] <= position < cuts[i + 1]
    decreases k
  {
    if cuts[k - 1] <= position {
      i := k - 1;
    } else {
      i := CutBefore(cuts, position, k - 1);
    }
  }

  lemma OnlyInterval(cuts: seq<int>, m: seq<Placed>, position: int, k: nat)
    requires Increasing(cuts) && Consecutive(m, cuts) && k < |m| && cuts[k] <= position < cuts[k + 1]
    ensures forall i :: 0 <= i < |m| && i != k ==> !(m[i].start <= position < m[i].end)
  {
    forall i | 0 <= i < |m| && i != k
      ensures !(m[i].start <= position < m[i].end)
    {
      if i < k {
        assert i + 1 == k || cuts[i + 1] < cuts[k];
      } else {
        assert k + 1 == i || cuts[k + 1] < cuts[i];
      }
    }
  }

  lemma HoldsByte(sections: seq<Section>, code: seq<byte>, p: Placed, position: int)
    requires Holds(sections, code, p) && p.start <= position < p.end
    ensures 0 <= p.local + position - p.start < |sections[p.section].data|
    ensures sections[p.section].data[p.local + position - p.start] == code[position]
  {
    var data := sections[p.section].data;
    assert data[p.local..p.local + (p.end - p.start)][position - p.start] == code[p.start..p.end][position - p.start];
  }

  lemma CutsBoundCode(code: seq<byte>, ranges: seq<CodeRange>, cuts: seq<int>) returns (last: nat)
    requires IsCuts(code, ranges, cuts)
    ensures last < |cuts| && cuts[0] == 0 && cuts[last] == |code|
  {
    var z :| 0 <= z < |cuts| && cuts[z] == 0;
    assert cuts[0] in cuts;
    last :| 0 <= last < |cuts| && cuts[last] == |code|;
  }

  /** The map of code offsets is total, and byte-preserving. */
  lemma CodeMapIsTotal(code: seq<byte>, ranges: seq<CodeRange>, cuts: seq<int>, sections: seq<Section>, m: seq<Placed>, position: nat)
    returns (k: nat)
    requires CodePlaced(code, ranges, cuts, sections, m) && position < |code|
    ensures k < |m| && m[k].start <= position < m[k].end
    ensures MapFrom(m, position, 0) == Some((m[k].section, m[k].local + position - m[k].start))
    ensures 1 <= m[k].section < |sections| && 0 <= m[k].local + position - m[k].start < |sections[m[k].section].data|
    ensures sections[m[k].section].data[m[k].local + position - m[k].start] == code[position]
  {
    hide *;
    var last := CodeIsConsecutive(code, ranges, cuts, sections, m);
    k := CutBefore(cuts, position, last);
    StretchHolds(code, ranges, cuts, sections, m, k);
    HoldsByte(sections, code, m[k], position);
    OnlyInterval(cuts, m, position, k);
    MapFinds(m, position, 0, k);
  }

  lemma CodeIsConsecutive(code: seq<byte>, ranges: seq<CodeRange>, cuts: seq<int>, sections: seq<Section>, m: seq<Placed>)
    returns (last: nat)
    requires CodePlaced(code, ranges, cuts, sections, m)
    ensures Increasing(cuts) && Consecutive(m, cuts) && last < |cuts| == |m| + 1 && cuts[0] == 0 && cuts[last] == |code|
  {
    last := CutsBoundCode(code, ranges, cuts);
  }

  lemma StretchHolds(code: seq<byte>, ranges: seq<CodeRange>, cuts: seq<int>, sections: seq<Section>, m: seq<Placed>, k: nat)
    requires CodePlaced(code, ranges, cuts, sections, m) && k < |m|
    ensures Holds(sections, code, m[k]) && 1 <= m[k].section < |sections| && m[k].start == cuts[k] && m[k].end == cuts[k + 1]
  {
  }

  /** Where the end of a function is: the first stretch that contains or ends at a position. */
  function MapEndFrom(m: seq<Placed>, position: int, from: nat): (r: Option<(nat, int)>)
    requires from <= |m|
    decreases |m| - from
  {
    if from == |m| then None
    else if m[from].start <= position <= m[from].end then Some((m[from].section, m[from].local + position - m[from].start))
    else MapEndFrom(m, position, from + 1)
  }

  method MapEnd(m: seq<Placed>, position: int) returns (r: Option<(nat, int)>)
    ensures r == MapEndFrom(m, position, 0)
  {
    for i := 0 to |m|
      invariant MapEndFrom(m, position, 0) == MapEndFrom(m, position, i)
    {
      if position >= m[i].start && position <= m[i].end {
        return Some((m[i].section, m[i].local + position - m[i].start));
      }
    }
    return None;
  }

  lemma {:induction false} MapEndFinds(m: seq<Placed>, position: int, from: nat, k: nat)
    requires from <= k < |m| && m[k].start <= position <= m[k].end
    requires forall i :: 0 <= i < k ==> !(m[i].start <= position <= m[i].end)
    ensures MapEndFrom(m, position, from) == Some((m[k].section, m[k].local + position - m[k].start))
    decreases k - from
  {
    if from < k {
      MapEndFinds(m, position, from + 1, k);
    }
  }

  /** The end of a function stays in the section of its last byte, right behind it, even where the
      next stretch begins at the same position elsewhere. */
  lemma EndFollowsLastByte(code: seq<byte>, ranges: seq<CodeRange>, cuts: seq<int>, sections: seq<Section>, m: seq<Placed>, end: nat)
    requires CodePlaced(code, ranges, cuts, sections, m) && 0 < end <= |code|
    ensures var last := MapFrom(m, end - 1, 0); last.Some? && MapEndFrom(m, end, 0) == Some((last.value.0, last.value.1 + 1))
  {
    hide *;
    var k := CodeMapIsTotal(code, ranges, cuts, sections, m, end - 1);
    var n := CodeIsConsecutive(code, ranges, cuts, sections, m);
    EarlierEndBefore(cuts, m, k, end);
    MapEndFinds(m, end, 0, k);
  }

  lemma EarlierEndBefore(cuts: seq<int>, m: seq<Placed>, k: nat, end: int)
    requires Increasing(cuts) && Consecutive(m, cuts) && k < |m| && m[k].start < end
    ensures forall i :: 0 <= i < k ==> !(m[i].start <= end <= m[i].end)
  {
    forall i | 0 <= i < k
      ensures m[i].end < end
    {
      assert i + 1 == k || cuts[i + 1] < cuts[k];
    }
  }

  // ---- Data

  /** A declared object of the global space: its size, where it lives, and its initial bytes,
      given as bytes or as an integer. */
  datatype DataItem = DataItem(offset: int, size: nat, alignment: int, initialized: bool, section: string, target: string,
                               content: seq<byte>, value: int)

  const BSS := ".bss"
  const RODATA := ".rodata"

  predicate IsAlias(item: DataItem) {
    item.size == 0 && item.target != "" && item.target != "-"
  }

  function SectionName(item: DataItem): string {
    if item.section != "" then item.section else if item.initialized then ".data" else BSS
  }

  /** An object without initial bytes in a .bss section takes no room in the file. */
  predicate NoBits(item: DataItem) {
    !item.initialized && (SectionName(item) == BSS || (|SectionName(item)| >= 5 && SectionName(item)[..5] == ".bss."))
  }

  /** Byte `at` of an integer, little-endian, with sign fill. */
  function ByteOf(value: int, at: nat): byte
    decreases at
  {
    if at == 0 then Byte(value) else ByteOf(value / 256, at - 1)
  }

  /** The type of an object's section: 8, which takes no room in the file, for an object without
      initial bytes in .bss or under it, and 1 otherwise. */
  function ItemType(item: DataItem): nat {
    var name := if item.section != "" then item.section else if item.initialized then ".data" else ".bss";
    if !item.initialized && (name == ".bss" || (|name| >= 5 && name[..5] == ".bss.")) then 8 else 1
  }

  /** A type fits every object among the first n that is placed under a name. */
  ghost predicate ItemsTyped(items: seq<DataItem>, n: nat, name: string, typ: nat)
    requires n <= |items|
  {
    forall i :: 0 <= i < n && !IsAlias(items[i]) && SectionName(items[i]) == name ==> ItemType(items[i]) == typ
  }

  ghost predicate ItemTypesFollow(a: seq<Section>, b: seq<Section>, items: seq<DataItem>, n: nat)
    requires n <= |items|
  {
    forall name, t :: NameTyped(a, name, t) && ItemsTyped(items, n, name, t) ==> NameTyped(b, name, t)
  }

  lemma ItemTypesStep(a: seq<Section>, b: seq<Section>, c: seq<Section>, items: seq<DataItem>, i: nat)
    requires i < |items| && ItemTypesFollow(a, b, items, i)
    requires if IsAlias(items[i]) then c == b else TypesFollow(b, c, SectionName(items[i]), ItemType(items[i]))
    ensures ItemTypesFollow(a, c, items, i + 1)
  {
    hide NameTyped, ItemType, SectionName, IsAlias;
    forall name, t | NameTyped(a, name, t) && ItemsTyped(items, i + 1, name, t)
      ensures NameTyped(c, name, t)
    {
      assert ItemsTyped(items, i, name, t);
    }
  }

  lemma ItemTypesStart(a: seq<Section>, items: seq<DataItem>)
    ensures ItemTypesFollow(a, a, items, 0)
  {
    hide NameTyped;
  }

  lemma ItemTypeIs(item: DataItem)
    ensures ItemType(item) == if NoBits(item) then 8 else 1
  {
  }

  /** The initial bytes of an object: its content padded with zeros, or its integer. */
  function ItemBytes(item: DataItem): (bytes: seq<byte>)
    requires |item.content| <= item.size
    ensures |bytes| == item.size
  {
    if |item.content| > 0 then item.content + seq(item.size - |item.content|, _ => 0)
    else seq(item.size, at requires at >= 0 => ByteOf(item.value, at))
  }

  /** The alignment of an object: its own, or the natural one of its size. */
  function ItemAlignment(item: DataItem): (alignment: nat)
    ensures alignment >= 1
  {
    if item.alignment >= 1 then item.alignment
    else if item.size <= 1 then 1 else if item.size <= 2 then 2 else if item.size <= 4 then 4 else 8
  }

  /** The number that bytes stand for, the first one counting least. */
  function LittleEndian(bytes: seq<byte>): nat {
    if bytes == [] then 0 else bytes[0] + 256 * LittleEndian(bytes[1..])
  }

  /** The bytes of an object without content read as its integer, modulo what fits; those of one with
      content are that, and zeros. */
  lemma ItemReads(item: DataItem)
    requires |item.content| <= item.size
    ensures item.content == [] ==> LittleEndian(ItemBytes(item)) == item.value % Pow2(8 * item.size)
    ensures item.content <= ItemBytes(item)
    ensures item.content != [] ==> forall k :: |item.content| <= k < item.size ==> ItemBytes(item)[k] == 0
  {
    if item.content == [] {
      BytesRead(item.value, item.size);
    }
  }

  lemma {:induction false} BytesRead(value: int, size: nat)
    ensures LittleEndian(seq(size, at requires at >= 0 => ByteOf(value, at))) == value % Pow2(8 * size)
    decreases size
  {
    var bytes := seq(size, at requires at >= 0 => ByteOf(value, at));
    if size > 0 {
      BytesRead(value / 256, size - 1);
      assert bytes[1..] == seq(size - 1, at requires at >= 0 => ByteOf(value / 256, at));
      assert bytes[0] == Byte(value);
      PowerSum(8, 8 * (size - 1));
      assert Pow2(8) == 256;
      SplitResidue(value, Pow2(8 * (size - 1)));
    }
  }

  lemma SplitResidue(v: int, p: nat)
    requires p > 0
    ensures v % (256 * p) == v % 256 + 256 * (v / 256 % p)
  {
    var q := v / 256 / p;
    assert v / 256 == q * p + v / 256 % p;
    assert 256 * (q * p) == q * (256 * p);
    QuotientUnique(v, 256 * p, q, v % 256 + 256 * (v / 256 % p));
  }

  method NaturalAlignment(size: nat) returns (alignment: nat)
    ensures alignment == if size <= 1 then 1 else if size <= 2 then 2 else if size <= 4 then 4 else 8
  {
    alignment := 1;
    while alignment < size && alignment < 8
      invariant alignment in {1, 2, 4, 8} && (alignment > 1 ==> alignment / 2 < size)
      decreases 8 - alignment
    {
      alignment := alignment * 2;
    }
  }

  /** The declared stretches of the first n items, in order, without the aliases. */
  ghost function Declared(items: seq<DataItem>, n: nat): seq<DataItem>
    requires n <= |items|
  {
    if n == 0 then [] else Declared(items, n - 1) + if IsAlias(items[n - 1]) then [] else [items[n - 1]]
  }

  /** An object has its range, is in its section at its alignment, and has its bytes there. */
  ghost predicate ItemPlaced(sections: seq<Section>, item: DataItem, p: Placed) {
    && p.start == item.offset && p.end == item.offset + item.size && p.section < |sections|
    && sections[p.section].name == SectionName(item) && AlignedIn(sections, p, ItemAlignment(item))
    && (!NoBits(item) ==>
         && |item.content| <= item.size && p.local + item.size <= |sections[p.section].data|
         && sections[p.section].data[p.local..p.local + item.size] == ItemBytes(item))
  }

  /** An object stands at its own offset range in the section that it names, or in .data with initial
      bytes and in .bss without, at its own alignment or at the power of two, up to 8, that its size
      reaches; outside .bss its bytes are its content and zeros, or its integer. */
  ghost predicate StandsAsDeclared(sections: seq<Section>, item: DataItem, p: Placed) {
    && p.start == item.offset && p.end == item.offset + item.size && p.section < |sections|
    && sections[p.section].name == (if item.section != "" then item.section else if item.initialized then ".data" else ".bss")
    && p.local % (if item.alignment >= 1 then item.alignment else NaturalOf(item.size)) == 0
    && (if item.alignment >= 1 then item.alignment else NaturalOf(item.size)) <= sections[p.section].alignment
    && (ItemType(item) != 8 ==> p.local + item.size <= |sections[p.section].data|
                                && HoldsValue(item, sections[p.section].data[p.local..p.local + item.size]))
  }

  function NaturalOf(size: nat): (alignment: nat)
    ensures alignment in {1, 2, 4, 8} && (alignment < 8 ==> size <= alignment) && (alignment > 1 ==> alignment < 2 * size)
  {
    if size <= 1 then 1 else if size <= 2 then 2 else if size <= 4 then 4 else 8
  }

  ghost predicate HoldsValue(item: DataItem, bytes: seq<byte>) {
    && |bytes| == item.size && item.content <= bytes
    && (item.content == [] ==> LittleEndian(bytes) == item.value % Pow2(8 * item.size))
    && (item.content != [] ==> forall k :: |item.content| <= k < item.size ==> bytes[k] == 0)
  }

  lemma StandsWhenPlaced(sections: seq<Section>, item: DataItem, p: Placed)
    requires ItemPlaced(sections, item, p)
    ensures StandsAsDeclared(sections, item, p)
  {
    hide LittleEndian, ItemBytes;
    if !NoBits(item) {
      ItemReads(item);
    }
  }

  lemma {:induction false} DeclaredHas(items: seq<DataItem>, n: nat, i: nat) returns (k: nat)
    requires i < n <= |items| && (items[i].size > 0 || items[i].target == "" || items[i].target == "-")
    ensures k < |Declared(items, n)| && Declared(items, n)[k] == items[i]
  {
    if i == n - 1 {
      k := |Declared(items, n)| - 1;
    } else {
      k := DeclaredHas(items, n - 1, i);
    }
  }

  lemma {:induction false} DeclaredIs(items: seq<DataItem>, n: nat, k: nat) returns (i: nat)
    requires n <= |items| && k < |Declared(items, n)|
    ensures i < n && Declared(items, n)[k] == items[i] && (items[i].size > 0 || items[i].target == "" || items[i].target == "-")
  {
    if k < |Declared(items, n - 1)| {
      i := DeclaredIs(items, n - 1, k);
    } else {
      i := n - 1;
    }
  }

  ghost predicate StandsIn(sections: seq<Section>, item: DataItem, m: seq<Placed>) {
    exists k :: 0 <= k < |m| && StandsAsDeclared(sections, item, m[k])
  }

  ghost predicate PlaceOf(sections: seq<Section>, items: seq<DataItem>, p: Placed) {
    exists i :: 0 <= i < |items| && StandsAsDeclared(sections, items[i], p)
  }

  /** After the placement every object but the aliases stands as it was declared, and nothing else
      has a place among the first ones. */
  lemma DeclaredObjectsStand(sections: seq<Section>, items: seq<DataItem>, m: seq<Placed>)
    requires ItemsPlaced(sections, Declared(items, |items|), m)
    ensures forall i :: 0 <= i < |items| && (items[i].size > 0 || items[i].target == "" || items[i].target == "-") ==>
              StandsIn(sections, items[i], m)
    ensures forall k :: 0 <= k < |m| ==> PlaceOf(sections, items, m[k])
  {
    hide StandsAsDeclared, ItemPlaced, Declared;
    forall i | 0 <= i < |items| && (items[i].size > 0 || items[i].target == "" || items[i].target == "-")
      ensures StandsIn(sections, items[i], m)
    {
      var k := DeclaredHas(items, |items|, i);
      StandsWhenPlaced(sections, items[i], m[k]);
    }
    forall k | 0 <= k < |m|
      ensures PlaceOf(sections, items, m[k])
    {
      var i := DeclaredIs(items, |items|, k);
      StandsWhenPlaced(sections, items[i], m[k]);
    }
  }

  lemma ItemStays(a: seq<Section>, b: seq<Section>, item: DataItem, p: Placed)
    requires Grows(a, b) && ItemPlaced(a, item, p)
    ensures ItemPlaced(b, item, p)
  {
    var s, t := a[p.section].data, b[p.section].data;
    if !NoBits(item) {
      assert t[p.local..p.local + item.size] == s[p.local..p.local + item.size];
    }
  }

  // ---- Filling the gaps

  /** Among the first i declared ranges and the gaps appended behind all of them, one contains g. */
  ghost predicate InTile(m: seq<Placed>, declared: nat, i: nat, g: int) {
    exists k :: 0 <= k < |m| && (k < i || declared <= k) && m[k].start <= g < m[k].end
  }

  /** The first i declared ranges and the gaps tile the space up to `end`. */
  ghost predicate Tiled(m: seq<Placed>, declared: nat, i: nat, end: int) {
    && i <= declared <= |m| && 0 <= end
    && (forall k :: 0 <= k < |m| && (k < i || declared <= k) ==> 0 <= m[k].start <= m[k].end <= end)
    && (forall j, k :: 0 <= j < k < |m| && (j < i || declared <= j) && (k < i || declared <= k)
         ==> m[j].end <= m[k].start || m[k].end <= m[j].start)
    && (forall g :: 0 <= g < end ==> InTile(m, declared, i, g))
  }

  /** A stretch that no object was declared for is in the section .bss, at a multiple of eight. */
  ghost predicate GapPlaced(sections: seq<Section>, p: Placed) {
    AlignedIn(sections, p, 8) && sections[p.section].name == ".bss"
  }

  ghost predicate GapsPlaced(sections: seq<Section>, m: seq<Placed>, declared: nat) {
    forall k :: declared <= k < |m| ==> GapPlaced(sections, m[k])
  }

  lemma GapAdded(a: seq<Section>, b: seq<Section>, m: seq<Placed>, declared: nat, p: Placed)
    requires Grows(a, b) && GapsPlaced(a, m, declared) && GapPlaced(b, p)
    ensures GapsPlaced(b, m + [p], declared)
  {
    hide UniqueNames;
    forall k | declared <= k < |m + [p]|
      ensures GapPlaced(b, (m + [p])[k])
    {
      if k < |m| {
        assert GapPlaced(a, m[k]);
      }
    }
  }

  lemma NoGapsYet(sections: seq<Section>, m: seq<Placed>)
    ensures GapsPlaced(sections, m, |m|)
  {
  }

  lemma TiledGap(m: seq<Placed>, declared: nat, i: nat, end: int, p: Placed)
    requires Tiled(m, declared, i, end) && p.start == end < p.end
    ensures Tiled(m + [p], declared, i, p.end)
  {
    var n := m + [p];
    forall g | 0 <= g < p.end
      ensures InTile(n, declared, i, g)
    {
      if g < end {
        assert InTile(m, declared, i, g);
        var k :| 0 <= k < |m| && (k < i || declared <= k) && m[k].start <= g < m[k].end;
        assert n[k] == m[k];
      } else {
        assert n[|m|] == p;
      }
    }
  }

  lemma TiledNext(m: seq<Placed>, declared: nat, i: nat, end: int)
    requires Tiled(m, declared, i, end) && i < declared && m[i].start == end <= m[i].end
    ensures Tiled(m, declared, i + 1, m[i].end)
  {
    var next, n := m[i].end, i + 1;
    forall g | 0 <= g < next
      ensures InTile(m, declared, n, g)
    {
      if g < end {
        assert InTile(m, declared, i, g);
        var k :| 0 <= k < |m| && (k < i || declared <= k) && m[k].start <= g < m[k].end;
        assert k < i + 1 || declared <= k;
      } else {
        assert m[i].start <= g < m[i].end;
      }
    }
  }

  /** Once all declared ranges are tiled, every offset below the end has exactly one place. */
  lemma DataMapIsTotal(sections: seq<Section>, m: seq<Placed>, declared: nat, end: int, g: int) returns (k: nat)
    requires Tiled(m, declared, declared, end) && Extents(sections, m) && 0 <= g < end
    ensures k < |m| && m[k].start <= g < m[k].end
    ensures MapFrom(m, g, 0) == Some((m[k].section, m[k].local + g - m[k].start))
    ensures 1 <= m[k].section < |sections| && 0 <= m[k].local + g - m[k].start < sections[m[k].section].size
    ensures forall i :: 0 <= i < |m| && i != k ==> !(m[i].start <= g < m[i].end)
  {
    assert InTile(m, declared, declared, g);
    k :| 0 <= k < |m| && m[k].start <= g < m[k].end;
    MapFinds(m, g, 0, k);
  }

  // ---- The writer

  /** The cuts of the code; fails on a range outside it. */
  method Boundaries(code: seq<byte>, ranges: seq<CodeRange>) returns (ok: bool, unique: seq<int>)
    ensures ok <==> forall k :: 0 <= k < |ranges| ==> ValidRange(code, ranges[k])
    ensures ok ==> IsCuts(code, ranges, unique)
  {
    var boundaries := [0, |code|];
    for i := 0 to |ranges|
      invariant forall k :: 0 <= k < i ==> ValidRange(code, ranges[k]) && ranges[k].start in boundaries && ranges[k].end in boundaries
      invariant 0 in boundaries && |code| in boundaries
      invariant forall x :: x in boundaries ==> 0 <= x <= |code| && IsBoundary(code, ranges, x)
    {
      var r := ranges[i];
      if r.start < 0 || r.end > |code| || r.end <= r.start {
        return false, [];
      }
      assert IsBoundary(code, ranges, r.start) && IsBoundary(code, ranges, r.end);
      boundaries := boundaries + [r.start, r.end];
    }
    var sorted := InsertionSort(boundaries, (x: int) => x);
    SameMembers(boundaries, sorted);
    unique := Unique(sorted);
    ok := true;
  }

  class Writer {
    var code: seq<byte>
    var sections: seq<Section>
    var codeMap: seq<Placed>
    var dataMap: seq<Placed>

    constructor (code: seq<byte>)
      ensures this.code == code && sections == [Section("", 0, 0, 0, [], [])] && codeMap == [] && dataMap == []
    {
      this.code := code;
      sections, codeMap, dataMap := [Section("", 0, 0, 0, [], [])], [], [];
    }

    /** The section of a name, added if there is none yet. */
    method SectionIndex(name: string, typ: nat, alignment: nat) returns (index: nat)
      requires |sections| >= 1
      modifies this`sections
      ensures 1 <= index < |sections| && sections[index].name == name
      ensures Grows(old(sections), sections) && (Sized(old(sections)) ==> Sized(sections))
      ensures forall i :: 0 <= i < |old(sections)| ==>
        sections[i].size == old(sections)[i].size && sections[i].data == old(sections)[i].data && sections[i].typ == old(sections)[i].typ
      ensures |old(sections)| <= |sections| <= |old(sections)| + 1
      ensures |old(sections)| < |sections| ==> index == |old(sections)| && sections[index] == Section(name, typ, alignment, 0, [], [])
      ensures |old(sections)| < |sections| <==> forall i :: 1 <= i < |old(sections)| ==> old(sections)[i].name != name
      ensures sections[index].alignment >= alignment && TypesFollow(old(sections), sections, name, typ)
      ensures forall i :: 0 <= i < |old(sections)| && sections[i].alignment != old(sections)[i].alignment ==>
        i == index && sections[i].alignment == alignment > old(sections)[i].alignment
    {
      hide NameTyped, TypesFollow;
      for i := 1 to |sections|
        invariant sections == old(sections) && forall j :: 1 <= j < i ==> sections[j].name != name
      {
        if sections[i].name == name {
          if alignment > sections[i].alignment {
            sections := sections[i := sections[i].(alignment := alignment)];
          }
          AddedTypes(old(sections), sections, name, typ);
          return i;
        }
      }
      sections := sections + [Section(name, typ, alignment, 0, [], [])];
      AddedTypes(old(sections), sections, name, typ);
      return |sections| - 1;
    }

    /** Appends a stretch of code to its section, behind alignment padding of no-operations. */
    method PlaceInterval(start: nat, end: nat, name: string, alignment: nat)
      requires start < end <= |code| && alignment > 0 && |sections| >= 1
      requires forall i :: 0 <= i < |sections| ==> sections[i].size == |sections[i].data|
      requires Extents(sections, codeMap) && (forall k :: 0 <= k < |codeMap| ==> Holds(sections, code, codeMap[k]))
      modifies this`sections, this`codeMap
      ensures Grows(old(sections), sections) && Extents(sections, codeMap) && TypesFollow(old(sections), sections, name, 1)
      ensures forall i :: 0 <= i < |sections| ==> sections[i].size == |sections[i].data|
      ensures |codeMap| == |old(codeMap)| + 1 && codeMap[..|old(codeMap)|] == old(codeMap)
      ensures forall k :: 0 <= k < |codeMap| ==> Holds(sections, code, codeMap[k])
      ensures var p := codeMap[|old(codeMap)|];
        p.start == start && p.end == end && p.section < |sections| && sections[p.section].name == name && AlignedIn(sections, p, alignment)
    {
      hide Grows, Extents, Holds, UniqueNames, TypesFollow;
      ghost var before := sections;
      var section := SectionIndex(name, 1, alignment);
      ghost var open := sections;
      ExtentsStay(before, open, codeMap);
      var data := sections[section].data;
      var local := AlignValue(|data|, alignment);
      data := data + seq(local - |data|, _ => 0x90);
      data := data + code[start..end];
      sections := sections[section := sections[section].(data := data, size := |data|)];
      TypesFollowOn(before, open, sections, name, 1);
      var p := Placed(start, end, section, local);
      GrownBy(open, sections, section, data);
      GrowsTransitive(before, open, sections);
      ExtentAdded(open, sections, codeMap, p);
      PlacedHolds(open[section].data, local, code, p, sections);
      ghost var maps := codeMap;
      forall k | 0 <= k < |codeMap|
        ensures Holds(sections, code, codeMap[k])
      {
        HoldsStays(before, sections, code, codeMap[k]);
      }
      codeMap := codeMap + [p];
    }

    /** Partitions the code by the ranges and places every stretch; fails on a range outside the code. */
    method PlaceCode(ranges: seq<CodeRange>) returns (ok: bool, ghost cuts: seq<int>)
      requires |sections| >= 1 && codeMap == [] && (forall i :: 0 <= i < |sections| ==> sections[i].size == |sections[i].data|)
      modifies this`sections, this`codeMap
      ensures ok <==> forall k :: 0 <= k < |ranges| ==> ValidRange(code, ranges[k])
      ensures ok ==> CodePlaced(code, ranges, cuts, sections, codeMap)
      ensures Grows(old(sections), sections) && CodeTypesFollow(old(sections), sections, ranges)
    {
      CodeTypesStart(sections, ranges);
      var unique;
      ok, unique := Boundaries(code, ranges);
      cuts := unique;
      if !ok {
        return;
      }
      for i := 0 to |unique| - 1
        invariant PlacedUpTo(code, ranges, cuts, i, sections, codeMap) && Grows(old(sections), sections)
        invariant CodeTypesFollow(old(sections), sections, ranges)
      {
        ghost var before, maps := sections, codeMap;
        var start, end := unique[i], unique[i + 1];
        assert start in unique && end in unique;
        var name, alignment := ChooseSection(ranges, start, end);
        hide AskedFor, Extents, Grows, Holds, IsCuts, UniqueNames, CodeTypesFollow, TypesFollow;
        PlaceInterval(start, end, name, alignment);
        GrowsTransitive(old(sections), before, sections);
        CodeTypesStep(old(sections), before, sections, ranges, start, end, name, alignment);
        PlacedNext(code, ranges, cuts, i, before, maps, sections, codeMap);
      }
    }

    /** Appends the string constants to the read-only data. */
    method PlaceStrings(data: seq<byte>) returns (section: nat)
      requires |sections| >= 1 && (forall i :: 0 <= i < |sections| ==> sections[i].size == |sections[i].data|)
      requires Extents(sections, codeMap)
      modifies this`sections
      ensures Grows(old(sections), sections) && Extents(sections, codeMap) && TypesFollow(old(sections), sections, ".rodata", 1)
      ensures forall i :: 0 <= i < |sections| ==> sections[i].size == |sections[i].data|
      ensures data == [] ==> sections == old(sections)
      ensures data != [] ==> 1 <= section < |sections| && sections[section].name == ".rodata" && sections[section].alignment >= 8
      ensures data != [] ==> sections[section].data == (if section < |old(sections)| then old(sections)[section].data else []) + data
    {
      ghost var before := sections;
      section := 0;
      GrowsSelf(before);
      if |data| != 0 {
        section := SectionIndex(RODATA, 1, 8);
        ghost var open := sections;
        sections := sections[section := sections[section].(data := sections[section].data + data, size := |sections[section].data + data|)];
        hide Grows, Extents, TypesFollow;
        TypesFollowOn(before, open, sections, RODATA, 1);
        GrownBy(open, sections, section, open[section].data + data);
        GrowsTransitive(before, open, sections);
        ExtentsStay(before, sections, codeMap);
      }
    }

    /** Opens a stretch of `size` bytes at the aligned end of a section, without bytes yet. */
    method Reserve(name: string, typ: nat, alignment: nat, start: int, end: int, size: nat) returns (p: Placed)
      requires |sections| >= 1 && alignment > 0 && size == end - start && Sized(sections)
      requires Extents(sections, codeMap + dataMap)
      modifies this`sections, this`dataMap
      ensures Grows(old(sections), sections) && Sized(sections) && Extents(sections, codeMap + dataMap)
      ensures dataMap == old(dataMap) + [p] && p.start == start && p.end == end && 1 <= p.section < |sections|
      ensures sections[p.section].name == name && sections[p.section].size == p.local + size
      ensures |sections[p.section].data| <= p.local && AlignedIn(sections, p, alignment) && TypesFollow(old(sections), sections, name, typ)
    {
      hide Extents, Grows, TypesFollow;
      ghost var before := sections;
      var section := SectionIndex(name, typ, alignment);
      ghost var open := sections;
      ExtentsStay(before, open, codeMap + dataMap);
      var local := AlignValue(sections[section].size, alignment);
      sections := sections[section := sections[section].(size := local + size)];
      ResizedGrows(open, sections, section, local + size);
      TypesFollowOn(before, open, sections, name, typ);
      p := Placed(start, end, section, local);
      ExtentAdded(open, sections, codeMap + dataMap, p);
      GrowsTransitive(before, open, sections);
      assert codeMap + (dataMap + [p]) == codeMap + dataMap + [p];
      dataMap := dataMap + [p];
    }

    /** Writes an object's initial bytes into its reserved stretch. */
    method WriteItem(item: DataItem, p: Placed)
      requires p.section < |sections| && |item.content| <= item.size && |sections[p.section].data| <= p.local
      requires Sized(sections) && p.local + item.size <= sections[p.section].size
      modifies this`sections
      ensures Grows(old(sections), sections) && Sized(sections) && |sections| == |old(sections)| && SameFrames(old(sections), sections)
      ensures forall i :: 0 <= i < |sections| ==> sections[i].size == old(sections)[i].size
      ensures p.local + item.size <= |sections[p.section].data|
      ensures sections[p.section].data[p.local..p.local + item.size] == ItemBytes(item)
    {
      var data: seq<byte> := sections[p.section].data;
      data := data + seq(p.local + item.size - |data|, _ => 0);
      if |item.content| > 0 {
        data := data[..p.local] + item.content + data[p.local + |item.content|..];
      } else {
        for at := 0 to item.size
          invariant |data| == p.local + item.size && old(sections)[p.section].data <= data
          invariant forall k :: 0 <= k < at ==> data[p.local + k] == ByteOf(item.value, k)
        {
          data := data[p.local + at := ByteOf(item.value, at)];
        }
      }
      forall k | 0 <= k < item.size
        ensures data[p.local + k] == ItemBytes(item)[k]
      {
      }
      assert data[p.local..p.local + item.size] == ItemBytes(item);
      sections := sections[p.section := sections[p.section].(data := data)];
    }

    /** Reserves and writes one declared object. */
    method PlaceItem(item: DataItem) returns (ok: bool, p: Placed)
      requires |sections| >= 1 && Sized(sections) && Extents(sections, codeMap + dataMap)
      modifies this`sections, this`dataMap
      ensures |sections| >= 1 && Grows(old(sections), sections) && Sized(sections) && Extents(sections, codeMap + dataMap)
      ensures dataMap == old(dataMap) + [p]
      ensures ok <==> NoBits(item) || |item.content| <= item.size
      ensures ok ==> ItemPlaced(sections, item, p)
      ensures TypesFollow(old(sections), sections, SectionName(item), ItemType(item))
    {
      hide Extents, Grows, Sized, ItemPlaced, NoBits, SectionName, ItemType, TypesFollow, SameFrames;
      ItemTypeIs(item);
      var alignment := item.alignment;
      if alignment < 1 {
        alignment := NaturalAlignment(item.size);
      }
      ghost var before := sections;
      var nobits := NoBits(item);
      p := Reserve(SectionName(item), if nobits then 8 else 1, alignment, item.offset, item.offset + item.size, item.size);
      ghost var reserved := sections;
      ok := nobits || |item.content| <= item.size;
      if !ok {
        return;
      }
      if !nobits {
        WriteItem(item, p);
        GrowsTransitive(before, reserved, sections);
        ExtentsStay(reserved, sections, codeMap + dataMap);
        TypesFollowOn(before, reserved, sections, SectionName(item), ItemType(item));
      }
      NewItemPlaced(reserved, sections, item, p);
    }

    /** Places every declared object; fails when one has more bytes than room. */
    method PlaceItems(items: seq<DataItem>) returns (ok: bool)
      requires |sections| >= 1 && Sized(sections) && Extents(sections, codeMap) && dataMap == []
      modifies this`sections, this`dataMap
      ensures |sections| >= 1 && Grows(old(sections), sections) && Sized(sections) && Extents(sections, codeMap + dataMap)
      ensures ok ==> ItemsPlaced(sections, Declared(items, |items|), dataMap)
      ensures ok <==> AllFit(items, |items|)
      ensures ok ==> ItemTypesFollow(old(sections), sections, items, |items|)
    {
      hide *;
      ok := true;
      ItemTypesStart(sections, items);
      ItemsStart(sections, items);
      assert codeMap + dataMap == codeMap;
      for i := 0 to |items|
        invariant |sections| >= 1 && Grows(old(sections), sections) && Sized(sections) && ok
        invariant Extents(sections, codeMap + dataMap) && ItemsPlaced(sections, Declared(items, i), dataMap)
        invariant AllFit(items, i) && ItemTypesFollow(old(sections), sections, items, i)
      {
        var item := items[i];
        ItemStep(items, i);
        if item.size <= 0 && item.target != "" && item.target != "-" {
          ItemTypesStep(old(sections), sections, sections, items, i);
          continue;
        }
        ghost var before, maps := sections, dataMap;
        var p;
        ok, p := PlaceItem(item);
        GrowsTransitive(old(sections), before, sections);
        if !ok {
          return;
        }
        ItemTypesStep(old(sections), before, sections, items, i);
        ItemsStep(before, sections, items, i, maps, p);
      }
    }

    /** Places the declared objects and fills the rest of the space. */
    method PlaceData(items: seq<DataItem>, bssSize: int) returns (ok: bool, mappedEnd: int)
      requires |sections| >= 1 && Sized(sections) && Extents(sections, codeMap) && dataMap == []
      modifies this`sections, this`dataMap
      ensures Grows(old(sections), sections) && Sized(sections) && Extents(sections, codeMap + dataMap)
      ensures ok <==> AllFit(items, |items|) && ItemsInOrder(Declared(items, |items|))
      ensures ok ==> bssSize <= mappedEnd && |Declared(items, |items|)| <= |dataMap|
      ensures ok ==> ItemsPlaced(sections, Declared(items, |items|), dataMap[..|Declared(items, |items|)|])
      ensures ok ==> Tiled(dataMap, |Declared(items, |items|)|, |Declared(items, |items|)|, mappedEnd)
      ensures ok ==> GapsPlaced(sections, dataMap, |Declared(items, |items|)|) && DataTypesFollow(old(sections), sections, items)
    {
      hide *;
      ok := PlaceItems(items);
      if !ok {
        return ok, 0;
      }
      ghost var placed, m := sections, dataMap;
      SameCount(sections, Declared(items, |items|), m);
      SameOrder(sections, Declared(items, |items|), m);
      ok, mappedEnd := FillGaps(bssSize);
      DataTypes(old(sections), placed, sections, items);
      GrowsTransitive(old(sections), placed, sections);
      ItemsStay(placed, sections, Declared(items, |items|), m);
      ItemsAreFirst(sections, Declared(items, |items|), m, dataMap);
    }

    /** Fills the space between and behind the declared objects with anonymous .bss stretches;
        fails when the declared ranges overlap or are out of order. */
    method FillGaps(bssSize: int) returns (ok: bool, mappedEnd: int)
      requires |sections| >= 1 && Sized(sections) && Extents(sections, codeMap + dataMap)
      modifies this`sections, this`dataMap
      ensures Grows(old(sections), sections) && Sized(sections) && Extents(sections, codeMap + dataMap)
      ensures |old(dataMap)| <= |dataMap| && dataMap[..|old(dataMap)|] == old(dataMap)
      ensures ok <==> InOrder(old(dataMap), |old(dataMap)|)
      ensures GapsPlaced(sections, dataMap, |old(dataMap)|) && TypesFollow(old(sections), sections, ".bss", 8)
      ensures ok ==> bssSize <= mappedEnd && Tiled(dataMap, |old(dataMap)|, |old(dataMap)|, mappedEnd)
    {
      hide Extents, Grows, Sized, Tiled, InOrder, GapsPlaced, TypesFollow;
      ghost var given := dataMap;
      NoGapsYet(sections, dataMap);
      TypesFollowSelf(sections, ".bss", 8);
      var declaredRanges := |dataMap|;
      ok, mappedEnd := true, 0;
      TilingStarts(sections, dataMap);
      for i := 0 to declaredRanges
        invariant |sections| >= 1 && Grows(old(sections), sections) && Sized(sections) && Extents(sections, codeMap + dataMap)
        invariant |dataMap| >= declaredRanges && dataMap[..declaredRanges] == given
        invariant Tiled(dataMap, declaredRanges, i, mappedEnd) && InOrder(given, i)
        invariant mappedEnd == if i == 0 then 0 else given[i - 1].end
        invariant GapsPlaced(sections, dataMap, declaredRanges) && TypesFollow(old(sections), sections, ".bss", 8)
      {
        var r := dataMap[i];
        assert r == given[i];
        if r.start < mappedEnd {
          OutOfOrder(given, i);
          return false, mappedEnd;
        }
        InOrderNext(given, i);
        RangeIsForward(sections, codeMap, dataMap, i);
        if r.start > mappedEnd {
          ghost var before, maps := sections, dataMap;
          var p := Reserve(BSS, 8, 8, mappedEnd, r.start, r.start - mappedEnd);
          GrowsTransitive(old(sections), before, sections);
          TiledGap(maps, declaredRanges, i, mappedEnd, p);
          GapAdded(before, sections, maps, declaredRanges, p);
          TypesFollowBoth(old(sections), before, sections, ".bss", 8);
        }
        TiledNext(dataMap, declaredRanges, i, r.start);
        mappedEnd := r.end;
      }
      if bssSize > mappedEnd {
        ghost var before, maps := sections, dataMap;
        var p := Reserve(BSS, 8, 8, mappedEnd, bssSize, bssSize - mappedEnd);
        GrowsTransitive(old(sections), before, sections);
        TiledGap(maps, declaredRanges, declaredRanges, mappedEnd, p);
        GapAdded(before, sections, maps, declaredRanges, p);
        TypesFollowBoth(old(sections), before, sections, ".bss", 8);
        mappedEnd := bssSize;
      }
    }
  }

  /** Placing the data gives no section another type than its objects and, for .bss, the gaps do. */
  ghost predicate DataTypesFollow(a: seq<Section>, b: seq<Section>, items: seq<DataItem>) {
    forall name, t :: NameTyped(a, name, t) && ItemsTyped(items, |items|, name, t) && (name == ".bss" ==> t == 8) ==> NameTyped(b, name, t)
  }

  lemma DataTypes(a: seq<Section>, b: seq<Section>, c: seq<Section>, items: seq<DataItem>)
    requires ItemTypesFollow(a, b, items, |items|) && TypesFollow(b, c, ".bss", 8)
    ensures DataTypesFollow(a, c, items)
  {
    hide NameTyped, ItemsTyped;
  }

  lemma SameCount(sections: seq<Section>, items: seq<DataItem>, m: seq<Placed>)
    requires ItemsPlaced(sections, items, m)
    ensures |items| == |m|
  {
  }

  lemma ItemsAreFirst(sections: seq<Section>, items: seq<DataItem>, m: seq<Placed>, now: seq<Placed>)
    requires ItemsPlaced(sections, items, m) && |m| <= |now| && now[..|m|] == m
    ensures |items| <= |now| && ItemsPlaced(sections, items, now[..|items|])
  {
  }

  /** Ranges that start at or after 0 and after the end of the one before. */
  ghost predicate InOrder(m: seq<Placed>, n: nat)
    requires n <= |m|
  {
    forall i :: 0 <= i < n ==> (if i == 0 then 0 else m[i - 1].end) <= m[i].start
  }

  /** Objects that start at or after 0 and after the end of the one before. */
  predicate ItemsInOrder(items: seq<DataItem>) {
    forall i :: 0 <= i < |items| ==> (if i == 0 then 0 else items[i - 1].offset + items[i - 1].size) <= items[i].offset
  }

  lemma SameOrder(sections: seq<Section>, items: seq<DataItem>, m: seq<Placed>)
    requires ItemsPlaced(sections, items, m)
    ensures |m| == |items| && (ItemsInOrder(items) <==> InOrder(m, |m|))
  {
    hide SectionName, NoBits, ItemBytes, AlignedIn;
    assert forall i :: 0 <= i < |m| ==> ItemPlaced(sections, items[i], m[i]);
    forall i | 0 <= i < |m|
      ensures m[i].start == items[i].offset && m[i].end == items[i].offset + items[i].size
    {
    }
    forall i | 0 <= i < |m|
      ensures (if i == 0 then 0 else m[i - 1].end) <= m[i].start
         <==> (if i == 0 then 0 else items[i - 1].offset + items[i - 1].size) <= items[i].offset
    {
    }
  }

  lemma InOrderNext(m: seq<Placed>, i: nat)
    requires i < |m| && InOrder(m, i) && (if i == 0 then 0 else m[i - 1].end) <= m[i].start
    ensures InOrder(m, i + 1)
  {
  }

  lemma TilingStarts(sections: seq<Section>, m: seq<Placed>)
    ensures Grows(sections, sections) && Tiled(m, |m|, 0, 0) && InOrder(m, 0)
  {
  }

  lemma OutOfOrder(m: seq<Placed>, i: nat)
    requires i < |m| && m[i].start < if i == 0 then 0 else m[i - 1].end
    ensures !InOrder(m, |m|)
  {
  }

  lemma RangeIsForward(sections: seq<Section>, codeMap: seq<Placed>, dataMap: seq<Placed>, i: nat)
    requires Extents(sections, codeMap + dataMap) && i < |dataMap|
    ensures dataMap[i].start <= dataMap[i].end
  {
    assert (codeMap + dataMap)[|codeMap| + i] == dataMap[i];
  }

  /** Every object among the first n that is placed with bytes has room for them. */
  ghost predicate AllFit(items: seq<DataItem>, n: nat)
    requires n <= |items|
  {
    forall i :: 0 <= i < n && !IsAlias(items[i]) ==> NoBits(items[i]) || |items[i].content| <= items[i].size
  }

  lemma ItemStep(items: seq<DataItem>, i: nat)
    requires i < |items| && AllFit(items, i)
    ensures IsAlias(items[i]) <==> items[i].size <= 0 && items[i].target != "" && items[i].target != "-"
    ensures IsAlias(items[i]) ==> AllFit(items, i + 1) && Declared(items, i + 1) == Declared(items, i)
    ensures !IsAlias(items[i]) ==> Declared(items, i + 1) == Declared(items, i) + [items[i]]
    ensures !IsAlias(items[i]) && (NoBits(items[i]) || |items[i].content| <= items[i].size) ==> AllFit(items, i + 1)
    ensures !IsAlias(items[i]) && !(NoBits(items[i]) || |items[i].content| <= items[i].size) ==> !AllFit(items, |items|)
  {
  }

  lemma ItemsStart(sections: seq<Section>, items: seq<DataItem>)
    ensures Grows(sections, sections) && AllFit(items, 0) && ItemsPlaced(sections, Declared(items, 0), [])
  {
  }

  lemma ItemsStep(a: seq<Section>, b: seq<Section>, items: seq<DataItem>, i: nat, m: seq<Placed>, p: Placed)
    requires i < |items| && !IsAlias(items[i]) && Grows(a, b) && ItemsPlaced(a, Declared(items, i), m)
    requires ItemPlaced(b, items[i], p)
    ensures ItemsPlaced(b, Declared(items, i + 1), m + [p])
  {
    hide Grows, ItemPlaced;
    ItemsStay(a, b, Declared(items, i), m);
  }

  ghost predicate ItemsPlaced(sections: seq<Section>, items: seq<DataItem>, m: seq<Placed>) {
    |m| == |items| && forall k :: 0 <= k < |m| ==> ItemPlaced(sections, items[k], m[k])
  }

  lemma ItemsStay(a: seq<Section>, b: seq<Section>, items: seq<DataItem>, m: seq<Placed>)
    requires Grows(a, b) && ItemsPlaced(a, items, m)
    ensures ItemsPlaced(b, items, m)
  {
    forall k | 0 <= k < |m|
      ensures ItemPlaced(b, items[k], m[k])
    {
      ItemStays(a, b, items[k], m[k]);
    }
  }

  lemma NewItemPlaced(a: seq<Section>, b: seq<Section>, item: DataItem, p: Placed)
    requires p.start == item.offset && p.end == item.offset + item.size && p.section < |a|
    requires a[p.section].name == SectionName(item) && (Grows(a, b) || a == b) && AlignedIn(a, p, ItemAlignment(item))
    requires !NoBits(item) ==>
      && |item.content| <= item.size && p.local + item.size <= |b[p.section].data|
      && b[p.section].data[p.local..p.local + item.size] == ItemBytes(item)
    ensures ItemPlaced(b, item, p)
  {
  }

  lemma ResizedGrows(a: seq<Section>, b: seq<Section>, s: nat, size: nat)
    requires s < |a| && a[s].size <= size && b == a[s := a[s].(size := size)]
    ensures Grows(a, b) && (Sized(a) ==> Sized(b))
  {
  }

  lemma SameMembers(a: seq<int>, b: seq<int>)
    requires multiset(a) == multiset(b)
    ensures forall x :: x in a <==> x in b
  {
    forall x
      ensures x in a <==> x in b
    {
      assert x in multiset(a) <==> x in a;
      assert x in multiset(b) <==> x in b;
    }
  }

  lemma GrownBy(a: seq<Section>, b: seq<Section>, s: nat, data: seq<byte>)
    requires s < |a| && a[s].data <= data && a[s].size <= |data|
    requires b == a[s := a[s].(data := data, size := |data|)]
    ensures Grows(a, b)
  {
  }

  lemma PlacedHolds(was: seq<byte>, local: nat, code: seq<byte>, p: Placed, sections: seq<Section>)
    requires 0 <= p.start < p.end <= |code| && p.section < |sections| && p.local == local && |was| <= local
    requires sections[p.section].data == was + seq(local - |was|, _ => 0x90) + code[p.start..p.end]
    ensures Holds(sections, code, p)
  {
  }

  /** Code and data never share a place, even in a section that holds both. */
  lemma CodeApartFromData(sections: seq<Section>, codeMap: seq<Placed>, dataMap: seq<Placed>, position: int, offset: int)
    requires Extents(sections, codeMap + dataMap)
    requires MapFrom(codeMap, position, 0).Some? && MapFrom(dataMap, offset, 0).Some?
    ensures MapFrom(codeMap, position, 0) != MapFrom(dataMap, offset, 0)
  {
    var i := MapOwner(codeMap, position, 0);
    var j := MapOwner(dataMap, offset, 0);
    var m := codeMap + dataMap;
    assert m[i] == codeMap[i] && m[|codeMap| + j] == dataMap[j];
  }
}
