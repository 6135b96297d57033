/** The push/pop peephole of the AArch64 emitter keeps the meaning of every piece of code between
    two labels. */
module Aarch64PushPop {
  import opened Wrappers

  type register = r: nat | r < 32

  datatype Insn =
    | Push(reg: register)
    | Pop(reg: register)
    | Mov(dst: register, src: register)
    | Other(id: int)

  /** Registers 0 to 30, the stack pointer as a slot number growing downwards, and the slots. */
  datatype State = State(regs: seq<int>, sp: int, slots: int -> int)

  ghost predicate WellFormed(s: State) {
    |s.regs| == 31
  }

  /** Register 31 of a push, a pop or a move is the zero register. */
  function Read(s: State, r: register): int
    requires WellFormed(s)
  {
    if r == 31 then 0 else s.regs[r]
  }

  function Write(s: State, r: register, v: int): (t: State)
    requires WellFormed(s)
    ensures WellFormed(t)
  {
    if r == 31 then s else s.(regs := s.regs[r := v])
  }

  /** What the other instructions do; any meaning that keeps the state well formed. */
  type Meaning = (int, State) -> State

  /** The same registers, the same stack pointer and the same live slots: what lies below the stack
      pointer is dead. */
  ghost predicate Same(s: State, t: State) {
    && WellFormed(s) && WellFormed(t) && s.regs == t.regs && s.sp == t.sp
    && forall a :: a >= s.sp ==> s.slots(a) == t.slots(a)
  }

  /** No other instruction looks at dead slots. */
  ghost predicate Respects(meaning: Meaning) {
    forall id, s, t :: Same(s, t) ==> Same(meaning(id, s), meaning(id, t))
  }

  function Step(meaning: Meaning, i: Insn, s: State): State
    requires WellFormed(s)
  {
    match i
    case Push(r) => State(s.regs, s.sp - 1, a => if a == s.sp - 1 then (if r == 31 then 0 else if r < |s.regs| then s.regs[r] else 0) else s.slots(a))
    case Pop(r) => Write(s.(sp := s.sp + 1), r, s.slots(s.sp))
    case Mov(d, r) => Write(s, d, Read(s, r))
    case Other(id) => meaning(id, s)
  }

  ghost function Run(meaning: Meaning, code: seq<Insn>, s: State): (t: State)
    requires Respects(meaning) && WellFormed(s)
    ensures WellFormed(t)
  {
    if code == [] then s
    else
      var before := Run(meaning, code[..|code| - 1], s);
      StepSame(meaning, code[|code| - 1], before, before);
      Step(meaning, code[|code| - 1], before)
  }

  lemma StepSame(meaning: Meaning, i: Insn, s: State, t: State)
    requires Respects(meaning) && Same(s, t)
    ensures Same(Step(meaning, i, s), Step(meaning, i, t))
  {
  }

  /** Two pieces of code that, from alike states, leave alike states. */
  ghost predicate Equivalent(meaning: Meaning, a: seq<Insn>, b: seq<Insn>)
    requires Respects(meaning)
  {
    forall s, t :: Same(s, t) ==> Same(Run(meaning, a, s), Run(meaning, b, t))
  }

  lemma RunLast(meaning: Meaning, code: seq<Insn>, i: Insn, s: State)
    requires Respects(meaning) && WellFormed(s)
    ensures Run(meaning, code + [i], s) == Step(meaning, i, Run(meaning, code, s))
  {
    assert (code + [i])[..|code|] == code;
  }

  lemma AppendBoth(meaning: Meaning, a: seq<Insn>, b: seq<Insn>, i: Insn)
    requires Respects(meaning) && Equivalent(meaning, a, b)
    ensures Equivalent(meaning, a + [i], b + [i])
  {
    hide Step, Run;
    forall s, t | Same(s, t)
      ensures Same(Run(meaning, a + [i], s), Run(meaning, b + [i], t))
    {
      RunLast(meaning, a, i, s);
      RunLast(meaning, b, i, t);
      StepSame(meaning, i, Run(meaning, a, s), Run(meaning, b, t));
    }
  }

  /** A move, unless it is onto itself. */
  function MovCode(dst: register, src: register): seq<Insn> {
    if dst == src then [] else [Mov(dst, src)]
  }

  lemma MoveForPair(meaning: Meaning, s: State, t: State, dst: register, src: register)
    requires Respects(meaning) && Same(s, t)
    ensures Same(if dst == src then s else Step(meaning, Mov(dst, src), s), Step(meaning, Pop(dst), Step(meaning, Push(src), t)))
  {
  }

  /** A pair of push and pop may be a move: only a dead slot differs. */
  lemma FoldPair(meaning: Meaning, a: seq<Insn>, b: seq<Insn>, dst: register, src: register)
    requires Respects(meaning) && Equivalent(meaning, a, b)
    ensures Equivalent(meaning, a + MovCode(dst, src), b + [Push(src)] + [Pop(dst)])
  {
    hide Step, Run;
    forall s, t | Same(s, t)
      ensures Same(Run(meaning, a + MovCode(dst, src), s), Run(meaning, b + [Push(src)] + [Pop(dst)], t))
    {
      RunLast(meaning, b, Push(src), t);
      RunLast(meaning, b + [Push(src)], Pop(dst), t);
      MoveForPair(meaning, Run(meaning, a, s), Run(meaning, b, t), dst, src);
      if dst == src {
        assert a + MovCode(dst, src) == a;
      } else {
        RunLast(meaning, a, Mov(dst, src), s);
      }
    }
  }

  lemma EmptyEquivalent(meaning: Meaning)
    requires Respects(meaning)
    ensures Equivalent(meaning, [], [])
  {
  }

  // ---- The emitter

  /** What is asked of the emitter. A barrier is a label or a reference, which clears the marker. */
  datatype Request = PushReg(reg: register) | PopReg(reg: register) | Barrier | Emit(id: int, load: nat)

  function Plain(r: Request): Insn
    requires !r.Barrier?
  {
    match r
    case PushReg(reg) => Push(reg)
    case PopReg(reg) => Pop(reg)
    case Emit(id, _) => Other(id)
  }

  /** The code without the peephole: what was asked for, in pieces between barriers. */
  function Pieces(requests: seq<Request>): (r: seq<seq<Insn>>)
    ensures |r| > 0
  {
    if requests == [] then [[]]
    else
      var front, last := Pieces(requests[..|requests| - 1]), requests[|requests| - 1];
      if last.Barrier? then front + [[]] else front[|front| - 1 := front[|front| - 1] + [Plain(last)]]
  }

  /** The stretch of the code from a barrier to the next, or to the end. */
  function Piece(code: seq<Insn>, cuts: seq<nat>, k: nat): seq<Insn>
    requires k < |cuts| && Ordered(cuts, |code|)
  {
    code[cuts[k]..if k + 1 < |cuts| then cuts[k + 1] else |code|]
  }

  ghost predicate Ordered(cuts: seq<nat>, end: nat) {
    && (forall k :: 0 <= k < |cuts| ==> cuts[k] <= end)
    && (forall j, k :: 0 <= j < k < |cuts| ==> cuts[j] <= cuts[k])
  }

  /** The marker left by a push: the end of the code in bytes and the register. */
  function Marker(end: nat, reg: register): int {
    -(end * 4 * 32 + reg + 1)
  }

  /** The code in which every push that a pop directly follows is folded with it, and nothing else is. */
  function Folding(requests: seq<Request>): seq<Insn>
    decreases |requests|
  {
    if requests == [] then []
    else
      var n := |requests| - 1;
      match requests[n]
      case PushReg(reg) => Folding(requests[..n]) + [Push(reg)]
      case PopReg(reg) =>
        if n > 0 && requests[n - 1].PushReg? then Folding(requests[..n - 1]) + MovCode(reg, requests[n - 1].reg)
        else Folding(requests[..n]) + [Pop(reg)]
      case Barrier => Folding(requests[..n])
      case Emit(id, _) => Folding(requests[..n]) + [Other(id)]
  }

  /** The note names the push that was asked for last, and no push at the end of the code otherwise. */
  predicate Noted(requests: seq<Request>, end: nat, load: int) {
    if requests != [] && requests[|requests| - 1].PushReg? then load == Marker(end, requests[|requests| - 1].reg)
    else load > Marker(end, 0)
  }

  lemma FoldingNext(requests: seq<Request>, i: nat)
    requires i < |requests|
    ensures match requests[i]
      case PushReg(reg) => Folding(requests[..i + 1]) == Folding(requests[..i]) + [Push(reg)]
      case PopReg(reg) =>
        if i > 0 && requests[i - 1].PushReg? then Folding(requests[..i + 1]) == Folding(requests[..i - 1]) + MovCode(reg, requests[i - 1].reg)
        else Folding(requests[..i + 1]) == Folding(requests[..i]) + [Pop(reg)]
      case Barrier => Folding(requests[..i + 1]) == Folding(requests[..i])
      case Emit(id, _) => Folding(requests[..i + 1]) == Folding(requests[..i]) + [Other(id)]
    ensures i > 0 && requests[i - 1].PushReg? ==> Folding(requests[..i]) == Folding(requests[..i - 1]) + [Push(requests[i - 1].reg)]
  {
    assert requests[..i + 1][..i] == requests[..i];
    if i > 0 {
      assert requests[..i + 1][..i - 1] == requests[..i - 1] && requests[..i][..i - 1] == requests[..i - 1];
    }
  }

  /** The emitted pieces against the plain ones; a live marker names the push at the end of the last
      piece. */
  ghost predicate Agrees(meaning: Meaning, code: seq<Insn>, cuts: seq<nat>, load: int, plain: seq<seq<Insn>>)
    requires Respects(meaning)
  {
    && |cuts| == |plain| > 0 && cuts[0] == 0 && Ordered(cuts, |code|) && load >= Marker(|code|, 31)
    && (forall k :: 0 <= k < |cuts| ==> Equivalent(meaning, Piece(code, cuts, k), plain[k]))
    && (forall reg: register :: load == Marker(|code|, reg) ==> PushAtEnd(meaning, code, cuts, plain, reg))
  }

  ghost predicate PushAtEnd(meaning: Meaning, code: seq<Insn>, cuts: seq<nat>, plain: seq<seq<Insn>>, reg: register)
    requires Respects(meaning) && |cuts| == |plain| > 0
  {
    var start, last := cuts[|cuts| - 1], plain[|plain| - 1];
    && start < |code| && code[|code| - 1] == Push(reg) && |last| > 0 && last[|last| - 1] == Push(reg)
    && Equivalent(meaning, code[start..|code| - 1], last[..|last| - 1])
  }

  /** The plain pieces after one more instruction. */
  function Asked(plain: seq<seq<Insn>>, i: Insn): (r: seq<seq<Insn>>)
    requires |plain| > 0
    ensures |r| == |plain|
  {
    plain[|plain| - 1 := plain[|plain| - 1] + [i]]
  }

  lemma Appended(meaning: Meaning, code: seq<Insn>, cuts: seq<nat>, plain: seq<seq<Insn>>, i: Insn, load: int, load': int)
    requires Respects(meaning) && Agrees(meaning, code, cuts, load, plain)
    requires load' == 0 || load' == load || load' > 0 || (i.Push? && load' == Marker(|code| + 1, i.reg))
    ensures Agrees(meaning, code + [i], cuts, load', Asked(plain, i))
  {
    hide Equivalent, Respects, Run, Step;
    var n := |cuts| - 1;
    forall k | 0 <= k < |cuts|
      ensures Equivalent(meaning, Piece(code + [i], cuts, k), Asked(plain, i)[k])
    {
      if k < n {
        assert Piece(code + [i], cuts, k) == Piece(code, cuts, k);
      } else {
        assert Piece(code + [i], cuts, n) == Piece(code, cuts, n) + [i];
        AppendBoth(meaning, Piece(code, cuts, n), plain[n], i);
      }
    }
    assert (code + [i])[cuts[n]..|code|] == Piece(code, cuts, n);
    assert Asked(plain, i)[n][..|plain[n]|] == plain[n];
  }

  lemma Folded(meaning: Meaning, code: seq<Insn>, cuts: seq<nat>, plain: seq<seq<Insn>>, load: int, source: register, dst: register)
    requires Respects(meaning) && Agrees(meaning, code, cuts, load, plain) && |code| > 0 && load == Marker(|code|, source)
    ensures Agrees(meaning, code[..|code| - 1] + MovCode(dst, source), cuts, 0, Asked(plain, Pop(dst)))
  {
    hide Equivalent, Respects, Run, Step;
    assert PushAtEnd(meaning, code, cuts, plain, source);
    var n := |cuts| - 1;
    var folded := code[..|code| - 1] + MovCode(dst, source);
    assert Ordered(cuts, |folded|) by {
      assert forall k :: 0 <= k < |cuts| ==> cuts[k] <= cuts[n];
    }
    forall k | 0 <= k < |cuts|
      ensures Equivalent(meaning, Piece(folded, cuts, k), Asked(plain, Pop(dst))[k])
    {
      if k < n {
        assert Piece(folded, cuts, k) == Piece(code, cuts, k);
      } else {
        var a, b := code[cuts[n]..|code| - 1], plain[n][..|plain[n]| - 1];
        assert Piece(folded, cuts, n) == a + MovCode(dst, source);
        assert plain[n] == b + [Push(source)];
        FoldPair(meaning, a, b, dst, source);
      }
    }
  }

  lemma Opened(meaning: Meaning, code: seq<Insn>, cuts: seq<nat>, plain: seq<seq<Insn>>, load: int)
    requires Respects(meaning) && Agrees(meaning, code, cuts, load, plain)
    ensures Agrees(meaning, code, cuts + [|code|], 0, plain + [[]])
  {
    hide Equivalent, Respects, Run, Step;
    var cuts', plain' := cuts + [|code|], plain + [[]];
    forall k | 0 <= k < |cuts'|
      ensures Equivalent(meaning, Piece(code, cuts', k), plain'[k])
    {
      if k < |cuts| {
        assert Piece(code, cuts', k) == Piece(code, cuts, k);
      } else {
        EmptyEquivalent(meaning);
      }
    }
  }

  // ---- Falling through from piece to piece

  lemma {:induction false} RunOn(meaning: Meaning, a: seq<Insn>, b: seq<Insn>, s: State)
    requires Respects(meaning) && WellFormed(s)
    ensures Run(meaning, a + b, s) == Run(meaning, b, Run(meaning, a, s))
  {
    hide Step;
    if b == [] {
      assert a + b == a;
    } else {
      var last := b[|b| - 1];
      assert a + b == (a + b[..|b| - 1]) + [last] && b == b[..|b| - 1] + [last];
      RunOn(meaning, a, b[..|b| - 1], s);
      RunLast(meaning, a + b[..|b| - 1], last, s);
      RunLast(meaning, b[..|b| - 1], last, Run(meaning, a, s));
    }
  }

  lemma BothEquivalent(meaning: Meaning, a: seq<Insn>, b: seq<Insn>, a': seq<Insn>, b': seq<Insn>)
    requires Respects(meaning) && Equivalent(meaning, a, b) && Equivalent(meaning, a', b')
    ensures Equivalent(meaning, a + a', b + b')
  {
    hide Step, Run;
    forall s, t | Same(s, t)
      ensures Same(Run(meaning, a + a', s), Run(meaning, b + b', t))
    {
      RunOn(meaning, a, a', s);
      RunOn(meaning, b, b', t);
    }
  }

  /** Pieces one behind the other. */
  function Flat(pieces: seq<seq<Insn>>): seq<Insn> {
    if pieces == [] then [] else Flat(pieces[..|pieces| - 1]) + pieces[|pieces| - 1]
  }

  /** Entered at any barrier and left at any later one, or at the end, the code means what was asked
      for in between. */
  lemma {:induction false} PiecesCompose(meaning: Meaning, code: seq<Insn>, cuts: seq<nat>, load: int, plain: seq<seq<Insn>>, j: nat, k: nat)
    requires Respects(meaning) && Agrees(meaning, code, cuts, load, plain) && j <= k < |cuts|
    ensures cuts[j] <= (if k + 1 < |cuts| then cuts[k + 1] else |code|) <= |code|
    ensures Equivalent(meaning, code[cuts[j]..if k + 1 < |cuts| then cuts[k + 1] else |code|], Flat(plain[j..k + 1]))
    decreases k
  {
    hide Equivalent, Run, Step, PushAtEnd;
    var one := plain[j..k + 1];
    assert one[..|one| - 1] == plain[j..k];
    if j == k {
      assert Flat(one) == plain[k];
      assert Equivalent(meaning, Piece(code, cuts, k), plain[k]);
    } else {
      PiecesCompose(meaning, code, cuts, load, plain, j, k - 1);
      BothEquivalent(meaning, code[cuts[j]..cuts[k]], Flat(plain[j..k]), Piece(code, cuts, k), plain[k]);
      assert code[cuts[j]..cuts[k]] + Piece(code, cuts, k) == code[cuts[j]..if k + 1 < |cuts| then cuts[k + 1] else |code|];
    }
  }

  class Emitter {
    ghost const meaning: Meaning
    var code: seq<Insn>
    var lastPrimaryLoad: int
    ghost var cuts: seq<nat>
    ghost var plain: seq<seq<Insn>>

    ghost predicate Valid()
      reads this
    {
      Respects(meaning) && Agrees(meaning, code, cuts, lastPrimaryLoad, plain)
    }

    constructor (ghost meaning: Meaning)
      requires Respects(meaning)
      ensures Valid() && this.meaning == meaning && plain == [[]] && code == [] && lastPrimaryLoad == 0
    {
      this.meaning := meaning;
      code, lastPrimaryLoad, cuts, plain := [], 0, [0], [[]];
      EmptyEquivalent(meaning);
    }

    method PushRegister(reg: register)
      requires Valid()
      modifies this
      ensures Valid() && plain == Asked(old(plain), Push(reg))
      ensures code == old(code) + [Push(reg)] && lastPrimaryLoad == Marker(|code|, reg)
    {
      hide Equivalent, Respects, Run, Step;
      Appended(meaning, code, cuts, plain, Push(reg), lastPrimaryLoad, Marker(|code| + 1, reg));
      code := code + [Push(reg)];
      lastPrimaryLoad := Marker(|code|, reg);
      plain := Asked(plain, Push(reg));
    }

    method PopRegister(reg: register)
      requires Valid()
      modifies this
      ensures Valid() && plain == Asked(old(plain), Pop(reg)) && lastPrimaryLoad == 0
      ensures forall source: register :: old(lastPrimaryLoad) == Marker(|old(code)|, source) ==>
                |old(code)| > 0 && code == old(code)[..|old(code)| - 1] + MovCode(reg, source)
      ensures old(lastPrimaryLoad) > Marker(|old(code)|, 0) ==> code == old(code) + [Pop(reg)]
    {
      hide Equivalent, Respects, Run, Step;
      var end := |code| * 4;
      var marker := -lastPrimaryLoad - 1;
      ghost var load := lastPrimaryLoad;
      lastPrimaryLoad := 0;
      if end >= 4 && marker >= 0 && marker / 32 == end {
        var source: register := marker % 32;
        if code[|code| - 1] == Push(source) {
          assert load == Marker(|code|, source);
          Folded(meaning, code, cuts, plain, load, source, reg);
          code := code[..|code| - 1] + MovCode(reg, source);
          plain := Asked(plain, Pop(reg));
          return;
        }
      }
      Appended(meaning, code, cuts, plain, Pop(reg), load, 0);
      code := code + [Pop(reg)];
      plain := Asked(plain, Pop(reg));
    }

    /** Any other instruction; one that loads the primary register may leave its own note. */
    method EmitOther(id: int, load: nat)
      requires Valid()
      modifies this
      ensures Valid() && plain == Asked(old(plain), Other(id))
      ensures code == old(code) + [Other(id)] && lastPrimaryLoad == if load != 0 then load else old(lastPrimaryLoad)
    {
      hide Equivalent, Respects, Run, Step;
      Appended(meaning, code, cuts, plain, Other(id), lastPrimaryLoad, if load != 0 then load else lastPrimaryLoad);
      code := code + [Other(id)];
      if load != 0 {
        lastPrimaryLoad := load;
      }
      plain := Asked(plain, Other(id));
    }

    /** A label or a reference at the end of the code. */
    method MarkBarrier()
      requires Valid()
      modifies this
      ensures Valid() && plain == old(plain) + [[]] && cuts == old(cuts) + [|code|] && code == old(code)
      ensures lastPrimaryLoad == 0
    {
      hide Respects, Run, Step;
      Opened(meaning, code, cuts, plain, lastPrimaryLoad);
      lastPrimaryLoad := 0;
      cuts := cuts + [|code|];
      plain := plain + [[]];
    }

    /** Any sequence of requests: exactly the pushes that a pop directly follows are folded; between any
        two barriers the emitted code means what was asked, and so does the code as a whole. */
    method EmitAll(requests: seq<Request>)
      requires Valid() && plain == [[]] && code == [] && lastPrimaryLoad == 0
      modifies this
      ensures Valid() && plain == Pieces(requests) && code == Folding(requests)
      ensures Equivalent(meaning, code, Flat(Pieces(requests)))
    {
      for i := 0 to |requests|
        invariant Valid() && plain == Pieces(requests[..i])
        invariant code == Folding(requests[..i]) && Noted(requests[..i], |code|, lastPrimaryLoad)
      {
        assert requests[..i + 1][..i] == requests[..i];
        FoldingNext(requests, i);
        match requests[i]
        case PushReg(reg) => PushRegister(reg);
        case PopReg(reg) => PopRegister(reg);
        case Barrier => MarkBarrier();
        case Emit(id, load) => EmitOther(id, load);
      }
      assert requests[..|requests|] == requests;
      PiecesCompose(meaning, code, cuts, lastPrimaryLoad, plain, 0, |cuts| - 1);
      assert plain[0..|cuts|] == plain && code[0..|code|] == code;
    }
  }
}
