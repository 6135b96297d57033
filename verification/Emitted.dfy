/** What the emitter leaves behind for the layout passes: code with label positions and
    references, and the notion of its instruction boundaries. */
module Emitted {

  /** A label reference: the offset of a displacement field and the label it refers to.
      Both are int32 words; the sign bits carry marks for the passes. */
  datatype Reloc = Reloc(at: int, lbl: int)

  /** A reference to data or to an external name: field offset, offset or index, kind. */
  datatype AbsReloc = AbsReloc(at: int, off: int, kind: int)

  /** The position of a label, -1 while it is unset. */
  function LabelPosition(labelPos: seq<int>, lbl: int): int {
    if 0 <= lbl < |labelPos| then labelPos[lbl] else -1
  }

  /** No boundary lies strictly between two positions. */
  ghost predicate Inside(bounds: set<int>, lo: int, hi: int) {
    forall b :: b in bounds ==> !(lo < b < hi)
  }

  ghost predicate IsInstruction(bounds: set<int>, lo: int, hi: int) {
    lo in bounds && hi in bounds && Inside(bounds, lo, hi)
  }

  /** Two four-byte fields do not overlap. */
  predicate Apart(p: int, q: int) {
    p + 4 <= q || q + 4 <= p
  }
}
