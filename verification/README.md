# Layout passes and lowerings of the native back ends

This project models the parts of the compiler's native back ends that rewrite finished machine code,
and the arithmetic and memory helpers around them, and proves that they keep the code's meaning. Code
is a sequence of bytes, a label is a position or -1, a reference is a field offset together with a
label (or a data offset and kind). Passes that update a code generator in place are classes whose
methods are proved against definitions over sequences; the results about the passes are lemmas over
those definitions.

- `Shrink` defines the position map of a set of cuts in code (each cut drops the tail of one
  instruction) and its laws. `Amd64Relax` is the branch relaxation of the AMD64 back end with its sparse
  index, binary search, rewinding cursors and in-place compaction; `Amd64Flow` decodes the finished
  bytes and states what became of every jump, conditional jump and call, with a reference or without;
  `Amd64Choice` states which branches become short, from their bytes, labels and distances alone.
- `Code16` is the translator from code for 32-bit defaults to code for 16-bit defaults: the opcode
  rows, the rewriter, and its position map. What an instruction means is not taken from those rows:
  `Code16Reference` describes, after volume 2 of the Intel SDM (chapter 2 and appendix A), how long an
  instruction is and which sizes matter to it, and `Code16` shows where the rows agree with that, which
  opcodes they refuse, and so which code the rewriter accepts.
  `Code16Branches` follows the relative branches that have no reference. `Code16Narrow` is the following
  pass that narrows near transfers to rel16, `Code16Choice` states which transfers it narrows,
  `Code16Apply` joins the two, `Code16Transfers` decodes the transfers of the result, and `Code16Stream` reads the result instruction by instruction.
- `ObjectSections` places code by prioritised overlapping ranges and data by declared ranges with gap
  filling; `ObjectLabels` turns label references into displacements or relocation records, loads the
  result at arbitrary section addresses with a loader that goes by the type number of each record, as the
  System V ABI supplements for AMD64 and the 386 define them, and joins the steps from the flat code to the
  loaded program.
- `ObjectIndex`, `ObjectRecord`, `ObjectReplay`, `ObjectRefusal`, `ObjectFormat`, `ObjectRanges`,
  `ObjectStorable`, `ObjectEmission`, `ObjectCache` and `ObjectStorage` are the function object cache: finding
  functions by identity, the record format, replaying at other bases, what a refused record leaves behind,
  exactly which bytes are accepted and which emissions are recorded, emission through the cache compared
  with plain emission, the step-by-step writer and reader, and the direct-mapped cache over one
  bump-allocated buffer.
- `WideArithmetic` runs the emitted two-word arithmetic on a machine with two registers and a frame of
  32-bit words. `CopyBytes` runs the emitted copy helpers on a byte memory. `ArmImmediate` and `ArmCode`
  are the rotated immediates and the constant, addition and memory-access sequences of ARM,
  `Aarch64Code` those of AArch64, with a small meaning for each instruction word; `Aarch64PushPop` is the
  push/pop peephole.
- `Sha256` and `CodeSignature` are the page digests and the signature of Mach-O images, which a reader that
  knows only the format verifies; `Sha256Constants` shows the tables to be the roots of primes that FIPS
  180-4 asks for. `ByteStrings` is the embedding of static data as JVM string constants.
- `Bytes`, `Emitted`, `Powers`, `Rotations` and `Wrappers` hold what several modules share.

`dafny verify dfyconfig.toml` checks the whole project.

Some expected properties hold only under a condition, and the project states it exactly.

- A shortened AMD64 branch loses the addend that its field held, so it keeps its target exactly when
  the addend is zero; a long transfer with an addend keeps its target exactly when no branch between the
  label and the target was shortened. A transfer without a reference, such as the fixed branches inside
  the runtime helpers, keeps its target exactly when no branch between its end and the target was
  shortened. There is an example of each loss. The emitter's own placeholders are zero. Narrowing to
  rel16 drops an addend in the same way.
- The 16-bit rewriter keeps the instructions of the code, displacements included, exactly when each of
  them can be rewritten: the manual's tables describe it, no override of a size that matters occurs twice,
  four times and so on (a repeated one toggles in the rewriter but counts once for a processor), and, for
  the instructions whose rows overlook that the operand size matters, the size is overridden already.
  Those are IRET, a move from a segment to a general register, and the FPU environment and state in
  memory; no other row overlooks a size. `cf` alone, `8c d8` and a move behind two 0x66 change their
  meaning; `66 cf` does not.
- A relative branch without a reference keeps its displacement while overrides are inserted and
  no-operations dropped around it. It goes to the image of its target exactly when the code between its
  end and its target keeps its length; `74 02 89 c8 40` keeps its instructions, and its branch ends inside
  the move. The program is the same, branches included, exactly when both conditions hold. Narrowing
  keeps such a branch exactly when no candidate starts in between. The wide-arithmetic helpers of the 386
  back end are emitted with such branches (backend/compiler_386_impl.go:572-603).
- For empty code the 16-bit position map consists of one unset entry, so a label or a function end at
  position 0 of empty code is refused; other readable code is not.
- Alignments in sections mean aligned addresses for powers of two; an example shows that 3 in a section
  aligned to 4 does not.
- A half-word at register 12 with a displacement outside 0 to 255 is accessed at the wrong address on ARM
  exactly when the displacement is no multiple of 256: the register is advanced by the displacement, and
  the access adds its low byte once more. The example is register 12 plus 257, read at plus 258. The back
  end itself uses register 12 as a base only with displacement 0 or for bytes and words.
- Adding a constant on ARM goes wrong exactly when the source is register 10, the destination register 9
  and the offset not an operand, because the scratch register is then the source. A distant store stores
  the register's old value exactly when that is not the address register or a scratch register in use.
- Adding the least 64-bit integer to an AArch64 register emits no code, since its negation is itself;
  adding zero is a register move, which reads register 31 as zero where an addition reads the stack
  pointer.
- A stored function is accepted by another program exactly when that program has one function for each
  identity it refers to, and the runtime labels. A record that is refused behind its header leaves its code, data
  and bss in the generator, and plain emission follows them there; so a refused hit has the length of
  plain emission exactly when the header refused the record or it has no code. The example is a callee
  whose identity two functions share.
- A hit where the record was made does what plain emission did, up to the pool of remembered strings, the
  order of the queue and the pending peephole state, exactly when each older string it refers to is the
  first remembered one of its content or, when none is remembered, the first near the end of the data, as
  things stand before the emission; otherwise some data reference moves, and an example shows one. The
  peephole state is restored exactly when its three numbers are not negative (the first may be -1); a
  pending push is a negative number and comes back as a load far behind the code.

## Model

| member | source | states |
|---|---|---|
| Shrink.Contracts | backend/compiler_amd64_impl.go:297-355 | cutting bytes out of instructions keeps the order of instruction boundaries and never lengthens the distance between two of them |
| Shrink.DistanceShrinks | backend/compiler_amd64_impl.go:325-332 | a signed displacement between two boundaries keeps its direction and does not grow in magnitude |
| Shrink.Rigid | backend/compiler_amd64_impl.go:275-297 | a stretch in which nothing is cut moves as a whole |
| Shrink.RigidIff | backend/compiler_amd64_impl.go:275-297 | where every cut saves something, a distance is kept exactly when no cut starts in between |
| Shrink.Injective | backend/compiler_amd64_impl.go:275-297 | different boundaries have different images, and an untouched byte has room of its own |
| Shrink.Covers | backend/compiler_amd64_impl.go:275-298 | every byte of the new code is the image of an untouched byte or belongs to one shortened instruction |
| Shrink.RebuiltByte | backend/compiler_amd64_impl.go:275-298 | an untouched byte is found at its mapped position |
| Shrink.RebuiltForm | backend/compiler_amd64_impl.go:285-295 | the short form of a branch stands at the mapped start of the branch |
| Shrink.RebuiltLength | backend/compiler_amd64_impl.go:297-298 | the new code is as long as the image of the old end |
| Amd64Relax.CuttingIsSound | backend/compiler_amd64_impl.go:221-258 | the chosen branches are whole, disjoint instructions, so that no instruction boundary is lost |
| Amd64Relax.FlaggedBranchFits | backend/compiler_amd64_impl.go:325-335 | the second rel8 check never fails for a flagged branch: the path that would keep a four-byte reference on a shortened instruction is unreachable |
| Amd64Relax.PositionFromCursor | backend/compiler_amd64_impl.go:312-323 | position minus the running total at a cursor is position minus the savings of all branches that start strictly before it |
| Amd64Relax.Asm.Recognise | backend/compiler_amd64_impl.go:222-244 | recognition of a near JMP or Jcc whose displacement fits a byte, as a start and a kind; that all of them are recognised is Amd64Choice.ShortenedExactly |
| Amd64Relax.Asm.ChooseBranches | backend/compiler_amd64_impl.go:218-258 | the selection pass collects the branches and running totals and marks exactly the references of the branches it chose |
| Amd64Relax.Asm.BuildIndex | backend/compiler_amd64_impl.go:263-274 | each index entry is the first branch at or behind the start of its 256-byte span |
| Amd64Relax.Asm.RelaxedPosition | backend/compiler_amd64_impl.go:357-377 | the binary search between two index entries computes the simple definition of the new position |
| Amd64Relax.Asm.MoveCursor | backend/compiler_amd64_impl.go:312-323 | the rewinding cursor computes the simple definition too, for references in any order |
| Amd64Relax.Asm.ShortenOne | backend/compiler_amd64_impl.go:280-296 | one turn of the compaction loop writes the span and the short form and leaves everything from the read position on unchanged |
| Amd64Relax.Asm.Compact | backend/compiler_amd64_impl.go:275-298 | the in-place compaction equals the definition by concatenation: no byte is read after it was overwritten |
| Amd64Relax.Asm.MoveLabels | backend/compiler_amd64_impl.go:299-304 | every set label moves to its new position, unset ones stay unset |
| Amd64Relax.Asm.ResolveRelocs | backend/compiler_amd64_impl.go:305-340 | marked references fill in their displacement and disappear, the others are moved and kept in order |
| Amd64Relax.Asm.MoveAbsolutes | backend/compiler_amd64_impl.go:341-354 | every data reference moves with its field |
| Amd64Relax.Asm.RelaxBranches | backend/compiler_amd64_impl.go:209-355 | the whole pass establishes the relation between program and relaxed program that Amd64Choice and Amd64Flow are about |
| Amd64Relax.Asm.PatchRelocations | backend/compiler_amd64_target_impl.go:380-393 | each remaining field receives target + addend - end of field; the failure flag is set exactly for a field outside the code |
| Amd64Flow.PatchedField | backend/compiler_amd64_target_impl.go:380-393 | with disjoint fields each field ends up with its own displacement, modulo 2^32 |
| Amd64Flow.ByteKept | backend/compiler_amd64_impl.go:275-298 | every byte outside a shortened branch appears at its mapped position after the whole pass |
| Amd64Flow.KeptFieldPatched | backend/compiler_amd64_impl.go:336-338 | a kept field ends up with the distance from its new end to the image of its label, plus its addend |
| Amd64Flow.ShortTarget | backend/compiler_amd64_impl.go:325-334 | a shortened branch, decoded from the finished bytes, goes to the image of its label, whatever addend its field held |
| Amd64Flow.NearTargetKept | backend/compiler_amd64_impl.go:336-338 | a near transfer that stays long, decoded from the finished bytes, goes to the image of its label |
| Amd64Flow.ControlFlowPreserved | backend/compiler_amd64_impl.go:209-355 | every JMP, Jcc and CALL with a reference and no addend is, in the relaxed and patched code, the image of the one decoded from the patched original code |
| Amd64Flow.FixedTransferKeepsTargetIff | backend/compiler_amd64_impl.go:209-355 | every JMP, Jcc and CALL without a reference is decoded after the pass as the same transfer by the same distance; it goes to the image of its target exactly when no branch that starts between its end and the target was shortened |
| Amd64Flow.HelperKeepsTargets | backend/compiler_amd64_impl.go:717-720 | in a helper that no shortened branch starts in, every branch with a fixed displacement from within to within goes to the image of its target |
| Amd64Flow.FixedTransferMisses | backend/compiler_amd64_impl.go:209-355 | a concrete Jcc with a fixed displacement over a jump that is shortened goes three bytes too far |
| Amd64Flow.ShortBranchKeepsTargetIffNoAddend | backend/compiler_amd64_impl.go:329-333 | the addend of a shortened branch is dropped: with a boundary as its target, the branch keeps the target exactly when the addend is zero |
| Amd64Flow.DroppedAddendMisses | backend/compiler_amd64_impl.go:329-333 | a concrete jump with addend 1 goes to its label after relaxation, not to the instruction behind it |
| Amd64Flow.LongTransferKeepsTargetIffNothingBetween | backend/compiler_amd64_impl.go:336-338 | a long transfer with an addend goes to the image of its old target exactly when no branch that starts between the label and the target was shortened |
| Amd64Flow.ShortenedBetweenMisses | backend/compiler_amd64_impl.go:336-338 | a concrete call with an addend, over a jump that is shortened, does not reach its old target any more |
| Amd64Flow.AbsoluteFieldKept | backend/compiler_amd64_impl.go:341-354 | a data reference names the same word after the pass |
| Amd64Flow.KeptFieldsApart | backend/compiler_amd64_impl.go:305-340 | the fields of the remaining references do not overlap |
| Amd64Flow.FinishCode | backend/compiler_amd64_impl.go:209-355 | relaxation followed by final patching never sets the failure flag |
| Amd64Choice.ShortenedExactly | backend/compiler_amd64_impl.go:218-258 | after the pass a reference's branch occupies two bytes, eb or 70 to 7f and the distance to the image of its label, exactly when it is e9 or 0f 80 to 0f 8f before the field, its label is set, the distance fits a signed byte, and no branch shortened before starts at or behind it |
| Amd64Choice.ShortenedInOrder | backend/compiler_amd64_impl.go:218-258 | with references in code order: exactly when it is a near JMP or Jcc to a set label in reach |
| Amd64Choice.LengthAfter | backend/compiler_amd64_impl.go:209-298 | with references in code order the code shrinks by three bytes for each such JMP and four for each such Jcc, and by nothing else |
| Code16.SuffixInstructions | backend/compiler_386_code16_impl.go:59-373 | from any instruction start on, the rewritten bytes decode with a 16-bit default to the original's instructions with a 32-bit default, displacements included and opcode-0x90 instructions removed, exactly when each of them can be rewritten; lengths and the sizes that matter are read from the manual's tables on both sides, not from the rewriter's rows |
| Code16.RewritePreservesInstructions | backend/compiler_386_code16_impl.go:59-373 | the same for every jump target of the whole code: the instructions from there on have the same opcode, ModRM, displacement and immediate bytes, other prefixes and effective sizes where they matter, if and only if they can be rewritten; where relative branches go is stated by Code16Branches |
| Code16Branches.BranchKeepsTargetIff | backend/compiler_386_code16_impl.go:334-371 | a relative branch without a reference is found at its mapped position with its displacement, and goes to the image of its target exactly when the code between its end and the target keeps its length |
| Code16Branches.RewritePreservesFlow | backend/compiler_386_code16_impl.go:59-373 | the rewritten code has the original's instructions, and every branch without a reference goes to the image of its target, exactly when each instruction can be rewritten and no such branch spans code that changes its length |
| Code16Branches.BranchOverMoveMisses | backend/compiler_386_code16_impl.go:345-371 | JZ over a MOV: all instructions are kept, and the branch ends inside the MOV |
| Code16.DoubledOverrideChangesMeaning | backend/compiler_386_code16_impl.go:69-80 | two 0x66 prefixes toggle twice in the rewriter but count once for the processor: a concrete instruction changes its meaning |
| Code16.ReturnChangesMeaning | backend/compiler_386_code16_impl.go:264-266 | IRETD is written as a bare 16-bit IRET: its meaning changes |
| Code16.OverriddenReturnKeepsMeaning | backend/compiler_386_code16_impl.go:264-266 | an IRET with an operand-size override keeps its meaning without it |
| Code16.SegmentStoreChangesMeaning | backend/compiler_386_code16_impl.go:188-204 | a move from a segment register to a 32-bit register becomes one to a 16-bit register |
| Code16.ShapeMatches | backend/compiler_386_code16_impl.go:91-330 | an instruction that the rows read is one of the same length by the manual's tables, the address size is marked wherever it matters, and the operand size wherever it matters but for the misjudged instructions |
| Code16.OneByteRowMatches | backend/compiler_386_code16_impl.go:141-306 | every one-byte row against the manual: ModRM, immediate bytes, address size, and operand size up to the misjudged opcodes |
| Code16.TwoByteRowMatches | backend/compiler_386_code16_impl.go:100-140 | every two-byte row against the manual |
| Code16.OneByteAccepted | backend/compiler_386_code16_impl.go:141-306 | the one-byte opcodes without a row, as a list: every other one has a row at all sizes |
| Code16.TwoByteAccepted | backend/compiler_386_code16_impl.go:100-140 | the two-byte opcodes with a row, as a list: no other one has |
| Code16.ShapeReads | backend/compiler_386_code16_impl.go:91-330 | an instruction is read exactly when its opcode is not refused and it ends in the code by the manual's tables, and then it ends there |
| Code16.ReadsIff | backend/compiler_386_code16_impl.go:59-373 | code is read to its end exactly when, from the manual's tables and the lists of opcodes alone, it is a sequence of accepted instructions |
| Code16.EmittedDecodes | backend/compiler_386_code16_impl.go:345-371 | the bytes written for one instruction decode, in place and by the manual's tables, to that instruction with the sizes the rewriter wrote |
| Code16.EmittedBytes | backend/compiler_386_code16_impl.go:334-371 | what is written for an instruction, byte by byte: nothing for opcode 90, otherwise the other prefixes, 67 and 66 where the size matters and was not overridden an odd number of times, and the instruction from its opcode on |
| Code16.OthersCount | backend/compiler_386_code16_impl.go:347-358 | the prefixes that are copied are all but the two overrides, as often as they occur |
| Code16.MoveIsWritten | backend/compiler_386_code16_impl.go:334-371 | 90 b8 01 00 00 00 becomes 66 b8 01 00 00 00 |
| Code16.OriginalDecodes | backend/compiler_386_code16_impl.go:66-87 | by the manual's tables the original instruction is the one written in its place exactly when it can be rewritten |
| Code16.ScanPrefixes | backend/compiler_386_code16_impl.go:66-87 | prefixes are passed over and each size override flips the default |
| Code16.CopyPrefixes | backend/compiler_386_code16_impl.go:347-358 | all prefixes but the size overrides are copied in order; a size override is mapped to the start of the output, any other prefix to its copy |
| Code16.CopyBody | backend/compiler_386_code16_impl.go:365-371 | opcode, ModRM and immediates are copied, each byte mapped to where it went |
| Code16.MapDropped | backend/compiler_386_code16_impl.go:334-343 | all positions of a dropped instruction collapse onto the output position |
| Code16.RewriteOne | backend/compiler_386_code16_impl.go:334-371 | one turn of the loop appends what the instruction becomes and extends the position map |
| Code16.Rewrite | backend/compiler_386_code16_impl.go:59-373 | the rewriter succeeds exactly on code whose instructions, one after the other by the manual's tables at the toggled sizes, have accepted opcodes and end within the code; it returns the output and a complete position map, and otherwise names the first unreadable instruction |
| Code16.MappedBytes | backend/compiler_386_code16_impl.go:365-371 | a byte behind the opcode of a kept instruction is found, unchanged, at its mapped position |
| Code16.MappedMonotone | backend/compiler_386_code16_impl.go:59-373 | the map is monotone at instruction starts, strictly across kept instructions |
| Code16.OneByteRowSizes | backend/compiler_386_code16_impl.go:91-306 | for one-byte opcodes the instruction length depends on the operand size or the address size only where the table says that this size matters |
| Code16Apply.TranslatedIsWellFormed | backend/compiler_386_impl.go:53-112 | after the rewriting, labels and function ends are instruction boundaries of the new code, every field lies in one instruction and fields do not overlap: the narrowing pass's assumptions hold |
| Code16Apply.TransferEmits | backend/compiler_386_code16_impl.go:345-371 | an unprefixed near JMP, Jcc or CALL becomes itself behind one operand-size override |
| Code16Apply.TransferPattern | backend/compiler_386_impl.go:142-150 | the byte pattern that the narrowing pass looks for occurs at a reference only where the image of a near transfer starts |
| Code16Apply.FieldMoves | backend/compiler_386_impl.go:86-101 | a field keeps its distance to the end of its instruction |
| Code16Apply.LabelKeepsInstructions | backend/compiler_386_impl.go:75-85 | at a moved label are the instructions that were there before, displacements included, exactly when those from there on can be rewritten |
| Code16Apply.ApplyCode16 | backend/compiler_386_impl.go:53-112 | the whole translation succeeds exactly on code readable to its end that, if empty, has no set label and no function end; any other program is refused and left unchanged |
| Code16Apply.EmptyCodeWithLabel | backend/compiler_386_impl.go:75-85 | a label at position 0 of empty code meets the emitter's guarantees and is refused |
| Code16Narrow.CandidateFits | backend/compiler_386_impl.go:254-259 | every candidate chosen on the old distances still fits rel16 when all others have shrunk: the closing check never fails |
| Code16Narrow.CuttingIsSound | backend/compiler_386_impl.go:133-173 | the candidates are whole, disjoint instructions |
| Code16Narrow.ThreeBytesEach | backend/compiler_386_impl.go:182-205 | a position moves by exactly three bytes for each candidate that starts before it |
| Code16Narrow.NarrowedByte | backend/compiler_386_impl.go:184-205 | a byte outside the candidates is kept at its mapped position |
| Code16Narrow.NarrowedTransfer | backend/compiler_386_impl.go:192-203 | a candidate becomes its rel16 form; its marked reference names the last two bytes, zero, and its label is within their reach |
| Code16Choice.NarrowedExactly | backend/compiler_386_impl.go:128-173 | after the pass a transfer has the rel16 form exactly when it is an overridden near JMP or Jcc to a set label in reach of sixteen bits whose field no data reference shares |
| Code16Choice.LengthAfter | backend/compiler_386_impl.go:177-205 | the code shrinks by three bytes for each such transfer and by nothing else |
| Code16Transfers.NarrowedGoesToLabel | backend/compiler_386_impl.go:192-265 | a narrowed transfer with its displacement filled in decodes to the same jump or condition, to the image of its label |
| Code16Transfers.NarrowedKeepsTargetIffNoAddend | backend/compiler_386_impl.go:192-203 | it is the decoded transfer before narrowing, through the position map, exactly when the rel32 field held no addend |
| Code16Transfers.TransferEndsAtItsLabel | backend/compiler_386_impl.go:53-266 | rewriting and narrowing together: the decoded transfer ends at the place of its label, and what was rewritten there has the original instructions exactly when they can be rewritten |
| Code16Stream.StreamNarrows | backend/compiler_386_impl.go:177-205 | the narrowed code decodes, instruction by instruction, to the code before with each candidate replaced by its rel16 form |
| Code16Stream.FinalStream | backend/compiler_386_impl.go:53-266 | from a label on, the final code decodes to the original instructions without no-operations, candidates in their rel16 form, when they can be rewritten |
| Code16Stream.NarrowedBranchKeepsTargetIff | backend/compiler_386_impl.go:177-205 | a relative branch that is no candidate goes to the image of its target exactly when no candidate starts between its end and the target |
| Code16Stream.BranchThroughBothIff | backend/compiler_386_impl.go:53-266 | a branch without a reference goes, after both passes, to the place of its target exactly when the final code in between is as long as the original |
| Code16Narrow.Asm386.FindCandidates | backend/compiler_386_impl.go:128-173 | the table of candidates and its index by start position |
| Code16Narrow.Asm386.Scan | backend/compiler_386_impl.go:177-205 | one pass over the old code builds the new code, the position map and the new fields |
| Code16Narrow.Asm386.MapRelocs | backend/compiler_386_impl.go:216-238 | converted references are marked with their new fields, the others mapped |
| Code16Narrow.Asm386.Narrow | backend/compiler_386_impl.go:114-266 | the pass always succeeds and establishes the relation that the results above are about |
| ObjectSections.InsertionSort | backend/compiler_linux_amd64_object_impl.go:97-105 | the result is a sorted permutation, and elements with one key keep their order |
| ObjectSections.Unique | backend/compiler_linux_amd64_object_impl.go:106-111 | the same members, strictly increasing |
| ObjectSections.CodeRanges | backend/compiler_linux_amd64_object_impl.go:764-789 | the ranges of all symbols with an end label and of all functions, sorted by start; those with one start as they were declared, symbols first |
| ObjectSections.SymbolsComeFirst | backend/compiler_linux_amd64_object_impl.go:764-779 | a range is there exactly for a symbol with an end label, between its two labels, or for a function; where a symbol's covers a stretch, a symbol's is preferred |
| ObjectSections.Choose | backend/compiler_linux_amd64_object_impl.go:118-126 | the covering range of highest priority, the shortest among those, the first among those; none when no range covers |
| ObjectSections.PreferredIs | backend/compiler_linux_amd64_object_impl.go:118-126 | what is preferred, written out: no covering range has a higher priority, none of the same priority is shorter, and none that equals it in both comes before it |
| ObjectSections.MapPosition | backend/compiler_linux_amd64_object_impl.go:804-811 | the first stretch that contains a position |
| ObjectSections.MapEnd | backend/compiler_linux_amd64_object_impl.go:813-820 | the first stretch that contains a position or ends there |
| ObjectSections.RangesRespectCuts | backend/compiler_linux_amd64_object_impl.go:88-111 | no range begins or ends strictly inside a stretch between two boundaries |
| ObjectSections.CodeMapIsTotal | backend/compiler_linux_amd64_object_impl.go:112-150 | every code offset has a place, in a real section, that holds its byte |
| ObjectSections.MapInjective | backend/compiler_linux_amd64_object_impl.go:804-829 | two offsets never share a place |
| ObjectSections.EndFollowsLastByte | backend/compiler_linux_amd64_object_impl.go:813-820 | the end of a function is in the section of its last byte, right behind it |
| ObjectSections.DataMapIsTotal | backend/compiler_linux_amd64_object_impl.go:222-242 | every offset of the global space below the mapped end has exactly one place, inside its section |
| ObjectSections.CodeApartFromData | backend/compiler_linux_amd64_object_impl.go:197-205 | code and data never share a place, even in one section |
| ObjectSections.Writer.SectionIndex | backend/compiler_linux_amd64_object_impl.go:791-802 | the one section of a name: found where the name exists and added where it does not; only its alignment may change, to the one asked for when that is greater |
| ObjectSections.AlignedAddress | backend/compiler_linux_amd64_object_impl.go:141-149 | a place at a multiple of 2^i in a section whose alignment is a greater power of two has an address that is a multiple of 2^i wherever the section is loaded at a multiple of its alignment |
| ObjectSections.OddAlignmentIsLost | backend/compiler_linux_amd64_object_impl.go:791-802 | for alignments that are not powers of two this fails: 3 in a section aligned to 4 |
| ObjectSections.Writer.PlaceInterval | backend/compiler_linux_amd64_object_impl.go:144-149 | appends an interval of the code behind alignment padding, records where it went, and the section is aligned at least as much |
| ObjectSections.Writer.PlaceCode | backend/compiler_linux_amd64_object_impl.go:86-150 | boundaries, which are the ends of the code and of ranges and nothing else, cut the code into consecutive intervals, each placed with its bytes in the section, and at the alignment, of its preferred range; fails exactly on a range outside the code; names stay unique |
| ObjectSections.Boundaries | backend/compiler_linux_amd64_object_impl.go:88-111 | the cuts are exactly the ends of the code and of the ranges, strictly increasing |
| ObjectSections.ChooseSection | backend/compiler_linux_amd64_object_impl.go:127-143 | the section name and alignment that the preferred range asks for; .text and 1 when no range covers the interval |
| ObjectSections.AskedIs | backend/compiler_linux_amd64_object_impl.go:127-143 | a stretch gets the name of the preferred range, .text for none, and at the range's start its alignment, 16 for none; elsewhere and without a range the alignment is 1 |
| ObjectSections.Writer.PlaceStrings | backend/compiler_linux_amd64_object_impl.go:153-157 | the string constants are appended to .rodata, which is of type 1 when it is added |
| ObjectSections.Writer.WriteItem | backend/compiler_linux_amd64_object_impl.go:206-219 | an object's bytes, or its integer, stand in its reserved stretch |
| ObjectSections.ItemReads | backend/compiler_linux_amd64_object_impl.go:206-219 | the bytes of an object read back, least first, as its integer modulo what fits; with content they are the content, and zeros |
| ObjectSections.DeclaredObjectsStand | backend/compiler_linux_amd64_object_impl.go:158-221 | every declared object but the aliases stands at its own range, in the section that it names or .data or .bss, at its own or natural alignment, with its value in its bytes unless its section is of type 8; and no other stretch is placed with them |
| ObjectSections.Writer.PlaceItems | backend/compiler_linux_amd64_object_impl.go:158-221 | all declared objects are placed in order, and sections are added with the type that their objects ask for; fails exactly when an initial value is longer than its object |
| ObjectSections.Writer.FillGaps | backend/compiler_linux_amd64_object_impl.go:222-242 | the space between and behind the declared objects is covered by anonymous stretches, each at a multiple of eight in the section .bss, which is of type 8 when it is added; fails exactly when the objects overlap or are out of order |
| ObjectSections.Writer.PlaceData | backend/compiler_linux_amd64_object_impl.go:152-242 | declared objects and gap fills together tile the global space up to its end, and all that was not declared is in .bss; fails exactly when an initial value is longer than its object or the objects overlap or are out of order |
| ObjectLabels.ResolveLabel | backend/compiler_linux_amd64_object_impl.go:362-407 | one reference: a displacement in place for the same section, otherwise a zeroed field and a record against the target's section |
| ObjectLabels.ResolveLabels | backend/compiler_linux_amd64_object_impl.go:359-408 | all references one after the other; fails exactly where the definition does, which ObjectLabels.ResolvesExactly describes |
| ObjectLabels.ResolvesExactly | backend/compiler_linux_amd64_object_impl.go:359-408 | for placed code whose fields are whole and apart, resolving succeeds exactly when every referenced label is in the code and every two-byte displacement inside a section is within sixteen bits |
| ObjectLabels.PlacedRefsAreGood | backend/compiler_linux_amd64_object_impl.go:86-150 | fields that no range begins or ends in are within one stretch, lie in their sections and do not overlap there; their labels are placed |
| ObjectLabels.FieldPlaced | backend/compiler_linux_amd64_object_impl.go:144-150 | a whole field stands in its section with its bytes, also after more has been placed |
| ObjectLabels.StoreAddends | backend/compiler_linux_amd64_object_impl.go:549-566 | the 386 writer adds each record's addend into its field; fails exactly for a field outside the section |
| ObjectLabels.ResolvedField | backend/compiler_linux_amd64_object_impl.go:362-407 | with disjoint fields, each reference's field ends as if it had been resolved alone |
| ObjectLabels.ResolvedRecords | backend/compiler_linux_amd64_object_impl.go:404-406 | the records of a section are those of its cross-section references, in order |
| ObjectLabels.LoadedRecord | backend/compiler_linux_amd64_object_impl.go:549-570 | loading applies a record of type 2, or 21 on the 386, to its own field only: the target's address plus the addend minus the field's address, over four bytes or two, with the addend in the record or in the field; the loader goes by the record's number alone |
| ObjectLabels.PlacementIndependent | backend/compiler_linux_amd64_object_impl.go:359-408 | for every assignment of base addresses to sections each label field holds address(target) + addend - address(end of field), modulo its width |
| ObjectLabels.LoadedAnywhere | backend/compiler_linux_amd64_object_impl.go:86-408 | from the writer's own placement: for every assignment of base addresses, each label field of the loaded program holds the distance from its end to its label, plus the addend that stood in the flat code |
| ObjectLabels.LoadedByte | backend/compiler_linux_amd64_object_impl.go:84-408 | every byte of the code that belongs to no reference is, in the loaded program, what it was, at its place |
| ObjectLabels.PlaceAndResolve | backend/compiler_linux_amd64_object_impl.go:84-408 | ranges, code, strings, data and label references one after the other: exact success; every reference whose field is its own reaches its label wherever the sections are loaded, under a loader that goes by the type number of each record; every other byte of the code is loaded as it was; undeclared globals are in .bss, and the sections are of the types their contents ask for |
| ObjectLabels.FieldsStayApart | backend/compiler_linux_amd64_object_impl.go:362-376 | fields that are apart in the flat code and not cut by a stretch are apart in the sections |
| ObjectIndex.Find | backend/compiler_object_cache_impl.go:147-173 | a function is found by identity exactly when exactly one function has it |
| ObjectIndex.BuildIndex | backend/compiler_object_cache_impl.go:96-118 | each bucket's chain holds exactly the functions whose identity falls into it |
| ObjectIndex.FindFunction | backend/compiler_object_cache_impl.go:147-161 | the chain walk agrees with the definition |
| ObjectRecord.MarkFunc | backend/compiler_common_impl.go:22558-22564 | marking sets one flag and changes nothing but flags and queue; ObjectRanges.MarkKeeps states the queue |
| ObjectRecord.Intern | backend/compiler_common_impl.go:9215-9259 | interning returns an offset at which the content stands and only ever appends data |
| ObjectCache.Reader.Next | backend/compiler_object_cache_impl.go:298-306 | reads little-endian words; after one failure every read fails |
| ObjectCache.Generator.AddString | backend/compiler_common_impl.go:9215-9259 | interning by a remembered string, by a search near the end of the data, or by appending |
| ObjectCache.Generator.ReplayReloc | backend/compiler_object_cache_impl.go:365-395 | one reference: local, by function identity, or to a runtime label, with all its refusals |
| ObjectCache.Generator.ReplayAbsolute | backend/compiler_object_cache_impl.go:396-423 | one data reference: older strings by content, own offsets rebased, older ones kept |
| ObjectCache.Generator.Replay | backend/compiler_object_cache_impl.go:308-439 | replaying succeeds exactly when the definition does, and accepted or refused leaves exactly the state it defines; the peephole state is replaced only on success |
| ObjectRefusal.ReplayLeaves | backend/compiler_object_cache_impl.go:308-433 | what any replay leaves: nothing when the header refuses the record; otherwise all its code, data and bss, and the rest only added to, but for the function's own label |
| ObjectRefusal.ReplayStaysSane | backend/compiler_object_cache_impl.go:308-439 | whatever the record holds, a replay leaves masked references and queued functions that exist |
| ObjectRefusal.UnchangedIffHeaderRefuses | backend/compiler_object_cache_impl.go:327-343 | the code is unchanged exactly when the header refuses the record or it has no code; the whole generator exactly when the header refuses it, for records that declare anything to append |
| ObjectRefusal.UnknownIsRefused | backend/compiler_object_cache_impl.go:365-428 | a stored record with a callee, a queued function or a runtime label that the program does not know is refused after its code, data and bss were appended |
| ObjectRefusal.AcceptedIffKnown | backend/compiler_object_cache_impl.go:308-439 | a stored record is accepted exactly where every function it refers to is known by one identity, and its runtime labels exist |
| ObjectRefusal.AmbiguousCalleeLeavesCode | backend/compiler_object_cache_impl.go:377-384 | a concrete record whose callee's identity two functions share is refused and leaves its byte of code |
| ObjectFormat.AcceptedIffWellFormed | backend/compiler_object_cache_impl.go:308-439 | which bytes a replay accepts, word by word: the header, strings and labels within the record's data and code, references at its code to its labels, to functions with one identity and to older runtime labels, whole strings, known queued functions, and nothing behind; and what each table adds to the generator |
| ObjectRanges.ReplayKeepsRanges | backend/compiler_object_cache_impl.go:308-439 | whatever bytes are replayed, accepted or refused anywhere: labels stay within the code, references within the code and at labels, strings within the data, and the queue holds each marked function once and nothing else |
| ObjectRanges.MarkKeeps | backend/compiler_common_impl.go:22558-22564 | marking keeps the queue the list, without repetition, of the marked functions |
| ObjectCache.Generator.StoreReloc | backend/compiler_object_cache_impl.go:502-527 | one reference as stored: function identity, local index or runtime distance; refused for any other label |
| ObjectCache.Generator.StoreAbsolute | backend/compiler_object_cache_impl.go:528-551 | one data reference as stored; an older string by its content, refused when it is not a recorded one; what this means after a replay is ObjectReplay.DataReferenceMoves |
| ObjectCache.Generator.Record | backend/compiler_object_cache_impl.go:441-556 | a record is written exactly when the emission is storable, and is the defined one |
| ObjectStorable.StorableExactly | backend/compiler_object_cache_impl.go:441-551 | which emissions are recorded: the function's label is set, no other older label stands in its code, its strings and labels lie in what it added, each label it refers to is a function's, its own or a runtime label, and each shared string it refers to was recorded and ends before the data do |
| ObjectCache.Generator.EmitCached | backend/compiler_object_cache_impl.go:605-631 | a found record is replayed; after a miss or a refusal the function is emitted plainly, in the generator as it is then, which keeps the emitter's conventions, and recorded exactly when that succeeded, the state around it is settled and the emission is storable |
| ObjectReplay.StoreThenReplay | backend/compiler_object_cache_impl.go:308-556 | replaying a stored record at any bases succeeds, reads it to its very end and produces the rebased emission |
| ObjectReplay.PeepholeRestored | backend/compiler_object_cache_impl.go:435-471 | the peephole state comes back exactly when its words were not negative |
| ObjectReplay.PendingPushIsLost | backend/compiler_object_cache_impl.go:435-471 | a pending push, stored as a negative number, comes back as a large positive one |
| ObjectReplay.RebasedIsShifted | backend/compiler_object_cache_impl.go:308-439 | what the rebased emission is: same code and data, positions shifted, functions found again, own offsets moved, older ones kept, older strings found by content, exactly the referenced and queued functions newly marked |
| ObjectReplay.DataReferenceMoves | backend/compiler_object_cache_impl.go:396-423 | each data reference by ranges of its offset: a string older than the function but not than the build is found by its content, the function's own data and bss move with it, older data, older bss and imports stay |
| ObjectReplay.LabelReferenceMoves | backend/compiler_object_cache_impl.go:365-395 | each label reference: a function's goes to the label of the function with the same identity, one to a new label moves with the labels, a runtime label keeps its distance from the function labels |
| ObjectReplay.LabelMoves | backend/compiler_object_cache_impl.go:352-364 | a new label stays unset or moves with the code |
| ObjectReplay.ReplayInPlace | backend/compiler_object_cache_impl.go:583-631 | replaying where the function was emitted, in the same program, reproduces its code, labels, references and bss |
| ObjectEmission.InternReturns | backend/compiler_common_impl.go:9215-9259 | interning returns an offset exactly when it is the first remembered string of the content, or else the first occurrence that starts in the last 512 bytes of the data, or else the end of the data |
| ObjectEmission.HitIsEmission | backend/compiler_object_cache_impl.go:605-615 | a hit in the generator the record was made from leaves the code, labels, references, bss and marks of plain emission |
| ObjectEmission.HitIsWholeEmissionIff | backend/compiler_object_cache_impl.go:396-423 | it leaves the data, recorded strings and data references of plain emission too exactly when each older string is, before the emission, first of its content in the pool, or absent from the pool and first near the end of the data; otherwise a data reference differs |
| ObjectEmission.OlderStringMoves | backend/compiler_object_cache_impl.go:396-423 | of two copies of a string the pool remembers the first: a reference to the second is replayed to the first |
| ObjectEmission.RefusedHitAgreesIff | backend/compiler_object_cache_impl.go:605-631 | a miss, and a record refused by its header, are plain emission; the outcome of any other refusal has the length of plain emission exactly when the record has no code |
| ObjectEmission.RefusedFunctionDiffers | backend/compiler_object_cache_impl.go:605-631 | a stored function with code, refused for a callee, is not emitted as without the cache |
| ObjectEmission.HitAgreesIff | backend/compiler_object_cache_impl.go:605-631 | a hit where the record was made is plain emission up to the pool and the order of the queue exactly when the older strings are found at their own offsets, and with its peephole state exactly when no word of that was negative |
| ObjectStorage.LastIntoIsLastUnder | backend/compiler_object_cache_impl.go:280-290 | when a slot was last filled under a key, that store is the latest under the key |
| ObjectStorage.LastIntoSurvives | backend/compiler_object_cache_impl.go:280-290 | a slot was last filled under a key exactly when a store under the key has no later store into the slot behind it |
| ObjectStorage.FilledSlot | backend/compiler_object_cache_impl.go:560-573 | writing a record into a slot's own region, or behind everything, leaves all other slots alone |
| ObjectStorage.Cache.constructor | backend/compiler_object_cache_impl.go:11-22 | an empty cache |
| ObjectStorage.Cache.Put | backend/compiler_object_cache_impl.go:557-579 | a store succeeds exactly when the record fits the slot's region, or the slot is unused and it fits the buffer; a store that does not fit changes nothing; regions stay disjoint inside the used prefix |
| ObjectStorage.Cache.Lookup | backend/compiler_object_cache_impl.go:280-290 | a hit occurs exactly when some store under the key has had no later store into its slot, and the slot holds the bytes of that store, the latest successful one under the key |
| WideArithmetic.Machine.UnsignedLess | backend/compiler_jvm_prepared_impl.go:6132-6157 | unsigned order of words from signed comparisons |
| WideArithmetic.Machine.Less | backend/compiler_jvm_prepared_impl.go:5904-5922 | signed or unsigned order of two-word values |
| WideArithmetic.Machine.Add | backend/compiler_jvm_prepared_impl.go:5924-5944 | sum modulo 2^64, also when the destination is an operand |
| WideArithmetic.Machine.Sub | backend/compiler_jvm_prepared_impl.go:5947-5966 | difference modulo 2^64, also when the destination is an operand |
| WideArithmetic.Machine.ShiftLeftOne | backend/compiler_jvm_prepared_impl.go:5968-5987 | doubling modulo 2^64 |
| WideArithmetic.Machine.ShiftRightOne | backend/compiler_jvm_prepared_impl.go:5988-6010 | halving, with the sign kept for signed values |
| WideArithmetic.ShiftSaturates | backend/compiler_jvm_prepared_impl.go:6018-6034 | from a count of 64 on, a shift gives zero, or all ones for a negative signed value |
| WideArithmetic.Machine.Shift | backend/compiler_jvm_prepared_impl.go:6012-6047 | the single-step loop with its clamp shifts by any 64-bit count; a count in the destination's own slot is overwritten by the value first |
| WideArithmetic.MultiplyStep | backend/compiler_jvm_prepared_impl.go:6063-6073 | one step keeps product + multiplicand * multiplier, up to multiples of 2^64 |
| WideArithmetic.Machine.Multiply | backend/compiler_jvm_prepared_impl.go:6049-6075 | the 64-step loop computes left * right modulo 2^64 |
| WideArithmetic.Machine.Negate | backend/compiler_jvm_prepared_impl.go:6079-6090 | negation modulo 2^64 |
| WideArithmetic.DivideStep | backend/compiler_jvm_prepared_impl.go:6106-6127 | one step of restoring division keeps dividend = quotient * divisor + remainder and remainder < divisor; before step i the remainder is below 2^i, so shifting it loses nothing |
| WideArithmetic.Machine.UnsignedDivide | backend/compiler_jvm_prepared_impl.go:6092-6130 | exact quotient and remainder for every dividend and every non-zero divisor |
| WideArithmetic.Machine.Divide | backend/compiler_common_impl.go:25508-25569 | signed and unsigned quotient and remainder, truncated toward zero and wrapped to 64 bits; a zero divisor takes the fault path |
| WideArithmetic.TruncatedIsDivision | backend/compiler_common_impl.go:25508-25569 | truncated quotient and remainder belong together, and the remainder has the dividend's sign |
| CopyBytes.LoadsOld | backend/compiler_aarch64_target_impl.go:419-420 | a load that misses everything written so far sees the old bytes |
| CopyBytes.StoresNext | backend/compiler_amd64_impl.go:153-185 | storing old bytes next to or over those that arrived extends the copied part, and nothing else |
| CopyBytes.Processor.MoveEnds | backend/compiler_amd64_impl.go:153-190 | both ends loaded before either is stored: right for every length from the width to twice the width, at every overlap |
| CopyBytes.Processor.CopyAarch64 | backend/compiler_aarch64_target_impl.go:421-472 | word and byte loops in the safe direction are memmove |
| CopyBytes.Processor.CopyAmd64 | backend/compiler_amd64_impl.go:139-207 | dispatch by size, snapshots, and string moves in the safe direction are memmove |
| CopyBytes.Processor.Copy386 | backend/compiler_386_impl.go:517-539 | byte string moves, downwards only into the source range, are memmove |
| CopyBytes.Processor.CopySmall386 | backend/compiler_386_impl.go:488-515 | loading all words of a 16- or 24-byte value before storing any is memmove |
| Rotations.RorRol | backend/compiler_arm_impl.go:55-60 | rotating right undoes rotating left |
| ArmImmediate.TopBit | backend/compiler_arm_impl.go:24-48 | the bounded reductions find the highest set bit |
| ArmImmediate.OperandIsFound | backend/compiler_arm_impl.go:49-61 | any operand of a value is found at the even alignment of its top bit or by one of three wrapping rotations |
| ArmImmediate.Immediate | backend/compiler_arm_impl.go:19-62 | an operand is returned exactly when one of the sixteen rotations works, and it stands for the value |
| ArmCode.Assembler.MovRegImm | backend/compiler_arm_impl.go:63-82 | the MOV, MVN or MOVW/MOVT sequence loads every value and touches no other register; it is one instruction exactly for sixteen-bit values, operands, complements of operands and values with a zero upper half |
| ArmCode.Assembler.AddRegImm | backend/compiler_arm_impl.go:83-114 | the sequence adds the offset, with one scratch register, exactly when it does not clash: destination 9, source 10 and an offset that is no operand; what it computes then; and when the scratch register is used |
| ArmCode.Assembler.Place | backend/compiler_arm_impl.go:135-164 | address register and remaining displacement together name the accessed address, which is base + displacement but for a half-word at register 12 outside 0 to 255 |
| ArmCode.Assembler.LoadStoreAddr | backend/compiler_arm_impl.go:135-150 | the base itself within reach; otherwise register 12 holds base + displacement |
| ArmCode.Assembler.LoadRegMem | backend/compiler_arm_impl.go:151-180 | the last instruction is a load of the given size; it is from base + displacement exactly unless a half-word at register 12 lies outside 0 to 255 and at no multiple of 256, and where it loads from then |
| ArmCode.Assembler.StoreRegMem | backend/compiler_arm_impl.go:181-210 | the same for a store; it stores the register's old value exactly when reaching the address does not overwrite the register |
| ArmCode.HalfWordMisses | backend/compiler_arm_impl.go:151-180 | the half-word at register 12 plus 257 is read at register 12 plus 258 |
| Aarch64Code.NextPart | backend/compiler_aarch64_impl.go:19-40 | inserting one sixteen-bit part, or skipping it when the fill already equals it, completes one more part of the value |
| Aarch64Code.Assembler.MovRegImm | backend/compiler_aarch64_impl.go:19-40 | the MOVZ or MOVN and MOVK sequence leaves every value in the register, modulo 2^64, with one MOVK for each upper part that differs from the sign |
| Aarch64Code.Assembler.AddRegImm | backend/compiler_aarch64_impl.go:49-76 | the chunks sum to the offset for every offset but the least integer, for which nothing is emitted; a zero offset is a register move, in which register 31 is zero |
| Aarch64PushPop.FoldPair | backend/compiler_aarch64_impl.go:321-336 | a push directly followed by a pop may be a move: only a dead slot differs |
| Aarch64PushPop.Emitter.PushRegister | backend/compiler_aarch64_impl.go:316-320 | a push is emitted and leaves a marker that names it |
| Aarch64PushPop.Emitter.PopRegister | backend/compiler_aarch64_impl.go:321-338 | a pop replaces the push that a live marker names by a move, or by nothing onto the same register; with no live marker it is emitted; the piece of code means the same |
| Aarch64PushPop.Emitter.EmitAll | backend/compiler_aarch64_impl.go:316-338 | for every sequence of pushes, pops, barriers and other instructions, exactly the pushes that a pop directly follows are folded; each piece between barriers leaves the same registers, stack pointer and live stack as the unoptimised code, and so does the code as a whole |
| Aarch64PushPop.PiecesCompose | backend/compiler_aarch64_impl.go:316-338 | entered at any barrier and left at any later one, the code means what was asked for in between |
| Sha256.Tail | backend/compiler_darwin_arm64_target_impl.go:496-506 | the scratch blocks are the remaining bytes followed by the padding of the whole message |
| Sha256.ScheduleWord | backend/compiler_darwin_arm64_target_impl.go:431-442 | the schedule step in 64-bit integers is the 32-bit one |
| Sha256.Schedule | backend/compiler_darwin_arm64_target_impl.go:420-443 | the word array holds the message schedule of the block |
| Sha256.FirstSum | backend/compiler_darwin_arm64_target_impl.go:457-466 | the first round sum in 64-bit integers is the 32-bit one |
| Sha256.RunRounds | backend/compiler_darwin_arm64_target_impl.go:445-478 | the loop computes the sixty-four rounds |
| Sha256.AddBlock | backend/compiler_darwin_arm64_target_impl.go:445-487 | one block turns the value array into the next hash value, every entry below 2^32 |
| Sha256.Hash | backend/compiler_darwin_arm64_target_impl.go:488-530 | hashing whole blocks in place and then the padded end gives the FIPS 180-4 digest of the padded message, for every length |
| Sha256Constants.FirstPrimes | backend/compiler_darwin_arm64_target_impl.go:752-757 | the sixty-four primes of the standard: every prime up to 311 and nothing else, in order |
| Sha256Constants.RoundConstants | backend/compiler_darwin_arm64_target_impl.go:752-757 | each round constant is the first 32 bits of the fractional part of the cube root of its prime |
| Sha256Constants.InitialValue | backend/compiler_darwin_arm64_target_impl.go:508-511 | each word of the initial value is the first 32 bits of the fractional part of the square root of its prime |
| Sha256Constants.ChooseAndMajority | backend/compiler_darwin_arm64_target_impl.go:457-475 | bit by bit the first function chooses by its first argument, and the second takes the majority |
| Sha256Constants.SigmaBits | backend/compiler_darwin_arm64_target_impl.go:431-475 | each bit of the other four functions is the parity of three bits of the word, rotated or shifted by the standard's amounts |
| Rotations.UnionRotates | backend/compiler_darwin_arm64_target_impl.go:433-440 | the union of two shifts, masked to 32 bits, is the rotation |
| CodeSignature.Sign | backend/compiler_darwin_arm64_target_impl.go:531-580 | the signature has the announced size, each page's digest stands at the hash offset plus 32 times its number, and a reader that knows only the format accepts it for the code, the name and the executable limit |
| CodeSignature.SignatureVerifies | backend/compiler_darwin_arm64_target_impl.go:531-580 | a loader that takes magic numbers, version, hash size and type, page size, counts, limits and offsets from the signature's own words finds the name and, at each offset, the digest of each part of the code of the size that the signature names |
| ByteStrings.RoundTrip | backend/compiler_jvm_prepared_impl.go:1233-1244 | every byte string decodes from its modified UTF-8 to itself |
| ByteStrings.ChunkFits | backend/compiler_jvm_prepared_impl.go:3833-3842 | a chunk's encoding fits the two-byte length |
| ByteStrings.Pool.EncodeBytes | backend/compiler_jvm_prepared_impl.go:1233-1244 | the encoding loop |
| ByteStrings.Pool.Add | backend/compiler_jvm_prepared_impl.go:1189-1196 | entries are appended and keep their meaning |
| ByteStrings.Pool.ByteString | backend/compiler_jvm_prepared_impl.go:1227-1255 | the constant returned reads as the given bytes, and every earlier constant stays |
| ByteStrings.EmitDecodedBytes | backend/compiler_jvm_prepared_impl.go:3830-3850 | one constant and one copy for each chunk, at the chunk's own offset |
| ByteStrings.CopyChars | backend/compiler_jvm_prepared_impl.go:3799-3829 | the emitted loop writes the characters' low bytes from an offset on, and nothing else |
| ByteStrings.Initialise | backend/compiler_jvm_prepared_impl.go:3830-3850 | running the copies rebuilds the array |

## Left out

- Integer widths: positions, offsets and lengths are unbounded integers; the host integer is taken to be 64 bits wide, the 31-bit masks and 32-bit words of the stored formats are explicit. AMD64 code is taken to be shorter than 2^30 bytes, because the pass packs twice a start into 32 bits.
- Flat lists of numbers that hold pairs or triples are sequences of records here.
- Instruction boundaries are given to the AMD64 and narrowing passes as a set with the emitter's guarantees about it; only the 16-bit translator decodes them itself.
- Code16Reference describes the one-byte map and the general instructions of the two-byte map: not the SIMD instructions, moves to and from control and debug registers with a memory mode, or the system instructions that are told apart by their whole ModRM byte; code with such an instruction does not count as keeping its meaning. The limit of fifteen bytes on an instruction is not modelled, and a short branch, which cuts its target to sixteen bits under a 16-bit operand size, is taken to lie below 2^16.
- Replacement of the alignment of functions by 1 in the 16-bit translation and its error messages.
- Code16Apply.ApplyCode16: that the label references of readable code are displacements of unprefixed near transfers is the emitter's guarantee.
- The object writer's section flags, symbols, alias symbols, import and absolute relocations, linkonce groups and ELF headers.
- ObjectLabels.LoadedAnywhere: that no range begins or ends inside a field and that fields do not overlap is the emitter's guarantee.
- ObjectLabels.PlacementIndependent: a relocation record is loaded modulo its field width, so a 16-bit overflow in the linker is not reported; a record's symbol is the number of its section.
- Hashing in the cache: identities and keys are given numbers; the string pool is a list searched in order where the program uses an open-addressing table.
- ObjectReplay.RebasedIsShifted: claims the set of marked functions, not the order of the queue, since references mark their functions before the stored queue does.
- ObjectReplay.StoreThenReplay: requires 31-bit sizes and offsets and data references of the three plain kinds; that the replaying program knows each function referred to exactly once is shown to be needed by ObjectRefusal.AcceptedIffKnown.
- The decision which functions are cached, the keys, and the state hashes around an emission; plain emission itself is a parameter.
- The 386 and ARM wide-arithmetic helpers that exist only as machine code, and floating point.
- CopyBytes.Processor.CopyAarch64: the counters of the word and byte loops are the quotient and remainder of the length by eight, where the code counts the remaining bytes down.
- Fixed-size copies of the 386 back end that use word string moves on disjoint slots.
- Conditional execution, flags and memory contents of ARM and AArch64; sign extension of narrow AArch64 loads.
- Aarch64PushPop.Emitter.EmitAll: other instructions have any meaning that does not look below the stack pointer; a slot is the eight bytes that a push writes, and other peepholes that cut code off are not modelled.
- The hardware digest that replaces the SHA-256 loop where there is one, and the Mach-O headers.
- The JVM class file, method tables and bytecode around the copied chunks.
- PE, ELF and Mach-O executables, archives, file input and output, command lines, and the front ends.
