# Koshka: a verified model of IML generation

Koshka recompiles ARMv8-A code to x86. Its first stage, IMLGen, decodes every word of a code buffer
into an intermediate language (IML): instruction records linked by `next`, and expression trees whose
nodes are reached through handles into a growing byte pool. This project models that stage, the pieces
it stands on and the register allocator, and proves what they do on all inputs.

The modules, bottom up:

- `Bits`: bit strings, least significant bit first, and their values. A C unsigned integer of width w
  is a bit string of length w, and so is a `bits(w)` of the Arm pseudocode.
- `ArmAsl`, `BitmaskTheorems`: the bitmask-immediate decoder at every register width 2^m (the program
  uses m = 6), against the pseudocode of DDI 0487 issue A.k.
- `Pools`: the growable pool as a class over a byte array; sizes and contents as functions.
- `BoolSets`: the packed bit set as a class over a byte array.
- `RegAlloc`: the register allocator as a class over its table, and as a step function over runs.
- `Iml`, `Layout`: expressions, instructions and trees; the bytes of their records.
- `RecordBytes`: the same bytes as the declarations of iml.hxx give them, offset by offset and value by
  value, and that they are what the final pool holds.
- `Machine`: register state, and what IML means on it, by arithmetic on numbers.
- `TreePool`, `Records`, `ProgramLayout`: trees in the bytes of a pool, pushing records, and where the
  records of a whole buffer lie after all pushes, reallocations and writes of `next`.
- `ArmEncoding`, `Decode`, `DecodePool`: dispatch on instruction words (`bv32`), what each word is
  decoded to, and the decoders as methods that push into the pool.
- `Dispatch`: every group that the dispatch names, by the architecture's bits.
- `ArmReference`: four instruction classes as the architecture defines them: encodings, and execution
  on bit strings. It shares no operation with `Machine`.
- `OpMeaning`, `SumMeaning`: the operations of `Machine` compute those of the architecture.
- `LogicalMeaning`, `LogicalImmMeaning`, `AddSubMeaning`, `BranchMeaning`: decoding against the
  architecture, class by class.
- `DecodedRecord`: the tree, the record and the pushes of each instruction, written out from its fields.
- `ImlGen`, `Pipeline`: `imlgen`, and the theorem that running the generated list does what the Arm
  program does.
- `Undecoded`: what running the record of a word that no decoder handles does.

Main results, from the hardest:

1. *Pipeline.* For every buffer of accepted words whose decoding is faithful, running the list in the
   final pool from the handle that `imlgen_recurse` returns does to every state what the Arm program
   does (`Pipeline.PipelinePreservesMeaning`, `Pipeline.ImlgenPreservesMeaning`).
2. *Decoding.* Logical (shifted register) is always decoded to its meaning. Logical (immediate) is
   decoded to its meaning exactly when its destination is not SP and, at 64 bits, its mask fits in 32
   bits or the operation is AND with the zero register. Add and subtract never are when they set flags.
   Otherwise the immediate form is exactly when it moves a general register to another, or the whole of
   SP to itself, and the shifted register form exactly when it drops its result or its second operand
   is its own negative whatever the registers hold. These are all the words whose meaning is kept
   (`Pipeline.MeaningKeptIff`).
3. *Bitmask decoder.* The program's `ROR` is not a rotation: no bit is cleared but those shifted out of the
   word, so bits pile up above the element. Which ones, and when there are none, is stated exactly; in the
   decoder there are none only if R is 0, the element fills the word, or a single one moves by one. The
   mask still equals the architecture's, because every stray bit lies inside the periodic extension of the
   rotated pattern and the doubling loop absorbs it. The mask determines its encoding.
4. *Whole-run layout.* In the final pool, following `next` visits the records in program order, every
   tree is where it was put, and evaluating it gives what it gave right after its word was decoded.
5. *Pool.* Handles are stable, regions tile the pool, the tail is zero and memory is linear. Copying is
   amortised as long as no sum wraps at 2^32; when the growth assertion fails, and when growing makes
   room, is stated exactly, wraps included.
6. *Register allocator.* It refines the list of distinct ids seen; from any table and for any ids a run
   gives out slots one to one exactly when no slot is claimed after a request for id 255; its special
   cases for X29 and SP are unobservable.

Where the code and its comments disagree, the model follows the code and a result says so:

- `HighestBitSet` promises -1 for zero and never returns (`ScanReturnsIffNonzero`).
- `set_bit` ignores its `value` (`SetBitKeepsPromiseIff`).
- 64-bit logical immediates are cut to 32 bits, the one in test/base.s line 20 among them
  (`LargestMaskUnfaithful`).
- Bit 30 of add and subtract is read the wrong way round (`AddSubImmFaithfulIff`,
  `AddSubShiftedFaithfulIff`), so flags are wrong in every state (`ImmFlagsWrong`, `RegFlagsWrong`).
- A result written to SP is dropped, that of the stack setup in test/square.s line 4 among them
  (`StackSetupDropped`). The record does not tell SP from the zero register, so no way of executing
  records mends this (`NoReadingOfRegister31`).
- The check of the shift type in add/subtract of a shifted register compares an operation with 3 and
  never fires (`AddRegAcceptedIff`); a reserved shift of the immediate form is not checked at all, and
  is decoded as no shift (`ReservedShiftIgnored`).
- The sum in `pool_push` can wrap. The assertion after it, meant to catch corruption, then passes for
  some sizes that leave no room (`GrowthAssertFailsIff`, `GrowthLeavesRoomIff`).
- `reg_reset` also drops the reservation of RSP and RBP (`ReservationEndsAtReset`), and once a request
  has failed every request returns -1, mapped or not (`RunAnswers`).
- An instruction that is not decoded holds a blank expression whose children are handle 0
  (`BlankChildIff`). Running its record is harmless only if the first word of the buffer was not decoded
  either; otherwise it writes X0 (`UndecodedHarmlessIff`).

## Model

| member | source | states |
|---|---|---|
| ArmAsl.HighestBitSet | src/arm_asl.c:7-14 | on a nonzero word the downward scan returns the pseudocode's `HighestSetBit` |
| BitmaskTheorems.ScanReturnsIffNonzero | src/arm_asl.c:7-14 | with its u8 counter the scan returns, with the highest set bit, if and only if the word is not zero |
| BitmaskTheorems.ScanArgumentZeroIff | src/arm_asl.c:36 | the encoding on which the decoder's scan never returns is immN = 0 with imms all ones, and no other |
| ArmAsl.ScanArgumentIs | src/arm_asl.c:36 | the word that is scanned is immN:NOT(imms), zero-extended |
| ArmAsl.ROR | src/arm_asl.c:18-23 | bit k of the result is set if and only if some number j of the steps, at most all, takes a set bit of the word to k by going bit_size - 1 up j times and 1 down the other times |
| BitmaskTheorems.ShortWordBits | src/arm_asl.c:18-23 | for a word with no bit at or above the element, bit k after n steps is that of the repeated rotation below position size + n * (size - 1), and clear from there on |
| BitmaskTheorems.RorIsRotationIff | src/arm_asl.c:18-23 | such a word is truly rotated if and only if there are no steps, the element is one bit or the whole word, the word is 0, or one step meets at most the lowest bit |
| BitmaskTheorems.DecoderRotatesIff | src/arm_asl.c:45-46 | in the decoder that is R = 0, an element that fills the word, or R = 1 and S = 0 |
| ArmAsl.RorStepsCover | src/arm_asl.c:18-23 | for any element e and any word that agrees with e below and has no bit outside its repetition above, any number of unmasked steps leaves e truly rotated in the low bits, and no bit outside the repetition of that rotation |
| ArmAsl.DoublingCovers | src/arm_asl.c:48-51 | one doubling at any multiple of the period makes twice as many low bits exact and still sets no stray bit |
| ArmAsl.FillPattern | src/arm_asl.c:48-51 | the doubling loop ends with every bit of the word equal to the repeated rotated element |
| ArmAsl.BuildMask | src/arm_asl.c:45-51 | after the fields are known, both loops together give Replicate(ROR(Ones(S+1), R)) at any width |
| ArmAsl.AcceptsIffNotReserved | src/arm_asl.c:36-43 | the scan returns and the assertions hold exactly for the encodings the architecture does not reserve |
| ArmAsl.DecodeBitMasks | src/arm_asl.c:25-55 | for every accepted encoding the result is the architecture's mask |
| ArmAsl.MaskBit | src/arm_asl.c:40-51 | bit k of the mask is set if and only if (k + R) mod size is at most S |
| BitmaskTheorems.MaskInjective | src/arm_asl.c:36-51 | two accepted encodings give the same mask if and only if they agree on immN, imms and the bits of immr below the element size |
| Pools.Pool.Open | src/pool.c:17-22 | a new pool has the asked size, is empty and is all zero |
| Pools.Pool.MakeRoom | src/pool.c:38-54 | reallocation follows the growth rule, u32 sum included, leaves room, and keeps every byte, with zeros after them |
| Pools.Pool.Push | src/pool.c:34-62 | the handle is the old position and the bytes pushed are all that changes in the buffer; the zero tail is kept if and only if the bytes beyond the reserved size are zero; if there are none the contents gain the bytes and then zeros up to that size |
| Pools.Pool.PushAll | src/pool.c:34-62 | a run of pushes returns the handles, and leaves the contents and the sizes, of the functions that the results on runs are about |
| Pools.Pool.Store | src/pool.c:13-15 | a write through a handle replaces just those bytes |
| Pools.Pool.Drain | src/pool.c:64-67 | the pool becomes empty and all zero, and keeps its buffer |
| Pools.GrowthDefinedIff | src/pool.c:41 | the conversion of one and a half times the u32 sum is defined if and only if three times alloc_size + size is below 2 * 2^32 or, when the sum wraps, below 5 * 2^32 |
| Pools.GrowthAssertFailsIff | src/pool.c:41-42 | the exact sizes for which the assertion that the pool grows fails, with and without a wrap of the u32 sum, and what can happen when the product does not fit in a u32 |
| Pools.GrowthLeavesRoomIff | src/pool.c:41-57 | the exact sizes for which a growth step that passed the assertion has room for the region pushed |
| Pools.PushFitsIff | src/pool.c:38-60 | a push has a defined size, passes the assertion and has its region in the buffer if and only if these linear bounds on alloc_size, pos and size hold |
| Pools.GrowthPaysIff | src/pool.c:41-54 | a growth step pays for the bytes it copies if and only if its sum does not wrap |
| Pools.WrappedGrowthCopiesTooMuch | src/pool.c:41-54 | a reachable pool and a push that fits, after which the bound on copying is broken |
| Pools.RunAmortised | src/pool.c:34-67 | over every run of pushes and drains the buffer is at most the larger of its first size and three times the highest position and, unless a growth sum wrapped, the bytes copied are at most twice the growth of the buffer |
| Pools.NextHandle | src/pool.c:34-60 | the next handle is alloc_size further, or data_size when alloc_size is 0 |
| Pools.HandlesStable | src/pool.c:34-62 | after any later pushes every handle reads back its bytes; regions are consecutive and tile the pool |
| Pools.CanHoldWrongIff | src/pool.c:8-11 | the u32 sum gives the wrong answer if and only if it wraps to below alloc_size |
| BoolSets.BoolSet.constructor | src/boolset.cxx:7-12 | the set has the fewest bytes with room for every position, and is empty |
| BoolSets.BitAtIs | src/boolset.cxx:18-26 | position p is in byte p / 8, under the mask 0x80 for the first of a byte down to 1 for the last |
| BoolSets.BoolSet.GetBit | src/boolset.cxx:18-26 | membership of the position |
| BoolSets.BoolSet.SetBit | src/boolset.cxx:28-38 | the position becomes a member, whatever `value` is, and nothing else changes |
| BoolSets.BoolSet.SetAll | src/boolset.cxx:96-100 | every position, or none, is a member |
| BoolSets.WithBitMembers | src/boolset.cxx:28-38 | the masked byte update adds one member and no other, in its own byte or elsewhere |
| BoolSets.SetBitKeepsPromiseIff | src/boolset.cxx:28-38 | the update does what its parameter promises if and only if `value` is true |
| Layout.ExpressionRoundTrip | src/imlgen/iml.hxx:73-113 | an expression read back from its 24 bytes is the expression |
| Layout.InstructionRoundTrip | src/imlgen/iml.hxx:138-202 | an instruction read back from its 48 bytes is the instruction |
| RecordBytes.ExpressionWritten | src/imlgen/iml.hxx:18-113 | the 24 bytes of an expression, with the tags, the operation numbers and the little-endian fields as declared |
| RecordBytes.InstructionWritten | src/imlgen/iml.hxx:138-202 | the 48 bytes of an instruction: 0 or 2 as the variant, the union at 8, the hint's number, one bit for each flag at 40, `next` at 44 |
| RecordBytes.FinalBytes | src/imlgen/iml.cxx:18-30 | these are the bytes of every instruction in the final pool, at its handle |
| RecordBytes.FinalNodeBytes | src/imlgen/iml.cxx:85-92 | and those of its expressions, 24 apart from where the records of the word before end |
| Layout.NextWriteBack | src/imlgen/iml.cxx:30 | writing the four bytes of `next` changes that field only |
| Records.PushRecord | src/imlgen/iml.cxx:18-19 | a record is appended whole, with no u32 overflow below the limit |
| Records.NewCompound | src/imlgen/iml.cxx:85-92 | left is pushed, then right, and the expression holds their handles |
| TreePool.BuildRepresents | src/imlgen/iml.cxx:85-92 | whatever tree is built with the constructors, the pool then represents it: children are complete records strictly below their parent, and the blank child of a negation is never looked at |
| TreePool.EvalRepresented | src/imlgen/iml.hxx:85-113 | evaluating on handles, with the handle as measure, never fails on a represented tree and gives the tree's value |
| TreePool.RunRepresented | src/imlgen/iml.hxx:85-113 | the same for the flags, which are those of the operation at the root |
| TreePool.RepresentsLocal | src/pool.h:70-77 | what an expression stands for depends only on the bytes of its own tree |
| Dispatch.TopLevel | src/imlgen/arm_encoding.c:33-58 | each of the six top-level groups by its bits, for every word |
| Dispatch.Immediates | src/imlgen/arm_encoding.c:60-82 | each of the six groups of data processing on immediates; none is unallocated |
| Dispatch.Branches | src/imlgen/arm_encoding.c:85-113 | each of the seven branch groups |
| Dispatch.Registers | src/imlgen/arm_encoding.c:115-170 | each of the ten groups of data processing on registers |
| ArmEncoding.TopGroups | src/imlgen/arm_encoding.c:33-58 | the first table scan selects the two data-processing groups by their architectural bits |
| ArmEncoding.ImmediateClasses | src/imlgen/arm_encoding.c:60-82 | the two scans together route exactly the words of logical and of add/subtract immediate |
| ArmEncoding.RegisterClasses | src/imlgen/arm_encoding.c:115-170 | the dispatch routes exactly the words of logical and of add/subtract shifted register |
| ArmEncoding.BranchClasses | src/imlgen/arm_encoding.c:85-113 | the two scans together route exactly the words of unconditional branches, immediate and register |
| Pipeline.AcceptsIff | src/imlgen/decode.cxx:355-358 | the words that pass every assertion: not 0; for the logical classes those the architecture allocates; for add and subtract of a shifted register those with a small enough amount |
| Decode.DescribeOk | src/imlgen/decode.cxx:355-378 | every accepted word is decoded to operands that fit their records and a well-formed tree of at most six records |
| DecodePool.DecodeLogicalImm | src/imlgen/decode.cxx:148-191 | pushes the records of its tree and returns the instruction holding its root |
| DecodePool.DecodeDataRegLogicalShift | src/imlgen/decode.cxx:219-264 | the same, with the shift and negation nodes only where the word asks for them |
| DecodePool.DecodeAddSubImm | src/imlgen/decode.cxx:113-146 | the same, with a shift node in place of the immediate when the shift field is 01 |
| DecodePool.DecodeDataRegAddSubShift | src/imlgen/decode.cxx:266-305 | the same, for add/subtract of a shifted register |
| DecodePool.DecodeWord | src/imlgen/decode.cxx:355-378 | for every accepted word the pool gains the records of what the word is decoded to, and nothing else |
| DecodedRecord.LogicalShiftedRecord | src/imlgen/decode.cxx:219-264 | the whole tree and record from the fields of the instruction: no shift node for amount 0, a negation only for N, all flags marked as touched exactly for opc 3 |
| DecodedRecord.LogicalImmRecord | src/imlgen/decode.cxx:148-191 | the same; the constant is the low 32 bits of the architecture's mask |
| DecodedRecord.AddSubImmRecord | src/imlgen/decode.cxx:113-146 | the same, ADD for op = 1, a shift by 12 exactly for shift 01, no flag marked |
| DecodedRecord.AddSubShiftedRecord | src/imlgen/decode.cxx:266-305 | the same for every accepted word; the reserved shift type becomes a rotation |
| DecodedRecord.LogicalShiftedPushes | src/imlgen/decode.cxx:236-254 | the records pushed and their handles, in order, in all four cases of shift and negation; the right child of a negation is blank |
| LogicalMeaning.ForcedMeaning | src/imlgen/iml.cxx:64-83 | a source operand means its register; register 31 means zero, or SP when the caller forces it |
| LogicalMeaning.ShiftMeaning | src/imlgen/decode.cxx:237-242 | a shift node of any type and amount, or none for amount 0, evaluates to the architecture's shifted register, register 31 included |
| LogicalMeaning.ShiftedAcceptedIff | src/imlgen/decode.cxx:233-235 | a logical (shifted register) word is accepted if and only if the architecture allocates it |
| LogicalMeaning.LogicalShiftedFrame | src/imlgen/decode.cxx:246-261 | destination, width, flag setting and all four touched flags, for every legal instruction |
| LogicalMeaning.LogicalShiftedFaithful | src/imlgen/decode.cxx:219-264 | every legal logical (shifted register) instruction is decoded to its meaning in every state, flags and zero register included |
| LogicalMeaning.LogicalShiftedWordFaithful | src/imlgen/decode.cxx:219-264 | every accepted word the dispatch sends there encodes such an instruction and is decoded to its meaning |
| LogicalImmMeaning.ImmAcceptedIff | src/imlgen/decode.cxx:158-164 | a logical (immediate) word is accepted if and only if the architecture allocates it |
| LogicalImmMeaning.LogicalImmFrame | src/imlgen/decode.cxx:168-188 | destination, width, flag setting and all four touched flags, for every legal instruction |
| LogicalImmMeaning.CutMask32 | src/imlgen/decode.cxx:164 | for a 32-bit instruction the truncated constant is the architecture's 32-bit mask |
| LogicalImmMeaning.TopClearIff | src/imlgen/decode.cxx:164 | the 64-bit mask loses nothing when truncated if and only if N is set and the run of ones, from where it starts, ends below bit 32 |
| LogicalImmMeaning.LogicalImmFaithfulIff | src/imlgen/decode.cxx:148-191 | the decoding is right in every state if and only if the destination is not SP and, at 64 bits, the mask fits in 32 bits or the operation is AND with the zero register |
| LogicalImmMeaning.LogicalImmWordFaithful | src/imlgen/decode.cxx:148-191 | accepted words of that kind are decoded to their meaning |
| LogicalImmMeaning.LargestMaskUnfaithful | test/base.s:19-20 | AND X1, X2, #0xFFFFFFFFFFFFFFFE is decoded wrongly |
| SumMeaning.AddSubMeans | src/imlgen/decode.cxx:132 | ADD and SUB on numbers give the result and all four flags of the architecture's `AddWithCarry` |
| SumMeaning.OppositeFlagsDiffer | src/imlgen/decode.cxx:132 | the sum and the difference of the same operands never have the same flags |
| AddSubMeaning.ReservedShiftIgnored | src/imlgen/decode.cxx:118-130 | every word of the class is accepted, and one with a reserved shift is decoded like the unshifted one |
| AddSubMeaning.AddSubImmFaithfulIff | src/imlgen/decode.cxx:113-146 | the record does what the instruction does in every state, flags and SP included, if and only if it sets no flags, its immediate is 0, and it goes from a general register to a general register or from SP to SP at 64 bits |
| AddSubMeaning.ImmFlagsWrong | src/imlgen/decode.cxx:132-141 | a flag-setting form whose source is not SP leaves wrong flags in every state, and one whose source is SP in every state where SP is 0 |
| AddSubMeaning.StackSetupDropped | test/square.s:4 | SUB SP, SP, #0x16 moves SP in every state, and its record changes nothing |
| AddSubMeaning.AddSubImmFrame | src/imlgen/decode.cxx:115-141 | the record holds the word's destination field, width and flag-setting bit; touched flags are never marked |
| AddSubMeaning.AddRegAcceptedIff | src/imlgen/decode.cxx:273-280 | accepted words are the legal ones and those with the reserved shift type |
| AddSubMeaning.AddSubShiftedFaithfulIff | src/imlgen/decode.cxx:266-305 | the record does what the instruction does in every state if and only if it sets no flags and either drops its result or has as second operand the zero register or a left shift by the width less one |
| AddSubMeaning.RegFlagsWrong | src/imlgen/decode.cxx:295-302 | a flag-setting form leaves wrong flags in every state |
| AddSubMeaning.AddSubShiftedFrame | src/imlgen/decode.cxx:268-302 | destination, width, flag setting and touched flags are the architecture's |
| AddSubMeaning.NoReadingOfRegister31 | src/imlgen/decode.cxx:123-135 | two instructions of which one writes SP and the other drops its result are decoded to the same record, so no way of executing records is right for both |
| BranchMeaning.BranchDecoded | src/imlgen/decode.cxx:22-62 | B, BL, BR, BLR and RET are accepted; their record is unconditional, has the architecture's link behaviour, branch type and target field, touches no flag and has no successor |
| BranchMeaning.OtherRegisterBranch | src/imlgen/decode.cxx:33-51 | the other words of the register form become calls that do not link, to register 0 for exception return and debug restore |
| BranchMeaning.UndecodedIff | src/imlgen/decode.cxx:355-378 | the words whose record is all zero are those outside six bit patterns |
| ProgramLayout.LinkImage | src/imlgen/iml.cxx:29-30 | writing `next` of a word when all later words are linked yields the linked image, and nothing else moves |
| ProgramLayout.InstructionStays | src/imlgen/iml.cxx:14-30 | in the final pool the record of word k is the instruction it was decoded to with only `next` filled in |
| ProgramLayout.FollowVisits | src/imlgen/iml.cxx:12-44 | following `next` k times from the first handle reaches the record of word k, and 0 after the last |
| ProgramLayout.HandlesIncrease | src/imlgen/iml.cxx:18-30 | handles strictly increase, so no successor has handle 0 |
| ProgramLayout.TreeStays | src/imlgen/iml.cxx:85-92 | in the final pool the expression of every instruction that has one represents the word's tree, within the word's own records |
| ProgramLayout.EvaluationStable | src/imlgen/iml.cxx:14-30 | running an expression in the final pool gives the same value and flags as right after its own decode, which are the tree's |
| ProgramLayout.BlankChildIff | src/imlgen/decode.cxx:205-216 | the blank expression of an undecoded instruction names expression records if and only if the first word pushed one |
| ImlGen.ReadsInsideIff | src/imlgen/iml.cxx:23-27 | the recursion reads inside its buffer if and only if the size is a whole number of words |
| ImlGen.Program.constructor | src/imlgen/iml.cxx:46-57 | the pool is opened with one instruction record for each word, and nothing is marked as decoded |
| ImlGen.Program.DecodeAndPush | src/imlgen/iml.cxx:14-19 | the pool gains the unlinked records of one word; the handle is that of its instruction |
| ImlGen.Program.Link | src/imlgen/iml.cxx:29-30 | the write through a handle older than all later pushes links exactly that word |
| ImlGen.Program.Recurse | src/imlgen/iml.cxx:12-44 | from any word on, the pool gains the linked records of the rest, and all those words but the last are marked |
| ImlGen.Imlgen | src/imlgen/iml.cxx:46-62 | the pool ends as the linked records of the buffer, the decoded set is {0, ..., n-2}, and position, buffer size and bytes copied are linear in n |
| Pipeline.RunStep | src/imlgen/iml.cxx:12-44 | executing the record of word k does what its tree means and leads to the record of word k + 1 |
| Pipeline.MeaningKeptIff | src/imlgen/decode.cxx:355-378 | the words admitted to the pipeline theorem are all those, of the four classes, whose record does what the architecture does in every state |
| Pipeline.PipelinePreservesMeaning | src/imlgen/iml.cxx:46-62 | running the generated list does to every state what the Arm program does, in program order |
| Pipeline.ImlgenPreservesMeaning | src/imlgen/iml.cxx:46-62 | the same of the pool that `imlgen` has filled and the handle it got |
| Undecoded.UndecodedHarmlessIff | src/imlgen/decode.cxx:109-110 | in the final pool the record of an undecoded word leaves every state unchanged if and only if the first word of the buffer was not decoded either |
| Undecoded.UndecodedWrites | src/imlgen/iml.hxx:85-113 | otherwise handle 0 reads as a leaf, and the record puts twice its value, cut to 32 bits, in X0 |
| RegAlloc.Allocator.constructor | src/regalloc.c:18-19 | the table starts with RSP and RBP reserved |
| RegAlloc.Allocator.RegAlloc | src/regalloc.c:21-58 | table, flag and result follow the step function for every u8 id |
| RegAlloc.Allocator.RegReset | src/regalloc.c:61-64 | the whole table and the flag are cleared |
| RegAlloc.SpecialWritesHidden | src/regalloc.c:41-53 | with and without the X29 and SP writes every run returns the same results, from every state and for all ids |
| RegAlloc.AllocatorRefinesList | src/regalloc.c:18-64 | every run of requests and resets behaves as the list of distinct ids seen |
| RegAlloc.RunAnswers | src/regalloc.c:21-58 | the k-th request returns the slot at the rank of its id among the distinct ids so far, and -1 if and only if more ids than slots have been asked for |
| RegAlloc.RunInNumbers | src/regalloc.c:18-58 | the k-th request of a run gets slot number rank, or rank + 2 from rank 4 on before the first reset, and is spilled if and only if more than twelve ids, or fourteen after a reset, have been asked for |
| RegAlloc.RequestInNumbers | src/regalloc.c:21-58 | from any table and for any id: spilled exactly when closed or when none of slots 0 to 13 is free or holds the mark, else given the first such slot |
| RegAlloc.TableAfterRequest | src/regalloc.c:27-57 | what one request leaves in the table: the mark id + 1 in the slot given out; entry 5 or 4 for X29 or SP when none is left |
| RegAlloc.MappingIsInjection | src/regalloc.c:29-39 | from any table and for all ids, two requests between resets that got slots got the same one if and only if they asked for the same id, unless the earlier one asked for 255 |
| RegAlloc.RunInjectiveIff | src/regalloc.c:27-39 | a run from any table gives out slots one to one if and only if no request claims a slot after a request for id 255 |
| RegAlloc.ClaimsIff | src/regalloc.c:34-38 | a request for another id claims a slot if and only if the id is new and a slot is left |
| RegAlloc.ReservationEndsAtReset | src/regalloc.c:60-64 | RSP and RBP are never returned before the first reset, and are the fifth and sixth slots after it |
| RegAlloc.Id255SharesASlot | src/regalloc.c:27-38 | id 255 wraps to the mark of a free slot and shares it with the next id |
| RegAlloc.Id254TakesReservedSlot | src/regalloc.c:18-33 | before the first reset, id 254, whose mark is the reservation's, is given RSP if and only if the four slots before it are claimed |

## Left out

- ArmAsl.HighestBitSet: requires a nonzero word, because on zero the program's loop does not return; `ScanReturnsIffNonzero` covers both cases.
- RegAlloc.AllocatorRefinesList: ids up to 253, which include every Arm register number, as do `RunAnswers`, `RunInNumbers` and `ReservationEndsAtReset`; the marks of 254 and 255 are those of a reserved and of a free slot, so 254 can be given RSP (`Id254TakesReservedSlot`) and 255 is given a slot it does not claim (`Id255SharesASlot`).
- ImlGen.Imlgen: requires that the words be accepted (the program's assertions stop it otherwise) and 192 bytes a word to stay below 0xA0000000, so that no u32 overflows; a sufficient bound, not the least one.
- Pools.Pool.Push: requires that the program's assertion hold, the new size be defined, and the region reserved and the bytes copied lie inside the buffer, since outside it the program's behaviour is undefined; `PushFitsIff` says when. Allocation is taken to succeed.
- Pools.Pool.PushAll: requires that no data_size exceed a nonzero alloc_size, since the next push would overwrite the surplus; `Push` itself allows it.
- The repository has no evaluator for IML: `Machine` gives the operations the meaning their names and comments state, and 0 to those no decoder emits (multiply, divide, left arithmetic shift, left rotation, bitfield moves).
- How IML sets flags is this model's choice: those of the outermost operation, with C after SUB set when there is no borrow, as on Arm.
- What register 31 means in a record is not fixed by the repository (src/regalloc.c:48 takes it for SP): `Machine` drops what is written to it. The SP clauses of `LogicalImmFaithfulIff` and `AddSubImmFaithfulIff`, and the cases with destination 31 of `LogicalShiftedFaithful` and `AddSubShiftedFaithfulIff`, depend on this. With the other choice a destination 31 would be right for the immediate forms and wrong for the register forms; `NoReadingOfRegister31` shows that no choice is right for both.
- The compound expression constructor leaves `is_value` unset; the model stores false, which is what its comment says a compound expression holds.
- `entry_point` of a program is never assigned; the handle that the recursion returns is used in its place.
- A code buffer is its sequence of little-endian words; the bytes in memory and the pointer cast are not modelled.
- Padding bytes of records are zero; in C++ they are unspecified.
- BranchMeaning.BranchDecoded: the target is the raw field, which the program neither sign-extends nor scales; running a branch is not modelled, since the program does not yet resolve targets.
- Exception return, debug restore, conditional and compare branches are decoded as the program does, and given no meaning.
- MOV wide, bitfield, extract, PC-relative, load/store, SIMD and the other register classes return an empty result, and have no meaning to preserve; `Undecoded` says what running it does, in the record layout of `Layout`.
- `boolset::set_range` and its helper: no caller in the repository.
- `pool_close` and `pool_empty`: one-line operations.
- Loaders, memory mapping, logging, threads and object lifetime of a program.
