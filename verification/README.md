# Verification of the assembler, the B3 graph passes and the API protection registry

This project models three parts of a Rust port of JavaScriptCore and proves properties of the models with Dafny.

- **The ARM64 assembler** (`src/assembler`). Instructions are a datatype with an encoder, a decoder and a machine that
  executes them over integers. Every composite operation of the macro-assembler is a lowering to instructions, proved to
  do what the operation means. Programs of operations are emitted through a class that appends to one byte buffer, their
  branch tokens become link records, and the link pass patches the buffer in place. The top theorem,
  `ProgramRuns.BytesFollowProgram`, runs the linked bytes through fetch, decode and execute and shows that they follow
  the operations step for step. Frozen byte images and their relocations are modelled next to it.
- **The B3 graph passes** (`src/b3`): reverse post-order, iterative dominator sets and the value scheduler, as the
  imperative loops and recursions that they are.
- **The API protection registry** (`src/api`): a counted root registry that plans, applies to a heap and rolls back,
  with a whole-run invariant over arbitrary sequences of calls and collections.

The reference for instruction meaning is the Arm Architecture Reference Manual (DDI 0487): section C1.2.4 for condition
codes, section C4.1 for encoding classes and section C6.2 for the base instructions.

## Reading order

`Wrappers`, `Sequences`, `Graphs`, `Powers` and `Modular` hold shared vocabulary. `B3Procedure`, `B3ReversePostOrder`,
`B3Dominance` and `B3Scheduler` are the graph passes; `GcHeap`, `ApiProtection` and `ApiProtectionRuns` the registry.
For the assembler: `Words`, `Instructions`, `Encoder`, `CodeBuffer`, `KnownWords` and `Patches` are about bytes;
`Machine` says what instructions do; `Logic`, `MoveImmediate`, `Immediates`, `Comparison`, `Arithmetic`, `Shifts`,
`Branches`, `MemoryAccess` and `StackPairs` are the lowerings; `AccessBytes` says which bytes an access moves, with
every size, scale and extension written out, and `ScratchConflicts` is about accesses whose operands are in a scratch
register; `Operations` and `Encodability` gather them; `LinkRecords`, `Labels`, `Linking` and `Fragments` are about
branches; `Assembly`, `Execution` and `ProgramRuns` put whole programs together; `MacroAssembler` and `Pipeline` are the
emitting methods; `Relocations`, `Digests` and `LinkBuffer` are about frozen images.

## Preconditions the code relies on

- `ip0` and `ip1` are scratch. `Operations.Reliable` states, operation by operation, which operands must survive them.
  The conditions are exact: `Arithmetic.AddSubImmExact`, `Arithmetic.SwapExact`, `Comparison.CmpImmExact`,
  `Branches.Branch64Exact` and `ScratchConflicts.AddressExact` show that the code fails from some state without them.
  For an access with an index `Reliable` is sufficient only: `ScratchConflicts.IndexedExact` gives the exact condition,
  under which a folded store of its own base also succeeds, if the offset is a multiple of the size stored.
- `zr` must not reach a slot that reads field value 31 as `sp`, nor `sp` one that reads it as `zr`:
  `Encodability.Encodable` states the slots, exactly (`Encodability.LowerLegalExactly`), `Encoder.RoundTripsExactly`
  that no instruction outside them is recovered from its word, and `Encoder.ZrSpillsFromSpSlot` what happens to one of
  them.
- The code is shorter than 2^32 bytes, as labels are 32-bit offsets (`Assembly.Addressable`).
- Block and value ids are distinct, as the procedure validator enforces. `B3Dominance.SharedIdNeverSettles` gives a
  family of block lists with a shared id on which the dominance loop would run for ever.

The source's comment on `cmp` says an `sp` operand would silently compare with zero, and a `debug_assert` stops a debug
build that passes one (`src/assembler/macro_assembler_arm64.rs:878-890`). The code that a release build emits routes an
`sp` left operand through the extended-register form, which reads `sp`. The model follows the emitted code: every
comparison and branch lemma, and `Encodability.Encodable`, admit `sp` on the left.

The move sequence is as short as any of its own size (`MoveImmediate.MoveShortest`). Among moves of both sizes
`MoveImmediate.ShortestExactly` gives the exact condition on the immediate, and `MoveImmediate.MixedSizesCanBeShorter`
one that fails it.

Far calls and patchable jumps are allowed by the code link profiles and handled by the relocation step, but their kinds
have no registered schema: `LinkBuffer.UnregisteredKindRejected` shows that no buffer that lists one can be planned.

## Model

| member | source | states |
|---|---|---|
| B3Procedure.ValidProcedureParts | src/b3/mod.rs:298-330 | a procedure passes validation exactly when its ids exist, block and value ids are distinct, the values of every block exist and a terminal one stands in its last place, and every value names an existing owner and existing children |
| B3Procedure.ValidBlocksFrom | src/b3/mod.rs:353-369 | the block loop accepts exactly distinct blocks that are well formed: their values exist, and of the descriptors of their values only that in the last place is terminal |
| B3Procedure.ValidBlock | src/b3/mod.rs:353-369 | so does the check of one block, which looks at the first descriptor that carries an id |
| B3Procedure.ValidValuesFrom | src/b3/mod.rs:321-350 | the value loop accepts exactly distinct values whose owner block and children exist |
| B3Procedure.ErrorsHold | src/b3/mod.rs:298-369 | an error names a block or value of which it is true |
| B3Procedure.SuccessorEdges | src/b3/mod.rs:386-405 | the edges of the search lead from a block, the first with its id, to the successors it lists |
| B3ReversePostOrder.ReversePostOrder | src/b3/mod.rs:371-384 | returns a reverse post-order of the reachable blocks, entry first, the successors of the entry in their order, or fails exactly when a reachable id has no block |
| B3ReversePostOrder.VisitBlockPostorder | src/b3/mod.rs:386-405 | one depth-first visit: everything newly reachable is finished, in post-order, and nothing open is touched |
| B3ReversePostOrder.FinishBlock | src/b3/mod.rs:386-405 | finishing a block after all its successors keeps the search invariant |
| B3ReversePostOrder.SearchComplete | src/b3/mod.rs:371-384 | what the search visited from the entry is exactly what the entry reaches |
| B3ReversePostOrder.AcyclicOrderIsTopological | src/b3/mod.rs:371-405 | on an acyclic graph the order is topological |
| B3Dominance.DominanceSets | src/b3/mod.rs:407-464 | the in-place loop terminates and each final set holds exactly the dominators of its block, sorted; it fails exactly on a missing entry or predecessor and names the first |
| B3Dominance.MissingPredecessorFirst | src/b3/mod.rs:430-440 | the error is the first predecessor without a block, in the order the blocks and their predecessors are listed |
| B3Dominance.PredecessorEdges | src/b3/mod.rs:430-440 | the paths that dominance is about lead from a block, the first with its id, to the predecessors it lists |
| B3Dominance.ComputeNext | src/b3/mod.rs:430-452 | one transfer step: the meet of the predecessors' sets with the block itself, sorted |
| B3Dominance.VisitKeeps | src/b3/mod.rs:428-461 | an in-place visit only removes blocks that do not dominate and keeps every dominator |
| B3Dominance.WeightFalls | src/b3/mod.rs:454-460 | replacing a set by a different, sorted subset lowers its weight, so the loop terminates |
| B3Dominance.NextMonotone | src/b3/mod.rs:430-452 | the transfer step is monotone in the other blocks' sets |
| B3Dominance.SettledIsDominance | src/b3/mod.rs:428-463 | a settled state is dominance along all predecessor paths from the roots |
| B3Dominance.DominanceFromEntry | src/b3/mod.rs:407-464 | when every other block has a predecessor the definition is textbook dominance from the entry |
| B3Dominance.SharedIdNeverSettles | src/b3/mod.rs:428-461 | with a shared block id the visits cycle and never settle: distinct ids are needed |
| B3Scheduler.ScheduledValuesInBlock | src/b3/mod.rs:466-477 | succeeds exactly when the in-block child relation is acyclic; the result lists every value once, children first; a reported cycle value lies on a cycle |
| B3Scheduler.ScheduleValue | src/b3/mod.rs:479-507 | one depth-first visit: schedules the value after its in-block children or reports a value on a cycle |
| B3Scheduler.ScheduledIsAcyclic | src/b3/mod.rs:466-507 | a schedule with children first exists only for an acyclic relation |
| B3Scheduler.OrderedBlockKept | src/b3/mod.rs:466-507 | a block that already lists children before their parents is scheduled as it is listed |
| B3Scheduler.ChildEdges | src/b3/mod.rs:479-507 | the relation leads from a value, the first with its id, to the children it lists that are in the block |
| GcHeap.ValidateTargetedRootSetExact | src/gc/heap.rs:1783-1804 | a record list is accepted exactly when ids are distinct and not 0, no record is on the stack, and each belongs to the heap and targets a cell |
| GcHeap.Heap.RegisterTargetedRoot | src/gc/heap.rs:1006-1013 | registers a valid new root or fails leaving the heap as it was |
| GcHeap.Heap.RetargetTargetedRoot | src/gc/heap.rs:1015-1022 | replaces the record of an existing root in place or fails leaving the heap as it was |
| GcHeap.Heap.UnregisterTargetedRoot | src/gc/heap.rs:1024-1031 | removes the root or fails leaving the heap as it was |
| GcHeap.RegisterExact | src/gc/heap.rs:1006-1013 | a root is registered exactly for a new id by the owner of its kind, with a live cell of the heap as its target, and its record goes last |
| GcHeap.RetargetExact | src/gc/heap.rs:1015-1022 | a root is retargeted exactly for a known id under the same conditions, and its record stays in place |
| GcHeap.UnregisterExact | src/gc/heap.rs:1024-1031 | a root is removed exactly for a known id by the owner of its kind, and the others keep their order |
| GcHeap.RefusalsHold | src/gc/heap.rs:1645-1690 | a refusal to register or retarget names what is wrong |
| GcHeap.UnregisterRefusalHolds | src/gc/heap.rs:1024-1031 | and so does one to unregister |
| ApiProtection.ApiProtectionRegistry.Protect | src/api/protect.rs:493-541 | plans a protection: inserts or counts up, or fails leaving the entries unchanged |
| ApiProtection.ApiProtectionRegistry.Unprotect | src/api/protect.rs:543-584 | plans an unprotection: counts down or removes, or fails leaving the entries unchanged |
| ApiProtection.ApiProtectionRegistry.RetargetSlot | src/api/protect.rs:586-632 | plans a retarget with the root mutation it needs, or fails leaving the entries unchanged; `RetargetStores` says what is stored |
| ApiProtection.ApiProtectionRegistry.ApplyPlanToHeap | src/api/protect.rs:691-708 | applies the root mutation to the heap, or restores the saved entries |
| ApiProtection.ApiProtectionRegistry.ProtectValue | src/api/protect.rs:461-470 | plan and apply as one step of the world; a failure changes neither registry nor heap |
| ApiProtection.ApiProtectionRegistry.UnprotectValue | src/api/protect.rs:472-480 | the same for unprotecting |
| ApiProtection.ApiProtectionRegistry.RetargetValue | src/api/protect.rs:482-491 | the same for retargeting |
| ApiProtectionRuns.ValidatedRootsAreNextRoots | src/api/protect.rs:669-689 | the list validated before an insertion is, up to order, the root list after it |
| ApiProtectionRuns.TargetedRootsWithValid | src/api/protect.rs:669-689 | under the invariant that validation accepts any valid replacement |
| ApiProtectionRuns.UnprotectKeeps | src/api/protect.rs:543-584 | unprotecting a registered slot always succeeds under the invariant (the check after the removal cannot fail) and keeps it |
| ApiProtectionRuns.ProtectKeeps | src/api/protect.rs:493-541 | protecting keeps the invariant; a failure leaves the world unchanged |
| ApiProtectionRuns.RetargetKeeps | src/api/protect.rs:586-632 | retargeting keeps the invariant; a failure leaves the world unchanged |
| ApiProtectionRuns.StepKeeps | src/api/protect.rs:461-662 | every operation, collections and foreign roots included, keeps the invariant |
| ApiProtectionRuns.RunKeeps | src/api/protect.rs:461-662 | so does every run |
| ApiProtectionRuns.RunCounts | src/api/protect.rs:493-584 | an entry's count changes by successful protects less unprotects |
| ApiProtectionRuns.RunFromFresh | src/api/protect.rs:461-662 | from a fresh world: the count is the net number of protects and positive, an entry has a root exactly when its target is a cell, and a protected cell is never collected |
| ApiProtectionRuns.ApiRootsAreEntries | src/api/protect.rs:30-32 | after any run every API root in the heap is that of a registered slot |
| ApiProtectionRuns.ProtectSucceeds | src/api/protect.rs:493-541 | exactly when a protection succeeds |
| ApiProtectionRuns.RetargetSucceeds | src/api/protect.rs:586-632 | exactly when a retarget succeeds |
| ApiProtectionRuns.ProtectStores | src/api/protect.rs:493-541 | a first protection stores its arguments with a count of 1 and registers the root of a cell, a repeated one only counts up, and no other slot changes; and the plan that is returned |
| ApiProtectionRuns.UnprotectStores | src/api/protect.rs:543-584 | unprotecting only counts down, the last time removes the entry and its root, and no other slot changes; and the plan |
| ApiProtectionRuns.RetargetStores | src/api/protect.rs:586-632 | retargeting stores its arguments with the old count, registers, moves or removes the root as the old and new targets call for, and no other slot changes; and the plan |
| ApiProtectionRuns.ProtectRefusalHolds | src/api/protect.rs:493-541 | what an error of protecting says is true |
| ApiProtectionRuns.RetargetRefusalHolds | src/api/protect.rs:586-632 | what an error of retargeting says is true |
| ApiProtectionRuns.UnprotectRefusalHolds | src/api/protect.rs:543-584 | unprotecting fails exactly for a slot without an entry, and says so |
| Words.FieldUnsigned | src/assembler/arm64_encoder.rs:298-316 | a masked field reads back as the number it was cast from |
| Words.FieldSigned | src/assembler/arm64_encoder.rs:529-542 | a masked field reads back as the signed number it was cast from |
| Words.BytesRoundTrip | src/assembler/arm64_encoder.rs:751-755 | little-endian bytes give the word back |
| Encoder.DecodePack | src/assembler/arm64_encoder.rs:296-717 | for any field values that stand for the operands, decoding the packed word gives the instruction back: fields are disjoint and classes do not overlap |
| Encoder.FieldsMatch | src/assembler/arm64_encoder.rs:255-290 | every operand of a legal instruction is cast to a field value that stands for it |
| Encoder.DecodeEncode | src/assembler/arm64_encoder.rs:296-717 | a legal instruction is recovered from its word |
| Encoder.RoundTripsExactly | src/assembler/arm64_encoder.rs:255-717 | exactly the legal instructions are recovered from their words |
| Encoder.ZrSpillsFromSpSlot | src/assembler/arm64_encoder.rs:262-267 | for one: `zr` as the base of an addition spills into the immediate, and the word is that of another instruction |
| KnownWords.ImmediateSumWords | src/assembler/arm64_encoder.rs:1743-1752 | additions, subtractions and comparisons with an immediate have the words of the instruction set |
| KnownWords.SumWords | src/assembler/arm64_encoder.rs:1890-1938 | of registers |
| KnownWords.ExtendedSumWords | src/assembler/arm64_encoder.rs:133-142 | with every extension of the last operand |
| KnownWords.ExtendedComparisonWord | src/assembler/macro_assembler_arm64.rs:1770-1780 | the comparison of the overflow check |
| KnownWords.LogicalWords | src/assembler/arm64_encoder.rs:1952-1993 | every logical operation |
| KnownWords.MoveWords | src/assembler/arm64_encoder.rs:1710-1723 | every move of a halfword |
| KnownWords.ShiftWords | src/assembler/arm64_encoder.rs:1997-2029 | every shift by a register |
| KnownWords.BitfieldWords | src/assembler/arm64_encoder.rs:2030-2043 | shifts by an immediate |
| KnownWords.WideBitfieldWord | src/assembler/arm64_encoder.rs:624-643 | and a 64-bit one |
| KnownWords.ProductWords | src/assembler/arm64_encoder.rs:1767-1794 | every product |
| KnownWords.AccessWords | src/assembler/arm64_encoder.rs:1798-1815 | loads and stores with a scaled offset, of every size |
| KnownWords.UnscaledAccessWords | src/assembler/arm64_encoder.rs:2125-2148 | with an unscaled one |
| KnownWords.IndexedAccessWords | src/assembler/arm64_encoder.rs:1818-1846 | with an index, of every size |
| KnownWords.StorePairWords | src/assembler/arm64_encoder.rs:1850-1859 | stores of pairs in every addressing mode |
| KnownWords.LoadPairWords | src/assembler/arm64_encoder.rs:1860-1864 | loads of pairs |
| KnownWords.BranchWords | src/assembler/arm64_encoder.rs:1868-1873 | `b` and `bl` |
| KnownWords.BranchRegisterWords | src/assembler/arm64_encoder.rs:1877-1880 | `br`, `blr` and `ret` |
| KnownWords.ConditionWords | src/assembler/arm64_encoder.rs:148-166 | `b.cond` with every condition |
| KnownWords.NopBytes | src/assembler/arm64_encoder.rs:1704-1707 | `nop`, as a word and as bytes, the lowest first |
| CodeBuffer.DecodeProgram | src/assembler/arm64_encoder.rs:751-755 | splitting a buffer into words and decoding gives back exactly the emitted list |
| CodeBuffer.EncodesIsEncodeAll | src/assembler/arm64_encoder.rs:751-755 | appending words one by one is the same as having every word at four times its index |
| CodeBuffer.PatchEncoded | src/assembler/link_records.rs:420-429 | overwriting a word with an encoding is emitting that instruction in the first place |
| Patches.LastWins | src/assembler/link_records.rs:420-429 | of the patches at a site the last one stays |
| Patches.AgreedInAnyOrder | src/assembler/link_records.rs:420-429 | patches that agree at every site may be applied in any order |
| MoveImmediate.MoveSets | src/assembler/macro_assembler_arm64.rs:989-1046 | the move sequence leaves exactly the masked value, whatever the register held, and changes nothing else |
| MoveImmediate.MoveLength | src/assembler/macro_assembler_arm64.rs:989-1046 | its length is max(1, halfwords less the more frequent of 0x0000 and 0xffff) |
| MoveImmediate.MoveShortest | src/assembler/macro_assembler_arm64.rs:989-1046 | no same-size sequence of moves that works from every prior state is shorter |
| MoveImmediate.ShortestExactly | src/assembler/macro_assembler_arm64.rs:989-1046 | no sequence of moves of either size is shorter exactly when the destination is 32-bit or max(1, 4 less the more frequent of 0x0000 and 0xffff) is at most max(1, lower halfwords other than 0xffff) plus the upper halfwords other than 0 |
| MoveImmediate.MixedSizesCanBeShorter | src/assembler/macro_assembler_arm64.rs:989-1046 | 0xffff_ffff takes one 32-bit move where two 64-bit ones are emitted |
| MoveImmediate.NarrowMoveIsCounted | src/assembler/macro_assembler_arm64.rs:989-1046 | the 32-bit `movn` itself counts: a value one halfword away from what it leaves still takes two moves |
| MoveImmediate.MoveImmediate64Sets | src/assembler/arm64_encoder.rs:840-858 | the encoder's own helper reaches the same value |
| Immediates.ExtractionExact | src/assembler/macro_assembler_arm64.rs:1206-1225 | succeeds exactly on k, -k, 4096k, -4096k with k below 4096, and the parts rebuild the immediate |
| Immediates.SignedImm9Range | src/assembler/macro_assembler_arm64.rs:1230-1232 | the shift test is the range -256..255 |
| Immediates.ScaledUImm12Rebuilds | src/assembler/macro_assembler_arm64.rs:1237-1244 | an offset has a scaled form exactly when it is a multiple of 1, 2, 4 or 8, as the size says, by at most 4095, and the field rebuilds it |
| Comparison.CompareHolds | src/assembler/macro_assembler_arm64.rs:77-92 | after a comparison each condition holds exactly when its signed or unsigned relation does |
| Comparison.AddOfNegation | src/assembler/macro_assembler_arm64.rs:896-901 | `cmn` of a negated immediate sets the same flags as `cmp` |
| Comparison.CmpSets | src/assembler/macro_assembler_arm64.rs:878-890 | `cmp` sets the flags of the difference and changes nothing else |
| Comparison.CmpImmSets | src/assembler/macro_assembler_arm64.rs:896-906 | every form of `cmp_imm` sets the flags of comparing with the sign-extended immediate; only the scratch may change |
| Comparison.CmpImmExact | src/assembler/macro_assembler_arm64.rs:896-906 | right from every state exactly when the scratch path does not compare the scratch register |
| Arithmetic.AddMeaning | src/assembler/macro_assembler_arm64.rs:169-179 | register addition, with `sp` swapped into the slot that reads it |
| Arithmetic.AddSubImm32Meaning | src/assembler/macro_assembler_arm64.rs:913-943 | src plus or minus the immediate modulo 2^32 on all paths; the scratch is untouched when src and dest differ |
| Arithmetic.AddSubImm64Meaning | src/assembler/macro_assembler_arm64.rs:949-970 | src plus or minus the sign-extended immediate modulo 2^64 on all paths |
| Arithmetic.AddSubImmExact | src/assembler/macro_assembler_arm64.rs:913-970 | right from every state exactly when the scratch path does not read the scratch register as its source |
| Arithmetic.MoveRRMeaning | src/assembler/macro_assembler_arm64.rs:419-429 | a register move |
| Arithmetic.ZeroExtend32Meaning | src/assembler/macro_assembler_arm64.rs:509-516 | the low half, zero-extended |
| Arithmetic.SwapMeaning | src/assembler/macro_assembler_arm64.rs:519-526 | the two registers are exchanged through the scratch |
| Arithmetic.SwapExact | src/assembler/macro_assembler_arm64.rs:519-526 | it swaps from every state exactly when neither is the scratch |
| Logic.LogicalIsBitwise | src/assembler/macro_assembler_arm64.rs:284-347 | and, or and xor of registers are bitwise |
| Logic.BitwiseBits | src/assembler/macro_assembler_arm64.rs:284-347 | every bit of the result combines the operands' bits there, and there are no others |
| Shifts.LslMeaning | src/assembler/arm64_encoder.rs:1338-1343 | the UBFM parameters shift left, for both sizes and every masked amount |
| Shifts.LsrMeaning | src/assembler/arm64_encoder.rs:1348-1351 | shift right logically |
| Shifts.AsrMeaning | src/assembler/arm64_encoder.rs:1356-1359 | shift right arithmetically, rounding down |
| Shifts.ShiftBack | src/assembler/arm64_encoder.rs:1338-1351 | a left shift is undone by a right shift when no bit was lost |
| Branches.Branch32Taken | src/assembler/macro_assembler_arm64.rs:598-606 | taken exactly when the relation holds between the low halves |
| Branches.Branch32ImmTaken | src/assembler/macro_assembler_arm64.rs:615-623 | taken exactly when the relation holds with the immediate, on the `cmp`, `cmn` and scratch paths |
| Branches.Branch64Taken | src/assembler/macro_assembler_arm64.rs:627-651 | taken exactly when the relation holds, also with `sp` on either side |
| Branches.Branch64Exact | src/assembler/macro_assembler_arm64.rs:627-651 | right from every state exactly when the scratch register is not compared with `sp` |
| Branches.BranchAddSub32Taken | src/assembler/macro_assembler_arm64.rs:753-777 | delivers the wrapped result; `Overflow` is exact signed overflow |
| Branches.BranchTestTaken | src/assembler/macro_assembler_arm64.rs:669-695 | branches on the masked register |
| Branches.NoCommonBit | src/assembler/macro_assembler_arm64.rs:669-695 | the test is zero exactly when register and mask share no bit |
| Branches.BranchMul32OverflowTaken | src/assembler/macro_assembler_arm64.rs:712-749 | taken exactly when the exact signed product does not fit 32 bits; dest holds its low half, also when it was a source |
| Branches.BranchMul32Taken | src/assembler/macro_assembler_arm64.rs:712-731 | any other condition is that of the wrapped product |
| Machine.ScaleByPower | src/assembler/macro_assembler_arm64.rs:1110-1157 | scaling an index multiplies it by its power of two |
| Machine.ExtendExact | src/assembler/arm64_encoder.rs:133-142 | every extension keeps the low bits of the register and no others, as an unsigned or a signed number |
| Machine.OppositeConditions | src/assembler/arm64_encoder.rs:148-166 | conditions come in pairs of which exactly one holds; `al` always does |
| Machine.ReturnFollowsCall | src/assembler/macro_assembler_arm64.rs:797-801 | a `ret` at the target of a call goes on behind the call |
| MemoryAccess.LoadStoreAddressMeaning | src/assembler/macro_assembler_arm64.rs:1080-1101 | every form accesses base + offset and changes only rt, memory or the scratch; `AccessBytes.AddressBytes` says which bytes |
| MemoryAccess.LoadStoreBaseIndexMeaning | src/assembler/macro_assembler_arm64.rs:1110-1182 | every form accesses one address and changes only rt, memory or the scratch; `AccessBytes.IndexedBytes` says which address and bytes |
| ScratchConflicts.AddressExact | src/assembler/macro_assembler_arm64.rs:1080-1101 | an access with an offset is right from every state exactly when the scratch path has neither its base nor a stored value in the scratch register |
| ScratchConflicts.IndexedExact | src/assembler/macro_assembler_arm64.rs:1110-1182 | exactly which operands of an access with an index survive the scratch register |
| MemoryAccess.StoreThenLoad | src/assembler/macro_assembler_arm64.rs:533-560 | a load of the size just stored gives the value back |
| MemoryAccess.WriteElsewhere | src/assembler/macro_assembler_arm64.rs:548-560 | a store leaves every other byte alone |
| AccessBytes.SizesAgree | src/assembler/macro_assembler_arm64.rs:1237-1244 | a size moves 1, 2, 4 or 8 bytes: two to the power of the size field of its word |
| AccessBytes.AddressBytes | src/assembler/macro_assembler_arm64.rs:1080-1101 | a load takes, and a store leaves, the 1, 2, 4 or 8 bytes at base + offset modulo 2^64 and no others, in one instruction exactly for -256..255 and for multiples of the size up to 4095 times it |
| AccessBytes.IndexedBytes | src/assembler/macro_assembler_arm64.rs:1067-1157 | the same at base + offset + 1, 2, 4 or 8 times the index, read whole, zero-extended or sign-extended from its low 32 bits |
| AccessBytes.IndexedLength | src/assembler/macro_assembler_arm64.rs:1110-1182 | one instruction exactly without an offset when the scale is 1 or that of the size, two exactly when the offset folds then, more otherwise |
| AccessBytes.ReadIsLittleEndian | src/assembler/macro_assembler_arm64.rs:533-547 | the bytes read form a little-endian number, wrapping at 2^64 |
| AccessBytes.WrittenBytes | src/assembler/macro_assembler_arm64.rs:548-560 | each byte of the value is written to its own address, lowest first, and no other byte changes |
| StackPairs.PushThenPop | src/assembler/macro_assembler_arm64.rs:818-828 | a push and a pop move two registers through the stack and restore the stack pointer and every other register |
| Operations.StraightMeaning | src/assembler/macro_assembler_arm64.rs:163-594 | every operation without a branch leaves exactly the state it means: sums, differences, negations and products modulo the size, bitwise results, shifts by masked amounts, moves, exchanges, accesses and pairs on the stack |
| Operations.ConditionalMeaning | src/assembler/macro_assembler_arm64.rs:598-777 | every conditional branch's condition holds exactly when it is to be taken |
| Encodability.LowerLegalExactly | src/assembler/arm64_encoder.rs:255-275 | exactly the operations all of whose operands have a slot that can name them are lowered to legal instructions only |
| LinkRecords.IsIntRange | src/assembler/link_records.rs:142-145 | the shift test is the signed range |
| LinkRecords.ByteAndWordTestsAgree | src/assembler/link_records.rs:315-325 | the 21-bit test on bytes and the 19-bit test on words agree for aligned records |
| LinkRecords.ChosenFormFits | src/assembler/link_records.rs:307-383 | a conditional record within the code is never out of range |
| LinkRecords.ThunkOutOfRange | src/assembler/link_records.rs:315-325 | a thunk record is out of range exactly at a distance of -2^20 - 4 |
| LinkRecords.UnconditionalLinks | src/assembler/link_records.rs:435-454 | exactly when an unconditional record links |
| LinkRecords.ConditionalLinks | src/assembler/link_records.rs:463-481 | exactly when a conditional record links |
| LinkRecords.OthersRefused | src/assembler/link_records.rs:366-383 | every other form is refused |
| LinkRecords.LinkErrors | src/assembler/link_records.rs:366-481 | what an error of linking says of the record and the code is true |
| LinkRecords.LinkedSite | src/assembler/link_records.rs:366-383 | the site decodes to a `b.cond` of its condition for a conditional record, a `bl` for a call and a `b` otherwise, with exactly its target; no other byte changes |
| LinkRecords.WriteWordInPlace | src/assembler/link_records.rs:420-429 | writes one word or reports it out of bounds |
| LinkRecords.LinkJumpOrCallInPlace | src/assembler/link_records.rs:435-454 | the in-place patch of `b` and `bl`; an error leaves the bytes alone |
| LinkRecords.LinkConditionalBranchInPlace | src/assembler/link_records.rs:463-481 | the in-place patch of `b.cond`; an error leaves the bytes alone |
| LinkRecords.ChosenForm | src/assembler/link_records.rs:307-356 | each jump type gets a form of its own family: the short one exactly within its reach, seen 4 bytes further on by thunks, and leaving 4 of its 8 bytes over, or the long one, which fills them |
| LinkRecords.Arm64LinkRecord.LinkInPlace | src/assembler/link_records.rs:366-384 | computes the form and patches in place; an error leaves the bytes alone |
| Linking.JumpListLinks | src/assembler/labels.rs:277-282 | linking the records of a list succeeds exactly when each of its jumps reaches the common target |
| Linking.JumpListGoesToTarget | src/assembler/labels.rs:236-282 | then every site of the list, however often listed, decodes to the branch of its last jump, a `b.cond` of its condition or a `b`, to exactly that target, and no byte outside the sites changes |
| Linking.UnsetJumpNeverLinks | src/assembler/labels.rs:243-255 | a list with an unset jump never links: why making a list of one drops it |
| Linking.LinkedInTurn | src/assembler/labels.rs:257-261 | a list that absorbed another links as the two in turn |
| Labels.JumpList.LinkTo | src/assembler/labels.rs:277-282 | the loop that builds them |
| Linking.LinkAllPatches | src/assembler/link_records.rs:366-384 | any records link, on any code, exactly when each does alone, and then their words are patched in order |
| Linking.LinkAllRetargets | src/assembler/link_records.rs:366-384 | linking the code of a program gives the code of the program with its branches retargeted, and fails only for distance |
| Linking.RetargetedWords | src/assembler/link_records.rs:366-384 | with distinct sites each holds its own branch and everything else is as emitted |
| MacroAssembler.MacroAssemblerArm64.Insn | src/assembler/arm64_encoder.rs:751-755 | appends one instruction's word |
| MacroAssembler.MacroAssemblerArm64.Vote | src/assembler/macro_assembler_arm64.rs:1010-1017 | counts 0x0000 halfwords less 0xffff ones |
| MacroAssembler.MacroAssemblerArm64.Fill | src/assembler/macro_assembler_arm64.rs:1019-1045 | one clearing move and then `movk` |
| MacroAssembler.MacroAssemblerArm64.MoveInternal | src/assembler/macro_assembler_arm64.rs:989-1046 | emits the move sequence |
| MacroAssembler.MacroAssemblerArm64.EmitMoveImmediate64 | src/assembler/arm64_encoder.rs:840-858 | emits the encoder's own sequence |
| MacroAssembler.MacroAssemblerArm64.AddSubImm32 | src/assembler/macro_assembler_arm64.rs:913-943 | emits the 32-bit addition or subtraction of an immediate |
| MacroAssembler.MacroAssemblerArm64.AddSubImm64 | src/assembler/macro_assembler_arm64.rs:949-970 | emits the 64-bit one |
| MacroAssembler.MacroAssemblerArm64.CmpImm | src/assembler/macro_assembler_arm64.rs:896-906 | emits the comparison with an immediate |
| MacroAssembler.MacroAssemblerArm64.MakeBranch | src/assembler/macro_assembler_arm64.rs:1058-1063 | emits the placeholder and the reserved word; the token names the branch |
| MacroAssembler.MacroAssemblerArm64.Branch32ImmOp | src/assembler/macro_assembler_arm64.rs:615-623 | emits the comparison and the branch and returns its token |
| MacroAssembler.MacroAssemblerArm64.Branch64Op | src/assembler/macro_assembler_arm64.rs:627-651 | the same, moving an `sp` operand to the scratch |
| MacroAssembler.MacroAssemblerArm64.BranchMul32Op | src/assembler/macro_assembler_arm64.rs:712-749 | the same for multiplication |
| MacroAssembler.MacroAssemblerArm64.JumpOp | src/assembler/macro_assembler_arm64.rs:782-786 | the token names the `b` |
| MacroAssembler.MacroAssemblerArm64.NearCallOp | src/assembler/macro_assembler_arm64.rs:797-801 | the token names the `bl` |
| MacroAssembler.MacroAssemblerArm64.LoadStoreAddressOp | src/assembler/macro_assembler_arm64.rs:1080-1101 | emits the access |
| MacroAssembler.MacroAssemblerArm64.LoadStoreBaseIndexOp | src/assembler/macro_assembler_arm64.rs:1110-1157 | emits the indexed access |
| MacroAssembler.MacroAssemblerArm64.FoldBaseAndOffset | src/assembler/macro_assembler_arm64.rs:1164-1182 | folds the offset into the scratch or emits nothing |
| Assembly.TokenNamesSite | src/assembler/labels.rs:191-202 | a token's record names the placeholder its operation emitted |
| Assembly.PlaceholderReserves | src/assembler/link_records.rs:55-80 | a placeholder, with the word that a conditional one reserves, is as long as the jump type of its record says |
| Assembly.LinkedSites | src/assembler/macro_assembler_arm64.rs:782-801 | emit, then link: every site decodes to a `b.cond` of the condition emitted there, a `b` or a `bl`, whose target is exactly the label |
| Assembly.OtherWords | src/assembler/link_records.rs:366-383 | and every other word is as it was emitted |
| Assembly.LinkedCodeIs | src/assembler/link_records.rs:366-384 | linking fails only for distance |
| Execution.RunStraight | src/assembler/arm64_encoder.rs:751-755 | straight-line code runs as its instructions do, fetched and decoded from the bytes |
| Execution.RunFragment | src/assembler/macro_assembler_arm64.rs:1058-1063 | the bytes of one operation run to where its branch goes, or past the reserved word |
| ProgramRuns.StepAgrees | src/assembler/macro_assembler_arm64.rs:163-801 | one operation's code goes where the operation does, with the same registers and memory |
| ProgramRuns.BytesFollowProgram | src/assembler/macro_assembler_arm64.rs:163-801 | however many operations a program runs, the linked bytes reach the same operation with the same registers and memory |
| Pipeline.Emit | src/assembler/macro_assembler_arm64.rs:163-801 | emits any operation and returns its token |
| Pipeline.EmitAll | src/assembler/macro_assembler_arm64.rs:146-155 | emits a program, with the labels and tokens of every operation |
| Pipeline.LinkRecordsInPlace | src/assembler/link_records.rs:366-384 | links records one after the other in place |
| Pipeline.AssembleAndLink | src/assembler/link_records.rs:366-384 | emitting and linking in place gives exactly the linked code |
| Relocations.SortByOffset | src/assembler/mod.rs:961-962 | a permutation in the order of the sites |
| Relocations.SortStable | src/assembler/mod.rs:961-962 | the entries at each site keep their order |
| Relocations.SortPermuted | src/assembler/mod.rs:961-962 | with distinct sites the order does not depend on how they were listed |
| Relocations.LastListedWins | src/assembler/mod.rs:961-962 | of the entries at a site the one listed last decides what is there, a `b` for a jump and a `bl` for a call |
| Relocations.OrderIrrelevantExactly | src/assembler/mod.rs:961-962 | every listing of the same relocations gives the same bytes exactly when those at a shared site all write the same branch |
| Relocations.ApplyAllExact | src/assembler/mod.rs:1047-1112 | relocations are applied exactly when each has a branch kind, a target, aligned ends, room and range |
| Relocations.ApplyAllSites | src/assembler/mod.rs:1047-1112 | the last entry of each site decodes to a `b` for a jump and a `bl` for a call, to exactly its target |
| Relocations.ApplyAllElsewhere | src/assembler/mod.rs:1047-1112 | every other byte is the image's |
| Relocations.ApplyAllError | src/assembler/mod.rs:1047-1112 | a list fails at its first entry that cannot be applied, with an error that is true of it |
| Digests.Digest | src/assembler/mod.rs:495-514 | a function of the bytes that is never zero |
| Digests.ComputeDigest | src/assembler/mod.rs:495-514 | the loop that computes it |
| Digests.OneByteChangesDigest | src/assembler/mod.rs:495-514 | a change of one byte changes the hash, and two digests then agree exactly when 0 was replaced in one of them |
| Digests.MixByteInjective | src/assembler/mod.rs:500-504 | mixing in a byte loses nothing of the hash, nor of the byte |
| Digests.FinishInjective | src/assembler/mod.rs:506-508 | nor does the last step |
| LinkBuffer.PlanExact | src/assembler/mod.rs:932-970 | a buffer is planned exactly when it has an id, fits its capacity, names an architecture if it has relocations, and its profile has a schema under which each relocation is a code label, near call or jump to one of its labels, or an absolute pointer in an inline cache; and the layout |
| LinkBuffer.PlanErrors | src/assembler/mod.rs:932-970 | what an error of planning says of the buffer is true |
| LinkBuffer.UnregisteredKindRejected | src/assembler/mod.rs:337-363 | a buffer that lists a far call or a patchable jump is never planned |
| LinkBuffer.PlanPermuted | src/assembler/mod.rs:932-970 | permuting a buffer's relocations does not change the layout, with distinct sites |
| LinkBuffer.LinkImageExact | src/assembler/mod.rs:972-1127 | an image links exactly when it is as it was frozen, its layout was planned for it in the order of the sites, and its relocations, if any, are calls and jumps in ARM64 code that each reach their target |
| LinkBuffer.PlannedLinksExactly | src/assembler/mod.rs:932-1127 | a planned buffer links on an image exactly when the image is a frozen one of that buffer and each relocation is a call or jump that reaches its target |
| LinkBuffer.FinalValidationSucceeds | src/assembler/mod.rs:1113-1126 | the final validation never fails |
| LinkBuffer.LinkErrors | src/assembler/mod.rs:972-1127 | what an error of linking says of the image and its layout is true |
| LinkBuffer.LinkedImageIs | src/assembler/mod.rs:1113-1126 | a linked image names its source and its digest, and carries its own bytes, length and digest |
| LinkBuffer.LinkedImageSites | src/assembler/mod.rs:1097-1127 | same length, and every site decodes to a `b` for a jump and a `bl` for a call, to exactly its target |
| LinkBuffer.LinkedImageElsewhere | src/assembler/mod.rs:1097-1127 | every other byte is the image's |
| LinkBuffer.LinkPermuted | src/assembler/mod.rs:932-970 | with distinct sites the linked image does not depend on the listing order |
| LinkBuffer.ListingIrrelevantExactly | src/assembler/mod.rs:932-1127 | the linked image does not depend on the listing order exactly when relocations at a shared site all write the same branch |
| LinkBuffer.ApplyInPlace | src/assembler/mod.rs:1047-1095 | one relocation, in place |
| LinkBuffer.RelocateInPlace | src/assembler/mod.rs:1106-1112 | all relocations, in place |
| LinkBuffer.LinkAssemblerByteImage | src/assembler/mod.rs:1097-1127 | the whole link step |

## Left out

- Floating-point registers, moves, conversions and arithmetic: neither encoded nor executed.
- `ret`, `nop`, `far_call` and `call_register` as operations of a program: the words of `ret`, `blr` and `nop` are
  encoded and decoded, but the program-level theorem covers operations that fall through or branch to a label.
- Executable memory, permission changes, caches, pointer authentication, jump compaction and islands, and the two-word
  indirect branch forms, which the code itself defers.
- The collision behaviour of the digest beyond a change of one byte.
- Unaligned or wrapping distances outside 64 bits: offsets are unbounded integers, which the 32-bit labels never exceed.
- Registers and memory bytes that were never written read as 0 in the machine.
- Bitfield instructions whose parameters do not fit their size execute as nothing; no operation emits them.
- JumpType's compare-and-branch and test-bit forms: refused by the linker, so only their refusal is stated.
- Heap: only what root registration goes through; the check that an existing root belongs to the same heap is not
  modelled, because every stored root was validated against that heap.
- Fields of a buffer descriptor that no modelled check reads: data kind, lifecycle and jumps. The check of an image
  against its source buffer is left out with them.
- The registries of static schemas are folded into the functions that look them up.
- B3 descriptors other than blocks and values, effects other than `terminal`, and plans.
- The error payloads of image and layout mismatches keep only what distinguishes the errors.
