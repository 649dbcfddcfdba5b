# A verified model of an ARMv5 instruction-set simulator

The simulator keeps a byte memory and a register file and executes 32-bit instruction words on
them. This project models that state and the instructions that act on it in Dafny: `memory.c`,
`registers.c`, `arm_core.c`, `util.c`/`util.h`, the load/store instructions, data processing with
its shifter operand and flags, the conditions, branches, and the fetch-and-dispatch step. The
manual meant below is the ARM Architecture Reference Manual, ARM DDI 0100.

## How it is built

The C's mutable structures are classes: `Memory.Mem` (the byte array), `Registers.RegisterFile`
(37 slots and a mode) and `ArmCore.Core` (both). Every function that changes them is a method whose
`ensures` gives the whole new state as a function of the old one; `ArmCore.State` is the state as a
value. The theorems are lemmas about those functions.

| file | content |
|---|---|
| `Bits.dfy`, `Util.dfy` | words, bits, shifts, bitwise gates, fields, rotations |
| `Memory.dfy`, `MemoryMap.dfy`, `Alignment.dfy` | byte memory in two byte orders; refinement of a plain byte map; aligned addresses and blocks |
| `Registers.dfy`, `ArmCore.dfy` | register file, processor state |
| `Fields.dfy`, `Encoding.dfy`, `Conditions.dfy` | instruction fields, words put together from them; condition_OK |
| `LoadStoreMultiple.dfy`, `BlockTransfer.dfy`, `Stack.dfy` | LDM and STM; layout, round trips, stack discipline |
| `LoadStore.dfy`, `SingleTransfer.dfy` | LDR, LDRB, STR, STRB in nine forms |
| `Transfers.dfy`, `Operands.dfy`, `DataWords.dfy`, `OtherWords.dfy` | what the machine does with every instruction word, in arithmetic on its fields and registers |
| `Shifter.dfy`, `DataProcessing.dfy` | shifter operand, the sixteen operations |
| `FlagProperties.dfy`, `CarryFlags.dfy` | what the flags mean; ADC, SBC and RSC |
| `Branch.dfy`, `Machine.dfy`, `StackRuns.dfy` | B and BL; decode, step, runs; the stack in runs of the machine |
| `Departures.dfy` | concrete states and words on which the code and the manual part |

`dafny verify dfyconfig.toml` checks the whole project.

## Reading the C

- A `uint32_t` is an integer below 2^32 and every operation on it is reduced modulo 2^32, address
  arithmetic included: a word access at 0xFFFFFFFE goes on at address 0.
- Memory accesses index the array unchecked (the guards in `memory.c` hold for any unsigned
  address), so each access requires that its bytes exist. The return code is always 0.
- Reading R15 through `arm_core.c` gives the slot plus 4 with bit 1 cleared, and fetching takes the
  word 4 before that; every other register or memory access there passes straight to `registers.c`
  or `memory.c`. That file is not UTF-8 text, so the rows about it cite the program's README.
- `exit` does not return; functions that may call it report `Exited(code)`.
- `(~0) >> n` in the field macros keeps all bits set, as an arithmetic shift of a negative int does.
- `value << 32` in `ror` by 0 is undefined in C; the model takes 0, and `Util.RotationByZero` shows
  that taking the unshifted value gives the same result. `asr` by 0 is never reached.
- The mode is one of the seven the code knows. Only `registers_create` sets it, to USR.

## Where the code departs from the manual

Each departure below is modelled as the code has it. A lemma says exactly when the result is still right,
and `Departures.dfy` gives a state and an instruction word on which it is not. The lemmas on results and flags
take an instruction that executes; whether it should is the row on conditions, and the lemmas on write-back
take the manual's own condition table. Encodings the code does not decode as the manual does are listed under
"Left out".

| departure | right exactly when | wrong on |
|---|---|---|
| Rn is not written back | `BlockTransfer.WhereWriteBackIsRight`, `SingleTransfer.WhereWriteBackIsRight` | `StmWriteBackFails`, `StrWriteBackFails` |
| LDM loads 0 into R15 and leaves T | `BlockTransfer.LdmOfPc` | `LdmOfPcFails` |
| LDR leaves bit 0 in R15 and leaves T | `SingleTransfer.WhereLoadOfPcIsRight` | `LoadOfPcFails` |
| unaligned LDR and STR are not rotated or aligned | `SingleTransfer.WhereUnalignedLoadIsRight`, `SingleTransfer.WhereUnalignedStoreIsRight` | `UnalignedLoadFails`, `UnalignedStoreFails` |
| unaligned LDM and STM are not aligned | `BlockTransfer.WhereUnalignedLdmIsRight`, `BlockTransfer.WhereUnalignedStmIsRight` | `UnalignedLdmFails`, `UnalignedStmFails` |
| LSR, ASR and ROR ignore the amount | `Shifter.WhereShiftIsRight` | `ShiftFails` |
| C and V after ADD, SUB and RSB | the `FlagProperties.Where...` lemmas; V after RSB always is | `AddFlagsFail`, `SubtractFlagsFail` |
| flags after ADC; result and flags after SBC and RSC | `CarryFlags.WhereAdcIsRight`, `WhereSbcIsRight`, `WhereRscIsRight`; the results of SBC and RSC never are | `AdcFlagsFail`, `SbcFails`, `SbcSignsFail`, `RscFails`, `RscSignsFail` |
| flags after a compare | N and Z: `FlagProperties.WhereCompareSignsAreRight`; C and V: `CmpCarryAndOverflow`, `CmnCarryAndOverflow`, and always after TST and TEQ (`TestCarryAndOverflow`) | `CompareZeroFails`, `CompareSignFails`, `CompareFails`, `CmnFlagsFail` |
| MI, LS and LE | `Conditions.WhereConditionsAgree` | `Conditions.ConditionsThatFail` |
| a failed condition stops nothing but LDM and STM | `Machine.ConditionFieldIgnored`, `Machine.FailedConditionHonoured`; for branches `Machine.FailedBranch` | `FailedConditionFails` |
| BL leaves A + 8 in R14 | never (`Branch.ReturnAddress`) | every address |

`registers.c` names slots for a bank of FIQ's own, but its range test (from 29 to 28) admits none of
them, and the model follows the code.

## Model

| member | source | states |
|---|---|---|
| LoadStoreMultiple.NumberSetBitsIn | arm_simulator-1.4/arm_load_store.c:33-40 | the bit-counting loop ends with the number of listed registers, for every 16-bit list |
| LoadStoreMultiple.RankIsPopcount | arm_simulator-1.4/arm_load_store.c:33-40 | counting the listed registers one number at a time and counting set bits by halving agree |
| LoadStoreMultiple.Addresses | arm_simulator-1.4/arm_load_store.c:283-310 | the four modes' first and last address and new base, modulo 2^32; the new base is only ever a local |
| LoadStoreMultiple.EndIsReached | arm_simulator-1.4/arm_load_store.c:331-345 | the code's own assert: end_address is the address reached minus 4, for every list (also empty), mode and base, for LDM and STM |
| LoadStoreMultiple.LoadRegisters | arm_simulator-1.4/arm_load_store.c:313-332 | the LDM loop loads the listed registers in order and stops one word past the block |
| LoadStoreMultiple.LoadPc | arm_simulator-1.4/arm_load_store.c:325-330 | a listed R15 gets the read's return code, so 0 |
| LoadStoreMultiple.StoreRegisters | arm_simulator-1.4/arm_load_store.c:335-346 | the STM loop stores the listed registers in order and stops one word past the block |
| Conditions.TestCondition | arm_simulator-1.4/arm_load_store.c:316-316 | the condition is tested on the four current flags |
| LoadStoreMultiple.ArmLoadStoreMultiple | arm_simulator-1.4/arm_load_store.c:267-349 | the whole new machine state of LDM and STM: unchanged if the condition fails; the method also carries the end_address assert |
| BlockTransfer.StmLayoutAndFrame | arm_simulator-1.4/arm_load_store.c:283-347 | every listed register is readable at start + 4 x (lower-numbered listed registers); every byte outside the 4n-byte block and every register is unchanged, with wrap-around |
| BlockTransfer.LdmEffect | arm_simulator-1.4/arm_load_store.c:313-332 | each listed register below R15 gets its word, R15 gets 0, every other slot and all memory stay |
| BlockTransfer.LdmOfPc | arm_simulator-1.4/arm_load_store.c:325-329 | R15 gets 0 and T stays, so R15 is what the manual asks exactly when the word at the aligned slot is 0 or 1, and R15 and T both are exactly when that word is T |
| BlockTransfer.AlignedSlot | arm_simulator-1.4/arm_load_store.c:318-345 | aligning the start of a block aligns the slot of every register |
| BlockTransfer.WhereUnalignedLdmIsRight | arm_simulator-1.4/arm_load_store.c:313-324 | a register LDM loads has the word of the manual, which ignores the two low address bits, exactly when the four bytes at its slot are those at the aligned slot |
| BlockTransfer.StmIsOneBlock | arm_simulator-1.4/arm_load_store.c:335-346 | STM's loop of word stores is one write of the listed registers' bytes, in order |
| BlockTransfer.WhereUnalignedStmIsRight | arm_simulator-1.4/arm_load_store.c:335-346 | STM leaves the memory of a transfer to the aligned block exactly when its first bytes are there already, its bytes repeat at the distance to the aligned address, and its last bytes are in place already |
| BlockTransfer.StmThenLdm | arm_simulator-1.4/arm_load_store.c:278-347 | STM, any clobbering of registers and flags, then LDM of the same list, mode and base value restores every listed register but R15, the base included, in both byte orders |
| BlockTransfer.ComplementaryModes | arm_simulator-1.4/arm_load_store.c:283-310 | DB from b covers the block of IA from b-4n, IB from b that of DA from b+4n, and the new bases of each pair undo each other |
| BlockTransfer.WhereWriteBackIsRight | arm_simulator-1.4/arm_load_store.c:283-349 | Rn ends as section A5.4 wants exactly when W is clear, the condition table of section A3.2 fails the instruction or the list is empty |
| Transfers.RankCounts | arm_simulator-1.4/arm_load_store.c:33-40 | the rank of a register is how many lower-numbered registers are listed, as the size of the set of them |
| Transfers.StmEffect | arm_simulator-1.4/arm_load_store.c:283-347 | every STM word, as dispatched, in all four modes: with k the lower-numbered listed registers and n all of them, register r is at Rn + 4k + 4P going up and Rn - 4n + 4k + 4(1 - P) going down, modulo 2^32; no register and no byte outside the 4n changes |
| Transfers.LdmEffect | arm_simulator-1.4/arm_load_store.c:283-332 | every LDM word, as dispatched, in all four modes: each register gets the word at that address, R15 gets 0, nothing else changes |
| Stack.StepKeeps | arm_simulator-1.4/arm_load_store.c:304-346 | a push, a pop and a store off the stack each keep every live frame in memory |
| Stack.FloorFixed | arm_simulator-1.4/arm_load_store.c:283-310 | a push, a pop and a store off the stack leave the stack's base address where it was |
| Stack.RunsKeepFrames | arm_simulator-1.4/arm_load_store.c:283-347 | every run of pushes, pops and other stores keeps all live frames, disjoint and stacked on one base |
| Stack.PopRestores | arm_simulator-1.4/arm_load_store.c:283-347 | LIFO: after any run from an empty stack, nested in any way, the block of a pop lies in memory and the pop restores the registers of the frame on top |
| Stack.EmptiedStackIsBack | arm_simulator-1.4/arm_load_store.c:283-310 | when every frame is popped the stack pointer is back where it began |
| StackRuns.StepFollows | arm_simulator-1.4/arm_instruction.c:90-184 | one step of the machine used as a push, as a pop or for anything else leaves in memory what the events of that use do, an STM outside the stack being its word writes |
| StackRuns.RunTracks | arm_simulator-1.4/arm_instruction.c:90-184 | in every run of the machine whose program keeps the stack discipline the stack's memory is the machine's and holds every live frame |
| StackRuns.RunOpens | arm_simulator-1.4/arm_instruction.c:90-184 | the live frames are those of the pushes not yet popped |
| StackRuns.MachinePopRestores | arm_simulator-1.4/arm_load_store.c:267-349 | in every such run of fetched and dispatched instructions a pop gives each register of its list the value it had before the STM of the push it matches, which named the same list |
| Memory.Mem.constructor | arm_simulator-1.4/memory.c:30-36 | a memory of the given size and byte order, contents arbitrary |
| Memory.Mem.ReadByte | arm_simulator-1.4/memory.c:47-53 | returns 0 and the byte at the address |
| Memory.Mem.ReadHalf | arm_simulator-1.4/memory.c:55-68 | returns 0 and the half-word in the memory's byte order; address + 1 wraps |
| Memory.Mem.ReadWord | arm_simulator-1.4/memory.c:70-83 | returns 0 and the word the shifts and ors assemble; addresses wrap |
| Memory.Mem.WriteByte | arm_simulator-1.4/memory.c:85-91 | changes exactly one byte |
| Memory.Mem.WriteHalf | arm_simulator-1.4/memory.c:93-106 | changes exactly the two bytes, in the memory's order |
| Memory.Mem.WriteWord | arm_simulator-1.4/memory.c:109-126 | changes exactly the four bytes, in the memory's order |
| MemoryMap.RunHoldsLatest | arm_simulator-1.4/memory.c:85-126 | after any run of writes of any widths, each byte is the one the last write that hit it put there |
| MemoryMap.ReadsFollowLatest | arm_simulator-1.4/memory.c:47-126 | after any run of writes, a read of any width is assembled from a plain byte map of last writes, partial overlaps included |
| MemoryMap.LoadAfterStore | arm_simulator-1.4/memory.c:47-126 | a value written comes back from a read of the same width and order |
| MemoryMap.OtherOrderReversesWord | arm_simulator-1.4/memory.c:70-126 | a word written in one order and read in the other is reverse_4 of it |
| MemoryMap.OtherOrderReversesHalf | arm_simulator-1.4/memory.c:55-106 | a half written in one order and read in the other is reverse_2 of it |
| MemoryMap.WordSplitsIntoHalves | arm_simulator-1.4/memory.c:55-126 | the two halves of a stored word, in the order the endianness dictates |
| MemoryMap.ByteInsideWord | arm_simulator-1.4/memory.c:47-126 | a byte read k bytes into a stored word is the byte the endianness dictates |
| MemoryMap.LoadByBytes | arm_simulator-1.4/memory.c:47-83 | a read of each width and byte order, byte by byte |
| MemoryMap.ByteIsDigit | arm_simulator-1.4/memory.c:109-126 | byte p of a value is its digit of weight 256^p |
| MemoryMap.Reverse4Meaning | arm_simulator-1.4/util.h:40-41 | reverse_4 puts the four bytes in the opposite order |
| MemoryMap.Reverse2Meaning | arm_simulator-1.4/util.h:39-39 | reverse_2 swaps the two bytes |
| LoadStore.ScaledIndexMeaning | arm_simulator-1.4/arm_load_store.c:135-157 | the scaled index is Rm x 2^s mod 2^32, floor of Rm / 2^s, floor of signed Rm / 2^s, a rotation, or a 33-bit rotation for RRX; LSR and ASR by 0 mean 32 |
| LoadStore.IndexForOffset | arm_simulator-1.4/arm_load_store.c:135-157 | the first copy of the shift block computes that index |
| LoadStore.IndexForPreIndexed | arm_simulator-1.4/arm_load_store.c:166-192 | the second copy computes the same index |
| LoadStore.IndexForPostIndexed | arm_simulator-1.4/arm_load_store.c:204-225 | the third copy computes the same index |
| LoadStore.ImmediateAddress | arm_simulator-1.4/arm_load_store.c:63-92 | the three immediate forms' address, and the base they compute but do not store |
| LoadStore.RegisterAddress | arm_simulator-1.4/arm_load_store.c:95-124 | the three register forms' address and computed base |
| LoadStore.ScaledAddress | arm_simulator-1.4/arm_load_store.c:127-233 | the three scaled register forms' address and computed base |
| LoadStore.Address | arm_simulator-1.4/arm_load_store.c:45-233 | the effective address of all nine forms, and the base each leaves in the local rn: the indexed one for pre- and post-indexed forms whose condition passes |
| LoadStore.ArmLoadStore | arm_simulator-1.4/arm_load_store.c:43-264 | the whole new machine state of LDR, LDRB, STR and STRB, whatever the condition |
| Transfers.RegisterRead | arm_simulator-1.4/README:37-39 | R15 is read 4 further on with bit 1 cleared, R0..R14 as they are |
| Transfers.ImmediateForms | arm_simulator-1.4/arm_load_store.c:61-92 | every immediate LDR, LDRB, STR and STRB word, as dispatched: the word or byte at Rn + offset, Rn - offset or, post-indexed, Rn, with the 12 low bits as offset; nothing else changes |
| Transfers.RegisterForms | arm_simulator-1.4/arm_load_store.c:95-124 | the same for register offsets: the offset is Rm |
| Transfers.ScaledForms | arm_simulator-1.4/arm_load_store.c:127-233 | the same for scaled registers: the offset is Rm x 2^a mod 2^32, the quotient of Rm or of signed Rm by 2^a, Rm rotated, or C and Rm shifted by one |
| Transfers.PostIndexedForms | arm_simulator-1.4/arm_load_store.c:82-90 | a post-indexed form accesses exactly Rn, whatever the offset |
| Transfers.IndexedBases | arm_simulator-1.4/arm_load_store.c:66-91 | the base kept in the local rn is Rn plus or minus the same offset |
| Transfers.WhichTransfersRun | arm_simulator-1.4/arm_load_store.c:61-348 | for which words and memories the code's accesses are defined: an address is set and its bytes exist |
| SingleTransfer.TransferFrame | arm_simulator-1.4/arm_load_store.c:237-262 | a store changes no register and only the bytes at its address; a load changes only Rd and no memory |
| SingleTransfer.StoreThenLoad | arm_simulator-1.4/arm_load_store.c:61-262 | STR then LDR at one effective address, through any two of the nine forms, returns the register; STRB then LDRB its low byte, zero-extended |
| SingleTransfer.ByteOfStoredWord | arm_simulator-1.4/arm_load_store.c:237-262 | LDRB k bytes into a word stored by STR gives the byte the endianness dictates, as Examples/example2.s relies on |
| SingleTransfer.LoadFromBlock | arm_simulator-1.4/arm_load_store.c:237-347 | LDR at a block slot after STM reads the register stored there |
| SingleTransfer.RegisterFormIsUnshifted | arm_simulator-1.4/arm_load_store.c:95-124 | the register forms are the scaled forms with LSL 0 |
| SingleTransfer.WhereUnalignedLoadIsRight | arm_simulator-1.4/arm_load_store.c:246-248 | LDR of a register below R15 gives the manual's rotated aligned word exactly when each byte read is the one the rotation brings to its place, in both byte orders |
| SingleTransfer.LittleEndianPlaces | arm_simulator-1.4/memory.c:70-83 | in little-endian order that condition is on the bytes past the aligned word only: each has to equal the byte 4 below it |
| SingleTransfer.WhereLoadOfPcIsRight | arm_simulator-1.4/arm_load_store.c:246-248 | LDR of R15 leaves R15 and T as the manual asks exactly when bit 0 of the rotated word is T and each byte read is the one the rotation brings to its place, less T in the lowest |
| SingleTransfer.WhereUnalignedStoreIsRight | arm_simulator-1.4/arm_load_store.c:257-260 | with r = address mod 4, STR leaves the memory of a store at the aligned address exactly when the first r bytes are there already, the word's bytes repeat at distance r, and its last r bytes are in place already |
| Alignment.WhereImagesAgree | arm_simulator-1.4/memory.c:109-126 | the same for any block of bytes: written at an address or at the aligned address it leaves one memory exactly then |
| SingleTransfer.UpDownCancel | arm_simulator-1.4/arm_load_store.c:66-81 | adding and subtracting one offset undo each other modulo 2^32 |
| SingleTransfer.WhereWriteBackIsRight | arm_simulator-1.4/arm_load_store.c:73-91 | Rn ends as section A5.2 wants exactly when the form has no write-back, the condition table of section A3.2 fails the instruction or the offset is 0 |
| Shifter.ImmediateShift | arm_simulator-1.4/arm_data_processing.c:412-432 | operand and carry for a shift by an immediate; the carry is the last bit shifted out by one formula per kind |
| Shifter.RegisterShift | arm_simulator-1.4/arm_data_processing.c:434-499 | operand and carry for a shift by 0..255 from a register, 32 and more included; the carry is the last bit shifted out |
| Shifter.WriteShiftOperandSco | arm_simulator-1.4/arm_data_processing.c:395-508 | shifter operand and carry-out for every instruction word, with undefined words leaving both as they were |
| Shifter.LslCarry | arm_simulator-1.4/arm_data_processing.c:415-453 | LSL by s: bit 32 of Rm x 2^s is bit 32-s of Rm, and 0 past 32 |
| Shifter.LsrCarry | arm_simulator-1.4/arm_data_processing.c:418-472 | LSR by s: the last bit out is bit s-1, and 0 past 32 |
| Shifter.AsrCarry | arm_simulator-1.4/arm_data_processing.c:422-487 | ASR by s: the last bit out is bit s-1, and the sign past 32 |
| Shifter.RorCarry | arm_simulator-1.4/arm_data_processing.c:431-497 | ROR by s: the last bit out is bit (s mod 32)-1 |
| Shifter.LslOperandAndCarry | arm_simulator-1.4/arm_data_processing.c:413-455 | LSL gives Rm x 2^s mod 2^32 with bit 32 of Rm x 2^s as carry, in the immediate and the register form alike |
| Shifter.WhereShiftIsRight | arm_simulator-1.4/arm_data_processing.c:367-393 | shift_operation gives the asked-for LSR, ASR or ROR exactly for amounts 1, 2 and 3, for LSR of 0 and 1, for ASR of -4..3 (-2..1 when the amount is 1), and for ROR on words whose bits repeat every g places, g the largest power of two in amount - 3; for an even amount those are 0 and 0xFFFFFFFF |
| Shifter.RotatedImmediate | arm_simulator-1.4/arm_data_processing.c:501-505 | the 8-bit immediate is recovered from the rotated one, no set bit is lost, and for rotate_imm >= 1 the carry-out is bit 31 |
| Operands.OperandImmediate | arm_simulator-1.4/arm_data_processing.c:501-505 | words with bit 25: the 8 low bits rotated right by twice bits 11..8, in arithmetic; the carry-out is C for rotation 0 and the top bit otherwise |
| Operands.OperandByImmediate | arm_simulator-1.4/arm_data_processing.c:412-432 | words with bits 25 and 4 clear: operand and carry-out of each kind for each amount in bits 11..7, in arithmetic on Rm |
| Operands.OperandByRegister | arm_simulator-1.4/arm_data_processing.c:434-499 | words with bits 25 and 7 clear and bit 4 set: operand and carry-out by the low byte of the register in bits 11..8: unchanged for 0, Rm x 2^a mod 2^32 with bit 32 of the product for LSL, and the amounts of 32 and more for LSR and ASR |
| Operands.WhichAreDefined | arm_simulator-1.4/arm_data_processing.c:489-497 | the only words the C leaves undefined: ROR by a register with a multiple of 32 above 0 |
| Operands.OperandOfOthers | arm_simulator-1.4/arm_data_processing.c:270-278 | words with bit 25 clear and bits 7 and 4 set have operand and carry-out 0 |
| DataProcessing.WriteFlags | arm_simulator-1.4/arm_data_processing.c:40-55 | the CPSR after write_flags for any register number, or the end of the program |
| DataProcessing.UpdateFlags | arm_simulator-1.4/arm_data_processing.c:29-38 | flags written with S=1, SPSR restored for Rd = R15 where there is one, nothing otherwise |
| DataProcessing.AndOp | arm_simulator-1.4/arm_data_processing.c:91-99 | the whole new state after AND |
| DataProcessing.EorOp | arm_simulator-1.4/arm_data_processing.c:102-111 | the whole new state after EOR |
| DataProcessing.SubOp | arm_simulator-1.4/arm_data_processing.c:113-122 | the whole new state after SUB |
| DataProcessing.RsbOp | arm_simulator-1.4/arm_data_processing.c:124-134 | the whole new state after RSB |
| DataProcessing.AddOp | arm_simulator-1.4/arm_data_processing.c:137-146 | the whole new state after ADD |
| DataProcessing.AdcOp | arm_simulator-1.4/arm_data_processing.c:148-157 | the whole new state after ADC |
| DataProcessing.SbcOp | arm_simulator-1.4/arm_data_processing.c:158-167 | the whole new state after SBC |
| DataProcessing.RscOp | arm_simulator-1.4/arm_data_processing.c:169-179 | the whole new state after RSC |
| DataProcessing.TstOp | arm_simulator-1.4/arm_data_processing.c:181-188 | the whole new state after TST, whose flags come from the register numbered by the result's low byte |
| DataProcessing.TeqOp | arm_simulator-1.4/arm_data_processing.c:190-197 | the whole new state after TEQ, whose flags come from the register numbered by the result's low byte |
| DataProcessing.CmpOp | arm_simulator-1.4/arm_data_processing.c:199-207 | the whole new state after CMP, whose flags come from the register numbered by the result's low byte |
| DataProcessing.CmnOp | arm_simulator-1.4/arm_data_processing.c:208-215 | the whole new state after CMN, whose flags come from the register numbered by the result's low byte |
| DataProcessing.OrrOp | arm_simulator-1.4/arm_data_processing.c:217-224 | the whole new state after ORR |
| DataProcessing.MovOp | arm_simulator-1.4/arm_data_processing.c:226-232 | the whole new state after MOV |
| DataProcessing.BicOp | arm_simulator-1.4/arm_data_processing.c:234-241 | the whole new state after BIC |
| DataProcessing.MvnOp | arm_simulator-1.4/arm_data_processing.c:243-250 | the whole new state after MVN |
| DataProcessing.SelectOperation | arm_simulator-1.4/arm_data_processing.c:268-333 | the whole new state of any data-processing word, or the end of the program |
| FlagProperties.FlagsMeaning | arm_simulator-1.4/arm_data_processing.c:40-55 | N is the result's sign, Z its being 0, C and V follow their bytes (0xFF leaves them), the 28 low bits stay |
| FlagProperties.FlagsOf | arm_simulator-1.4/arm_data_processing.c:29-55 | the four flags after each of the opcodes with S=1 and Rd not R15, ADC, SBC and RSC with their second read of Rn included, and that only Rd and the CPSR change |
| FlagProperties.OverflowOfDifference | arm_simulator-1.4/arm_data_processing.c:81-89 | overflowFrom with opcode 0 is exactly a signed difference that leaves 32 bits |
| FlagProperties.RsbComparesSigned | arm_simulator-1.4/arm_data_processing.c:124-134 | after RSB with S=1 (also Rd = Rn) condition_OK decides EQ, NE, GE, LT and GT as the signed comparison of the operand with the old Rn; V is exact; LE never passes |
| FlagProperties.RsbInstruction | arm_simulator-1.4/arm_data_processing.c:124-134 | the signed comparison of RsbComparesSigned for every RSB word with S=1 and Rd not R15, whatever its shifter operand |
| FlagProperties.WhereAddCarryIsRight | arm_simulator-1.4/arm_data_processing.c:63-67 | ADD always clears C, which is right exactly when the sum does not carry |
| FlagProperties.WhereAddOverflowIsRight | arm_simulator-1.4/arm_data_processing.c:81-84 | V after ADD is right exactly when the operands' signs differ |
| FlagProperties.WhereSubOverflowIsRight | arm_simulator-1.4/arm_data_processing.c:113-122 | V after SUB is right exactly on non-negative operands with Rn the smaller, on negative ones with Rn not the smaller, and on operands of different signs whose difference fits |
| FlagProperties.WhereSubtractCarryIsRight | arm_simulator-1.4/arm_data_processing.c:73-128 | C after SUB and RSB is cleared by a borrow and kept otherwise, right exactly on a borrow or when C was set |
| FlagProperties.LogicalComputed | arm_simulator-1.4/arm_data_processing.c:91-111 | AND, EOR, ORR, MOV, BIC, MVN with S=1: result bit by bit, N and Z from it, C the carry-out, V and the low 28 bits kept, nothing else changed |
| FlagProperties.LogicalInstruction | arm_simulator-1.4/arm_data_processing.c:217-250 | what LogicalComputed says, for every such instruction word, with the shifter's operand and carry-out |
| FlagProperties.ProcessFrame | arm_simulator-1.4/arm_data_processing.c:268-333 | any data-processing word changes at most Rd and, with S=1 or for a compare, the CPSR; exactly which words end the program |
| FlagProperties.CompareDescribesRegister | arm_simulator-1.4/arm_data_processing.c:181-215 | N and Z after TST, TEQ, CMP and CMN are those of the register numbered by the result's low byte, whatever the result |
| FlagProperties.WhereCompareSignsAreRight | arm_simulator-1.4/arm_data_processing.c:181-215 | after a compare Z is right exactly when R0 is 0, for a result of 0, and otherwise when the register numbered by its low byte is not 0; N exactly when that register has the result's sign |
| FlagProperties.TestCarryAndOverflow | arm_simulator-1.4/arm_data_processing.c:181-197 | after TST and TEQ C is the carry-out and V is kept, as it should be |
| FlagProperties.CmpCarryAndOverflow | arm_simulator-1.4/arm_data_processing.c:199-207 | after CMP V is always right, C exactly on a borrow or when it was set |
| FlagProperties.CmnCarryAndOverflow | arm_simulator-1.4/arm_data_processing.c:208-215 | after CMN C is right exactly when there is no carry, V exactly when the operands' signs differ |
| FlagProperties.CmpOfEqualOperands | arm_simulator-1.4/arm_data_processing.c:199-207 | after CMP of equal operands Z is set exactly when R0 is 0 |
| DataWords.ArithmeticWords | arm_simulator-1.4/arm_data_processing.c:113-179 | every SUB, RSB, ADD, ADC, SBC and RSC word, as dispatched, S set or clear: Rd gets the integer sum or difference modulo 2^32 (2 too large for SBC and RSC), N and Z describe it, the 28 low CPSR bits stay, nothing else changes; for Rd = R15 the SPSR comes back or the CPSR stays |
| DataWords.AddSubtractCV | arm_simulator-1.4/arm_data_processing.c:113-146 | C and V after every SUB, RSB and ADD word with S set |
| DataWords.ArithmeticFlags | arm_simulator-1.4/arm_data_processing.c:113-179 | for those six opcodes the machine reaches the state the lemmas on C and V speak about |
| DataWords.ReverseSubtractWords | arm_simulator-1.4/arm_data_processing.c:124-134 | every RSB word with S set, as dispatched, compares the operand with Rn as signed numbers |
| DataWords.LogicalWords | arm_simulator-1.4/arm_data_processing.c:91-111 | every AND, EOR, ORR, MOV, BIC and MVN word, as dispatched, bit by bit, with C the carry-out and V kept |
| DataWords.MoveWords | arm_simulator-1.4/arm_data_processing.c:226-250 | MOV leaves the operand in Rd, MVN its complement |
| DataWords.MoveImmediate | arm_simulator-1.4/arm_data_processing.c:226-232 | MOV of an immediate, as dispatched, leaves the 8 low bits rotated right by twice bits 11..8 |
| DataWords.TestWords | arm_simulator-1.4/arm_data_processing.c:181-197 | every TST and TEQ word, as dispatched: the result bit by bit, the flags from the register its low byte names, C the carry-out, V kept |
| DataWords.CmpWords | arm_simulator-1.4/arm_data_processing.c:199-207 | every CMP word, as dispatched: the difference, C and V, and the register its low byte names, or the end of the program |
| DataWords.CmnWords | arm_simulator-1.4/arm_data_processing.c:208-215 | every CMN word, as dispatched: the sum, C and V, and the register its low byte names, or the end of the program |
| CarryFlags.CarryResults | arm_simulator-1.4/arm_data_processing.c:148-173 | ADC's result is the manual's; SBC's and RSC's are 2 above it for every input, so never right |
| CarryFlags.WhereAdcIsRight | arm_simulator-1.4/arm_data_processing.c:148-157 | after ADC with S=1 Rd, N and Z are right, C exactly when there is no carry, V exactly when the signed operands have a negative sum (for Rd = Rn, under the stated condition on both) |
| CarryFlags.WhereSbcIsRight | arm_simulator-1.4/arm_data_processing.c:158-167 | after SBC with S=1 Rd is never right, and for each of N, Z, C and V the exact condition on the operands and C, Rd = Rn included |
| CarryFlags.WhereRscIsRight | arm_simulator-1.4/arm_data_processing.c:169-179 | the same for RSC |
| Conditions.WhereConditionsAgree | arm_simulator-1.4/arm_instruction.c:32-88 | condition_OK agrees with the table of section A3.2 except for MI always, LS when Z = C, and LE when Z is set exactly where N = V |
| Conditions.ConditionsThatFail | arm_simulator-1.4/arm_instruction.c:47-75 | concrete flags on which MI, LS and LE differ from the table |
| OtherWords.FlagIsDigit | arm_simulator-1.4/arm_data_processing.c:253-265 | a flag is a binary digit of the CPSR slot |
| OtherWords.WherePassesIsRight | arm_simulator-1.4/arm_instruction.c:103-113 | the test on CPSR bits 31, 30, 29 and 28 is the table of section A3.2 but for MI always, LS when Z = C, and LE when Z is set exactly where N = V |
| Branch.ArmBranch | arm_simulator-1.4/arm_branch_other.c:30-45 | R15 becomes PC + 4 x signext24(imm) mod 2^32 for every word; BL leaves in R14 the PC value read before |
| Branch.Displacement | arm_simulator-1.4/arm_branch_other.c:36-41 | or-ing in six ones and shifting by two is sign extension times four |
| Branch.DistinctTargets | arm_simulator-1.4/arm_branch_other.c:36-43 | distinct immediates give distinct targets |
| Branch.OppositeDisplacementsCancel | arm_simulator-1.4/arm_branch_other.c:36-43 | opposite displacements cancel |
| Branch.BranchFetch | arm_simulator-1.4/arm_branch_other.c:30-45 | a branch fetched from an aligned A makes A + 8 + 4 x offset the next fetch |
| Branch.WhereBranchStandsStill | arm_simulator-1.4/arm_branch_other.c:30-45 | B leaves the registers as they are exactly for the displacement -1 from a PC with bit 1 clear, BL when R14 also holds the PC value read |
| OtherWords.BranchWords | arm_simulator-1.4/arm_branch_other.c:30-45 | every B and BL word, as dispatched: R15 from the PC value read and bits 23..0 as a signed number, R14 for BL, nothing else |
| Branch.ReturnAddress | arm_simulator-1.4/arm_branch_other.c:32-35 | BL leaves A + 8 in R14, where the manual wants A + 4; B leaves R14 alone |
| ArmCore.Core.constructor | arm_simulator-1.4/README:37-39 | arm_create: mode USR, CPSR 0x1d3, PC 0, memory as given |
| ArmCore.Core.ReadAny | arm_simulator-1.4/README:37-39 | any register number: admitted or not by the mode, R15 read 4 on with bit 1 cleared |
| ArmCore.Core.ReadRegister | arm_simulator-1.4/README:37-39 | R0..R15 are readable in every mode |
| ArmCore.Core.WriteRegister | arm_simulator-1.4/README:37-39 | R0..R15 are writable in every mode; nothing else changes |
| ArmCore.Core.ReadCpsr | arm_simulator-1.4/README:37-39 | the CPSR slot |
| ArmCore.Core.WriteCpsr | arm_simulator-1.4/README:37-39 | only the CPSR slot changes |
| ArmCore.Core.GetFlag | arm_simulator-1.4/arm_data_processing.c:253-265 | one CPSR bit |
| ArmCore.Core.ReadByte | arm_simulator-1.4/README:37-39 | passes to memory.c |
| ArmCore.Core.ReadWord | arm_simulator-1.4/README:37-39 | passes to memory.c |
| ArmCore.Core.WriteByte | arm_simulator-1.4/README:37-39 | passes to memory.c; no register changes |
| ArmCore.Core.WriteWord | arm_simulator-1.4/README:37-39 | passes to memory.c; no register changes |
| ArmCore.Core.Fetch | arm_simulator-1.4/arm_instruction.c:90-92 | the word at the PC as read minus 4; the PC then stands one word on |
| Registers.RegisterFile.constructor | arm_simulator-1.4/registers.c:76-80 | mode USR, 37 slots with arbitrary contents |
| Registers.RegisterFile.ReadRegister | arm_simulator-1.4/registers.c:99-139 | the slot if the mode admits it; otherwise 0, or the end of the program in USR and SYS |
| Registers.RegisterFile.WriteRegister | arm_simulator-1.4/registers.c:187-225 | the slot changes if the mode admits it; otherwise nothing, or the end of the program in USR and SYS |
| Registers.RegisterFile.ReadUsrRegister | arm_simulator-1.4/registers.c:141-149 | slots 0..15, or the end of the program |
| Registers.RegisterFile.WriteUsrRegister | arm_simulator-1.4/registers.c:227-235 | slots 0..15, or the end of the program |
| Registers.RegisterFile.ReadCpsr | arm_simulator-1.4/registers.c:151-154 | slot 16 |
| Registers.RegisterFile.WriteCpsr | arm_simulator-1.4/registers.c:237-239 | only slot 16 changes |
| Registers.RegisterFile.ReadSpsr | arm_simulator-1.4/registers.c:156-185 | the mode's SPSR slot, or the end of the program |
| Registers.RegisterFile.WriteSpsr | arm_simulator-1.4/registers.c:241-267 | only the mode's SPSR slot changes, or the end of the program |
| Registers.WhatModesReach | arm_simulator-1.4/registers.c:99-225 | which slots each mode reads and writes, and what happens for the others |
| Registers.WhereSpsrsAre | arm_simulator-1.4/registers.c:156-267 | the SPSR slot of each mode, and the end of the program where there is none |
| Registers.UserRuns | arm_simulator-1.4/registers.c:76-267 | every run of calls from USR: it ends the program exactly when a call is out of reach; else mode USR, slots 17..36 unchanged, R0..R15 and CPSR hold the last value written, the CPSR by write_cpsr only |
| Registers.UserReadsLastWrite | arm_simulator-1.4/registers.c:141-235 | after any run in USR a read of R0..R15 returns the last value written |
| Registers.ReadAndWriteAgree | arm_simulator-1.4/registers.c:99-225 | in every mode reads and writes admit the same slots and refuse alike |
| Registers.RunsKeepOtherBanks | arm_simulator-1.4/registers.c:99-267 | in any mode no run reaches another mode's bank or changes the mode |
| Bits.ShiftMeaning | arm_simulator-1.4/util.c:26-31 | << and >> on uint32_t are multiplication mod 2^32 and division |
| Util.GetBitMacro | arm_simulator-1.4/util.h:30-30 | get_bit's expression is bit i |
| Util.GetBitsMacro | arm_simulator-1.4/util.h:34-34 | get_bits's expression is digits l..h of the word |
| Util.FieldRoundTrip | arm_simulator-1.4/util.h:34-37 | get_bits of set_bits returns a value that fits; every other bit is kept |
| Util.DisjointFieldsCommute | arm_simulator-1.4/util.h:35-37 | updates of disjoint fields commute and do not disturb each other |
| Util.AsrMeaning | arm_simulator-1.4/util.c:33-35 | asr is floor of the signed value over 2^s, for s in 1..31 |
| Util.RorMeaning | arm_simulator-1.4/util.c:37-39 | ror moves the s low bits to the top |
| Util.BitOfRor | arm_simulator-1.4/util.c:37-39 | bit i of ror by s is bit (i + s) mod 32 |
| Util.RotationsCompose | arm_simulator-1.4/util.c:37-39 | ror by a then b is ror by (a + b) mod 32 |
| Util.RotationInverse | arm_simulator-1.4/util.c:37-39 | ror by a then 32 - a is the identity |
| Util.RotationKeepsPopcount | arm_simulator-1.4/util.c:37-39 | ror loses no set bit |
| Util.RotationByZero | arm_simulator-1.4/util.c:37-39 | ror by 0 is the identity for either outcome of the undefined shift by 32 |
| Util.BitOfSetBit | arm_simulator-1.4/util.c:41-47 | set_bit and clr_bit change exactly one bit |
| Machine.ArmMiscellaneous | arm_simulator-1.4/arm_branch_other.c:79-88 | Rd gets the SPSR or the CPSR, and the code is UNDEFINED_INSTRUCTION |
| Machine.ArmCoprocessorOthersSwi | arm_simulator-1.4/arm_branch_other.c:69-76 | SWI 0x123456 ends the program; every other word changes nothing and reports a software interrupt or an undefined instruction |
| Machine.ArmDispatch | arm_simulator-1.4/arm_instruction.c:90-170 | the whole new state and result code of any instruction word, whether or not its condition passes |
| Machine.ArmStep | arm_simulator-1.4/arm_instruction.c:177-184 | one fetch and one dispatch |
| OtherWords.MiscellaneousWords | arm_simulator-1.4/arm_instruction.c:117-129 | every miscellaneous word, as dispatched: Rd gets the CPSR or the SPSR, the program ends, or nothing changes |
| OtherWords.CoprocessorWords | arm_simulator-1.4/arm_instruction.c:155-163 | every word of classes 6 and 7, as dispatched |
| OtherWords.StepIsFetchThenDispatch | arm_simulator-1.4/arm_instruction.c:90-184 | a step takes the word at R15 (less 2 where bit 1 is set), leaves R15 one word further on, and dispatches |
| Machine.ConditionFieldIgnored | arm_simulator-1.4/arm_instruction.c:110-168 | outside LDM and STM words that differ only in the condition field have the same effect, so a failed condition stops none of them |
| Machine.FailedConditionHonoured | arm_simulator-1.4/arm_instruction.c:110-168 | a failed condition leaves the state as it is for LDM, STM, classes 6 and 7 (SWI 0x123456 excepted) and miscellaneous words with bits 4 and 7 set |
| Machine.FailedBranch | arm_simulator-1.4/arm_instruction.c:110-160 | a branch whose condition fails leaves the state alone exactly then |
| Machine.OnlyStoresChangeMemory | arm_simulator-1.4/arm_instruction.c:115-168 | no word but STR, STRB and STM changes memory |
| Machine.DispatchConfined | arm_simulator-1.4/arm_instruction.c:115-168 | in USR and SYS no word changes the mode, slots 17..36 or the CPSR's 28 low bits |
| Machine.RunsConfined | arm_simulator-1.4/arm_instruction.c:90-184 | no run of instructions from USR, of any length, changes the mode, slots 17..36 or the CPSR's 28 low bits |
| Machine.ControlBitsFromReset | arm_simulator-1.4/arm_instruction.c:90-184 | from reset every run keeps 0x1d3 in the CPSR's 28 low bits |
| Encoding.FieldsAreDigits | arm_simulator-1.4/arm_load_store.c:45-53 | the fields of every word are its digits at the places the code names |
| Encoding.BitsAreDigits | arm_simulator-1.4/arm_load_store.c:55-59 | the single bits of every word are its digits |
| OtherWords.OtherFieldsAreDigits | arm_simulator-1.4/arm_data_processing.c:511-517 | the opcode, the branch immediate and the two other fields are digits as well |
| Encoding.TransferWord | arm_simulator-1.4/arm_load_store.c:45-59 | every field of a load or store word put together from its parts reads back |
| Encoding.DataWord | arm_simulator-1.4/arm_data_processing.c:397-408 | every field of a data-processing word with an immediate shift reads back |
| Departures.StmWriteBackFails | arm_simulator-1.4/arm_load_store.c:283-349 | STMIA R1!, {R0} leaves R1 at 0 where section A5.4 wants 4 |
| Departures.LdmOfPcFails | arm_simulator-1.4/arm_load_store.c:325-330 | LDMIA R1, {PC} of the word 8 leaves 0 in R15, of the word 1 it leaves T clear |
| Departures.LoadOfPcFails | arm_simulator-1.4/arm_load_store.c:246-248 | LDR PC of the word 9 leaves 9 in R15 and the CPSR as it was |
| Departures.UnalignedLdmFails | arm_simulator-1.4/arm_load_store.c:313-324 | LDMIA R1, {R0} from address 1 does not load the word at 0 |
| Departures.UnalignedStmFails | arm_simulator-1.4/arm_load_store.c:335-346 | STMIA R1, {R0} to address 1 does not store at 0 |
| Departures.StrWriteBackFails | arm_simulator-1.4/arm_load_store.c:73-91 | STR R0, [R1, #4]! leaves R1 at 0 where section A5.2 wants 4 |
| Departures.UnalignedLoadFails | arm_simulator-1.4/arm_load_store.c:246-248 | LDR from address 1 does not give the rotated aligned word |
| Departures.UnalignedStoreFails | arm_simulator-1.4/arm_load_store.c:257-260 | STR to address 1 does not store at address 0 |
| Departures.ShiftFails | arm_simulator-1.4/arm_data_processing.c:367-393 | MOV R0, R1 shifted by 4, for LSR, ASR and ROR of 0x100, is not the shifted value |
| Departures.AddFlagsFail | arm_simulator-1.4/arm_data_processing.c:137-146 | ADDS: 0xFFFFFFFF + 1 leaves C clear, 1 + 1 sets V |
| Departures.SubtractFlagsFail | arm_simulator-1.4/arm_data_processing.c:113-134 | SUBS and RSBS of 1 and 1 leave C clear; SUBS sets V |
| Departures.AdcFlagsFail | arm_simulator-1.4/arm_data_processing.c:148-157 | ADCS: 0xFFFFFFFF + 1 leaves C clear, 1 + 1 sets V |
| Departures.SbcFails | arm_simulator-1.4/arm_data_processing.c:158-167 | SBCS: 5 - 3 gives 4; inputs on which C and V are wrong |
| Departures.SbcSignsFail | arm_simulator-1.4/arm_data_processing.c:158-167 | SBCS: inputs on which Z and N are wrong |
| Departures.RscSignsFail | arm_simulator-1.4/arm_data_processing.c:169-179 | RSCS: inputs on which Z and N are wrong |
| Departures.RscFails | arm_simulator-1.4/arm_data_processing.c:169-179 | RSCS: 5 - 3 gives 4; inputs on which C and V are wrong |
| Departures.CompareZeroFails | arm_simulator-1.4/arm_data_processing.c:181-215 | TST of 3 and 3, TEQ, CMP and CMN of 3 and 0 set Z when R3 is 0 |
| Departures.CompareSignFails | arm_simulator-1.4/arm_data_processing.c:181-215 | TST of 0x80000000 with itself, TEQ, CMP and CMN of it with 0 leave N clear when R0 is 0 |
| Departures.CompareFails | arm_simulator-1.4/arm_data_processing.c:199-207 | CMP of equal values leaves Z clear when R0 is 1, and C clear if it was |
| Departures.CmnFlagsFail | arm_simulator-1.4/arm_data_processing.c:208-215 | CMN: 0xFFFFFFFF + 1 leaves C clear, 1 + 1 sets V |
| Departures.FailedConditionFails | arm_simulator-1.4/arm_instruction.c:110-160 | BEQ branches with Z clear |

## Left out

- Machine.FailedConditionHonoured: one direction; the other words act as if their condition had passed, which may still leave the state as it was (`FailedBranch` says when for branches).
- Encodings decoded as something else, modelled as the code runs them and not compared with the manual: BX, BLX, CLZ, MSR by register, BKPT, the saturating additions and the half-word multiplies (bits 24..20 at 10xx0 of class 0 with bit 4 or bit 7 clear) run as MRS, so BX copies the CPSR into R15; MSR by immediate runs as TEQ or CMN; multiplies, swaps and half-word transfers (class 0 with bits 7 and 4 set) run as data processing with the operand 0, or do nothing at bits 24..20 = 10xx0; bit 22 of LDM and STM is ignored; condition 1111 runs as always.
- Encodings that leave `address` unset (P=0 with W=1, and register forms with bit 4 set) and ROR by a register with Rs[4:0] = 0 and Rs[7:0] nonzero, which are undefined in the C: excluded by `Defined` and `ShiftDefined`.
- LoadStoreMultiple.Addresses, LoadStore.Address: methods cut out of the one C function each, as are the transfer loops and the three shift blocks; in the C they are inline.
- `arm_load_store_miscellaneous`: nothing dispatches to it.
- `arm_exception` beyond RESET does nothing in the code, so interrupts and privileged modes are never entered; banked registers are modelled in the register file only.
- Allocation and freeing, messages on stderr, traces, cycle counts, the gdb server, sockets, `is_big_endian` of the host and the build scripts.
- Half-word memory accesses are modelled in `memory.c`; no dispatched instruction uses them.
