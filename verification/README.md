# Verification of x86lib

A model of the 32-bit x86 virtual machine in `vm/` and `include/`, and proofs about it, in Dafny.
`dafny verify dfyconfig.toml` checks all of it.

## What is modelled

**The payload codec.**  `PayloadCodec` holds the two loops of `vm/x86lib.cpp:881-957` as methods and
what they compute as functions; `PayloadCodecLaws` has the round trip, the accepted language and
the optimality of the encoder.

**The memory bus.**  `MemoryBus` is the device vector with its scans, over devices that are byte
arrays; `BusRefinement` shows that it refines a flat map from addresses to bytes (`FlatMemory`).
The processor runs on the flat map, and `BusMachine` shows that its accesses are requests to the bus and that
whole runs are too.

**The processor.**  `CpuState` is the state as a value, `Isa` has one function per opcode handler,
`Arithmetic` and `ModRm` the helpers under them.  `X86Cpu` is the C++ class again: registers in an
array, the rest in fields, one method per helper and handler, each proved to do to the fields
exactly what the function of the same name does to the value, faults included (the table's rows for them
name the instruction, no more).  A C++ exception is
a `Fault` that carries the state at the throw: what an opcode did before it threw stays done.
`Cycle` is one instruction; a run is a number of cycles.

**Single instructions.**  `Instructions` has the frame of a cycle; `StackInstructions`, `DataInstructions`,
`AluInstructions`, `FrameRuns`, `MulDivRuns` and `RepOpcodes` state what each instruction leaves, any size
prefixes, by its bytes, registers and memory and by integers; `FlagLaws` and `OverflowLaws` do so for the
flags.

**Properties of runs.**  `PrefixChains` (size prefixes nest), `RepSteps`, `RepRuns` and `RepSearch` (REP
re-enters itself by moving `eip` back, one iteration a cycle, so what it means is a property of
runs), `StaleMarks` (what a comparison can do to a later REP), `StackRuns`, `Frames`, `FrameRuns`,
`EnterDisplay`, `CallRuns`, `LeafCalls` and `IndirectRuns` (the stack, ENTER against the manual, calls),
`AddressSizes` (which half of a pointer is used), `ExecLaws` (gas and slices), `AluRuns`, `BranchRuns` and
`MulDivRuns` (arithmetic instructions in programs), `ModRmLaws` (the operand decoder against the Intel
SDM, Volume 2, section 2.1.5).

**The ALU.**  `Rotates` proves the shift pairs of all rotates and double shifts equal to iterated
one-bit steps, at every width at once; `RotateUnit` states what the helpers do to the flags at 8, 16
and 32 bits.  `ArithmeticLaws` relates the flag-setting helpers to integer arithmetic.

## Where the code departs from the manual or from its own words

The model follows the code.  For each of these there is the exact condition under which the code does
the documented thing, and an input on which it does not, unless the condition shows one by itself:

- REP looks at a mark that CMPS and SCAS set when the byte before them is 0xF2 or 0xF3, and that byte may
  be the end of another instruction.  Only REP clears the mark, so a plain comparison can make a later
  REP MOVS or REP STOS stop after one element (`RepRuns.RepMovsRun`, `RepStosRun`, `StaleMarks.CopyCutShort`).
  The comment on `string_compares` (`include/x86lib.h:516`) expects a jump to be needed; it is not.
- CALL r/m reads its operand after the push (`IndirectRuns.CallOfRegister`, `CallOfMemory`,
  `CallOfStackPointerFails`, `CallOfTopOfStackFails`).
- INC and DEC of memory leave the carry of the adder in CF when the write is refused
  (`AluRuns.IncRmCarry`, `DecRmCarry`, `RefusedCountFails`).
- ADC adds operand plus CF truncated to 32 bits, so it drops the carry when the operand is all ones
  and CF is set (`ArithmeticLaws.AdcExact`, `LongAddExact`, `AdcDropsCarry`, `AluRuns.ProgramAdds`).
- OF compares the operands in bit 7 at every size (`FlagLaws.AddMeans`, `SubMeans`, `AddOverflowFails`,
  `ArithmeticLaws.SignedConditions`, `SignedConditionFails`).
- IMUL sets CF by the unsigned size of the magnitude (`ArithmeticLaws.ImulCarry`, `ImulCarryFails`).
- IDIV leaves the remainder of the magnitudes, without the sign of the dividend, and accepts quotients up to
  the unsigned size (`ArithmeticLaws.IdivRemainder`, `IdivMeaning`, `IdivRemainderFails`, `IdivQuotientFails`).
- The 16-bit RCR tests bit 16 of a 16-bit variable (`RotateUnit.RcrCarryDocumented`, `RcrUndoesRcl`,
  `RcrCarryFails`).  RCL and RCR at
  8 and 16 bits reduce the count modulo the width, not the width plus one (`TurnsDocumented`,
  `RclCountFails`).  ROL and ROR by a non-zero multiple of the width leave CF alone, where the
  manual has it follow the result (`RotateCarryDocumented`, `RotateCarryFails`).
- A SIB byte with base 5 and mod 0 loses its displacement, in the address and in the length
  (`ModRmLaws.AddressMatches`, `LengthMatches`, `NextInstruction`, `SibWithoutBaseFails`).
- ENTER pushes the addresses of the enclosing frames' slots instead of their contents, and subtracts the frame
  size from the frame pointer instead of the stack pointer below the display
  (`EnterDisplay.EnterAsDocumented`, `EnterByLinks`, `EnterCompletes`, `DisplayFails`).
- 0x66 makes PUSH and POP, and what is built from them, address the stack through SP, and the string
  instructions memory through SI and DI (`AddressSizes.PushAsDocumented`, `PopAsDocumented`,
  `StringPointers`).  STOS and SCAS move ESI as well as EDI, always (`AddressSizes.SpareMove`).
- A request whose end wraps around the address space can pass the range test of the bus
  (`BusRefinement.ReadOutcomes`, `WriteOutcomes`, `WrappedRequestFails`).
- The message of `MemorySystem::Add` says "overlaps", the test only finds a new range that contains an old
  one (`BusRefinement.AddKeepsDisjoint`, `AddAdmitsOverlap`).  `Remove(low, high)` never looks at `high`
  (`MemoryBus.MemorySystem.RemoveRange`), and `RangeFree` leaves a range around the freed one
  (`BusRefinement.FreeSelects`, `FreeMissesAround`).
- The decompressor reads 24 of the 32 length bits that the compressor writes
  (`PayloadCodecLaws.RoundTrip`).

## Model

| member | source | states |
|---|---|---|
| PayloadCodecLaws.RoundTrip | vm/x86lib.cpp:881-957 | decompressing a compressed payload gives it back: with `force` for every payload, without it if and only if the payload is shorter than 2^24 |
| PayloadCodecLaws.CompressorOptimal | vm/x86lib.cpp:881-957 | no stream that the decompressor turns into a payload is shorter than what the compressor writes for that payload |
| PayloadCodecLaws.BodyOptimal | vm/x86lib.cpp:881-957 | the same for any body the decoder can parse, header aside |
| PayloadCodecLaws.CompressedSize | vm/x86lib.cpp:881-919 | the exact size: four header bytes, one per non-zero byte, 2 * ceil(n / 255) per maximal run of n zeros |
| PayloadCodecLaws.AcceptedLanguage | vm/x86lib.cpp:921-957 | without `force` a non-empty answer comes back exactly for a non-empty body of non-zero bytes and pairs `00 k`, k >= 1, whose decoded length is the 24-bit length field |
| PayloadCodecLaws.SpellsMeansAccepted | vm/x86lib.cpp:921-957 | a stream that a token sequence spells is accepted, and its answer is the meaning of the sequence |
| PayloadCodecLaws.UniqueReading | vm/x86lib.cpp:921-957 | a body spells at most one token sequence, so the answer does not depend on how it is read |
| PayloadCodecLaws.DecodeTokens | vm/x86lib.cpp:921-957 | decoding the spelling of a token sequence yields its meaning |
| PayloadCodecLaws.TopHeaderByteIgnored | vm/x86lib.cpp:921-957 | byte 3 of the header never changes the answer |
| PayloadCodecLaws.CompressedHeader | vm/x86lib.cpp:881-919 | the header is the payload length modulo 2^32, of which the decompressor reads the low 24 bits |
| PayloadCodecLaws.DecodeEncode | vm/x86lib.cpp:881-957 | the decoder is a left inverse of the encoder on bodies, empty payloads and runs across any number of 255 boundaries included |
| PayloadCodec.Compress | vm/x86lib.cpp:881-919 | the two-variable loop with its flush at 255 writes the header and, run by maximal run, the specified body |
| PayloadCodec.EmitIsPending | vm/x86lib.cpp:881-919 | at every point of the loop, what is written and what is pending make up the whole encoding |
| PayloadCodec.Decompress | vm/x86lib.cpp:921-957 | the strict decoder loop, with its early returns, computes the recursive decoding or the empty rejection |
| PayloadCodec.AbsorbIsDecode | vm/x86lib.cpp:921-957 | one pass of the decoder loop is one step of the recursive decoding |
| BusRefinement.BusRefinesFlat | vm/device_manager.cpp:108-196 | with pairwise disjoint ranges over big-enough devices every sequence of single-device reads and writes gets the answers, and leaves the contents, of one flat byte map |
| BusRefinement.ReadRefines | vm/device_manager.cpp:108-149 | a read inside one range returns exactly the flat bytes |
| BusRefinement.WriteRefines | vm/device_manager.cpp:153-196 | a write inside one range is the flat store, or is refused by a read-only device |
| BusRefinement.ReadOutcomes | vm/device_manager.cpp:108-149 | every read, wrapping sums included: it gets bytes, those of its device, if and only if it lies inside one range or comes around the end of the address space unnoticed; otherwise it starts in no range, runs past its range, or meets a device that is too short |
| BusRefinement.WriteOutcomes | vm/device_manager.cpp:153-196 | every write: the same condition, and the device not read-only |
| BusRefinement.WrappedRequestFails | vm/device_manager.cpp:120-142 | an input on which bytes that nothing answers for are served: the last two of the address space and two more, over a device of eight |
| BusRefinement.OrderIndependent | vm/device_manager.cpp:108-196 | reordering the device list leaves the flat view as it is |
| BusRefinement.SameAnswersInAnyOrder | vm/device_manager.cpp:108-196 | two orders of one list answer every request sequence alike and leave every device with the same contents |
| BusRefinement.OnlyMatch | vm/device_manager.cpp:120-126 | with disjoint ranges the first match is the only match |
| BusRefinement.NoSwallowingInvariant | vm/device_manager.cpp:47-106 | over every sequence of list operations no later range has its low end at or below, and its high end at or above, those of an earlier one |
| BusRefinement.KeptKeepsOrder | vm/device_manager.cpp:70-106 | a removal keeps the unselected ranges, all of them, at ascending old positions |
| BusRefinement.KeptAppend | vm/device_manager.cpp:70-106 | removal works position by position |
| MemoryBus.KeptMembers | vm/device_manager.cpp:70-106 | a removal keeps exactly the ranges that its test does not select |
| BusRefinement.AddRefuses | vm/device_manager.cpp:47-58 | a range is refused if and only if it reaches over both ends of one that is there |
| BusRefinement.AddRefusesAgain | vm/device_manager.cpp:47-58 | two that are refused: the same addresses again, and a range that goes on |
| BusRefinement.FreeSelects | vm/device_manager.cpp:198-216 | RangeFree erases the ranges that meet the freed addresses, except those that reach beyond them on both sides |
| BusRefinement.FreeMissesAround | vm/device_manager.cpp:198-216 | a range around the freed addresses stays |
| BusRefinement.AddKeepsDisjoint | vm/device_manager.cpp:47-68 | an accepted range keeps the list disjoint if and only if it overlaps none that is there |
| BusRefinement.AddAdmitsOverlap | vm/device_manager.cpp:47-68 | an overlapping range that contains no earlier one is accepted, whatever the error message says |
| BusMachine.ReadOnBus | vm/cpu_helpers.cpp:177-205 | a processor read inside one range is the bus read, little-endian |
| BusMachine.WriteOnBus | vm/cpu_helpers.cpp:181-227 | a processor write inside one range reaches its device and keeps the flat view true, or both sides refuse |
| BusMachine.RunOnBus | vm/x86lib.cpp:202-291 | an invariant of the shape of memory over runs of any length: the addresses that answer, the read-only ones and what those hold stay, so that from the flat view of a device list a run ends on the flat view of the same ranges over devices of the same lengths |
| BusMachine.RunIsRequests | vm/device_manager.cpp:108-196 | whatever requests, each inside one range, account for the memory that a run leaves: made to the bus they get the answers of the flat view and leave exactly those devices |
| BusMachine.StoreDetermined | vm/device_manager.cpp:108-196 | the flat view and the bytes behind no range determine the devices |
| BusMachine.UnmappedOnBus | vm/cpu_helpers.cpp:177-205 | an access where no device answers faults on both sides |
| MemoryBus.MemorySystem.Read | vm/device_manager.cpp:108-149 | the vector scan answers as the first range that covers the address |
| MemoryBus.MemorySystem.Write | vm/device_manager.cpp:153-196 | the same for writes: new contents of exactly one device, or a refusal that changes nothing |
| MemoryBus.MemorySystem.WriteDevice | vm/device_manager.cpp:190 | a write to one device changes no other |
| MemoryBus.MemorySystem.Add | vm/device_manager.cpp:47-68 | appends, unless an existing range has both ends within the new one; then it refuses and changes nothing |
| MemoryBus.MemorySystem.RemoveRange | vm/device_manager.cpp:70-88 | erases every range with that low address, whatever its high address; fails when there is none |
| MemoryBus.MemorySystem.RemoveDevice | vm/device_manager.cpp:90-106 | erases every range over that device; fails when there is none |
| MemoryBus.MemorySystem.RangeFree | vm/device_manager.cpp:198-216 | erases every range with an end point inside; its count plus the remaining length is the old length |
| MemoryBus.MemoryDevice.Read | include/x86lib.h:257-262 | copies from the device array behind the bounds test, whose sum may wrap |
| MemoryBus.MemoryDevice.Write | include/x86lib.h:263-296 | copies into the array; a read-only device refuses |
| MemoryBus.Find | vm/device_manager.cpp:120-126 | the index of the first covering range |
| Rotates.RolIsSteps | vm/ops/maths.cpp:573-623 | the shift pair of RotateLeft is that many one-bit ROL steps, and bit 0 of the result is the CF of the last |
| Rotates.RorIsSteps | vm/ops/maths.cpp:471-519 | the same for RotateRight and the top bit |
| Rotates.RclIsSteps | vm/ops/maths.cpp:633-690 | the widened shift pair of RotateCarryLeft is that many one-bit RCL steps in value and CF |
| Rotates.RcrIsSteps | vm/ops/maths.cpp:700-754 | the same for RotateCarryRight, before its result is put in a variable |
| Rotates.OppositeRotatesCancel | vm/ops/maths.cpp:471-754 | at every width, n RCR steps undo n RCL steps in value and CF, and ROR steps undo ROL steps in value |
| Rotates.CarryRotatePeriod | vm/ops/maths.cpp:633-754 | RCL and RCR have period width + 1 |
| Rotates.ShldIsWideShift | vm/ops/maths.cpp:424-460 | the SHLD shift pair is the high word of the double word shifted left |
| Rotates.ShrdIsWideShift | vm/ops/maths.cpp:529-563 | the SHRD shift pair is the low word of the double word shifted right |
| Rotates.DoubleShiftOfSelf | vm/ops/maths.cpp:443-460 | a double shift of a word with itself is a rotate in value and carry |
| RotateUnit.RcrUndoesRcl | vm/ops/maths.cpp:633-754 | on the helpers as they are: RCR by the same count restores the value always, and CF if and only if the width is not 16, the count is zero, or CF was clear |
| RotateUnit.RorUndoesRol | vm/ops/maths.cpp:471-623 | ROR by the same count restores the value |
| RotateUnit.RotateIsDoubleShift | vm/ops/maths.cpp:443-460 | RotateLeft gives the value and CF of ShiftLeftDoublePrecision of the operand with itself, RotateRight those of the right one |
| OverflowLaws.RotateOverflows | vm/ops/maths.cpp:471-754 | OF after one step of a rotate is the change of sign, after more it is clear, and no other flag but CF changes |
| OverflowLaws.DoubleShiftFlags | vm/ops/maths.cpp:424-563 | OF after a double shift by one is the change of sign, after more it is as before (SHLD) or clear (SHRD); ZF, SF and PF tell of the result |
| RotateUnit.RotateCarryDocumented | vm/ops/maths.cpp:471-623 | ROL and ROR leave the documented CF if and only if the masked count is zero, or is no whole number of turns, or CF is the last bit already |
| RotateUnit.RotateCarryFails | vm/ops/maths.cpp:573-591 | an input on which ROL does not: 1 by eight at 8 bits |
| RotateUnit.RcrCarryDocumented | vm/ops/maths.cpp:700-754 | RCR leaves the CF of its one-bit steps if and only if the width is not 16, or it makes no step, or the last bit moved is a zero |
| RotateUnit.RcrCarryFails | vm/ops/maths.cpp:719-736 | an input on which the 16-bit RCR loses CF: 1 by one |
| RotateUnit.KeptBits | vm/ops/maths.cpp:719-736 | why the 16-bit RCR loses CF: a 16-bit variable has no bit 16 |
| RotateUnit.TurnsDocumented | vm/ops/maths.cpp:633-754 | RCL and RCR take the documented number of steps if and only if the masked count is below the width |
| RotateUnit.RclCountFails | vm/ops/maths.cpp:633-651 | an input on which RCL does not: a count of nine at 8 bits |
| X86Cpu.X86CPU.RotateLeft | vm/ops/maths.cpp:573-623 | at 8, 16 and 32 bits: value, CF and OF of (count & 31) mod width one-bit steps |
| X86Cpu.X86CPU.RotateRight | vm/ops/maths.cpp:471-519 | the same for ROR |
| X86Cpu.X86CPU.RotateCarryLeft | vm/ops/maths.cpp:633-690 | the same for RCL |
| X86Cpu.X86CPU.RotateCarryRight | vm/ops/maths.cpp:700-754 | the same for RCR, with CF always clear at 16 bits |
| X86Cpu.X86CPU.ShiftLeftDoublePrecision | vm/ops/maths.cpp:424-460 | the high word of the shifted double word, CF the last bit out, OF only for a count of one, PF, SF and ZF of the result |
| X86Cpu.X86CPU.ShiftRightDoublePrecision | vm/ops/maths.cpp:529-563 | the low word of the shifted double word, with its flags |
| ArithmeticLaws.AddExact | vm/ops/maths.cpp:90-117 | result and CF of an addition are the exact sum, though CF is found by comparing with the operands |
| ArithmeticLaws.AdcExact | vm/ops/maths.cpp:981-984 | ADC is exact except that it drops the carry when it adds all ones with CF set |
| ArithmeticLaws.AdcDropsCarry | vm/ops/maths.cpp:981-984 | an input on which it does: 0 plus 0xFFFFFFFF plus CF |
| ArithmeticLaws.LongAddExact | vm/ops/maths.cpp:981-984 | a chain of ADCs with INC and DEC anywhere between is the big-integer sum with CF as carry out if and only if no limb adds all ones while CF is set |
| ArithmeticLaws.LongAddSum | vm/ops/maths.cpp:981-984 | in every case the sum is exact up to the dropped carries, each at its weight |
| ArithmeticLaws.IncDecKeepCarry | vm/ops/maths.cpp:851-1003 | INC and DEC preserve CF |
| ArithmeticLaws.UnsignedConditions | vm/ops/flags.cpp:35-72 | after a comparison B, AE, E, NE, BE and A order the operands as unsigned numbers |
| ArithmeticLaws.SignedConditions | vm/cpu_helpers.cpp:99-104 | L and GE order them as signed numbers if and only if bit 7, which OF looks at, decides as the sign bits would, a condition on the bits of the two operands; LE and G if and only if it does or the operands are equal |
| ArithmeticLaws.SignedConditionFails | vm/cpu_helpers.cpp:99-104 | an input on which it does not: 0x80000000 against 1 |
| ArithmeticLaws.ImulExact | vm/ops/maths.cpp:1180-1208 | the register pair read as signed is the exact signed product; CF says that its magnitude needs the upper half |
| ArithmeticLaws.ImulCarry | vm/ops/maths.cpp:1180-1208 | the products on which CF is what the manual says, and only those |
| ArithmeticLaws.ImulCarryFails | vm/ops/maths.cpp:1180-1208 | an input on which it is not: 0x10000 times 0x8000 |
| ArithmeticLaws.ImulDetermined | vm/ops/maths.cpp:1180-1208 | product and magnitude determine what IMUL leaves |
| ArithmeticLaws.IdivMeaning | vm/ops/maths.cpp:1089-1123 | IDIV faults if and only if the divisor is zero or the magnitude of the quotient does not fit; otherwise the quotient register is the truncated quotient modulo the size and the other the remainder of the magnitudes |
| ArithmeticLaws.IdivRemainder | vm/ops/maths.cpp:1089-1123 | the remainder is the documented signed one if and only if the dividend is not negative or the division leaves none |
| ArithmeticLaws.IdivRemainderFails | vm/ops/maths.cpp:1089-1123 | an input on which it is not: -7 divided by 2 |
| ArithmeticLaws.IdivQuotientFails | vm/ops/maths.cpp:1107-1123 | an input on which the quotient is not the signed one: 2^31 divided by 1 |
| ArithmeticLaws.TruncIdentity | vm/ops/maths.cpp:1107-1123 | the reference quotient and remainder satisfy the division identity |
| ArithmeticLaws.UnsignIsAbs | include/x86lib_internal.h:111-150 | Unsign gives the magnitude and the sign of a two's complement number |
| ArithmeticLaws.ResignReads | include/x86lib_internal.h:152-180 | a magnitude with its sign put back by Resign reads as the signed number |
| AluRuns.ProgramAdds | vm/ops/maths.cpp:938-1003 | a program of one ADD r, r/m and any later ADC r, r/m, INC r, DEC r and CF-preserving instructions leaves the exact big-integer sum in its destination registers and CF if and only if no ADC adds all ones while CF is set |
| AluRuns.RunAddsLimbs | vm/ops/maths.cpp:981-1003 | a run of the machine does to CF and the destination registers what the chain of limb additions does |
| AluRuns.AluCycle | vm/ops/maths.cpp:794-984 | an unprefixed ADD, ADC or SUB r, r/m leaves the outcome of its operation on register and operand; `AluInstructions.RegisterWithOperand` states it by integers |
| AluRuns.AluRRmCombines | vm/ops/maths.cpp:794-984 | the same at both operand sizes; CMP leaves the registers |
| AluInstructions.RegisterWithOperand | vm/ops/maths.cpp:794-984 | ADD, ADC, SUB and CMP r, r/m, any size prefixes: the register, to the left, plus or minus the operand modulo the size, all flags by these integers (SUB: CF if and only if the register is below the operand, ZF if and only if they are equal), nothing else but `eip` past the operand |
| AluInstructions.OperandWithImmediate | vm/ops/groups.cpp:73-182 | the same for r/m, imm, the operand to the left and assigned, a byte being sign-extended; a refused write leaves the flags set and nothing assigned |
| AluInstructions.AluMeans | vm/ops/maths.cpp:938-984 | the four operations by integers, ADC with the sum of operand and CF that may wrap |
| AluInstructions.CountRegister | vm/ops/maths.cpp:851-1003 | INC r and DEC r, any size prefixes: the register by number, all flags, CF as it was |
| AluInstructions.CountOperand | vm/ops/maths.cpp:863-1015 | INC r/m and DEC r/m: the operand by one, all flags, CF as it was; a refused write leaves the flags of the sum or difference, CF among them |
| AluInstructions.PushOperand | vm/ops/store.cpp:127-129 | PUSH r/m pushes the operand as it is before the push |
| AluInstructions.GroupFFUnknown | vm/ops/groups.cpp:314-317 | extension 7 of group FF is an unknown opcode |
| FlagLaws.AddMeans | vm/ops/maths.cpp:90-117 | an addition by integers: result, CF the carry out, ZF, SF and PF of the result, AF the carry out of four bits, and OF the signed overflow if and only if bit 7 decides |
| FlagLaws.SubMeans | vm/ops/maths.cpp:48-75 | a subtraction, likewise, with borrows |
| FlagLaws.AdcMeans | vm/ops/maths.cpp:981-984 | ADC is the addition of operand plus CF modulo the size |
| FlagLaws.CountMeans | vm/ops/maths.cpp:851-1003 | INC and DEC are addition and subtraction of one but for CF, which stays, with a copy in the reserved bit |
| FlagLaws.FlagConditions | vm/ops/flags.cpp:17-72 | after a subtraction S and P tell sign and parity of the difference, and O, if and only if bit 7 decides, its signed overflow |
| FlagLaws.ParityMeans | vm/cpu_helpers.cpp:64-71 | PF is an even sum of the low eight bits |
| FlagLaws.AddOverflowFails | vm/cpu_helpers.cpp:99-104 | an input on which an addition overflows and OF stays clear: 0x7FFFFFFF plus 1 |
| AluRuns.CountCycle | vm/ops/maths.cpp:851-1003 | INC r and DEC r change their register by one and keep CF and memory |
| AluRuns.IncRmCarry | vm/ops/maths.cpp:1011-1015 | INC r/m leaves CF as it was if and only if its operand is a register or writable, or the carry of the adder is CF; a refused write leaves that carry in CF and the old one in the reserved bit |
| AluRuns.DecRmCarry | vm/ops/maths.cpp:863-867 | DEC r/m, likewise, with the borrow |
| AluRuns.RefusedCountFails | vm/ops/maths.cpp:851-1015 | inputs on which CF changes: INC and DEC of a read-only zero |
| MulDivRuns.MultiplyCycle | vm/ops/maths.cpp:1180-1208 | the IMUL instruction, any size prefixes: EDX:EAX is the exact signed product, at 16 bits in the low halves, and nothing else changes but CF and OF |
| MulDivRuns.DivideCycle | vm/ops/maths.cpp:1089-1123 | the IDIV instruction, any size prefixes: the divide fault exactly when the divisor is zero or the quotient does not fit, otherwise quotient in EAX and remainder of the magnitudes in EDX, at 16 bits in the low halves, and nothing else changes |
| X86Cpu.SignedProduct | vm/ops/maths.cpp:1180-1208 | multiplying magnitudes and putting the sign back leaves two halves that read together as the exact signed product, and says whether its magnitude needs the upper one |
| X86Cpu.SignedQuotient | vm/ops/maths.cpp:1089-1123 | dividing magnitudes and putting the sign back faults exactly when the divisor is zero or the quotient does not fit, and otherwise leaves the truncated quotient modulo the size and the remainder of the magnitudes |
| BranchRuns.CompareThenBranch | vm/ops/flags.cpp:35-94 | a comparison (r with r/m, r/m with an immediate, sign-extended when a byte; any size prefixes) and then a short or near Jcc, any of the sixteen, goes where the order of the operands or the flag of their difference sends it: always for the unsigned, equality, sign and parity conditions, for O, NO, L and GE if and only if bit 7 decides, for LE and G also when the operands are equal (or, for these six, both ways meet) |
| BranchRuns.CompareCycle | vm/ops/maths.cpp:895-911 | a comparison sets the flags of left minus right, and changes `eip` and nothing else |
| BranchRuns.ImmediateCycle | vm/ops/groups.cpp:73-182 | the same for the immediate forms of groups 81 and 83 |
| BranchRuns.JccCycle | vm/ops/flags.cpp:74-94 | short and near Jcc, any size prefixes: the signed displacement from the end of the instruction when taken, truncated at 16 bits, else the next instruction |
| BranchRuns.NearJumpCycle | vm/ops/flow.cpp:43-92 | JMP and CALL go to the same target; the two adjustments of `eip` around the jump cancel |
| ModRmLaws.LengthMatches | vm/modrm.cpp:449-494 | the length is that of section 2.1.5 of the Intel SDM, Volume 2, except that it is four short for a SIB byte without a base |
| ModRmLaws.AddressMatches | vm/modrm.cpp:67-213 | the address is that of section 2.1.5, in both address sizes, if and only if the encoding is not a SIB byte without a base, or its displacement is zero |
| ModRmLaws.SibWithoutBaseFails | vm/modrm.cpp:67-213 | an encoding on which both fail: `[0x01020304]` with a SIB byte |
| ModRmLaws.AddressReadsBlock | vm/modrm.cpp:67-213 | the address depends on no byte outside the block that GetLength measures |
| ModRmLaws.NextInstruction | vm/ops/groups.cpp:73-182 | for the modelled ModRM instructions, any prefixes: the next `eip` is start, prefixes, opcode, documented length, immediate; four short for a SIB byte without a base |
| ModRmLaws.BodyAdvances | vm/ops/groups.cpp:73-320 | the instruction bodies move `eip` by their immediate and no more |
| ModRmLaws.DecodeFinds | vm/modrm.cpp:215-223 | the constructor finds the fields and leaves `eip` on the ModRM byte |
| PrefixChains.PrefixedCycle | vm/ops/etc.cpp:227-242 | for every finite chain of 0x66 and 0x67: 16-bit operands iff 0x66 occurs, 16-bit addresses iff 0x67 occurs, `eip` past the chain, both flags clear again afterwards |
| PrefixChains.ChainDispatch | vm/ops/etc.cpp:227-242 | the nested handlers of a chain are the last handler in the state that the chain sets up |
| StepLaws.BasicHandled | vm/x86lib.cpp:260-291 | every one-byte opcode, completed or faulting, keeps gas, limit, stop request, mapping, read-only addresses and what they hold, and when it completes the size flags |
| StepLaws.TwoByteHandled | vm/x86lib.cpp:254-291 | the same for the two-byte opcodes |
| ExecLaws.DispatchKeeps | vm/ops/etc.cpp:227-242 | the same through any number of prefixes |
| ExecLaws.CycleKeeps | vm/x86lib.cpp:260-291 | every completed cycle charges one unit of gas; a faulting one none |
| ExecLaws.ExecRuns | vm/x86lib.cpp:202-252 | absent stops, Exec(n) is exactly n cycles without a gas limit and min(n, max(0, limit - used + 1)) with one, faults included |
| ExecLaws.ExecSplits | vm/x86lib.cpp:202-252 | Exec(a) and then Exec(b) is Exec(a + b) |
| ExecLaws.ExecStops | vm/x86lib.cpp:202-219 | a pending stop ends the slice after one instruction and is forgotten |
| ExecLaws.RunCharges | include/x86lib.h:581-593 | k cycles use k units of gas |
| RepRuns.RepMovsRun | vm/ops/etc.cpp:88-154 | REP MOVS, any prefixes, either direction, any state of the comparison mark: from a count of n, n cycles with `eip` on the instruction and one more leave the whole copy, the moved pointers, the zero count and `eip` past it, if and only if no stale mark is set, or the count is zero, or ZF is on the side that goes on; otherwise one element is copied and `eip` is past the instruction |
| RepRuns.RepStosRun | vm/ops/etc.cpp:88-154 | REP STOS, likewise, with the same condition |
| RepRuns.IterationRegisters | vm/cpu_helpers.cpp:37-62 | after k iterations the counter is down by k, both pointers are k elements further, used or not, and the other registers are untouched |
| RepRuns.CopyIsBlockCopy | vm/ops/strings.cpp:41-44 | the element-by-element copy is a block copy when no source element is overwritten before its turn, over any number of laps of the pointers |
| RepRuns.FillFills | vm/ops/strings.cpp:87-90 | every destination element holds the accumulator, over any number of laps |
| RepRuns.ElementsMeet | vm/cpu_helpers.cpp:37-62 | two elements are apart or, whole laps from each other, the same, sources and destinations alike |
| RepRuns.CopyKeepsTheRest | vm/ops/strings.cpp:41-44 | the copy changes no byte outside its destination elements |
| RepRuns.FillKeepsTheRest | vm/ops/strings.cpp:87-90 | nor does the fill, whatever ESI points at |
| RepRuns.MovsFaults | vm/ops/etc.cpp:130-138 | where element k cannot be read or written, REP MOVS copies the k before it and faults with the counter and pointers on it and nothing of it done |
| RepRuns.StosFaults | vm/ops/etc.cpp:130-138 | REP STOS, likewise, for an element that cannot be written |
| RepRuns.MovsIterations | vm/ops/etc.cpp:130-138 | unless a stale mark cuts it short, after k cycles exactly k elements are copied and the instruction is ready to go on |
| RepRuns.StosIterations | vm/ops/etc.cpp:130-138 | unless a stale mark cuts it short, after k cycles exactly k elements are filled |
| RepSearch.SearchStops | vm/ops/etc.cpp:130-153 | REPE/REPNE CMPS and SCAS stop at the first element that ends the search, k: count less k + 1, pointers just past it, ZF telling which, `eip` past the instruction, the comparison mark clear; a stale mark makes no difference |
| RepSearch.SearchExhausts | vm/ops/etc.cpp:126-153 | otherwise every element is compared and the count reaches zero, with the flags of the last comparison; from a zero count flags and mark stay as they were |
| RepSearch.SearchIterations | vm/ops/strings.cpp:53-80 | after k comparisons that do not end it the search stands at element k |
| StaleMarks.PlainCompareMarks | vm/ops/strings.cpp:53-80 | a CMPS or SCAS without REP sets the mark when the byte before it, of whatever instruction, is 0xF2 or 0xF3 |
| StaleMarks.ProgramLeavesMark | vm/ops/etc.cpp:139-152 | a MOV with such an immediate and a plain CMPS leave the mark for the next REP, and exactly when that is cut short |
| StaleMarks.CopyCutShort | vm/ops/etc.cpp:139-152 | a concrete state from which REP MOVS copies one of two elements, without a prefix or a jump |
| RepOpcodes.RepBeforeReturn | vm/ops/etc.cpp:115-119 | REP before RET, any size prefixes and counter: `eip` on the RET and nothing else changed |
| RepOpcodes.RepReturns | vm/ops/etc.cpp:115-119 | so the two instructions of a REP RET are a RET |
| RepOpcodes.RepOfNothing | vm/ops/etc.cpp:126-129 | a REP of any of the fourteen string opcodes with a zero count ends after it |
| RepOpcodes.RepOfOther | vm/ops/etc.cpp:120-124 | a REP of any other byte is an unknown opcode, with `eip` on that byte |
| RepSteps.RepCycle | vm/ops/etc.cpp:88-154 | one cycle of REP: a zero count ends it, otherwise the string handler runs once, and the exit test decides or its fault ends the cycle |
| StackRuns.StackRefines | vm/cpu_helpers.cpp:6-25 | every sequence of pushes and pops within a writable region behaves as the abstract sequence, at both operand sizes, and changes nothing but ESP and the region |
| StackRuns.PushRefines | vm/cpu_helpers.cpp:6-14 | a push completes exactly when its slot is writable, and is then a push on the sequence |
| StackRuns.PopRefines | vm/cpu_helpers.cpp:15-25 | a pop is a pop on the sequence |
| Frames.PopaUndoesPusha | vm/ops/store.cpp:305-334 | POPA restores all eight registers from the block that PUSHA wrote, whatever happened in between to registers, flags and other memory; PUSHA writes nothing outside its block |
| Frames.PushaSaves | vm/ops/store.cpp:305-316 | the eight slots hold the registers in order, ESP as it was before |
| Frames.EnterBuilds | vm/ops/store.cpp:336-361 | the frame that ENTER builds: pointers, saved words, nothing else changed; its display is the frame addresses |
| Frames.EnterStackPointer | vm/ops/store.cpp:359-360 | its stack pointer is the documented one if and only if the nesting level is zero |
| EnterDisplay.EnterAsDocumented | vm/ops/store.cpp:343-360 | against the documented ENTER, where both complete: EBP is always the same, ESP if and only if the level is zero, memory if and only if each word that the documented display copies holds its own address when it is copied, which levels zero and one copy none of |
| EnterDisplay.EnterByLinks | vm/ops/store.cpp:346-358 | with the display mapped and clear of the new block, memory is the documented one if and only if each of its words holds its own address before the instruction |
| EnterDisplay.EnterCompletes | vm/ops/store.cpp:343-360 | the documented ENTER completes if and only if the emulator's does and every word of the display is mapped |
| EnterDisplay.DisplayFails | vm/ops/store.cpp:343-360 | an input on which memory and ESP are not the documented ones: level 2 over zeros |
| EnterDisplay.WordsAreLinks | vm/ops/store.cpp:346-354 | round by round: the documented words are the pushed addresses if and only if each holds its own |
| Frames.LeaveUndoesEnter | vm/ops/store.cpp:336-366 | LEAVE restores ESP and EBP for every frame size and nesting level, since no push of the loop overwrites the saved EBP |
| FrameRuns.PushaThenPopa | vm/ops/store.cpp:305-334 | as whole instructions with any prefixes: POPA restores all eight registers, and PUSHA changed nothing but ESP and its block |
| FrameRuns.EnterThenLeave | vm/ops/store.cpp:336-366 | LEAVE restores ESP and EBP, as whole instructions with any prefixes |
| FrameRuns.EnterInstruction | vm/ops/store.cpp:336-361 | ENTER by its four bytes, any size prefixes: size the word after the opcode, level the low five bits of the byte after that; the pointers, the saved words, `eip` past the four bytes, nothing else changed |
| FrameRuns.EnterOperands | vm/ops/store.cpp:336-341 | where ENTER finds its operands |
| StackInstructions.PushRegister | vm/ops/store.cpp:135-137 | PUSH r, any size prefixes: opcode 0x50 + i puts register i, as it was, below the stack pointer, and changes nothing else; or faults with ESP moved |
| StackInstructions.PopRegister | vm/ops/store.cpp:167-169 | POP r, any size prefixes: opcode 0x58 + i takes the word on top into register i after moving ESP, POP ESP included; or faults with nothing changed |
| StackInstructions.CallRelative | vm/ops/flow.cpp:85-92 | CALL rel, any size prefixes: the address of the next instruction pushed, `eip` that plus the signed displacement |
| StackInstructions.Return | vm/ops/flow.cpp:94-97 | RET, any size prefixes: `eip` the word on top, ESP past it, nothing else changed |
| StackInstructions.ReturnDropping | vm/ops/flow.cpp:131-136 | RET imm16, likewise, and the immediate added to all of ESP |
| StackInstructions.Leave | vm/ops/store.cpp:363-366 | LEAVE, any size prefixes: ESP from EBP, then EBP from the stack |
| DataInstructions.MoveImmediate | vm/ops/store.cpp:44-47 | MOV r, imm, any size prefixes: opcode 0xB8 + i assigns the word after it to register i |
| DataInstructions.NoOperation | vm/ops/etc.cpp:36-38 | NOP moves `eip` and nothing else |
| DataInstructions.MoveString | vm/ops/strings.cpp:41-44 | MOVS without REP: one element from ESI to EDI, both moved by the direction flag, or a fault with nothing changed |
| DataInstructions.StoreString | vm/ops/strings.cpp:87-90 | STOS without REP, likewise, from the accumulator |
| DataInstructions.CompareString | vm/ops/strings.cpp:53-80 | CMPS and SCAS without REP: the flags of left minus right, both pointers moved, and the mark set when the byte before the opcode is 0xF2 or 0xF3 |
| CallRuns.CallComesBack | vm/ops/flow.cpp:85-171 | a CALL whose callee balances comes back to the instruction after it with ESP restored plus the immediate of the RET, however deep the calls, returns, pushes and pops in between |
| CallRuns.WaitingReturns | vm/ops/flow.cpp:94-136 | by induction on the run: the return address waits until the RET that closes the ledger takes it |
| CallRuns.StillWaiting | vm/ops/flow.cpp:85-171 | every instruction that stays below the return address keeps it and the ledger |
| CallRuns.CallsNest | vm/ops/flow.cpp:85-171 | balanced runs nest: a call whose callee balances and spares its caller's return address makes one balanced run with what balances after it |
| LeafCalls.CallOfRet | vm/ops/flow.cpp:85-97 | a near CALL to a RET balances: two instructions later `eip` is after the CALL and every register as it was |
| CallRuns.CalleeThenCaller | vm/ops/flow.cpp:85-171 | a balanced run of the callee followed by the rest of the caller is a balanced run of the caller, at the caller's depth |
| CallRuns.CallCycle | vm/ops/flow.cpp:85-171 | CALL rel and CALL r/m push the address of the next instruction |
| IndirectRuns.JumpGoes | vm/ops/flow.cpp:58-61 | JMP r/m, any size prefixes, goes to its operand and changes no register, flag or byte |
| IndirectRuns.CallGoes | vm/ops/flow.cpp:167-171 | CALL r/m, any size prefixes, completes if and only if the push and then the operand read do, goes to what the operand is after the push, and leaves what the push left |
| IndirectRuns.CallOfRegister | vm/ops/flow.cpp:167-171 | CALL of a register goes to it if and only if it is not ESP |
| IndirectRuns.CallOfMemory | vm/ops/flow.cpp:167-171 | CALL r/m through memory goes to the documented target, the word at the operand's address before the push, if and only if the word at its address after the push, in memory with the return address stored, has the same bytes, at both operand sizes; the two addresses are equal unless ESP is the base, and as far apart as the push moves ESP then |
| IndirectRuns.CallOfMemoryGoes | vm/ops/flow.cpp:167-171 | so a word that the pushed one does not overlap is where it goes, at the documented address unless ESP is the base; the word on top of the stack is the return address |
| IndirectRuns.CallOfStackPointerFails | vm/ops/flow.cpp:167-171 | an input on which CALL ESP goes elsewhere |
| IndirectRuns.CallOfTopOfStackFails | vm/ops/flow.cpp:167-171 | an input on which CALL [ESP] goes to the instruction after it |
| CallRuns.ReturnCycle | vm/ops/flow.cpp:94-136 | RET takes `eip` from the stack; the immediate is added to ESP |
| AddressSizes.PushAsDocumented | vm/cpu_helpers.cpp:6-14 | after 0x66 PUSH does the documented thing, through ESP, on every memory if and only if ESP is below 0x10000 and does not wrap |
| AddressSizes.PopAsDocumented | vm/cpu_helpers.cpp:15-25 | POP, likewise |
| AddressSizes.StringPointers | vm/cpu_helpers.cpp:37-62 | a string instruction uses and moves a pointer as documented, by the address size, if and only if its two sizes are equal or the pointer stays below 0x10000 |
| AddressSizes.SpareMove | vm/ops/strings.cpp:75-90 | STOS and SCAS move ESI too, always |
| FlatMemory.GetPut | vm/cpu_helpers.cpp:200-227 | a little-endian store reads back |
| FlatMemory.GetPutOther | vm/cpu_helpers.cpp:200-227 | and leaves every disjoint range alone |
| Words.LeInjective | vm/cpu_helpers.cpp:200-227 | two byte strings of one length are the same number if and only if they are equal |
| Words.LeRoundTrip | vm/cpu_helpers.cpp:200-227 | little-endian bytes of a number that fits give it back |
| X86Cpu.X86CPU.constructor | vm/x86lib.cpp:58-80 | the whole reset state |
| X86Cpu.X86CPU.SetReg16 | include/x86lib.h:755-757 | the low half changes, the upper does not |
| X86Cpu.X86CPU.SetReg32 | include/x86lib.h:759-761 | one register changes |
| X86Cpu.X86CPU.SetReg | include/x86lib.h:780-786 | one of the two, by operand size |
| X86Cpu.X86CPU.ReadBytes | vm/cpu_helpers.cpp:186-205 | the little-endian number, or a fault |
| X86Cpu.X86CPU.WriteBytes | vm/cpu_helpers.cpp:214-227 | memory with the bytes replaced, or a fault that changes nothing |
| X86Cpu.X86CPU.FetchCode | vm/cpu_helpers.cpp:273-288 | a code fetch relative to `eip`, wrapping |
| X86Cpu.X86CPU.FetchCode8 | vm/cpu_helpers.cpp:279-281 | one code byte |
| X86Cpu.X86CPU.Push | vm/cpu_helpers.cpp:6-14 | the whole new state, ESP moved even when the write faults |
| X86Cpu.X86CPU.Pop | vm/cpu_helpers.cpp:15-25 | the whole new state, ESP unmoved when the read faults |
| X86Cpu.X86CPU.SetIndex | vm/cpu_helpers.cpp:37-62 | both pointers moved by the direction flag |
| X86Cpu.X86CPU.JumpNearW | vm/cpu_helpers.cpp:117-143 | `eip` plus the signed offset, truncated at 16 bits |
| X86Cpu.X86CPU.JumpNear8 | vm/cpu_helpers.cpp:145-153 | the same for a byte offset |
| X86Cpu.X86CPU.CalculatePF | vm/cpu_helpers.cpp:64-71 | the counting loop computes the parity of the low byte |
| X86Cpu.X86CPU.CalculateResult | vm/cpu_helpers.cpp:78-114 | ZF, PF and SF of a result |
| X86Cpu.X86CPU.AddW | vm/ops/maths.cpp:90-117 | result and all six flags of an addition |
| X86Cpu.X86CPU.SubW | vm/ops/maths.cpp:48-75 | result and all six flags of a subtraction |
| X86Cpu.X86CPU.PushR | vm/ops/store.cpp:135-137 | PUSH r |
| X86Cpu.X86CPU.PopR | vm/ops/store.cpp:167-169 | POP r |
| X86Cpu.X86CPU.MovRImm | vm/ops/store.cpp:44-47 | MOV r, imm |
| X86Cpu.X86CPU.Pusha | vm/ops/store.cpp:305-316 | PUSHA, with the stack pointer as it was |
| X86Cpu.X86CPU.Popa | vm/ops/store.cpp:318-334 | POPA, skipping the saved stack pointer |
| X86Cpu.X86CPU.PopPointers | vm/ops/store.cpp:326-328 | its first three pops |
| X86Cpu.X86CPU.PopOthers | vm/ops/store.cpp:330-333 | its last four pops |
| X86Cpu.X86CPU.Enter | vm/ops/store.cpp:336-361 | ENTER: operands, `eip`, frame |
| X86Cpu.X86CPU.EnterFrame | vm/ops/store.cpp:343-360 | the frame for a given size and level |
| X86Cpu.X86CPU.EnterLoop | vm/ops/store.cpp:346-354 | the push loop, as a recursion over the levels |
| X86Cpu.X86CPU.LeaveFrame | vm/ops/store.cpp:363-366 | LEAVE |
| X86Cpu.X86CPU.JmpRelW | vm/ops/flow.cpp:43-49 | JMP rel |
| X86Cpu.X86CPU.CallRelW | vm/ops/flow.cpp:85-92 | CALL rel |
| X86Cpu.X86CPU.Retn | vm/ops/flow.cpp:94-97 | RET |
| X86Cpu.X86CPU.RetnImm16 | vm/ops/flow.cpp:131-136 | RET imm16 |
| X86Cpu.X86CPU.JccRel8 | vm/ops/flags.cpp:74-84 | short Jcc |
| X86Cpu.X86CPU.JccRelW | vm/ops/flags.cpp:86-95 | near Jcc |
| X86Cpu.X86CPU.IncR | vm/ops/maths.cpp:999-1003 | INC r |
| X86Cpu.X86CPU.DecR | vm/ops/maths.cpp:851-855 | DEC r |
| X86Cpu.X86CPU.DecodeModRm | vm/modrm.cpp:215-223 | the constructor of the decoder |
| X86Cpu.X86CPU.LeaveModRm | vm/modrm.cpp:225-229 | its destructor |
| X86Cpu.X86CPU.RmReadW | vm/modrm.cpp:283-316 | the operand, register or memory |
| X86Cpu.X86CPU.RmWriteW | vm/modrm.cpp:355-380 | the operand assigned |
| X86Cpu.X86CPU.Alu | vm/ops/maths.cpp:938-984 | the four two-operand operations |
| X86Cpu.X86CPU.AluRRm | vm/ops/maths.cpp:794-984 | op r, r/m, the destructor run on faults too |
| X86Cpu.X86CPU.AluRRmBody | vm/ops/maths.cpp:794-984 | the same between constructor and destructor |
| X86Cpu.X86CPU.AluGroup | vm/ops/groups.cpp:73-182 | groups 81 and 83 |
| X86Cpu.X86CPU.AluGroupBody | vm/ops/groups.cpp:73-182 | their selection by the extra field |
| X86Cpu.X86CPU.AluRmImm | vm/ops/maths.cpp:947-996 | op r/m, imm |
| X86Cpu.X86CPU.GroupF7 | vm/ops/groups.cpp:234-282 | IMUL and IDIV of group F7 |
| X86Cpu.X86CPU.ImulRm | vm/ops/maths.cpp:1180-1208 | IMUL r/m |
| X86Cpu.X86CPU.IdivRm | vm/ops/maths.cpp:1089-1123 | IDIV r/m |
| X86Cpu.X86CPU.GroupFF | vm/ops/groups.cpp:285-320 | group FF; CALL and JMP keep the destructor from moving `eip` |
| X86Cpu.X86CPU.GroupFFBody | vm/ops/groups.cpp:285-320 | its other members |
| X86Cpu.X86CPU.IncRm | vm/ops/maths.cpp:1011-1015 | INC r/m, CF put aside before the read and back after the write, on a refused access as in between |
| X86Cpu.X86CPU.DecRm | vm/ops/maths.cpp:863-867 | DEC r/m, likewise |
| X86Cpu.X86CPU.CallRm | vm/ops/flow.cpp:167-171 | CALL r/m, which pushes before it reads its operand |
| X86Cpu.X86CPU.JmpRm | vm/ops/flow.cpp:58-61 | JMP r/m |
| X86Cpu.X86CPU.MovsW | vm/ops/strings.cpp:41-44 | MOVS |
| X86Cpu.X86CPU.StosW | vm/ops/strings.cpp:87-90 | STOS |
| X86Cpu.X86CPU.CmpsW | vm/ops/strings.cpp:53-58 | CMPS, announcing itself when the byte before it is a REP |
| X86Cpu.X86CPU.ScasW | vm/ops/strings.cpp:75-80 | SCAS, likewise |
| X86Cpu.X86CPU.StringOp | vm/ops/etc.cpp:132 | the string opcodes at operand size |
| X86Cpu.X86CPU.Rep | vm/ops/etc.cpp:88-154 | REP/REPE/REPNE |
| X86Cpu.X86CPU.RepIteration | vm/ops/etc.cpp:130-153 | one iteration |
| X86Cpu.X86CPU.CountDown | vm/ops/etc.cpp:133-137 | the counter, by address size |
| X86Cpu.X86CPU.RepNext | vm/ops/etc.cpp:138-152 | where `eip` goes |
| X86Cpu.X86CPU.Basic | vm/x86lib.cpp:260-291 | the one-byte opcode table |
| X86Cpu.X86CPU.TwoByte | vm/x86lib.cpp:254-258 | the two-byte opcode table |
| X86Cpu.X86CPU.Dispatch | vm/x86lib.cpp:260-291 | the table with the prefixes |
| X86Cpu.X86CPU.OperandOverride | vm/ops/etc.cpp:227-233 | 0x66, with the next handler run inside |
| X86Cpu.X86CPU.AddressOverride | vm/ops/etc.cpp:236-242 | 0x67, likewise |
| X86Cpu.X86CPU.Cycle | vm/x86lib.cpp:260-291 | one instruction |
| X86Cpu.X86CPU.Exec | vm/x86lib.cpp:202-252 | up to n instructions, fewer when gas runs out or a stop is pending |

## Left out

- MemoryBus.MemorySystem.Read: a read that starts in one range and runs past it ends as `Spanning`, with nothing said of the bytes, because the split passes absolute addresses to the devices and miscounts the rest.
- MemoryBus.MemorySystem.Write: a write that does so ends as `Spanning` and leaves the devices as they are, while the code writes some bytes at a wrong offset.
- X86Cpu.X86CPU.AluGroup: OR, SBB, AND and XOR are an `Unmodelled` fault.
- X86Cpu.X86CPU.AluGroupBody: OR, SBB, AND and XOR are an `Unmodelled` fault.
- X86Cpu.X86CPU.GroupF7: TEST, NOT, NEG, MUL and DIV are an `Unmodelled` fault.
- X86Cpu.X86CPU.GroupFF: the far CALL and JMP are an `Unmodelled` fault.
- X86Cpu.X86CPU.GroupFFBody: the far CALL and JMP are an `Unmodelled` fault.
- X86Cpu.X86CPU.StringOp: the byte, port and LODS forms are an `Unmodelled` fault.
- X86Cpu.X86CPU.Basic: opcodes outside the modelled list are an `Unmodelled` fault.
- X86Cpu.X86CPU.TwoByte: two-byte opcodes other than Jcc are an `Unmodelled` fault.
- Reads and writes that pass a device's bounds test because its sum wraps: the model answers `Overrun` and says nothing of the bytes beyond the array.
- BusMachine.RunIsRequests: an instruction keeps no log of its accesses here, so the requests of a run are any that account for the memory it leaves.
- Device borders inside one processor access: the flat memory that the processor runs on has none.
- Devices that share storage: the refinement asks for one range per device.
- Streams of 2^31 bytes and more, whose loop index in the decompressor is a signed int; lengths are unbounded here, except where the code truncates them to 32 or 24 bits.
- Gas beyond 2^63: the counters are unbounded integers here.
- Opcodes other than those in `Isa.Basic` and `Isa.Extended`: they are an explicit `Unmodelled` fault, so a theorem about a run says nothing of runs that use one.  Of the ALU, one register and one immediate form of ADD, ADC, SUB and CMP stand for the rest.
- SBB, DIV, NEG, MUL, 8-bit IDIV and IMUL, group 82, JCXZ and LOOP, BCD, BOUND and FPU instructions.
- The ModRM forms of the rotates and double shifts: their helpers are modelled, the wrappers that read and write the operand are not.
- The byte, port and LODS string instructions under REP.
- Ports, interrupts and what `Exec` does with a fault before it gives up: a fault ends a run.
- LOCK, other processors and the bus lock; segment registers, which the emulator ignores; the interrupt flag.
- Tracing state: the list of visited addresses, opcode names, the dump.
- Prefix chains as long as the address space: they end in an `EndlessPrefixes` fault where the C++ code recurses without bound.
- The widths of the C++ host types beyond those named: `int` is taken to be 32 bits, `long` 64.
- `CallRuns.Balanced`: instructions that move the stack pointer other than CALL, RET, PUSH and POP are judged by their effect on it, and a run whose stack pointer wraps around zero does not balance.
- `RepRuns.RepMovsRun`: destinations that touch the bytes of the instruction itself are excluded; the instruction would change under its own run.
