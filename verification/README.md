# A verified model of an i386 user-mode emulator

The program interprets 32-bit x86 code over a flat guest memory, loads a static ELF image with its initial stack, and
answers Linux system calls. This project models its integer core and proves what the emulated machine computes.

- `Words`, `Memory`, `Flags`, `Bits`: 32-bit words, little-endian bounds-checked memory, the status flags over the
  integers, and the bit tricks that compute them.
- `Machine`: the state, operand decoding, the meaning of each modelled instruction, and `Step`/`Run`, the
  fetch-decode-execute loop. `Emulator` holds the same processor as the source has it, a class updated in place with
  packed flags, loops and recursion through prefixes, and proves that one turn of it is `Step` and n turns are `Run`.
- `Runs`, `Steps`, `Operands`, `Prefixed`: what every instruction keeps, prefix strings, reachable states, and operands
  encoded and decoded.
- `Arithmetic`, `ShiftBits`, `Conditions`, `StringOps`, `Transfers`: each instruction from its code bytes, behind
  prefixes and for every operand, in integers, bits and register numbers.
- `Overrides`: what read-modify-write instructions do under a GS prefix.
- `Limbs`, `BigAdd`, `Chains`, `Wide`, `BigMul`, `Strings`, `Stack`, `Shifts`, `Vsyscall`: programs. Each
  theorem takes a state with certain machine code in memory and says where running it ends.
- `Nesting`, `Recursion`: procedure calls in arbitrary runs, followed by a shadow stack.
- `Chunking`, `Loader`, `InitialStack`, `Allocators`: the segment loop, the initial stack with its parser, and the break
  and mmap2 arena over whole traces. `Program` puts the first two together; `GuestHeap` carries the last to runs of the
  machine.

The instructions outside the model and the host behind INT 0x80 are two functions, `World.other` and `World.syscall`;
every theorem holds for all of them. Where a theorem needs something of them it says so: `Runs.WellBehaved` (they keep
the non-status EFLAGS bits, the operand-size flag and HALTED, and at most consume the segment override, which is all the
handlers in `src/cpu/ops.c` do), `Emulator.Hosted` (they also keep the memory size) and `GuestHeap.Serves` (calls 45 and
192 are the allocators of `Allocators`). Memory sizes are below 2^32.

Where the code and its comments differ the model follows the code: the conditions commented as stubs for an
unimplemented parity flag do read PF, the arena starts at 0x0C000000, not at 0x10000000, and the
initial ESP is a multiple of 16, not 4 bytes below one.

## Model

| member | source | states |
|---|---|---|
| `GuestMemory.Memory.Load32` | src/mem/mem.c:53-59 | the four bytes, composed by shifts, are the little-endian number at the address; 0 when any of them is outside memory |
| `GuestMemory.Memory.Store32` | src/mem/mem.c:75-81 | the new contents are the little-endian store; an address out of range changes nothing |
| `GuestMemory.Memory.StoreBytes` | src/mem/mem.c:83-86 | all of the bytes are copied or none |
| `GuestMemory.ReadOwnWrite` | src/mem/mem.c:53-81 | a word written in range reads back |
| `GuestMemory.WriteOwnRead` | src/mem/mem.c:53-81 | writing back the word just read changes nothing, in range or not |
| `GuestMemory.WriteFrame` | src/mem/mem.c:75-81 | a word write touches only its four bytes |
| `GuestMemory.AccessIs` | src/mem/mem.c:43-81 | 8-, 16- and 32-bit accesses are the little-endian bytes at the address; with any byte outside, a read is 0 and a write nothing |
| `Flags.AluExact` | src/cpu/ops.c:796-846 | result and carry together are the exact sum or difference: nothing is lost in 32 bits |
| `Flags.AluOverflow` | src/cpu/ops.c:64-76 | OF, set from sign bits, is overflow of the signed sum or difference, including the carry consumed by ADC and SBB |
| `Flags.CmpConditions` | src/cpu/ops.c:1271-1347 | after CMP each of the sixteen conditions is the signed, unsigned, equality, sign, overflow or parity fact about the integer operands |
| `Bits.OverflowTricks` | src/cpu/ops.c:64-76 | the two xor/and/shift expressions equal the sign rules of addition and subtraction, by induction over the bits |
| `Bits.ParityFolds` | src/cpu/ops.c:45-52 | three xor-shifts leave the parity of the whole byte in bit 0 |
| `Bits.AlignMasks` | src/loader/loader.c:147-204 | masking with ~0xFFF and ~0xF rounds down to a multiple of 4096 and 16 |
| `Bits.UnpackBits` | src/cpu/ops.c:8-12 | CF, PF, ZF, SF and OF are bits 0, 2, 6, 7 and 11 of the packed register |
| `Emulator.Cpu.constructor` | src/cpu/cpu.c:8-12 | the fresh processor represents the reset state: all zero, EFLAGS 0x002 |
| `Emulator.Cpu.SetCf` | src/cpu/ops.c:40-43 | changes the CF field of the packed register and nothing else |
| `Emulator.Cpu.SetPf` | src/cpu/ops.c:45-52 | PF becomes even parity of the low byte, computed by folding |
| `Emulator.Cpu.SetZf` | src/cpu/ops.c:54-57 | ZF becomes result == 0, other fields kept |
| `Emulator.Cpu.SetSf` | src/cpu/ops.c:59-62 | SF becomes the sign of the result, other fields kept |
| `Emulator.Cpu.SetOfAdd` | src/cpu/ops.c:64-69 | OF becomes the sign rule of addition |
| `Emulator.Cpu.SetOfSub` | src/cpu/ops.c:71-76 | OF becomes the sign rule of subtraction |
| `Emulator.CarryTests` | src/cpu/ops.c:978-1047 | the carry comparisons on the truncated result (`result < a`, `cf && result == a`, `a < b + cf`, `b == 0xFFFFFFFF`) are exactly carry and borrow out |
| `Emulator.Cpu.ParseModRm` | src/cpu/ops.c:101-136 | stepwise parsing yields the operand and end address of the decoder function, every ModR/M and SIB case |
| `Emulator.Cpu.Resolve` | src/cpu/ops.c:138-159 | base, scaled index, displacement and segment base added one by one with wrap-around give the address; the override is consumed |
| `Emulator.Cpu.ReadRm32` | src/cpu/ops.c:161-164 | operand value; a register read leaves the override pending |
| `Emulator.Cpu.WriteRm32` | src/cpu/ops.c:166-169 | operand update in register or memory |
| `Emulator.Cpu.OpAluRmR` | src/cpu/ops.c:978-993 | ADD, ADC, SBB, SUB and CMP with r/m destination: new state is the architectural one over the integers |
| `Emulator.Cpu.OpAluRRm` | src/cpu/ops.c:1032-1047 | the same with a register destination |
| `Emulator.Cpu.OpAluEaxImm` | src/cpu/ops.c:1335-1347 | the same with EAX and an immediate |
| `Emulator.Cpu.OpIncDec` | src/cpu/ops.c:1350-1375 | adds or subtracts one, all status flags but CF |
| `Emulator.Cpu.OpNeg` | src/cpu/ops.c:3222-3232 | two's-complement negation with its flags |
| `Emulator.Cpu.OpMul` | src/cpu/ops.c:3233-3240 | EDX:EAX is the full product |
| `Emulator.Cpu.OpDiv` | src/cpu/ops.c:3249-3263 | quotient truncated to 32 bits and remainder; a zero divisor changes nothing |
| `Emulator.Cpu.ShiftBy` | src/cpu/ops.c:2072-2121 | SHL/SHR/SAR/ROL/ROR of the operand by a count, the rotates joining their parts by OR |
| `Emulator.Cpu.OpD1` | src/cpu/ops.c:2245-2293 | the by-one group |
| `Emulator.Cpu.OpD3` | src/cpu/ops.c:2347-2396 | the by-CL group |
| `Emulator.Cpu.OpMovRmR` | src/cpu/ops.c:1809-1821 | MOV to r/m, 16-bit under the operand-size prefix |
| `Emulator.Cpu.OpMovRRm` | src/cpu/ops.c:1836-1849 | MOV from r/m, 16-bit under the operand-size prefix |
| `Emulator.Cpu.OpLea` | src/cpu/ops.c:1852-1858 | the address itself, the override consumed |
| `Emulator.Cpu.JccShortTaken` | src/cpu/ops.c:1470-1497 | the switch of the short jumps equals the common condition function |
| `Emulator.Cpu.JccNearTaken` | src/cpu/ops.c:499-527 | the switch of the near jumps equals it |
| `Emulator.Cpu.SetccTaken` | src/cpu/ops.c:530-561 | the switch of SETcc equals it |
| `Emulator.Cpu.CmovccTaken` | src/cpu/ops.c:275-304 | the switch of CMOVcc equals it |
| `Emulator.Cpu.OpPush` | src/cpu/ops.c:1378-1383 | ESP is lowered before the register is read |
| `Emulator.Cpu.OpPop` | src/cpu/ops.c:1386-1391 | the register is loaded before ESP is raised |
| `Emulator.Cpu.OpCall` | src/cpu/ops.c:2815-2825 | pushes the address after the call and jumps relative to it |
| `Emulator.Cpu.OpRet` | src/cpu/ops.c:2134-2139 | pops EIP |
| `Emulator.Cpu.OpLeave` | src/cpu/ops.c:2164-2179 | ESP from EBP and EBP popped, 32 or 16 bits |
| `Emulator.Cpu.OpScasb` | src/cpu/ops.c:1998-2009 | byte compare at EDI through setters that look at bit 31 |
| `Emulator.Cpu.RepLoop` | src/cpu/ops.c:3024-3066 | the loop ends in the state of the recursive REP function, for all four string operations |
| `Emulator.Cpu.RepneLoop` | src/cpu/ops.c:2857-2872 | the loop with its early exit ends in the state of the recursive REPNE SCASB function |
| `Emulator.Cpu.Syscall` | src/syscall/syscall.c:44-300 | the host sees seven registers, memory, thread base and its own state, and may set EAX, memory, thread base and its state; EIP, ESP and EFLAGS are untouched |
| `Emulator.Cpu.OpInt` | src/cpu/ops.c:2182-2192 | vector 0x80 reaches the host, any other halts |
| `Emulator.Cpu.OpFF` | src/cpu/ops.c:3333-3340 | CALL r/m32: target read first, then the push |
| `Emulator.Cpu.ExecuteOpcode` | src/cpu/ops.c:3522-3524 | execution through any nesting of prefixes equals the recursive step function, and terminates |
| `Emulator.Cpu.Emulate` | src/cpu/cpu.c:14-30 | n turns of the loop, stopping at a halt, equal n steps of the model |
| `Runs.StepKeeps` | src/cpu/ops.c:3370-3524 | every instruction through every prefix keeps the non-status EFLAGS bits and never withdraws HALTED |
| `Runs.ReachableSettled` | src/cpu/cpu.c:8-30 | in every state reachable from reset EFLAGS is 0x002 plus status bits and no prefix is pending |
| `Runs.PrefixString` | src/cpu/ops.c:1394-1419 | behind any prefix string the instruction starts with 16-bit mode on iff 0x66 occurred and segment base GS iff 0x65 occurred; both are undone afterwards |
| `Runs.PrefixesReset` | src/cpu/ops.c:214-219 | between instructions nothing is left of the prefixes |
| `Prefixed.PrefixesIgnored` | src/cpu/ops.c:1394-1419 | an instruction without a ModR/M operand (counts, stack, jumps, calls, immediates, string operations with and without REP, system calls) does behind any prefix bytes exactly what it does without them |
| `Operands.RoundTrip` | src/cpu/ops.c:101-159 | every legal encoding of every operand is consumed in exactly its length and addresses base + index*2^scale + disp + segment modulo 2^32 |
| `Operands.Reencodes` | src/cpu/ops.c:101-136 | every operand lying in memory is the encoding of a legal operand |
| `Operands.Unambiguous` | src/cpu/ops.c:101-136 | one byte string encodes at most one operand and register field |
| `Operands.MovRuns` | src/cpu/ops.c:1836-1849 | a MOV with any prefix string and operand loads that operand's value (at GS base if prefixed, its low half if the operand-size prefix occurs) and ends behind its last byte |
| `Arithmetic.IntoOperand` | src/cpu/ops.c:796-810 | from its bytes behind any prefixes, for every operand: ADD, ADC, SBB, SUB leave U32 of the exact a+b, a+b+c, a-b-c, a-b in the operand (CMP stores nothing); ZF, SF, PF describe that value, CF and OF say that the exact unsigned or signed result does not fit; nothing else changes |
| `Arithmetic.IntoRegister` | src/cpu/ops.c:832-846 | the same into the register, with the operand as source |
| `Arithmetic.IntoEax` | src/cpu/ops.c:849-862 | the same for EAX and an immediate |
| `Arithmetic.CountsByOne` | src/cpu/ops.c:1350-1375 | INC and DEC add 1 and -1, describe the result in ZF, SF and PF and its overflow in OF, and keep CF |
| `Arithmetic.Complements` | src/cpu/ops.c:3217-3221 | NOT from its bytes, any operand, behind any prefixes |
| `Arithmetic.Negates` | src/cpu/ops.c:3222-3232 | NEG from its bytes: CF says the operand was not 0, OF that it was 0x80000000, PF is left alone |
| `Arithmetic.Multiplies` | src/cpu/ops.c:3233-3240 | MUL from its bytes: EDX:EAX is the exact product, CF says it needs EDX, no other flag changes |
| `Arithmetic.Divides` | src/cpu/ops.c:3249-3263 | DIV from its bytes: truncated quotient and remainder of EDX:EAX; a divisor 0 is stepped over |
| `Transfers.StoreRuns` | src/cpu/ops.c:1809-1821 | MOV to any operand, from its bytes behind any prefixes: at the GS base if prefixed, the low half only under the operand-size prefix |
| `Transfers.LeaRuns` | src/cpu/ops.c:1852-1858 | LEA of any operand behind any prefixes: all 32 bits of base + index*2^scale + disp + segment base, 0 for a register |
| `Transfers.CallRuns` | src/cpu/ops.c:3333-3340 | CALL of any operand behind any prefixes: the target is the operand as it was before the push of the address behind the instruction |
| `Transfers.CallNear` | src/cpu/ops.c:2815-2825 | CALL rel32 from its bytes |
| `Transfers.Returns` | src/cpu/ops.c:2134-2139 | RET from its byte, with any ESP |
| `Transfers.Jumps` | src/cpu/ops.c:2828-2842 | JMP short and near, the short displacement signed |
| `Transfers.Pushes` | src/cpu/ops.c:1378-1383 | PUSH of every register; PUSH ESP stores the lowered ESP |
| `Transfers.Pops` | src/cpu/ops.c:1386-1391 | POP of every register; POP ESP ends 4 above the word popped |
| `Transfers.Leaves` | src/cpu/ops.c:2164-2179 | LEAVE: ESP from EBP, EBP from the old frame |
| `Transfers.LeavesHalf` | src/cpu/ops.c:2164-2179 | LEAVE under the operand-size prefix: SP from BP, only BP popped, the step of 2 carrying into the high half |
| `Transfers.LoadsImmediate` | src/cpu/ops.c:2013-2018 | MOV r, imm32 from its bytes |
| `Transfers.PassesOrHalts` | src/cpu/ops.c:3076-3089 | NOP changes only EIP, HLT stops the machine |
| `Transfers.UnknownVector` | src/cpu/ops.c:2182-2192 | INT with any vector but 0x80 stops the machine |
| `Conditions.ShortDecides` | src/cpu/ops.c:1470-1497 | after a CMP the short jump is taken iff the integer relation holds |
| `Conditions.NearDecides` | src/cpu/ops.c:499-527 | the near jump likewise |
| `Conditions.SetDecides` | src/cpu/ops.c:530-561 | SETcc stores 1 iff it holds, 0 otherwise, in any byte register or byte of memory |
| `Conditions.ScasbConditions` | src/cpu/ops.c:1998-2009 | after SCASB the unsigned conditions hold as named, SF and OF are clear, JL is never taken and is right exactly when AL is not below the byte as signed bytes |
| `Conditions.MoveDecides` | src/cpu/ops.c:275-304 | CMOVcc moves iff it holds, for every operand |
| `Conditions.CmpImmediate` | src/cpu/ops.c:1335-1347 | CMP EAX, imm32 from memory sets the flags of the integer comparison and nothing else |
| `Conditions.CompareAndJump` | src/cpu/ops.c:1271-1318 | the two-instruction program CMP; Jcc on any operand |
| `Conditions.JumpsIf` | src/cpu/ops.c:499-527 | short and near jumps on any flags: eight conditions, each followed by its negation |
| `Conditions.SetRuns` | src/cpu/ops.c:530-561 | SETcc on any flags, behind any prefixes: 1 or 0 in a byte of memory or in bits 0-7 or 8-15 of the register named |
| `Conditions.MoveRuns` | src/cpu/ops.c:275-304 | CMOVcc on any flags, behind any prefixes |
| `BigAdd.CarryLoop` | src/cpu/ops.c:978-1029 | the 13-byte ADC/SBB loop over n memory words computes the n-word sum or difference with carry in and out, touching nothing else |
| `Chains.RunChain` | src/cpu/ops.c:796-846 | any run whose links are ADD then ADCs (or SUB then SBBs), with CF-neutral instructions between them, produces the multi-word result modulo 2^(32n) with CF the carry out |
| `Chains.RunCompare` | src/cpu/ops.c:1032-1047 | CMP or SUB then SBBs: JB/JAE decide the unsigned and JL/JGE the signed comparison of the n-word numbers |
| `Wide.Add64` | src/cpu/ops.c:978-993 | add eax,ebx; adc edx,ecx: EDX:EAX and CF are the exact sum of the register pairs |
| `Wide.Compare64` | src/cpu/ops.c:1271-1284 | cmp eax,ebx; sbb edx,ecx; jl: taken iff EDX:EAX < ECX:EBX as signed 64-bit numbers |
| `Chains.LinkStores` | src/cpu/ops.c:978-1047 | each link stores its result in the operand it names and nowhere else; a pending segment base does not take part in the store |
| `BigMul.DivLoop` | src/cpu/ops.c:3249-3263 | the DIV loop over n words from the top: dividend = quotient * d + remainder, remainder < d |
| `BigMul.DivExactIff` | src/cpu/ops.c:3249-3263 | the 32-bit quotient is not truncated exactly when EDX < divisor |
| `BigMul.MulLoop` | src/cpu/ops.c:3233-3240 | the MUL/ADD/ADC loop: product words and final carry are the exact n+1 word product |
| `BigMul.MulThenDiv` | src/cpu/ops.c:3233-3263 | dividing the product by the factor returns the original words with remainder 0 |
| `Strings.RepMovsbExact` | src/cpu/ops.c:3024-3034 | under any overlap final[dst+i] is old[src + i mod d] for d = EDI-ESI > 0 and old[src+i] otherwise; other bytes kept, ECX 0, ESI and EDI advanced |
| `Strings.RepMovsdIsMovsb` | src/cpu/ops.c:3035-3046 | REP MOVSD n is REP MOVSB 4n in the whole state, unless 0 < EDI-ESI < 4 |
| `Strings.WordCopyIff` | src/cpu/ops.c:3024-3046 | word and byte copies agree on every memory exactly when not 0 < dst-src < 4 (or nothing is copied) |
| `Strings.StepRep` | src/cpu/ops.c:2945-2950 | F3 with the opcode of a string operation, executed from memory, is that REP loop and ends behind its two bytes |
| `Strings.RepIsIter` | src/cpu/ops.c:1926-1941 | each REP form is ECX runs of its single-step handler, with ECX then 0 |
| `Strings.RepneExact` | src/cpu/ops.c:2857-2872 | the scan stops just behind the first match or exhausts ECX, and ZF tells which when ECX started above 0 |
| `Strings.Strlen` | src/cpu/ops.c:2853-2872 | REPNE SCASB; NOT ECX; DEC ECX leaves the length of the string |
| `Strings.RepneFlags` | src/cpu/ops.c:2857-2872 | the flags after the scan are those of comparing AL with the byte read last |
| `StringOps.MovesOne` | src/cpu/ops.c:1926-1941 | MOVSB and MOVSD from their byte |
| `StringOps.StoresOne` | src/cpu/ops.c:1982-1995 | STOSB stores AL, STOSD stores EAX, and only EDI moves on |
| `StringOps.ScansOne` | src/cpu/ops.c:1998-2009 | SCASB from its byte: unsigned comparison in CF and ZF, SF and OF clear, PF kept |
| `StringOps.RepCopiesBytes` | src/cpu/ops.c:3024-3034 | F3 A4 copies ECX bytes under any overlap |
| `StringOps.RepCopiesWords` | src/cpu/ops.c:3035-3046 | F3 A5 copies ECX words; byte for byte unless the destination starts inside the first source word |
| `StringOps.RepStores` | src/cpu/ops.c:3047-3066 | F3 AA and F3 AB fill ECX bytes with AL or words with EAX and nothing else; ECX ends 0, EDI behind them |
| `StringOps.RepScans` | src/cpu/ops.c:2857-2872 | F2 AE ends where the first match or the count ends it, with the flags of the last comparison |
| `Nesting.BalancedRun` | src/cpu/ops.c:1378-1391 | every run whose pushes, calls and frames are closed again, with any other instructions, branches and depth, restores ESP and EBP and keeps every byte at or above the entry ESP |
| `Nesting.RetResumes` | src/cpu/ops.c:2134-2139 | every RET of such a run resumes just behind its CALL with the ESP and EBP the CALL found |
| `Nesting.StepFollows` | src/cpu/ops.c:2164-2179 | one instruction keeps the shadow stack exact: PUSH, POP, CALL rel32 and r/m32, RET, MOV EBP,ESP, LEAVE, and anything else that leaves the live words alone |
| `Recursion.CallReturns` | src/cpu/ops.c:2815-2825 | a procedure that calls itself under a condition returns, balanced, at every depth |
| `Stack.Balanced` | src/cpu/ops.c:2164-2179 | code built from nested PUSH/POP pairs, calls and frames, lying in memory, does run to its end, with ESP and EBP restored and writes only below the entry ESP and in the frame's own slots |
| `Shifts.ShiftByOne` | src/cpu/ops.c:2072-2121 | for every kind, value and count 1..31, value and flags equal those of n by-one shifts |
| `Shifts.ShiftIsRepeated` | src/cpu/ops.c:2245-2293 | for the whole state and any operand, one shift by n is n shifts by one; with a pending segment override exactly when the result can be stored, the operand is 0, n is 1, or the shift leaves the flags of 0 |
| `Shifts.ShiftPrograms` | src/cpu/ops.c:2072-2121 | C1 operand,n and n times D1 operand end in the same state but for EIP |
| `Shifts.ShiftProgramsCl` | src/cpu/ops.c:2347-2396 | D3 with the count in CL likewise |
| `Shifts.RotatesRestore` | src/cpu/ops.c:2079-2088 | ROL n then ROR n (or the reverse) changes nothing but CF; with a pending override exactly when the operand is the value at the place of the store, or that place is out of range |
| `ShiftBits.ShiftRuns` | src/cpu/ops.c:2072-2121 | C1, D1 and D3 from their bytes behind any prefixes, for every operand, by literal reg field and count 1..31: 4 and 6 store v*2^n mod 2^32, 5 stores floor(v/2^n), 7 stores floor(Signed(v)/2^n) mod 2^32, 0 and 1 move bit i to i+n or i-n mod 32; CF is the last bit moved out; ZF and SF describe the result of a shift; a count of 0 keeps the value |
| `ShiftBits.NoSuchShift` | src/cpu/ops.c:2115-2119 | reg fields 2 and 3 stop the machine |
| `Overrides.RewritesInPlace` | src/cpu/ops.c:156-169 | behind any prefix string ADD, ADC, SBB, SUB, NOT, NEG and the shifts store where they read exactly when the operand is a register, no 0x65 occurs, or the thread base is 0 |
| `Overrides.LostUpdate` | src/cpu/ops.c:797-805 | 65 01 05 disp32 with a thread base leaves its operand unchanged and changes another word |
| `Vsyscall.TrampolineIsInt` | src/main.c:35-39 | CALL gs:[0x10] through INT 0x80; RET ends as an INT 0x80 in place does, but for EIP and the four bytes below ESP |
| `Loader.Zero` | src/loader/loader.c:118 | the byte loop clears exactly its range |
| `Loader.CopyChunks` | src/loader/loader.c:125-137 | the 4096-byte loop with its short-read exit equals the recursive chunk copy |
| `Chunking.ChunksWhole` | src/loader/loader.c:125-137 | chunked copying is one copy of a block that fits |
| `Chunking.WholeArrives` | src/loader/loader.c:125-137 | a block that fits, or that a chunk boundary cuts at the end of memory without wrapping, arrives in the memory there is and changes nothing else |
| `Chunking.PartFails` | src/loader/loader.c:125-137 | any other block goes wrong for some memory and file |
| `Loader.PlacedIff` | src/loader/loader.c:105-138 | an accepted segment is placed right for every file and memory exactly under that condition |
| `Loader.ChunkLost` | src/loader/loader.c:105-138 | an accepted header whose bytes inside memory are not loaded |
| `Loader.LoadSegments` | src/loader/loader.c:93-147 | the header loop ends in the state of the fold over the headers; load_end is the rounded end |
| `Loader.LoadedBytes` | src/loader/loader.c:93-147 | every byte of memory is decided by the last header that covers it: file byte, or zero past filesz |
| `Loader.SegmentsLoaded` | src/loader/loader.c:93-147 | disjoint segments each hold their file bytes then zeros; all other bytes unchanged |
| `Loader.LoadSucceeds` | src/loader/loader.c:103-133 | loading succeeds exactly when every PT_LOAD segment is in memory and its bytes are in the file; the running end is the largest segment end |
| `Loader.LoadEndLeast` | src/loader/loader.c:140-147 | load_end is the least page multiple not below any segment end |
| `Loader.FirstIsBase` | src/loader/loader.c:90-113 | load_addr is the address of the first header of type 1 with a size, however many follow |
| `Loader.NothingLoaded` | src/loader/loader.c:90-113 | without such a header nothing is loaded and load_addr is 0 |
| `Loader.PageUpLeast` | src/loader/loader.c:147 | rounding up is not below its argument exactly up to 0xFFFFF000, and is then least |
| `InitialStack.Cursor.Put32` | src/loader/loader.c:44-47 | appends one word to the block written so far |
| `InitialStack.CopyStrings` | src/loader/loader.c:207-214 | strings laid end to end with terminators, their addresses recorded |
| `InitialStack.BuildStack` | src/loader/loader.c:178-261 | the memory and ESP of the specified layout, at most 63 arguments |
| `InitialStack.StackParses` | src/loader/loader.c:178-261 | parsing from ESP recovers argc, every argument string in order, an empty environment and the sixteen auxiliary pairs ending in AT_NULL |
| `InitialStack.LayoutFits` | src/loader/loader.c:187-204 | header block, strings and AT_RANDOM bytes follow each other inside memory without overlap; ESP is 16-byte aligned |
| `InitialStack.StackKeeps` | src/loader/loader.c:217-221 | the AT_RANDOM words read back and nothing outside the block changes |
| `InitialStack.AuxFound` | src/loader/loader.c:233-253 | looking each type up in the vector found by the parser gives the program header address, size and count, the entry point, the page size, the ids, the capabilities and the clock; AT_RANDOM leads to the sixteen bytes |
| `InitialStack.LayoutTight` | src/loader/loader.c:187-204 | less than 16 bytes are left free between the random bytes and the last word of memory, and between header block and strings |
| `InitialStack.PassedOn` | src/loader/loader.c:179-180 | the first 63 arguments |
| `Program.LoadElf` | src/loader/loader.c:89-269 | segment loop, AT_PHDR = load_addr + e_phoff and initial stack as one call; nothing of it after a failure |
| `Program.SegmentsStart` | src/loader/loader.c:89-269 | every segment still holds its file bytes and zeros when the stack has been built above it |
| `Program.ProgramFinds` | src/loader/loader.c:152-253 | the program finds its arguments, its entry point and, under AT_PHDR, the first loaded segment's address plus e_phoff |
| `Program.HeadersFound` | src/loader/loader.c:152-154 | what lies there is the file from that segment's offset plus e_phoff on: the program headers when that segment starts the file |
| `Allocators.Allocator.InitBrk` | src/syscall/backend_win32.c:457-460 | sets the break and nothing else |
| `Allocators.Allocator.InitArena` | src/syscall/backend_win32.c:115-119 | sets the arena pointer and nothing else |
| `Allocators.Allocator.SysMmap2` | src/syscall/backend_win32.c:297-351 | state and outcome of every path: EINVAL, ENOSYS, MAP_FIXED, ENOMEM, EFAULT, grant |
| `Allocators.Allocator.SysBrk` | src/syscall/backend_win32.c:462-480 | the break moves up inside memory or stays; the chunk header is written in front of gains of 8 bytes or more |
| `Allocators.GrantSound` | src/syscall/backend_win32.c:303-337 | a region handed out lies below the arena limit exactly when neither the rounded length nor the pointer wraps |
| `Allocators.GrantsUnsound` | src/syscall/backend_win32.c:303-347 | two requests for which it does not |
| `Allocators.RegionGranted` | src/syscall/backend_win32.c:297-351 | over any trace of mmap2, brk and program writes whose arena calls do not wrap: page-aligned, inside memory and the arena, zero when granted, nothing else touched |
| `Allocators.RegionsDisjoint` | src/syscall/backend_win32.c:331-337 | regions of one trace never overlap |
| `Allocators.HeapBelow` | src/syscall/backend_win32.c:462-480 | the heap stays below every region while requested breaks stay at or below the arena base |
| `Allocators.BrkMonotone` | src/syscall/backend_win32.c:462-480 | over every trace the break never moves down |
| `Allocators.PtrMonotone` | src/syscall/backend_win32.c:331-337 | the arena pointer never moves down and stays on a page |
| `Allocators.TraceFrame` | src/syscall/backend_win32.c:297-480 | bytes outside the memory gained change only by the program's own writes and MAP_FIXED calls that name their page |
| `Allocators.BrkStep` | src/syscall/backend_win32.c:462-480 | growth alters only bytes in [old break, new break) |
| `Allocators.BrkAnswers` | src/syscall/backend_win32.c:462-480 | the break moves to every request that is neither 0, below it nor outside memory, and stays otherwise; a gain of 8 bytes or more, and no other, puts 0 and the gain with bit 0 set at the old break |
| `Allocators.MmapRefuses` | src/syscall/backend_win32.c:299-312 | length 0 is error 22; a file without MAP_ANONYMOUS is error 38 |
| `Allocators.FixedAnswers` | src/syscall/backend_win32.c:314-329 | with MAP_FIXED: the pages named are granted and cleared when they are in memory, else error 12 (14 at the very end) |
| `Allocators.ArenaAnswers` | src/syscall/backend_win32.c:330-350 | without it: granted at the arena pointer exactly when the end, modulo 2^32, is at most 1 MB below the end of memory, else error 12 and no change |
| `Allocators.StartSeparate` | src/main.c:51-79 | start-up places the heap below the arena exactly when the image does not end at a multiple of 16 MB from 0x0C000000 on or in the last 16 MB |
| `Allocators.StartCollides` | src/main.c:51-79 | with an image ending at 0x0C000000 the first region granted clears the thread block |
| `GuestHeap.StepMoves` | src/syscall/syscall.c:88-157 | with calls 45 and 192 served as brk(EBX) and mmap2(EBX, ECX, ESI, EDI), every instruction either is such a call, with its result in EAX, or leaves break and arena pointer alone |
| `GuestHeap.RunHeap` | src/syscall/syscall.c:88-157 | the heap of the machine after any run is the heap of the trace of its calls |
| `GuestHeap.RunRegion` | src/syscall/backend_win32.c:297-351 | over every run, a region the machine obtains is page-aligned, in the arena, zero, at the address in EAX, and the only memory its call touches |
| `GuestHeap.RunRegionsDisjoint` | src/syscall/backend_win32.c:331-337 | regions obtained in one run never overlap |
| `GuestHeap.RunBrk` | src/syscall/backend_win32.c:462-480 | the break of the machine never moves down |
| `GuestHeap.HostIsAsked` | src/syscall/syscall.c:44-52 | INT 0x80 from its bytes: the host gets EAX, EBX, ECX, EDX, ESI, EDI and EBP under their own names; the answer is in EAX, an exit stops the machine |
| `GuestHeap.BrkIsServed` | src/syscall/syscall.c:88-90 | with EAX 45 the break moves as brk(EBX) does and is returned in EAX; no other register changes |
| `GuestHeap.MmapIsServed` | src/syscall/syscall.c:154-157 | with EAX 192 the heap changes as mmap2(EBX, ECX, ESI, EDI) does; EAX is the address, or minus the error |

## Left out

- Handlers not modelled, left to `World.other`: 8-bit arithmetic and moves, logic, XCHG, immediate groups 0x80/0x81/0x83,
  IMUL, IDIV, TEST, the other members of 0xF6/0xF7/0xFF, BSF/BSR, CPUID, x87, MMX and SSE. Their own registers are the
  opaque field `ext` of the state.
- The cycle counter, tracing and all printing.
- Emulator.Cpu.Emulate: runs at most n turns, because the loop itself need not end.
- Emulator.Cpu.ExecuteOpcode: for an opcode outside the model the new state is that of `World.other`, under
  `Emulator.Hosted`.
- Emulator.Cpu.Syscall: apart from mmap2 and brk (`GuestHeap.Serves`), what a call does is any function of what it can
  see, with `host` standing for what the host remembers; files and exit codes are not modelled.
- Runs.StepKeeps: for the opcodes outside the model it takes `Runs.WellBehaved` as given.
- Runs.ReachableSettled: the same.
- Reading the ELF header and the program headers from the file, and their format checks: headers are given as records.
- Loader.LoadedBytes: takes headers for which `Loader.PlacedIff` gives the condition; for the others the code drops or
  misplaces whole chunks, as `Loader.ChunkLost` shows.
- Allocators.Allocator.SysMmap2: clearing past the end of guest memory is undefined in C and is the outcome `Overrun`.
- Allocators.RegionGranted: regions named by MAP_FIXED calls may lie anywhere and are not claimed to be disjoint.
- Shifts.ShiftPrograms: stated without prefixes; a segment prefix on a memory operand makes each shift store elsewhere
  (`Overrides.RewritesInPlace`).
- Stack.Balanced: its bodies are increments and stores to local slots; arbitrary bodies and branches are the subject of
  `Nesting.BalancedRun`, which does not say that the run ends.
- PUSH ESP and POP ESP are no matching pair for the nesting theorem: the first takes room like any other instruction, the
  second is followed only if it happens to give that room back.
- Rotates by 0 shift by 32 in C, which is undefined; both usual results leave the value unchanged, and so does the model.
- The thread-block fill at start-up.
