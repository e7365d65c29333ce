# Verification of tenyr in Dafny

tenyr is a 32-bit instruction set with an assembler, a linker, an interpreter, a JIT, a Verilog
core, SPI devices and a small Forth. Several independent implementations of one meaning have to
agree, and several writers and readers have to undo each other. This project models those parts
and proves that they do, for every program, every input and every run; where the code meets its
promise only under a condition, it proves that condition. `dafny verify dfyconfig.toml` checks it.

| module | what it models |
|---|---|
| Options, Words | missing values; 32-bit words and the C operators on them |
| Isa | instruction encoding, the one-step meaning, and the interpreter as a class |
| X86, JitCompiler, Jit | a small x86 with ZF, CF, SF and OF; the emitted code; the hooks, the block cache and the run loop |
| Core | the seven-state core, its four-deep Exec pipeline and the block RAM, clock edge by clock edge |
| Reloc, Assembler, Linker, Linking | expressions and relocations, the two passes, link-time patching, and the linking theorems |
| Cut, LinkedCode | which statements survive a cut constant; statements with symbolic constants, from the parser through the linker to the processor |
| Syntax, Disasm | statement forms and their desugaring; the disassembler and the grammar it is read back by |
| Forth | the recursive meaning of words, and the indirect-threaded inner interpreter |
| Rand, Arith | library routines on wrapping registers |
| Spi, SpiMaster, SpiState | the 128-bit shift register, the master as a state machine, and the device as a class over its register array |
| SdCard, SpiSystem | the card, and master and card together |
| ObjFormat, ObjStream, ObjFile | the object format as a byte stream, its writer and reader, and assembled objects as files |
| Memh, SparseRam | the sparse text format; paged memory and the address dispatcher |

Code that changes things step by step is modelled by classes and loops, each proved against a
specification function; the theorems are about those functions. A C or hardware quirk is kept as
it is. Terms used below: a right-hand side is `a op b + c`; a block is the straight-line code up
to the first instruction that writes P; a unit is one assembled source file.

## How the main results hang together

- `Isa.Step` is the reference. `Jit.JitState` keeps, through every hook and every compiled block,
  that the machine is a state of the pure interpreter's run. `Core.CoreRefines` says the same of
  the circuit, and `Core.HaltStops` and `Core.Released` when it stops and goes on. Both rest on an
  if-and-only-if for the right-hand side (`JitCompiler.RhsAgreement`, `Core.AluAgrees`): interpreter
  and others differ on a left shift by 32 or more with an addend.
- `Linking.FieldExactly` is the linking theorem: for every expression of sums, differences, unary
  operators, products with a fixed factor and shifts by a fixed count it says exactly when the
  linked field is the value at final addresses. It comes from
  `Reloc.Moves` (what the value should move by) and `Reloc.TotalIs` (what the linker adds).
  `Linking.LinkedMeaning` is the case in which nothing has the wrong sign; `Linking.Build` says
  exactly which sets of units assemble and link at all.
- `Disasm.LineMeans`, `Syntax.DesugarExact` and `Disasm.ProgramRoundTrip` tie source text to words in
  both directions;
  `LinkedCode.LinkedExactly` joins statements, linking and execution by way of `Cut.EverywhereExact`.
- `Forth.RunWord` refines the recursive meaning of words; 2SWAP and 2OVER follow.
- `SpiMaster.Transfer`, `SdCard.Answers` and `SpiSystem.CommandAnswered` go from register bits to
  an answered SD command; `SpiMaster.TransferFromWrites` and `SpiSystem.CommandFromWrites` put both
  on the bus, from the driver's register writes to the byte it reads.
- `Rand.FullPeriod`, `ObjFormat.RoundTrip`, `Memh.RoundTrip`, `SparseRam.Replay` and the routines
  of `Arith` are exact statements, with the inputs where the code falls short.

## Where the code differs from what one would expect

- A left shift by 32 or more drops the addend in the interpreter only (src/sim.c:41-42).
- A store with Z = P in a compiled block misses the offset that operands get (src/jit.cc:201-202).
- The linker ignores the negation flag on named relocations (src/tld.c:165-176), a unary operator
  or a factor does not reach relocations at all (src/asmif.c:156-190), so `2 * .` is linked wrongly,
  the assembler scales a value but not its relocation (src/asmif.c:240), and a relocation one past
  the end of a record passes the bounds test (src/tld.c:156-157).
- A wide addend next to `^^` is cut silently (src/parser.y:516-519).
- The SD card keeps five of six command index bits (src/devices/spisd.c:311), so commands 32 and 33
  are obeyed as 0 and 1; the other indices from 34 on fall on commands that do nothing either way.
- The transfer bound of CHAR_LEN + 6 becomes CHAR_LEN + 7 when the cycle counter wraps.
- `udiv` claims 31-bit arguments, but from dividends of 2^30 on its doubled divisor can wrap: it may
  then not end, or divide by a smaller divisor, and `umod` goes wrong with its quotient. `isqrt` is right
  below 2^30, always wrong from there to 2^31, and does not end beyond. `imul` does not end for -2^31.
- The object reader compares a record's size with a file length cut to 32 bits (src/obj.c:145), and
  refuses what the writer wrote.
- In explicit memh output an empty block is printed as a word (src/asm.c:562-580).
- A transfer with no attached slave selected never ends, and cannot be stopped.
- The linker never checks that a value patched into a field still fits it (src/tld.c:185-190).
- Sparse memory has 2^24 cells; the device sort is wrong for bases more than 2^31 apart.

## Model

| member | source | states |
|---|---|---|
| `Isa.EncodeDecode` | src/ops.h:1-78 | Every 32-bit word is the encoding of exactly what it decodes to: no field loses or overlaps a bit. |
| `Isa.DecodeEncode` | src/ops.h:1-78 | Every well-formed instruction decodes back from its encoding. |
| `Isa.Simulator.PlaceOperands` | src/sim.c:11-26 | The loop-free shuffle of `p[]` puts the sign-extended immediate where the type field says and X, Y (or X, 0) in the other places. |
| `Isa.Simulator.DoOp` | src/sim.c:28-62 | Each of the sixteen operations adds the addend `p[0]` to `p[2] op p[1]`; comparisons subtract their one-bit result from it, `@` masks with `1 << p[1]`, and a left shift of 32 or more is 0 and drops the addend. |
| `Isa.Simulator.RunInstruction` | src/sim.c:64-116 | The register file and memory after one instruction are those of the one-step specification `Execute`; the result is true exactly on a faulting access, which leaves memory alone and P incremented. |
| `Isa.Simulator.InterpStep` | src/sim.c:122-141 | Stops with -1 exactly at the end address or an unfetchable word, returns 1 only for a faulting instruction, and otherwise is one specification step and one count. |
| `Isa.Simulator.InterpRunSim` | src/sim.c:118-143 | The machine is in the state of as many specification steps as were counted, every one of which could be taken; the code is 0 exactly when the budget is used up, -1 exactly at the end address or an unfetchable word, 1 exactly at a faulting instruction, and no other. |
| `Isa.RegisterAStaysZero` | src/sim.c:64-83 | Run invariant: register A reads zero for ever, and no step adds or removes an address. |
| `JitCompiler.SignedFlags` | src/jit.cc:130-141 | After `cmp`, SF/OF/ZF decide less, greater-or-equal and equal exactly as the signed comparison does, overflow included. |
| `JitCompiler.BuildOpCorrect` | src/jit.cc:86-146 | The emitted instructions leave `a op b` in A and the addend untouched for all sixteen operations, flags surviving the `mov`s, out-of-range shift counts included. |
| `JitCompiler.LoadOperandCorrect` | src/jit.cc:164-180 | An operand load sees register A as zero and P as `offset + 1` ahead of the register file. |
| `JitCompiler.RhsAgreement` | src/jit.cc:86-146 | Compiled code and interpreter give the same right-hand side if and only if a left shift by 32 or more has no addend to drop. |
| `JitCompiler.InsnCorrect` | src/jit.cc:148-207 | One compiled instruction tracks one interpreter step, with P lagging behind inside a block and exact when P is written. |
| `JitCompiler.BlockCorrect` | src/jit.cc:209-227 | Running the code of a straight-line block from P = base gives the registers and memory the interpreter has after stepping over the whole block. |
| `JitCompiler.StoreThroughPAgreement` | src/jit.cc:199-204 | Where a block stores with Z = P the missing offset makes compiled code disagree, except exactly when both the late and the lagging cell already hold the value stored. |
| `Jit.BlockLength` | src/jit.cc:269-281 | The text alone fixes the length of the block at an address, so `len` never changes between passes. |
| `Jit.FlowsThrough` | src/jit.cc:269-281 | From a block's base the interpreter goes through each of its words in turn, and the block ends with the last of them. |
| `Jit.StepCounts` | src/jit.cc:269-284 | One interpreted instruction either stays in the block it started in or ends it, and then that block, and no other, has been entered once more. |
| `Jit.CompiledBlock` | src/jit.cc:209-227 | Along a whole run, compiled code entered at instruction n ends where the interpreter is at n + len. |
| `Jit.JitGenBlock` | src/jit.cc:209-227 | The loop emits exactly the code of the block in the program text, given a cache that holds its words. |
| `Jit.JitState.constructor` | src/jit.cc:287-303 | The run-count threshold is the parameter when it exceeds 1 and the default otherwise, and the whole-run invariant holds at the start. |
| `Jit.JitState.CacheInsn` | src/jit.cc:255-259 | Caching a word stays inside a buffer as long as the block was last time and keeps every block record true. |
| `Jit.JitState.PreInsnHook` | src/jit.cc:237-267 | Keeps the invariant that every block counts exactly how often it was entered and left, and that one past the threshold has a fixed length and a cache equal to its code words; stops the interpreter exactly for blocks entered more often than the threshold. |
| `Jit.JitState.PostInsnHook` | src/jit.cc:269-284 | Ends a block exactly when the instruction writes P, recording the length the text gives it, and counts one instruction. |
| `Jit.JitState.HookedStep` | src/sim.c:122-141 | One interpreter round under both hooks keeps machine and pure interpreter in step. |
| `Jit.JitState.RunCompiled` | src/jit.cc:322-327 | Calling a compiled block and adding its length to the instruction count lands in a state of the pure interpreter's run, whatever was in the host's registers and flags. |
| `Jit.JitState.JitRunSim` | src/jit.cc:287-334 | Whole-run simulation: at every return registers, memory and `insns_executed` are a state of the pure interpreter's run, and it ends only at the end address. Compiled code has to agree only in blocks entered more often than the threshold; code that stays cold may hold anything the interpreter runs. |
| `Core.DecodeAgrees` | hw/verilog/tenyr.v:19-38 | The combinational decoder extracts the fields of the instruction set, immediate sign extension included, from every word. |
| `Core.OperandsAgree` | hw/verilog/tenyr.v:40-50 | Shuf routes the three operands as the instruction set places them. |
| `Core.AluAgrees` | hw/verilog/tenyr.v:62-72 | For each four-bit code of Exec's case statement the result equals the instruction set's if and only if no addend is dropped by a left shift of 32 or more. |
| `Core.FarShifts` | hw/verilog/tenyr.v:65-72 | Right shifts are floors and bit tests tests of the true bit for every count, also those that the instruction set leaves undefined. |
| `Core.PipeKeeps` | hw/verilog/tenyr.v:57-73 | Every pulse on its way through the four-deep pipeline belongs to the current instruction, so no stale `done` ends s1 early. |
| `Core.WriteBack` | hw/verilog/tenyr.v:4-17 | Register file and next address after s4 are what writing the result to register Z means, for Z = A, Z = P and all others. |
| `Core.EdgeRetire` | hw/verilog/tenyr.v:98-129 | The edge out of s4 turns a circuit part-way through an instruction into one at the start of the next, with the stepped state. |
| `Core.EdgeKeeps` | hw/verilog/tenyr.v:117-129 | Whatever `halt` does, an edge in s4 completes exactly one instruction and every other edge stays within it. |
| `Core.CoreRefines` | hw/verilog/tenyr.v:52-140 | Refinement over all runs: after any clock edges the circuit represents the state of as many specification steps as instructions were retired. |
| `Core.VisibleState` | hw/verilog/tenyr.v:117-129 | Back in s5, register file, memory and address are literally the specification state. |
| `Core.ResetClears` | hw/verilog/tenyr.v:117-120 | Four edges under reset bring any circuit state, with anything in flight, to the start of the instruction at the reset vector. |
| `Core.InstructionTime` | hw/verilog/tenyr.v:117-129 | With `halt` low an instruction takes exactly 10 clock edges, or 12 when it touches memory, and leaves the core ready for the next. |
| `Core.Completes` | hw/verilog/tenyr.v:117-129 | From any point of an instruction it completes in exactly the edges left of it, whatever `halt` does once it has started, and the core is ready for the next. |
| `Core.Held` | hw/verilog/tenyr.v:122 | In s0 with `halt` high, for any number of edges, the core stays there: register file, addresses, instruction and memory are as they were and nothing retires. |
| `Core.AtMostOne` | hw/verilog/tenyr.v:117-129 | While `halt` stays high at most one instruction retires, from any circuit whatever. |
| `Core.HaltStops` | hw/verilog/tenyr.v:117-129 | A halted core completes the instruction it is in, if any, in exactly the edges left of it, and is held in s0 three edges later. |
| `Core.Released` | hw/verilog/tenyr.v:117-129 | However long it was held, once `halt` drops the held instruction completes within 7 edges, or 9 when it touches memory. |
| `Core.Board.Clock` | hw/verilog/ram.v:30-35 | One simultaneous update of Core, Exec, Reg and RAM port A is the circuit's edge function. |
| `Core.Board.Run` | hw/verilog/tenyr.v:117-140 | Clocked any number of times, the board is the circuit after those edges, and in a specification state whenever it shows s5. |
| `Reloc.ParseData.CeEval` | src/asmif.c:123-198 | Evaluation returns the value with unknown names as zero and prepends exactly the relocations of the expression, with the negation flag following subtractions. |
| `Reloc.UnaryLaws` | src/asmif.c:157-163 | `-e` is the negated signed number, save for -2^31, and `~e` turns every bit, which is minus the number less one. |
| `Reloc.ArithmeticLaws` | src/asmif.c:173-175 | `+`, `-` and `*` are those of the integers modulo 2^32. |
| `Reloc.BitLaws` | src/asmif.c:176-178 | Bit i of `l & r`, `l | r` and `l ^ r` is the conjunction, disjunction and difference of the operands' bits i. |
| `Reloc.ShiftLaws` | src/asmif.c:179-181 | `<<` multiplies by 2^n modulo 2^32, `>>>` is the floor of the word over 2^n and `>>` of the signed number; counts from 32 on have no value. |
| `Reloc.DivisionLaw` | src/asmif.c:182-188 | `/` divides magnitudes rounding to zero, with the sign of the product; it has no value exactly for a zero divisor and for -2^31 / -1. |
| `Reloc.TotalIsDegree` | src/asmif.c:84-109 | Without external names the linker's adjustments add up to the net relocation degree times the object's offset. |
| `Reloc.RelocationPreservesMeaning` | src/asmif.c:123-198 | For every well-degreed expression the adjustments make up exactly the difference between its value in the unit and its value at final addresses, modulo 2^32. |
| `Reloc.Moves` | src/asmif.c:123-198 | At final addresses every linear expression (sums, differences, unary operators, products with a factor and left shifts by a count that do not move, nested at will; other operators over operands that do not move) is worth its local value plus its known movement, modulo 2^32. |
| `Reloc.TotalIs` | src/tld.c:165-183 | What the linker adds is that movement, as often as the value counts, plus the error: every name added once with its emitted sign, or without one, instead of as often as it counts. |
| `Reloc.PreservedExactly` | src/tld.c:144-193 | For every linear expression the adjustments preserve its meaning if and only if the error vanishes modulo 2^32; in a sum the error is twice what has the wrong sign. |
| `Reloc.ErrorInSum` | src/tld.c:165-183 | In sums, differences and unary operators the error is twice the external names whose true sign is minus and the references to the unit under an odd number of unary operators. |
| `Reloc.ConstantTimes` | src/asmif.c:165-190 | A constant k times any linear r is right if and only if (1 - k) times the movement of r, and the error of r, make up for each other modulo 2^32. |
| `Reloc.DoubledHere` | src/asmif.c:165-190 | `2 * .` is right only in a unit that does not move. |
| `Reloc.FixedKeepsValue` | src/asmif.c:123-198 | A degree-zero expression is worth the same before and after linking and adds no adjustment. |
| `Reloc.SubtractedExternal` | src/tld.c:165-176 | The smallest case: a constant minus one external name is right if and only if twice its address vanishes modulo 2^32. |
| `Reloc.NegatedLabel` | src/asmif.c:156-163 | The other smallest case: unary minus over `.` is right if and only if twice the offset vanishes modulo 2^32. |
| `Assembler.FixupInsns` | src/asmif.c:329-347 | The first pass puts each element and label at the sum of the sizes before it, and refuses exactly the units with a label given twice. |
| `Assembler.AddressNext` | src/asmif.c:329-347 | Addresses start at 0; an instruction or datum takes one word and a block as many as it says. |
| `Assembler.LabelIs` | src/asmif.c:329-347 | A label is worth the address of the element it stands on, modulo 2^32. |
| `Assembler.DuplicatesExactly` | src/asmif.c:277-301 | Labels are refused exactly when some name is written twice in the unit. |
| `Assembler.FixupOne` | src/asmif.c:231-258 | One fixup cuts the multiplied value into its field, fails exactly on an undefined or too wide value, and prepends the element's relocations. |
| `Assembler.FieldRange` | src/asmif.c:245-250 | A value passes the width test of a w-bit field if and only if as a signed number it lies in -2^(w-1) .. 2^(w-1)-1. |
| `Assembler.AssemblesExactly` | src/asmif.c:231-264 | A deferred field assembles if and only if its expression has a value and this is in range or may be cut. |
| `Assembler.FixupDeferred` | src/asmif.c:231-264 | Going through the back-to-front list patches every element and leaves the relocations in element order. |
| `Assembler.Assemble` | src/asmif.c:358-393 | Succeeds exactly when labels are unique and every field fits; the object then has the elements' words at their addresses, their relocations and the global labels. |
| `Assembler.AssemblesWhen` | src/asmif.c:358-393 | That is: no name written twice, and every deferred expression has a value that is in range or may be cut. |
| `Assembler.ObjectHolds` | src/asm.c:329-346 | The object has every instruction or datum at the count of words before it, its field holding its expression's value and its other bits as they were, and a zero at the start of every block. |
| `Linker.BuildState` | src/tld.c:100-142 | Each object with a record gets the running sum of first-record sizes as its offset, and names map to their one definition; a name defined twice is fatal. |
| `Linker.RelocateOne` | src/tld.c:144-193 | A relocation inside the record replaces the low `width` bits by their sum with the adjustment and no others; one more than a word outside changes nothing; it fails exactly on a missing name and just past the end. |
| `Linker.LinkableCases` | src/tld.c:144-211 | An object without records or relocations never fails; one of several records fails exactly with relocations; one of a single record exactly with a relocation just past its end, or inside it with an unknown name. |
| `Linker.PatchesThere` | src/tld.c:185-190 | Patching changes exactly the word whose address, counted from the record's, the relocation names, and of it the low `width` bits, which become their sum with the adjustment. |
| `Linker.LinkState.Relocate` | src/tld.c:195-211 | Succeeds exactly when every object is linkable, and then every object is patched where it is by its own relocations in order. |
| `Linker.LinkState.Emit` | src/tld.c:229-264 | Records are copied out one after another at consecutive addresses. |
| `Linker.LinkState.Link` | src/tld.c:266-276 | Succeeds if and only if no name is defined twice, every relocation in a record names a definition, none lies just past a record and none is on an object of several records; it then yields the image of the patched objects. |
| `Linking.ApplyAt` | src/tld.c:185-190 | After all relocations of an object a word has its low bits moved by the total of those that hit it. |
| `Linking.OffsetIsEmitAddress` | src/tld.c:117-122 | An object's relocation offset equals the address its record is emitted at if and only if no words of further records before it went uncounted. |
| `Linking.ImageRecord` | src/tld.c:229-264 | With one record in every object, record k of the image is object k's, at its emission address. |
| `Linking.LinkedMeaning` | src/tld.c:144-193 | Main theorem: separate assembly then linking leaves in every field the expression's value at final addresses modulo 2^width, and all other bits as written. |
| `Linking.FieldExactly` | src/tld.c:144-193 | For every build and every linear expression: the linked word carries the value at final addresses in its field and all other bits as written if and only if the error of the field vanishes modulo 2^width, a multiplier of -1 counting as minus once. |
| `Linking.ProductField` | src/tld.c:185-190 | The linked field of a constant times an expression is right if and only if (1 - k) times the movement and the expression's own error make up for each other modulo 2^width. |
| `Linking.NegatedField` | src/asmif.c:240 | The multiplier -1 reaches the value but not the relocations: of a well-degreed expression the linked field is right if and only if twice the total of its relocations vanishes modulo 2^width. |
| `Linking.LinkedPlain` | src/tld.c:229-264 | A word without an expression is linked as it was written. |
| `Linking.LinkedImage` | src/tld.c:229-264 | Unit k's patched record is in the image at the unit's offset. |
| `Linking.ExportAddress` | src/tld.c:127-137 | A global label is found at its address in its unit, owned by that unit. |
| `Linking.Build` | src/tld.c:266-276 | Assembling every unit and linking the objects succeeds if and only if every unit assembles, no label is exported by two of them and every name a unit imports is exported by some unit; the build then meets the theorems. |
| `Linking.LinksWhenAgreed` | src/tld.c:100-193 | The linker accepts assembled objects exactly when the units agree about who exports each imported name. |
| `Linking.RelocsWithin` | src/asmif.c:231-264 | A unit's relocations all lie within its record and name exactly what its expressions import. |
| `LinkedCode.LinkedStatement` | src/parser.y:417-452 | A statement with a symbolic constant is linked to the word it would be assembled to with the constant at its final value, cut to its field. |
| `LinkedCode.SameWidthTest` | src/parser.y:437-446 | For the parser's 12-bit and 20-bit fields that range is the one the statement forms are chosen by. |
| `LinkedCode.LinkedExecutes` | src/parser.y:753-764 | State by state: executing that word does what the statement says at the final value if that value survives the field; where the addend shows in a register, only then. |
| `LinkedCode.LinkedExactly` | src/tld.c:185-190 | The linker never asks whether a final value fits. The linked word does what the statement says in every state if and only if the value survives its field, or what is lost is not looked at (a closed list), or the result goes to register A. |
| `Cut.CutComputes` | src/parser.y:257-288 | With the constant as an operand the instruction computes what the source form means for the cut constant. |
| `Cut.EverywhereExact` | src/parser.y:257-288 | For every form with a constant: right in every state if and only if the constant survives, or it is a left shift by a constant whose cut is 32 or more, or the other operand is register A and the operation is on the closed list, or no state gives the form a meaning. |
| `Cut.StatementExact` | src/parser.y:413-452 | A whole statement's word does what it says in every state if and only if its value is right in every state or goes nowhere: in some memory every wrong value shows. |
| `Syntax.DesugarExact` | src/parser.y:257-288 | For every accepted right-hand side (`>`, `<=`, unary `-` and `~`, `X - imm`, type choice) the encoded instruction computes the source form's value if and only if its constant survives the field; for a constant added last also when it would be refused. |
| `Syntax.WidePack` | src/parser.y:516-519 | Every form with `^^`, either sign: a too wide constant is cut without complaint, and the instruction is then wrong in every state as addend, wrong in every state as left operand exactly when the 20 bits kept change, and right as right operand. |
| `Disasm.DerefRoundTrip` | src/parser.y:413-417 | Each of the four transfer forms gets the two bits that stand for it, and only allowed arrows. |
| `Syntax.StatementMeaning` | src/parser.y:413-452 | Executing the encoded word of a whole statement does what the statement says, dereferences and arrow included. |
| `Disasm.RhsReadsBack` | src/asm.c:62-202 | The tokens printed for a right-hand side parse to the same encoded fields, operand hiding and disambiguation included. |
| `Disasm.ParsePrinted` | src/parser.y:186-255 | Brackets and arrow around what the disassembler printed are read back as the same destination, direction and dereferences. |
| `Disasm.AtomReads` | src/parser.y:343-375 | Every numeral under any prefix operators is read as its value, and as a bit string exactly when it is hexadecimal. |
| `Disasm.RhsReads` | src/parser.y:257-325 | Every right-hand side, written with its own operator (`>` and `<=` included), signs, prefix operators and any way of writing its constant, is read as exactly that form. |
| `Disasm.StmtReads` | src/parser.y:413-417 | Every statement, in brackets and with either arrow, is read as that statement. |
| `Disasm.LineMeans` | src/parser.y:413-452 | A written statement assembles if and only if its arrow and constant are acceptable, and its word does what the statement says wherever that says anything and the constant survives. |
| `Disasm.LineRoundTrip` | src/asm.c:62-202 | Disassembling any word always succeeds and assembling the line gives the word back, in normal and verbose mode. |
| `Disasm.ProgramRoundTrip` | src/asmif.c:422-443 | Disassemble then assemble is the identity on every sequence of words. |
| `Disasm.DoDisassembly` | src/asmif.c:422-443 | The output loop's text assembles to the input words. |
| `Forth.PrimCorrect` | forth/level0.tas.cpp:265-312 | Each primitive's register and memory updates do what its stack diagram says on the stacks in memory, and leave the dictionary alone. |
| `Forth.RunEnter` | forth/forty.tas.cpp:31-35 | ENTER saves the caller's place on the return stack and starts the body after the code field. |
| `Forth.RunExit` | forth/forty.tas.cpp:37-40 | EXIT takes the place on top of the return stack. |
| `Forth.RunLiteral` | forth/level1.tas.cpp:247-253 | LITERAL pushes the cell after it and steps over both. |
| `Forth.RunWord` | forth/forty.tas.cpp:24-40 | Inner-interpreter refinement: from a cell naming any stored word whose meaning is defined, NEXT/ENTER/EXIT come back to the next cell after exactly the word's steps, with its composed stack effect, the outer return stack and the dictionary intact. |
| `Forth.RunThread` | forth/forty.tas.cpp:24-40 | The same for any list of cells up to its EXIT. |
| `Forth.StoredMoved` | forth/forth_common.th:38-42 | A dictionary moved k cells higher under a load address raised by k holds the same words at the moved places. |
| `Forth.PositionIndependent` | forth/forty.tas.cpp:24-35 | Loaded anywhere else the same word runs to the same stacks in as many passes. |
| `Forth.EffectUpon` | forth/level0.tas.cpp:78-84 | A primitive that succeeds on its own part of the return stack does the same above anything else. |
| `Forth.RoomExactly` | forth/level1.tas.cpp:247-253 | Nothing is undefined for want of room while there is room: a literal needs one cell, a primitive what its result takes, a colon definition one return cell. |
| `Forth.RunUnder` | forth/level1.tas.cpp:49-77 | A word that succeeds on a data stack has the same effect on a deeper one. |
| `Forth.TwoDupDiagram` | forth/level1.tas.cpp:54-58 | 2DUP meets ( x1 x2 -- x1 x2 x1 x2 ). |
| `Forth.TwoSwapDiagram` | forth/level1.tas.cpp:70-77 | 2SWAP meets ( x1 x2 x3 x4 -- x3 x4 x1 x2 ). |
| `Forth.TwoOverDiagram` | forth/level1.tas.cpp:60-68 | 2OVER, through 2SWAP, 2DUP and the return stack, meets ( x1 x2 x3 x4 -- x1 x2 x3 x4 x1 x2 ). |
| `Forth.TwoOverRuns` | forth/level1.tas.cpp:60-68 | The same on the machine, wherever the dictionary and the two stacks lie. |
| `Forth.Engine.FetchNext` | forth/forty.tas.cpp:24-29 | NEXT updates W, I and X as the interpreter step specifies. |
| `Forth.Engine.ShuffleStack` | forth/level0.tas.cpp:273-362 | SWAP, ROT, TUCK and NIP register by register are the specified updates. |
| `Forth.Engine.CopyOrMove` | forth/level0.tas.cpp:265-302 | OVER, DUP, DROP, >R, R> and R@ likewise. |
| `Forth.Engine.Interpret` | forth/forty.tas.cpp:24-40 | Any number of passes of the loop is the iterated interpreter step. |
| `Rand.Generator.Rand` | lib/rand.tas.cpp:27-34 | The seed advances by one step and is the result. |
| `Rand.Generator.Draw` | lib/rand.tas.cpp:22-34 | n calls leave the n-th seed. |
| `Rand.ClosedForm` | lib/rand.tas.cpp:32 | The n-th seed is s + (1 + 69069 + ... + 69069^(n-1)) * (69068 s + 1) modulo 2^32. |
| `Rand.GeometricDivides` | lib/rand.tas.cpp:32 | 2^k divides that sum if and only if it divides n. |
| `Rand.LowBitsPeriod` | lib/rand.tas.cpp:1-2 | The low k bits of two draws agree if and only if the draws are a multiple of 2^k apart. |
| `Rand.FullPeriod` | lib/rand.tas.cpp:1-34 | From every seed every word comes up exactly once among the first 2^32 draws. |
| `Arith.Isqrt` | lib/isqrt.tas.cpp:6-40 | Ends with the floor of the square root for 0 <= c < 2^30, and with a negative number for every c from there to 2^31. |
| `Arith.HighestPower` | lib/isqrt.tas.cpp:10-19 | compute_4 stops at the highest power of four not above c, or at zero. |
| `Arith.SmallWords` | lib/isqrt.tas.cpp:22-36 | Below 2^30 no intermediate reaches the sign bit. |
| `Arith.NegativeNeverEnds` | lib/isqrt.tas.cpp:13-19 | compute_4 ends if and only if the argument is not negative, over all its rounds. |
| `Arith.Udiv` | lib/udiv.tas.cpp:7-57 | Whenever the doubling ends at all: quotient and remainder of an exact division, by the divisor that the halvings come down to, which is never more than the one given and equal to it if and only if doubling passes the dividend before the sign bit; the quotient alone is right if and only if the dividend is below the next multiple of it; a zero divisor gives zero. |
| `Arith.UdivExact` | lib/udiv.tas.cpp:20-50 | For every dividend and divisor: the rounds leave c / d and c % d if and only if some d * 2^m lies above c and below 2^31. |
| `Arith.OutcomeDivides` | lib/udiv.tas.cpp:30-50 | With e the subtrahend halved until it is at most the divisor: 0 < e <= d, and the rounds leave c / e and c % e, because a subtrahend shifted n places has n zeros at the end even when it wrapped, and no halving cuts a bit off. |
| `Arith.EffectiveIs` | lib/udiv.tas.cpp:20-50 | That e is the divisor itself if and only if doubling passes the dividend unwrapped. |
| `Arith.QuotientExact` | lib/udiv.tas.cpp:20-50 | The quotient is right if and only if c < (c / d + 1) * e. |
| `Arith.WrongQuotient` | lib/udiv.tas.cpp:30-50 | 0x58000000 / 0x2c000000 divides by 0x18000000: 3 with 0x10000000 left instead of 2 with nothing left, and the remainder of `umod` becomes 0xd4000000 instead of 0. |
| `Arith.LuckyQuotient` | lib/udiv.tas.cpp:30-50 | 0x5c000000 / 0x58000000 divides by 0x30000000, and the quotient, though not what is left, is still right. |
| `Arith.EndsSoon` | lib/udiv.tas.cpp:20-28 | The doubling ends if and only if it ends within 31 shifts. |
| `Arith.FitsPasses` | lib/udiv.tas.cpp:20-28 | It does end whenever that condition holds. |
| `Arith.SmallFits` | lib/udiv.tas.cpp:20-28 | That condition holds for every 0 <= c < 2^30 and 0 < d < 2^31. |
| `Arith.OneNeverPasses` | lib/udiv.tas.cpp:20-28 | For c >= 2^30 and divisor 1 the doubling never passes c, so the routine does not end. |
| `Arith.Umod` | lib/umod.tas.cpp:6-14 | With e the divisor that the rounds of `udiv` come down to: c - (c / e) * d modulo 2^32, which is c modulo d if and only if c < (c / d + 1) * e, in particular under the condition of `udiv`; c for a zero divisor. |
| `Arith.Imul` | lib/imul.tas.cpp:15-39 | c * d modulo 2^32 for every d except -2^31. |
| `Arith.ImulEnds` | lib/imul.tas.cpp:24-32 | The loop ends if and only if d is not -2^31. |
| `Arith.Ipow` | lib/ipow.tas.cpp:6-35 | c^d modulo 2^32 for every d >= 0, with 0^0 = 1. |
| `Arith.NegativeExponent` | lib/ipow.tas.cpp:12-31 | Over all rounds: the exponent reaches zero if and only if it is not negative. |
| `Spi.OneShiftIs` | src/devices/spi.c:247-279 | The masked word shifts and bit insertion are one shift of the 128-bit register with the pulled bit at the bottom, or at the top of the character when the low bit goes first; the other registers stay. |
| `Spi.FieldBits` | src/devices/spi.c:47-75 | GO_BSY, LSB and ASS are bits 8, 11 and 13 of CTRL, CHAR_LEN its low 7 bits, DIVIDER and SS the low 16 and 8 bits of their registers. |
| `SpiMaster.Exchange` | src/devices/spi.c:281-337 | For every length, contents and slave stream, the bits pushed are the original character in order and the final character is exactly what was pulled. |
| `SpiMaster.Echo` | src/devices/spi.c:247-279 | An echoing slave leaves the character unchanged. |
| `SpiMaster.PushBitIs` | src/devices/spi.c:291-296 | The bit on the wire, taken from the register words, is the character's next bit. |
| `SpiMaster.CycleKeepsInv` | src/devices/spi.c:281-376 | A bus cycle keeps it that GO_BSY is set exactly when the state is not RESET and the bits left to go are accounted for. |
| `SpiMaster.BusKeepsInv` | src/devices/spi.c:194-245 | No bus access changes anything during a transfer, reads never change anything, and no access breaks the invariant. |
| `SpiMaster.WriteIs` | src/devices/spi.c:194-245 | A register write outside a transfer stops at the breakpoint exactly when it sets GO_BSY together with other changes to CTRL; otherwise that register reads as written, every other as before, and a transfer is started exactly by bit 8 of CTRL, with CHAR_LEN bits (128 for 0) to go. |
| `SpiMaster.SelectSeen` | src/devices/spi.c:224-235 | With automatic selection off, exactly the attached slaves whose bit in SS changes are told its new value; no other write tells anyone anything. |
| `SpiMaster.AlwaysInv` | src/devices/spi.c:194-376 | After any accesses and bus cycles from reset, whatever the slaves answer, GO_BSY is set exactly when the state is not RESET and the bits left to go are accounted for. |
| `SpiMaster.OnlyTheSelected` | src/devices/spi.c:304-360 | Going through all slaves comes to visiting the selected one; what it sees is its own events only. |
| `SpiMaster.OthersSee` | src/devices/spi.c:345-358 | A slave that is not selected sees one clock, marked as not selected, when the master stands in SELECTED at its turn, and nothing else ever. |
| `SpiMaster.FatalSelect` | src/devices/spi.c:287-289 | An SPI cycle stops the simulation exactly during a transfer with two of the eight select bits set. |
| `SpiMaster.CycleIs` | src/devices/spi.c:365-376 | With one selected attached slave an SPI cycle of the whole device is that slave's cycle, and the selection persists. |
| `SpiMaster.Transfer` | src/devices/spi.c:281-363 | A started transfer is back in RESET in exactly its computed time, the character exchanged, GO_BSY down and every other register bit as before. |
| `SpiMaster.TransferBound` | src/devices/spi.c:365-376 | That time is at most CHAR_LEN + 6 SPI cycles if and only if the cycle counter is not at its last value, where it is CHAR_LEN + 7. |
| `SpiMaster.BusCyclesAre` | src/devices/spi.c:365-376 | From any divider count: bus cycles before the next SPI cycle change nothing but the count, and that SPI cycle comes at once when the count has reached 2 * (DIVIDER + 1) - 1 and else after the rest of the period. |
| `SpiMaster.TransferOnBus` | src/devices/spi.c:281-376 | On the bus, from any divider count, with one selected attached slave and any bit stream: a started transfer is over, its character exchanged, after the wait for the first SPI cycle and 2 * (DIVIDER + 1) bus cycles for each of the others. |
| `SpiMaster.TransferFromWrites` | src/devices/spi.c:194-376 | A whole transfer from the driver's writes of Tx0 to Tx3, SS and CTRL on, over any register contents and divider count: the data registers end as the written character shifted through with the bits on the line, GO_BSY down. |
| `SpiMaster.Stuck` | src/devices/spi.c:194-376 | With no attached slave selected a transfer stays where it is, whatever accesses and bus cycles follow. |
| `SpiMaster.EndsExactly` | src/devices/spi.c:194-376 | A started transfer with one-hot select bits can end if and only if an attached slave is selected. |
| `SpiState.State.constructor` | src/devices/spi.c:79-97 | The reset defaults satisfy the invariant. |
| `SpiState.State.DoOneShift` | src/devices/spi.c:247-279 | The in-place loops over the register words compute the one-shift function. |
| `SpiState.State.SlaveCycle` | src/devices/spi.c:281-363 | The slave loop with its in-place updates is the specified slave cycle, fatal exactly where it is. |
| `SpiState.State.EmuCycle` | src/devices/spi.c:365-376 | The divider and cycle counters are updated as specified and the invariant is kept. |
| `SpiState.State.SpiOp` | src/devices/spi.c:194-245 | Bus accesses do what is specified, stop at the breakpoint exactly when GO_BSY changes together with other bits, and keep the invariant. |
| `SdCard.ReadyNeedsReset` | src/devices/spisd.c:222-230 | READY is reachable only after an accepted GO_IDLE_STATE and more than 50 later clocks. |
| `SdCard.LastReset` | src/devices/spisd.c:171-193 | Anything beyond power-up goes back to an accepted reset, whose clock is the recorded one. |
| `SdCard.StatusIs` | src/devices/spisd.c:171-227 | Over every history: when a 48-bit frame completes the card is READY if and only if the frame is not a reset, one was accepted before, and more than 50 clocks have gone by since the last; it is uninitialised exactly before the first accepted reset. |
| `SdCard.FrameAnswered` | src/devices/spisd.c:171-214 | A completed frame of index 0 leaves 1 in the output register, or 8 when neither its CRC nor an earlier reset let it through; index 1 leaves 0 when READY and 1 otherwise. |
| `SdCard.FatalExactly` | src/devices/spisd.c:301-308 | A clock stops the simulation exactly when it completes a frame with bit 47 set or bit 46 or bit 0 clear. |
| `SdCard.Answers` | src/devices/spisd.c:286-324 | After a well-formed frame whose five index bits are 0 or 1, from any card, the output register holds the R1 byte of the handler, and status and reset time are the handler's. |
| `SdCard.ShiftsOut` | src/devices/spisd.c:297-298 | The next eight clocks bring that byte out, highest bit first. |
| `SdCard.IndexExact` | src/devices/spisd.c:311 | The five index bits kept are the index sent if and only if it is below 32. |
| `SdCard.HandleExact` | src/devices/spisd.c:311-318 | For every frame and every card: the card does what the whole six-bit index asks unless that is 32 or 33, where it agrees only in the states that a reset or an operating condition request leaves as they are. |
| `SdCard.ClockExact` | src/devices/spisd.c:286-324 | Over every history from power-up: a clock differs from a six-bit card's exactly when it ends a frame of index 32, or one of index 33 while the card is not both ready and long silent. |
| `SdCard.ThirtyTwoResets` | src/devices/spisd.c:311-318 | A whole frame of index 32 resets the card: at power-up with the reset's CRC, afterwards always. |
| `SdCard.ThirtyTwoFrame` | src/devices/spisd.c:300-313 | 0x600000000095 is such a frame. |
| `SdCard.CardState.SpiClock` | src/devices/spisd.c:286-324 | The clock handler's field updates are the specified clock, fatal exactly on a wrong fixed bit, silent when not selected. |
| `SdCard.CardState.Select` | src/devices/spisd.c:276-284 | Selection restarts the bit count. |
| `SdCard.CardState.GoIdleHandler` | src/devices/spisd.c:171-193 | GO_IDLE_STATE resets the card, or reports a CRC error from power-up. |
| `SpiSystem.RunIsCycles` | src/devices/spi.c:281-376 | The master attached to a card is the master pulling the card's bits. |
| `SpiSystem.Exchanging` | src/devices/spi.c:322-337 | n bits into the character, master register, card and pulled bits agree. |
| `SpiSystem.CommandAnswered` | src/devices/spi.c:281-376 | End to end: for every well-formed frame whose five index bits are 0 or 1 in a 56-bit MSB-first auto-select transfer, when GO_BSY clears the low byte of Rx0 is the R1 byte implied by the card's state. |
| `SpiSystem.CommandOnBus` | src/devices/spi.c:365-376 | The same counted in bus cycles of the whole device from any divider count, other slaves and the clock divider included. |
| `SpiSystem.FrameIs` | src/devices/spi.c:47-60 | The frame the card receives is the one written into Tx0 and Tx1. |
| `SpiSystem.CommandFromWrites` | src/devices/spi.c:194-376 | From the driver's writes on, for a card with any history and any frame of five-bit index 0 or 1: when the transfer's bus cycles are over, Rx0 reads with its low byte the answer that the history implies, 0 to an operating condition request exactly when more than 50 clocks have gone by since the last accepted reset. |
| `ObjFormat.SwapReverses` | src/common.h:81-87 | `swapword` reverses the four bytes of every word. |
| `ObjFormat.SwappedImage` | src/obj.c:51-65 | A big-endian host writing swapped words produces the little-endian byte stream. |
| `ObjFormat.SwappedBack` | src/obj.c:39-49 | A big-endian host swapping what it read gets the word a little-endian host gets. |
| `ObjFormat.RoundTrip` | src/obj.c:73-182 | Reading back any written object with consistent counts gives the object if and only if no list has more than 65535 entries, no record more than 2^31 - 1 words and every record passes the length check, and EFBIG otherwise. |
| `ObjFormat.OneRecordExact` | src/obj.c:136-156 | An object of one record of n words and no names comes back if and only if n + 20 is at most the length of its file cut to 32 bits. |
| `ObjFormat.HugeRefused` | src/obj.c:145 | 2^30 words, within every limit, make a file of 2^32 + 28 bytes that the reader refuses as too big. |
| `ObjFormat.SmallRoundTrip` | src/obj.c:119-182 | Below 2^32 bytes it always gives the object back. |
| `ObjFile.ObjectBack` | src/asm.c:357-396 | An assembled object put into the file format, with its names, flags and null relocations, written below 2^32 bytes and read back is the object. |
| `ObjFile.RelocRead` | src/tld.c:164-183 | Of any relocation in a file bit 0 of the flags negates, and an empty name makes it a null relocation. |
| `ObjFile.PlainSymbols` | src/asm.c:357-375 | Symbols of assembled labels carry no flags, so the linker takes them as relative. |
| `ObjFile.FiledIsSame` | src/tld.c:68-84 | A linker fed from files is given the very objects that were assembled. |
| `ObjStream.Writer.PutWords` | src/obj.c:51-65 | Either host appends the same little-endian bytes. |
| `ObjStream.Writer.Write` | src/obj.c:73-111 | Writing version 0 appends the object's byte stream; other versions write nothing. |
| `ObjStream.Reader.GetWords` | src/obj.c:39-49 | Either host reads the same words from the same bytes, swapping in place where needed. |
| `ObjStream.Reader.ReadRecords` | src/obj.c:136-156 | The counted loop reads the records in order and stops at the first failure. |
| `ObjStream.Reader.Read` | src/obj.c:184-200 | The stateful reader computes the specified parse, bad magic, bad version, limits and short input included. |
| `Memh.RoundTrip` | src/asm.c:539-580 | Consecutive words and zero blocks written and read back with one offset yield the same words at the same offset addresses as far as they are kept, with zeros before the first. |
| `Memh.KeptWords` | src/asm.c:569-570 | What is dropped is trailing zeros and nothing else; in explicit mode only those after the first of a block at the end. |
| `Memh.EmptyBlockShifts` | src/asm.c:562-580 | In explicit mode an empty block prints a word all the same, and the word after it is read one address too far on. |
| `Memh.State.Out` | src/asm.c:562-580 | One element prints an address exactly when it does not follow on, and nothing for a suppressed zero. |
| `Memh.State.OutAll` | src/asm.c:562-580 | The output loop prints the specified stream. |
| `Memh.State.In` | src/asm.c:539-560 | One call fills a gap, takes an address, takes a word, or reports the end or a backward address. |
| `Memh.State.InAll` | src/asm.c:539-560 | The input loop returns the specified elements. |
| `SparseRam.SameCellExact` | src/devices/sparseram.c:26-37 | Two addresses share a page and an offset if and only if their low 24 bits agree. |
| `SparseRam.Ram.Op` | src/devices/sparseram.c:63-89 | Pages inserted on demand and written in place: a write changes exactly the cells with the same low 24 bits, a read returns the cell and changes none. |
| `SparseRam.Replay` | src/devices/sparseram.c:63-89 | Every read of every trace returns what an array initialised to 0xffffffff would, addressed by the low 24 bits. |
| `SparseRam.AliasedIsFlat` | src/devices/sparseram.c:63-89 | On traces without aliasing addresses that array is flat memory. |
| `SparseRam.AliasShows` | src/devices/sparseram.c:26-30 | A single write shows at another address if and only if they agree in the low 24 bits. |
| `SparseRam.FlatExactly` | src/devices/sparseram.c:26-37 | Over all histories: the memory is flat on a set of addresses if and only if no two of them agree in the low 24 bits. |
| `SparseRam.InRangeIsFlat` | src/devices/sparseram.c:91-102 | On the addresses the simulator gives this device it is flat memory. |
| `SparseRam.FindDevice` | src/simif.c:36-46 | The binary search is the specified one. |
| `SparseRam.SearchFinds` | src/simif.c:16-34 | Over ordered disjoint ranges a device is found if and only if one covers the address, and it is that one. |
| `SparseRam.FoundExactly` | src/simif.c:16-46 | Disjoint devices are all found at all their addresses if and only if they are in address order. |
| `SparseRam.CompareBasesExact` | src/simif.c:57-66 | The sorting comparison is the order of the bases, both ways round, if and only if they are less than 2^31 apart. |
| `SparseRam.SortedIsOrdered` | src/simif.c:77-82 | Disjoint devices with bases less than 2^31 apart end up in address order. |
| `SparseRam.SortedExactly` | src/simif.c:57-82 | The sort leaves disjoint devices in address order, and all of them are found, if and only if none comes before one that is 2^31 or more below it. |
| `SparseRam.SortedNear` | src/simif.c:57-82 | With no two bases exactly 2^31 apart that is when all bases are less than 2^31 apart. |
| `SparseRam.FarDeviceLost` | src/simif.c:57-66 | Two devices further apart can be sorted the wrong way round, and one is then not found. |

## Left out

- Right shifts and bit tests by more than 31, which C leaves undefined: they have the outcome
  `Undefined`, and the executor theorems are about runs without it. Signed overflow is taken to wrap.
- Memory faults everywhere, and for the JIT also programs that overwrite their own code, or store
  with Z = P or drop an addend in a block entered more often than the threshold: excluded by
  `Jit.WellBehaved` and `Core.Good`, since the executors do not agree there.
- The tree of blocks (src/jit.cc:229-248), whose comparison subtracts bases as signed numbers: blocks
  are a map from base addresses.
- Devices other than RAM under the executors, and the moments at which their `cycle` callbacks run.
- Jit.JitState.JitRunSim: takes a fuel argument and promises the invariant at every return; a guest
  program need not end, so termination is not claimed. Isa.Simulator.InterpRunSim has a budget for the same
  reason.
- Jit.JitState.constructor: parameter text parsing is left out; the threshold arrives as a number.
- asmjit's register allocation, and x86 beyond the instructions `buildOp` emits.
- Port B of the block RAM and the Wishbone error and retry lines, which only feed `halt`.
- `.set` symbols and deferred contexts (src/asmif.c:136-142), external `>> 12` and `& 0xfff`
  expressions, and truncation of names to SYMBOL_LEN.
- Assembler.EmitData: leaves open the words of a block after its first one, because obj_out clears
  them by bytes rather than by words; a negative `.zero` is not modelled.
- Linker.RelocateOne: a relocation one past the end counts as a failure, because the source would
  write outside the record; absolute symbols are not modelled.
- Syntax: constants are taken as already evaluated, and LinkedCode evaluates the symbolic ones.
- Reloc.PreservedExactly: a product of two operands that both move, a shift by a count that moves, and
  division, right shifts and bit operators over operands that move change by amounts that depend on
  the addresses themselves, and are outside `Reloc.Linear`.
- ObjFile.ObjectBack: names have at most 31 characters, and the bytes behind a name's end are zero.
- Disasm.ProgramRoundTrip: works on tokens; spacing, letter case and the lexer's numeral syntax are
  not modelled, nor is the quoted-character form of data output.
- Forth: words that use the machine outside the stacks (memory access, I/O, branches through
  SET_IP, the text interpreter) and stack underflow or overflow at run time; `Forth.Run` is
  undefined there.
- SPI CHAR_LEN = 0, meaning 128: the shift code uses the length as it stands, so a transfer with it
  is excluded by `SpiMaster.Shiftable`.
- SdCard: the card's cycle counters are unbounded numbers instead of C integers; commands other
  than 0 and 1 have no handler in the source and change nothing but the bit count.
- Arith.Udiv: asks that the doubling end, which a caller can decide within 31 shifts.
- Arith: saving and restoring registers around the routines.
- ObjFormat: names are 32 raw bytes; `calloc` of zero words is taken to succeed and `long` to have
  64 bits.
- Memh.RoundTrip: empty blocks in explicit mode, after which addresses can, but need not, stay wrong up
  to the next gap; negative block sizes; and `load_sim`, which also stores the stale element when an
  address line is read (src/sim.c:149-152).
- SparseRam.SortedIsOrdered: `qsort` enters as its contract, no pair in the wrong order for the
  comparison; `tsearch` enters as a map.
- Option parsing, plug-in loading, serial and display devices, the web interface, lib/malloc,
  lib/bsearch, lib/dword, lib/fp and lib/strtol.
