# A verified model of the RV32I tooling

The repository builds a pipelined RV32I core and, around it, the programs that decide whether the core
is right: a random program generator, an assembler, a reference interpreter, a lockstep comparison with
Spike, bare-metal C kernels, a SoC test harness, and converters for images and documents. This project
models those programs in Dafny and proves what they are relied on for. Every statement is for all
inputs: all seeds of the generator, all designs under test, all interleavings of the supervised
processes, all byte streams.

| file | models |
|---|---|
| `Bits.dfy` | bit operations on unbounded two's-complement integers, as Python and C use them |
| `Rv32i.dfy` | reference: decoding and execution after sections 2.2 to 2.6 of the RISC-V Unprivileged ISA |
| `Encode.dfy` | the instruction encoders of `tools/asm.py` and `tools/rand_gen.py` |
| `RandGen.dfy`, `OfferedPrograms.dfy`, `SpikeRuns.dfy` | `gen_spike` and `gen`, which programs they emit, and what machines do with them |
| `PythonModel.dfy`, `ReferenceRuns.dfy` | the interpreter `tools/rv32i_model.py` and the reference files it produces |
| `Assembler.dfy` | the two passes of `tools/asm.py` |
| `Runtime.dfy` | `bench/rv32i_runtime.c`: multiplication and division without M extension |
| `Polynomials.dfy`, `Crc32.dfy` | `bench/crc32.c` and division of polynomials over GF(2) |
| `LinkedRing.dfy` | `bench/llist.c` |
| `Hex.dfy`, `Lines.dfy` | hexadecimal numbers and text lines, shared by the file formats |
| `SpikeLog.dfy`, `RtlTrace.dfy`, `Lockstep.dfy` | `tools/lockstep.py` and the trace writer of `sim/cpu_tb.cpp` |
| `EndToEnd.dfy` | generator, two machines, trace file, log and comparison put together |
| `Uart.dfy`, `UartFrames.dfy` | the UART decoder of `sim/soc_tb.cpp` |
| `SocHarness.dfy`, `SocSchedule.dfy`, `SocExactly.dfy` | its scenario: what a pass means, and which designs are passed |
| `SocImage.dfy`, `ElfFiles.dfy` | `tools/soc_image.py`, and which files it converts into what |
| `Gif.dfy` | `gif_metadata` of `tools/portfolio_demo.py` |
| `Markers.dfy`, `RenderedText.dfy` | the block renderer of `tools/render_portfolio.py` |

Code that changes state in the source is a method over arrays, objects or local variables here, and its
`ensures` ties it to a specification function; the lemmas then say what that function means.

## Where the code does not do what one would expect

The model follows the code. In each case the exact condition under which it does what its documentation
or its name promises is proved, in both directions, and an input the code accepts on which it fails is
given.

- `tools/asm.py` never checks ranges. A branch reaches its label exactly within 4 KiB, a jump within
  1 MiB, `la` works exactly within 2 KiB, and `tohost N` reports N exactly when N fits 12 signed bits
  (`Assembler.BranchReachesLabel`, `JumpReachesLabel`, `LaLoadsAddress`, `TohostSignals`; accepted sources
  that miss: `FarBranchMisses`, `FarJumpMisses`, `FarLaMisses`, `TohostTruncates`). A comment there speaks
  of two instructions for `tohost`; four are emitted.
- A negative `.fill` count moves labels back but emits nothing; the two passes agree exactly when there is
  none (`Assembler.PassesAgree`, `NegativeFillMisplaces`).
- The progress test of `sim/soc_tb.cpp` compares with `resume_mark + 8` in 32 bits. Above 2^32 - 9 the sum
  wraps and a counter that stands still passes (`SocHarness.ProgressTestIsExact`; in a run, `ProgressOfRun`;
  a design without progress that is passed, `SocSchedule.StandingDesignPasses`).
- The UART decoder is right for every bit length of at least two clock cycles and loses every byte at one
  (`Uart.DecodesIffDivisorIsTwoOrMore`, `OneByteLost`); the harness uses eight.
- Signed division agrees with DIV of the ISA except for a negative numerator and a zero divisor, where it
  gives 1 instead of -1; the remainder always agrees with REM (`Runtime.SignedDivide`, `SignedRemainder`).
- Rendering a document twice is the same as rendering it once exactly when no inserted content holds a
  marker; otherwise every second run refuses the output of the first (`Markers.RenderedTwice`,
  `MarkedContentIsRefused`).
- `gif_metadata` charges the delay of a control block to the next image even when a plain-text block, which
  section 23 of the GIF89a specification also makes a graphic, stands between. Its duration is that of the
  images exactly when no image follows a non-zero delay and a plain-text block with nothing but extensions
  between (`Gif.DurationIsOfImages`, `PlainTextIsCounted`).

## Model

| member | source | states |
|---|---|---|
| Encode.DecodeRType | tools/rand_gen.py:46-47 | every R-type word is a 32-bit word that the ISA decodes to the operation and registers it was made from |
| Encode.DecodeIType | tools/rand_gen.py:50-51 | every field of an I-type word reads back, the immediate as its low 12 bits read as a signed number, for any integer immediate |
| Encode.DecodeArithmetic | tools/asm.py:76-81 | an immediate instruction decodes to its operation with the immediate truncated to 12 signed bits |
| Encode.DecodeShift | tools/rand_gen.py:120-123 | a shift decodes to its operation and amount, with funct7 in the upper immediate bits |
| Encode.DecodeSType | tools/rand_gen.py:54-56 | the two halves of a store's immediate decode to one signed offset |
| Encode.DecodeBType | tools/rand_gen.py:63-66 | the scattered bits of a branch offset decode to that offset, rounded down to even and truncated to 13 signed bits |
| Encode.DecodeUType | tools/asm.py:24 | LUI and AUIPC decode to the low 20 bits of the immediate in the upper position |
| Encode.DecodeJType | tools/rand_gen.py:69-72 | the same as for branches, with 21 bits |
| RandGen.GenSpike | tools/rand_gen.py:86-162 | for every sequence of random draws the loop, with the destinations it remembers, emits the program `SpikeProgram` names; which programs these are, and what each word means, is SpikeWordMeans and SpikeProgramsExactly below |
| RandGen.Gen | tools/rand_gen.py:175-221 | the same for straight-line programs; see PlainWordMeans and PlainProgramsExactly |
| RandGen.EmitIsTame | tools/rand_gen.py:104-141 | every generated body word is a valid 32-bit word other than the self-loop, reads and writes only x1..x10, addresses only the 64 data words through the base register and transfers control only forward, at most to the final self-loop |
| RandGen.EmitDecodes | tools/rand_gen.py:104-141 | the word a draw produces decodes to the instruction it asks for, by name: one of ten register operations, nine immediate operations, word load or store, six conditions or a jump, its first source from the first pick and its second from the second |
| OfferedPrograms.OffersExactly | tools/rand_gen.py:104-141 | whatever was written before, a draw can produce an instruction if and only if it is on offer: any operation on any of x1..x10, any immediate in [-2048, 2047], any shift by 0..31, any of 64 words, and, with more than one word left, any condition or jump over 1..min(4, words left) words |
| OfferedPrograms.SpikeWordMeans | tools/rand_gen.py:94-141 | body instruction i of every emitted program is the one its draw asks for; a reused source is the last or last but one destination written by the instructions before it |
| OfferedPrograms.SpikeProgramsExactly | tools/rand_gen.py:86-162 | a list of instructions is emitted for some draws if and only if it is `lui x31, 0x80300`, `addi xr, x0, k` for x1..x10 with k in [-2048, 2047], n instructions on offer, and `jal x0, 0` |
| OfferedPrograms.PlainWordMeans | tools/rand_gen.py:178-214 | the same for the words of `gen` |
| OfferedPrograms.PlainProgramsExactly | tools/rand_gen.py:175-221 | the programs of `gen` are exactly n instructions on offer without control flow, relative to x0, then the four that store 1 at 0xFFF0, then `jal x0, 0` |
| SpikeRuns.ProgramsAreGenerated | tools/rand_gen.py:143-162 | every program of `gen_spike` consists of the initialising prologue, tame words, and 0x0000006F at the last index only |
| SpikeRuns.StepForward | tools/rand_gen.py:133-138 | one cycle anywhere in a program retires that word, leads to a later word or spins at the end, keeps the code intact and accesses only the data window |
| SpikeRuns.RunsStayInside | tools/rand_gen.py:98-162 | for all seeds, branch outcomes and cycle counts: the PC stays on the program's words and only moves forward, memory outside the window is unchanged, accesses lie in [0x80300000, 0x80300100), and after n + 11 cycles the self-loop is reached |
| SpikeRuns.StepTogether | tools/rand_gen.py:143-160 | two machines that agree on the registers initialised so far retire the same record and agree again |
| SpikeRuns.TracesIgnoreInitialRegisters | tools/rand_gen.py:143-162 | two runs from any two register files retire identical traces of any length |
| SpikeRuns.ProgramsTerminate | tools/rand_gen.py:89-92 | a run collects at most n + 12 records with increasing PCs, from the load address to the self-loop, which retires once, last |
| SpikeRuns.ProgramsCanStart | compliance/link/spike-lockstep.ld:16-20 | every program that ends below the data window can be loaded at the reset address, so the statements above apply to it |
| PythonModel.Step | tools/rv32i_model.py:28-76 | one pass of the interpreter's loop, on mutable register and memory arrays of unbounded integers, is one ISA instruction on 32-bit words, or raises exactly on the opcodes it does not cover |
| PythonModel.Run | tools/rv32i_model.py:21-78 | the whole run is the iteration of ISA steps up to the halt word; registers stay below 2^32 and x0 stays 0 |
| PythonModel.RaisesExactly | tools/rv32i_model.py:39-76 | the interpreter raises if and only if a word with another opcode comes before the first halt word |
| PythonModel.LenientIsDecode | tools/rv32i_model.py:29-76 | on every instruction the model is meant for it reads the word as the ISA does, although it ignores most of funct7 |
| PythonModel.SextIsSignExtend | tools/rv32i_model.py:14-18 | `sext` is the signed reading of the low bits, for any integer and width |
| PythonModel.FieldsOf | tools/rv32i_model.py:29-37 | the shifts and masks pick out the ISA's fields and immediates |
| PythonModel.RegisterRefines | tools/rv32i_model.py:42-52 | register operations on unbounded integers, truncated at the end, are the 32-bit operations of section 2.4, arithmetic shift included |
| PythonModel.ImmediateRefines | tools/rv32i_model.py:53-63 | the same with a negative, unbounded immediate operand |
| PythonModel.LogicOfWord | tools/rv32i_model.py:58-60 | a logical operation with an infinite sign extension has the right low word |
| Bits.OperatorsActOnBits | tools/rv32i_model.py:57-63 | the bitwise operators on unbounded integers act on every bit |
| ReferenceRuns.ProgramsArePlain | tools/rand_gen.py:188-221 | every program of `gen` is plain words without control flow, then the four completion words, then the halt word |
| ReferenceRuns.BodyInStep | tools/rv32i_model.py:28-72 | at every body word the interpreter and a machine following the ISA hold the same registers and scratch words, and x11..x31 are still zero |
| ReferenceRuns.ReferencesAreIsaResults | tools/rv32i_model.py:21-78 | on every `gen` program the interpreter never raises and ends with x11..x29 = 0, x30 = 0xFFF0, x31 = 1, and a machine out of reset reaches the halt word with exactly its registers and a 1 in tohost |
| Assembler.Assemble | tools/asm.py:47-139 | the label pass and the emission pass, as loops over tables, compute the assembled words or fail where the source raises |
| Assembler.RefusesExactly | tools/asm.py:42-138 | a source is refused if and only if some line holds an operation that cannot be encoded: an operand that is neither a label nor a number, an unknown label for `la`, a directive without a number, or an unknown operation |
| Assembler.LabelsAreMarks | tools/asm.py:47-55 | the labels are exactly the names that mark a line |
| Assembler.PassesAgree | tools/asm.py:42-56 | both passes lay out the same program if and only if no `.fill` count is negative |
| Assembler.LineIsAtItsAddress | tools/asm.py:47-61 | in an accepted source the words of every line stand at index address / 4 |
| Assembler.LabelIsLastDefinition | tools/asm.py:51-55 | a label is the address of the line that defines it last |
| Assembler.OperationsDecode | tools/asm.py:59-122 | every operation that names an integer, control transfer or memory instruction, `nop`, `halt` and `ret` is emitted as one word that the ISA decodes to the instruction written, its operand, truncated to its field, being the distance to its label if it is one and the number written otherwise |
| Assembler.LinesDecode | tools/asm.py:47-122 | in an accepted source the word at the address of an instruction's line decodes to that instruction, its operand being the distance to the last line marked with that name, or else the number |
| Assembler.SystemWords | tools/asm.py:123-127 | `ecall`, `ebreak`, `mret`, `fence` and `fence.i` carry the opcode, function and immediate fields the ISA gives them |
| Assembler.CsrFields | tools/asm.py:132-137 | a CSR instruction carries CSR number, source and destination in the fields the ISA reads |
| Assembler.DataWords | tools/asm.py:128-131 | a raw word is emitted modulo 2^32, a fill as that many no-ops, none for a negative count |
| Assembler.BranchReachesLabel | tools/asm.py:96-101 | a branch to a label decodes with the label's distance if and only if that lies in [-4096, 4096) |
| Assembler.JumpReachesLabel | tools/asm.py:104 | the same for `jal` and [-2^20, 2^20) |
| Assembler.BranchExecutes | tools/asm.py:61-63 | executed at any load address, an in-range branch continues at the load address plus the label, or at the next word |
| Assembler.JumpExecutes | tools/asm.py:104 | executed at any load address, an in-range jump continues at the load address plus the label and links the next address |
| Assembler.LaLoadsAddress | tools/asm.py:107-111 | `la` leaves base + label in its register if and only if the label is within 2 KiB, and changes nothing else |
| Assembler.TohostSignals | tools/asm.py:112-121 | `tohost N` stores once, to 0xFFF0, and stores N if and only if N fits 12 signed bits |
| Assembler.FarBranchMisses | tools/asm.py:96-101 | an accepted source whose branch over 1024 words decodes to another distance |
| Assembler.FarJumpMisses | tools/asm.py:104 | an accepted source whose jump over 2^18 words decodes to another distance |
| Assembler.FarLaMisses | tools/asm.py:107-111 | an accepted source whose `la` over 512 words loads another address, wherever it is loaded |
| Assembler.NegativeFillMisplaces | tools/asm.py:42-56 | an accepted source with a fill of -1: the label is -4, the word it marks stands at index 0 |
| Assembler.TohostTruncates | tools/asm.py:112-121 | `tohost 4096` is accepted and stores 0 |
| Runtime.Multiply | bench/rv32i_runtime.c:1-10 | the shift-and-add loop returns the product modulo 2^32 |
| Runtime.DivideUnsigned | bench/rv32i_runtime.c:12-37 | n = q * d + r with r < d for every non-zero divisor, also above 2^31 where the remainder needs a 33rd bit; (2^32 - 1, n) for zero |
| Runtime.CompareAndSubtract | bench/rv32i_runtime.c:26-33 | the carry test decides the comparison of the 33-bit remainder, and the wrapped subtraction is exact |
| Runtime.UnsignedDivide | bench/rv32i_runtime.c:39-42 | the quotient, all ones for zero |
| Runtime.UnsignedRemainder | bench/rv32i_runtime.c:44-48 | the remainder, the numerator for zero |
| Runtime.SignedDivide | bench/rv32i_runtime.c:50-56 | division rounding toward zero, wrapped to 32 bits; the result equals DIV of the ISA if and only if the divisor is not zero or the numerator not negative |
| Runtime.SignedRemainder | bench/rv32i_runtime.c:58-64 | the remainder with the numerator's sign, the numerator for zero: REM of the ISA for every pair |
| Runtime.TruncationLaw | bench/rv32i_runtime.c:50-64 | quotient and remainder toward zero are the only pair with n = q * d + r, abs(r) < abs(d) and the numerator's sign on r |
| Runtime.OnlyOneQuotientOverflows | bench/rv32i_runtime.c:50-56 | the 32-bit quotient is exact for every pair but INT_MIN / -1, which wraps to INT_MIN |
| Runtime.SignedDivisionIdentity | bench/rv32i_runtime.c:50-64 | the two helpers fit together modulo 2^32, and over the integers for every pair but one |
| Crc32.ChecksumLoop | bench/crc32.c:22-28 | the nested loops over any buffer compute the bit-serial CRC register |
| Crc32.Bench | bench/crc32.c:12-29 | fills the buffer with the xorshift bytes and returns its CRC |
| Crc32.PatternIsXorshift | bench/crc32.c:13-20 | the bytes are those of the xorshift sequence 13, 17, 5 from 0xACE1, each step given bit by bit |
| Crc32.RoundIsShift | bench/crc32.c:24-25 | one reflected round is multiplication by x modulo the CRC-32 generator |
| Crc32.RegisterIsCongruent | bench/crc32.c:22-26 | after every byte the register is congruent to the message polynomial so far |
| Crc32.ChecksumIsRemainder | bench/crc32.c:22-28 | a number is the remainder of dividing the preset message polynomial by the generator if and only if it is the reflected, complemented result |
| Crc32.TableFormAgrees | bench/crc32.c:22-26 | after every byte the register equals the table-driven one of section 8 of RFC 1952 |
| LinkedRing.FillValues | bench/llist.c:25-26 | the first loop writes 7 * i + 1 modulo 2^32 to node i |
| LinkedRing.LinkNode | bench/llist.c:28-32 | one turn of the second loop links one node and leaves all other links |
| LinkedRing.Build | bench/llist.c:25-32 | over a pool of distinct nodes the loops write every value and link every visited node to the next visited one |
| LinkedRing.Chase | bench/llist.c:34-40 | the pointer chase returns the sum of the values it visits modulo 2^32 |
| LinkedRing.Bench | bench/llist.c:21-41 | both together; with a coprime stride the number returned is given in closed form |
| LinkedRing.SingleCycleIffCoprime | bench/llist.c:3-9 | the positions the construction visits run through all nodes if and only if the stride is coprime to their number |
| LinkedRing.FollowsPositions | bench/llist.c:28-38 | in the heap, following `next` from the first node visits the nodes in that order |
| LinkedRing.HeapRingIffCoprime | bench/llist.c:3-9 | the pointers of the built pool form one cycle through all its nodes if and only if the stride is coprime to their number |
| LinkedRing.PositionsDiffer | bench/llist.c:28-32 | with a coprime stride no node is linked twice |
| LinkedRing.ChaseSumsEveryNode | bench/llist.c:35-38 | with a coprime stride, NODES * PASSES steps visit every node PASSES times: the sum is PASSES times the sum of all values |
| LinkedRing.ChaseReturns | bench/llist.c:34-40 | with a coprime stride the number returned is PASSES * (7 * (N * (N - 1) / 2) + N) modulo 2^32 |
| LinkedRing.BenchmarkReturns | bench/llist.c:10-12 | 269 is coprime to 512, and the benchmark returns 29319168 |
| Lines.SplitInTwoReads | tools/lockstep.py:127-131 | splitting a text in two reads, the partial line carried over, gives the lines of one read |
| SpikeLog.SpikeTrace.Update | tools/lockstep.py:117-153 | over any chunking of the log into reads the parser object is where one parse of the whole log is, and raises exactly when that raises; once complete it never changes |
| SpikeLog.ParseSelects | tools/lockstep.py:132-153 | a parse yields exactly the commits from the first at the reset address through the first self-loop; it is complete iff that was seen and raises iff one of them is malformed |
| SpikeLog.CompleteParseIsSealed | tools/lockstep.py:138-153 | complete records start at the reset address, hold one sentinel, at the end, and report x0 as zero |
| SpikeLog.ParseOfPrefix | tools/lockstep.py:118-131 | reading on never repairs a malformed log and never changes a completed parse |
| Hex.RoundTrip | sim/cpu_tb.cpp:311-313 | a number printed in n hexadecimal digits reads back |
| RtlTrace.RetirementLoop | sim/cpu_tb.cpp:253-279 | for every design the loop logs every retirement; a snapshot runs the requested cycles, the other modes end in the first cycle that retires 0x0000006F, or signals completion, if there is one among the first 50 * cycles + 1000, and run that many cycles otherwise |
| RtlTrace.RetiredInOrder | sim/cpu_tb.cpp:263-268 | the log holds each retirement at the place of its cycle among those that retire, and nothing else |
| RtlTrace.ParseRtlTrace | tools/lockstep.py:78-103 | the line loop accepts or raises as specified |
| RtlTrace.RecordRoundTrip | tools/lockstep.py:27-29 | a printed record is accepted if and only if its register number is below 32, and is read as itself with writes to x0 cleared |
| RtlTrace.TraceRoundTrip | tools/lockstep.py:88-103 | a written trace is accepted if and only if its registers fit and the sentinel occurs once, at the end; it then reads back |
| RtlTrace.AcceptedIsWritten | tools/lockstep.py:27-103 | nothing else is accepted: every accepted file consists of the lines of such a trace |
| RtlTrace.SelfLoopRunRoundTrip | sim/cpu_tb.cpp:260-318 | a self-loop run ends terminally if and only if `parse_rtl_trace` accepts its trace, and then it yields the retirements of the run |
| Lockstep.CompareTraces | tools/lockstep.py:156-192 | passes if and only if the traces are equal, non-empty and end in the self-loop; otherwise reports the longest common prefix |
| Lockstep.TerminateAndReap | tools/lockstep.py:42-57 | every child has been waited for afterwards; it is signalled exactly when it was still running, and the result says so |
| Lockstep.PollChildren | tools/lockstep.py:233-242 | collects both statuses, and signals Spike exactly when its stream is complete and it is still running after the poll, the grace period and the last look |
| Lockstep.Judge | tools/lockstep.py:244-261 | which statuses end the run, Spike's before the simulator's, where only death by SIGTERM or SIGKILL after the parent's own signal is excused, and that the trace is read once, after the simulator exited 0 |
| Lockstep.WatchTurn | tools/lockstep.py:233-274 | one pass of the polling loop goes on, finishes with everything established, or fails with its reason, and does not fail in a cooperative environment |
| Lockstep.Watch | tools/lockstep.py:226-274 | for every environment the polling loop ends by the deadline, and returns traces or raises with the reasons spelled out in `Established` and `Explained`; it does return them when nothing goes wrong before the deadline |
| Lockstep.Supervise | tools/lockstep.py:231-285 | the same with the `finally` clause: both children are reaped on every exit |
| Lockstep.RunChildren | tools/lockstep.py:195-285 | traces are returned only if the simulator exited 0, its trace was accepted, Spike's stream was sealed, and Spike exited 0 or died of the signal the parent sent in a turn in which the stream was already sealed |
| Lockstep.CheckProgram | tools/lockstep.py:304-317 | the exit status is 0 only if an accepted trace and a sealed log of this run agree, and it is 0 whenever the environment cooperates and they do |
| EndToEnd.TraceFileKeepsRecords | sim/cpu_tb.cpp:307-318 | the records of a machine survive the trace file |
| EndToEnd.LogKeepsRecords | tools/lockstep.py:117-153 | a log of boot ROM, run and anything after it parses to the records of the run |
| EndToEnd.CorrectCoresPass | tools/rand_gen.py:86-92 | no false alarms: on every generated program two machines that follow the ISA, whatever their registers held, produce a trace file and a log that the comparison accepts and finds equal |
| EndToEnd.CorrectCoresExitZero | tools/lockstep.py:195-317 | from the written trace file on: if both children do their work by the deadline, in any interleaving, the exit status of the tool is 0 |
| EndToEnd.WrittenIsCollected | sim/cpu_tb.cpp:253-318 | what a design that retires the ISA's records at any pace has retired when it first comes to the self-loop reads back, from the trace file, as those records |
| EndToEnd.CorrectDesignExitsZero | tools/lockstep.py:195-317 | the whole tool, testbench loop included: such a design that comes to the self-loop within 50 * cycles + 1000 clock cycles, a correct Spike and an undisturbed run give exit status 0 on every generated program |
| EndToEnd.DesignFollows | sim/cpu_tb.cpp:261-268 | on every generated program there is such a design, retiring one instruction a cycle |
| EndToEnd.UndisturbedRun | tools/lockstep.py:226-274 | for every trace and log there is an undisturbed run |
| EndToEnd.PassMeansIsa | tools/lockstep.py:156-192 | no missed difference: on a confirmed run the retirements any core wrote are, with writes to x0 cleared, the records the ISA prescribes for the program |
| Uart.UartDecoder.Observe | sim/soc_tb.cpp:30-61 | one observed level changes the decoder as specified |
| Uart.Decode | sim/soc_tb.cpp:160-163 | observing a run of levels yields its bytes and its error |
| Uart.FrameDecodes | sim/soc_tb.cpp:37-57 | an 8-N-1 frame with at least two cycles a bit yields its byte and leaves the decoder ready |
| UartFrames.FrameIsSampled | sim/soc_tb.cpp:30-61 | after a falling edge only the middles of the ten bits count, whatever the line does between: the byte is that of the eight data bits, and an error is reported if and only if the stop bit is low or the start bit high there |
| UartFrames.ErrorsStay | sim/soc_tb.cpp:40-63 | a reported error is never forgotten |
| Uart.WaveDecodes | sim/soc_tb.cpp:28-73 | every sequence of bytes with any idle gaps, none included, is decoded exactly and without error |
| Uart.DecodesIffDivisorIsTwoOrMore | sim/soc_tb.cpp:35-42 | that holds if and only if a bit lasts at least two cycles |
| SocHarness.Testbench.Drive | sim/soc_tb.cpp:135-152 | the button level of a cycle |
| SocHarness.Testbench.Receive | sim/soc_tb.cpp:163-176 | collects a byte and accepts a finished line only if it is the expected one |
| SocHarness.Testbench.FollowLed | sim/soc_tb.cpp:178-186 | accepts an LED change only if it is the expected one |
| SocHarness.Testbench.Switch | sim/soc_tb.cpp:188-257 | the switch over the eight scenario states |
| SocHarness.PlayScenario | sim/soc_tb.cpp:134-261 | the loop returns 0 if and only if the specified run passes before the deadline, and drives the specified button levels |
| SocHarness.Invariant | sim/soc_tb.cpp:134-250 | while the harness runs, the received text is the expected lines so far and the current line, no cycle was faulty, and LED, marks and button are where the scenario says |
| SocHarness.SuccessIsDemonstrated | sim/soc_tb.cpp:134-257 | for every design, success means: exactly the three expected lines were received, the LED showed 1, 2, 4 since boot and did not react to bouncing or release, no cycle had a bus fault or framing error, the comparison with the progress mark succeeded after each interrupt line, and the button was bounced, held, released and pressed as planned |
| SocHarness.ProgressOfRun | sim/soc_tb.cpp:214-250 | in a run that passed, progress moved on by more than 8 after each interrupt line if and only if it stood below 2^32 - 8 there |
| SocHarness.ProgressTestIsExact | sim/soc_tb.cpp:221-224 | the comparison means progress by more than 8 if and only if the mark is below 2^32 - 8 |
| SocSchedule.ScheduleSuffices | sim/soc_tb.cpp:134-257 | every design that receives, lights and progresses on the stated schedule is passed, in the cycle the schedule names |
| SocExactly.PassesExactlyOnSchedule | sim/soc_tb.cpp:134-257 | and no other design is: success in cycle k is reported if and only if there are cycles for the lines, LED changes and progress that keep the schedule up to k |
| SocSchedule.WorkingDesignPasses | sim/soc_tb.cpp:134-257 | every design that sends the three lines as 8-N-1 frames with any gaps, changes its LED in time and passes every mark within a window is passed once its last byte is sent and the window is over |
| SocSchedule.WorkingDesignIsAccepted | sim/soc_tb.cpp:90-261 | if that is before the deadline, the exit code is 0 |
| SocSchedule.MovingDesignPasses | sim/soc_tb.cpp:221-224 | a design with a cycle counter as progress is passed, and its progress did move on |
| SocSchedule.StandingDesignPasses | sim/soc_tb.cpp:221-224 | a design whose progress stands still at 2^32 - 1 is passed |
| SocImage.ParseElf | tools/soc_image.py:71-155 | accepts or rejects the bytes of an ELF file as `Parsed` says; which files these are is AcceptsExactly |
| ElfFiles.AcceptsExactly | tools/soc_image.py:71-155 | a file is accepted if and only if, byte by byte, it has a 32-bit little-endian RISC-V header with its section headers and names inside the file, every section is named and has its content in the file, allocated sections lie in [0, 0x8000) or [0x20000000, 0x20008000), and those that are not empty are disjoint; the entry is the word at offset 24 and the sections are the allocated ones in order, field by field |
| ElfFiles.NameExactly | tools/soc_image.py:59-68 | a section name is the UTF-8 text up to the first zero byte, and missing if and only if there is none |
| SocImage.CollectSections | tools/soc_image.py:123-146 | the section loop gathers the allocated sections and their non-empty ranges |
| SocImage.ParsedIsAccepted | tools/soc_image.py:133-155 | the sections of every accepted file lie inside one of the two memories, hold exactly their size in bytes, and are pairwise disjoint when not empty |
| SocImage.OverlapCheckIsExact | tools/soc_image.py:148-154 | looking at neighbours after sorting accepts exactly the lists of pairwise disjoint sections |
| SocImage.BuildImages | tools/soc_image.py:158-186 | builds both images in place, or raises exactly if a capacity is not between 1 and 8192 words or a section ends behind its image |
| SocImage.Place | tools/soc_image.py:174-178 | slice assignment changes the section's bytes and no others |
| SocImage.ContentIsTheSection | tools/soc_image.py:165-178 | among disjoint sections the byte at an address is that of the one section covering it |
| SocImage.OrderIsIrrelevant | tools/soc_image.py:165-178 | any order of the sections builds the same images |
| SocImage.FullCapacityFits | tools/soc_image.py:315 | at the capacity `main` uses no accepted section is too big |
| SocImage.HexFileReadsBack | tools/soc_image.py:205-209 | line k of an image file is the eight digits of word k |
| SocImage.Convert | tools/soc_image.py:313-317 | both images are built and written, or the conversion raises, as `Converted` says |
| ElfFiles.ConvertsExactly | tools/soc_image.py:71-317 | the conversion succeeds exactly on those files; both images then have 8192 lines of eight digits, every byte of an allocated section with content stands at its address, and every other byte is zero |
| SocImage.ImagesHoldSections | tools/soc_image.py:123-209 | byte a of every section with content is the (a mod 4)-th little-endian byte of line (a - base) / 4 of the file of its memory, and every other byte is zero |
| SocImage.ImagesHoldFile | tools/soc_image.py:112-209 | the same in terms of the ELF file: every byte an allocated section header points to stands at its address in the image file, and every address no such header covers holds zero |
| Gif.SkipSubblocks | tools/portfolio_demo.py:201-211 | follows a sub-block chain, never past the end of the data |
| Gif.GifMetadata | tools/portfolio_demo.py:214-257 | the block loop terminates on arbitrary bytes, each block moving the offset forward, and returns what the specification reads |
| Gif.BlocksAreSkipped | tools/portfolio_demo.py:201-211 | a printed chain of sub-blocks is skipped to its end |
| Gif.SkippedAreBlocks | tools/portfolio_demo.py:201-211 | whatever is skipped is a printed chain of sub-blocks |
| Gif.SegmentIsRead | tools/portfolio_demo.py:227-256 | a printed control, extension or image block advances offset, count, delay and duration by its own contribution |
| Gif.ReadIsSegment | tools/portfolio_demo.py:227-256 | every accepted block is the print of such a block |
| Gif.PrintedIsRead | tools/portfolio_demo.py:214-257 | a printed animation, followed by anything, yields its width, height, image count and summed delays |
| Gif.ReadsExactlyWhatIsWritten | tools/portfolio_demo.py:214-257 | metadata is returned if and only if the data starts with a printed animation that it describes |
| Gif.DurationIsOfImages | tools/portfolio_demo.py:229-256 | the summed delays are those of the images, read after section 23 of the GIF89a specification, if and only if no image follows a non-zero delay and a plain-text block with only extensions between |
| Gif.PlainTextIsCounted | tools/portfolio_demo.py:229-256 | a stream whose only image has no delay and for which 10 hundredths of a second are reported |
| Markers.MatchIsText | tools/render_portfolio.py:29 | the marker pattern matches exactly the texts of markers with proper names |
| RenderedText.MatchesMarkerText | tools/render_portfolio.py:29 | these texts are `<!-- portfolio:`, a lower-case letter, any of a to z, 0 to 9 and hyphen, and `:start -->` or `:end -->` |
| Markers.MarksOfParts | tools/render_portfolio.py:29 | no marker straddles a place where a marker or a line starts, so markers can be counted part by part |
| Markers.CountIsMarks | tools/render_portfolio.py:39-42 | counting a marker's text in the source counts its matches |
| Markers.MarksOfStrip | tools/render_portfolio.py:50 | stripping content removes no marker |
| Markers.ReplacesExactlyPairs | tools/render_portfolio.py:36-50 | a block is replaced if and only if its start marker occurs once and its end marker once, as the next marker |
| RenderedText.RefusesExactly | tools/render_portfolio.py:36-50 | which of the four reasons is given: a marker missing; one repeated; end listed before start; another marker between them |
| RenderedText.RefusesNames | tools/render_portfolio.py:301-306 | a document is refused for an unknown block if some marker names none, else for a missing block if some block has no marker, and otherwise its blocks are replaced one after another |
| RenderedText.StripsExactly | tools/render_portfolio.py:50 | stripping drops exactly the white space, by code point, at both ends |
| Markers.ReplacedMarks | tools/render_portfolio.py:50 | replacing puts the content's markers between the block's own and changes no other |
| Markers.RenderDocument | tools/render_portfolio.py:301-309 | the check of the names and the loop over the blocks |
| Markers.RendersExactlyWellMarked | tools/render_portfolio.py:301-309 | contents free of markers are rendered into exactly the documents whose markers are one adjacent pair for each name, and the markers stay as they were |
| RenderedText.RenderKeepsTheRest | tools/render_portfolio.py:307-309 | the text outside the blocks is unchanged, and every block holds its content, without the white space at its ends, between two newlines |
| Markers.RenderedTwice | tools/render_portfolio.py:286-309 | a second rendering changes nothing if and only if no content holds a marker; otherwise it refuses the document |
| Markers.MarkedContentIsRefused | tools/render_portfolio.py:286-309 | a well-marked document and a content for which the first run succeeds and the second refuses |

## Left out

- SpikeRuns.RunsStayInside: stated for programs loaded word-aligned, inside the address space and clear of the data window, which compliance/link/spike-lockstep.ld arranges for programs below 2 MiB; the generator itself does not bound n.
- ReferenceRuns.ReferencesAreIsaResults: stated for programs that fit the 32-bit address space, on separate instruction and data memories as in the RTL.
- RtlTrace.ParseRtlTrace: lines end in a newline character only, as the trace writer ends them; the other characters `splitlines` splits at make a record malformed here.
- SpikeLog.SpikeTrace.Update: the two regular expressions for a log line are an arbitrary function from lines to commits; lines end in a newline character only, without universal newline handling or replacement of undecodable bytes.
- Lockstep.RunChildren: a log file only grows while it is read; how long a turn takes is not modelled, the deadline is the number of a turn.
- PythonModel.Run: for at least one scratch word; the tool always uses 64, and with none the source would divide by zero on the first access.
- SocImage.BuildImages: for sections as `parse_elf` produces them, since `main` calls it with nothing else.
- Markers.RenderDocument: one document at a time, with contents for all its block names as `block_contents` supplies them; reading and writing files, the status line of docs/coverage.md and the texts of the blocks are left out.
- Gif.GifMetadata: durations are counted in hundredths of a second instead of floating-point seconds.
- The random number generator: its draws are an arbitrary function, so weights and distributions are not modelled.
- The tokeniser of tools/asm.py: operations come with resolved register names, and operands with the number they denote if they denote one; CSR names are resolved, too.
- Byte and halfword accesses, traps and CSR instructions: the assembler produces them and their fields are proved right, but the execution model stops there.
- The RTL, its caches, predictor and bus: the harnesses are proved against every design, and no design is modelled.
- Spike and the operating system: children are exit statuses chosen by the environment, and only the answers to poll, wait and kill are modelled.
- Messages on the console, the VCD and signature output of sim/cpu_tb.cpp, and its performance counters.
- Temporary files, atomic renames, hashing and manifests of tools/soc_image.py.
- tools/results.py, tools/evidence_check.py, tools/verification.py and synthesis: long lists of field comparisons without interaction.
- bench/sort.c, bench/matmul.c, bench/interp.c, firmware/demo.c and tools/configuration.py are not modelled.
