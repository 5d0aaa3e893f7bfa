# An RV32I simulator, modelled and proved

This project models the simulator's machine core, its instruction codes and texts, its three program loaders, its
address-to-source index and the guest runtime's memory functions, and proves what they are for. `dafny verify
dfyconfig.toml` checks all of it.

The C code works on bit patterns; the specification it is proved against does not. `Isa.dfy` is the reference: the 40
RV32I operations of the RISC-V Unprivileged ISA (sections 2.2 to 2.8) as a table of patterns and as arithmetic on
integers modulo 2^32. `Instruction.dfy`, `Memory.dfy` and `Cpu.dfy` are the shifts, masks, byte writes and branches of
the C code. `Bits.dfy` and `Bytes.dfy` connect the two: they give `&`, `|`, `^` and `>>` digit by digit and prove
what the code's idioms mean as quotients, remainders and sums.

| file | what it holds |
|---|---|
| `Bits`, `Bytes` | C's operators on naturals, and little-endian byte strings |
| `Isa` | the reference: patterns, immediates, one step over integers |
| `Instruction`, `Encoding`, `Disassembly`, `Assembly` | the decoder, the encoders it inverts, the texts it prints, and an assembler that reads them back |
| `Memory`, `Cpu`, `StepRecord`, `StepLaws` | RAM, the processor, what a step must record, and laws of one step |
| `Controller`, `Histories`, `Machine` | the machine as a state machine, laws of runs and of whole histories, and the class that implements it |
| `Program`, `ProgramIo`, `WordText`, `WordReader`, `WordLaws` | loaded programs, the raw binary loader, and the `.words` format, reader and laws |
| `Uleb`, `Attributes`, `ElfBytes`, `ElfLoader`, `ElfFormat` | ULEB128, RISC-V attribute sections, the ELF loader, and ELF files as they are written |
| `Options` | values that may be absent |
| `LineRows`, `DebugIndex` | the fold of line rows into address ranges, and the index over them |
| `GuestMemory` | `memcpy`, `memmove`, `memset` and `memcmp` on one flat array |

Three ways of modelling run through all files. A NULL owner of bytes is an array of length zero. An allocation that may
fail is a flag or a free choice, and a loader's verdict is stated exactly whenever storage is available. A stream is its
whole contents, a position and a flag saying whether reading breaks down at the end; `fread` may return any part of what
is asked for. The run controller's callbacks are the sequence of their answers and the sequence of traced records.

One thing a reader of the line-row fold might expect is not true of it: rows that are accepted need not give disjoint
ranges. After a line-zero row the next address may go back, so `LineRows.AcceptedRowsMayOverlap` gives accepted rows
whose ranges overlap, and `LineRows.AscendingExactly` says exactly which rows give ascending ranges. That input is one of
the abstract row stream. libdw, which is not part of this model, sorts all rows of a unit by address, so
`LineRows.SequenceRangesAscend` applies to the whole unit it delivers; where only each sequence is ordered,
`LineRows.UnitOfSequences` does. The index is proved correct for arbitrarily overlapping ranges.

The `.words` reader's message "invalid program address", the step's late failures (a register index out of range, a
store refused after its location was read, the switch's default) and the machine's refusal of a program that one of the
three loaders produced are proved never to happen.

## Model

| member | source | states |
|---|---|---|
| `Cpus.Cpu.StepRecorded` | src/cpu.c:231-249 | for every processor and RAM: the state, the result and the whole before/after record are those of one reference step over integers |
| `Cpus.Cpu.Execute` | src/cpu.c:94-229 | order of the checks: halted, misaligned or failed fetch, unknown word, then the operation; each leaves exactly the reference state and record |
| `Cpus.Cpu.ExecuteSystem` | src/cpu.c:112-173 | ECALL and EBREAK record both operands and trap, with value 0 and with the program counter |
| `Cpus.Cpu.ExecuteKnown` | src/cpu.c:112-229 | a decoded operation other than ECALL and EBREAK reaches the reference state and record, or the misaligned-target trap |
| `Cpus.Cpu.Complete` | src/cpu.c:178-229 | data access, trap or retirement once the switch has been decided |
| `Cpus.Cpu.Commit` | src/cpu.c:215-228 | register write under the x0 rule, its before and after values, program counter and count |
| `Cpus.Cpu.ReadRegister` | src/cpu.c:28-33 | x0 reads as zero whatever is stored; an index of 32 or more is refused |
| `Cpus.Cpu.WriteRegister` | src/cpu.c:35-40 | a write to x0 is accepted and changes nothing; any other changes one register |
| `Cpus.Cpu.Reset` | src/cpu.c:23-26 | every register, the program counter, the count and the halted flag are cleared |
| `Cpus.AccessData` | src/cpu.c:183-213 | misalignment before access fault, four causes; a load gives the extended value, a store the new RAM, both with the values before and after |
| `Cpus.StoreValue` | src/cpu.c:199-205 | what a store writes and what it records as the value after; no second refusal |
| `Cpus.ReadWidth` | src/cpu.c:68-85 | the little-endian value of 1, 2 or 4 bytes, exactly when the access is aligned and inside RAM |
| `Cpus.WriteWidth` | src/cpu.c:87-92 | the truncated value replaces exactly those bytes |
| `Cpus.SelectMeaning` | src/cpu.c:118-176 | the switch on bit patterns gives the reference value, next program counter, transfer, width and destination rule, for every known word |
| `Cpus.SwitchFacts` | src/cpu.c:112-181 | the same for a fetched word and the registers it names, with the branch target included |
| `Cpus.SignedLessMeaning` | src/cpu.c:8-11 | comparing after flipping the top bits is comparing the signed numbers |
| `Cpus.ArithmeticRightMeaning` | src/cpu.c:13-21 | the shift with filled-in ones is floor division of the signed number by 2^(amount mod 32) |
| `Cpus.ExtendLoadedMeaning` | src/cpu.c:206-211 | the masks used by LB and LH are two's-complement extension; LBU, LHU and LW add nothing |
| `Cpus.SelectIndirect` | src/cpu.c:152-153 | JALR's target is the sum with bit zero cleared |
| `Bits.OperatorDigits` | src/cpu.c:132-136 | each binary digit of the three bitwise operators is the and, or and exclusive or of the operands' digits |
| `Bits.DigitsDetermine` | src/cpu.c:132-136 | a number is determined by its digits, so the three operators can be nothing else |
| `StepLaws.PreciseTraps` | src/cpu.c:94-249 | a result other than OK changes neither state nor record's register and memory effects; a trap is raised exactly for the trap results, at the faulting program counter, with the cause its result names |
| `StepLaws.TrapsExplained` | src/cpu.c:94-229 | every trap has the value its cause calls for, and its cause the condition that gives it |
| `StepLaws.ResultsNameCauses` | src/cpu.c:99-175 | different causes give different results, none of them OK, halted or invalid argument |
| `StepLaws.CountsRetirements` | src/cpu.c:226-228 | the count moves by one modulo 2^64 exactly when a step retires |
| `StepLaws.StepKeepsSound` | src/cpu.c:35-40 | x0 stays zero, the program counter stays a multiple of 4, RAM keeps its size and the halted flag its value |
| `StepLaws.MisalignmentIsATransfer` | src/cpu.c:178-180 | from an aligned program counter a misaligned-PC result comes from a taken branch or jump, the value is its target, and it is 2 modulo 4 |
| `StepLaws.RedoStep` | src/cpu.c:183-249 | a record alone carries the state before a step to the state after it |
| `StepLaws.UndoStep` | src/cpu.c:183-249 | and the state after it back to the state before, whatever the step overwrote |
| `StepLaws.RecordExplains` | src/cpu.c:105-249 | a record tells what happened in its own terms: operands by register number, address from operand and immediate, destination, x0 rule, next program counter |
| `Instruction.DecodeKind` | src/instruction.c:45-155 | a kind is given exactly to the words of its pattern, and a word of no pattern is unknown |
| `Instruction.PatternsDisjoint` | src/instruction.c:45-155 | no word matches two of the 40 patterns |
| `Instruction.DecodedFields` | src/instruction.c:32-43 | the six slices and the raw word are kept whatever the opcode |
| `Instruction.DecodeImmediate` | src/instruction.c:45-155 | the immediate of every known word denotes the signed offset its format defines |
| `Instruction.SignExtendMeaning` | src/instruction.c:20-24 | `(value ^ sign) - sign` denotes the two's-complement reading of the low bits, and `instruction_signed_value` reads it back |
| `Instruction.BBitsMeaning` | src/instruction.c:45-155 | the scattered branch bits add up to the offset they encode |
| `Instruction.JBitsMeaning` | src/instruction.c:45-155 | the scattered jump bits add up to the offset they encode |
| `Encoding.DecodeEncodedR` | tests/support/encoding.h:8-11 | decoding recovers every field of an encoded R word |
| `Encoding.DecodeEncodedI` | tests/support/encoding.h:12-15 | under every opcode decoding recovers all fields of an I word; loads, JALR and immediate operations recover the signed immediate (shifts their amount), FENCE and system words have none |
| `Encoding.DecodeEncodedS` | tests/support/encoding.h:16-20 | and the registers and signed immediate of an S word |
| `Encoding.DecodeEncodedB` | tests/support/encoding.h:21-26 | and the registers and every even in-range offset of a B word |
| `Encoding.DecodeEncodedJ` | tests/support/encoding.h:27-32 | and the register and every even in-range offset of a J word, always decoded as JAL |
| `Encoding.ReencodeDecoded` | src/instruction.c:45-155 | encoding the decoded parts of any known word other than FENCE gives the word back |
| `Disassembly.TextLength` | src/disassembly.c:62-99 | every one of the 2^32 texts has at most 32 characters |
| `Disassembly.LongestText` | src/disassembly.c:72-74 | and every FENCE has exactly 32 |
| `Disassembly.NeverTruncates` | src/disassembly.c:62-99 | success exactly when text and terminator fit, always with a capacity of 33; a failure leaves a prefix |
| `Disassembly.FixedWidths` | src/disassembly.c:70-82 | data words print eight digits and upper immediates five, zeros included; decimal numbers have no leading zero |
| `Assembly.TextReads` | src/disassembly.c:62-99 | an assembler that splits a text into name and operands, reads numbers and registers by value and places the operands by the encodings gives back every known word but FENCE, of a FENCE its three ordering fields, and of `.word` the value |
| `Assembly.MnemonicNamed` | src/disassembly.c:6-48 | the assembler's own name table takes every printed name to its kind |
| `Assembly.EqualText` | src/disassembly.c:62-99 | two words print alike exactly when they are equal or are FENCEs with the same top twelve bits |
| `Assembly.EqualTextEqualEffect` | src/disassembly.c:62-99 | words that print alike have the same outcome in every state |
| `Assembly.MnemonicInjective` | src/disassembly.c:62-76 | the word a text begins with, `.word` for unknown ones, tells the kinds apart |
| `Assembly.NamesDistinct` | src/disassembly.c:6-48 | no two kinds share a name in the table |
| `RamOwner.Memory.Init` | src/memory.c:29-45 | an empty owner gets zeroed RAM of a valid size, or nothing changes |
| `RamOwner.Memory.Reset` | src/memory.c:58-64 | usable RAM becomes zero, any other is left alone |
| `RamOwner.Memory.CopyFrom` | src/memory.c:66-79 | equal sizes required; the bytes of the source, also when both are the same buffer |
| `RamOwner.Memory.CloneFrom` | src/memory.c:81-103 | a fresh copy, a no-op on itself, and the old bytes kept on failure |
| `RamOwner.Memory.ReadU8` | src/memory.c:105-114 | the byte, exactly when the access is valid |
| `RamOwner.Memory.WriteU8` | src/memory.c:116-125 | one byte replaced, or RAM unchanged |
| `RamOwner.Memory.ReadU16` | src/memory.c:127-138 | the little-endian halfword, exactly when the access is valid |
| `RamOwner.Memory.WriteU16` | src/memory.c:140-150 | two bytes replaced, or RAM unchanged |
| `RamOwner.Memory.ReadU32` | src/memory.c:152-164 | the little-endian word, exactly when the access is valid |
| `RamOwner.Memory.WriteU32` | src/memory.c:166-178 | four bytes replaced, or RAM unchanged |
| `RamOwner.AccessCheck` | src/memory.c:20-27 | the subtraction-based check is alignment plus the range lying inside RAM, without overflow |
| `Isa.SizeLimits` | include/memory.h:7-16 | RAM is whole words, at least one and at most 256 MiB |
| `Bytes.LittleEndianOf` | src/memory.c:127-178 | two and four bytes as a sum, least significant first |
| `Bytes.LoadAfterStore` | src/memory.c:152-178 | reading back a stored value gives it modulo the width |
| `Bytes.StoreUndo` | src/memory.c:116-178 | storing the previous value restores all of RAM |
| `Bytes.StoreFrame` | src/memory.c:116-178 | a store leaves every byte outside its range |
| `Machines.Machine.Load` | src/machine.c:20-50 | succeeds exactly for an acceptable program and two allocations, with fresh copies, zero registers, count and exit state and the program counter at the entry; otherwise nothing changes; the machine's own image may be passed |
| `Machines.Machine.Reset` | src/machine.c:52-65 | succeeds exactly when loaded and gives the state right after the load |
| `Machines.Machine.Stop` | src/machine.c:67-70 | only the halted flag is set |
| `Machines.Machine.Step` | src/machine.c:72-95 | one attempt: the five outcomes, counters and last record; it exits exactly by an ECALL with a7 = 93, with a0 as the exit code, and leaves the exit state alone otherwise |
| `Machines.Machine.RunFor` | src/machine.c:97-121 | the loop's final machine, counters, reason and trace are those of the recursive run; a run that exits after an attempt has a7 = 93 and its exit code in a0 at the end |
| `Machines.CloneTwice` | src/machine.c:32-38 | both clones equal the program's RAM and are separate, or the load fails |
| `Machines.Accepts` | src/machine.c:22-27 | the subtraction-based checks accept exactly the programs whose load range lies in supported RAM and holds an aligned entry word |
| `Controller.RunsCompose` | src/machine.c:97-121 | under any callback: a run of a attempts that ends at its limit, then one of b given the answers still to come, is one run of a+b: machine, trace and summed counters |
| `Controller.UninterruptedRunsCompose` | src/machine.c:97-121 | the same without a callback |
| `Controller.RunEndsEarly` | src/machine.c:97-121 | under any callback, a run that ends for another reason is already the run for any larger limit |
| `Controller.StopThenResume` | src/machine.c:104-111 | a run that any callback stops has made as many attempts as the callback let pass, and resumed for b it is the uninterrupted run of that many and b more |
| `Controller.RunCounts` | src/machine.c:97-121 | attempts equal the trace's length and never exceed the limit; retired equals attempts on limit or stop and is one less on a trap or exit; the last record is the trace's last |
| `Controller.StepOutcomes` | src/machine.c:72-95 | the outcomes of a step and what each does to machine and exit state |
| `Controller.RunEnds` | src/machine.c:97-121 | how every run ends: refused starts change nothing, EXITED means the exit service with a0, TRAP the last record's trap, STOPPED a halted machine |
| `Controller.RunStops` | src/machine.c:104-111 | every attempt made was let pass by the callback, and a run stops exactly at its first yes |
| `Controller.RunIsLogged` | src/machine.c:104-118 | replaying a run's trace forward gives the final processor and RAM, and backward the initial ones, the halted flag aside |
| `Histories.ReachableInvariant` | src/machine.c:20-121 | after any calls: x0 is zero, the program counter aligned, RAM as large as the initial image, and that image one the loader accepts |
| `Histories.ReachableMisalignment` | src/cpu.c:98-100 | on a reachable machine the fetch-alignment fault never fires |
| `Histories.RunMisalignments` | src/machine.c:97-121 | every misaligned-PC record of every run of a reachable machine was fetched and reports a target that is 2 modulo 4 |
| `Histories.CountIsRetirements` | src/cpu.c:226-228 | the count is the number of retirements since the last load or reset, modulo 2^64 |
| `Histories.PlayKeepsImage` | src/machine.c:52-121 | without another successful load the initial image is untouched |
| `Histories.ResetReplaysLoad` | src/machine.c:52-65 | after any such history reset gives the state held right after the load, and the next run repeats the first in trace, counters and exit code |
| `Histories.ReloadIsReset` | src/machine.c:32-49 | loading a reachable machine from its own initial image succeeds and is a reset |
| `Programs.AcceptableFetches` | src/machine.c:22-45 | the first fetch of a loaded program is aligned and inside RAM |
| `Programs.Program.Become` | src/program.c:126-127 | the finished program replaces the old one as a whole |
| `ProgramIo.InputBytes` | src/program_io.c:11-57 | whatever chunks arrive, all bytes of the stream in order, or the exact reason: too large, broken or empty |
| `ProgramIo.ReadBinary` | src/program_io.c:71-98 | the verdict in the order of the checks; the bytes at the load address, zero elsewhere, as a program the machine's loader accepts; the old program kept on failure |
| `ProgramIo.BinaryIsAcceptable` | src/program_io.c:59-98 | every accepted raw binary satisfies all checks of the machine's loader |
| `ProgramIo.BinaryAccepted` | src/program_io.c:59-98 | a binary is accepted exactly when it is read to its end, fits at a word-aligned address and makes a program the machine accepts |
| `ProgramIo.AddressRefusals` | src/program_io.c:59-69 | each address refusal, and acceptance, with its arithmetic condition |
| `ProgramIo.BinaryRefusals` | src/program_io.c:71-98 | each refusal of the bytes with its arithmetic condition |
| `ProgramIo.PlacedExact` | src/program_io.c:93 | byte i of the file at the load address + i, zero elsewhere |
| `WordText.RenderedParses` | src/program.c:53-79 | any indentation, prefix, 1 to 8 digits, trailing space and comment reads as the word it was composed for |
| `WordText.LinesExact` | src/program.c:53-79 | a line is blank or has a word exactly when it was composed so; every other line is an error |
| `WordText.MalformedLines` | src/program.c:58-79 | a ninth digit, no digit at all, or anything but space and a comment behind the digits |
| `WordText.Characters` | src/program.c:54-60 | the format's constants and character classes |
| `WordText.PrintedWordReads` | src/program.c:56-69 | a word printed with enough digits in either case reads back |
| `WordReader.ReadLine` | src/program.c:27-52 | one line with its zero byte, length and read errors in the order the characters show them |
| `WordReader.ParseStored` | src/program.c:53-79 | scanning the buffer by index gives the line's meaning |
| `WordReader.ReadDigits` | src/program.c:58-69 | the shifted-in digits are their hexadecimal value; a ninth digit is refused |
| `WordReader.StoreWord` | src/program.c:85-91 | the next word follows the others, everything else stays zero, and the write is never refused |
| `WordReader.ReadWords` | src/program.c:18-103 | the words of the file in RAM, or the first error with its line number |
| `WordReader.ReadText` | src/program.c:105-129 | the same from address checks to the output, which only a complete program replaces, one the machine's loader accepts |
| `WordLaws.ReadsWhatWasWritten` | src/program.c:18-103 | a word list printed in any mix of forms, blank lines and comments, and read again, is the same list when it fits |
| `WordLaws.ReadWasWritten` | src/program.c:18-103 | and every file read without error was composed of such lines |
| `WordLaws.FilesExact` | src/program.c:18-103 | both together: the readable files are exactly the composed ones whose words fit |
| `WordLaws.ComposedTextLoads` | src/program.c:94-129 | composed lines load exactly when the address is word-aligned and their words fit and make a program the machine accepts |
| `WordLaws.TextAccepted` | src/program.c:18-129 | any stream is accepted exactly when it is read to its end and is composed of such lines |
| `WordLaws.ComposedRefusals` | src/program.c:94-101 | lines that fit are refused only for having no word or for an entry behind the last |
| `WordLaws.TextImageExact` | src/program.c:85-91 | word i little-endian at load address + 4i, image size 4n, zero elsewhere |
| `WordReader.TextIsAcceptable` | src/program.c:98-101 | every accepted text program satisfies all checks of the machine's loader |
| `WordLaws.AddressAlwaysValid` | src/program.c:87-90 | "invalid program address" is never reported, and every error names a line read so far |
| `WordLaws.ErrorsNameTheirLine` | src/program.c:25-92 | after composed lines the next one is refused under its own number: for a byte that cannot be stored, a read error, its text, or a word without room |
| `WordLaws.ScanErrorExact` | src/program.c:29-40 | a zero byte among the first 512, or else a 512th byte |
| `Uleb.ReadAt` | src/program_elf.c:21-32 | the cursor loop reads exactly the terminated encodings of at most five bytes and 32 bits, and advances past them |
| `Uleb.ReadIsPrefix` | src/program_elf.c:21-32 | a value and length are read exactly when that prefix is such an encoding of that value |
| `Uleb.ReadAccepts` | src/program_elf.c:21-32 | something is read exactly when some prefix is, padded encodings included |
| `Uleb.ReadEncoded` | src/program_elf.c:21-32 | reading inverts the encoder for every 32-bit value and consumes exactly its bytes |
| `Attributes.Parse` | src/program_elf.c:33-93 | the three nested cursor loops accept exactly the well-tiled sections |
| `Attributes.AttributesExact` | src/program_elf.c:33-93 | the recursive reading is the declarative tiling: 'A', subsections of length at least 5, scope-1 blocks in "riscv" ones, supported tags |
| `Attributes.BlocksExact` | src/program_elf.c:49-86 | blocks of scope 1 tile a "riscv" subsection |
| `Attributes.TagsExact` | src/program_elf.c:61-85 | tags tile a block: an allowed architecture at tag 5, 16 at tag 4, 0 at tag 6 |
| `Attributes.Texts` | src/program_elf.c:47-72 | the vendor name and the three architectures as text |
| `Attributes.ValueRefusals` | src/program_elf.c:65-84 | each refusal of a tag's value and its condition |
| `Attributes.BlockRefusals` | src/program_elf.c:52-60 | a complete block is refused for its scope, and else only for its tags |
| `Attributes.FormatRefusals` | src/program_elf.c:35-46 | a missing leading A, and lengths, names and values that do not end |
| `ElfLoader.CheckSegments` | src/program_elf.c:135-169 | the segment pass: first refusal, lowest and highest address, executable entry |
| `ElfLoader.OverlapsEarlier` | src/program_elf.c:156-163 | the inner loop finds an earlier overlapping load segment exactly when there is one |
| `ElfLoader.ValidateSections` | src/program_elf.c:95-114 | the section pass gives the first refusal |
| `ElfLoader.CopySegments` | src/program_elf.c:174-179 | the file parts copied in table order |
| `ElfLoader.LoadElf` | src/program_elf.c:116-184 | the verdict in the order of the checks and, when accepted, the image |
| `ElfLoader.ReadElf` | src/program_elf.c:186-203 | the same from the stream to the output, which keeps the file and which only a complete program replaces, one the machine's loader accepts |
| `ElfLoader.ElfAccepted` | src/program_elf.c:116-171 | a file is accepted exactly when header and sections are good, every segment is good by itself, load segments are pairwise apart and one holds the entry |
| `ElfLoader.SectionAccepted` | src/program_elf.c:103-112 | a section is accepted exactly when it is not thread-local, lies in the file unless it occupies none, and its attributes are well tiled |
| `ElfLoader.TableAccepted` | src/program_elf.c:137-169 | comparing with earlier segments only establishes pairwise separation |
| `ElfLoader.EntryHeld` | src/program_elf.c:166-168 | a segment holds the entry exactly when the entry's four bytes, at a multiple of 4, lie in its executable file part |
| `ElfLoader.OverlapMeans` | src/program_elf.c:156-163 | occupied segments overlap exactly when they share an address |
| `ElfLoader.SegmentRefusals` | src/program_elf.c:141-163 | each refusal of a program header and its condition |
| `ElfLoader.SectionRefusals` | src/program_elf.c:106-111 | each refusal of a section header and its condition |
| `ElfLoader.EntryRefusal` | src/program_elf.c:170-171 | with good headers, the entry refusal is given exactly when no segment holds the entry |
| `ElfLoader.StreamAccepted` | src/program_elf.c:191-195 | a stream is accepted exactly when it is read to its end, has at most 64 MiB and holds an accepted file |
| `ElfLoader.PaintedIsExact` | src/program_elf.c:172-179 | every byte of RAM is the file byte of the one segment that covers it, and zero where none does |
| `ElfLoader.CopyOrderIrrelevant` | src/program_elf.c:174-179 | any order of the table gives the same RAM |
| `ElfLoader.BoundsAreHull` | src/program_elf.c:135-165 | lowest and highest are the tight bounds of the non-empty load segments |
| `ElfLoader.LoadedElf` | src/program_elf.c:135-183 | an accepted file's image is exact, its load range is the hull, and it satisfies all checks of the machine's loader |
| `ElfFormat.SegmentExact` | src/program_elf.c:139-146 | a program header is read as `s` exactly when its 32 bytes are those the System V gABI writes for `s` |
| `ElfFormat.SectionExact` | src/program_elf.c:105-107 | the same for the 40 bytes of a section header |
| `ElfFormat.HeaderExact` | src/program_elf.c:97-130 | and for the 36 bytes of the ELF header behind its identification |
| `ElfFormat.HeaderAccepted` | src/program_elf.c:120-133 | the header is accepted exactly when the file starts with the identification and the written bytes of a static RV32 base-ABI header whose program table lies in the file |
| `ElfFormat.HeaderRefusals` | src/program_elf.c:120-133 | each refusal of the header and its condition |
| `ElfFormat.ComposedIsRead` | src/program_elf.c:97-146 | a file composed of headers is read as exactly its segments, entry and sections |
| `ElfFormat.ComposedAccepted` | src/program_elf.c:95-171 | and is accepted exactly when these are good, apart, and hold the entry |
| `ElfFormat.ComposedIsLoaded` | src/program_elf.c:172-183 | and then loaded as the exact image of its segments over their hull, with its entry |
| `LineRows.Reserve` | src/debug_info.c:34-45 | a block with room for one more, geometrically grown, with the items so far in place; refused only at the limit or without storage |
| `LineRows.Collector.FileIndex` | src/debug_info.c:47-62 | the index denotes the path; a new path is appended once, within the limits |
| `LineRows.Collector.ReadRow` | src/debug_info.c:94-130 | one row closes the open range and may open the next; a refusal means the rows are not acceptable |
| `LineRows.Collector.ReadRows` | src/debug_info.c:90-133 | the emitted lines stand for exactly the ranges of the unit; refused exactly when a row is bad, unbounded or over a limit |
| `LineRows.Collector.ReadTables` | src/debug_info.c:64-138 | the same over all units, sharing one file table that holds exactly the paths of all units in the order they are met |
| `LineRows.RangesExact` | src/debug_info.c:101-129 | a range is among those of a unit exactly when some row gives it: no end mark, a positive line, its path, its column if positive, from its address to its successor's strictly later one |
| `LineRows.TableRangesExact` | src/debug_info.c:73-135 | the same over all units |
| `LineRows.RangesInside` | src/debug_info.c:98-112 | every range is non-empty and inside RAM |
| `LineRows.TableRangesInside` | src/debug_info.c:64-138 | every range of all accepted units is non-empty and inside RAM |
| `LineRows.InternedAllGrows` | src/debug_info.c:47-62 | the file table only grows, holds exactly the paths met, and keeps them pairwise distinct |
| `LineRows.PathsExact` | src/debug_info.c:82-125 | a path is met exactly when a file table or a statement row has it |
| `LineRows.SequenceRangesAscend` | src/debug_info.c:90-133 | rows of non-decreasing addresses give ascending, disjoint ranges |
| `LineRows.OrderedUnitIsGood` | src/debug_info.c:94-133 | a unit of complete rows in ordered sequences is never refused for its rows |
| `LineRows.AscendingExactly` | src/debug_info.c:101-113 | for any rows, the ranges ascend if and only if, in one pass, no row opens a range before the last one has closed |
| `LineRows.SequencesConcatenate` | src/debug_info.c:114-131 | no range crosses an end-of-sequence row |
| `LineRows.UnitOfSequences` | src/debug_info.c:90-133 | the ranges of a whole unit are those of its sequences one after the other, ascending and disjoint within each sequence of non-decreasing addresses |
| `LineRows.AcceptedRowsMayOverlap` | src/debug_info.c:101-121 | an accepted row stream whose ranges overlap: acceptance alone does not order them |
| `DebugIndex.Sort` | src/debug_info.c:188-194 | some ordering by begin, then end, of the same records |
| `DebugIndex.FillMaxima` | src/debug_info.c:231-236 | every record gets the greatest end up to it, and nothing else changes |
| `DebugIndex.Build` | src/debug_info.c:227-236 | the index is a sorted permutation of the collected ranges with their prefix maxima |
| `DebugIndex.Read` | src/debug_info.c:202-240 | accepted exactly when an ELF program's retained file opens and every unit of its line tables is; the index is built from exactly the ranges of all units, empty for other programs, all non-empty and inside RAM, with a file table of exactly the paths of file tables and statement rows |
| `DebugIndex.CountBeginning` | src/debug_info.c:245-251 | binary search splits the records at the address |
| `DebugIndex.Lookup` | src/debug_info.c:242-259 | agrees with a scan of all ranges, overlapping or not: none when none covers the address, else the covering one of greatest begin, then greatest end |
| `DebugIndex.AnswerIsBestRow` | src/debug_info.c:202-259 | in terms of the units' rows: something is found exactly when some row's range covers the address, and it has the addresses, path, line and column of such a row, the one that begins, then ends, last |
| `DebugIndex.LineAddress` | src/debug_info.c:261-268 | the least begin of that file and line, when there is one |
| `DebugIndex.LineAnswerIsLeastRow` | src/debug_info.c:261-268 | in terms of the units' rows: the least address of the rows with that path and line that give a range, when there is one |
| `GuestMemory.MemMove` | runtime/memory.c:12-22 | for every overlap and direction the destination becomes the old source and nothing else changes |
| `GuestMemory.MemCpy` | runtime/memory.c:4-10 | the same for blocks that do not overlap |
| `GuestMemory.MovedBlocks` | runtime/memory.c:12-22 | the moved block, the untouched rest, and idempotence for separate blocks |
| `GuestMemory.MemSet` | runtime/memory.c:24-29 | the block holds the value's low byte, the rest is unchanged |
| `GuestMemory.MemCmp` | runtime/memory.c:31-37 | the sign given by the recursive comparison of the two blocks |
| `GuestMemory.CompareOrder` | runtime/memory.c:31-37 | a total order on equal-length blocks: zero exactly on equality, antisymmetric, transitive |
| `GuestMemory.CompareFirstDifference` | runtime/memory.c:31-37 | decided by the first byte that differs |

## Left out

- The monitor, its command line, signals and terminal output (`src/monitor.c`, `src/main.c`) and the source viewer (`src/source_view.c`): presentation.
- libdw and libelf: a compilation unit is its rows, its file names and the flags their calls return.
- NULL arguments, and owners whose size and pointer disagree.
- `free` and lifetimes: a replaced owner is simply no longer referred to.
- The bytes of a program error other than its line number: messages are an enumeration.
- The 64-bit run limit and attempt counters, which are unbounded here; the instruction count does wrap at 2^64.
- Callbacks that touch the machine: `should_stop` only answers and `trace` only records.
- DebugIndex.Read: does not state the symbol table it also reads and sorts; whether that table could be read is a flag of the input.
- DebugIndex.Sort: an insertion sort stands for `qsort`; only "a sorted permutation" is used of it.
- Cpus.Select: the switch of `execute` is a function, because it only assigns locals; `execute`, `read_words`, `load_elf` and `read_lines` are each several methods called in the order of the C code.
- Uleb.ReadAt: and the attribute parser read an immutable sequence by index; the C code moves a pointer into the file buffer.
- Instruction names other than the mnemonic, descriptions, `cpu_step_result_name`, `machine_stop_name` and other name tables: no property beyond distinctness.
- `tools/build_guest.py`, the linker script, `runtime/start.S`, the console output of the runtime and the demos: fixed programs and tool driving.
