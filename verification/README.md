# Verification model of t89emu

t89emu emulates a small RISC-V microcontroller and debugs the firmware that runs on it. This
project models its two cores and proves what they compute:

* **The DWARF decoders**: the byte cursor with LEB128 numbers, the abbreviation table, the
  recursive tree of debugging-information entries, the line-number program, the records of
  `.debug_frame`, and the walk over nested scopes. The encoders of DWARF Version 5 are written
  as functions, and decoding is proved to undo them.
* **The RV32I machine**: CSRs, CLINT, bus and memory devices, immediates, ALU, traps, and the
  step function with its runs, down to the debugger's breakpoints. A reference instruction set
  is given as a datatype of instructions with its own encoding and semantics, and the machine is
  proved to agree with it exactly under stated conditions.

## How it is built

Every component that the program changes in place is a class whose methods carry out the same
statements. Each method is proved against a function on values (`EntryAt`, `Run`, `FramesAt`,
`Step`, ...), and the theorems are about those functions.

| files | content |
|---|---|
| `Words`, `LittleEndian` | machine words as bounded integers, bit operations, byte order |
| `Streams`, `DataStream` | reads at a position; the cursor class |
| `Abbrev`, `DieTree`, `DieRoundTrip`, `CompileUnit`, `AttributeData` | `.debug_abbrev` and `.debug_info` |
| `LineProgram`, `LineNumberInfo`, `LineSemantics`, `LineTheorems` | `.debug_line` |
| `CallFrame`, `CallFrameInfo`, `CallFrameTheorems` | `.debug_frame` |
| `Scopes` | scopes and variables |
| `Alu`, `Immediates`, `Memory`, `FlatMemory` | ALU, decoding, devices and bus on values |
| `Machine`, `ResetState`, `StatusBits`, `Precise`, `Traps` | the step function, its invariants over runs, traps and timer |
| `Isa`, `Refinement`, `RunRefinement`, `Deviations` | the reference instruction set, the refinement of instructions, programs and runs, and where it fails |
| `ControlRegisters`, `Devices`, `Mcu`, `Debugger` | the machine and the debugger as classes |

Integer widths are those of the C++ program on the platform it is built for: `int` and `uint`
have 32 bits, `size_t` 64, and unsigned arithmetic wraps. What C++ leaves undefined (a read
outside a buffer, an `int` shift out of range, a division by zero) is an explicit outcome of the
functions (`Fail`, `Wild`, `Undefined`, `None`) and never a precondition. Strings that are
looked up by offset come from a function parameter. A section that is read is a sequence of
bytes, and how many of them the cursor should consume is a separate length, as in the program.

## Where the code departs from its documentation or from the standards

The model follows the code; the lemmas that show each departure, or say exactly when it makes a
difference, are named with it.

* Unsigned LEB128 numbers are exact below 2^31 only, signed ones from -2^27 up to 2^31, because
  the shift is on `int` (`Streams.ULebRoundTrip`, `Streams.SLebRoundTrip`).
* The constant of `DW_FORM_implicit_const` is read as an unsigned number: an attribute list is
  read correctly if and only if no constant in it is negative or too large
  (`Abbrev.ImplicitConstExact`, `Abbrev.AttributesExact`). `DW_FORM_flag_present` reads as 0
  (`AttributeData.NumberReadsBack`).
* A childless entry that is the last thing in its unit is filled in, but the call returns a null
  pointer, so a parent would drop it (`DieRoundTrip.TreeRoundTrip`).
* An unknown standard or extended opcode of a line program is passed over exactly when it has no
  operands; otherwise its operands are taken for instructions (`LineSemantics.UnknownStandard`,
  `LineSemantics.UnknownExtended`).
* A sum of op_index and operation advance that passes 2^32 wraps; `LineSemantics.StepExact` says
  when that shows.
* A failed fetch reports the codes of a failed load, although a comment at
  `t89emu/src/Mcu.cpp:143` speaks of instruction faults (`Deviations.FetchFaults`).
* SLT, BLT and BGE look at the sign of a wrapped difference; register shifts by 32 or more are
  undefined; JALR keeps bit 0 of its target; a jump to a misaligned address has written its link
  register before the exception; CSR instructions write `rd` before they read `rs1`; CSRRC
  negates logically; an access at the end address of a device goes past its buffer; a store to
  ROM raises an illegal-instruction exception; RAM, ROM and video memory answer a byte or
  halfword read with a whole word, and no load extends a sign. `Refinement.Exact` gives for each
  instruction the condition under which none of this makes a difference, and
  `Deviations.Deviating` a state and seventeen instructions for which it does.
* When the instruction at a trap vector itself jumps to a misaligned address its exception is
  lost, which is exactly when the two program counters part (`Precise.RunLockstep`).

The repository's README also gives the ROM 128 KB; the code allocates 2 MB, and that is what
`ResetState.Reset` has.

## Model

| member | source | states |
|---|---|---|
| DataStreams.DataStream.DecodeUInt8 | t89emu/src/Dwarf/DataStream.cpp:11-15 | reads the byte at the cursor and advances by one; a read past the bytes fails |
| DataStreams.DataStream.DecodeUInt16 | t89emu/src/Dwarf/DataStream.cpp:17-21 | combining two shifted bytes gives their little-endian value; the cursor advances by two |
| DataStreams.DataStream.DecodeUInt32 | t89emu/src/Dwarf/DataStream.cpp:23-28 | the same for four bytes |
| DataStreams.DataStream.DecodeLeb128 | t89emu/src/Dwarf/DataStream.cpp:30-47 | the loop with its shifts and masks computes the signed specification function and leaves the cursor after the number |
| DataStreams.DataStream.DecodeULeb128 | t89emu/src/Dwarf/DataStream.cpp:49-60 | the same for unsigned numbers |
| Streams.ULebExact | t89emu/src/Dwarf/DataStream.cpp:49-60 | on any bytes: ends at the first byte whose top bit is clear, fails when there is none, and yields the encoded number exactly when it takes at most five bytes and is below 2^31 |
| Streams.SLebExact | t89emu/src/Dwarf/DataStream.cpp:30-47 | the result of the signed decoder on any bytes, in closed form |
| Streams.ULebRoundTrip | t89emu/src/Dwarf/DataStream.cpp:49-60 | decoding undoes the shortest encoding of n, consuming exactly its bytes, if and only if n < 2^31 |
| Streams.ULebRoundTrip32 | t89emu/src/Dwarf/DataStream.cpp:49-60 | the low 32 bits are right, and the read is defined, if and only if n < 2^32 |
| Streams.SLebRoundTrip | t89emu/src/Dwarf/DataStream.cpp:30-47 | decoding undoes the shortest signed encoding of n if and only if -2^27 <= n < 2^31 |
| Abbrev.AbbrevTable.Parse | t89emu/src/Dwarf/DebugInfoEntry.cpp:122-149 | the constructor's two nested loops build the table that the specification function gives, or stop where it fails |
| Abbrev.AbbrevTable.ParseAttributes | t89emu/src/Dwarf/DebugInfoEntry.cpp:135-145 | the inner loop reads the attribute list up to the null pair |
| Abbrev.TableRoundTrip | t89emu/src/Dwarf/DebugInfoEntry.cpp:122-149 | parsing the bytes of a table as section 7.5.3 of DWARF Version 5 lays it out, with constants the parser can read, inserts exactly its entries, in order, and consumes exactly its bytes |
| Abbrev.AttributesExact | t89emu/src/Dwarf/DebugInfoEntry.cpp:135-145 | an attribute list with any signed constants is read back, with exactly its bytes, if and only if every constant lies in 0..2^31-1 |
| Abbrev.EntryExact | t89emu/src/Dwarf/DebugInfoEntry.cpp:126-147 | the same for a whole entry |
| Abbrev.LookupFindsFirst | t89emu/src/Dwarf/DebugInfoEntry.cpp:147-164 | a code is found exactly when some entry has it, and then the first such entry; with distinct codes, the entry itself |
| Abbrev.ImplicitConstExact | t89emu/src/Dwarf/DebugInfoEntry.cpp:139-140 | the signed constant of DW_FORM_implicit_const is read correctly if and only if 0 <= n < 2^31 |
| CompileUnits.CompileUnit.DecodeInfo | t89emu/src/Dwarf/CompileUnit.cpp:114-222 | for every form, the bytes collected and the cursor are those of the specification function; unsupported forms and reads past the bytes fail |
| CompileUnits.CompileUnit.ReadBytes | t89emu/src/Dwarf/CompileUnit.cpp:215-219 | the byte loop copies exactly that many bytes |
| CompileUnits.CompileUnit.ReadString | t89emu/src/Dwarf/CompileUnit.cpp:194-200 | the string loop collects the bytes before the first NUL |
| CompileUnits.CompileUnit.DecodeAttributes | t89emu/src/Dwarf/CompileUnit.cpp:240-244 | the attribute loop fills the node's map in place |
| CompileUnits.CompileUnit.GenerateDebugInfo | t89emu/src/Dwarf/CompileUnit.cpp:224-262 | allocating, filling and linking nodes on the heap yields a tree of distinct objects, linked to their parents, whose value is the specification's tree; null is returned exactly for a null entry and for a node that ends the unit; terminates |
| CompileUnits.CompileUnit.GenerateChildren | t89emu/src/Dwarf/CompileUnit.cpp:255-259 | the child loop appends the children in order until a call returns null |
| CompileUnits.DebugInfoEntry.AddAttribute | t89emu/src/Dwarf/DebugInfoEntry.cpp:175-177 | an attribute of a name that is already there is ignored; nothing else changes |
| CompileUnits.DebugInfoEntry.AddChild | t89emu/src/Dwarf/DebugInfoEntry.cpp:179-181 | the child's tree is appended, and no other part of the node changes |
| DieRoundTrip.DataRoundTrip | t89emu/src/Dwarf/CompileUnit.cpp:114-222 | for every form of the encoder's table, which lists them by code as section 7.5.6 of DWARF Version 5 does, reading an encoded value yields it and consumes exactly its bytes |
| DieRoundTrip.LayoutsAgree | t89emu/src/Dwarf/CompileUnit.cpp:114-222 | the decoder reads every form code, supported or not, in the layout and size that the encoder's own table gives it |
| DieRoundTrip.DistinctAttributesKept | t89emu/src/Dwarf/CompileUnit.cpp:240-244 | with distinct names a node has exactly its attributes, each with its form and bytes |
| DieRoundTrip.TreeRoundTrip | t89emu/src/Dwarf/CompileUnit.cpp:224-262 | parsing the preorder bytes of any well-formed tree rebuilds exactly that tree and consumes exactly its bytes, wherever it lies in the unit |
| DieRoundTrip.SiblingsRoundTrip | t89emu/src/Dwarf/CompileUnit.cpp:255-259 | the same for a null-terminated chain of siblings |
| DieRoundTrip.UnitRoundTrip | t89emu/src/Dwarf/CompileUnit.cpp:224-262 | from the bytes of the abbreviations and of the unit to the table and the tree |
| DieRoundTrip.OffsetsAscend | t89emu/src/Dwarf/CompileUnit.cpp:225-227 | the recorded offsets increase strictly in preorder and lie within the tree's bytes |
| AttributeData.GetUInt | t89emu/src/Dwarf/DebugInfoEntry.cpp:24-73 | the loop of shifts and bitwise ors computes the little-endian number; other forms are rejected, more than eight bytes are undefined |
| AttributeData.AcceptedForms | t89emu/src/Dwarf/DebugInfoEntry.cpp:24-73 | a number is read from exactly the supported forms but blocks, strings and 16-byte data |
| AttributeData.NumberReadsBack | t89emu/src/Dwarf/DebugInfoEntry.cpp:24-73 | a parsed attribute reads back as the number that was encoded, in 64 bits |
| LineNumberInfos.LineNumberInfo.GenerateLineNumberMatrix | t89emu/src/Dwarf/LineNumberInfo.cpp:132-220 | the loop over registers, stream and matrix performs exactly the run of the byte-level machine, for any bytes |
| LineNumberInfos.LineNumberInfo.ClearRegisters | t89emu/src/Dwarf/LineNumberInfo.cpp:100-105 | address and op_index become 0, file and line 1, column 0, is_stmt its default, all flags false, isa and discriminator 0 |
| LineNumberInfos.LineNumberInfo.RunSpecial | t89emu/src/Dwarf/LineNumberInfo.cpp:140-151 | a special opcode moves address, op_index and line, appends a row and clears the row flags |
| LineNumberInfos.LineNumberInfo.RunStandard | t89emu/src/Dwarf/LineNumberInfo.cpp:152-195 | the standard opcodes |
| LineNumberInfos.LineNumberInfo.RunExtended | t89emu/src/Dwarf/LineNumberInfo.cpp:196-218 | the extended opcodes |
| LineSemantics.StepRefines | t89emu/src/Dwarf/LineNumberInfo.cpp:132-220 | the encoding of each of the 16 instructions takes the 32-bit machine to the registers and rows of section 6.2.5 of DWARF Version 5, which has unbounded registers |
| LineSemantics.StepExact | t89emu/src/Dwarf/LineNumberInfo.cpp:132-220 | from a reachable op_index the two agree if and only if the sum of op_index and advance is below 2^32, or max_ops divides both 2^32 and the instruction length |
| LineSemantics.UnknownExtended | t89emu/src/Dwarf/LineNumberInfo.cpp:196-217 | an extended opcode without a case changes nothing, and the next instruction is the following one if and only if it has no operand bytes |
| LineSemantics.UnknownStandard | t89emu/src/Dwarf/LineNumberInfo.cpp:152-195 | the same for standard opcodes from 13 on and their LEB128 operands |
| LineSemantics.RunRefines | t89emu/src/Dwarf/LineNumberInfo.cpp:132-220 | running the bytes of any list of instructions yields exactly the rows of its ideal run, in order |
| LineSemantics.AdvanceClosedForm | t89emu/src/Dwarf/LineNumberInfo.cpp:254-263 | over special opcodes, advance_pc and const_add_pc only the total advance D matters: address + min_inst * (D / max_ops) and D mod max_ops |
| LineSemantics.MachineClosedForm | t89emu/src/Dwarf/LineNumberInfo.cpp:140-188 | the same for the bytes and the 32-bit machine, modulo 2^32, for D < 2^32 |
| LineSemantics.OpIndexBounded | t89emu/src/Dwarf/LineNumberInfo.cpp:254-263 | op_index < max_ops after any bytes |
| LineSemantics.AddressNeverDecreases | t89emu/src/Dwarf/LineNumberInfo.cpp:132-220 | on the bytes and in 32 bits: unless the sum wraps, neither the address nor the rows' addresses ever go down without set_address and end_sequence |
| LineTheorems.SequenceAscends | t89emu/src/Dwarf/LineNumberInfo.cpp:132-220 | the rows of a whole sequence, its end included, ascend from its start address |
| LineTheorems.EndSequenceResets | t89emu/src/Dwarf/LineNumberInfo.cpp:200-207 | a program that ends in end_sequence leaves every register, field by field, at the value that section 6.2.2 of DWARF Version 5 gives it at the start of a sequence |
| LineTheorems.SequencesIndependent | t89emu/src/Dwarf/LineNumberInfo.cpp:132-220 | if p ends in end_sequence, decoding p ++ q is decoding p and then q on its own, for any bytes |
| LineTheorems.RowsRoundTrip | t89emu/src/Dwarf/LineNumberInfo.cpp:132-220 | every list of row sequences has an encoding whose bytes decode to exactly those rows, in order; the encoding sets a register only where a row differs from the row before it, or from the values of section 6.2.2 |
| CallFrameInfos.CallFrameInfo.GenerateFrameInfo | t89emu/src/Dwarf/CallFrameInfo.cpp:69-88 | the loop that jumps from record to record collects the content that the specification function gives; it terminates on any bytes |
| CallFrameInfos.CallFrameInfo.ParseCie | t89emu/src/Dwarf/CallFrameInfo.cpp:90-113 | the fields of a common information entry, stored under its offset unless one is there |
| CallFrameInfos.CallFrameInfo.ParseFde | t89emu/src/Dwarf/CallFrameInfo.cpp:115-129 | the fields of an entry, appended to the list |
| CallFrameInfos.CallFrameInfo.FindFrame | t89emu/src/Dwarf/CallFrameInfo.cpp:32-46 | the selection loop finds the last entry covering the address, with its common information |
| CallFrameTheorems.RecordRoundTrip | t89emu/src/Dwarf/CallFrameInfo.cpp:69-129 | an encoded record is recovered and the cursor moves exactly to its end |
| CallFrameTheorems.Tiling | t89emu/src/Dwarf/CallFrameInfo.cpp:69-88 | a concatenation of records is recovered record by record, and the loop ends at the end of the section |
| CallFrameTheorems.BlocksTile | t89emu/src/Dwarf/CallFrameInfo.cpp:107-125 | the pointer kept for every record is where its instruction block occurs, and the block ends exactly where the next record begins; only a last record without instructions has no pointer |
| CallFrameTheorems.ExpectedFdes | t89emu/src/Dwarf/CallFrameInfo.cpp:115-129 | the recovered entries are those of the records, in order |
| CallFrameTheorems.ExpectedCies | t89emu/src/Dwarf/CallFrameInfo.cpp:110-110 | every common information entry is found under the byte offset of its record |
| CallFrameTheorems.PositionsIncrease | t89emu/src/Dwarf/CallFrameInfo.cpp:86-86 | the positions of the records, which are the keys, increase strictly |
| CallFrameTheorems.SelectedIsLast | t89emu/src/Dwarf/CallFrameInfo.cpp:33-42 | selection finds an entry exactly when one covers the address, and then the last one |
| CallFrameTheorems.SelectionUnique | t89emu/src/Dwarf/CallFrameInfo.cpp:33-42 | with disjoint ranges that do not wrap, it is the unique entry whose range holds the address |
| CallFrameTheorems.FrameFound | t89emu/src/Dwarf/CallFrameInfo.cpp:32-88 | from the bytes of a section to the entry and the common information for an address |
| Scopes.GetLocalVariables | t89emu/src/Dwarf/Scope.cpp:32-42 | the recursive search appends the variables of the innermost scope on the path |
| Scopes.GetGlobalVariables | t89emu/src/Dwarf/Scope.cpp:44-57 | appends the variables of all scopes on the path but the innermost |
| Scopes.GetVariablesAboveLine | t89emu/src/Dwarf/Scope.cpp:72-79 | appends exactly the variables declared at or above the line, in order |
| Scopes.AboveLineExact | t89emu/src/Dwarf/Scope.cpp:72-79 | a variable is listed if and only if it is one of the scope's, has a declaration line, and that is at most the line asked for |
| Scopes.Decomposition | t89emu/src/Dwarf/Scope.cpp:32-57 | globals followed by locals are the filtered variables along the path from the root to the innermost scope |
| Scopes.PathIsChain | t89emu/src/Dwarf/Scope.cpp:32-68 | the path is a chain of children with lowPc <= pc < highPc, and no child of its end is so |
| Scopes.ChainUnique | t89emu/src/Dwarf/Scope.cpp:32-68 | with disjoint siblings and nested ranges it is the only such chain, in whatever order the children come |
| Scopes.PathIsAllAround | t89emu/src/Dwarf/Scope.cpp:32-70 | below the root, a scope of the tree holds the address if and only if it is on the path |
| Alu.SignedComparisonsExact | t89emu/src/Alu.cpp:44-48 | SLT, BLT and BGE decide signed order if and only if the signed difference fits 32 bits |
| Alu.ComparisonsAgree | t89emu/src/NextPc.cpp:53-64 | SLT, BLT and the complement of BGE agree on all operands |
| Alu.SraIsFloorDivision | t89emu/src/Alu.cpp:37-40 | for shifts below 32 the double exclusive-or is the floor of the signed value divided by 2^B |
| Immediates.FieldsAreMasks | t89emu/src/Mcu.cpp:147-156 | the decoder's shifts and masks select the fields of any word |
| Immediates.ImmediateIsSliced | t89emu/src/ImmediateGenerator.cpp:15-77 | the masks, shifts, ors and sign tests compute, for every word, a sum of slices of it |
| Immediates.PackFields | t89emu/src/Mcu.cpp:147-156 | the field extraction reads back every field of an encoded instruction |
| Immediates.ImmediateI | t89emu/src/ImmediateGenerator.cpp:34-72 | an I-type immediate is returned sign-extended, whatever the other fields |
| Immediates.ImmediateShift | t89emu/src/ImmediateGenerator.cpp:68-71 | a shift amount is returned without the bits of funct7 |
| Immediates.ImmediateS | t89emu/src/ImmediateGenerator.cpp:54-61 | the same for S-type immediates |
| Immediates.ImmediateB | t89emu/src/ImmediateGenerator.cpp:39-46 | for B-type immediates |
| Immediates.ImmediateU | t89emu/src/ImmediateGenerator.cpp:21-25 | for U-type immediates |
| Immediates.ImmediateJ | t89emu/src/ImmediateGenerator.cpp:26-33 | for J-type immediates |
| Memory.WriteFrame | t89emu/src/Bus.cpp:117-125 | a store changes the bytes of one device only, never those of a ROM, and no device's place |
| FlatMemory.BusIsFlat | t89emu/src/Bus.cpp:107-125 | after any stores strictly below the end addresses every byte is the last one written to it |
| FlatMemory.WordAfterStores | t89emu/src/RamMemoryDevice.cpp:10-40 | an aligned word read after any such stores returns the four last-written bytes, little-endian |
| FlatMemory.SubWordRead | t89emu/src/RamMemoryDevice.cpp:17-21 | a byte or halfword read from the CLINT is those bytes; from other devices it is the whole word there, which agrees in its low bits, and is the bytes asked for if and only if all the others are zero |
| FlatMemory.StoreOutcome | t89emu/src/Bus.cpp:117-125 | which stores are refused, with which code, and what the others change |
| FlatMemory.RomKept | t89emu/src/RomMemoryDevice.cpp:26-30 | no sequence of stores at all changes a ROM |
| FlatMemory.StoresOrderIrrelevant | t89emu/src/Bus.cpp:127-130 | the order of the devices makes no difference to any byte after any stores |
| Devices.MemoryDevice.Read | t89emu/src/RamMemoryDevice.cpp:10-24 | alignment, offset and width of a read of a device's buffer |
| Devices.MemoryDevice.Write | t89emu/src/RamMemoryDevice.cpp:26-40 | a store in place: exactly the low bytes of the value are replaced, or nothing changes and the code says why |
| Devices.Bus.Read | t89emu/src/Bus.cpp:107-115 | the search loop reads from the first device whose inclusive range holds the address |
| Devices.Bus.Write | t89emu/src/Bus.cpp:117-125 | the search loop writes to that device; all others keep their bytes |
| Devices.Bus.AddDevice | t89emu/src/Bus.cpp:127-130 | appends a device and returns its index |
| Devices.ClintMemoryDevice.NextCycle | t89emu/src/ClintMemoryDevice.cpp:42-57 | increments the 64-bit counter in the buffer, sets or clears MTIP by comparison, sets MSIP |
| Devices.ClintMemoryDevice.CheckInterrupts | t89emu/src/ClintMemoryDevice.cpp:59-80 | whether an interrupt is taken, and its cause in the field |
| ControlRegisters.Csr.ReadCsr | t89emu/src/Csr.cpp:49-51 | returns the register's value and creates a missing entry with 0 |
| ControlRegisters.Csr.SetMpp | t89emu/src/Csr.cpp:65-67 | sets the mode's bits at 11 and 12, clears none, and keeps every other bit of mstatus |
| ControlRegisters.Csr.ResetMtip | t89emu/src/Csr.cpp:97-99 | bit 7 of mip becomes 0; every other bit and register keeps its value |
| Mcus.RegisterFile.Write | t89emu/src/RegisterFile.cpp:36-39 | one register changes; x0 stays 0 |
| Mcus.NextPc.CalculateNextPc | t89emu/src/NextPc.cpp:13-43 | the next pc for every kind of instruction, and the misaligned code exactly when it is not a multiple of four |
| Mcus.TakeTrapOn | t89emu/src/Trap.cpp:13-53 | the calls on the three objects change the CSRs as the trap function says, and set both counters to mtvec + 4k for interrupt k and to mtvec + 64 + 4c for exception c |
| ResetState.MemoryMap | t89emu/src/Mcu.cpp:5-41 | the devices of a fresh machine are laid out apart if and only if ROM and RAM begin at multiples of four in the gaps that the other devices leave and do not touch each other; they do at the documented addresses |
| ResetState.ResetStarts | t89emu/src/Mcu.cpp:5-47 | a fresh machine's counters are at the entry, its registers and all bytes are 0, and its four devices have the documented kinds, bases and sizes |
| Mcus.Mcu.constructor | t89emu/src/Mcu.cpp:20-47 | a fresh machine has zero registers and memories, the four devices in order, and both counters at the entry |
| Mcus.Mcu.ExecuteInstruction | t89emu/src/Mcu.cpp:136-279 | the method on objects takes the machine's value to that of the step function, with its code, or meets undefined behaviour exactly when that does |
| Mcus.Mcu.NextInstruction | t89emu/src/Mcu.cpp:62-94 | one cycle of CLINT, interrupt, execution, trap and vector instruction on objects is one step on values |
| Mcus.Mcu.AccessCsr | t89emu/src/Mcu.cpp:239-258 | CSRRW, CSRRS and CSRRC in the order of the code |
| Mcus.Mcu.ReturnFromTrap | t89emu/src/Mcu.cpp:223-233 | the CSR changes of MRET |
| Machines.Step | t89emu/src/Mcu.cpp:62-94 | a step of a valid machine is a valid machine: 32 registers with x0 = 0 and the four devices |
| Precise.PreciseExceptions | t89emu/src/Mcu.cpp:136-279 | every code but success and misaligned jump leaves registers, CSRs, memories and both counters unchanged |
| Precise.MisalignedOnlyFromJumps | t89emu/src/Mcu.cpp:269-276 | the misaligned code comes only from JAL, JALR, a taken branch or MRET, and leaves memory and pc unchanged |
| Precise.IllegalInstructions | t89emu/src/Mcu.cpp:264-267 | a word whose opcode is none of the ten raises code 2 and changes nothing; of the ten only a store can give that code |
| Precise.MretWords | t89emu/src/Mcu.cpp:219-238 | MRET is executed for exactly the words with opcode 0x73, funct3 0 and 0x302 in the upper twelve bits, among them 0x30200073 |
| Precise.ExecuteCounters | t89emu/src/Mcu.cpp:136-279 | what every outcome says about pc and next pc, from an aligned pc |
| Precise.StepLockstep | t89emu/src/Mcu.cpp:62-94 | a step keeps the pc aligned, and the two counters agree after it if and only if the vector instruction did not raise the misaligned code |
| Precise.RunAligned | t89emu/src/Mcu.cpp:62-94 | on every run from an aligned entry with aligned trap bases the pc is aligned at every boundary |
| Precise.RunLockstep | t89emu/src/Mcu.cpp:62-94 | the counters agree at a boundary of a run if and only if the last step's vector instruction did not misjump |
| Precise.CycleKeeps | t89emu/src/ClintMemoryDevice.cpp:42-57 | the CLINT's cycle changes nothing but mip and the CLINT's buffer |
| Precise.RunKeepsRom | t89emu/src/RomMemoryDevice.cpp:26-30 | in every reachable state the ROM holds its initial image |
| Traps.TrapSaves | t89emu/src/Trap.cpp:13-37 | MIE is 0, MPIE is 1 exactly when MIE or MPIE was, mepc is the pc (pc + 4 for ECALL), mcause the cause, all other CSRs unchanged |
| Traps.TrapStatus | t89emu/src/Trap.cpp:26-37 | every bit of mstatus after a trap: MIE clear, MPIE remembers it, MPP is machine mode, all others unchanged |
| Traps.InterruptVector | t89emu/src/Trap.cpp:39-51 | interrupt k goes to mtvec + 4k, in both counters |
| Traps.ExceptionVector | t89emu/src/Trap.cpp:39-51 | exception c goes to mtvec + 64 + 4c, in both counters |
| Traps.VectorsDistinct | t89emu/src/Trap.cpp:39-51 | two causes are handled at the same vector if and only if they are equal, and all vectors lie in the 32 words from mtvec on |
| Traps.ReturnStatus | t89emu/src/Mcu.cpp:223-233 | every bit of mstatus after MRET |
| Traps.ReturnRestores | t89emu/src/Mcu.cpp:223-233 | after MRET MIE is 1 exactly when MIE or MPIE was, and MPIE is 1 |
| Traps.TrapReturn | t89emu/src/Trap.cpp:13-53 | after any handler that keeps mepc and mstatus, MRET resumes at the trapped pc (after it for ECALL), and MIE is restored if and only if MIE was 1 or MPIE was 0 |
| Traps.InterruptReturn | t89emu/src/ClintMemoryDevice.cpp:59-80 | an interrupt's return always sets MIE |
| Traps.StepReturns | t89emu/src/Mcu.cpp:62-94 | the same for a whole step in which MRET is fetched and executed |
| Traps.InterruptRoundTrip | t89emu/src/Mcu.cpp:62-94 | over a whole run: interrupt, any number of handler steps, MRET; the machine is back at the interrupted pc with MIE set |
| Traps.QuietStepStaysMasked | t89emu/src/Mcu.cpp:62-94 | with MIE 0, a step that executes no MRET and no write of mstatus takes no interrupt and leaves MIE 0, whatever exceptions it raises |
| Traps.NoReentry | t89emu/src/Mcu.cpp:62-94 | over any run segment of such steps no interrupt is taken, whatever the CLINT holds |
| Traps.TrapMasks | t89emu/src/Trap.cpp:32-37 | a step that takes a trap starts such a segment |
| Traps.StepTicks | t89emu/src/Mcu.cpp:62-94 | a step whose instructions store nothing to the CLINT leaves its buffer as the cycle made it |
| Traps.CounterAdvances | t89emu/src/ClintMemoryDevice.cpp:42-45 | the counter goes up by exactly 1 per step of a run whose instructions store nothing to the CLINT |
| Traps.CounterReads | t89emu/src/ClintMemoryDevice.cpp:9-24 | the two words read over the bus at 0 and 4 of the CLINT make up the 64-bit count |
| Traps.ComparatorReads | t89emu/src/ClintMemoryDevice.cpp:9-24 | the two words read over the bus at 8 and 12 make up the 64-bit comparand |
| Traps.SoftwareReads | t89emu/src/ClintMemoryDevice.cpp:9-24 | a software interrupt is pending exactly when the word read over the bus at 20 is 1 |
| Traps.CyclePending | t89emu/src/ClintMemoryDevice.cpp:42-57 | after a cycle MTIP is the comparison of the new count, and MSIP has been set if msip is 1 but is never cleared |
| Traps.InterruptExact | t89emu/src/ClintMemoryDevice.cpp:42-80 | the interrupt that a step takes, in terms of the state before it: software before timer, each only when enabled |
| Traps.TimerFires | t89emu/src/ClintMemoryDevice.cpp:42-80 | with MIE and MTIE set and no software interrupt, the timer interrupt is taken exactly when the next count reaches the comparand |
| Traps.TimerBound | t89emu/src/ClintMemoryDevice.cpp:42-80 | over a run without stores to the CLINT, the first timer interrupt is taken in step max(1, mtimecmp - mcycle) and in none before it |
| Refinement.RefinementExact | t89emu/src/Mcu.cpp:136-279 | for every instruction of the reference set and every state, executing its encoding has the reference effect on registers, CSRs, memory and pc if and only if `Exact` holds |
| Refinement.AluExact | t89emu/src/Alu.cpp:12-54 | the ALU against the reference operations: exact but for SLT on overflow and large shifts |
| Refinement.AluBits | t89emu/src/Alu.cpp:25-33 | every bit of XOR, OR and AND is the sum modulo 2, the maximum and the product of the operands' bits |
| Refinement.Bitwise32Agrees | t89emu/src/Alu.cpp:25-33 | the ALU's words are those put together bit by bit by the reference |
| Refinement.UpperExact | t89emu/src/Mcu.cpp:167-174 | LUI and AUIPC always agree |
| Refinement.JalExact | t89emu/src/Mcu.cpp:175-179 | JAL agrees exactly when its target is aligned or the link register keeps its value |
| Refinement.JalrExact | t89emu/src/Mcu.cpp:180-185 | JALR, whose bit 0 is not cleared |
| Refinement.BranchExact | t89emu/src/Mcu.cpp:186-189 | branches agree exactly when the signed difference fits or the offset is 4 |
| Refinement.LwExact | t89emu/src/Mcu.cpp:190-199 | LW agrees exactly at addresses that are no device's end |
| Refinement.NarrowLoadExact | t89emu/src/Mcu.cpp:190-199 | LB, LBU, LH and LHU agree exactly when the bytes after the loaded ones already are the extension (from the CLINT: when no sign is to be extended), and away from device ends |
| Refinement.StoreExact | t89emu/src/Mcu.cpp:200-208 | SB, SH and SW agree exactly at addresses that are no device's end and not in ROM |
| Refinement.OpImmExact | t89emu/src/Mcu.cpp:209-213 | the register-immediate operations |
| Refinement.OpExact | t89emu/src/Mcu.cpp:214-218 | the register-register operations |
| Refinement.CsrExact | t89emu/src/Mcu.cpp:239-258 | CSRRW, CSRRS and CSRRC agree exactly under a condition on rd, rs1 and the two values |
| Refinement.EcallExact | t89emu/src/Mcu.cpp:234-236 | ECALL raises its exception and changes nothing |
| Refinement.ControlSelects | t89emu/src/AluControlUnit.cpp:16-39 | the control unit selects the operation's ALU code |
| Refinement.FetchAgrees | t89emu/src/Mcu.cpp:137-145 | the word fetched over the bus is the one in the reference memory |
| Refinement.ProgramRefines | t89emu/src/Mcu.cpp:136-279 | a program that the reference runs to its end, with every instruction fetched from memory, the machine runs to the same registers, CSRs, pc and memory |
| Refinement.Abstraction | t89emu/src/Mcu.cpp:20-47 | every machine whose devices lie apart stands for a reference hart |
| RunRefinement.EffectsAlike | t89emu/src/Mcu.cpp:136-279 | an instruction that avoids the CLINT and mip acts alike on states that differ in these only |
| RunRefinement.StepRefines | t89emu/src/Mcu.cpp:62-94 | one `nextInstruction` with interrupts masked, counter and all, against one instruction of the reference |
| RunRefinement.RunRefines | t89emu/src/Mcu.cpp:62-94 | over a run with interrupts masked, a program that avoids the CLINT and mip brings the machine in as many steps to the reference's registers, pc, CSRs and memory while the CLINT counts beside it |
| RunRefinement.SimilarMeans | t89emu/src/Mcu.cpp:62-94 | the relation that runs keep: equal registers and pc, every CSR but mip equal, and every byte outside the CLINT equal |
| Deviations.Deviating | t89emu/src/Mcu.cpp:136-279 | one concrete machine, ready and standing for a hart, on which each of seventeen instructions does not have the reference effect |
| Deviations.FetchFaults | t89emu/src/Mcu.cpp:137-145 | a fetch from an unmapped or a misaligned address reports the code of a load |
| Debugger.McuDebug.ExecuteInstructions | t89emu/src/McuDebug.cpp:15-25 | the loop runs the machine until a breakpoint or the end of the cycles |
| Debugger.McuDebug.AddBreakpoint | t89emu/src/McuDebug.cpp:51-56 | appends the address unless it is there; the list stays free of duplicates |
| Debugger.McuDebug.RemoveBreakpoint | t89emu/src/McuDebug.cpp:58-65 | erases the first occurrence, after which the address is no breakpoint |
| Debugger.EditsExact | t89emu/src/McuDebug.cpp:51-70 | after any history of edits there are no duplicates, and an address is a breakpoint if and only if the last edit that mentions it added it |
| Debugger.DriveComposes | t89emu/src/McuDebug.cpp:15-25 | running a cycles and then b reaches the same machine as running a + b |
| Debugger.DriveStops | t89emu/src/McuDebug.cpp:15-25 | on return the machine is the one that so many steps reach; all were executed unless the pc is at a breakpoint, and no earlier state was at one |

## Left out

- The graphical interface, the keyboard, opening ELF files, source files and paths, printing and the disassembly strings: input, output and formatting.
- Parsing of the headers of compile units and line programs and of the file tables: the header fields that the parsers use are parameters, among them the size of an address.
- String tables: the strings at an offset are a function parameter.
- Building `Scope` objects from entries: the scope walk is modelled on immutable trees of scopes, so updates of a shared scope while it is walked are not captured.
- Rows of call-frame information (`processInstructions`, unwinding) and location expressions: the unwinder is a stub, and the cursor of an expression survives its evaluation.
- `generateVirtTable` beyond its selection loop.
- `stepLine` and `stepInstruction` of the debugger: whether `stepLine` ends is not decided by the code.
- EBREAK, FENCE, the immediate CSR instructions and MRET in the reference instruction set: the code has no such instructions, or the trap theorems cover them.
- Devices.MemoryDevice.Write: one class stands for the four device classes and its kind for the subclass, since the differences are the fall-through reads and the refusing ROM.
- The bus that is compiled when `BUS_EXPERIMENTAL` is not defined: the macro is always defined.
