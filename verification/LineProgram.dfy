/**
 The line-number program: the byte-level state machine of
 `LineNumberInfo::generateLineNumberMatrix`.
 */
module LineProgram {
  import opened Words
  import opened Streams

  /** The header fields that the state machine uses. */
  datatype Header = Header(
    minimumInstructionLength: u8, maximumOperationsPerInstruction: u8, defaultIsStmt: bool,
    lineBase: int, lineRange: u8, opcodeBase: u8)

  datatype Registers = Registers(
    address: int, opIndex: int, file: int, line: int, column: int,
    isStmt: bool, basicBlock: bool, endSequence: bool, prologueEnd: bool, epilogueBegin: bool,
    isa: int, discriminator: int)

  datatype Row = Row(
    address: int, line: int, column: int, file: int, isStmt: bool, prologueEnd: bool, epilogueBegin: bool)

  /** Registers after some instructions, and the rows they appended. */
  datatype Stepped = Stepped(regs: Registers, rows: seq<Row>)

  function Initial(h: Header): Registers {
    Registers(0, 0, 1, 1, 0, h.defaultIsStmt, false, false, false, false, 0, 0)
  }

  function RowOf(r: Registers): Row {
    Row(r.address, r.line, r.column, r.file, r.isStmt, r.prologueEnd, r.epilogueBegin)
  }

  /** The registers after a row has been appended by a special opcode or DW_LNS_copy. */
  function AfterRow(r: Registers): Registers {
    r.(basicBlock := false, prologueEnd := false, epilogueBegin := false, discriminator := 0)
  }

  /** `getNewAddress` and `getNewOpIndex`, in 32-bit arithmetic. */
  function Advance(h: Header, r: Registers, operationAdvance: int): Registers
    requires h.maximumOperationsPerInstruction > 0
  {
    var ops := Wrap32(r.opIndex + operationAdvance);
    r.(address := Wrap32(r.address + h.minimumInstructionLength * (ops / h.maximumOperationsPerInstruction)),
       opIndex := ops % h.maximumOperationsPerInstruction)
  }

  function Quiet(r: Registers, next: nat): Read<Stepped> {
    Ok(Stepped(r, []), next)
  }

  function SpecialOpcode(h: Header, r: Registers, opcode: u8, next: nat): Read<Stepped>
    requires opcode >= h.opcodeBase
  {
    if h.lineRange == 0 || h.maximumOperationsPerInstruction == 0 then Fail(DivisionByZero)
    else
      var adjusted := opcode - h.opcodeBase;
      var moved := Advance(h, r, adjusted / h.lineRange);
      var m := moved.(line := Wrap32(moved.line + h.lineBase + adjusted % h.lineRange));
      Ok(Stepped(AfterRow(m), [RowOf(m)]), next)
  }

  function AdvanceBy(h: Header, r: Registers, operationAdvance: int, next: nat): Read<Stepped> {
    if h.maximumOperationsPerInstruction == 0 then Fail(DivisionByZero)
    else Quiet(Advance(h, r, operationAdvance), next)
  }

  function StandardOpcode(h: Header, r: Registers, opcode: u8, d: seq<u8>, i: nat): (s: Read<Stepped>)
    ensures s.Ok? ==> i <= s.next
  {
    match opcode
    case 1 => Ok(Stepped(AfterRow(r), [RowOf(r)]), i)                               // copy
    case 2 => var (n, j) :- ULebAt(d, i); AdvanceBy(h, r, Wrap32(n), j)             // advance_pc
    case 3 => var (n, j) :- SLebAt(d, i); Quiet(r.(line := Wrap32(r.line + n)), j)  // advance_line
    case 4 => var (n, j) :- ULebAt(d, i); Quiet(r.(file := Wrap32(n)), j)           // set_file
    case 5 => var (n, j) :- ULebAt(d, i); Quiet(r.(column := Wrap32(n)), j)         // set_column
    case 6 => Quiet(r.(isStmt := !r.isStmt), i)                                     // negate_stmt
    case 7 => Quiet(r.(basicBlock := true), i)                                      // set_basic_block
    case 8 =>                                                                       // const_add_pc
      if h.lineRange == 0 then Fail(DivisionByZero)
      else AdvanceBy(h, r, (255 - h.opcodeBase) / h.lineRange, i)
    case 9 => var (n, j) :- U16At(d, i);                                            // fixed_advance_pc
      Quiet(r.(address := Wrap32(r.address + n), opIndex := 0), j)
    case 10 => Quiet(r.(prologueEnd := true), i)                                    // set_prologue_end
    case 11 => Quiet(r.(epilogueBegin := true), i)                                  // set_epilogue_begin
    case 12 => var (n, j) :- ULebAt(d, i); Quiet(r.(isa := Wrap32(n)), j)           // set_isa
    case _ => Quiet(r, i)
  }

  function ExtendedOpcode(h: Header, r: Registers, d: seq<u8>, i: nat): (s: Read<Stepped>)
    ensures s.Ok? ==> i <= s.next
  {
    var (_, i1) :- ULebAt(d, i);
    var (opcode, i2) :- U8At(d, i1);
    match opcode
    case 1 => Ok(Stepped(Initial(h), [RowOf(r)]), i2)                               // end_sequence
    case 2 => var (a, j) :- U32At(d, i2); Quiet(r.(address := a, opIndex := 0), j)  // set_address
    case 4 => var (n, j) :- ULebAt(d, i2); Quiet(r.(discriminator := Wrap32(n)), j) // set_discriminator
    case _ => Quiet(r, i2)
  }

  /** One iteration of the loop. */
  function StepAt(h: Header, r: Registers, d: seq<u8>, i: nat): (s: Read<Stepped>)
    ensures s.Ok? ==> i < s.next && i < |d|
  {
    var (opcode, i1) :- U8At(d, i);
    if opcode >= h.opcodeBase then SpecialOpcode(h, r, opcode, i1)
    else if opcode > 0 then StandardOpcode(h, r, opcode, d, i1)
    else ExtendedOpcode(h, r, d, i1)
  }

  function Then(first: Stepped, rest: Read<Stepped>): Read<Stepped> {
    match rest
    case Ok(s, next) => Ok(Stepped(s.regs, first.rows + s.rows), next)
    case Fail(fault) => Fail(fault)
  }

  /** The loop, up to the end of the program. */
  function Run(h: Header, r: Registers, d: seq<u8>, i: nat, length: nat): Read<Stepped>
    decreases length - i
  {
    if i >= length then Ok(Stepped(r, []), i)
    else
      var (s, i1) :- StepAt(h, r, d, i);
      Then(s, Run(h, s.regs, d, i1, length))
  }

  lemma ThenNothing(s: Stepped, rest: Read<Stepped>)
    requires s.rows == []
    ensures Then(s, rest) == rest
  {
    if rest.Ok? {
      assert [] + rest.value.rows == rest.value.rows;
    }
  }

  lemma ThenThen(s: Stepped, t: Stepped, rest: Read<Stepped>)
    ensures Then(s, Then(t, rest)) == Then(Stepped(t.regs, s.rows + t.rows), rest)
  {
    if rest.Ok? {
      assert s.rows + (t.rows + rest.value.rows) == s.rows + t.rows + rest.value.rows;
    }
  }
}
