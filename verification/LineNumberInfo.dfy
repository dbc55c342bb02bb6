/** The class that runs the line-number program over its fields and its stream. */
module LineNumberInfos {
  import opened Words
  import opened Streams
  import opened DataStreams
  import opened LineProgram

  class LineNumberInfo {
    const infoHeader: Header
    const stream: DataStream
    var lineMatrix: seq<Row>
    var address: u32
    var opIndex: u32
    var file: u32
    var line: u32
    var column: u32
    var isStmt: bool
    var basicBlock: bool
    var endSequence: bool
    var prologueEnd: bool
    var epilogueBegin: bool
    var isa: u32
    var discriminator: u32

    function Regs(): Registers
      reads this
    {
      Registers(address, opIndex, file, line, column, isStmt, basicBlock, endSequence, prologueEnd,
                epilogueBegin, isa, discriminator)
    }

    constructor (header: Header, data: seq<u8>, length: nat)
      ensures fresh(stream) && stream.data == data && stream.streamLen == length && stream.index == 0
      ensures infoHeader == header && Regs() == Initial(header) && lineMatrix == []
      ensures address == 0 && opIndex == 0 && file == 1 && line == 1 && column == 0 && isStmt == header.defaultIsStmt
    {
      infoHeader := header;
      stream := new DataStream(data, length);
      lineMatrix := [];
      new;
      ClearRegisters();
    }

    method ClearRegisters()
      modifies this
      ensures Regs() == Initial(infoHeader) && lineMatrix == old(lineMatrix)
      ensures address == 0 && opIndex == 0 && file == 1 && line == 1 && column == 0
      ensures isStmt == infoHeader.defaultIsStmt && isa == 0 && discriminator == 0
      ensures !basicBlock && !endSequence && !prologueEnd && !epilogueBegin
    {
      basicBlock, endSequence, prologueEnd, epilogueBegin := false, false, false, false;
      address, opIndex, column, isa, discriminator := 0, 0, 0, 0, 0;
      isStmt := infoHeader.defaultIsStmt;
      file, line := 1, 1;
    }

    function GetNewAddress(operationAdvance: u32): u32
      requires infoHeader.maximumOperationsPerInstruction > 0
      reads this
    {
      Wrap32(address + infoHeader.minimumInstructionLength
                       * (Wrap32(opIndex + operationAdvance) / infoHeader.maximumOperationsPerInstruction))
    }

    function GetNewOpIndex(operationAdvance: u32): u32
      requires infoHeader.maximumOperationsPerInstruction > 0
      reads this
    {
      Wrap32(opIndex + operationAdvance) % infoHeader.maximumOperationsPerInstruction
    }

    method PushRow()
      modifies this
      ensures Regs() == old(Regs()) && lineMatrix == old(lineMatrix) + [RowOf(old(Regs()))]
    {
      lineMatrix := lineMatrix + [Row(address, line, column, file, isStmt, prologueEnd, epilogueBegin)];
    }

    /** A special opcode and DW_LNS_copy append a row and reset what belongs to one row only. */
    method EndRow()
      modifies this
      ensures Regs() == AfterRow(old(Regs())) && lineMatrix == old(lineMatrix) + [RowOf(old(Regs()))]
    {
      PushRow();
      discriminator := 0;
      basicBlock := false;
      prologueEnd := false;
      epilogueBegin := false;
    }

    method AdvanceAddress(operationAdvance: u32) returns (ok: bool)
      modifies this
      ensures lineMatrix == old(lineMatrix) && ok == (infoHeader.maximumOperationsPerInstruction > 0)
      ensures ok ==> Regs() == Advance(infoHeader, old(Regs()), operationAdvance)
    {
      if infoHeader.maximumOperationsPerInstruction == 0 {
        return false;
      }
      var newAddress := GetNewAddress(operationAdvance);
      opIndex := GetNewOpIndex(operationAdvance);
      address := newAddress;
      ok := true;
    }

    /** The new state agrees with an outcome of the byte-level functions. */
    predicate Matches(s: Read<Stepped>, r: Read<()>, rowsBefore: seq<Row>)
      reads this, stream
    {
      match s
      case Ok(stepped, next) =>
        && r == Ok((), next) && stream.index == next && Regs() == stepped.regs
        && lineMatrix == rowsBefore + stepped.rows
      case Fail(fault) => r == Fail(fault)
    }

    method RunSpecial(opcode: u8) returns (r: Read<()>)
      requires opcode >= infoHeader.opcodeBase
      modifies this
      ensures Matches(SpecialOpcode(infoHeader, old(Regs()), opcode, stream.index), r, old(lineMatrix))
    {
      hide Advance, Wrap32;
      if infoHeader.lineRange == 0 {
        return Fail(DivisionByZero);
      }
      var adjustedOpcode := opcode - infoHeader.opcodeBase;
      var ok := AdvanceAddress(adjustedOpcode / infoHeader.lineRange);
      if !ok {
        return Fail(DivisionByZero);
      }
      line := Wrap32(line + infoHeader.lineBase + adjustedOpcode % infoHeader.lineRange);
      EndRow();
      r := Ok((), stream.index);
    }

    method RunStandard(opcode: u8) returns (r: Read<()>)
      requires 0 < opcode < infoHeader.opcodeBase
      modifies this, stream
      ensures Matches(StandardOpcode(infoHeader, old(Regs()), opcode, stream.data, old(stream.index)),
                      r, old(lineMatrix))
    {
      hide ULebAt, SLebAt, U16At, Advance, Wrap32;
      match opcode {
        case 1 => EndRow();
        case 6 => isStmt := !isStmt;
        case 7 => basicBlock := true;
        case 8 =>
          if infoHeader.lineRange == 0 { return Fail(DivisionByZero); }
          var ok := AdvanceAddress((255 - infoHeader.opcodeBase) / infoHeader.lineRange);
          if !ok { return Fail(DivisionByZero); }
        case 10 => prologueEnd := true;
        case 11 => epilogueBegin := true;
        case _ =>
          r := RunWithOperand(opcode);
          return;
      }
      r := Ok((), stream.index);
    }

    /** The standard opcodes that read an operand from the stream. */
    method RunWithOperand(opcode: u8) returns (r: Read<()>)
      requires opcode !in {1, 6, 7, 8, 10, 11}
      modifies this, stream
      ensures Matches(StandardOpcode(infoHeader, old(Regs()), opcode, stream.data, old(stream.index)),
                      r, old(lineMatrix))
    {
      hide ULebAt, SLebAt, U16At, Advance, Wrap32;
      match opcode {
        case 2 =>
          var n := stream.DecodeULeb128();
          if n.Fail? { return Fail(n.fault); }
          var ok := AdvanceAddress(Wrap32(n.value));
          if !ok { return Fail(DivisionByZero); }
        case 3 =>
          var n := stream.DecodeLeb128();
          if n.Fail? { return Fail(n.fault); }
          line := Wrap32(line + n.value);
        case 4 =>
          var n := stream.DecodeULeb128();
          if n.Fail? { return Fail(n.fault); }
          file := Wrap32(n.value);
        case 5 =>
          var n := stream.DecodeULeb128();
          if n.Fail? { return Fail(n.fault); }
          column := Wrap32(n.value);
        case 9 =>
          var n := stream.DecodeUInt16();
          if n.Fail? { return Fail(n.fault); }
          address := Wrap32(address + n.value);
          opIndex := 0;
        case 12 =>
          var n := stream.DecodeULeb128();
          if n.Fail? { return Fail(n.fault); }
          isa := Wrap32(n.value);
        case _ =>
      }
      r := Ok((), stream.index);
    }

    method RunExtended() returns (r: Read<()>)
      modifies this, stream
      ensures Matches(ExtendedOpcode(infoHeader, old(Regs()), stream.data, old(stream.index)), r, old(lineMatrix))
    {
      hide ULebAt, U32At, U8At;
      var length := stream.DecodeULeb128();
      if length.Fail? { return Fail(length.fault); }
      var opcode := stream.DecodeUInt8();
      if opcode.Fail? { return Fail(opcode.fault); }
      match opcode.value {
        case 1 =>
          endSequence := true;
          PushRow();
          ClearRegisters();
        case 2 =>
          var a := stream.DecodeUInt32();
          if a.Fail? { return Fail(a.fault); }
          address := a.value;
          opIndex := 0;
        case 4 =>
          var n := stream.DecodeULeb128();
          if n.Fail? { return Fail(n.fault); }
          discriminator := Wrap32(n.value);
        case _ =>
      }
      r := Ok((), stream.index);
    }

    method GenerateLineNumberMatrix() returns (r: Read<()>)
      modifies this, stream
      ensures Matches(Run(infoHeader, old(Regs()), stream.data, old(stream.index), stream.streamLen),
                      r, old(lineMatrix))
    {
      hide SpecialOpcode, StandardOpcode, ExtendedOpcode, U8At;
      ghost var h, d, n := infoHeader, stream.data, stream.streamLen;
      ghost var done := Stepped(Regs(), []);
      ThenNothing(done, Run(h, Regs(), d, stream.index, n));
      while stream.IsStreamable()
        invariant Run(h, old(Regs()), d, old(stream.index), n) == Then(done, Run(h, Regs(), d, stream.index, n))
        invariant lineMatrix == old(lineMatrix) + done.rows
        decreases n - stream.index
      {
        ghost var before, start, rows := Regs(), stream.index, lineMatrix;
        var opcode := stream.DecodeUInt8();
        if opcode.Fail? { return Fail(opcode.fault); }
        var step: Read<()>;
        if opcode.value >= infoHeader.opcodeBase {
          step := RunSpecial(opcode.value);
        } else if opcode.value > 0 {
          step := RunStandard(opcode.value);
        } else {
          step := RunExtended();
        }
        assert Matches(StepAt(h, before, d, start), step, rows);
        if step.Fail? { return Fail(step.fault); }
        ghost var s := StepAt(h, before, d, start).value;
        ThenThen(done, s, Run(h, Regs(), d, stream.index, n));
        done := Stepped(s.regs, done.rows + s.rows);
      }
      r := Ok((), stream.index);
    }
  }
}
