/**
 The emulated microcontroller as objects that every cycle updates in place. Each method is
 proved to take the machine's value to the one that the step functions give.
 */
module Mcus {
  import opened Words
  import opened Alu
  import opened Immediates
  import opened Memory
  import opened Machines
  import opened Precise
  import opened ControlRegisters
  import opened Devices
  import opened ResetState

  class RegisterFile {
    const registers: array<u32>

    constructor ()
      ensures fresh(registers) && registers[..] == seq(32, _ => 0)
    {
      registers := new u32[32](_ => 0);
    }

    function Read(r: reg): u32
      requires registers.Length == 32
      reads registers
    {
      registers[r]
    }

    /** Register x0 stays 0. */
    method Write(data: u32, r: reg)
      requires registers.Length == 32
      modifies registers
      ensures registers[..] == old(registers[..])[r := if r != 0 then data else 0]
    {
      registers[r] := if r != 0 then data else 0;
    }
  }

  class ProgramCounter {
    var pc: u32

    constructor ()
      ensures pc == 0
    {
      pc := 0;
    }

    method SetPc(nextPc: u32)
      modifies this
      ensures pc == nextPc
    {
      pc := nextPc;
    }
  }

  class NextPc {
    var nextPc: u32

    constructor ()
      ensures nextPc == 0
    {
      nextPc := 0;
    }

    method SetNextPc(nextPc: u32)
      modifies this
      ensures this.nextPc == nextPc
    {
      this.nextPc := nextPc;
    }

    method CalculateNextPc(offset: u32, opcode: nat, funct3: nat, a: u32, b: u32, mepc: u32) returns (code: u32)
      modifies this
      ensures nextPc == NextPcOf(old(nextPc), offset, opcode, funct3, a, b, mepc)
      ensures code == if nextPc % 4 != 0 then INSTRUCTION_ADDRESS_MISALIGNED else STATUS_OK
    {
      hide BranchTaken;
      if opcode == JAL {
        nextPc := Wrap32(nextPc + offset);
      } else if opcode == JALR {
        nextPc := Wrap32(a + offset);
      } else if opcode == BTYPE {
        nextPc := Wrap32(nextPc + if BranchTaken(a, b, funct3) then offset else 4);
      } else if opcode == PRIV {
        if funct3 == 0 && offset == MRET_IMM {
          nextPc := mepc;
        } else {
          nextPc := Wrap32(nextPc + 4);
        }
      } else {
        nextPc := Wrap32(nextPc + 4);
      }
      return if nextPc % 4 != 0 then INSTRUCTION_ADDRESS_MISALIGNED else STATUS_OK;
    }
  }

  lemma AddressAdds(opcode: nat)
    requires opcode !in {ITYPE, RTYPE, BTYPE}
    ensures AluOperation(opcode, 0, 0) == ADD
  {
  }

  /** Reading creates an entry at most once. */
  lemma ReadTwice(csr: Csrs, a: u32)
    ensures Get(Machines.Read(csr, a), a) == Get(csr, a)
    ensures Machines.Read(Machines.Read(csr, a), a) == Machines.Read(csr, a)
  {
  }

  /** A branch does not look at mepc. */
  lemma NoReturn(nextPc: u32, offset: u32, funct3: nat, a: u32, b: u32, mepc: u32)
    ensures NextPcOf(nextPc, offset, BTYPE, funct3, a, b, mepc) == NextPcOf(nextPc, offset, BTYPE, funct3, a, b, 0)
  {
  }

  /** `Trap::takeTrap`. */
  method TakeTrapOn(csr: Csr, pc: ProgramCounter, nextPc: NextPc, mcause: u32)
    requires csr.Valid()
    modifies csr, pc, nextPc
    ensures csr.Valid() && csr.registers == TrapCsrs(old(csr.registers), old(pc.pc), mcause)
    ensures pc.pc == nextPc.nextPc == TrapTarget(csr.registers, mcause)
    ensures pc.pc == Wrap32(Get(csr.registers, 0x305) + if mcause < 0x8000_0000 then 64 + 4 * mcause
                                                        else 4 * (mcause - 0x8000_0000))
  {
    hide Or32, And32, Bit, Wrap32;
    csr.SetMepc(pc.pc);
    if mcause == ECALL_FROM_M_MODE {
      csr.SetMepc(Wrap32(csr.GetMepc() + 4));
    }
    csr.SetMcause(mcause);
    if csr.GetMie() == 1 {
      csr.SetMpie();
    }
    csr.ResetMie();
    csr.SetMpp(3);
    csr.ResetMie();
    var vectorTableOffset := if mcause >= 0x8000_0000 then mcause - 0x8000_0000 else 16 + mcause;
    nextPc.SetNextPc(Wrap32(csr.GetMtvec() + 4 * vectorTableOffset));
    pc.SetPc(Wrap32(csr.GetMtvec() + 4 * vectorTableOffset));
  }

  class Mcu {
    const rf: RegisterFile
    const pc: ProgramCounter
    const nextPc: NextPc
    const csr: Csr
    const bus: Bus
    const rom: MemoryDevice
    const ram: MemoryDevice
    const vram: MemoryDevice
    const clint: ClintMemoryDevice

    ghost function Buffers(): set<object> {
      {rom.mem, ram.mem, vram.mem, clint.device.mem}
    }

    ghost function Repr(): set<object> {
      {rf.registers, pc, nextPc, csr, bus, clint} + Buffers()
    }

    ghost predicate Valid()
      reads Repr()
    {
      && rf.registers.Length == 32 && rf.registers[0] == 0 && csr.Valid()
      && (rf.registers as object) !in Buffers()
      && bus.devices == [rom, ram, vram, clint.device] && OwnBuffers(bus.devices)
      && rom.kind == Rom && ram.kind == Ram && vram.kind == Video && clint.device.kind == Kind.Clint
      && rom.mem.Length < 0x1_0000_0000 && ram.mem.Length < 0x1_0000_0000 && vram.mem.Length < 0x1_0000_0000
      && clint.device.mem.Length == CLINT_SIZE
    }

    /** The machine's value. */
    ghost function State(): (m: Machine)
      requires Valid()
      reads Repr()
      ensures Machines.Valid(m)
    {
      Machine(rf.registers[..], csr.registers, pc.pc, nextPc.nextPc, AllContents(bus.devices))
    }

    /** The call returned the outcome's code, or met what C++ leaves undefined. */
    ghost predicate Became(o: Outcome, code: Option<u32>)
      requires Valid()
      reads Repr()
    {
      match o
      case Done(m, c) => code == Some(c) && State() == m
      case Undefined => code == None
    }

    constructor (romBase: u32, ramBase: u32, entryPc: u32)
      ensures fresh(rf.registers) && fresh(pc) && fresh(nextPc) && fresh(csr) && fresh(bus) && fresh(clint)
      ensures fresh(rom.mem) && fresh(ram.mem) && fresh(vram.mem) && fresh(clint.device.mem)
      ensures Valid() && State() == Reset(romBase, ramBase, entryPc, csr.registers)
      ensures pc.pc == entryPc && nextPc.nextPc == entryPc
      ensures forall a: u32 :: Get(csr.registers, a) == 0
    {
      hide AllContents, Reset, Get, Valid;
      rf := new RegisterFile();
      pc := new ProgramCounter();
      csr := new Csr();
      nextPc := new NextPc();
      bus := new Bus();
      rom := new MemoryDevice(Rom, romBase, ROM_SIZE);
      ram := new MemoryDevice(Ram, ramBase, RAM_SIZE);
      vram := new MemoryDevice(Video, VIDEO_BASE, VIDEO_SIZE);
      clint := new ClintMemoryDevice(CLINT_BASE);
      new;
      AddDevices();
      Start(romBase, ramBase, entryPc);
    }

    method AddDevices()
      requires bus.devices == []
      modifies bus
      ensures bus.devices == [rom, ram, vram, clint.device]
    {
      var _ := bus.AddDevice(rom);
      var _ := bus.AddDevice(ram);
      var _ := bus.AddDevice(vram);
      var _ := bus.AddDevice(clint.device);
    }

    /** The parts are distinct objects. */
    ghost predicate Apart() {
      && (rf.registers as object) !in Buffers()
      && rom.mem != ram.mem && rom.mem != vram.mem && rom.mem != clint.device.mem
      && ram.mem != vram.mem && ram.mem != clint.device.mem && vram.mem != clint.device.mem
    }

    method Start(romBase: u32, ramBase: u32, entryPc: u32)
      requires Apart() && bus.devices == [rom, ram, vram, clint.device] && csr.Valid()
      requires rf.registers[..] == seq(32, _ => 0)
      requires rom.Contents() == Device(Rom, romBase, seq(ROM_SIZE, _ => 0))
      requires ram.Contents() == Device(Ram, ramBase, seq(RAM_SIZE, _ => 0))
      requires vram.Contents() == Device(Video, VIDEO_BASE, seq(VIDEO_SIZE, _ => 0))
      requires clint.device.Contents() == Device(Kind.Clint, CLINT_BASE, seq(CLINT_SIZE, _ => 0))
      modifies pc, nextPc
      ensures Valid() && State() == Reset(romBase, ramBase, entryPc, csr.registers)
      ensures pc.pc == entryPc && nextPc.nextPc == entryPc
    {
      pc.SetPc(entryPc);
      nextPc.SetNextPc(entryPc);
      assert rf.registers[..][0] == 0;
      assert |rom.Contents().mem| == ROM_SIZE && |ram.Contents().mem| == RAM_SIZE;
      assert |vram.Contents().mem| == VIDEO_SIZE && |clint.device.Contents().mem| == CLINT_SIZE;
    }

    /** The end of every instruction: the next pc is computed, and the pc follows it when it is aligned. */
    method Finish(immediate: u32, opcode: nat, funct3: nat, a: u32, b: u32) returns (code: u32)
      requires Valid()
      modifies pc, nextPc
      ensures Valid()
      ensures var m := old(State());
        Became(Advance(m, NextPcOf(m.nextPc, immediate, opcode, funct3, a, b, Get(m.csr, MEPC))), Some(code))
    {
      hide NextPcOf, AllContents;
      code := nextPc.CalculateNextPc(immediate, opcode, funct3, a, b, csr.GetMepc());
      if code != STATUS_OK {
        return code;
      }
      pc.SetPc(nextPc.nextPc);
      return STATUS_OK;
    }

    /** Writes a result, unless its computation is undefined. */
    method WriteResult(rd: reg, value: Option<u32>, immediate: u32, opcode: nat, funct3: nat)
      returns (code: Option<u32>)
      requires Valid() && opcode !in {JAL, JALR, BTYPE, PRIV}
      modifies rf.registers, pc, nextPc
      ensures Valid() && Became(Produce(old(State()), rd, value), code)
    {
      hide Wrap32, AllContents;
      if value == None {
        return None;
      }
      rf.Write(value.value, rd);
      assert State() == WriteReg(old(State()), rd, value.value);
      var finished := Finish(immediate, opcode, funct3, 0, 0);
      return Some(finished);
    }

    /** JAL and JALR: the return address goes to rd; the base has been read before. */
    method Jump(rd: reg, a: u32, immediate: u32, opcode: nat) returns (code: Option<u32>)
      requires Valid() && (opcode == JAL || opcode == JALR)
      modifies rf.registers, pc, nextPc
      ensures Valid()
      ensures var m := old(State());
        Became(Advance(WriteReg(m, rd, Wrap32(m.pc + 4)), NextPcOf(m.nextPc, immediate, opcode, 0, a, 0, 0)), code)
    {
      hide Wrap32, AllContents;
      rf.Write(Execute(pc.pc, 4, AluOperation(opcode, 0, 0)).value, rd);
      assert State() == WriteReg(old(State()), rd, Wrap32(old(pc.pc) + 4));
      var finished := Finish(immediate, opcode, 0, a, 0);
      return Some(finished);
    }

    method ExecuteLoad(inst: u32) returns (code: Option<u32>)
      requires Valid()
      modifies rf.registers, pc, nextPc
      ensures Valid() && Became(Machines.ExecuteLoad(old(State()), inst), code)
    {
      hide GetImmediate, BusRead, Produce, Wrap32, RdOf, Rs1Of, Funct3Of;
      var access := bus.Read(Wrap32(rf.Read(Rs1Of(inst)) + GetImmediate(inst)), MemSize(Funct3Of(inst)));
      match access
      case Value(v) => code := WriteResult(RdOf(inst), Some(v), GetImmediate(inst), LOAD, Funct3Of(inst));
      case Fault(c) => return Some(c);
      case Wild => return None;
    }

    method Store(addr: u32, data: u32, accessSize: nat) returns (code: Option<u32>)
      requires Valid()
      modifies Buffers()
      ensures Valid()
      ensures var m := old(State());
        match BusWrite(m.devices, addr, data, accessSize)
        case Written(after) => code == Some(STATUS_OK) && State() == m.(devices := after)
        case WriteFault(c) => code == Some(c) && c != STATUS_OK && State() == m
        case WildWrite => code == None
    {
      hide BusWrite;
      ghost var devices := AllContents(bus.devices);
      code := bus.Write(addr, data, accessSize);
      if BusWrite(devices, addr, data, accessSize).WriteFault? {
        BusWriteCodes(devices, addr, data, accessSize);
      }
    }

    method ExecuteStore(inst: u32) returns (code: Option<u32>)
      requires Valid()
      modifies Buffers(), pc, nextPc
      ensures Valid() && Became(Machines.ExecuteStore(old(State()), inst), code)
    {
      hide GetImmediate, BusWrite, Advance, Wrap32, Rs1Of, Rs2Of, Funct3Of, AllContents;
      code := Store(Wrap32(rf.Read(Rs1Of(inst)) + GetImmediate(inst)), rf.Read(Rs2Of(inst)), MemSize(Funct3Of(inst)));
      if code != Some(STATUS_OK) {
        return code;
      }
      var finished := Finish(GetImmediate(inst), STORE, Funct3Of(inst), 0, 0);
      return Some(finished);
    }

    /** The current value of a CSR goes to rd. */
    method MoveCsr(csrAddr: u32, rd: reg)
      requires Valid()
      modifies rf.registers, csr
      ensures Valid()
      ensures var m := old(State());
        State() == WriteReg(m, rd, Get(m.csr, csrAddr)).(csr := Machines.Read(m.csr, csrAddr))
    {
      hide Machines.Read, Get, AllContents;
      var value := csr.ReadCsr(csrAddr);
      rf.Write(value, rd);
    }

    method WriteCsr(csrAddr: u32, data: u32)
      requires Valid()
      modifies csr
      ensures Valid()
      ensures var m := old(State()); State() == m.(csr := m.csr[csrAddr := data])
    {
      hide AllContents;
      csr.WriteCsr(csrAddr, data);
    }

    /** Reading a CSR that has been read before changes nothing. */
    method ReadCsrAgain(csrAddr: u32, ghost before: Csrs) returns (data: u32)
      requires Valid() && csr.registers == Machines.Read(before, csrAddr)
      modifies csr
      ensures Valid() && State() == old(State()) && data == Get(before, csrAddr)
    {
      hide Machines.Read, Get, AllContents;
      ReadTwice(before, csrAddr);
      data := csr.ReadCsr(csrAddr);
    }

    /** CSRRW, CSRRS and CSRRC; the immediate forms do nothing. */
    method AccessCsr(inst: u32)
      requires Valid()
      modifies rf.registers, csr
      ensures Valid() && State() == CsrOperation(old(State()), inst)
    {
      hide RdOf, Rs1Of, CsrOf, Funct3Of, Or32, And32, Machines.Read, Get, WriteReg, AllContents, Valid, State;
      StateParts();
      ghost var before := csr.registers;
      var csrAddr, rs1, rd := CsrOf(inst), Rs1Of(inst), RdOf(inst);
      match Funct3Of(inst)
      case 1 =>
        MoveCsr(csrAddr, rd);
        StateParts();
        WriteCsr(csrAddr, rf.Read(rs1));
      case 2 =>
        MoveCsr(csrAddr, rd);
        StateParts();
        if rs1 != 0 {
          var current := ReadCsrAgain(csrAddr, before);
          StateParts();
          WriteCsr(csrAddr, Or32(rf.Read(rs1), current));
        }
      case 3 =>
        MoveCsr(csrAddr, rd);
        StateParts();
        if rs1 != 0 {
          var current := ReadCsrAgain(csrAddr, before);
          StateParts();
          WriteCsr(csrAddr, And32(if rf.Read(rs1) == 0 then 1 else 0, current));
        }
      case _ =>
    }

    lemma StateParts()
      requires Valid()
      ensures rf.registers.Length == 32 && State().regs == rf.registers[..] && State().csr == csr.registers
      ensures State().pc == pc.pc
    {
    }

    method ReturnFromTrap()
      requires Valid()
      modifies csr
      ensures Valid()
      ensures var m := old(State()); State() == m.(csr := ReturnCsrs(m.csr))
    {
      hide Or32, And32, Bit, AllContents, Machines.Valid;
      if csr.GetMpie() == 1 {
        csr.SetMie();
      }
      csr.SetMpie();
      csr.SetMpp(3);
    }

    method ExecutePrivileged(inst: u32) returns (code: Option<u32>)
      requires Valid()
      modifies rf.registers, csr, pc, nextPc
      ensures Valid() && Became(Machines.ExecutePrivileged(old(State()), inst), code)
    {
      hide GetImmediate, CsrOperation, ReturnCsrs, Advance, NextPcOf, Funct3Of;
      var immediate, funct3 := GetImmediate(inst), Funct3Of(inst);
      if funct3 == 0 {
        if immediate == MRET_IMM {
          ReturnFromTrap();
        } else if immediate == ECALL_IMM {
          return Some(ECALL_FROM_M_MODE);
        }
      } else {
        AccessCsr(inst);
      }
      var finished := Finish(immediate, PRIV, funct3, 0, 0);
      return Some(finished);
    }

    /** Decode and execute. */
    method ExecuteWord(inst: u32) returns (code: Option<u32>)
      requires Valid()
      modifies rf.registers, csr, pc, nextPc, Buffers()
      ensures Valid() && Became(Machines.ExecuteWord(old(State()), inst), code)
    {
      hide GetImmediate, OpcodeOf, RdOf, Rs1Of, Rs2Of, Funct3Of, Funct7Of, AluOperation, Execute, NextPcOf, Wrap32;
      hide WriteReg, Advance, Produce, Machines.ExecuteLoad, Machines.ExecuteStore, Machines.ExecutePrivileged;
      var opcode, funct3, funct7 := OpcodeOf(inst), Funct3Of(inst), Funct7Of(inst);
      var rs1, rs2, rd := Rs1Of(inst), Rs2Of(inst), RdOf(inst);
      var immediate := GetImmediate(inst);
      if opcode == LUI {
        code := WriteResult(rd, Some(immediate), immediate, opcode, funct3);
      } else if opcode == AUIPC {
        AddressAdds(opcode);
        code := WriteResult(rd, Execute(pc.pc, immediate, AluOperation(opcode, 0, 0)), immediate, opcode, funct3);
      } else if opcode == JAL {
        code := Jump(rd, 0, immediate, opcode);
      } else if opcode == JALR {
        code := Jump(rd, rf.Read(rs1), immediate, opcode);
      } else if opcode == BTYPE {
        NoReturn(nextPc.nextPc, immediate, funct3, rf.Read(rs1), rf.Read(rs2), csr.GetMepc());
        var finished := Finish(immediate, opcode, funct3, rf.Read(rs1), rf.Read(rs2));
        code := Some(finished);
      } else if opcode == LOAD {
        code := ExecuteLoad(inst);
      } else if opcode == STORE {
        code := ExecuteStore(inst);
      } else if opcode == ITYPE {
        var aluOpcode := AluOperation(opcode, funct7, funct3);
        code := WriteResult(rd, Execute(rf.Read(rs1), immediate, aluOpcode), immediate, opcode, funct3);
      } else if opcode == RTYPE {
        var aluOpcode := AluOperation(opcode, funct7, funct3);
        code := WriteResult(rd, Execute(rf.Read(rs1), rf.Read(rs2), aluOpcode), immediate, opcode, funct3);
      } else if opcode == PRIV {
        code := ExecutePrivileged(inst);
      } else {
        return Some(ILLEGAL_INSTRUCTION);
      }
    }

    method ExecuteInstruction() returns (code: Option<u32>)
      requires Valid()
      modifies rf.registers, csr, pc, nextPc, Buffers()
      ensures Valid() && Became(Machines.ExecuteInstruction(old(State())), code)
    {
      hide BusRead, Machines.ExecuteWord;
      var fetched := bus.Read(pc.pc, 4);
      match fetched
      case Value(inst) => code := ExecuteWord(inst);
      case Fault(c) => return Some(c);
      case Wild => return None;
    }

    method TakeTrap(mcause: u32)
      requires Valid()
      modifies csr, pc, nextPc
      ensures Valid() && State() == Machines.TakeTrap(old(State()), mcause)
    {
      hide TrapCsrs, TrapTarget;
      TakeTrapOn(csr, pc, nextPc, mcause);
    }

    /** One cycle of the CLINT and the interrupt check. */
    method CheckClint()
      requires Valid()
      modifies csr, pc, nextPc, clint, Buffers()
      ensures Valid() && State() == Interrupted(old(State()))
    {
      hide Ticked, CycleCsrs, InterruptCause, Machines.TakeTrap;
      ghost var m := State();
      clint.NextCycle(csr);
      OneChanged(m.devices, bus.devices, CLINT);
      assert State() == NextCycle(m);
      var pending := clint.CheckInterrupts(csr);
      if pending {
        TakeTrap(clint.interruptType);
      }
    }

    /** `ok` is false when the behaviour is undefined. */
    method NextInstruction() returns (ok: bool)
      requires Valid()
      modifies Repr()
      ensures Valid() && match Step(old(State()))
        case Some(m) => ok && State() == m
        case None => !ok
    {
      hide Interrupted, Machines.ExecuteInstruction, Machines.TakeTrap, Machines.Valid;
      CheckClint();
      var exceptionCode := ExecuteInstruction();
      if exceptionCode == None {
        return false;
      }
      if exceptionCode.value != STATUS_OK {
        TakeTrap(exceptionCode.value);
        var vectored := ExecuteInstruction();
        return vectored.Some?;
      }
      return true;
    }
  }
}
