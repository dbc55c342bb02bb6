/**
 What one execution and one step keep: precise exceptions, the lockstep of the two program
 counters, and the read-only image, with their consequences for whole runs.
 */
module Precise {
  import opened Words
  import opened Alu
  import opened Immediates
  import opened Memory
  import opened Machines

  // ----- exception codes -----

  lemma BusReadCodes(devices: seq<Device>, addr: u32, size: nat)
    requires BusRead(devices, addr, size).Fault?
    ensures BusRead(devices, addr, size).code in {LOAD_ADDRESS_MISALIGNED, LOAD_ACCESS_FAULT}
  {
  }

  lemma BusWriteCodes(devices: seq<Device>, addr: u32, value: u32, size: nat)
    requires BusWrite(devices, addr, value, size).WriteFault?
    ensures BusWrite(devices, addr, value, size).code
      in {ILLEGAL_INSTRUCTION, STORE_ADDRESS_MISALIGNED, STORE_ACCESS_FAULT}
  {
  }

  /** Neither success nor the one code that is raised after state has changed. */
  predicate IsPrecise(code: u32) {
    code != STATUS_OK && code != INSTRUCTION_ADDRESS_MISALIGNED
  }

  lemma ProduceCode(m: Machine, rd: reg, value: Option<u32>)
    requires |m.regs| == 32 && Produce(m, rd, value).Done?
    ensures !IsPrecise(Produce(m, rd, value).code)
  {
  }

  lemma LoadPrecise(m: Machine, inst: u32)
    requires Valid(m) && ExecuteLoad(m, inst).Done? && IsPrecise(ExecuteLoad(m, inst).code)
    ensures ExecuteLoad(m, inst).machine == m
  {
    hide BusRead, GetImmediate, MemSize, Produce, Wrap32;
    var addr := Wrap32(m.regs[Rs1Of(inst)] + GetImmediate(inst));
    var read := BusRead(m.devices, addr, MemSize(Funct3Of(inst)));
    if read.Value? {
      ProduceCode(m, RdOf(inst), Some(read.value));
    }
  }

  lemma StorePrecise(m: Machine, inst: u32)
    requires Valid(m) && ExecuteStore(m, inst).Done? && IsPrecise(ExecuteStore(m, inst).code)
    ensures ExecuteStore(m, inst).machine == m
  {
    hide BusWrite, GetImmediate, MemSize, Wrap32;
  }

  lemma PrivilegedPrecise(m: Machine, inst: u32)
    requires Valid(m) && ExecutePrivileged(m, inst).Done? && IsPrecise(ExecutePrivileged(m, inst).code)
    ensures ExecutePrivileged(m, inst).machine == m
  {
  }

  lemma WordPrecise(m: Machine, inst: u32)
    requires Valid(m) && ExecuteWord(m, inst).Done? && IsPrecise(ExecuteWord(m, inst).code)
    ensures ExecuteWord(m, inst).machine == m
  {
    hide GetImmediate, OpcodeOf, RdOf, Rs1Of, Rs2Of, Funct3Of, Funct7Of, AluOperation, Execute, NextPcOf, Wrap32;
    hide WriteReg, Produce, ExecuteLoad, ExecuteStore, ExecutePrivileged, Valid;
    ValidShape(m);
    var opcode, rd := OpcodeOf(inst), RdOf(inst);
    var a, b := m.regs[Rs1Of(inst)], m.regs[Rs2Of(inst)];
    var immediate := GetImmediate(inst);
    var op := AluOperation(opcode, Funct7Of(inst), Funct3Of(inst));
    if opcode == LUI {
      ProduceCode(m, rd, Some(immediate));
    } else if opcode == AUIPC {
      ProduceCode(m, rd, Execute(m.pc, immediate, ADD));
    } else if opcode == LOAD {
      LoadPrecise(m, inst);
    } else if opcode == STORE {
      StorePrecise(m, inst);
    } else if opcode == ITYPE {
      ProduceCode(m, rd, Execute(a, immediate, op));
    } else if opcode == RTYPE {
      ProduceCode(m, rd, Execute(a, b, op));
    } else if opcode == PRIV {
      PrivilegedPrecise(m, inst);
    }
  }

  /** An exception other than a misaligned jump leaves the whole machine as it was. */
  lemma PreciseExceptions(m: Machine)
    requires Valid(m) && ExecuteInstruction(m).Done? && IsPrecise(ExecuteInstruction(m).code)
    ensures ExecuteInstruction(m).machine == m
  {
    hide BusRead, ExecuteWord;
    var fetched := BusRead(m.devices, m.pc, 4);
    if fetched.Value? {
      WordPrecise(m, fetched.value);
    }
  }

  /** An opcode that is none of these ten raises exception 2, and nothing else but a store raises it. */
  lemma IllegalInstructions(m: Machine, inst: u32)
    requires Valid(m)
    ensures inst % 0x80 !in {0x37, 0x17, 0x6f, 0x67, 0x63, 0x03, 0x23, 0x13, 0x33, 0x73} ==>
      ExecuteWord(m, inst) == Done(m, 2)
    ensures inst % 0x80 in {0x37, 0x17, 0x6f, 0x67, 0x63, 0x03, 0x13, 0x33, 0x73} && ExecuteWord(m, inst).Done? ==>
      ExecuteWord(m, inst).code != 2
  {
    hide GetImmediate, RdOf, Rs1Of, Rs2Of, Funct3Of, Funct7Of, AluOperation, Execute, NextPcOf, Wrap32, BusRead;
    hide CsrOperation, ReturnCsrs, ExecuteStore, MemSize, Valid;
    ValidShape(m);
    if OpcodeOf(inst) == LOAD {
      var addr := Wrap32(m.regs[Rs1Of(inst)] + GetImmediate(inst));
      if BusRead(m.devices, addr, MemSize(Funct3Of(inst))).Fault? {
        BusReadCodes(m.devices, addr, MemSize(Funct3Of(inst)));
      }
    }
  }

  // ----- misaligned jumps -----

  predicate IsMret(inst: u32) {
    OpcodeOf(inst) == PRIV && Funct3Of(inst) == 0 && GetImmediate(inst) == MRET_IMM
  }

  /** The words of MRET: 0x30200073, whatever the fields rd and rs1 are. */
  lemma MretWords(inst: u32)
    ensures IsMret(inst) <==> inst % 0x80 == 0x73 && inst / 0x1000 % 8 == 0 && inst / 0x10_0000 == 0x302
    ensures IsMret(0x3020_0073)
  {
    hide GetImmediate;
    ImmediateIsSliced(inst);
    ImmediateIsSliced(0x3020_0073);
    ITypeTop(inst);
  }

  /** JAL, JALR, a taken branch, or MRET. */
  predicate IsJump(m: Machine, inst: u32)
    requires Valid(m)
  {
    || OpcodeOf(inst) == 0x6f || OpcodeOf(inst) == 0x67 || IsMret(inst)
    || (OpcodeOf(inst) == 0x63 && BranchTaken(m.regs[Rs1Of(inst)], m.regs[Rs2Of(inst)], Funct3Of(inst)))
  }

  lemma FourMore(x: u32)
    requires x % 4 == 0
    ensures Wrap32(x + 4) % 4 == 0
  {
  }

  lemma ProduceFallsThrough(m: Machine, rd: reg, value: Option<u32>)
    requires |m.regs| == 32 && m.nextPc % 4 == 0 && Produce(m, rd, value).Done?
    ensures Produce(m, rd, value).code == STATUS_OK
  {
  }

  lemma LoadFallsThrough(m: Machine, inst: u32)
    requires Valid(m) && m.nextPc % 4 == 0 && ExecuteLoad(m, inst).Done?
    ensures ExecuteLoad(m, inst).code != INSTRUCTION_ADDRESS_MISALIGNED
  {
    hide BusRead, GetImmediate, MemSize, Produce, Wrap32;
    var addr := Wrap32(m.regs[Rs1Of(inst)] + GetImmediate(inst));
    var read := BusRead(m.devices, addr, MemSize(Funct3Of(inst)));
    if read.Value? {
      ProduceFallsThrough(m, RdOf(inst), Some(read.value));
    } else if read.Fault? {
      BusReadCodes(m.devices, addr, MemSize(Funct3Of(inst)));
    }
  }

  lemma StoreFallsThrough(m: Machine, inst: u32)
    requires Valid(m) && m.nextPc % 4 == 0 && ExecuteStore(m, inst).Done?
    ensures ExecuteStore(m, inst).code != INSTRUCTION_ADDRESS_MISALIGNED
  {
    hide BusWrite, GetImmediate, MemSize, Wrap32;
    var addr := Wrap32(m.regs[Rs1Of(inst)] + GetImmediate(inst));
    var stored := BusWrite(m.devices, addr, m.regs[Rs2Of(inst)], MemSize(Funct3Of(inst)));
    FourMore(m.nextPc);
    if stored.WriteFault? {
      BusWriteCodes(m.devices, addr, m.regs[Rs2Of(inst)], MemSize(Funct3Of(inst)));
    }
  }

  lemma PrivilegedFallsThrough(m: Machine, inst: u32)
    requires Valid(m) && m.nextPc % 4 == 0 && OpcodeOf(inst) == PRIV && !IsMret(inst)
    ensures ExecutePrivileged(m, inst).Done?
    ensures ExecutePrivileged(m, inst).code != INSTRUCTION_ADDRESS_MISALIGNED
  {
    hide CsrOperation, GetImmediate, OpcodeOf, Wrap32;
    FourMore(m.nextPc);
  }

  /** With aligned counters the misaligned code comes only from a jump, and memory and pc are unchanged. */
  lemma MisalignedOnlyFromJumps(m: Machine, inst: u32)
    requires Valid(m) && m.nextPc % 4 == 0
    requires ExecuteWord(m, inst).Done? && ExecuteWord(m, inst).code == INSTRUCTION_ADDRESS_MISALIGNED
    ensures IsJump(m, inst)
    ensures ExecuteWord(m, inst).machine.pc == m.pc && ExecuteWord(m, inst).machine.devices == m.devices
  {
    hide GetImmediate, OpcodeOf, RdOf, Rs1Of, Rs2Of, Funct3Of, Funct7Of, AluOperation, Execute, Wrap32;
    hide Produce, ExecuteLoad, ExecuteStore, ExecutePrivileged, Valid, BranchTaken, IsMret;
    ValidShape(m);
    var opcode, rd := OpcodeOf(inst), RdOf(inst);
    var a, b := m.regs[Rs1Of(inst)], m.regs[Rs2Of(inst)];
    var immediate := GetImmediate(inst);
    var op := AluOperation(opcode, Funct7Of(inst), Funct3Of(inst));
    if opcode == LUI {
      ProduceFallsThrough(m, rd, Some(immediate));
    } else if opcode == AUIPC {
      ProduceFallsThrough(m, rd, Execute(m.pc, immediate, ADD));
    } else if opcode == BTYPE {
      FourMore(m.nextPc);
    } else if opcode == LOAD {
      LoadFallsThrough(m, inst);
    } else if opcode == STORE {
      StoreFallsThrough(m, inst);
    } else if opcode == ITYPE {
      ProduceFallsThrough(m, rd, Execute(a, immediate, op));
    } else if opcode == RTYPE {
      ProduceFallsThrough(m, rd, Execute(a, b, op));
    } else if opcode == PRIV {
      MretMisaligned(m, inst);
    }
  }

  lemma MretMisaligned(m: Machine, inst: u32)
    requires Valid(m) && m.nextPc % 4 == 0 && OpcodeOf(inst) == PRIV
    requires ExecutePrivileged(m, inst).Done? && ExecutePrivileged(m, inst).code == INSTRUCTION_ADDRESS_MISALIGNED
    ensures IsMret(inst)
    ensures ExecutePrivileged(m, inst).machine.pc == m.pc && ExecutePrivileged(m, inst).machine.devices == m.devices
  {
    hide CsrOperation, GetImmediate, ReturnCsrs;
    if !IsMret(inst) {
      PrivilegedFallsThrough(m, inst);
    }
  }

  // ----- alignment and lockstep -----

  lemma AdvanceAligned(m: Machine, next: u32)
    requires m.pc % 4 == 0
    ensures Advance(m, next).Done? && Advance(m, next).machine.pc % 4 == 0
    ensures Advance(m, next).code == STATUS_OK ==> Advance(m, next).machine.pc == Advance(m, next).machine.nextPc
    ensures Advance(m, next).code != STATUS_OK ==>
      && Advance(m, next).code == INSTRUCTION_ADDRESS_MISALIGNED
      && Advance(m, next).machine.pc == m.pc && Advance(m, next).machine.nextPc % 4 != 0
  {
  }

  /** What every outcome says about the counters. */
  predicate Counters(m: Machine, o: Outcome) {
    o.Done? ==>
      && o.machine.pc % 4 == 0
      && (o.code == STATUS_OK ==> o.machine.pc == o.machine.nextPc)
      && (o.code == INSTRUCTION_ADDRESS_MISALIGNED ==> o.machine.pc == m.pc && o.machine.nextPc % 4 != 0)
      && (IsPrecise(o.code) ==> o.machine == m)
  }

  lemma ProduceCounters(m: Machine, rd: reg, value: Option<u32>)
    requires |m.regs| == 32 && m.pc % 4 == 0
    ensures Counters(m, Produce(m, rd, value))
  {
  }

  lemma LoadCounters(m: Machine, inst: u32)
    requires Valid(m) && m.pc % 4 == 0
    ensures Counters(m, ExecuteLoad(m, inst))
  {
    hide BusRead, GetImmediate, MemSize, Produce, Wrap32;
    var addr := Wrap32(m.regs[Rs1Of(inst)] + GetImmediate(inst));
    var read := BusRead(m.devices, addr, MemSize(Funct3Of(inst)));
    if read.Value? {
      ProduceCounters(m, RdOf(inst), Some(read.value));
    } else if read.Fault? {
      BusReadCodes(m.devices, addr, MemSize(Funct3Of(inst)));
    }
  }

  lemma StoreCounters(m: Machine, inst: u32)
    requires Valid(m) && m.pc % 4 == 0
    ensures Counters(m, ExecuteStore(m, inst))
  {
    hide BusWrite, GetImmediate, MemSize, Wrap32, Advance;
    var addr := Wrap32(m.regs[Rs1Of(inst)] + GetImmediate(inst));
    var stored := BusWrite(m.devices, addr, m.regs[Rs2Of(inst)], MemSize(Funct3Of(inst)));
    if stored.Written? {
      AdvanceAligned(m.(devices := stored.devices), Wrap32(m.nextPc + 4));
    } else if stored.WriteFault? {
      BusWriteCodes(m.devices, addr, m.regs[Rs2Of(inst)], MemSize(Funct3Of(inst)));
    }
  }

  lemma CsrOperationKeepsCounters(m: Machine, inst: u32)
    requires Valid(m)
    ensures CsrOperation(m, inst).pc == m.pc && CsrOperation(m, inst).devices == m.devices
  {
  }

  lemma PrivilegedCounters(m: Machine, inst: u32)
    requires Valid(m) && m.pc % 4 == 0
    ensures Counters(m, ExecutePrivileged(m, inst))
  {
    hide CsrOperation, GetImmediate, ReturnCsrs, NextPcOf, Advance;
    CsrOperationKeepsCounters(m, inst);
    var done := if Funct3Of(inst) != 0 then CsrOperation(m, inst)
                else if GetImmediate(inst) == MRET_IMM then m.(csr := ReturnCsrs(m.csr))
                else m;
    AdvanceAligned(done, NextPcOf(m.nextPc, GetImmediate(inst), PRIV, Funct3Of(inst), 0, 0, Get(done.csr, MEPC)));
  }

  lemma WordCounters(m: Machine, inst: u32)
    requires Valid(m) && m.pc % 4 == 0
    ensures Counters(m, ExecuteWord(m, inst))
  {
    hide GetImmediate, OpcodeOf, RdOf, Rs1Of, Rs2Of, Funct3Of, Funct7Of, AluOperation, Execute, NextPcOf, Wrap32;
    hide Produce, ExecuteLoad, ExecuteStore, ExecutePrivileged, Valid, Advance;
    ValidShape(m);
    var opcode, rd := OpcodeOf(inst), RdOf(inst);
    var a, b := m.regs[Rs1Of(inst)], m.regs[Rs2Of(inst)];
    var immediate := GetImmediate(inst);
    var op := AluOperation(opcode, Funct7Of(inst), Funct3Of(inst));
    var linked := WriteReg(m, rd, Wrap32(m.pc + 4));
    if opcode == LUI {
      ProduceCounters(m, rd, Some(immediate));
    } else if opcode == AUIPC {
      ProduceCounters(m, rd, Execute(m.pc, immediate, ADD));
    } else if opcode == JAL {
      AdvanceAligned(linked, NextPcOf(m.nextPc, immediate, JAL, 0, 0, 0, 0));
    } else if opcode == JALR {
      AdvanceAligned(linked, NextPcOf(m.nextPc, immediate, JALR, 0, a, 0, 0));
    } else if opcode == BTYPE {
      AdvanceAligned(m, NextPcOf(m.nextPc, immediate, BTYPE, Funct3Of(inst), a, b, 0));
    } else if opcode == LOAD {
      LoadCounters(m, inst);
    } else if opcode == STORE {
      StoreCounters(m, inst);
    } else if opcode == ITYPE {
      ProduceCounters(m, rd, Execute(a, immediate, op));
    } else if opcode == RTYPE {
      ProduceCounters(m, rd, Execute(a, b, op));
    } else if opcode == PRIV {
      PrivilegedCounters(m, inst);
    }
  }

  lemma ExecuteCounters(m: Machine)
    requires Valid(m) && m.pc % 4 == 0
    ensures Counters(m, ExecuteInstruction(m))
  {
    hide BusRead, ExecuteWord, Valid;
    var fetched := BusRead(m.devices, m.pc, 4);
    if fetched.Value? {
      WordCounters(m, fetched.value);
    } else if fetched.Fault? {
      BusReadCodes(m.devices, m.pc, 4);
    }
  }

  /** The first execution of a step. */
  function First(m: Machine): (o: Outcome)
    requires Valid(m)
    ensures o.Done? ==> Valid(o.machine)
  {
    ExecuteInstruction(Interrupted(m))
  }

  /** The machine at the vector, when the first execution raised an exception. */
  function Vector(m: Machine): (r: Machine)
    requires Valid(m) && First(m).Done?
    ensures Valid(r)
  {
    TakeTrapValid(First(m).machine, First(m).code);
    TakeTrap(First(m).machine, First(m).code)
  }

  /** Every trap base that the step may use is aligned. */
  predicate AlignedVectors(m: Machine)
    requires Valid(m)
  {
    Get(m.csr, MTVEC) % 4 == 0 && (First(m).Done? ==> Get(First(m).machine.csr, MTVEC) % 4 == 0)
  }

  /** The instruction re-executed at the vector itself jumps to a misaligned address. */
  predicate VectorMisaligned(m: Machine)
    requires Valid(m)
  {
    && First(m).Done? && First(m).code != STATUS_OK
    && ExecuteInstruction(Vector(m)).Done?
    && ExecuteInstruction(Vector(m)).code == INSTRUCTION_ADDRESS_MISALIGNED
  }

  lemma TrapKeepsVector(csr: Csrs, pc: u32, cause: u32)
    ensures Get(TrapCsrs(csr, pc, cause), MTVEC) == Get(csr, MTVEC)
  {
  }

  lemma TrapAligned(m: Machine, cause: u32)
    requires Get(m.csr, MTVEC) % 4 == 0
    ensures TakeTrap(m, cause).pc % 4 == 0 && TakeTrap(m, cause).nextPc == TakeTrap(m, cause).pc
  {
    hide TrapCsrs, VectorOffset;
    TrapKeepsVector(m.csr, m.pc, cause);
    MultipleOfFour(Get(m.csr, MTVEC), VectorOffset(cause));
  }

  lemma MultipleOfFour(x: u32, k: nat)
    requires x % 4 == 0
    ensures Wrap32(x + 4 * k) % 4 == 0
  {
  }

  lemma InterruptedAligned(m: Machine)
    requires Valid(m) && m.pc % 4 == 0 && Get(m.csr, MTVEC) % 4 == 0
    ensures Interrupted(m).pc % 4 == 0
    ensures m.pc == m.nextPc ==> Interrupted(m).pc == Interrupted(m).nextPc
  {
    hide TakeTrap, PendingInterrupt, Valid;
    NextCycleValid(m);
    var c := NextCycle(m);
    CycleKeeps(m);
    if PendingInterrupt(c).Some? {
      TrapAligned(c, PendingInterrupt(c).value);
    }
  }

  /** The CLINT's cycle changes nothing but mip and the CLINT. */
  lemma CycleKeeps(m: Machine)
    requires Valid(m)
    ensures var c := NextCycle(m);
      && c.regs == m.regs && c.pc == m.pc && c.nextPc == m.nextPc
      && (forall a: u32 :: a != MIP ==> Get(c.csr, a) == Get(m.csr, a))
      && c.devices == m.devices[CLINT := m.devices[CLINT].(mem := Ticked(m.devices[CLINT].mem))]
  {
    hide Or32, And32, Ticked;
  }

  /** A step keeps the pc aligned; it keeps the two counters equal exactly unless the vector instruction misjumps. */
  lemma StepLockstep(m: Machine)
    requires Valid(m) && m.pc % 4 == 0 && AlignedVectors(m) && Step(m).Some?
    ensures Step(m).value.pc % 4 == 0
    ensures Step(m).value.pc == Step(m).value.nextPc <==> !VectorMisaligned(m)
  {
    hide ExecuteInstruction, Interrupted, TakeTrap, Valid;
    InterruptedAligned(m);
    ExecuteCounters(Interrupted(m));
    if First(m).code != STATUS_OK {
      TrapAligned(First(m).machine, First(m).code);
      ExecuteCounters(Vector(m));
    }
  }

  /** Earlier states of a defined run are defined. */
  lemma {:induction false} RunPrefix(m: Machine, k: nat, n: nat)
    requires Valid(m) && k <= n && Run(m, n).Some?
    ensures Run(m, k).Some?
    decreases n
  {
    hide Step, Valid;
    if k < n {
      RunPrefix(m, k, n - 1);
    }
  }

  /** A run begins with its first step. */
  lemma {:induction false} RunFirst(m: Machine, n: nat)
    requires Valid(m) && Step(m).Some?
    ensures Run(m, n + 1) == Run(Step(m).value, n)
    decreases n
  {
    hide Step, Valid;
    if n > 0 {
      RunFirst(m, n - 1);
    } else {
      assert Run(m, 0) == Some(m);
    }
  }

  /** On every run with an aligned start and aligned trap bases the pc is aligned at every boundary. */
  lemma {:induction false} RunAligned(m: Machine, n: nat)
    requires Valid(m) && m.pc % 4 == 0 && Run(m, n).Some?
    requires forall k | 0 <= k < n :: Run(m, k).Some? ==> AlignedVectors(Run(m, k).value)
    ensures Run(m, n).value.pc % 4 == 0
  {
    hide Step, Valid, AlignedVectors;
    if n > 0 {
      RunPrefix(m, n - 1, n);
      RunAligned(m, n - 1);
      StepLockstep(Run(m, n - 1).value);
    }
  }

  /** The counters agree after a step of a run exactly when its vector instruction did not misjump. */
  lemma RunLockstep(m: Machine, n: nat)
    requires Valid(m) && m.pc % 4 == 0 && n > 0 && Run(m, n).Some?
    requires forall k | 0 <= k < n :: Run(m, k).Some? ==> AlignedVectors(Run(m, k).value)
    ensures Run(m, n - 1).Some?
    ensures Run(m, n).value.pc == Run(m, n).value.nextPc <==> !VectorMisaligned(Run(m, n - 1).value)
  {
    hide Step, Valid, AlignedVectors, VectorMisaligned;
    RunPrefix(m, n - 1, n);
    RunAligned(m, n - 1);
    StepLockstep(Run(m, n - 1).value);
  }

  // ----- the read-only image -----

  lemma WordKeepsRom(m: Machine, inst: u32)
    requires Valid(m) && ExecuteWord(m, inst).Done?
    ensures SameShape(m.devices, ExecuteWord(m, inst).machine.devices)
    ensures ExecuteWord(m, inst).machine.devices[0] == m.devices[0]
  {
    hide GetImmediate, OpcodeOf, RdOf, Rs1Of, Rs2Of, Funct3Of, Funct7Of, AluOperation, Execute, NextPcOf, Wrap32;
    hide ExecuteStore, CsrOperation, ReturnCsrs, BusRead;
    CsrOperationKeepsCounters(m, inst);
    if OpcodeOf(inst) == STORE {
      StoreKeepsRom(m, inst);
    }
  }

  lemma StoreKeepsRom(m: Machine, inst: u32)
    requires Valid(m) && ExecuteStore(m, inst).Done?
    ensures SameShape(m.devices, ExecuteStore(m, inst).machine.devices)
    ensures ExecuteStore(m, inst).machine.devices[0] == m.devices[0]
  {
    hide GetImmediate, BusWrite, Wrap32;
    var addr := Wrap32(m.regs[Rs1Of(inst)] + GetImmediate(inst));
    if BusWrite(m.devices, addr, m.regs[Rs2Of(inst)], MemSize(Funct3Of(inst))).Written? {
      WriteFrame(m.devices, addr, m.regs[Rs2Of(inst)], MemSize(Funct3Of(inst)));
    }
  }

  lemma ExecuteKeepsRom(m: Machine)
    requires Valid(m) && ExecuteInstruction(m).Done?
    ensures ExecuteInstruction(m).machine.devices[0] == m.devices[0]
  {
    hide BusRead, ExecuteWord;
    var fetched := BusRead(m.devices, m.pc, 4);
    if fetched.Value? {
      WordKeepsRom(m, fetched.value);
    }
  }

  lemma StepKeepsRom(m: Machine)
    requires Valid(m) && Step(m).Some?
    ensures Step(m).value.devices[0] == m.devices[0]
  {
    hide ExecuteInstruction, TrapCsrs, PendingInterrupt;
    CycleKeeps(m);
    assert Interrupted(m).devices[0] == m.devices[0];
    ExecuteKeepsRom(Interrupted(m));
    if First(m).code != STATUS_OK {
      ExecuteKeepsRom(Vector(m));
    }
  }

  /** In every reachable state the ROM holds its initial image. */
  lemma {:induction false} RunKeepsRom(m: Machine, n: nat)
    requires Valid(m) && Run(m, n).Some?
    ensures Run(m, n).value.devices[0] == m.devices[0]
  {
    hide Step;
    if n > 0 {
      RunPrefix(m, n - 1, n);
      RunKeepsRom(m, n - 1);
      StepKeepsRom(Run(m, n - 1).value);
    }
  }
}
