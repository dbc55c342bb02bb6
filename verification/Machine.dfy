/**
 The RV32I machine as a step function on values: CSR bit fields, the CLINT's cycle, traps,
 `executeInstruction` and `nextInstruction`.
 */
module Machines {
  import opened Words
  import opened Alu
  import opened Immediates
  import opened Memory
  import LE = LittleEndian

  type Csrs = map<u32, u32>

  const MSTATUS: u32 := 0x300
  const MIE: u32 := 0x304
  const MTVEC: u32 := 0x305
  const MEPC: u32 := 0x341
  const MCAUSE: u32 := 0x342
  const MIP: u32 := 0x344

  const INSTRUCTION_ADDRESS_MISALIGNED: u32 := 0
  const ECALL_FROM_M_MODE: u32 := 0x0b
  const MACHINE_SOFTWARE_INTERRUPT: u32 := 0x8000_0003
  const MACHINE_TIMER_INTERRUPT: u32 := 0x8000_0007

  const MRET_IMM: u32 := 0x302
  const ECALL_IMM: u32 := 0

  /** Registers never written hold 0. */
  function Get(csr: Csrs, a: u32): u32 {
    if a in csr then csr[a] else 0
  }

  /** `registers[address]` creates the entry that it reads. */
  function Read(csr: Csrs, a: u32): Csrs {
    csr[a := Get(csr, a)]
  }

  function Set(csr: Csrs, a: u32, mask: u32): Csrs {
    csr[a := Or32(Get(csr, a), mask)]
  }

  function Clear(csr: Csrs, a: u32, mask: u32): Csrs {
    csr[a := And32(Get(csr, a), ALL_ONES - mask)]
  }

  const BIT3: u32 := 0x8
  const BIT7: u32 := 0x80
  const MPP: u32 := 0x1800

  /** Field bits: MIE and MPIE of mstatus; MSIE and MTIE of mie; MSIP and MTIP of mip. */
  function MstatusMie(csr: Csrs): nat { Bit(Get(csr, MSTATUS), 3) }

  function MstatusMpie(csr: Csrs): nat { Bit(Get(csr, MSTATUS), 7) }

  function Msie(csr: Csrs): nat { Bit(Get(csr, MIE), 3) }

  function Mtie(csr: Csrs): nat { Bit(Get(csr, MIE), 7) }

  function Mtip(csr: Csrs): nat { Bit(Get(csr, MIP), 7) }

  datatype Machine = Machine(regs: seq<u32>, csr: Csrs, pc: u32, nextPc: u32, devices: seq<Device>)

  /** ROM, RAM, video memory and CLINT, in the order they are added to the bus. */
  const CLINT := 3

  const CLINT_SIZE := 0x18

  predicate Valid(m: Machine) {
    && |m.regs| == 32 && m.regs[0] == 0
    && |m.devices| == 4 && m.devices[0].kind == Rom && m.devices[1].kind == Ram && m.devices[2].kind == Video
    && m.devices[CLINT].kind == Clint && |m.devices[CLINT].mem| == CLINT_SIZE
    && forall k | 0 <= k < 4 :: |m.devices[k].mem| < 0x1_0000_0000
  }

  // ----- CLINT -----

  function Count(mem: seq<u8>): nat
    requires |mem| == CLINT_SIZE
  {
    LE.Value(mem[0..8])
  }

  function Compare(mem: seq<u8>): nat
    requires |mem| == CLINT_SIZE
  {
    LE.Value(mem[8..16])
  }

  function SoftwarePending(mem: seq<u8>): bool
    requires |mem| == CLINT_SIZE
  {
    LE.Value(mem[20..24]) == 1
  }

  /** The counter, as 8 little-endian bytes, goes up by one modulo 2^64. */
  function Ticked(mem: seq<u8>): (r: seq<u8>)
    requires |mem| == CLINT_SIZE
    ensures |r| == CLINT_SIZE
  {
    LE.Bytes(Wrap64(Count(mem) + 1), 8) + mem[8..]
  }

  /** What `nextCycle` makes of the CSRs once the counter has been incremented. */
  function CycleCsrs(csr: Csrs, mem: seq<u8>): Csrs
    requires |mem| == CLINT_SIZE
  {
    var timed := if Count(mem) >= Compare(mem) then Set(csr, MIP, BIT7) else Clear(csr, MIP, BIT7);
    if SoftwarePending(mem) then Set(timed, MIP, BIT3) else timed
  }

  /** `nextCycle`. */
  function NextCycle(m: Machine): Machine
    requires Valid(m)
  {
    var mem := Ticked(m.devices[CLINT].mem);
    m.(csr := CycleCsrs(m.csr, mem), devices := m.devices[CLINT := m.devices[CLINT].(mem := mem)])
  }

  /** The cause that `checkInterrupts` finds. */
  function InterruptCause(csr: Csrs, mem: seq<u8>): Option<u32>
    requires |mem| == CLINT_SIZE
  {
    if MstatusMie(csr) == 0 then None
    else if SoftwarePending(mem) && Msie(csr) == 1 then Some(MACHINE_SOFTWARE_INTERRUPT)
    else if Mtip(csr) == 1 && Mtie(csr) == 1 then Some(MACHINE_TIMER_INTERRUPT)
    else None
  }

  function PendingInterrupt(m: Machine): Option<u32>
    requires Valid(m)
  {
    InterruptCause(m.csr, m.devices[CLINT].mem)
  }

  // ----- traps -----

  /** `takeTrap`'s changes to the CSRs. */
  function TrapCsrs(csr: Csrs, pc: u32, cause: u32): Csrs {
    var c1 := csr[MEPC := pc];
    var c2 := if cause == ECALL_FROM_M_MODE then c1[MEPC := Wrap32(Get(c1, MEPC) + 4)] else c1;
    var c3 := c2[MCAUSE := cause];
    var c4 := if MstatusMie(c3) == 1 then Set(c3, MSTATUS, BIT7) else c3;
    var c5 := Clear(c4, MSTATUS, BIT3);
    var c6 := Set(c5, MSTATUS, MPP);
    Clear(c6, MSTATUS, BIT3)
  }

  function VectorOffset(cause: u32): nat {
    if cause >= 0x8000_0000 then cause - 0x8000_0000 else 16 + cause
  }

  function TrapTarget(csr: Csrs, cause: u32): u32 {
    Wrap32(Get(csr, MTVEC) + 4 * VectorOffset(cause))
  }

  function TakeTrap(m: Machine, cause: u32): Machine {
    var csr := TrapCsrs(m.csr, m.pc, cause);
    var target := TrapTarget(csr, cause);
    m.(csr := csr, nextPc := target, pc := target)
  }

  // ----- instructions -----

  /** The machine after one call and the status code, or behaviour that C++ leaves undefined. */
  datatype Outcome = Done(machine: Machine, code: u32) | Undefined

  function WriteReg(m: Machine, rd: reg, value: u32): Machine
    requires |m.regs| == 32
  {
    m.(regs := m.regs[rd := if rd != 0 then value else 0])
  }

  /** `calculateNextPc`. */
  function NextPcOf(nextPc: u32, offset: u32, opcode: nat, funct3: nat, a: u32, b: u32, mepc: u32): u32 {
    if opcode == JAL then Wrap32(nextPc + offset)
    else if opcode == JALR then Wrap32(a + offset)
    else if opcode == BTYPE then Wrap32(nextPc + if BranchTaken(a, b, funct3) then offset else 4)
    else if opcode == PRIV && funct3 == 0 && offset == MRET_IMM then mepc
    else Wrap32(nextPc + 4)
  }

  /** The last part of `executeInstruction`: the pc follows nextPc when that is aligned. */
  function Advance(m: Machine, next: u32): Outcome {
    if next % 4 != 0 then Done(m.(nextPc := next), INSTRUCTION_ADDRESS_MISALIGNED)
    else Done(m.(nextPc := next, pc := next), STATUS_OK)
  }

  /** Writes the destination register and goes to the following instruction. */
  function Produce(m: Machine, rd: reg, value: Option<u32>): Outcome
    requires |m.regs| == 32
  {
    if value == None then Undefined else Advance(WriteReg(m, rd, value.value), Wrap32(m.nextPc + 4))
  }

  function ExecuteLoad(m: Machine, inst: u32): Outcome
    requires Valid(m)
  {
    var addr := Wrap32(m.regs[Rs1Of(inst)] + GetImmediate(inst));
    match BusRead(m.devices, addr, MemSize(Funct3Of(inst)))
    case Value(v) => Produce(m, RdOf(inst), Some(v))
    case Fault(code) => Done(m, code)
    case Wild => Undefined
  }

  function ExecuteStore(m: Machine, inst: u32): Outcome
    requires Valid(m)
  {
    var addr := Wrap32(m.regs[Rs1Of(inst)] + GetImmediate(inst));
    match BusWrite(m.devices, addr, m.regs[Rs2Of(inst)], MemSize(Funct3Of(inst)))
    case Written(devices) => Advance(m.(devices := devices), Wrap32(m.nextPc + 4))
    case WriteFault(code) => Done(m, code)
    case WildWrite => Undefined
  }

  /** CSRRW, CSRRS and CSRRC: rd is written before rs1 is read, and CSRRC negates logically. */
  function CsrOperation(m: Machine, inst: u32): Machine
    requires Valid(m)
  {
    var a, rs1 := CsrOf(inst), Rs1Of(inst);
    var value := Get(m.csr, a);
    var w := WriteReg(m, RdOf(inst), value).(csr := Read(m.csr, a));
    match Funct3Of(inst)
    case 1 => w.(csr := w.csr[a := w.regs[rs1]])
    case 2 => if rs1 == 0 then w else w.(csr := w.csr[a := Or32(w.regs[rs1], value)])
    case 3 => if rs1 == 0 then w else w.(csr := w.csr[a := And32(if w.regs[rs1] == 0 then 1 else 0, value)])
    case _ => m
  }

  /** The CSRs after MRET. */
  function ReturnCsrs(csr: Csrs): Csrs {
    var c1 := if MstatusMpie(csr) == 1 then Set(csr, MSTATUS, BIT3) else csr;
    Set(Set(c1, MSTATUS, BIT7), MSTATUS, MPP)
  }

  function ExecutePrivileged(m: Machine, inst: u32): Outcome
    requires Valid(m)
  {
    if Funct3Of(inst) == 0 && GetImmediate(inst) == ECALL_IMM then Done(m, ECALL_FROM_M_MODE)
    else
      var done := if Funct3Of(inst) != 0 then CsrOperation(m, inst)
                  else if GetImmediate(inst) == MRET_IMM then m.(csr := ReturnCsrs(m.csr))
                  else m;
      Advance(done, NextPcOf(m.nextPc, GetImmediate(inst), PRIV, Funct3Of(inst), 0, 0, Get(done.csr, MEPC)))
  }

  /** Decoding and execution of a fetched word. */
  function ExecuteWord(m: Machine, inst: u32): Outcome
    requires Valid(m)
  {
    var opcode, rd := OpcodeOf(inst), RdOf(inst);
    var a, b := m.regs[Rs1Of(inst)], m.regs[Rs2Of(inst)];
    var immediate := GetImmediate(inst);
    var op := AluOperation(opcode, Funct7Of(inst), Funct3Of(inst));
    if opcode == LUI then Produce(m, rd, Some(immediate))
    else if opcode == AUIPC then Produce(m, rd, Execute(m.pc, immediate, ADD))
    else if opcode == JAL then
      Advance(WriteReg(m, rd, Wrap32(m.pc + 4)), NextPcOf(m.nextPc, immediate, JAL, 0, 0, 0, 0))
    else if opcode == JALR then
      Advance(WriteReg(m, rd, Wrap32(m.pc + 4)), NextPcOf(m.nextPc, immediate, JALR, 0, a, 0, 0))
    else if opcode == BTYPE then
      Advance(m, NextPcOf(m.nextPc, immediate, BTYPE, Funct3Of(inst), a, b, 0))
    else if opcode == LOAD then ExecuteLoad(m, inst)
    else if opcode == STORE then ExecuteStore(m, inst)
    else if opcode == ITYPE then Produce(m, rd, Execute(a, immediate, op))
    else if opcode == RTYPE then Produce(m, rd, Execute(a, b, op))
    else if opcode == PRIV then ExecutePrivileged(m, inst)
    else Done(m, ILLEGAL_INSTRUCTION)
  }

  // ----- validity is kept -----

  lemma ValidShape(m: Machine)
    requires Valid(m)
    ensures |m.regs| == 32 && m.regs[0] == 0 && |m.devices| == 4
  {
  }

  lemma AdvanceValid(m: Machine, next: u32)
    requires Valid(m)
    ensures Advance(m, next).Done? && Valid(Advance(m, next).machine)
  {
  }

  lemma WriteRegValid(m: Machine, rd: reg, value: u32)
    requires Valid(m)
    ensures Valid(WriteReg(m, rd, value))
  {
  }

  lemma StoreValid(m: Machine, addr: u32, value: u32, size: nat)
    requires Valid(m) && BusWrite(m.devices, addr, value, size).Written?
    ensures Valid(m.(devices := BusWrite(m.devices, addr, value, size).devices))
  {
    hide BusWrite;
    WriteFrame(m.devices, addr, value, size);
  }

  lemma NextCycleValid(m: Machine)
    requires Valid(m)
    ensures Valid(NextCycle(m))
  {
  }

  lemma TakeTrapValid(m: Machine, cause: u32)
    requires Valid(m)
    ensures Valid(TakeTrap(m, cause))
  {
  }

  lemma CsrOperationValid(m: Machine, inst: u32)
    requires Valid(m)
    ensures Valid(CsrOperation(m, inst))
  {
    hide RdOf, Rs1Of, CsrOf, Funct3Of, Or32, And32;
  }

  lemma ProduceValid(m: Machine, rd: reg, value: Option<u32>)
    requires Valid(m) && value.Some?
    ensures Produce(m, rd, value).Done? && Valid(Produce(m, rd, value).machine)
  {
  }

  lemma ExecuteStoreValid(m: Machine, inst: u32)
    requires Valid(m) && ExecuteStore(m, inst).Done?
    ensures Valid(ExecuteStore(m, inst).machine)
  {
    hide GetImmediate, BusWrite, Advance, Valid, Rs1Of, Rs2Of, Funct3Of, Wrap32, MemSize;
    ValidShape(m);
    var addr, data := Wrap32(m.regs[Rs1Of(inst)] + GetImmediate(inst)), m.regs[Rs2Of(inst)];
    match BusWrite(m.devices, addr, data, MemSize(Funct3Of(inst)))
    case Written(devices) =>
      StoreValid(m, addr, data, MemSize(Funct3Of(inst)));
      AdvanceValid(m.(devices := devices), Wrap32(m.nextPc + 4));
    case _ =>
  }

  lemma ExecuteLoadValid(m: Machine, inst: u32)
    requires Valid(m) && ExecuteLoad(m, inst).Done?
    ensures Valid(ExecuteLoad(m, inst).machine)
  {
    hide GetImmediate, BusRead, Produce, Valid, Rs1Of, RdOf, Funct3Of, Wrap32, MemSize;
    ValidShape(m);
    var addr := Wrap32(m.regs[Rs1Of(inst)] + GetImmediate(inst));
    var read := BusRead(m.devices, addr, MemSize(Funct3Of(inst)));
    if read.Value? {
      ProduceValid(m, RdOf(inst), Some(read.value));
    }
  }

  lemma ExecutePrivilegedValid(m: Machine, inst: u32)
    requires Valid(m)
    ensures ExecutePrivileged(m, inst).Done? && Valid(ExecutePrivileged(m, inst).machine)
  {
    hide GetImmediate, CsrOperation, Advance, ReturnCsrs, NextPcOf, Funct3Of;
    CsrOperationValid(m, inst);
    assert Valid(m.(csr := ReturnCsrs(m.csr)));
    var done := if Funct3Of(inst) != 0 then CsrOperation(m, inst)
                else if GetImmediate(inst) == MRET_IMM then m.(csr := ReturnCsrs(m.csr))
                else m;
    AdvanceValid(done, NextPcOf(m.nextPc, GetImmediate(inst), PRIV, Funct3Of(inst), 0, 0, Get(done.csr, MEPC)));
  }

  lemma AdditionDefined(a: u32, b: u32)
    ensures Execute(a, b, ADD).Some?
  {
  }

  lemma ExecuteWordValid(m: Machine, inst: u32)
    requires Valid(m) && ExecuteWord(m, inst).Done?
    ensures Valid(ExecuteWord(m, inst).machine)
  {
    hide GetImmediate, OpcodeOf, RdOf, Rs1Of, Rs2Of, Funct3Of, Funct7Of, AluOperation, Execute, NextPcOf, Wrap32;
    hide Valid, WriteReg, Advance, ExecuteLoad, ExecuteStore, ExecutePrivileged;
    ValidShape(m);
    AdditionDefined(m.pc, GetImmediate(inst));
    var opcode, rd := OpcodeOf(inst), RdOf(inst);
    var a, b := m.regs[Rs1Of(inst)], m.regs[Rs2Of(inst)];
    var immediate := GetImmediate(inst);
    var op := AluOperation(opcode, Funct7Of(inst), Funct3Of(inst));
    if opcode == LUI {
      ProduceValid(m, rd, Some(immediate));
    } else if opcode == AUIPC {
      ProduceValid(m, rd, Execute(m.pc, immediate, ADD));
    } else if opcode == JAL || opcode == JALR {
      var linked := WriteReg(m, rd, Wrap32(m.pc + 4));
      WriteRegValid(m, rd, Wrap32(m.pc + 4));
      AdvanceValid(linked, NextPcOf(m.nextPc, immediate, opcode, 0, if opcode == JAL then 0 else a, 0, 0));
    } else if opcode == BTYPE {
      AdvanceValid(m, NextPcOf(m.nextPc, immediate, BTYPE, Funct3Of(inst), a, b, 0));
    } else if opcode == LOAD {
      ExecuteLoadValid(m, inst);
    } else if opcode == STORE {
      ExecuteStoreValid(m, inst);
    } else if opcode == ITYPE {
      if Execute(a, immediate, op).Some? {
        ProduceValid(m, rd, Execute(a, immediate, op));
      }
    } else if opcode == RTYPE {
      if Execute(a, b, op).Some? {
        ProduceValid(m, rd, Execute(a, b, op));
      }
    } else if opcode == PRIV {
      ExecutePrivilegedValid(m, inst);
    }
  }

  /** `executeInstruction`. A failed fetch reports the load codes. */
  function ExecuteInstruction(m: Machine): (o: Outcome)
    requires Valid(m)
    ensures o.Done? ==> Valid(o.machine)
  {
    match BusRead(m.devices, m.pc, 4)
    case Value(inst) =>
      var o := ExecuteWord(m, inst);
      if o.Done? then ExecuteWordValid(m, inst); o else Undefined
    case Fault(code) => Done(m, code)
    case Wild => Undefined
  }

  // ----- steps and runs -----

  /** After the CLINT's cycle and a trap, if an interrupt is taken. */
  function Interrupted(m: Machine): (r: Machine)
    requires Valid(m)
    ensures Valid(r)
  {
    var c := NextCycle(m);
    NextCycleValid(m);
    match PendingInterrupt(c)
    case None => c
    case Some(cause) => TakeTrapValid(c, cause); TakeTrap(c, cause)
  }

  /** After an exception the trap is taken and the vector instruction executed, whose code is dropped. */
  function Resolved(first: Outcome): (r: Option<Machine>)
    requires first.Done? ==> Valid(first.machine)
    ensures r.Some? ==> Valid(r.value)
  {
    if first == Undefined then None
    else if first.code == STATUS_OK then Some(first.machine)
    else
      var vector := TakeTrap(first.machine, first.code);
      TakeTrapValid(first.machine, first.code);
      match ExecuteInstruction(vector)
      case Undefined => None
      case Done(second, _) => Some(second)
  }

  /** `nextInstruction`; `None` when the behaviour is undefined. */
  function Step(m: Machine): (r: Option<Machine>)
    requires Valid(m)
    ensures r.Some? ==> Valid(r.value)
  {
    Resolved(ExecuteInstruction(Interrupted(m)))
  }

  function Run(m: Machine, n: nat): (r: Option<Machine>)
    requires Valid(m)
    ensures r.Some? ==> Valid(r.value)
    decreases n
  {
    if n == 0 then Some(m)
    else match Run(m, n - 1)
      case None => None
      case Some(before) => Step(before)
  }
}
