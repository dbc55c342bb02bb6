/**
 Traps and interrupts over whole runs: what a trap saves, what MRET restores, that handlers
 are not interrupted, and when the timer fires.
 */
module Traps {
  import opened Words
  import opened Alu
  import opened Immediates
  import opened Memory
  import opened Machines
  import opened Precise
  import opened StatusBits
  import F = FlatMemory
  import LE = LittleEndian

  // ----- trap and return -----

  /** Every bit of mstatus after a trap: MIE is clear, MPIE remembers it, MPP is machine mode, the rest is unchanged. */
  lemma TrapStatus(csr: Csrs, pc: u32, cause: u32, i: nat)
    requires i < 32
    ensures Bit(Get(TrapCsrs(csr, pc, cause), 0x300), i)
      == if i == 3 then 0
         else if i == 7 && Bit(Get(csr, 0x300), 3) == 1 then 1
         else if i == 11 || i == 12 then 1
         else Bit(Get(csr, 0x300), i)
  {
    hide Or32, And32, Bit, Wrap32;
    MaskBits(i);
    var c1 := csr[MEPC := pc];
    var c2 := if cause == ECALL_FROM_M_MODE then c1[MEPC := Wrap32(Get(c1, MEPC) + 4)] else c1;
    var c3 := c2[MCAUSE := cause];
    var c4 := if MstatusMie(c3) == 1 then Set(c3, MSTATUS, BIT7) else c3;
    var c5 := Clear(c4, MSTATUS, BIT3);
    SetBitsOf(c3, MSTATUS, BIT7, i);
    SetBitsOf(c4, MSTATUS, BIT3, i);
    SetBitsOf(c5, MSTATUS, MPP, i);
    SetBitsOf(Set(c5, MSTATUS, MPP), MSTATUS, BIT3, i);
  }

  /** A trap clears MIE, remembers it in MPIE, and saves the pc, past the instruction for ECALL. */
  lemma TrapSaves(csr: Csrs, pc: u32, cause: u32)
    ensures var t := TrapCsrs(csr, pc, cause);
      && MstatusMie(t) == 0
      && MstatusMpie(t) == (if MstatusMie(csr) == 1 || MstatusMpie(csr) == 1 then 1 else 0)
      && Get(t, 0x341) == (if cause == 11 then Wrap32(pc + 4) else pc)
      && Get(t, 0x342) == cause
      && forall a: u32 :: a !in {0x300, 0x341, 0x342} ==> Get(t, a) == Get(csr, a)
  {
    hide Or32, And32, Bit, Wrap32;
    TrapStatus(csr, pc, cause, 3);
    TrapStatus(csr, pc, cause, 7);
  }

  /** The vector of interrupt k is the k-th word from mtvec on. */
  lemma InterruptVector(m: Machine, k: nat)
    requires k < 0x8000_0000
    ensures TakeTrap(m, 0x8000_0000 + k).pc == Wrap32(Get(m.csr, 0x305) + 4 * k)
    ensures TakeTrap(m, 0x8000_0000 + k).nextPc == Wrap32(Get(m.csr, 0x305) + 4 * k)
  {
    hide TrapCsrs, Wrap32, Get;
    TrapKeepsVector(m.csr, m.pc, 0x8000_0000 + k);
  }

  /** The vectors of exceptions follow sixteen words later. */
  lemma ExceptionVector(m: Machine, c: nat)
    requires c < 0x8000_0000
    ensures TakeTrap(m, c).pc == Wrap32(Get(m.csr, 0x305) + 64 + 4 * c)
    ensures TakeTrap(m, c).nextPc == Wrap32(Get(m.csr, 0x305) + 64 + 4 * c)
  {
    hide TrapCsrs, Wrap32, Get;
    TrapKeepsVector(m.csr, m.pc, c);
  }

  /** A cause that the vector table has an entry for. */
  predicate IsCause(cause: u32) {
    cause < 16 || 0x8000_0000 <= cause < 0x8000_0010
  }

  /** Different causes are handled at different vectors, all within 32 words from mtvec on. */
  lemma VectorsDistinct(m: Machine, a: u32, b: u32)
    requires IsCause(a) && IsCause(b)
    ensures TakeTrap(m, a).pc == TakeTrap(m, b).pc <==> a == b
    ensures exists k: nat :: k < 32 && TakeTrap(m, a).pc == Wrap32(Get(m.csr, MTVEC) + 4 * k)
  {
    hide TrapCsrs, Wrap32, Get;
    TrapKeepsVector(m.csr, m.pc, a);
    TrapKeepsVector(m.csr, m.pc, b);
    var base := Get(m.csr, MTVEC);
    var j, k := VectorOffset(a), VectorOffset(b);
    assert TakeTrap(m, a).pc == Wrap32(base + 4 * j);
    WrapInjective(base + 4 * j, base + 4 * k);
  }

  lemma WrapInjective(x: nat, y: nat)
    requires -0x1_0000_0000 < x - y < 0x1_0000_0000
    ensures Wrap32(x) == Wrap32(y) <==> x == y
  {
  }

  /** Every bit of mstatus after MRET. */
  lemma ReturnStatus(csr: Csrs, i: nat)
    requires i < 32
    ensures Bit(Get(ReturnCsrs(csr), 0x300), i)
      == if i == 3 && Bit(Get(csr, 0x300), 7) == 1 then 1
         else if i == 7 || i == 11 || i == 12 then 1
         else Bit(Get(csr, 0x300), i)
  {
    hide Or32, And32, Bit;
    MaskBits(i);
    var c1 := if MstatusMpie(csr) == 1 then Set(csr, MSTATUS, BIT3) else csr;
    SetBitsOf(csr, MSTATUS, BIT3, i);
    SetBitsOf(c1, MSTATUS, BIT7, i);
    SetBitsOf(Set(c1, MSTATUS, BIT7), MSTATUS, MPP, i);
  }

  /** MRET sets MIE when MPIE is set, and never clears it; MPIE becomes 1. */
  lemma ReturnRestores(csr: Csrs)
    ensures var r := ReturnCsrs(csr);
      && MstatusMie(r) == (if MstatusMie(csr) == 1 || MstatusMpie(csr) == 1 then 1 else 0)
      && MstatusMpie(r) == 1
      && forall a: u32 :: a != 0x300 ==> Get(r, a) == Get(csr, a)
  {
    hide Or32, And32, Bit;
    ReturnStatus(csr, 3);
    ReturnStatus(csr, 7);
  }

  /** The effect of executing MRET. */
  lemma MretEffect(h: Machine, inst: u32)
    requires Valid(h) && IsMret(inst) && Get(h.csr, MEPC) % 4 == 0
    ensures ExecuteWord(h, inst)
      == Done(h.(csr := ReturnCsrs(h.csr), pc := Get(h.csr, MEPC), nextPc := Get(h.csr, MEPC)), STATUS_OK)
  {
    hide GetImmediate, OpcodeOf, RdOf, Rs1Of, Rs2Of, Funct3Of, Funct7Of, AluOperation, Execute, Wrap32;
    hide ReturnCsrs, Get, Valid;
    ReturnRestores(h.csr);
  }

  /**
   Trap and return: whatever the handler has done, if it has kept mepc and mstatus, executing
   MRET resumes at the trapped pc (after it for ECALL) and gives MIE its old value exactly when
   MIE was set or MPIE was clear.
   */
  lemma TrapReturn(m: Machine, cause: u32, h: Machine, inst: u32)
    requires Valid(m) && Valid(h) && m.pc % 4 == 0 && IsMret(inst)
    requires Get(h.csr, MEPC) == Get(TakeTrap(m, cause).csr, MEPC)
    requires Get(h.csr, MSTATUS) == Get(TakeTrap(m, cause).csr, MSTATUS)
    ensures ExecuteWord(h, inst).Done? && ExecuteWord(h, inst).code == STATUS_OK
    ensures var r := ExecuteWord(h, inst).machine;
      && r.pc == (if cause == 11 then Wrap32(m.pc + 4) else m.pc) && r.nextPc == r.pc
      && r.regs == h.regs && r.devices == h.devices
      && MstatusMpie(r.csr) == 1
      && (MstatusMie(r.csr) == MstatusMie(m.csr) <==> MstatusMie(m.csr) == 1 || MstatusMpie(m.csr) == 0)
  {
    hide ExecuteWord, Wrap32, TrapCsrs, ReturnCsrs, IsMret, Valid, Bit;
    TrapSaves(m.csr, m.pc, cause);
    FourMore(m.pc);
    MretEffect(h, inst);
    ReturnRestores(h.csr);
  }

  /** An interrupt is taken only with MIE set, so its return always sets MIE again. */
  lemma InterruptReturn(m: Machine, h: Machine, inst: u32)
    requires Valid(m) && Valid(h) && m.pc % 4 == 0 && IsMret(inst) && PendingInterrupt(m).Some?
    requires Get(h.csr, MEPC) == Get(TakeTrap(m, PendingInterrupt(m).value).csr, MEPC)
    requires Get(h.csr, MSTATUS) == Get(TakeTrap(m, PendingInterrupt(m).value).csr, MSTATUS)
    ensures ExecuteWord(h, inst).Done?
    ensures ExecuteWord(h, inst).machine.pc == m.pc && MstatusMie(ExecuteWord(h, inst).machine.csr) == 1
  {
    hide ExecuteWord, TakeTrap, IsMret, Valid, Bit, Get;
    assert MstatusMie(m.csr) != 0;
    assert MstatusMie(m.csr) == 1;
    TrapReturn(m, PendingInterrupt(m).value, h, inst);
  }

  // ----- steps that return -----

  /** The next instruction of the step that starts here, after the CLINT's cycle, is MRET. */
  predicate ReturnsNext(h: Machine)
    requires Valid(h)
  {
    var fetched := BusRead(NextCycle(h).devices, h.pc, 4);
    fetched.Value? && IsMret(fetched.value)
  }

  lemma NoInterruptWhenMasked(h: Machine)
    requires Valid(h) && MstatusMie(h.csr) == 0
    ensures PendingInterrupt(NextCycle(h)) == None && Interrupted(h) == NextCycle(h)
  {
    hide Bit, Or32, And32, Valid;
    NextCycleValid(h);
    CycleKeeps(h);
  }

  /** A whole step that executes MRET in a handler which has kept mepc and mstatus. */
  lemma StepReturns(m: Machine, cause: u32, h: Machine)
    requires Valid(m) && Valid(h) && m.pc % 4 == 0 && ReturnsNext(h)
    requires Get(h.csr, MEPC) == Get(TakeTrap(m, cause).csr, MEPC)
    requires Get(h.csr, MSTATUS) == Get(TakeTrap(m, cause).csr, MSTATUS)
    ensures Step(h).Some?
    ensures var r := Step(h).value;
      && r.pc == (if cause == 11 then Wrap32(m.pc + 4) else m.pc) && r.nextPc == r.pc
      && r.regs == h.regs
      && (MstatusMie(r.csr) == MstatusMie(m.csr) <==> MstatusMie(m.csr) == 1 || MstatusMpie(m.csr) == 0)
  {
    hide ExecuteWord, TrapCsrs, IsMret, Valid, Bit, BusRead, Wrap32, Get, NextCycle;
    TrapSaves(m.csr, m.pc, cause);
    SameMie(h.csr, TakeTrap(m, cause).csr);
    NoInterruptWhenMasked(h);
    NextCycleValid(h);
    CycleKeeps(h);
    TrapReturn(m, cause, NextCycle(h), BusRead(NextCycle(h).devices, h.pc, 4).value);
  }

  lemma SameMie(a: Csrs, b: Csrs)
    requires Get(a, MSTATUS) == Get(b, MSTATUS)
    ensures MstatusMie(a) == MstatusMie(b)
  {
  }

  /** The step that starts here takes an interrupt. */
  predicate InterruptTaken(m: Machine)
    requires Valid(m)
  {
    NextCycleValid(m);
    PendingInterrupt(NextCycle(m)).Some?
  }

  /** After n steps the handler is about to return, with mepc and mstatus as the trap set them. */
  predicate HandlerReturns(m: Machine, n: nat)
    requires Valid(m)
  {
    hide Step, Valid, ReturnsNext, Get;
    && Run(m, n).Some? && ReturnsNext(Run(m, n).value)
    && Get(Run(m, n).value.csr, MEPC) == Get(Interrupted(m).csr, MEPC)
    && Get(Run(m, n).value.csr, MSTATUS) == Get(Interrupted(m).csr, MSTATUS)
  }

  /**
   An interrupt over a whole run: taken in the first step, handled for any number of steps that
   leave mepc and mstatus as the trap set them, and left by MRET, it resumes at the
   interrupted pc with MIE set.
   */
  lemma InterruptRoundTrip(m: Machine, n: nat)
    requires Valid(m) && m.pc % 4 == 0 && InterruptTaken(m) && HandlerReturns(m, n)
    ensures Run(m, n + 1).Some?
    ensures var r := Run(m, n + 1).value;
      r.pc == m.pc && r.nextPc == m.pc && MstatusMie(r.csr) == 1
  {
    hide TakeTrap, ReturnsNext, Step, Valid, Bit, Get, NextCycle;
    NextCycleValid(m);
    CycleKeeps(m);
    var cause := PendingInterrupt(NextCycle(m)).value;
    assert MstatusMie(NextCycle(m).csr) != 0;
    assert MstatusMie(NextCycle(m).csr) == 1;
    StepReturns(NextCycle(m), cause, Run(m, n).value);
  }

  // ----- no re-entry -----

  /** Instructions that write mstatus: CSRRW, and CSRRS and CSRRC with a nonzero rs1. */
  predicate WritesMstatus(inst: u32) {
    && OpcodeOf(inst) == PRIV && CsrOf(inst) == MSTATUS
    && (Funct3Of(inst) == 1 || (Funct3Of(inst) in {2, 3} && Rs1Of(inst) != 0))
  }

  /** The fetched instruction, if there is one, leaves mstatus alone. */
  predicate KeepsMstatus(m: Machine) {
    var fetched := BusRead(m.devices, m.pc, 4);
    fetched.Value? ==> !IsMret(fetched.value) && !WritesMstatus(fetched.value)
  }

  lemma WordKeepsMstatus(m: Machine, inst: u32)
    requires Valid(m) && !IsMret(inst) && !WritesMstatus(inst) && ExecuteWord(m, inst).Done?
    ensures Get(ExecuteWord(m, inst).machine.csr, MSTATUS) == Get(m.csr, MSTATUS)
  {
    hide GetImmediate, OpcodeOf, RdOf, Rs2Of, Funct7Of, AluOperation, Execute, NextPcOf, Wrap32, ExecutePrivileged;
    hide BusRead, BusWrite, BranchTaken, MemSize, Bit;
    if OpcodeOf(inst) == PRIV {
      PrivilegedKeepsMstatus(m, inst);
    }
  }

  lemma PrivilegedKeepsMstatus(m: Machine, inst: u32)
    requires Valid(m) && OpcodeOf(inst) == PRIV && !IsMret(inst) && !WritesMstatus(inst)
    ensures ExecutePrivileged(m, inst).Done?
    ensures Get(ExecutePrivileged(m, inst).machine.csr, MSTATUS) == Get(m.csr, MSTATUS)
  {
    hide GetImmediate, CsrOf, Rs1Of, RdOf, Funct3Of, NextPcOf, ReturnCsrs, Or32, And32;
  }

  lemma ExecuteKeepsMstatus(m: Machine)
    requires Valid(m) && KeepsMstatus(m) && ExecuteInstruction(m).Done?
    ensures Get(ExecuteInstruction(m).machine.csr, MSTATUS) == Get(m.csr, MSTATUS)
  {
    hide BusRead, ExecuteWord, IsMret, WritesMstatus, Get;
    if BusRead(m.devices, m.pc, 4).Value? {
      WordKeepsMstatus(m, BusRead(m.devices, m.pc, 4).value);
    }
  }

  /** Neither instruction that the step executes is MRET or writes mstatus. */
  predicate QuietStep(m: Machine)
    requires Valid(m)
  {
    && KeepsMstatus(Interrupted(m))
    && (First(m).Done? && First(m).code != STATUS_OK ==> KeepsMstatus(Vector(m)))
  }

  /** With MIE clear a quiet step takes no interrupt and leaves MIE clear, whatever exceptions it raises. */
  lemma QuietStepStaysMasked(m: Machine)
    requires Valid(m) && MstatusMie(m.csr) == 0 && QuietStep(m) && Step(m).Some?
    ensures PendingInterrupt(NextCycle(m)) == None && MstatusMie(Step(m).value.csr) == 0
  {
    hide ExecuteInstruction, NextCycle, PendingInterrupt, KeepsMstatus, TrapCsrs, Bit, Get, Valid;
    NoInterruptWhenMasked(m);
    CycleKeeps(m);
    ExecuteKeepsMstatus(Interrupted(m));
    SameMie(First(m).machine.csr, m.csr);
    if First(m).code != STATUS_OK {
      TrapSaves(First(m).machine.csr, First(m).machine.pc, First(m).code);
      ExecuteKeepsMstatus(Vector(m));
      SameMie(Step(m).value.csr, Vector(m).csr);
    }
  }

  /** Every step of a run segment is quiet. */
  predicate QuietRun(m: Machine, n: nat)
    requires Valid(m)
  {
    hide Step, Valid, QuietStep;
    forall k | 0 <= k < n :: Run(m, k).Some? ==> QuietStep(Run(m, k).value)
  }

  /** No step of the run, nor the one after it, takes an interrupt. */
  predicate NeverInterrupted(m: Machine, n: nat)
    requires Valid(m)
  {
    hide Step, Valid, NextCycle, PendingInterrupt;
    forall k | 0 <= k <= n :: Run(m, k).Some? && !InterruptTaken(Run(m, k).value)
  }

  /** No re-entry: over any quiet run segment from a state with MIE clear no interrupt is taken. */
  lemma {:induction false} NoReentry(m: Machine, n: nat)
    requires Valid(m) && MstatusMie(m.csr) == 0 && Run(m, n).Some? && QuietRun(m, n)
    ensures MstatusMie(Run(m, n).value.csr) == 0
    ensures NeverInterrupted(m, n)
  {
    hide Step, Valid, QuietStep, NextCycle, PendingInterrupt, Bit, Get;
    if n > 0 {
      RunPrefix(m, n - 1, n);
      NoReentry(m, n - 1);
      QuietStepStaysMasked(Run(m, n - 1).value);
    }
    NoInterruptWhenMasked(Run(m, n).value);
  }

  /** A step that takes a trap and is quiet from then on starts such a segment. */
  lemma TrapMasks(m: Machine)
    requires Valid(m) && Step(m).Some?
    requires PendingInterrupt(NextCycle(m)).Some? || First(m).code != STATUS_OK
    requires QuietStep(m)
    ensures MstatusMie(Step(m).value.csr) == 0
  {
    hide ExecuteInstruction, NextCycle, KeepsMstatus, TrapCsrs, Bit, Get, Valid;
    var c := NextCycle(m);
    NextCycleValid(m);
    ExecuteKeepsMstatus(Interrupted(m));
    if First(m).code != STATUS_OK {
      TrapSaves(First(m).machine.csr, First(m).machine.pc, First(m).code);
      ExecuteKeepsMstatus(Vector(m));
      SameMie(Step(m).value.csr, Vector(m).csr);
    } else {
      TrapSaves(c.csr, c.pc, PendingInterrupt(c).value);
      SameMie(Step(m).value.csr, Interrupted(m).csr);
    }
  }

  // ----- the timer -----

  function StoreAddress(m: Machine, inst: u32): u32
    requires Valid(m)
  {
    Wrap32(m.regs[Rs1Of(inst)] + GetImmediate(inst))
  }

  /** The fetched instruction, if there is one, is no store that the bus passes to the CLINT. */
  predicate SparesClint(m: Machine)
    requires Valid(m)
  {
    var fetched := BusRead(m.devices, m.pc, 4);
    fetched.Value? && OpcodeOf(fetched.value) == 0x23 ==> Find(m.devices, StoreAddress(m, fetched.value)) != CLINT
  }

  /** Neither instruction that the step executes stores to the CLINT. */
  predicate NoClintStep(m: Machine)
    requires Valid(m)
  {
    && SparesClint(Interrupted(m))
    && (First(m).Done? && First(m).code != STATUS_OK ==> SparesClint(Vector(m)))
  }

  lemma StoreSparesClint(m: Machine, inst: u32)
    requires Valid(m) && ExecuteStore(m, inst).Done? && Find(m.devices, StoreAddress(m, inst)) != CLINT
    ensures |ExecuteStore(m, inst).machine.devices| == 4
    ensures ExecuteStore(m, inst).machine.devices[CLINT] == m.devices[CLINT]
  {
    hide GetImmediate, BusWrite, Wrap32, Find;
    var addr := StoreAddress(m, inst);
    if BusWrite(m.devices, addr, m.regs[Rs2Of(inst)], MemSize(Funct3Of(inst))).Written? {
      WriteFrame(m.devices, addr, m.regs[Rs2Of(inst)], MemSize(Funct3Of(inst)));
    }
  }

  lemma WordSparesClint(m: Machine, inst: u32)
    requires Valid(m) && ExecuteWord(m, inst).Done?
    requires OpcodeOf(inst) == STORE ==> Find(m.devices, StoreAddress(m, inst)) != CLINT
    ensures |ExecuteWord(m, inst).machine.devices| == 4
    ensures ExecuteWord(m, inst).machine.devices[CLINT] == m.devices[CLINT]
  {
    hide GetImmediate, OpcodeOf, RdOf, Rs1Of, Rs2Of, Funct3Of, Funct7Of, AluOperation, Execute, NextPcOf, Wrap32;
    hide ExecuteStore, CsrOperation, ReturnCsrs, BusRead, Find, StoreAddress;
    CsrOperationKeepsCounters(m, inst);
    if OpcodeOf(inst) == STORE {
      StoreSparesClint(m, inst);
    }
  }

  lemma ExecuteSparesClint(m: Machine)
    requires Valid(m) && SparesClint(m) && ExecuteInstruction(m).Done?
    ensures ExecuteInstruction(m).machine.devices[CLINT] == m.devices[CLINT]
  {
    hide BusRead, ExecuteWord, Find, StoreAddress, OpcodeOf;
    var fetched := BusRead(m.devices, m.pc, 4);
    if fetched.Value? {
      WordSparesClint(m, fetched.value);
    }
  }

  /** A step without such a store leaves the CLINT as its cycle made it. */
  lemma StepTicks(m: Machine)
    requires Valid(m) && NoClintStep(m) && Step(m).Some?
    ensures Step(m).value.devices[CLINT].mem == Ticked(m.devices[CLINT].mem)
  {
    hide ExecuteInstruction, TrapCsrs, PendingInterrupt, Ticked, SparesClint, CycleCsrs;
    CycleKeeps(m);
    assert Interrupted(m).devices[CLINT].mem == Ticked(m.devices[CLINT].mem);
    ExecuteSparesClint(Interrupted(m));
    if First(m).code != STATUS_OK {
      ExecuteSparesClint(Vector(m));
    }
  }

  /** No step of a run segment stores to the CLINT. */
  predicate NoClintRun(m: Machine, n: nat)
    requires Valid(m)
  {
    hide Step, Valid, NoClintStep;
    forall k | 0 <= k < n :: Run(m, k).Some? ==> NoClintStep(Run(m, k).value)
  }

  lemma TickedFields(mem: seq<u8>)
    requires |mem| == CLINT_SIZE
    ensures Count(Ticked(mem)) == Wrap64(Count(mem) + 1)
    ensures Compare(Ticked(mem)) == Compare(mem) && SoftwarePending(Ticked(mem)) == SoftwarePending(mem)
  {
    hide LE.Value, Wrap64;
    var n := Wrap64(Count(mem) + 1);
    LE.Pow256Small();
    LE.ValueOfBytes(n, 8);
    assert Ticked(mem)[0..8] == LE.Bytes(n, 8);
    assert Ticked(mem)[8..16] == mem[8..16];
    assert Ticked(mem)[20..24] == mem[20..24];
  }

  /** The counter of a run that does not store to the CLINT. */
  lemma {:induction false} CounterAdvances(m: Machine, n: nat)
    requires Valid(m) && Run(m, n).Some? && Count(m.devices[CLINT].mem) + n < 0x1_0000_0000_0000_0000
    requires NoClintRun(m, n)
    ensures var mem := Run(m, n).value.devices[CLINT].mem;
      && Count(mem) == Count(m.devices[CLINT].mem) + n
      && Compare(mem) == Compare(m.devices[CLINT].mem)
      && SoftwarePending(mem) == SoftwarePending(m.devices[CLINT].mem)
  {
    hide Step, Count, Compare, SoftwarePending, Ticked, NoClintStep;
    if n > 0 {
      RunPrefix(m, n - 1, n);
      CounterAdvances(m, n - 1);
      StepTicks(Run(m, n - 1).value);
      TickedFields(Run(m, n - 1).value.devices[CLINT].mem);
    }
  }

  /** A 64-bit number in a buffer is made up of two words. */
  lemma TwoWords(mem: seq<u8>, off: nat)
    requires off + 8 <= |mem|
    ensures LE.Value(mem[off..off + 8]) == LE.Value(mem[off..off + 4]) + 0x1_0000_0000 * LE.Value(mem[off + 4..off + 8])
  {
    hide LE.Value;
    LE.Pow256Small();
    LE.ValueConcat(mem[off..off + 4], mem[off + 4..off + 8]);
    assert mem[off..off + 8] == mem[off..off + 4] + mem[off + 4..off + 8];
  }

  /** A word load at an offset from the CLINT's base returns the value. */
  predicate Reads(m: Machine, off: nat, value: u32)
    requires Valid(m)
  {
    hide BusRead;
    var addr := m.devices[CLINT].base + off;
    addr < 0x1_0000_0000 && BusRead(m.devices, addr, 4) == Value(value)
  }

  lemma ClintPlaced(m: Machine)
    requires Valid(m) && F.WellLaidOut(m.devices)
    ensures |m.devices| == 4 && |m.devices[3].mem| == 24
    ensures m.devices[3].base % 4 == 0 && m.devices[3].base + 24 < 0x1_0000_0000
  {
    hide F.Separate;
    assert F.WordSized(m.devices[3]);
  }

  lemma ClintWord(m: Machine, off: nat) returns (value: u32)
    requires Valid(m) && F.WellLaidOut(m.devices) && off in {0, 4, 8, 12, 20}
    ensures Reads(m, off, value) && value == LE.Value(m.devices[CLINT].mem[off..off + 4])
  {
    hide LE.Value, BusRead, F.WellLaidOut, F.BytesAt, Valid;
    ClintPlaced(m);
    F.WordRead(m.devices, m.devices[3].base + off, 3);
    F.BytesOfHolder(m.devices, m.devices[3].base + off, 4, 3);
    value := BusRead(m.devices, m.devices[3].base + off, 4).value;
  }

  /** A program that loads the two words at the base reads the 64-bit count. */
  lemma CounterReads(m: Machine) returns (low: u32, high: u32)
    requires Valid(m) && F.WellLaidOut(m.devices)
    ensures Reads(m, 0, low) && Reads(m, 4, high) && Count(m.devices[CLINT].mem) == low + 0x1_0000_0000 * (high as int)
  {
    hide LE.Value, F.WellLaidOut, Reads;
    TwoWords(m.devices[CLINT].mem, 0);
    low := ClintWord(m, 0);
    high := ClintWord(m, 4);
  }

  /** The comparand is the 64-bit number at offset 8. */
  lemma ComparatorReads(m: Machine) returns (low: u32, high: u32)
    requires Valid(m) && F.WellLaidOut(m.devices)
    ensures Reads(m, 8, low) && Reads(m, 12, high)
    ensures Compare(m.devices[CLINT].mem) == low + 0x1_0000_0000 * (high as int)
  {
    hide LE.Value, F.WellLaidOut, Reads;
    TwoWords(m.devices[CLINT].mem, 8);
    low := ClintWord(m, 8);
    high := ClintWord(m, 12);
  }

  /** A software interrupt is pending exactly when the word at offset 20 is 1. */
  lemma SoftwareReads(m: Machine) returns (msip: u32)
    requires Valid(m) && F.WellLaidOut(m.devices)
    ensures Reads(m, 20, msip) && (SoftwarePending(m.devices[CLINT].mem) <==> msip == 1)
  {
    hide LE.Value, F.WellLaidOut, Reads;
    msip := ClintWord(m, 20);
  }

  /** The pending bits after a cycle: MTIP follows the comparison, MSIP is only ever set. */
  lemma CyclePending(m: Machine)
    requires Valid(m)
    ensures var mem := m.devices[CLINT].mem;
      var c := NextCycle(m).csr;
      && Bit(Get(c, 0x344), 7) == (if Wrap64(Count(mem) + 1) >= Compare(mem) then 1 else 0)
      && Bit(Get(c, 0x344), 3) == (if SoftwarePending(mem) || Bit(Get(m.csr, 0x344), 3) == 1 then 1 else 0)
  {
    hide Count, Compare, SoftwarePending, Ticked, Or32, And32, Bit, Get, Set, Clear, Wrap64;
    var mem := m.devices[CLINT].mem;
    TickedFields(mem);
    MaskBits(3);
    MaskBits(7);
    var timed := if Count(Ticked(mem)) >= Compare(Ticked(mem)) then Set(m.csr, MIP, BIT7) else Clear(m.csr, MIP, BIT7);
    SetBitsOf(m.csr, MIP, BIT7, 7);
    SetBitsOf(m.csr, MIP, BIT7, 3);
    SetBitsOf(timed, MIP, BIT3, 7);
    SetBitsOf(timed, MIP, BIT3, 3);
  }

  /** The interrupt that a step takes, from the state before it: software before timer, each only when enabled. */
  lemma InterruptExact(m: Machine)
    requires Valid(m)
    ensures Valid(NextCycle(m))
    ensures var mem := m.devices[CLINT].mem;
      PendingInterrupt(NextCycle(m)) ==
        if Bit(Get(m.csr, 0x300), 3) == 0 then None
        else if SoftwarePending(mem) && Bit(Get(m.csr, 0x304), 3) == 1 then Some(0x8000_0003)
        else if Wrap64(Count(mem) + 1) >= Compare(mem) && Bit(Get(m.csr, 0x304), 7) == 1 then Some(0x8000_0007)
        else None
  {
    hide Count, Compare, SoftwarePending, Ticked, CycleCsrs, Bit, Wrap64, Get;
    NextCycleValid(m);
    TickedFields(m.devices[CLINT].mem);
    CyclePending(m);
    CycleKeeps(m);
  }

  /** With MIE and MTIE set and no software interrupt, the timer fires exactly when the next count reaches mtimecmp. */
  lemma TimerFires(m: Machine)
    requires Valid(m) && !SoftwarePending(m.devices[CLINT].mem)
    requires Bit(Get(m.csr, 0x300), 3) == 1 && Bit(Get(m.csr, 0x304), 7) == 1
    requires Count(m.devices[CLINT].mem) + 1 < 0x1_0000_0000_0000_0000
    ensures PendingInterrupt(NextCycle(m))
      == if Count(m.devices[CLINT].mem) + 1 < Compare(m.devices[CLINT].mem) then None else Some(0x8000_0007)
  {
    hide Count, Compare, SoftwarePending, Bit, Get, PendingInterrupt, NextCycle;
    InterruptExact(m);
  }

  /**
   The exact timer bound: as long as nothing is stored to the CLINT, no software interrupt is
   pending, the counter does not wrap, and MIE and MTIE stay set, the first timer interrupt is taken in
   step max(1, mtimecmp - mcycle) and in none before it.
   */
  lemma TimerBound(m: Machine, n: nat)
    requires Valid(m) && Run(m, n).Some? && !SoftwarePending(m.devices[CLINT].mem)
    requires Count(m.devices[CLINT].mem) + n + 1 < 0x1_0000_0000_0000_0000
    requires NoClintRun(m, n)
    requires forall k | 0 <= k <= n :: Run(m, k).Some? ==>
      Bit(Get(Run(m, k).value.csr, 0x300), 3) == 1 && Bit(Get(Run(m, k).value.csr, 0x304), 7) == 1
    ensures var first := Compare(m.devices[CLINT].mem) - Count(m.devices[CLINT].mem);
      PendingInterrupt(NextCycle(Run(m, n).value))
        == if n + 1 >= first then Some(0x8000_0007) else None
  {
    hide Step, Valid, NoClintRun, Count, Compare, SoftwarePending, NextCycle, PendingInterrupt, Get, Bit;
    CounterAdvances(m, n);
    TimerFires(Run(m, n).value);
  }
}
