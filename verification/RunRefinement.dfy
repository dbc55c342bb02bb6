/**
 Whole runs of `nextInstruction` against the reference instruction set: while the CLINT counts
 beside it, a program that does not look at the CLINT or at mip, with interrupts masked, reaches
 the reference's registers, pc, CSRs and memory.
 */
module RunRefinement {
  import opened Words
  import opened Alu
  import opened Immediates
  import opened Memory
  import opened Machines
  import opened Isa
  import opened Precise
  import opened Refinement
  import opened Traps
  import F = FlatMemory
  import LE = LittleEndian

  // ----- states that differ in the CLINT and mip only -----

  predicate InClint(a: int, c: int) {
    c <= a < c + CLINT_SIZE
  }

  predicate SameCell(h: map<int, Cell>, g: map<int, Cell>, a: int) {
    && (a in h <==> a in g)
    && (a in h && a in g ==> h[a].writable == g[a].writable)
  }

  /** The same cells are mapped, and outside the CLINT at c they hold the same bytes. */
  ghost predicate AlikeMemory(h: map<int, Cell>, g: map<int, Cell>, c: int) {
    && (forall a: int :: SameCell(h, g, a))
    && forall a: int | a in h && !InClint(a, c) :: a in g && h[a] == g[a]
  }

  ghost predicate AlikeCsrs(a: Csrs, b: Csrs) {
    forall r: u32 | r != MIP :: Get(a, r) == Get(b, r)
  }

  ghost predicate Alike(h: Hart, g: Hart, c: int) {
    h.x == g.x && h.pc == g.pc && AlikeCsrs(h.csr, g.csr) && AlikeMemory(h.memory, g.memory, c)
  }

  lemma AlikeMemoryTrans(h: map<int, Cell>, g: map<int, Cell>, f: map<int, Cell>, c: int)
    requires AlikeMemory(h, g, c) && AlikeMemory(g, f, c)
    ensures AlikeMemory(h, f, c)
  {
    forall a: int ensures SameCell(h, f, a) {
      assert SameCell(h, g, a) && SameCell(g, f, a);
    }
  }

  lemma AlikeTrans(h: Hart, g: Hart, f: Hart, c: int)
    requires Alike(h, g, c) && Alike(g, f, c)
    ensures Alike(h, f, c)
  {
    hide AlikeMemory;
    AlikeMemoryTrans(h.memory, g.memory, f.memory, c);
  }

  /** Two harts that the same machine stands for are alike. */
  lemma StandsAlike(m: Machine, h: Hart, g: Hart, c: int)
    requires Stands(m, h) && Stands(m, g)
    ensures Alike(h, g, c)
  {
    hide CellAt;
    forall a: int
      ensures SameCell(h.memory, g.memory, a)
      ensures a in h.memory ==> a in g.memory && h.memory[a] == g.memory[a]
    {
      CellOfMemory(m.devices, h.memory, a);
      CellOfMemory(m.devices, g.memory, a);
    }
  }

  // ----- instructions that do not see the difference -----

  /** The bytes from an address on lie outside the CLINT. */
  predicate Clear(addr: int, size: nat, c: int) {
    addr + size <= c || c + CLINT_SIZE <= addr
  }

  /** The instruction accesses neither the CLINT nor mip, and does not write mstatus. */
  predicate Avoids(i: Instr, h: Hart, c: int)
    requires |h.x| == 32
  {
    match i
    case Lw(_, rs1, imm) => Clear(Wrap32(h.x[rs1] + imm), 4, c)
    case LoadNarrow(half, _, _, rs1, imm) => Clear(Wrap32(h.x[rs1] + imm), NarrowSize(half), c)
    case StoreTo(w, rs1, _, imm) => Clear(Wrap32(h.x[rs1] + imm), WidthSize(w), c)
    case CsrAccess(op, _, rs1, csr) => csr != MIP && (csr == MSTATUS ==> op != Swap && rs1 == 0)
    case _ => true
  }

  /** The same exception, or alike harts. */
  ghost predicate AlikeEffects(e: Effect, f: Effect, c: int) {
    match (e, f)
    case (Next(h), Next(g)) => Alike(h, g, c)
    case (Exception(a), Exception(b)) => a == b
    case _ => false
  }

  lemma CellsAlike(h: map<int, Cell>, g: map<int, Cell>, c: int, a: int)
    requires AlikeMemory(h, g, c)
    ensures a in h <==> a in g
    ensures a in h ==> h[a].writable == g[a].writable
    ensures a in h && !InClint(a, c) ==> h[a] == g[a]
  {
    assert SameCell(h, g, a);
  }

  lemma FollowingAlike(h: Hart, g: Hart, c: int, rd: reg, value: u32)
    requires Alike(h, g, c) && |h.x| == 32
    ensures AlikeEffects(Following(h, rd, value), Following(g, rd, value), c)
  {
    hide AlikeMemory, AlikeCsrs;
  }

  lemma WordAlike(h: Hart, g: Hart, c: int, addr: int)
    requires Alike(h, g, c) && Clear(addr, 4, c)
    ensures WordMapped(h.memory, addr) <==> WordMapped(g.memory, addr)
    ensures WordMapped(h.memory, addr) ==> WordAt(h.memory, addr) == WordAt(g.memory, addr)
  {
    hide AlikeMemory, AlikeCsrs;
    CellsAlike(h.memory, g.memory, c, addr);
    CellsAlike(h.memory, g.memory, c, addr + 1);
    CellsAlike(h.memory, g.memory, c, addr + 2);
    CellsAlike(h.memory, g.memory, c, addr + 3);
  }

  lemma LoadAlike(h: Hart, g: Hart, c: int, rd: reg, addr: u32)
    requires Alike(h, g, c) && |h.x| == 32 && Clear(addr, 4, c)
    ensures AlikeEffects(Load(h, rd, addr), Load(g, rd, addr), c)
  {
    hide AlikeMemory, AlikeCsrs, WordMapped, Following, LE.Value, AlikeEffects, Clear;
    WordAlike(h, g, c, addr);
    CellsAlike(h.memory, g.memory, c, addr);
    SameException(LOAD_ACCESS_FAULT, c);
    SameException(LOAD_ADDRESS_MISALIGNED, c);
    if WordMapped(h.memory, addr) {
      LE.ValueBound(WordAt(h.memory, addr));
      LE.Pow256Small();
      FollowingAlike(h, g, c, rd, LE.Value(WordAt(h.memory, addr)));
    }
  }

  lemma SameException(code: u32, c: int)
    ensures AlikeEffects(Exception(code), Exception(code), c)
  {
  }

  lemma NarrowAlike(h: Hart, g: Hart, c: int, half: bool, signed: bool, rd: reg, addr: u32)
    requires Alike(h, g, c) && |h.x| == 32 && Clear(addr, NarrowSize(half), c)
    ensures AlikeEffects(NarrowLoad(h, half, signed, rd, addr), NarrowLoad(g, half, signed, rd, addr), c)
  {
    hide AlikeMemory, AlikeCsrs, Following, AlikeEffects, Extended, Aligned;
    CellsAlike(h.memory, g.memory, c, addr);
    CellsAlike(h.memory, g.memory, c, addr + 1);
    SameException(LOAD_ACCESS_FAULT, c);
    SameException(LOAD_ADDRESS_MISALIGNED, c);
    if NarrowMapped(h.memory, addr, half) {
      FollowingAlike(h, g, c, rd, Extended(NarrowAt(h.memory, addr, half), half, signed));
    }
  }

  lemma StoredAlike(h: map<int, Cell>, g: map<int, Cell>, c: int, addr: int, value: u32, size: nat)
    requires AlikeMemory(h, g, c)
    ensures AlikeMemory(Isa.Stored(h, addr, value, size), Isa.Stored(g, addr, value, size), c)
  {
    hide LE.Bytes;
    var hs, gs := Isa.Stored(h, addr, value, size), Isa.Stored(g, addr, value, size);
    forall a: int ensures SameCell(hs, gs, a) && (a in hs && !InClint(a, c) ==> a in gs && hs[a] == gs[a]) {
      CellsAlike(h, g, c, a);
    }
  }

  lemma StoreAlike(h: Hart, g: Hart, c: int, addr: u32, value: u32, size: nat)
    requires Alike(h, g, c)
    ensures AlikeEffects(Isa.StoreEffect(h, addr, value, size), Isa.StoreEffect(g, addr, value, size), c)
  {
    hide AlikeMemory, AlikeCsrs, Isa.Stored, Aligned;
    CellsAlike(h.memory, g.memory, c, addr);
    StoredAlike(h.memory, g.memory, c, addr, value, size);
  }

  lemma CsrsAlike(a: Csrs, b: Csrs, r: u32, v: u32)
    requires AlikeCsrs(a, b)
    ensures AlikeCsrs(a[r := v], b[r := v]) && (r != MIP ==> Get(a, r) == Get(b, r))
  {
    var x, y := a[r := v], b[r := v];
    forall s: u32 | s != MIP ensures Get(x, s) == Get(y, s) {
      assert Get(a, s) == Get(b, s);
    }
  }

  lemma CsrAlike(h: Hart, g: Hart, c: int, op: CsrOp, rd: reg, rs1: reg, csr: u32)
    requires Alike(h, g, c) && |h.x| == 32 && csr != MIP
    ensures AlikeEffects(CsrEffect(h, op, rd, rs1, csr), CsrEffect(g, op, rd, rs1, csr), c)
  {
    hide AlikeMemory, AlikeCsrs, Get, Bitwise32, Following, AlikeEffects;
    var source := h.x[rs1];
    CsrsAlike(h.csr, g.csr, csr, source);
    var value := Get(h.csr, csr);
    CsrsAlike(h.csr, g.csr, csr, Bitwise32(Or, source, value));
    CsrsAlike(h.csr, g.csr, csr, Bitwise32(And, 0xffff_ffff - source, value));
    var updatedH := CsrUpdated(h.csr, op, rs1, csr, source);
    var updatedG := CsrUpdated(g.csr, op, rs1, csr, source);
    FollowingAlike(h.(csr := updatedH), g.(csr := updatedG), c, rd, value);
  }

  lemma GotoAlike(h: Hart, g: Hart, hh: Hart, gg: Hart, c: int, target: u32)
    requires Alike(hh, gg, c)
    ensures AlikeEffects(Goto(h, hh, target), Goto(g, gg, target), c)
  {
    hide AlikeMemory, AlikeCsrs;
  }

  lemma WrittenAlike(h: Hart, g: Hart, c: int, rd: reg, value: u32)
    requires Alike(h, g, c) && |h.x| == 32
    ensures Alike(Isa.Written(h, rd, value), Isa.Written(g, rd, value), c)
  {
    hide AlikeMemory, AlikeCsrs;
  }

  lemma AlikeRegs(h: Hart, g: Hart, c: int)
    requires Alike(h, g, c)
    ensures h.x == g.x && h.pc == g.pc
  {
  }

  /** Harts that differ only in the CLINT and mip are taken to such harts by an instruction that avoids both. */
  lemma EffectsAlike(i: Instr, h: Hart, g: Hart, c: int)
    requires Representable(i) && |h.x| == 32 && |g.x| == 32 && Alike(h, g, c) && Avoids(i, h, c)
    ensures AlikeEffects(Effects(i, h), Effects(i, g), c)
  {
    hide Alike, AlikeEffects, Following, Goto, Isa.Written, Load, NarrowLoad, Isa.StoreEffect, CsrEffect, Compute;
    hide Isa.Holds, Clear, Wrap32;
    AlikeRegs(h, g, c);
    match i {
      case Lui(rd, imm20) => FollowingAlike(h, g, c, rd, 0x1000 * imm20);
      case Auipc(rd, imm20) => FollowingAlike(h, g, c, rd, Wrap32(h.pc + 0x1000 * imm20));
      case Jal(rd, offset) =>
        var link := Wrap32(h.pc + 4);
        WrittenAlike(h, g, c, rd, link);
        GotoAlike(h, g, Isa.Written(h, rd, link), Isa.Written(g, rd, link), c, Wrap32(h.pc + offset));
      case Jalr(rd, rs1, imm) =>
        var t, link := Wrap32(h.x[rs1] + imm), Wrap32(h.pc + 4);
        EvenPart(t);
        WrittenAlike(h, g, c, rd, link);
        GotoAlike(h, g, Isa.Written(h, rd, link), Isa.Written(g, rd, link), c, t - t % 2);
      case Branch(cond, rs1, rs2, offset) =>
        GotoAlike(h, g, h, g, c, Wrap32(h.pc + if Isa.Holds(cond, h.x[rs1], h.x[rs2]) then offset else 4));
      case Lw(rd, rs1, imm) => LoadAlike(h, g, c, rd, Wrap32(h.x[rs1] + imm));
      case LoadNarrow(half, signed, rd, rs1, imm) => NarrowAlike(h, g, c, half, signed, rd, Wrap32(h.x[rs1] + imm));
      case StoreTo(w, rs1, rs2, imm) => StoreAlike(h, g, c, Wrap32(h.x[rs1] + imm), h.x[rs2], WidthSize(w));
      case OpImm(op, rd, rs1, imm) => FollowingAlike(h, g, c, rd, Compute(op, h.x[rs1], Wrap32(imm)));
      case Op(op, rd, rs1, rs2) => FollowingAlike(h, g, c, rd, Compute(op, h.x[rs1], h.x[rs2]));
      case CsrAccess(op, rd, rs1, csr) => CsrAlike(h, g, c, op, rd, rs1, csr);
      case Ecall => SameException(ECALL_FROM_M_MODE, c);
    }
  }

  // ----- one step -----

  ghost predicate Similar(m: Machine, h: Hart)
    requires Valid(m)
  {
    Alike(HartOf(m), h, m.devices[CLINT].base)
  }

  lemma CycleCell(m: Machine, a: int)
    requires Valid(m) && F.WellLaidOut(m.devices)
    ensures Valid(NextCycle(m))
    ensures var before, after := CellAt(m.devices, a), CellAt(NextCycle(m).devices, a);
      && (before.Some? <==> after.Some?)
      && (before.Some? ==> before.value.writable == after.value.writable)
      && (before.Some? && !InClint(a, m.devices[CLINT].base) ==> before == after)
  {
    hide F.Holder, Ticked, CycleCsrs, F.WellLaidOut;
    NextCycleValid(m);
    CycleKeeps(m);
    CycleShape(m);
    F.ShapeKept(m.devices, NextCycle(m).devices);
  }

  lemma CycleShape(m: Machine)
    requires Valid(m)
    ensures SameShape(m.devices, NextCycle(m).devices)
  {
    hide Ticked, CycleCsrs;
  }

  /** The CLINT's cycle is not seen outside it and mip. */
  lemma CycleAlike(m: Machine)
    requires Ready(m)
    ensures Valid(NextCycle(m)) && Ready(NextCycle(m))
    ensures NextCycle(m).devices[CLINT].base == m.devices[CLINT].base
    ensures Alike(HartOf(NextCycle(m)), HartOf(m), m.devices[CLINT].base)
  {
    hide CellAt, Ticked, CycleCsrs, F.WellLaidOut;
    NextCycleValid(m);
    CycleKeeps(m);
    CycleShape(m);
    F.ShapeKept(m.devices, NextCycle(m).devices);
    var n := NextCycle(m);
    var h, g := HartOf(n).memory, HartOf(m).memory;
    forall a: int
      ensures SameCell(h, g, a) && (a in h && !InClint(a, m.devices[CLINT].base) ==> a in g && h[a] == g[a])
    {
      CycleCell(m, a);
    }
  }

  /** The reference fetches the instruction from outside the CLINT. */
  predicate FetchesOutside(h: Hart, i: Instr, c: int)
    requires Representable(i)
  {
    Fetches(h, i) && Clear(h.pc, 4, c)
  }

  lemma FetchesAlike(h: Hart, g: Hart, i: Instr, c: int)
    requires Representable(i) && Alike(h, g, c) && FetchesOutside(g, i, c)
    ensures Fetches(h, i)
  {
    hide AlikeMemory, AlikeCsrs, Encode, LE.Value;
    WordAlike(h, g, c, h.pc);
  }

  lemma AlikeSymmetric(h: Hart, g: Hart, c: int)
    requires Alike(h, g, c)
    ensures Alike(g, h, c)
  {
    forall a: int
      ensures SameCell(g.memory, h.memory, a)
      ensures a in g.memory && !InClint(a, c) ==> a in h.memory && g.memory[a] == h.memory[a]
    {
      CellsAlike(h.memory, g.memory, c, a);
    }
  }

  lemma EffectsKeepMstatus(i: Instr, h: Hart, c: int)
    requires Representable(i) && |h.x| == 32 && Avoids(i, h, c) && Effects(i, h).Next?
    ensures Get(Effects(i, h).hart.csr, MSTATUS) == Get(h.csr, MSTATUS)
  {
    hide Wrap32, Compute, WordMapped, WordAt, NarrowMapped, NarrowAt, Extended, Isa.Stored, Aligned, Bitwise32;
    hide Isa.Holds, Clear, LE.Value;
  }

  lemma MieAlike(m: Machine, h: Hart)
    requires Valid(m) && Similar(m, h)
    ensures MstatusMie(m.csr) == MstatusMie(h.csr)
  {
    hide AlikeMemory, Bit;
  }

  /** A step with interrupts masked is the cycle and one execution. */
  lemma MaskedStep(m: Machine)
    requires Valid(m) && MstatusMie(m.csr) == 0 && Valid(NextCycle(m))
    requires ExecuteInstruction(NextCycle(m)).Done? && ExecuteInstruction(NextCycle(m)).code == STATUS_OK
    ensures Step(m) == Some(ExecuteInstruction(NextCycle(m)).machine)
  {
    hide ExecuteInstruction, NextCycle, PendingInterrupt, TakeTrap, Bit, Get, Valid;
    NoInterruptWhenMasked(m);
  }

  lemma ExecuteShape(m: Machine)
    requires Valid(m) && ExecuteInstruction(m).Done?
    ensures SameShape(m.devices, ExecuteInstruction(m).machine.devices)
  {
    hide BusRead, ExecuteWord;
    var fetched := BusRead(m.devices, m.pc, 4);
    if fetched.Value? {
      WordKeepsRom(m, fetched.value);
    }
  }

  /** One step of the machine, counter and all, against one instruction of the reference. */
  lemma StepRefines(m: Machine, h: Hart, i: Instr)
    requires Ready(m) && Valid(m) && Similar(m, h) && MstatusMie(h.csr) == 0 && Representable(i) && |h.x| == 32
    requires FetchesOutside(h, i, m.devices[CLINT].base) && Avoids(i, h, m.devices[CLINT].base)
    requires Effects(i, h).Next? && Valid(NextCycle(m)) && Exact(NextCycle(m), i)
    ensures Step(m).Some? && Ready(Step(m).value) && Similar(Step(m).value, Effects(i, h).hart)
    ensures Step(m).value.devices[CLINT].base == m.devices[CLINT].base
    ensures MstatusMie(Effects(i, h).hart.csr) == 0 && |Effects(i, h).hart.x| == 32
  {
    hide ExecuteInstruction, NextCycle, Effects, Exact, Fetches, Alike, HartOf, Stands, Ready, Step, Valid, Bit, Get;
    hide Representable, Avoids, FetchesOutside, Encode, Matches;
    ReadyLaidOut(m);
    var c, n := m.devices[CLINT].base, NextCycle(m);
    CycleAlike(m);
    AlikeTrans(HartOf(n), HartOf(m), h, c);
    var g := HartOf(n);
    ReadyLaidOut(n);
    Abstraction(n);
    FetchesAlike(g, h, i, c);
    ReadyShape(n, g);
    AlikeSymmetric(g, h, c);
    EffectsAlike(i, h, g, c);
    InstructionRefines(n, g, i);
    var after := ExecuteInstruction(n).machine;
    MieAlike(m, h);
    MaskedStep(m);
    ReadyLaidOut(after);
    Abstraction(after);
    StandsAlike(after, HartOf(after), Effects(i, g).hart, c);
    AlikeSymmetric(Effects(i, h).hart, Effects(i, g).hart, c);
    AlikeTrans(HartOf(after), Effects(i, g).hart, Effects(i, h).hart, c);
    ExecuteShape(n);
    EffectsKeepMstatus(i, h, c);
    SameMie(Effects(i, h).hart.csr, h.csr);
    ReadyShape(after, Effects(i, g).hart);
    AlikeRegs(Effects(i, g).hart, Effects(i, h).hart, c);
  }

  lemma ReadyLaidOut(m: Machine)
    requires Ready(m)
    ensures Valid(m) && F.WellLaidOut(m.devices) && |m.devices| == 4
  {
  }

  // ----- runs -----

  /** Every instruction of the reference's run is fetched from outside the CLINT and avoids it and mip. */
  predicate AvoidsAll(h: Hart, program: seq<Instr>, c: int)
    requires |h.x| == 32 && forall k | 0 <= k < |program| :: Representable(program[k])
    decreases |program|
  {
    program == [] ||
    (FetchesOutside(h, program[0], c) && Avoids(program[0], h, c) &&
     match Effects(program[0], h)
     case Next(after) => |after.x| == 32 && AvoidsAll(after, program[1..], c)
     case Exception(_) => false)
  }

  /** The exactness condition holds for each instruction in the state that the step executes it in. */
  predicate ExactSteps(m: Machine, program: seq<Instr>)
    requires Valid(m) && forall k | 0 <= k < |program| :: Representable(program[k])
    decreases |program|
  {
    hide Step, Valid, NextCycle, Exact;
    NextCycleValid(m);
    program == [] ||
    (Exact(NextCycle(m), program[0]) && (Step(m).Some? ==> ExactSteps(Step(m).value, program[1..])))
  }

  /**
   Over a run of the machine with interrupts masked, a program of the reference that avoids the
   CLINT and mip brings the machine, in as many steps, to the reference's registers, pc, CSRs
   (but mip) and memory (but the CLINT's), while the CLINT goes on counting.
   */
  lemma {:induction false} RunRefines(m: Machine, h: Hart, program: seq<Instr>)
    requires Ready(m) && Valid(m) && Similar(m, h) && MstatusMie(h.csr) == 0 && |h.x| == 32
    requires forall k | 0 <= k < |program| :: Representable(program[k])
    requires RefRun(h, program).Some? && AvoidsAll(h, program, m.devices[CLINT].base) && ExactSteps(m, program)
    ensures Run(m, |program|).Some?
    ensures Similar(Run(m, |program|).value, RefRun(h, program).value)
    decreases |program|
  {
    hide Step, Valid, NextCycle, Exact, Ready, Similar, Effects, Avoids, FetchesOutside, Representable, Bit, Get;
    if program == [] {
      assert Run(m, 0) == Some(m);
    } else {
      NextCycleValid(m);
      ReadyLaidOut(m);
      StepRefines(m, h, program[0]);
      ReadyLaidOut(Step(m).value);
      RunRefines(Step(m).value, Effects(program[0], h).hart, program[1..]);
      RunFirst(m, |program| - 1);
    }
  }

  /** What being similar means for a program: registers, pc, CSRs and memory read alike. */
  lemma SimilarMeans(m: Machine, h: Hart, a: int, r: u32)
    requires Valid(m) && F.WellLaidOut(m.devices) && Similar(m, h)
    ensures m.regs == h.x && m.pc == h.pc && (r != MIP ==> Get(m.csr, r) == Get(h.csr, r))
    ensures !InClint(a, m.devices[CLINT].base) ==>
      CellAt(m.devices, a) == if a in h.memory then Some(h.memory[a]) else None
  {
    hide CellAt, AlikeMemory, F.WellLaidOut, Get;
    Abstraction(m);
    StandsMemory(m, HartOf(m));
    CellOfMemory(m.devices, HartOf(m).memory, a);
    CellsAlike(HartOf(m).memory, h.memory, m.devices[CLINT].base, a);
  }
}
