/**
 The machine against the reference instruction set: for every instruction and every state,
 executing the encoding has exactly the reference effect if and only if a condition on the
 operands holds.
 */
module Refinement {
  import opened Words
  import opened Alu
  import opened Immediates
  import opened Memory
  import opened Machines
  import opened Isa
  import opened Precise
  import F = FlatMemory
  import LE = LittleEndian

  // ----- abstraction -----

  /** The cell that the bus holds at an address. */
  function CellAt(devices: seq<Device>, addr: int): Option<Cell> {
    var k := F.Holder(devices, addr);
    if k == |devices| then None
    else Some(Cell(devices[k].mem[addr - devices[k].base], devices[k].kind != Rom))
  }

  ghost predicate SameMemory(devices: seq<Device>, memory: map<int, Cell>) {
    && (forall addr: int :: addr in memory <==> CellAt(devices, addr).Some?)
    && forall addr: int | addr in memory :: CellAt(devices, addr) == Some(memory[addr])
  }

  ghost predicate SameCsrs(a: Csrs, b: Csrs) {
    forall c: u32 :: Get(a, c) == Get(b, c)
  }

  /** The machine stands for the hart: same registers, pc, CSRs and memory. */
  ghost predicate Stands(m: Machine, h: Hart) {
    m.regs == h.x && m.pc == h.pc && SameCsrs(m.csr, h.csr) && SameMemory(m.devices, h.memory)
  }

  /** The hart that a machine stands for. */
  ghost function HartOf(m: Machine): Hart {
    Hart(m.regs, m.csr, m.pc,
         map a: int | 0 <= a < 0x1_0000_0000 && CellAt(m.devices, a).Some? :: CellAt(m.devices, a).value)
  }

  /** Every machine that is laid out apart stands for a hart. */
  lemma Abstraction(m: Machine)
    requires F.WellLaidOut(m.devices)
    ensures Stands(m, HartOf(m))
  {
    hide F.Holder;
    forall a: int | CellAt(m.devices, a).Some? ensures 0 <= a < 0x1_0000_0000 {
      assert F.WordSized(m.devices[F.Holder(m.devices, a)]);
    }
  }

  /** Both counters agree and are aligned, and the devices are laid out apart from each other. */
  predicate Ready(m: Machine) {
    Valid(m) && m.pc == m.nextPc && m.pc % 4 == 0 && F.WellLaidOut(m.devices)
  }

  /** The outcome of the machine is the effect on the hart; an exception changes nothing. */
  ghost predicate Matches(o: Outcome, before: Hart, e: Effect) {
    match e
    case Next(after) => o.Done? && o.code == STATUS_OK && Stands(o.machine, after) && o.machine.nextPc == o.machine.pc
    case Exception(code) => o.Done? && o.code == code && Stands(o.machine, before)
  }

  // ----- the exact condition -----

  /** The link register already holds the return address, or is x0. */
  predicate LinkUnchanged(m: Machine, rd: reg)
    requires Valid(m)
  {
    rd == 0 || m.regs[rd] == Wrap32(m.pc + 4)
  }

  /** No device ends at the address. */
  predicate NotAnEnd(m: Machine, addr: u32) {
    F.NoEnd(m.devices, addr)
  }

  /** The address is not in the ROM. */
  predicate NotRom(m: Machine, addr: u32) {
    var k := F.Holder(m.devices, addr);
    k < |m.devices| ==> m.devices[k].kind != Rom
  }

  /** The value of rs1 that a CSR instruction sees, after rd has been written. */
  function SourceSeen(m: Machine, rd: reg, rs1: reg, csr: u32): u32
    requires Valid(m)
  {
    if rd == rs1 && rd != 0 then Get(m.csr, csr) else m.regs[rs1]
  }

  /** The byte whose top bit is the sign of a value that is loaded. */
  predicate Negative(mem: seq<u8>, off: nat, half: bool) {
    var top := off + NarrowSize(half) - 1;
    top < |mem| && mem[top] >= 0x80
  }

  /**
   What a byte or halfword load has to find: from the CLINT, nothing to extend a sign into;
   from another device, a whole word whose upper bytes already are the extension.
   */
  predicate ExtensionStored(dev: Device, off: nat, half: bool, signed: bool, rd: reg) {
    if dev.kind == Clint then rd == 0 || !signed || !Negative(dev.mem, off, half)
    else
      && off + 4 <= |dev.mem|
      && (rd == 0 || forall j | off + NarrowSize(half) <= j < off + 4 ::
            dev.mem[j] == if signed && Negative(dev.mem, off, half) then 0xff else 0)
  }

  predicate NarrowExact(m: Machine, addr: u32, half: bool, signed: bool, rd: reg) {
    && NotAnEnd(m, addr)
    && var k := F.Holder(m.devices, addr);
      k < |m.devices| && Aligned(addr, NarrowSize(half)) ==>
        ExtensionStored(m.devices[k], addr - m.devices[k].base, half, signed, rd)
  }

  predicate Exact(m: Machine, i: Instr)
    requires Valid(m) && Representable(i)
  {
    match i
    case Lui(_, _) => true
    case Auipc(_, _) => true
    case Ecall => true
    case Jal(rd, offset) => Wrap32(m.pc + offset) % 4 == 0 || LinkUnchanged(m, rd)
    case Jalr(rd, rs1, imm) =>
      var t := Wrap32(m.regs[rs1] + imm);
      t % 4 == 0 || (t % 4 != 1 && LinkUnchanged(m, rd))
    case Branch(c, rs1, rs2, offset) =>
      (c == Lt || c == Ge) ==> DifferenceFits(m.regs[rs1], m.regs[rs2]) || offset == 4
    case Lw(_, rs1, imm) => NotAnEnd(m, Wrap32(m.regs[rs1] + imm))
    case LoadNarrow(half, signed, rd, rs1, imm) => NarrowExact(m, Wrap32(m.regs[rs1] + imm), half, signed, rd)
    case StoreTo(_, rs1, _, imm) =>
      NotAnEnd(m, Wrap32(m.regs[rs1] + imm)) && NotRom(m, Wrap32(m.regs[rs1] + imm))
    case OpImm(op, rd, rs1, imm) => op == Slt ==> DifferenceFits(m.regs[rs1], Wrap32(imm)) || rd == 0
    case Op(op, rd, rs1, rs2) =>
      && (op == Slt ==> DifferenceFits(m.regs[rs1], m.regs[rs2]) || rd == 0)
      && (IsShift(op) ==> m.regs[rs2] < 0x20)
    case CsrAccess(op, rd, rs1, csr) =>
      var value, source := Get(m.csr, csr), m.regs[rs1];
      match op
      case Swap => rd == 0 || rd != rs1 || value == source
      case SetBits => rs1 == 0 || rd != rs1 || Or32(source, value) == value
      case ClearBits =>
        || rs1 == 0 || value == 0
        || if rd != rs1 && source == 0 then value == 1 else And32(ALL_ONES - source, value) == 0
  }

  // ----- arithmetic -----

  lemma LeftShiftAgrees(a: u32, b: u32)
    requires b < 0x20
    ensures Execute(a, b, SLL) == Some(Compute(Sll, a, b))
  {
    hide Wrap32, Shl, Pow2, ShiftRight, Xor32, Or32, And32;
    ShlIsProduct(a, b);
  }

  lemma RightShiftAgrees(a: u32, b: u32)
    requires b < 0x20
    ensures Execute(a, b, SRL) == Some(Compute(Srl, a, b))
  {
    hide ShiftRight, Pow2;
    ShiftRightIsQuotient(a, b);
  }

  lemma ArithmeticShiftAgrees(a: u32, b: u32)
    requires b < 0x20
    ensures Execute(a, b, SRA) == Some(Compute(Sra, a, b))
  {
    hide Xor32, Wrap32, Execute, Signed32;
    SraIsFloorDivision(a, b);
    SignedUnique(Execute(a, b, SRA).value);
  }

  lemma SignedUnique(x: u32)
    ensures Wrap32(Signed32(x)) == x
  {
  }

  /** The ALU code that the control unit selects for an operation. */
  function AluCode(op: AluOp): nat {
    match op
    case Add => ADD case Sub => SUB case Sll => SLL case Slt => SLT case Sltu => SLTU
    case Xor => XOR case Srl => SRL case Sra => SRA case Or => OR case And => AND
  }

  lemma ControlSelects(op: AluOp, funct7: nat)
    requires funct7 == OpFunct7(op) || (op != Sub && !IsShift(op))
    ensures funct7 == OpFunct7(op) ==> AluOperation(RTYPE, funct7, OpFunct3(op)) == AluCode(op)
    ensures op != Sub ==> AluOperation(ITYPE, funct7, OpFunct3(op)) == AluCode(op)
  {
  }

  /** The recursion from the lowest bit up, split at the highest bit. */
  lemma {:induction false} BitwiseTop(a: nat, b: nat, k: nat)
    requires k > 0
    ensures var p := Pow2(k - 1);
      var x, y := a / p % 2, b / p % 2;
      && Words.Xor(a, b, k) == Words.Xor(a, b, k - 1) + (if x != y then p else 0)
      && Words.Or(a, b, k) == Words.Or(a, b, k - 1) + (if x == 1 || y == 1 then p else 0)
      && Words.And(a, b, k) == Words.And(a, b, k - 1) + (if x == 1 && y == 1 then p else 0)
    decreases k
  {
    if k > 1 {
      BitwiseTop(a / 2, b / 2, k - 1);
      QuotientTwice(a, Pow2(k - 2));
      QuotientTwice(b, Pow2(k - 2));
    }
  }

  /** The bit-by-bit reference operations are the machine's. */
  lemma {:induction false} BitwiseAgrees(a: nat, b: nat, k: nat)
    ensures Bitwise(Xor, a, b, k) == Words.Xor(a, b, k)
    ensures Bitwise(Or, a, b, k) == Words.Or(a, b, k)
    ensures Bitwise(And, a, b, k) == Words.And(a, b, k)
    decreases k
  {
    hide Bitwise, Words.Xor, Words.Or, Words.And, Pow2, OneBit;
    if k > 0 {
      BitwiseTop(a, b, k);
      BitwiseAgrees(a, b, k - 1);
      BitwiseStep(a, b, k);
    } else {
      NoBits(a, b);
    }
  }

  lemma NoBits(a: nat, b: nat)
    ensures Bitwise(Xor, a, b, 0) == Bitwise(Or, a, b, 0) == Bitwise(And, a, b, 0) == 0
    ensures Words.Xor(a, b, 0) == Words.Or(a, b, 0) == Words.And(a, b, 0) == 0
  {
  }

  lemma BitwiseStep(a: nat, b: nat, k: nat)
    requires k > 0
    ensures var p := Pow2(k - 1);
      var x, y := a / p % 2, b / p % 2;
      && Bitwise(Xor, a, b, k) == Bitwise(Xor, a, b, k - 1) + (if x != y then p else 0)
      && Bitwise(Or, a, b, k) == Bitwise(Or, a, b, k - 1) + (if x == 1 || y == 1 then p else 0)
      && Bitwise(And, a, b, k) == Bitwise(And, a, b, k - 1) + (if x == 1 && y == 1 then p else 0)
  {
    hide Pow2;
  }

  lemma Bitwise32Agrees(a: u32, b: u32)
    ensures Bitwise32(Xor, a, b) == Xor32(a, b) && Bitwise32(Or, a, b) == Or32(a, b)
    ensures Bitwise32(And, a, b) == And32(a, b)
  {
    hide Bitwise, Words.Xor, Words.Or, Words.And, Pow2;
    BitwiseAgrees(a, b, 32);
  }

  /** The ALU's bitwise operations, bit by bit. */
  lemma AluBits(a: u32, b: u32, i: nat)
    requires i < 32
    ensures Execute(a, b, XOR).Some? && Execute(a, b, OR).Some? && Execute(a, b, AND).Some?
    ensures var x, y, p := a / Pow2(i) % 2, b / Pow2(i) % 2, Pow2(i);
      && Execute(a, b, XOR).value / p % 2 == (x + y) % 2
      && Execute(a, b, OR).value / p % 2 == (if x + y > 0 then 1 else 0)
      && Execute(a, b, AND).value / p % 2 == x * y
  {
    hide Pow2, Bit, Words.Xor, Words.Or, Words.And;
    BitXor(a, b, 32, i);
    BitOr(a, b, 32, i);
    BitAnd(a, b, 32, i);
    BitIsQuotient(a, i);
    BitIsQuotient(b, i);
    BitIsQuotient(Xor32(a, b), i);
    BitIsQuotient(Or32(a, b), i);
    BitIsQuotient(And32(a, b), i);
  }

  /** The ALU computes the reference value exactly when a comparison's difference fits; large shifts are undefined. */
  lemma AluExact(op: AluOp, a: u32, b: u32)
    ensures op == Slt ==> (Execute(a, b, SLT) == Some(Compute(Slt, a, b)) <==> DifferenceFits(a, b))
    ensures op == Slt ==> Execute(a, b, SLT).Some?
    ensures IsShift(op) ==> (Execute(a, b, AluCode(op)).Some? <==> b < 0x20)
    ensures op != Slt && (IsShift(op) ==> b < 0x20) ==> Execute(a, b, AluCode(op)) == Some(Compute(op, a, b))
  {
    hide Xor32, Or32, And32, Wrap32, Shl, ShiftRight, Pow2, Bitwise32;
    SignedComparisonsExact(a, b);
    Bitwise32Agrees(a, b);
    if IsShift(op) && b < 0x20 {
      LeftShiftAgrees(a, b);
      RightShiftAgrees(a, b);
      ArithmeticShiftAgrees(a, b);
    }
  }

  /** A computed value and the reference value lead to matching outcomes exactly when they are equal or discarded. */
  lemma ProduceMatches(m: Machine, h: Hart, rd: reg, value: u32, expected: u32)
    requires Ready(m) && Stands(m, h)
    ensures Matches(Produce(m, rd, Some(value)), h, Following(h, rd, expected)) <==> value == expected || rd == 0
  {
    hide Valid, SameMemory, SameCsrs, F.WellLaidOut;
    ValidShape(m);
    FourMore(m.pc);
    var o := Produce(m, rd, Some(value));
    var after := Following(h, rd, expected).hart;
    assert o.machine.pc == after.pc;
    if rd == 0 {
      assert m.regs[0 := 0] == m.regs;
    } else {
      assert m.regs[rd := value][rd] == value && h.x[rd := expected][rd] == expected;
    }
  }

  // ----- one lemma per kind of instruction -----

  lemma UpperExact(m: Machine, h: Hart, i: Instr)
    requires Ready(m) && Stands(m, h) && Representable(i) && (i.Lui? || i.Auipc?)
    ensures Matches(ExecuteWord(m, Encode(i)), h, Effects(i, h)) <==> Exact(m, i)
  {
    hide OpcodeOf, RdOf, Rs1Of, Rs2Of, Funct3Of, Funct7Of, CsrOf, GetImmediate, Pack, AluOperation, Wrap32;
    hide Produce, Following, Valid, Matches, Stands;
    ValidShape(m);
    StandsRegs(m, h);
    var opcode := if i.Lui? then LUI else AUIPC;
    PackFields(opcode, i.rd, i.imm20 % 8, i.imm20 / 8 % 0x20, i.imm20 / 0x100);
    ImmediateU(opcode, i.rd, i.imm20);
    var value := if i.Lui? then 0x1000 * i.imm20 else Wrap32(m.pc + 0x1000 * i.imm20);
    ProduceMatches(m, h, i.rd, value, value);
  }

  lemma StandsRegs(m: Machine, h: Hart)
    requires Stands(m, h)
    ensures m.regs == h.x && m.pc == h.pc
  {
  }

  lemma OpExact(m: Machine, h: Hart, i: Instr)
    requires Ready(m) && Stands(m, h) && Representable(i) && i.Op?
    ensures Matches(ExecuteWord(m, Encode(i)), h, Effects(i, h)) <==> Exact(m, i)
  {
    hide OpcodeOf, RdOf, Rs1Of, Rs2Of, Funct3Of, Funct7Of, CsrOf, GetImmediate, Pack, AluOperation, Wrap32;
    hide Produce, Following, Valid, Stands, Execute, Compute, DifferenceFits;
    ValidShape(m);
    StandsRegs(m, h);
    OpDecoded(m, i);
    var a, b := m.regs[i.rs1], m.regs[i.rs2];
    AluExact(i.op, a, b);
    ProduceUndefined(m, i.rd);
    if Execute(a, b, AluCode(i.op)).Some? {
      ProduceMatches(m, h, i.rd, Execute(a, b, AluCode(i.op)).value, Compute(i.op, a, b));
    }
  }

  lemma ProduceUndefined(m: Machine, rd: reg)
    requires |m.regs| == 32
    ensures Produce(m, rd, None) == Undefined
  {
  }

  lemma OpDecoded(m: Machine, i: Instr)
    requires Valid(m) && Representable(i) && i.Op?
    ensures ExecuteWord(m, Encode(i)) == Produce(m, i.rd, Execute(m.regs[i.rs1], m.regs[i.rs2], AluCode(i.op)))
  {
    hide OpcodeOf, RdOf, Rs1Of, Rs2Of, Funct3Of, Funct7Of, CsrOf, GetImmediate, Pack, AluOperation, Execute, Produce;
    var f3, f7 := OpFunct3(i.op), OpFunct7(i.op);
    PackFields(RTYPE, i.rd, f3, i.rs1, i.rs2 + 0x20 * f7);
    ControlSelects(i.op, f7);
  }

  lemma OpImmDecoded(m: Machine, i: Instr)
    requires Valid(m) && Representable(i) && i.OpImm?
    ensures ExecuteWord(m, Encode(i)) == Produce(m, i.rd, Execute(m.regs[i.rs1], Wrap32(i.imm), AluCode(i.op)))
  {
    hide OpcodeOf, RdOf, Rs1Of, Rs2Of, Funct3Of, Funct7Of, CsrOf, GetImmediate, Pack, AluOperation, Execute;
    hide Produce, Wrap32;
    var f3, f7 := OpFunct3(i.op), OpFunct7(i.op);
    if IsShift(i.op) {
      PackFields(ITYPE, i.rd, f3, i.rs1, i.imm + 0x20 * f7);
      ImmediateShift(i.rd, f3, i.rs1, i.imm, f7);
      ControlSelects(i.op, f7);
      WrapSmall(i.imm);
    } else {
      PackFields(ITYPE, i.rd, f3, i.rs1, i.imm % 0x1000);
      ImmediateI(ITYPE, i.rd, f3, i.rs1, i.imm);
      ControlSelects(i.op, i.imm % 0x1000 / 0x20);
    }
  }

  lemma OpImmExact(m: Machine, h: Hart, i: Instr)
    requires Ready(m) && Stands(m, h) && Representable(i) && i.OpImm?
    ensures Matches(ExecuteWord(m, Encode(i)), h, Effects(i, h)) <==> Exact(m, i)
  {
    hide OpcodeOf, RdOf, Rs1Of, Rs2Of, Funct3Of, Funct7Of, CsrOf, GetImmediate, Pack, AluOperation, Wrap32;
    hide Produce, Following, Valid, Stands, Execute, Compute, DifferenceFits, Matches, ExecuteWord, Encode;
    ValidShape(m);
    StandsRegs(m, h);
    OpImmDecoded(m, i);
    var a, b := m.regs[i.rs1], Wrap32(i.imm);
    assert IsShift(i.op) ==> b < 0x20 by { if IsShift(i.op) { WrapSmall(i.imm); } }
    AluExact(i.op, a, b);
    ProduceMatches(m, h, i.rd, Execute(a, b, AluCode(i.op)).value, Compute(i.op, a, b));
  }

  /** A jump that writes a link register. */
  lemma JumpMatches(m: Machine, h: Hart, rd: reg, next: u32, target: u32)
    requires Ready(m) && Stands(m, h)
    ensures var o := Advance(WriteReg(m, rd, Wrap32(m.pc + 4)), next);
      var e := Goto(h, Isa.Written(h, rd, Wrap32(h.pc + 4)), target);
      Matches(o, h, e) <==>
        if target % 4 == 0 then next == target else next % 4 != 0 && LinkUnchanged(m, rd)
  {
    hide Valid, SameMemory, SameCsrs, F.WellLaidOut, Wrap32;
    ValidShape(m);
    var link := Wrap32(m.pc + 4);
    if rd == 0 {
      assert m.regs[0 := 0] == m.regs;
    } else {
      assert m.regs[rd := link][rd] == link;
      assert m.regs[rd] == link ==> m.regs[rd := link] == m.regs;
    }
  }

  lemma JalExact(m: Machine, h: Hart, i: Instr)
    requires Ready(m) && Stands(m, h) && Representable(i) && i.Jal?
    ensures Matches(ExecuteWord(m, Encode(i)), h, Effects(i, h)) <==> Exact(m, i)
  {
    hide OpcodeOf, RdOf, Rs1Of, Rs2Of, Funct3Of, Funct7Of, CsrOf, GetImmediate, Pack, AluOperation;
    hide Valid, Stands, Advance, WriteReg, Goto, Isa.Written, LinkUnchanged, Matches, Wrap32;
    ValidShape(m);
    StandsRegs(m, h);
    PackFields(JAL, i.rd, i.offset / 0x1000 % 8, i.offset / 0x8000 % 0x20,
               i.offset / 0x800 % 2 + 2 * (i.offset / 2 % 0x400) + 0x800 * (i.offset / 0x10_0000 % 2));
    ImmediateJ(i.rd, i.offset);
    WrapSum(i.offset, m.pc);
    JumpMatches(m, h, i.rd, Wrap32(m.pc + i.offset), Wrap32(m.pc + i.offset));
  }

  lemma JalrExact(m: Machine, h: Hart, i: Instr)
    requires Ready(m) && Stands(m, h) && Representable(i) && i.Jalr?
    ensures Matches(ExecuteWord(m, Encode(i)), h, Effects(i, h)) <==> Exact(m, i)
  {
    hide OpcodeOf, RdOf, Rs1Of, Rs2Of, Funct3Of, Funct7Of, CsrOf, GetImmediate, Pack, AluOperation;
    hide Valid, Stands, Advance, WriteReg, Goto, Isa.Written, LinkUnchanged, Matches, Wrap32;
    ValidShape(m);
    StandsRegs(m, h);
    PackFields(JALR, i.rd, 0, i.rs1, i.imm % 0x1000);
    ImmediateI(JALR, i.rd, 0, i.rs1, i.imm);
    WrapSum(i.imm, m.regs[i.rs1]);
    var t := Wrap32(m.regs[i.rs1] + i.imm);
    EvenPart(t);
    JumpMatches(m, h, i.rd, t, t - t % 2);
  }

  lemma EvenPart(t: u32)
    ensures 0 <= t % 4 < 4 && t - t % 2 >= 0
    ensures (t - t % 2) % 4 == 0 <==> t % 4 == 0 || t % 4 == 1
    ensures t % 4 == 0 ==> t - t % 2 == t
    ensures t % 4 == 1 ==> t - t % 2 != t
  {
    var q, r := t / 4, t % 4;
    var low := if r < 2 then 0 else 2;
    DivUnique(t, 2, 2 * q + low / 2, r - low);
    DivUnique(t - t % 2, 4, q, low);
  }

  // ----- branches -----

  lemma ConditionExact(c: Condition, a: u32, b: u32)
    ensures (BranchTaken(a, b, ConditionFunct3(c)) <==> Isa.Holds(c, a, b))
      <==> ((c == Lt || c == Ge) ==> DifferenceFits(a, b))
  {
    hide Wrap32;
    SignedComparisonsExact(a, b);
    DifferenceZero(a, b);
  }

  lemma DifferenceZero(a: u32, b: u32)
    ensures Wrap32(a - b) == 0 <==> a == b
  {
  }

  lemma GotoMatches(m: Machine, h: Hart, next: u32, target: u32)
    requires Ready(m) && Stands(m, h)
    ensures Matches(Advance(m, next), h, Goto(h, h, target))
      <==> if target % 4 == 0 then next == target else next % 4 != 0
  {
  }

  lemma BranchDecoded(m: Machine, i: Instr)
    requires Valid(m) && m.nextPc == m.pc && Representable(i) && i.Branch?
    ensures ExecuteWord(m, Encode(i)) == Advance(m, Wrap32(m.pc
        + if BranchTaken(m.regs[i.rs1], m.regs[i.rs2], ConditionFunct3(i.cond)) then i.offset else 4))
  {
    hide OpcodeOf, RdOf, Rs1Of, Rs2Of, Funct3Of, Funct7Of, CsrOf, GetImmediate, Pack, AluOperation, Wrap32;
    hide Advance, BranchTaken;
    var low := i.offset / 0x800 % 2 + 2 * (i.offset / 2 % 0x10);
    var top := i.rs2 + 0x20 * (i.offset / 0x20 % 0x40 + 0x40 * (i.offset / 0x1000 % 2));
    PackFields(BTYPE, low, ConditionFunct3(i.cond), i.rs1, top);
    ImmediateB(ConditionFunct3(i.cond), i.rs1, i.rs2, i.offset);
    WrapSum(i.offset, m.pc);
  }

  lemma BranchTargets(pc: u32, offset: int)
    requires pc % 4 == 0 && -0x1000 <= offset < 0x1000
    ensures Wrap32(pc + offset) == Wrap32(pc + 4) <==> offset == 4
    ensures Wrap32(pc + 4) % 4 == 0
  {
  }

  lemma BranchExact(m: Machine, h: Hart, i: Instr)
    requires Ready(m) && Stands(m, h) && Representable(i) && i.Branch?
    ensures Matches(ExecuteWord(m, Encode(i)), h, Effects(i, h)) <==> Exact(m, i)
  {
    hide Valid, Stands, Advance, Goto, Matches, Wrap32, BranchTaken, Isa.Holds, DifferenceFits, ExecuteWord, Encode;
    ValidShape(m);
    StandsRegs(m, h);
    BranchDecoded(m, i);
    var a, b := m.regs[i.rs1], m.regs[i.rs2];
    ConditionExact(i.cond, a, b);
    BranchTargets(m.pc, i.offset);
    var next := Wrap32(m.pc + if BranchTaken(a, b, ConditionFunct3(i.cond)) then i.offset else 4);
    var target := Wrap32(m.pc + if Isa.Holds(i.cond, a, b) then i.offset else 4);
    GotoMatches(m, h, next, target);
  }

  // ----- memory -----

  lemma HeldOnce(devices: seq<Device>, addr: int, k: nat, j: nat)
    requires F.WellLaidOut(devices) && k < |devices| && j < |devices| && j != k && F.Holds(devices[k], addr)
    ensures !F.Holds(devices[j], addr)
  {
  }

  lemma HolderUnique(devices: seq<Device>, addr: int, k: nat)
    requires F.WellLaidOut(devices) && k < |devices| && F.Holds(devices[k], addr)
    ensures F.Holder(devices, addr) == k
  {
  }

  lemma EndApart(devices: seq<Device>, addr: u32, k: nat, j: nat)
    requires F.WellLaidOut(devices) && k < |devices| && j < |devices| && j != k
    requires addr == devices[k].base + |devices[k].mem|
    ensures !F.Holds(devices[j], addr) && !devices[j].Selects(addr)
  {
  }

  /** At the end address of a device the bus finds that device, and no device holds the address. */
  lemma EndFound(devices: seq<Device>, addr: u32, k: nat)
    requires F.WellLaidOut(devices) && k < |devices| && addr == devices[k].base + |devices[k].mem|
    ensures Find(devices, addr) == k && F.Holder(devices, addr) == |devices|
    ensures devices[k].Offset(addr) == |devices[k].mem| && addr % 4 == 0
  {
    hide Find, F.Holder;
    F.SelectsExactly(devices[k], addr);
    assert F.WordSized(devices[k]);
    assert devices[k].Selects(addr) && !F.Holds(devices[k], addr);
    forall j: nat | j < |devices| && j != k ensures !F.Holds(devices[j], addr) && !devices[j].Selects(addr) {
      EndApart(devices, addr, k, j);
    }
  }

  lemma LoadAtEnd(devices: seq<Device>, addr: u32)
    requires F.WellLaidOut(devices) && !F.NoEnd(devices, addr)
    ensures BusRead(devices, addr, 4) == Wild
  {
    hide Find, F.WellLaidOut, F.Holder, DeviceRead, Device.Offset, Device.Selects;
    var k :| 0 <= k < |devices| && addr == devices[k].base + |devices[k].mem|;
    EndFound(devices, addr, k);
    DeviceLoadAtEnd(devices[k], addr, 4);
  }

  /** The word read from a held aligned address is the word of the flat memory. */
  lemma WordOfMemory(devices: seq<Device>, memory: map<int, Cell>, addr: u32, k: nat)
    requires F.WellLaidOut(devices) && SameMemory(devices, memory)
    requires k < |devices| && F.Holds(devices[k], addr) && addr % 4 == 0
    ensures WordMapped(memory, addr)
    ensures var off := addr - devices[k].base;
      off + 4 <= |devices[k].mem| && WordAt(memory, addr) == devices[k].mem[off..off + 4]
  {
    F.WordInside(devices[k], addr, 4);
    HolderUnique(devices, addr, k);
    HolderUnique(devices, addr + 1, k);
    HolderUnique(devices, addr + 2, k);
    HolderUnique(devices, addr + 3, k);
  }

  lemma LoadOutcome(devices: seq<Device>, memory: map<int, Cell>, addr: u32)
    requires F.WellLaidOut(devices) && SameMemory(devices, memory) && F.NoEnd(devices, addr)
    ensures BusRead(devices, addr, 4) ==
      if addr !in memory then Fault(LOAD_ACCESS_FAULT)
      else if addr % 4 != 0 then Fault(LOAD_ADDRESS_MISALIGNED)
      else BusRead(devices, addr, 4)
    ensures addr in memory && addr % 4 == 0 ==>
      && WordMapped(memory, addr) && BusRead(devices, addr, 4).Value?
      && BusRead(devices, addr, 4).value == LE.Value(WordAt(memory, addr))
  {
    hide Find, F.Holder, F.WellLaidOut, LE.Value;
    F.FindIsHolder(devices, addr);
    var k := F.Holder(devices, addr);
    assert addr in memory <==> k < |devices|;
    if k < |devices| && addr % 4 == 0 {
      WordOfMemory(devices, memory, addr, k);
      LaidOutWord(devices, k);
      F.SelectsExactly(devices[k], addr);
    }
  }

  lemma LaidOutWord(devices: seq<Device>, k: nat)
    requires F.WellLaidOut(devices) && k < |devices|
    ensures F.WordSized(devices[k])
  {
  }

  lemma LwDecoded(m: Machine, i: Instr)
    requires Valid(m) && Representable(i) && i.Lw?
    ensures ExecuteWord(m, Encode(i)) ==
      match BusRead(m.devices, Wrap32(m.regs[i.rs1] + i.imm), 4)
      case Value(v) => Produce(m, i.rd, Some(v))
      case Fault(code) => Done(m, code)
      case Wild => Undefined
  {
    hide OpcodeOf, RdOf, Rs1Of, Rs2Of, Funct3Of, Funct7Of, CsrOf, GetImmediate, Pack, AluOperation, Wrap32;
    hide Produce, BusRead;
    PackFields(LOAD, i.rd, 2, i.rs1, i.imm % 0x1000);
    ImmediateI(LOAD, i.rd, 2, i.rs1, i.imm);
    WrapSum(i.imm, m.regs[i.rs1]);
  }

  lemma FaultMatches(m: Machine, h: Hart, code: u32, expected: u32)
    requires Stands(m, h)
    ensures Matches(Done(m, code), h, Exception(expected)) <==> code == expected
  {
  }

  lemma StandsMemory(m: Machine, h: Hart)
    requires Stands(m, h)
    ensures SameMemory(m.devices, h.memory)
  {
  }

  lemma LwExact(m: Machine, h: Hart, i: Instr)
    requires Ready(m) && Stands(m, h) && Representable(i) && i.Lw?
    ensures Matches(ExecuteWord(m, Encode(i)), h, Effects(i, h)) <==> Exact(m, i)
  {
    hide Valid, Stands, Wrap32, ExecuteWord, Encode, BusRead, SameMemory, F.NoEnd, F.WellLaidOut;
    hide Produce, Following, LE.Value, WordMapped;
    ValidShape(m);
    StandsRegs(m, h);
    StandsMemory(m, h);
    LwDecoded(m, i);
    var addr := Wrap32(m.regs[i.rs1] + i.imm);
    if F.NoEnd(m.devices, addr) {
      LoadOutcome(m.devices, h.memory, addr);
      if addr !in h.memory {
        FaultMatches(m, h, LOAD_ACCESS_FAULT, LOAD_ACCESS_FAULT);
      } else if addr % 4 != 0 {
        FaultMatches(m, h, LOAD_ADDRESS_MISALIGNED, LOAD_ADDRESS_MISALIGNED);
      } else {
        var v := BusRead(m.devices, addr, 4).value;
        ProduceMatches(m, h, i.rd, v, v);
      }
    } else {
      LoadAtEnd(m.devices, addr);
    }
  }

  // ----- byte and halfword loads -----

  lemma NarrowLoadDecoded(m: Machine, i: Instr)
    requires Valid(m) && Representable(i) && i.LoadNarrow?
    ensures ExecuteWord(m, Encode(i)) ==
      match BusRead(m.devices, Wrap32(m.regs[i.rs1] + i.imm), NarrowSize(i.half))
      case Value(v) => Produce(m, i.rd, Some(v))
      case Fault(code) => Done(m, code)
      case Wild => Undefined
  {
    hide OpcodeOf, RdOf, Rs1Of, Rs2Of, Funct3Of, Funct7Of, CsrOf, GetImmediate, Pack, AluOperation, Wrap32;
    hide Produce, BusRead;
    var funct3 := NarrowFunct3(i.half, i.signed);
    PackFields(LOAD, i.rd, funct3, i.rs1, i.imm % 0x1000);
    ImmediateI(LOAD, i.rd, funct3, i.rs1, i.imm);
    WrapSum(i.imm, m.regs[i.rs1]);
  }

  /** The bytes that a reference load reads are those in the device that holds the address. */
  lemma NarrowOfMemory(devices: seq<Device>, memory: map<int, Cell>, addr: u32, k: nat, half: bool)
    requires F.WellLaidOut(devices) && SameMemory(devices, memory)
    requires k < |devices| && F.Holds(devices[k], addr) && Aligned(addr, NarrowSize(half))
    ensures var off, mem := addr - devices[k].base, devices[k].mem;
      && off + NarrowSize(half) <= |mem|
      && NarrowMapped(memory, addr, half) && NarrowAt(memory, addr, half) == LE.Value(mem[off..off + NarrowSize(half)])
  {
    hide F.WellLaidOut, F.Holder, LE.Value, SameMemory, Aligned;
    LaidOutWord(devices, k);
    F.WordInside(devices[k], addr, NarrowSize(half));
    var off, mem := addr - devices[k].base, devices[k].mem;
    HolderUnique(devices, addr, k);
    CellOfMemory(devices, memory, addr);
    if half {
      HolderUnique(devices, addr + 1, k);
      CellOfMemory(devices, memory, addr + 1);
      LE.ValueOf2(mem[off..off + 2]);
    } else {
      LE.ValueOf1(mem[off..off + 1]);
    }
  }

  lemma CellOfMemory(devices: seq<Device>, memory: map<int, Cell>, addr: int)
    requires SameMemory(devices, memory)
    ensures addr in memory <==> CellAt(devices, addr).Some?
    ensures addr in memory ==> CellAt(devices, addr) == Some(memory[addr])
  {
  }

  lemma ByteExtension(b0: u8, b1: u8, b2: u8, b3: u8, signed: bool)
    ensures var f := if signed && b0 >= 0x80 then 0xff else 0;
      b0 + 0x100 * (b1 as int) + 0x1_0000 * (b2 as int) + 0x100_0000 * (b3 as int) == Extended(b0, false, signed)
      <==> b1 == f && b2 == f && b3 == f
  {
  }

  lemma HalfExtension(b0: u8, b1: u8, b2: u8, b3: u8, signed: bool)
    ensures b0 + 0x100 * (b1 as int) < 0x1_0000
    ensures var f := if signed && b1 >= 0x80 then 0xff else 0;
      var v := b0 + 0x100 * (b1 as int);
      v + 0x1_0000 * (b2 as int) + 0x100_0000 * (b3 as int) == Extended(v, true, signed) <==> b2 == f && b3 == f
  {
  }

  /** The four bytes make up the extended value exactly when the upper ones are the extension. */
  lemma ExtensionBytes(b: seq<u8>, half: bool, signed: bool)
    requires |b| == 4
    ensures LE.Value(b[..NarrowSize(half)]) < 0x1_0000
    ensures LE.Value(b) == Extended(LE.Value(b[..NarrowSize(half)]), half, signed)
      <==> forall j | NarrowSize(half) <= j < 4 :: b[j] == if signed && Negative(b, 0, half) then 0xff else 0
  {
    hide LE.Value, Extended;
    LE.ValueOf4(b);
    if half {
      LE.ValueOf2(b[..2]);
      HalfExtension(b[0], b[1], b[2], b[3], signed);
    } else {
      LE.ValueOf1(b[..1]);
      ByteExtension(b[0], b[1], b[2], b[3], signed);
    }
  }

  lemma ExtensionNone(b: seq<u8>, half: bool, signed: bool)
    requires |b| == NarrowSize(half)
    ensures LE.Value(b) < 0x1_0000
    ensures LE.Value(b) == Extended(LE.Value(b), half, signed) <==> !signed || !Negative(b, 0, half)
  {
    hide LE.Value;
    if half {
      LE.ValueOf2(b);
    } else {
      LE.ValueOf1(b);
    }
  }

  /** An aligned load from a device. */
  lemma NarrowHeld(m: Machine, h: Hart, i: Instr, addr: u32, k: nat)
    requires Ready(m) && Stands(m, h) && i.LoadNarrow? && addr == Wrap32(m.regs[i.rs1] + i.imm)
    requires k < |m.devices| && F.Holds(m.devices[k], addr) && Aligned(addr, NarrowSize(i.half))
    ensures addr >= m.devices[k].base && NarrowMapped(h.memory, addr, i.half)
    ensures var e := Extended(NarrowAt(h.memory, addr, i.half), i.half, i.signed);
      var r := BusRead(m.devices, addr, NarrowSize(i.half));
      (r.Value? && (r.value == e || i.rd == 0))
      <==> ExtensionStored(m.devices[k], addr - m.devices[k].base, i.half, i.signed, i.rd)
  {
    hide Stands, Valid, F.WellLaidOut, BusRead, LE.Value, SameMemory, Aligned, Wrap32, Extended, Negative, NarrowAt;
    hide NarrowMapped;
    var half, mem, off := i.half, m.devices[k].mem, addr - m.devices[k].base;
    var n := NarrowSize(half);
    StandsMemory(m, h);
    NarrowOfMemory(m.devices, h.memory, addr, k, half);
    F.NarrowRead(m.devices, addr, n, k);
    ExtensionNone(mem[off..off + n], half, i.signed);
    NegativeSlice(mem, off, n, half);
    if m.devices[k].kind != Clint && off + 4 <= |mem| {
      var b := mem[off..off + 4];
      ExtensionBytes(b, half, i.signed);
      assert b[..n] == mem[off..off + n];
      NegativeSlice(mem, off, 4, half);
      UpperBytes(mem, b, off, n, if i.signed && Negative(mem, off, half) then 0xff else 0);
    }
  }

  lemma UpperBytes(mem: seq<u8>, b: seq<u8>, off: nat, n: nat, x: u8)
    requires off + 4 <= |mem| && b == mem[off..off + 4]
    ensures (forall j | n <= j < 4 :: b[j] == x) <==> forall j | off + n <= j < off + 4 :: mem[j] == x
  {
    if forall j | n <= j < 4 :: b[j] == x {
      forall j | off + n <= j < off + 4 ensures mem[j] == x {
        assert b[j - off] == x;
      }
    }
  }

  lemma NegativeSlice(mem: seq<u8>, off: nat, n: nat, half: bool)
    requires NarrowSize(half) <= n && off + n <= |mem|
    ensures Negative(mem[off..off + n], 0, half) == Negative(mem, off, half)
  {
  }

  /** At an end address a load of any size goes astray. */
  lemma NarrowAtEnd(devices: seq<Device>, addr: u32, n: nat)
    requires F.WellLaidOut(devices) && !F.NoEnd(devices, addr) && (n == 1 || n == 2)
    ensures BusRead(devices, addr, n) == Wild
  {
    hide Find, F.WellLaidOut, F.Holder, DeviceRead, Device.Offset, Device.Selects;
    var k :| 0 <= k < |devices| && addr == devices[k].base + |devices[k].mem|;
    EndFound(devices, addr, k);
    DeviceLoadAtEnd(devices[k], addr, n);
  }

  lemma DeviceLoadAtEnd(dev: Device, addr: u32, n: nat)
    requires dev.Offset(addr) == |dev.mem| && addr % 4 == 0 && ValidSize(n)
    ensures DeviceRead(dev, addr, n) == Wild
  {
    hide Device.Offset, LE.Value, LE.Pow256, Device.End, Device.Selects, Aligned;
    EveryAlignment(addr, n);
  }

  lemma EveryAlignment(addr: u32, n: nat)
    requires addr % 4 == 0
    ensures Aligned(addr, n)
  {
    DivUnique(addr, 2, 2 * (addr / 4), 0);
  }

  lemma NarrowRefused(devices: seq<Device>, addr: u32, n: nat)
    requires F.WellLaidOut(devices) && F.NoEnd(devices, addr)
    ensures F.Holder(devices, addr) == |devices| ==> BusRead(devices, addr, n) == Fault(LOAD_ACCESS_FAULT)
    ensures F.Holder(devices, addr) < |devices| && !Aligned(addr, n) ==>
      BusRead(devices, addr, n) == Fault(LOAD_ADDRESS_MISALIGNED)
  {
    hide Find, F.Holder, F.WellLaidOut;
    F.FindIsHolder(devices, addr);
  }

  lemma NarrowLoadExact(m: Machine, h: Hart, i: Instr)
    requires Ready(m) && Stands(m, h) && Representable(i) && i.LoadNarrow?
    ensures Matches(ExecuteWord(m, Encode(i)), h, Effects(i, h)) <==> Exact(m, i)
  {
    hide Valid, Stands, Wrap32, ExecuteWord, Encode, BusRead, SameMemory, F.NoEnd, F.WellLaidOut, F.Holder, F.Holds;
    hide Produce, Following, NarrowAt, Extended, ExtensionStored, NarrowMapped;
    ValidShape(m);
    StandsRegs(m, h);
    NarrowLoadDecoded(m, i);
    var addr, n := Wrap32(m.regs[i.rs1] + i.imm), NarrowSize(i.half);
    InMemory(m, h, addr);
    if !F.NoEnd(m.devices, addr) {
      NarrowAtEnd(m.devices, addr, n);
    } else {
      NarrowRefused(m.devices, addr, n);
      var k := F.Holder(m.devices, addr);
      if k == |m.devices| {
        FaultMatches(m, h, LOAD_ACCESS_FAULT, LOAD_ACCESS_FAULT);
      } else if !Aligned(addr, n) {
        FaultMatches(m, h, LOAD_ADDRESS_MISALIGNED, LOAD_ADDRESS_MISALIGNED);
      } else {
        NarrowHeld(m, h, i, addr, k);
        NarrowReadIsDefined(m.devices, addr, n, k);
        var read := BusRead(m.devices, addr, n);
        if read.Value? {
          ProduceMatches(m, h, i.rd, read.value, Extended(NarrowAt(h.memory, addr, i.half), i.half, i.signed));
        }
      }
    }
  }

  lemma NarrowReadIsDefined(devices: seq<Device>, addr: u32, n: nat, k: nat)
    requires F.WellLaidOut(devices) && k < |devices| && F.Holds(devices[k], addr)
    requires (n == 1 || n == 2) && Aligned(addr, n)
    ensures !BusRead(devices, addr, n).Fault?
  {
    hide BusRead, LE.Value;
    F.NarrowRead(devices, addr, n, k);
  }

  // ----- stores -----

  /** One device after the low bytes of a value were stored in it. */
  function Poked(devices: seq<Device>, k: nat, s: F.Store): seq<Device>
    requires k < |devices| && F.Holds(devices[k], s.addr) && s.addr + s.size <= devices[k].base + |devices[k].mem|
  {
    devices[k := devices[k].(mem := Poke(devices[k].mem, s.addr - devices[k].base, s.value, s.size))]
  }

  lemma CellStored(devices: seq<Device>, k: nat, s: F.Store, a: int)
    requires F.WellLaidOut(devices) && k < |devices| && F.Holds(devices[k], s.addr)
    requires s.addr + s.size <= devices[k].base + |devices[k].mem|
    ensures var c := CellAt(devices, a);
      CellAt(Poked(devices, k, s), a)
      == if c.Some? && s.addr <= a < s.addr + s.size then
           Some(Cell(LE.Bytes(s.value, s.size)[a - s.addr], c.value.writable))
         else c
  {
    hide F.Holder, F.WellLaidOut, Poke, LE.Bytes;
    F.ShapeKept(devices, Poked(devices, k, s));
    var j := F.Holder(devices, a);
    if j < |devices| {
      if j == k {
        F.PokeByte(devices[k].mem, s.addr - devices[k].base, s.value, s.size, a - devices[k].base);
      } else {
        HeldOnce(devices, a, j, k);
        F.OtherHolder(devices, s, a, k);
      }
    }
  }

  lemma MemoryStored(devices: seq<Device>, memory: map<int, Cell>, k: nat, s: F.Store)
    requires F.WellLaidOut(devices) && k < |devices| && F.Holds(devices[k], s.addr)
    requires s.addr + s.size <= devices[k].base + |devices[k].mem|
    requires SameMemory(devices, memory)
    ensures SameMemory(Poked(devices, k, s), Isa.Stored(memory, s.addr, s.value, s.size))
  {
    hide F.WellLaidOut, F.Holds, CellAt, Poked, LE.Bytes;
    forall a: int ensures var c := CellAt(devices, a);
      CellAt(Poked(devices, k, s), a)
      == if c.Some? && s.addr <= a < s.addr + s.size then
           Some(Cell(LE.Bytes(s.value, s.size)[a - s.addr], c.value.writable))
         else c
    {
      CellStored(devices, k, s, a);
    }
  }

  lemma StoreDecoded(m: Machine, i: Instr)
    requires Valid(m) && Representable(i) && i.StoreTo?
    ensures ExecuteWord(m, Encode(i)) ==
      match BusWrite(m.devices, Wrap32(m.regs[i.rs1] + i.imm), m.regs[i.rs2], WidthSize(i.width))
      case Written(devices) => Advance(m.(devices := devices), Wrap32(m.nextPc + 4))
      case WriteFault(code) => Done(m, code)
      case WildWrite => Undefined
  {
    hide OpcodeOf, RdOf, Rs1Of, Rs2Of, Funct3Of, Funct7Of, CsrOf, GetImmediate, Pack, AluOperation, Wrap32;
    hide Advance, BusWrite;
    var top := i.rs2 + 0x20 * (i.imm / 0x20 % 0x80);
    PackFields(STORE, i.imm % 0x20, WidthFunct3(i.width), i.rs1, top);
    assert top % 0x20 == i.rs2;
    ImmediateS(WidthFunct3(i.width), i.rs1, i.rs2, i.imm);
    WrapSum(i.imm, m.regs[i.rs1]);
  }

  lemma DeviceStoreAtEnd(dev: Device, s: F.Store)
    requires dev.Offset(s.addr) == |dev.mem| && s.addr % 4 == 0 && ValidSize(s.size)
    ensures var r := DeviceWrite(dev, s.addr, s.value, s.size);
      r == DeviceWild || r == DeviceFault(ILLEGAL_INSTRUCTION)
  {
  }

  /** At an end address a store is refused with another code than the reference's, or goes astray. */
  lemma StoreAtEnd(devices: seq<Device>, s: F.Store)
    requires F.WellLaidOut(devices) && !F.NoEnd(devices, s.addr) && ValidSize(s.size)
    ensures F.Holder(devices, s.addr) == |devices|
    ensures var r := BusWrite(devices, s.addr, s.value, s.size);
      r == WildWrite || r == WriteFault(ILLEGAL_INSTRUCTION)
  {
    hide Find, F.WellLaidOut, F.Holder, DeviceWrite, Device.Offset, Device.Selects, ValidSize;
    var k :| 0 <= k < |devices| && s.addr == devices[k].base + |devices[k].mem|;
    EndFound(devices, s.addr, k);
    DeviceStoreAtEnd(devices[k], s);
  }

  lemma StoreMatches(m: Machine, h: Hart, k: nat, s: F.Store)
    requires Ready(m) && Stands(m, h) && k < |m.devices| && F.Holds(m.devices[k], s.addr)
    requires s.addr + s.size <= m.devices[k].base + |m.devices[k].mem|
    ensures Matches(Advance(m.(devices := Poked(m.devices, k, s)), Wrap32(m.nextPc + 4)), h,
                    Next(h.(memory := Isa.Stored(h.memory, s.addr, s.value, s.size), pc := Wrap32(h.pc + 4))))
  {
    hide Valid, SameMemory, SameCsrs, F.WellLaidOut, Isa.Stored, Poked, Wrap32, F.Holds;
    StandsMemory(m, h);
    MemoryStored(m.devices, h.memory, k, s);
    FourMore(m.pc);
  }

  lemma InMemory(m: Machine, h: Hart, addr: int)
    requires Stands(m, h)
    ensures var k := F.Holder(m.devices, addr);
      if k < |m.devices| then addr in h.memory && h.memory[addr].writable == (m.devices[k].kind != Rom)
      else addr !in h.memory
  {
  }

  lemma StoreExact(m: Machine, h: Hart, i: Instr)
    requires Ready(m) && Stands(m, h) && Representable(i) && i.StoreTo?
    ensures Matches(ExecuteWord(m, Encode(i)), h, Effects(i, h)) <==> Exact(m, i)
  {
    hide Valid, Stands, Wrap32, ExecuteWord, Encode, BusWrite, SameMemory, F.NoEnd, F.WellLaidOut, F.Holder;
    hide Advance, Isa.Stored, Poke, F.Holds;
    ValidShape(m);
    StandsRegs(m, h);
    StoreDecoded(m, i);
    var s := F.Store(Wrap32(m.regs[i.rs1] + i.imm), m.regs[i.rs2], WidthSize(i.width));
    InMemory(m, h, s.addr);
    if !F.NoEnd(m.devices, s.addr) {
      StoreAtEnd(m.devices, s);
      FaultMatches(m, h, ILLEGAL_INSTRUCTION, STORE_ACCESS_FAULT);
    } else {
      F.StoreOutcome(m.devices, s);
      var k := F.Holder(m.devices, s.addr);
      if k == |m.devices| {
        FaultMatches(m, h, STORE_ACCESS_FAULT, STORE_ACCESS_FAULT);
      } else if m.devices[k].kind == Rom {
        FaultMatches(m, h, ILLEGAL_INSTRUCTION, STORE_ACCESS_FAULT);
      } else if !Aligned(s.addr, s.size) {
        FaultMatches(m, h, STORE_ADDRESS_MISALIGNED, STORE_ADDRESS_MISALIGNED);
      } else {
        StoreMatches(m, h, k, s);
      }
    }
  }

  // ----- CSR instructions -----

  lemma CsrMatches(m: Machine, h: Hart, rd: reg, value: u32, updated: Csrs, expected: Csrs)
    requires Ready(m) && Stands(m, h)
    ensures var o := Advance(WriteReg(m, rd, value).(csr := updated), Wrap32(m.nextPc + 4));
      Matches(o, h, Following(h.(csr := expected), rd, value)) <==> SameCsrs(updated, expected)
  {
    hide Valid, SameMemory, SameCsrs, F.WellLaidOut, Wrap32;
    ValidShape(m);
    FourMore(m.pc);
    if rd == 0 {
      assert m.regs[0 := 0] == m.regs;
    }
  }

  lemma SameAfterUpdate(a: Csrs, b: Csrs, c: u32, u: u32, v: u32)
    requires SameCsrs(a, b)
    ensures SameCsrs(Read(a, c)[c := u], b[c := v]) <==> u == v
  {
    var x, y := Read(a, c)[c := u], b[c := v];
    assert Get(x, c) == u && Get(y, c) == v;
    forall d: u32 | d != c ensures Get(x, d) == Get(y, d) {
      assert Get(a, d) == Get(b, d);
    }
  }

  /** Without a write the reference keeps its map, which reads like one that holds the value read. */
  lemma SameAfterRead(a: Csrs, b: Csrs, c: u32)
    requires SameCsrs(a, b)
    ensures SameCsrs(Read(a, c), b) && Get(a, c) == Get(b, c)
  {
  }

  lemma CsrDecoded(m: Machine, i: Instr)
    requires Valid(m) && Representable(i) && i.CsrAccess?
    ensures var value, seen := Get(m.csr, i.csr), SourceSeen(m, i.rd, i.rs1, i.csr);
      var read := Read(m.csr, i.csr);
      var updated := match i.csrOp
        case Swap => read[i.csr := seen]
        case SetBits => if i.rs1 == 0 then read else read[i.csr := Or32(seen, value)]
        case ClearBits => if i.rs1 == 0 then read else read[i.csr := And32(if seen == 0 then 1 else 0, value)];
      ExecuteWord(m, Encode(i))
      == Advance(WriteReg(m, i.rd, value).(csr := updated), Wrap32(m.nextPc + 4))
  {
    hide OpcodeOf, RdOf, Rs1Of, Rs2Of, Funct3Of, Funct7Of, CsrOf, GetImmediate, Pack, AluOperation, Wrap32;
    hide Advance, Or32, And32, Read, Get;
    PackFields(PRIV, i.rd, CsrFunct3(i.csrOp), i.rs1, i.csr);
    ValidShape(m);
  }

  lemma SwapCondition(m: Machine, i: Instr)
    requires Valid(m) && Representable(i) && i.CsrAccess? && i.csrOp == Swap
    ensures SourceSeen(m, i.rd, i.rs1, i.csr) == m.regs[i.rs1] <==> Exact(m, i)
  {
  }

  lemma WordMasks(x: u32)
    ensures Or32(x, x) == x && And32(0, x) == 0 && And32(x, 0) == 0 && And32(1, x) == x % 2 && And32(ALL_ONES, x) == x
  {
    Pow2Widths();
    OrSame(x, 32);
    AndZero(x, 32);
    AndZero(x / 2, 31);
    AndOnes(x, 32);
  }

  /** What set and clear write agrees with the reference exactly under the condition. */
  lemma CsrConditions(m: Machine, i: Instr)
    requires Valid(m) && Representable(i) && i.CsrAccess? && i.rs1 != 0
    requires i.csrOp != Swap
    ensures var value, source, seen := Get(m.csr, i.csr), m.regs[i.rs1], SourceSeen(m, i.rd, i.rs1, i.csr);
      if i.csrOp == SetBits then Or32(seen, value) == Or32(source, value) <==> Exact(m, i)
      else And32(if seen == 0 then 1 else 0, value) == And32(ALL_ONES - source, value) <==> Exact(m, i)
  {
    hide Valid, Or32, And32, Get;
    ValidShape(m);
    WordMasks(Get(m.csr, i.csr));
    WordMasks(ALL_ONES - m.regs[i.rs1]);
  }

  lemma CsrExact(m: Machine, h: Hart, i: Instr)
    requires Ready(m) && Stands(m, h) && Representable(i) && i.CsrAccess?
    ensures Matches(ExecuteWord(m, Encode(i)), h, Effects(i, h)) <==> Exact(m, i)
  {
    hide Valid, Wrap32, ExecuteWord, Encode, SameMemory, F.WellLaidOut, SameCsrs;
    hide Advance, WriteReg, Following, Matches, Or32, And32, Read, Get, SourceSeen, Bitwise32;
    ValidShape(m);
    CsrDecoded(m, i);
    var value, source, seen := Get(m.csr, i.csr), m.regs[i.rs1], SourceSeen(m, i.rd, i.rs1, i.csr);
    Bitwise32Agrees(source, value);
    Bitwise32Agrees(ALL_ONES - source, value);
    SameAfterRead(m.csr, h.csr, i.csr);
    var read := Read(m.csr, i.csr);
    match i.csrOp
    case Swap =>
      SwapCondition(m, i);
      SameAfterUpdate(m.csr, h.csr, i.csr, seen, source);
      CsrMatches(m, h, i.rd, value, read[i.csr := seen], h.csr[i.csr := source]);
    case SetBits =>
      if i.rs1 == 0 {
        CsrMatches(m, h, i.rd, value, read, h.csr);
      } else {
        CsrConditions(m, i);
        var u, v := Or32(seen, value), Or32(source, value);
        SameAfterUpdate(m.csr, h.csr, i.csr, u, v);
        CsrMatches(m, h, i.rd, value, read[i.csr := u], h.csr[i.csr := v]);
      }
    case ClearBits =>
      if i.rs1 == 0 {
        CsrMatches(m, h, i.rd, value, read, h.csr);
      } else {
        CsrConditions(m, i);
        var u, v := And32(if seen == 0 then 1 else 0, value), And32(ALL_ONES - source, value);
        SameAfterUpdate(m.csr, h.csr, i.csr, u, v);
        CsrMatches(m, h, i.rd, value, read[i.csr := u], h.csr[i.csr := v]);
      }
  }

  lemma EcallExact(m: Machine, h: Hart)
    requires Ready(m) && Stands(m, h)
    ensures Matches(ExecuteWord(m, Encode(Ecall)), h, Effects(Ecall, h)) <==> Exact(m, Ecall)
  {
    hide OpcodeOf, RdOf, Rs1Of, Rs2Of, Funct3Of, Funct7Of, CsrOf, Pack, AluOperation, Valid, Stands, GetImmediate;
    PackFields(PRIV, 0, 0, 0, 0);
    ImmediateIsSliced(Pack(PRIV, 0, 0, 0, 0));
    PackSlices(PRIV, 0, 0, 0, 0);
    FaultMatches(m, h, ECALL_FROM_M_MODE, ECALL_FROM_M_MODE);
  }

  // ----- every instruction -----

  /**
   Executing an encoded instruction has exactly the reference effect if and only if the
   condition on its operands holds.
   */
  lemma RefinementExact(m: Machine, h: Hart, i: Instr)
    requires Ready(m) && Stands(m, h) && Representable(i)
    ensures Matches(ExecuteWord(m, Encode(i)), h, Effects(i, h)) <==> Exact(m, i)
  {
    hide ExecuteWord, Encode, Effects, Matches, Exact, Ready, Stands, Valid, Representable;
    match i {
      case Lui(_, _) => UpperExact(m, h, i);
      case Auipc(_, _) => UpperExact(m, h, i);
      case Jal(_, _) => JalExact(m, h, i);
      case Jalr(_, _, _) => JalrExact(m, h, i);
      case Branch(_, _, _, _) => BranchExact(m, h, i);
      case Lw(_, _, _) => LwExact(m, h, i);
      case LoadNarrow(_, _, _, _, _) => NarrowLoadExact(m, h, i);
      case StoreTo(_, _, _, _) => StoreExact(m, h, i);
      case OpImm(_, _, _, _) => OpImmExact(m, h, i);
      case Op(_, _, _, _) => OpExact(m, h, i);
      case CsrAccess(_, _, _, _) => CsrExact(m, h, i);
      case Ecall => EcallExact(m, h);
    }
  }

  // ----- whole programs -----

  /** The reference reads a word and finds an instruction's encoding. */
  predicate Fetches(h: Hart, i: Instr)
    requires Representable(i)
  {
    WordMapped(h.memory, h.pc) && LE.Value(WordAt(h.memory, h.pc)) == Encode(i)
  }

  /** The reference runs through the instructions, each fetched from memory, without an exception. */
  function RefRun(h: Hart, program: seq<Instr>): Option<Hart>
    requires |h.x| == 32 && forall k | 0 <= k < |program| :: Representable(program[k])
    decreases |program|
  {
    if program == [] then Some(h)
    else if !Fetches(h, program[0]) then None
    else match Effects(program[0], h)
      case Exception(_) => None
      case Next(after) => RefRun(after, program[1..])
  }

  /** Calls of `executeInstruction` that all succeed. */
  function Executions(m: Machine, n: nat): (r: Option<Machine>)
    requires Valid(m)
    ensures r.Some? ==> Valid(r.value)
    decreases n
  {
    hide ExecuteInstruction, Valid;
    if n == 0 then Some(m)
    else match ExecuteInstruction(m)
      case Done(after, code) => if code == STATUS_OK then Executions(after, n - 1) else None
      case Undefined => None
  }

  /** The condition holds for each instruction in the state that the machine executes it in. */
  predicate ExactRun(m: Machine, program: seq<Instr>)
    requires Valid(m) && forall k | 0 <= k < |program| :: Representable(program[k])
    decreases |program|
  {
    program == [] || (Exact(m, program[0]) &&
                      match ExecuteInstruction(m)
                      case Done(after, _) => ExactRun(after, program[1..])
                      case Undefined => false)
  }

  /** An aligned word that the reference reads is the word that the machine fetches. */
  lemma FetchAgrees(m: Machine, h: Hart, i: Instr)
    requires Ready(m) && Stands(m, h) && Representable(i) && Fetches(h, i)
    ensures ExecuteInstruction(m) == ExecuteWord(m, Encode(i))
  {
    hide Valid, ExecuteWord, Encode, BusRead, F.WellLaidOut, F.Holder, F.Holds, LE.Value, CellAt;
    StandsMemory(m, h);
    InMemory(m, h, m.pc);
    var k := F.Holder(m.devices, m.pc);
    WordOfMemory(m.devices, h.memory, m.pc, k);
    HeldIsNoEnd(m.devices, m.pc, k);
    LoadOutcome(m.devices, h.memory, m.pc);
  }

  lemma HeldIsNoEnd(devices: seq<Device>, addr: u32, k: nat)
    requires F.WellLaidOut(devices) && k < |devices| && F.Holds(devices[k], addr)
    ensures F.NoEnd(devices, addr)
  {
  }

  /** What a matching execution leaves is ready for the next one. */
  lemma StaysReady(m: Machine, inst: u32)
    requires Ready(m) && ExecuteWord(m, inst).Done? && ExecuteWord(m, inst).code == STATUS_OK
    ensures Ready(ExecuteWord(m, inst).machine)
  {
    hide Valid, ExecuteWord, F.WellLaidOut, SameShape;
    ExecuteWordValid(m, inst);
    WordCounters(m, inst);
    WordKeepsRom(m, inst);
    F.ShapeKept(m.devices, ExecuteWord(m, inst).machine.devices);
  }

  /** One instruction of a program. */
  lemma InstructionRefines(m: Machine, h: Hart, i: Instr)
    requires Ready(m) && Stands(m, h) && Representable(i) && |h.x| == 32
    requires Fetches(h, i) && Exact(m, i) && Effects(i, h).Next?
    ensures var o := ExecuteInstruction(m);
      o.Done? && o.code == STATUS_OK && Ready(o.machine) && Stands(o.machine, Effects(i, h).hart)
  {
    hide Valid, ExecuteWord, Encode, ExecuteInstruction, Effects, Exact, Fetches, Stands, Ready;
    FetchAgrees(m, h, i);
    RefinementExact(m, h, i);
    StaysReady(m, Encode(i));
  }

  lemma ReadyShape(m: Machine, h: Hart)
    requires Ready(m) && Stands(m, h)
    ensures Valid(m) && |h.x| == 32
  {
  }

  /** A program that the reference runs to its end, the machine runs to the same registers, CSRs, pc and memory. */
  lemma {:induction false} ProgramRefines(m: Machine, h: Hart, program: seq<Instr>)
    requires Ready(m) && Stands(m, h) && |h.x| == 32
    requires forall k | 0 <= k < |program| :: Representable(program[k])
    requires RefRun(h, program).Some? && ExactRun(m, program)
    ensures Executions(m, |program|).Some?
    ensures Stands(Executions(m, |program|).value, RefRun(h, program).value)
    decreases |program|
  {
    hide Ready, Stands, Valid, ExecuteInstruction, Effects, Exact, Fetches, Representable;
    ReadyShape(m, h);
    if program != [] {
      InstructionRefines(m, h, program[0]);
      var after := ExecuteInstruction(m).machine;
      ReadyShape(after, Effects(program[0], h).hart);
      ProgramRefines(after, Effects(program[0], h).hart, program[1..]);
    }
  }
}
