/**
 A reference instruction set: RV32I and the register forms of Zicsr as a datatype, their
 encoding, and their semantics over an abstract hart with a flat memory (chapters 2 and 9 of
 the RISC-V Unprivileged ISA 20191213). Opcodes are those of its instruction listing and
 exception codes those of table 3.6 of the Privileged Architecture 20211203, written out, so
 that nothing here depends on the machine's own tables.
 */
module Isa {
  import opened Words
  import opened Immediates
  import opened Machines
  import LE = LittleEndian

  datatype AluOp = Add | Sub | Sll | Slt | Sltu | Xor | Srl | Sra | Or | And

  datatype Condition = Eq | Ne | Lt | Ge | Ltu | Geu

  datatype Width = Byte | Half | Word

  datatype CsrOp = Swap | SetBits | ClearBits

  datatype Instr =
    | Lui(rd: reg, imm20: nat)
    | Auipc(rd: reg, imm20: nat)
    | Jal(rd: reg, offset: int)
    | Jalr(rd: reg, rs1: reg, imm: int)
    | Branch(cond: Condition, rs1: reg, rs2: reg, offset: int)
    | Lw(rd: reg, rs1: reg, imm: int)
    | LoadNarrow(half: bool, signed: bool, rd: reg, rs1: reg, imm: int)  // LB, LBU, LH, LHU
    | StoreTo(width: Width, rs1: reg, rs2: reg, imm: int)
    | OpImm(op: AluOp, rd: reg, rs1: reg, imm: int)
    | Op(op: AluOp, rd: reg, rs1: reg, rs2: reg)
    | CsrAccess(csrOp: CsrOp, rd: reg, rs1: reg, csr: nat)
    | Ecall

  predicate IsShift(op: AluOp) {
    op == Sll || op == Srl || op == Sra
  }

  /** The operands fit their fields. */
  predicate Representable(i: Instr) {
    match i
    case Lui(_, imm20) => imm20 < 0x10_0000
    case Auipc(_, imm20) => imm20 < 0x10_0000
    case Jal(_, offset) => -0x10_0000 <= offset < 0x10_0000 && offset % 2 == 0
    case Jalr(_, _, imm) => -0x800 <= imm < 0x800
    case Branch(_, _, _, offset) => -0x1000 <= offset < 0x1000 && offset % 2 == 0
    case Lw(_, _, imm) => -0x800 <= imm < 0x800
    case LoadNarrow(_, _, _, _, imm) => -0x800 <= imm < 0x800
    case StoreTo(_, _, _, imm) => -0x800 <= imm < 0x800
    case OpImm(op, _, _, imm) => op != Sub && if IsShift(op) then 0 <= imm < 0x20 else -0x800 <= imm < 0x800
    case Op(_, _, _, _) => true
    case CsrAccess(_, _, _, csr) => csr < 0x1000
    case Ecall => true
  }

  // ----- encoding -----

  function OpFunct3(op: AluOp): nat {
    match op
    case Add => 0 case Sub => 0 case Sll => 1 case Slt => 2 case Sltu => 3
    case Xor => 4 case Srl => 5 case Sra => 5 case Or => 6 case And => 7
  }

  function OpFunct7(op: AluOp): nat {
    if op == Sub || op == Sra then 0x20 else 0
  }

  function ConditionFunct3(c: Condition): nat {
    match c
    case Eq => 0 case Ne => 1 case Lt => 4 case Ge => 5 case Ltu => 6 case Geu => 7
  }

  function WidthFunct3(w: Width): nat {
    match w
    case Byte => 0 case Half => 1 case Word => 2
  }

  function WidthSize(w: Width): nat {
    match w
    case Byte => 1 case Half => 2 case Word => 4
  }

  function NarrowSize(half: bool): nat {
    if half then 2 else 1
  }

  function NarrowFunct3(half: bool, signed: bool): nat {
    (if half then 1 else 0) + (if signed then 0 else 4)
  }

  function CsrFunct3(op: CsrOp): nat {
    match op
    case Swap => 1 case SetBits => 2 case ClearBits => 3
  }

  function Encode(i: Instr): u32
    requires Representable(i)
  {
    match i
    case Lui(rd, imm20) => EncodeU(0x37, rd, imm20)
    case Auipc(rd, imm20) => EncodeU(0x17, rd, imm20)
    case Jal(rd, offset) => EncodeJ(0x6f, rd, offset)
    case Jalr(rd, rs1, imm) => EncodeI(0x67, rd, 0, rs1, imm)
    case Branch(c, rs1, rs2, offset) => EncodeB(0x63, ConditionFunct3(c), rs1, rs2, offset)
    case Lw(rd, rs1, imm) => EncodeI(0x03, rd, 2, rs1, imm)
    case LoadNarrow(half, signed, rd, rs1, imm) => EncodeI(0x03, rd, NarrowFunct3(half, signed), rs1, imm)
    case StoreTo(w, rs1, rs2, imm) => EncodeS(0x23, WidthFunct3(w), rs1, rs2, imm)
    case OpImm(op, rd, rs1, imm) =>
      if IsShift(op) then EncodeR(0x13, rd, OpFunct3(op), rs1, imm, OpFunct7(op))
      else EncodeI(0x13, rd, OpFunct3(op), rs1, imm)
    case Op(op, rd, rs1, rs2) => EncodeR(0x33, rd, OpFunct3(op), rs1, rs2, OpFunct7(op))
    case CsrAccess(op, rd, rs1, csr) => Pack(0x73, rd, CsrFunct3(op), rs1, csr)
    case Ecall => Pack(0x73, 0, 0, 0, 0)
  }

  // ----- reference semantics -----

  datatype Cell = Cell(value: u8, writable: bool)

  /** Registers, CSRs, pc and a flat memory of cells. */
  datatype Hart = Hart(x: seq<u32>, csr: Csrs, pc: u32, memory: map<int, Cell>)

  datatype Effect = Next(hart: Hart) | Exception(code: u32)

  /** What a bitwise operation does to one bit of each operand. */
  function OneBit(op: AluOp, x: nat, y: nat): nat
    requires x < 2 && y < 2
  {
    if op == Xor then (x + y) % 2 else if op == Or then (x + y + 1) / 2 else x * y
  }

  /** Bit by bit, each worth its power of two. */
  function Bitwise(op: AluOp, a: nat, b: nat, k: nat): (r: nat)
    ensures r < Pow2(k)
    decreases k
  {
    if k == 0 then 0
    else
      var p := Pow2(k - 1);
      Bitwise(op, a, b, k - 1) + if OneBit(op, a / p % 2, b / p % 2) == 1 then p else 0
  }

  function Bitwise32(op: AluOp, a: u32, b: u32): u32 {
    Pow2Widths();
    Bitwise(op, a, b, 32)
  }

  /** Section 2.4: shifts use the low five bits, comparisons are signed unless named otherwise. */
  function Compute(op: AluOp, a: u32, b: u32): u32 {
    match op
    case Add => Wrap32(a + b)
    case Sub => Wrap32(a - b)
    case Sll => Wrap32(a * Pow2(b % 0x20))
    case Slt => if Signed32(a) < Signed32(b) then 1 else 0
    case Sltu => if a < b then 1 else 0
    case Xor => Bitwise32(Xor, a, b)
    case Srl => Quotient(a, Pow2(b % 0x20))
    case Sra => Wrap32(Signed32(a) / Pow2(b % 0x20))
    case Or => Bitwise32(Or, a, b)
    case And => Bitwise32(And, a, b)
  }

  function Quotient(a: u32, d: nat): (q: u32)
    requires d > 0
  {
    DivNonNeg(a, d);
    QuotientSmaller(a, d);
    a / d
  }

  lemma QuotientSmaller(a: nat, d: nat)
    requires d > 0
    ensures a / d <= a
  {
    var q := a / d;
    if q > a {
      MulLe(q, 1, d);
    }
  }

  predicate Holds(c: Condition, a: u32, b: u32) {
    match c
    case Eq => a == b
    case Ne => a != b
    case Lt => Signed32(a) < Signed32(b)
    case Ge => Signed32(a) >= Signed32(b)
    case Ltu => a < b
    case Geu => a >= b
  }

  function Written(h: Hart, rd: reg, value: u32): Hart
    requires |h.x| == 32
  {
    if rd == 0 then h else h.(x := h.x[rd := value])
  }

  /** Goes to a target; a misaligned one raises an exception and changes nothing. */
  function Goto(before: Hart, after: Hart, target: u32): Effect {
    if target % 4 != 0 then Exception(0) else Next(after.(pc := target))
  }

  function Following(h: Hart, rd: reg, value: u32): Effect
    requires |h.x| == 32
  {
    Next(Written(h, rd, value).(pc := Wrap32(h.pc + 4)))
  }

  /** The four bytes from an address on; every one must be mapped. */
  predicate WordMapped(memory: map<int, Cell>, addr: int) {
    addr in memory && addr + 1 in memory && addr + 2 in memory && addr + 3 in memory
  }

  function WordAt(memory: map<int, Cell>, addr: int): seq<u8>
    requires WordMapped(memory, addr)
  {
    [memory[addr].value, memory[addr + 1].value, memory[addr + 2].value, memory[addr + 3].value]
  }

  /** The low bytes of the value replace the cells' bytes. */
  function Stored(memory: map<int, Cell>, addr: int, value: u32, size: nat): map<int, Cell> {
    map a | a in memory ::
      if addr <= a < addr + size then Cell(LE.Bytes(value, size)[a - addr], memory[a].writable) else memory[a]
  }

  function Load(h: Hart, rd: reg, addr: u32): Effect
    requires |h.x| == 32
  {
    if addr !in h.memory then Exception(5)
    else if addr % 4 != 0 then Exception(4)
    else if !WordMapped(h.memory, addr) then Exception(5)
    else
      LE.ValueBound(WordAt(h.memory, addr));
      LE.Pow256Small();
      Following(h, rd, LE.Value(WordAt(h.memory, addr)))
  }

  /** The byte or halfword at an address, little-endian. */
  predicate NarrowMapped(memory: map<int, Cell>, addr: int, half: bool) {
    addr in memory && (half ==> addr + 1 in memory)
  }

  function NarrowAt(memory: map<int, Cell>, addr: int, half: bool): u16
    requires NarrowMapped(memory, addr, half)
  {
    memory[addr].value + if half then 0x100 * (memory[addr + 1].value as int) else 0
  }

  /** Section 2.6: LB and LH extend the sign, LBU and LHU extend with zeros. */
  function Extended(v: u16, half: bool, signed: bool): u32 {
    var sign := if half then 0x8000 else 0x80;
    if signed && v >= sign then Wrap32(v - 2 * sign) else v
  }

  function NarrowLoad(h: Hart, half: bool, signed: bool, rd: reg, addr: u32): Effect
    requires |h.x| == 32
  {
    if addr !in h.memory then Exception(5)
    else if half && addr % 2 != 0 then Exception(4)
    else if !NarrowMapped(h.memory, addr, half) then Exception(5)
    else Following(h, rd, Extended(NarrowAt(h.memory, addr, half), half, signed))
  }

  function StoreEffect(h: Hart, addr: u32, value: u32, size: nat): Effect {
    if addr !in h.memory || !h.memory[addr].writable then Exception(7)
    else if (size == 2 && addr % 2 != 0) || (size == 4 && addr % 4 != 0) then Exception(6)
    else Next(h.(memory := Stored(h.memory, addr, value, size), pc := Wrap32(h.pc + 4)))
  }

  /** Section 9.1: set and clear with rs1 = x0 do not write. */
  function CsrUpdated(csrs: Csrs, op: CsrOp, rs1: reg, csr: u32, source: u32): Csrs {
    match op
    case Swap => csrs[csr := source]
    case SetBits => if rs1 == 0 then csrs else csrs[csr := Bitwise32(Or, source, Get(csrs, csr))]
    case ClearBits => if rs1 == 0 then csrs else csrs[csr := Bitwise32(And, 0xffff_ffff - source, Get(csrs, csr))]
  }

  /** The old value goes to rd. */
  function CsrEffect(h: Hart, op: CsrOp, rd: reg, rs1: reg, csr: u32): Effect
    requires |h.x| == 32
  {
    Following(h.(csr := CsrUpdated(h.csr, op, rs1, csr, h.x[rs1])), rd, Get(h.csr, csr))
  }

  function Effects(i: Instr, h: Hart): Effect
    requires Representable(i) && |h.x| == 32
  {
    match i
    case Lui(rd, imm20) => Following(h, rd, 0x1000 * imm20)
    case Auipc(rd, imm20) => Following(h, rd, Wrap32(h.pc + 0x1000 * imm20))
    case Jal(rd, offset) => Goto(h, Written(h, rd, Wrap32(h.pc + 4)), Wrap32(h.pc + offset))
    case Jalr(rd, rs1, imm) =>
      var t := Wrap32(h.x[rs1] + imm);
      Goto(h, Written(h, rd, Wrap32(h.pc + 4)), t - t % 2)
    case Branch(c, rs1, rs2, offset) =>
      Goto(h, h, Wrap32(h.pc + if Holds(c, h.x[rs1], h.x[rs2]) then offset else 4))
    case Lw(rd, rs1, imm) => Load(h, rd, Wrap32(h.x[rs1] + imm))
    case LoadNarrow(half, signed, rd, rs1, imm) => NarrowLoad(h, half, signed, rd, Wrap32(h.x[rs1] + imm))
    case StoreTo(w, rs1, rs2, imm) => StoreEffect(h, Wrap32(h.x[rs1] + imm), h.x[rs2], WidthSize(w))
    case OpImm(op, rd, rs1, imm) => Following(h, rd, Compute(op, h.x[rs1], Wrap32(imm)))
    case Op(op, rd, rs1, rs2) => Following(h, rd, Compute(op, h.x[rs1], h.x[rs2]))
    case CsrAccess(op, rd, rs1, csr) => CsrEffect(h, op, rd, rs1, csr)
    case Ecall => Exception(11)
  }
}
