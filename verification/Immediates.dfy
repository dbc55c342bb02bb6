/**
 Instruction words: the field extraction of `executeInstruction`, `getImmediate`, and the
 encodings of section 2.3 of the RISC-V Unprivileged ISA that they undo.
 */
module Immediates {
  import opened Words
  import opened Alu

  type reg = x: int | 0 <= x < 0x20

  // ----- fields, as remainders and quotients -----

  function OpcodeOf(inst: u32): nat { inst % 0x80 }

  function RdOf(inst: u32): reg { inst / 0x80 % 0x20 }

  function Funct3Of(inst: u32): (r: nat)
    ensures r < 8
  {
    inst / 0x1000 % 8
  }

  function Rs1Of(inst: u32): reg { inst / 0x8000 % 0x20 }

  function Rs2Of(inst: u32): reg { inst / 0x10_0000 % 0x20 }

  function Funct7Of(inst: u32): nat { inst / 0x200_0000 % 0x80 }

  function CsrOf(inst: u32): (r: nat)
    ensures r < 0x1000
  {
    inst / 0x10_0000 % 0x1000
  }

  // ----- immediates -----

  /** `if (immediate >> 11 & 1) immediate |= 0xfffff000`. */
  function SignExtend12(immediate: u32): u32 {
    if And32(ShiftRight(immediate, 11), 1) == 1 then Or32(immediate, 0xffff_f000) else immediate
  }

  /** The 12 bits of I- and S-type immediates, extended when bit 31 of the instruction is set. */
  function ExtendBy31(inst: u32, immediate: u32): u32 {
    if ShiftRight(inst, 31) != 0 then Or32(immediate, 0xffff_f000) else immediate
  }

  function JTypeImmediate(inst: u32): u32 {
    var immediate := Or32(Or32(Or32(And32(ShiftRight(inst, 12), 0x0008_0000),   // imm[20]
                                    And32(ShiftRight(inst, 1), 0x0007_f800)),   // imm[19:12]
                               And32(ShiftRight(inst, 10), 0x0000_0400)),       // imm[11]
                          And32(ShiftRight(inst, 21), 0x0000_03ff));            // imm[10:1]
    Wrap32(Shl(if And32(ShiftRight(immediate, 19), 1) == 1 then Or32(immediate, 0xfff0_0000) else immediate, 1))
  }

  function BTypeImmediate(inst: u32): u32 {
    var immediate := Or32(Or32(Or32(And32(ShiftRight(inst, 20), 0x800),         // imm[12]
                                    And32(Wrap32(Shl(inst, 3)), 0x400)),        // imm[11]
                               And32(ShiftRight(inst, 21), 0x3f0)),             // imm[10:5]
                          And32(ShiftRight(inst, 8), 0xf));                     // imm[4:1]
    Wrap32(Shl(SignExtend12(immediate), 1))
  }

  /** `getImmediate`. */
  function GetImmediate(inst: u32): u32 {
    var opcode := And32(inst, 0x7f);
    if opcode == LUI || opcode == AUIPC then And32(inst, 0xffff_f000)
    else if opcode == JAL then JTypeImmediate(inst)
    else if opcode == JALR then SignExtend12(And32(ShiftRight(inst, 20), 0xfff))
    else if opcode == BTYPE then BTypeImmediate(inst)
    else if opcode == LOAD then ExtendBy31(inst, ShiftRight(inst, 20))
    else if opcode == STORE then
      ExtendBy31(inst, Wrap32(And32(ShiftRight(inst, 20), 0xfe0) + And32(ShiftRight(inst, 7), 0x1f)))
    else if opcode == ITYPE then
      var immediate := ExtendBy31(inst, ShiftRight(inst, 20));
      var funct3 := And32(ShiftRight(inst, 12), 7);
      if funct3 == 1 || funct3 == 5 then And32(immediate, 0x1f) else immediate
    else if opcode == PRIV then And32(ShiftRight(inst, 20), 0xfff)
    else 0
  }

  // ----- the same in arithmetic -----

  /** A 12-bit immediate whose sign bit is bit 11. */
  function Extend12(immediate: nat): (r: u32)
    requires immediate < 0x1000
  {
    if immediate / 0x800 == 1 then immediate + 0xffff_f000 else immediate
  }

  /** The parts of a J immediate: bits 20, 19-12, 11 and 10-1. */
  function JumpImmediate(b20: nat, b19: nat, b11: nat, b10: nat): u32
    requires b20 < 2 && b19 < 0x100 && b11 < 2 && b10 < 0x400
  {
    var immediate := b20 * 0x8_0000 + b19 * 0x800 + b11 * 0x400 + b10;
    Wrap32(2 * if b20 == 1 then immediate + 0xfff0_0000 else immediate)
  }

  /** The parts of a B immediate: bits 12, 11, 10-5 and 4-1. */
  function BranchImmediate(b12: nat, b11: nat, b10: nat, b4: nat): u32
    requires b12 < 2 && b11 < 2 && b10 < 0x40 && b4 < 0x10
  {
    var immediate := b12 * 0x800 + b11 * 0x400 + b10 * 0x10 + b4;
    Wrap32(2 * if b12 == 1 then immediate + 0xffff_f000 else immediate)
  }

  /** The immediate as a sum of slices of the instruction. */
  function SlicedImmediate(inst: u32): u32 {
    var opcode := OpcodeOf(inst);
    if opcode == LUI || opcode == AUIPC then 0x1000 * (inst / 0x1000)
    else if opcode == JAL then
      JumpImmediate(inst / 0x8000_0000, inst / 0x1000 % 0x100, inst / 0x10_0000 % 2, inst / 0x20_0000 % 0x400)
    else if opcode == JALR then Extend12(inst / 0x10_0000 % 0x1000)
    else if opcode == BTYPE then
      BranchImmediate(inst / 0x8000_0000, inst / 0x80 % 2, inst / 0x200_0000 % 0x40, inst / 0x100 % 0x10)
    else if opcode == LOAD then Extend12(inst / 0x10_0000)
    else if opcode == STORE then Extend12(inst / 0x200_0000 * 0x20 + inst / 0x80 % 0x20)
    else if opcode == ITYPE then
      var immediate := Extend12(inst / 0x10_0000);
      if Funct3Of(inst) == 1 || Funct3Of(inst) == 5 then immediate % 0x20 else immediate
    else if opcode == PRIV then inst / 0x10_0000 % 0x1000
    else 0
  }

  /** The fields are what the shifts and masks of the decoder select. */
  lemma FieldsAreMasks(inst: u32)
    ensures And32(inst, 0x7f) == OpcodeOf(inst) && And32(ShiftRight(inst, 7), 0x1f) == RdOf(inst)
    ensures And32(ShiftRight(inst, 12), 7) == Funct3Of(inst) && And32(ShiftRight(inst, 15), 0x1f) == Rs1Of(inst)
    ensures And32(ShiftRight(inst, 20), 0x1f) == Rs2Of(inst) && And32(ShiftRight(inst, 25), 0x7f) == Funct7Of(inst)
    ensures And32(ShiftRight(inst, 20), 0xfff) == CsrOf(inst)
  {
    hide *;
    OpcodeIsMask(inst);
    LowerFieldsAreMasks(inst);
    UpperFieldsAreMasks(inst);
  }

  lemma OpcodeIsMask(inst: u32)
    ensures And32(inst, 0x7f) == OpcodeOf(inst)
  {
    hide And32, ShiftRight, Pow2;
    Pow2Table();
    NoShift(inst);
    Slice(inst, 0, 0, 7, 0x7f);
  }

  lemma LowerFieldsAreMasks(inst: u32)
    ensures And32(ShiftRight(inst, 7), 0x1f) == RdOf(inst)
    ensures And32(ShiftRight(inst, 12), 7) == Funct3Of(inst) && And32(ShiftRight(inst, 15), 0x1f) == Rs1Of(inst)
  {
    hide And32, ShiftRight, Pow2;
    Pow2Table();
    Slice(inst, 7, 0, 5, 0x1f);
    Slice(inst, 12, 0, 3, 7);
    Slice(inst, 15, 0, 5, 0x1f);
  }

  lemma UpperFieldsAreMasks(inst: u32)
    ensures And32(ShiftRight(inst, 20), 0x1f) == Rs2Of(inst) && And32(ShiftRight(inst, 25), 0x7f) == Funct7Of(inst)
    ensures And32(ShiftRight(inst, 20), 0xfff) == CsrOf(inst)
  {
    hide And32, ShiftRight, Pow2;
    Pow2Table();
    Slice(inst, 20, 0, 5, 0x1f);
    Slice(inst, 25, 0, 7, 0x7f);
    Slice(inst, 20, 0, 12, 0xfff);
  }

  lemma NoShift(x: u32)
    ensures ShiftRight(x, 0) == x
  {
  }

  /** `immediate |= 0xfffff000` and the test of bit 11, on twelve bits. */
  lemma Extend12Is(immediate: u32)
    requires immediate < 0x1000
    ensures SignExtend12(immediate) == Extend12(immediate)
    ensures Or32(immediate, 0xffff_f000) == immediate + 0xffff_f000
  {
    hide And32, ShiftRight, Pow2, Or;
    Pow2Table();
    Slice(immediate, 11, 0, 1, 1);
    OrAdds(0xf_ffff, 12, immediate);
  }

  lemma ExtendBy31Is(inst: u32, immediate: u32)
    requires immediate < 0x1000 && immediate / 0x800 == inst / 0x8000_0000
    ensures ExtendBy31(inst, immediate) == Extend12(immediate)
  {
    hide And32, ShiftRight, Pow2, Or32;
    Pow2Table();
    ShiftRightIsQuotient(inst, 31);
    Extend12Is(immediate);
    TopBit(inst);
  }

  lemma TopBit(x: u32)
    ensures 0 <= x / 0x8000_0000 < 2
  {
  }

  /** The parts of a J immediate occupy different bits, so that `|` adds them. */
  lemma JumpBitsAdd(b20: nat, b19: nat, b11: nat, b10: nat)
    requires b20 < 2 && b19 < 0x100 && b11 < 2 && b10 < 0x400
    ensures Or32(Or32(Or32(b20 * 0x8_0000, b19 * 0x800), b11 * 0x400), b10)
      == b20 * 0x8_0000 + b19 * 0x800 + b11 * 0x400 + b10
  {
    hide Pow2, Or;
    Pow2Table();
    OrAdds(b20, 19, b19 * 0x800);
    OrAdds(b20 * 0x100 + b19, 11, b11 * 0x400);
    OrAdds(b20 * 0x200 + b19 * 2 + b11, 10, b10);
  }

  /** The sign extension and the final shift of a J immediate. */
  lemma JumpExtended(b20: nat, b19: nat, b11: nat, b10: nat)
    requires b20 < 2 && b19 < 0x100 && b11 < 2 && b10 < 0x400
    ensures var immediate := b20 * 0x8_0000 + b19 * 0x800 + b11 * 0x400 + b10;
      JumpImmediate(b20, b19, b11, b10) == Wrap32(Shl(
          if And32(ShiftRight(immediate, 19), 1) == 1 then Or32(immediate, 0xfff0_0000) else immediate, 1))
  {
    hide And32, ShiftRight, Pow2, Or, Shl, Wrap32;
    Pow2Table();
    var immediate := b20 * 0x8_0000 + b19 * 0x800 + b11 * 0x400 + b10;
    Slice(immediate, 19, 0, 1, 1);
    BitOnTop(b20, b19 * 0x800 + b11 * 0x400 + b10);
    OrAdds(0xfff, 20, immediate);
    ShlIsProduct(immediate, 1);
    ShlIsProduct(immediate + 0xfff0_0000, 1);
  }

  lemma JTypeIsSliced(inst: u32)
    ensures JTypeImmediate(inst)
      == JumpImmediate(inst / 0x8000_0000, inst / 0x1000 % 0x100, inst / 0x10_0000 % 2, inst / 0x20_0000 % 0x400)
  {
    hide And32, ShiftRight, Pow2, Or32, Shl, Wrap32, JumpImmediate;
    Pow2Table();
    TopBit(inst);
    Slice(inst, 12, 19, 1, 0x0008_0000);
    Slice(inst, 1, 11, 8, 0x0007_f800);
    Slice(inst, 10, 10, 1, 0x0000_0400);
    Slice(inst, 21, 0, 10, 0x0000_03ff);
    JumpBitsAdd(inst / 0x8000_0000, inst / 0x1000 % 0x100, inst / 0x10_0000 % 2, inst / 0x20_0000 % 0x400);
    JumpExtended(inst / 0x8000_0000, inst / 0x1000 % 0x100, inst / 0x10_0000 % 2, inst / 0x20_0000 % 0x400);
  }

  lemma BitOnTop(b20: nat, low: nat)
    requires b20 < 2 && low < 0x8_0000
    ensures (b20 * 0x8_0000 + low) / 0x8_0000 % 2 == b20
  {
  }

  lemma BTypeIsSliced(inst: u32)
    ensures BTypeImmediate(inst)
      == BranchImmediate(inst / 0x8000_0000, inst / 0x80 % 2, inst / 0x200_0000 % 0x40, inst / 0x100 % 0x10)
  {
    hide And32, ShiftRight, Pow2, Or, Shl, Wrap32, SignExtend12;
    Pow2Table();
    TopBit(inst);
    var b12, b11, b10, b4 := inst / 0x8000_0000, inst / 0x80 % 2, inst / 0x200_0000 % 0x40, inst / 0x100 % 0x10;
    Slice(inst, 20, 11, 1, 0x800);
    MovedBit(inst);
    Slice(inst, 21, 4, 6, 0x3f0);
    Slice(inst, 8, 0, 4, 0xf);
    OrAdds(b12, 11, b11 * 0x400);
    OrAdds(b12 * 2 + b11, 10, b10 * 0x10);
    OrAdds(b12 * 0x80 + b11 * 0x40 + b10, 4, b4);
    var immediate := b12 * 0x800 + b11 * 0x400 + b10 * 0x10 + b4;
    Extend12Is(immediate);
    TopOfTwelve(b12, b11 * 0x400 + b10 * 0x10 + b4);
    ShlIsProduct(immediate, 1);
    ShlIsProduct(immediate + 0xffff_f000, 1);
  }

  lemma TopOfTwelve(b12: nat, low: nat)
    requires b12 < 2 && low < 0x800
    ensures (b12 * 0x800 + low) / 0x800 == b12
  {
  }

  /** `(inst << 3) & 0x400` is bit 7 of the instruction moved to bit 10. */
  lemma MovedBit(inst: u32)
    ensures And32(Wrap32(Shl(inst, 3)), 0x400) == inst / 0x80 % 2 * 0x400
  {
    hide And32, ShiftRight, Pow2, Shl;
    Pow2Table();
    var moved := Wrap32(Shl(inst, 3));
    ShlIsProduct(inst, 3);
    NoShift(moved);
    Slice(moved, 0, 10, 1, 0x400);
    MovedQuotient(inst);
  }

  lemma MovedQuotient(inst: u32)
    ensures Wrap32(inst * 8) / 0x400 % 2 == inst / 0x80 % 2
  {
    var q, r := inst / 0x2000_0000, inst % 0x2000_0000;
    assert Wrap32(inst * 8) == 8 * r;
    DivUnique(8 * r, 0x400, r / 0x80, 8 * (r % 0x80));
    DivUnique(inst, 0x80, 0x40_0000 * q + r / 0x80, r % 0x80);
  }

  lemma UpperIsSliced(inst: u32)
    ensures And32(inst, 0xffff_f000) == 0x1000 * (inst / 0x1000)
  {
    hide And32, ShiftRight, Pow2, Rs2Of, Funct7Of, CsrOf;
    Pow2Table();
    NoShift(inst);
    Slice(inst, 0, 12, 20, 0xffff_f000);
    QuotientBelow(inst);
  }

  lemma QuotientBelow(inst: u32)
    ensures inst / 0x1000 % 0x10_0000 == inst / 0x1000
  {
  }

  lemma STypeIsSliced(inst: u32)
    ensures And32(ShiftRight(inst, 20), 0xfe0) + And32(ShiftRight(inst, 7), 0x1f)
      == inst / 0x200_0000 * 0x20 + inst / 0x80 % 0x20
    ensures inst / 0x200_0000 * 0x20 + inst / 0x80 % 0x20 < 0x1000
    ensures (inst / 0x200_0000 * 0x20 + inst / 0x80 % 0x20) / 0x800 == inst / 0x8000_0000
  {
    hide And32, ShiftRight, Pow2;
    Pow2Table();
    Slice(inst, 20, 5, 7, 0xfe0);
    Slice(inst, 7, 0, 5, 0x1f);
    StoreSlices(inst);
  }

  lemma StoreSlices(inst: u32)
    ensures inst / 0x200_0000 < 0x80
    ensures (inst / 0x200_0000 * 0x20 + inst / 0x80 % 0x20) / 0x800 == inst / 0x8000_0000
  {
    var q, low := inst / 0x200_0000, inst / 0x80 % 0x20;
    DivUnique(inst, 0x8000_0000, q / 0x40, q % 0x40 * 0x200_0000 + inst % 0x200_0000);
    DivUnique(q * 0x20 + low, 0x800, q / 0x40, q % 0x40 * 0x20 + low);
  }

  lemma ITypeTop(inst: u32)
    ensures inst / 0x10_0000 < 0x1000 && inst / 0x10_0000 / 0x800 == inst / 0x8000_0000
  {
  }

  /** The masks and shifts of the code compute the arithmetic form, for every instruction word. */
  lemma ImmediateIsSliced(inst: u32)
    ensures GetImmediate(inst) == SlicedImmediate(inst)
  {
    hide And32, ShiftRight, Pow2, JTypeImmediate, BTypeImmediate, SignExtend12, ExtendBy31, Extend12, Wrap32;
    hide JumpImmediate, BranchImmediate, OpcodeOf, Funct3Of;
    FieldsAreMasks(inst);
    UpperIsSliced(inst);
    JTypeIsSliced(inst);
    BTypeIsSliced(inst);
    TwelveBits(inst);
    STypeIsSliced(inst);
    WrapSmall(inst / 0x200_0000 * 0x20 + inst / 0x80 % 0x20);
    ExtendBy31Is(inst, inst / 0x200_0000 * 0x20 + inst / 0x80 % 0x20);
  }

  /** The twelve bits from bit 20 on. */
  lemma TwelveBits(inst: u32)
    ensures inst / 0x10_0000 < 0x1000
    ensures SignExtend12(CsrOf(inst)) == Extend12(CsrOf(inst))
    ensures ExtendBy31(inst, ShiftRight(inst, 20)) == Extend12(inst / 0x10_0000)
    ensures And32(ExtendBy31(inst, ShiftRight(inst, 20)), 0x1f) == Extend12(inst / 0x10_0000) % 0x20
  {
    hide And32, ShiftRight, Pow2, SignExtend12, ExtendBy31, Extend12, CsrOf;
    Pow2Table();
    ITypeTop(inst);
    ShiftRightIsQuotient(inst, 20);
    Extend12Is(CsrOf(inst));
    ExtendBy31Is(inst, inst / 0x10_0000);
    LowFive(Extend12(inst / 0x10_0000));
  }

  lemma LowFive(x: u32)
    ensures And32(x, 0x1f) == x % 0x20
  {
    hide And32, ShiftRight, Pow2;
    Pow2Table();
    NoShift(x);
    Slice(x, 0, 0, 5, 0x1f);
  }

  // ----- encodings -----

  /** opcode, rd, funct3, rs1 and the top twelve bits, from the lowest bit up. */
  function Pack(opcode: nat, rd: nat, funct3: nat, rs1: nat, top: nat): (w: u32)
    requires opcode < 0x80 && rd < 0x20 && funct3 < 8 && rs1 < 0x20 && top < 0x1000
  {
    opcode + 0x80 * (rd + 0x20 * (funct3 + 8 * (rs1 + 0x20 * top)))
  }

  function EncodeR(opcode: nat, rd: reg, funct3: nat, rs1: reg, rs2: reg, funct7: nat): u32
    requires opcode < 0x80 && funct3 < 8 && funct7 < 0x80
  {
    Pack(opcode, rd, funct3, rs1, rs2 + 0x20 * funct7)
  }

  /** A 12-bit signed immediate in the top bits. */
  function EncodeI(opcode: nat, rd: reg, funct3: nat, rs1: reg, imm: int): u32
    requires opcode < 0x80 && funct3 < 8 && -0x800 <= imm < 0x800
  {
    Pack(opcode, rd, funct3, rs1, imm % 0x1000)
  }

  function EncodeS(opcode: nat, funct3: nat, rs1: reg, rs2: reg, imm: int): u32
    requires opcode < 0x80 && funct3 < 8 && -0x800 <= imm < 0x800
  {
    Pack(opcode, imm % 0x20, funct3, rs1, rs2 + 0x20 * (imm / 0x20 % 0x80))
  }

  /** imm[12|10:5] and imm[4:1|11] around the registers. */
  function EncodeB(opcode: nat, funct3: nat, rs1: reg, rs2: reg, imm: int): u32
    requires opcode < 0x80 && funct3 < 8 && -0x1000 <= imm < 0x1000 && imm % 2 == 0
  {
    Pack(opcode, imm / 0x800 % 2 + 2 * (imm / 2 % 0x10), funct3, rs1,
         rs2 + 0x20 * (imm / 0x20 % 0x40 + 0x40 * (imm / 0x1000 % 2)))
  }

  function EncodeU(opcode: nat, rd: reg, imm20: nat): u32
    requires opcode < 0x80 && imm20 < 0x10_0000
  {
    Pack(opcode, rd, imm20 % 8, imm20 / 8 % 0x20, imm20 / 0x100)
  }

  /** imm[20|10:1|11|19:12] in the top twenty bits. */
  function EncodeJ(opcode: nat, rd: reg, imm: int): u32
    requires opcode < 0x80 && -0x10_0000 <= imm < 0x10_0000 && imm % 2 == 0
  {
    Pack(opcode, rd, imm / 0x1000 % 8, imm / 0x8000 % 0x20,
         imm / 0x800 % 2 + 2 * (imm / 2 % 0x400) + 0x800 * (imm / 0x10_0000 % 2))
  }

  lemma TopQuotients(w: u32)
    ensures w / 0x20_0000 == w / 0x10_0000 / 2 && w / 0x200_0000 == w / 0x10_0000 / 0x20
    ensures w / 0x8000_0000 == w / 0x10_0000 / 0x800
  {
  }

  lemma PackQuotients(opcode: nat, rd: nat, funct3: nat, rs1: nat, top: nat)
    requires opcode < 0x80 && rd < 0x20 && funct3 < 8 && rs1 < 0x20 && top < 0x1000
    ensures var w := Pack(opcode, rd, funct3, rs1, top);
      && w % 0x80 == opcode && w / 0x80 == rd + 0x20 * (funct3 + 8 * (rs1 + 0x20 * top))
      && w / 0x1000 == funct3 + 8 * (rs1 + 0x20 * top) && w / 0x8000 == rs1 + 0x20 * top
      && w / 0x10_0000 == top
  {
  }

  /** Every field of a packed word is read back. */
  lemma PackFields(opcode: nat, rd: nat, funct3: nat, rs1: nat, top: nat)
    requires opcode < 0x80 && rd < 0x20 && funct3 < 8 && rs1 < 0x20 && top < 0x1000
    ensures var w := Pack(opcode, rd, funct3, rs1, top);
      && OpcodeOf(w) == opcode && RdOf(w) == rd && Funct3Of(w) == funct3 && Rs1Of(w) == rs1
      && CsrOf(w) == top && Rs2Of(w) == top % 0x20 && Funct7Of(w) == top / 0x20
  {
    hide Pack;
    PackQuotients(opcode, rd, funct3, rs1, top);
    TopQuotients(Pack(opcode, rd, funct3, rs1, top));
    var beyondRs1 := rs1 + 0x20 * top;
    DivUnique(rd + 0x20 * (funct3 + 8 * beyondRs1), 0x20, funct3 + 8 * beyondRs1, rd);
    DivUnique(funct3 + 8 * beyondRs1, 8, beyondRs1, funct3);
    DivUnique(beyondRs1, 0x20, top, rs1);
    DivUnique(top, 0x1000, 0, top);
    DivUnique(top / 0x20, 0x80, 0, top / 0x20);
  }

  /** The slices that the immediates are made of. */
  lemma PackSlices(opcode: nat, rd: nat, funct3: nat, rs1: nat, top: nat)
    requires opcode < 0x80 && rd < 0x20 && funct3 < 8 && rs1 < 0x20 && top < 0x1000
    ensures var w := Pack(opcode, rd, funct3, rs1, top);
      && w / 0x10_0000 == top && w / 0x8000_0000 == top / 0x800 && w / 0x20_0000 == top / 2
      && w / 0x200_0000 == top / 0x20 && w / 0x1000 == funct3 + 8 * (rs1 + 0x20 * top)
      && w / 0x80 == rd + 0x20 * (w / 0x1000) && w / 0x100 == w / 0x80 / 2
  {
  }

  // ----- the immediates of encoded instructions -----

  lemma Extend12Signed(imm: int)
    requires -0x800 <= imm < 0x800
    ensures Extend12(imm % 0x1000) == Wrap32(imm)
  {
  }

  lemma ImmediateI(opcode: nat, rd: reg, funct3: nat, rs1: reg, imm: int)
    requires opcode in {JALR, LOAD, ITYPE} && funct3 < 8 && -0x800 <= imm < 0x800
    requires opcode == ITYPE && funct3 in {1, 5} ==> 0 <= imm < 0x20
    ensures GetImmediate(EncodeI(opcode, rd, funct3, rs1, imm)) == Wrap32(imm)
  {
    hide Pack, Extend12, GetImmediate;
    ImmediateIsSliced(EncodeI(opcode, rd, funct3, rs1, imm));
    PackFields(opcode, rd, funct3, rs1, imm % 0x1000);
    PackSlices(opcode, rd, funct3, rs1, imm % 0x1000);
    Extend12Signed(imm);
  }

  /** SRAI carries 0x20 in funct7, which the shift amount drops. */
  lemma ImmediateShift(rd: reg, funct3: nat, rs1: reg, amount: nat, funct7: nat)
    requires funct3 in {1, 5} && amount < 0x20 && funct7 < 0x80
    ensures GetImmediate(EncodeR(ITYPE, rd, funct3, rs1, amount, funct7)) == amount
  {
    hide Pack, GetImmediate;
    ImmediateIsSliced(EncodeR(ITYPE, rd, funct3, rs1, amount, funct7));
    var top := amount + 0x20 * funct7;
    PackFields(ITYPE, rd, funct3, rs1, top);
    PackSlices(ITYPE, rd, funct3, rs1, top);
    assert (top + 0xffff_f000) % 0x20 == amount && top % 0x20 == amount;
  }

  lemma ImmediateS(funct3: nat, rs1: reg, rs2: reg, imm: int)
    requires funct3 < 8 && -0x800 <= imm < 0x800
    ensures GetImmediate(EncodeS(STORE, funct3, rs1, rs2, imm)) == Wrap32(imm)
  {
    hide Pack, Extend12, Wrap32, GetImmediate;
    ImmediateIsSliced(EncodeS(STORE, funct3, rs1, rs2, imm));
    var top := rs2 + 0x20 * (imm / 0x20 % 0x80);
    PackFields(STORE, imm % 0x20, funct3, rs1, top);
    PackSlices(STORE, imm % 0x20, funct3, rs1, top);
    assert top / 0x20 == imm / 0x20 % 0x80;
    StoreParts(imm);
    Extend12Signed(imm);
  }

  lemma StoreParts(imm: int)
    ensures imm / 0x20 % 0x80 * 0x20 + imm % 0x20 == imm % 0x1000
  {
  }

  lemma BranchParts(imm: int)
    requires -0x1000 <= imm < 0x1000 && imm % 2 == 0
    ensures imm == 2 * (imm / 2 % 0x10) + 0x20 * (imm / 0x20 % 0x40) + 0x800 * (imm / 0x800 % 2)
                   - 0x1000 * (imm / 0x1000 % 2)
  {
    assert imm / 0x20 == imm / 2 / 0x10;
    assert imm / 0x800 == imm / 0x20 / 0x40;
    assert imm / 0x1000 == imm / 0x800 / 2;
  }

  lemma BranchImmediateValue(b12: nat, b11: nat, b10: nat, b4: nat)
    requires b12 < 2 && b11 < 2 && b10 < 0x40 && b4 < 0x10
    ensures BranchImmediate(b12, b11, b10, b4) == Wrap32(2 * b4 + 0x20 * b10 + 0x800 * b11 - 0x1000 * b12)
  {
  }

  lemma ImmediateB(funct3: nat, rs1: reg, rs2: reg, imm: int)
    requires funct3 < 8 && -0x1000 <= imm < 0x1000 && imm % 2 == 0
    ensures GetImmediate(EncodeB(BTYPE, funct3, rs1, rs2, imm)) == Wrap32(imm)
  {
    hide Pack, BranchImmediate, Wrap32, Extend12, JumpImmediate, GetImmediate;
    ImmediateIsSliced(EncodeB(BTYPE, funct3, rs1, rs2, imm));
    var b12, b11, b10, b4 := imm / 0x1000 % 2, imm / 0x800 % 2, imm / 0x20 % 0x40, imm / 2 % 0x10;
    var low, top := b11 + 2 * b4, rs2 + 0x20 * (b10 + 0x40 * b12);
    PackFields(BTYPE, low, funct3, rs1, top);
    PackSlices(BTYPE, low, funct3, rs1, top);
    var w := Pack(BTYPE, low, funct3, rs1, top);
    TopBits(rs2, b10, b12);
    LowBits(b11, b4, w / 0x1000);
    BranchImmediateValue(b12, b11, b10, b4);
    BranchParts(imm);
  }

  lemma TopBits(rs2: reg, b10: nat, b12: nat)
    requires b10 < 0x40 && b12 < 2
    ensures var top := rs2 + 0x20 * (b10 + 0x40 * b12);
      top / 0x800 == b12 && top / 0x20 % 0x40 == b10
  {
  }

  lemma LowBits(b11: nat, b4: nat, rest: nat)
    requires b11 < 2 && b4 < 0x10
    ensures var x := b11 + 2 * b4 + 0x20 * rest;
      x % 2 == b11 && x / 2 % 0x10 == b4
  {
  }

  lemma ImmediateU(opcode: nat, rd: reg, imm20: nat)
    requires opcode in {LUI, AUIPC} && imm20 < 0x10_0000
    ensures GetImmediate(EncodeU(opcode, rd, imm20)) == 0x1000 * imm20
  {
    hide Pack, GetImmediate;
    ImmediateIsSliced(EncodeU(opcode, rd, imm20));
    PackFields(opcode, rd, imm20 % 8, imm20 / 8 % 0x20, imm20 / 0x100);
    PackSlices(opcode, rd, imm20 % 8, imm20 / 8 % 0x20, imm20 / 0x100);
    UpperParts(imm20);
  }

  lemma UpperParts(imm20: nat)
    ensures imm20 % 8 + 8 * (imm20 / 8 % 0x20 + 0x20 * (imm20 / 0x100)) == imm20
  {
    assert imm20 / 0x100 == imm20 / 8 / 0x20;
  }

  lemma JumpParts(imm: int)
    requires -0x10_0000 <= imm < 0x10_0000 && imm % 2 == 0
    ensures imm == 2 * (imm / 2 % 0x400) + 0x800 * (imm / 0x800 % 2) + 0x1000 * (imm / 0x1000 % 0x100)
                   - 0x10_0000 * (imm / 0x10_0000 % 2)
    ensures imm / 0x1000 % 0x100 == imm / 0x1000 % 8 + 8 * (imm / 0x8000 % 0x20)
  {
    JumpSplit(imm);
    var q := imm / 0x1000;
    DivUnique(imm, 0x8000, q / 8, 0x1000 * (q % 8) + imm % 0x1000);
    DivUnique(imm, 0x10_0000, q / 0x100, 0x1000 * (q % 0x100) + imm % 0x1000);
    DivUnique(q / 8, 0x20, q / 0x100, (q / 8) % 0x20);
  }

  /** The twelve low bits of a J immediate. */
  lemma JumpSplit(imm: int)
    requires imm % 2 == 0
    ensures imm % 0x1000 == 2 * (imm / 2 % 0x400) + 0x800 * (imm / 0x800 % 2)
  {
    var h := imm / 2;
    DivUnique(imm, 0x800, h / 0x400, 2 * (h % 0x400));
  }

  lemma JumpImmediateValue(b20: nat, b19: nat, b11: nat, b10: nat)
    requires b20 < 2 && b19 < 0x100 && b11 < 2 && b10 < 0x400
    ensures JumpImmediate(b20, b19, b11, b10) == Wrap32(2 * b10 + 0x800 * b11 + 0x1000 * b19 - 0x10_0000 * b20)
  {
  }

  lemma ImmediateJ(rd: reg, imm: int)
    requires -0x10_0000 <= imm < 0x10_0000 && imm % 2 == 0
    ensures GetImmediate(EncodeJ(JAL, rd, imm)) == Wrap32(imm)
  {
    hide Pack, BranchImmediate, Wrap32, Extend12, JumpImmediate, GetImmediate;
    ImmediateIsSliced(EncodeJ(JAL, rd, imm));
    var b20, b11, b10 := imm / 0x10_0000 % 2, imm / 0x800 % 2, imm / 2 % 0x400;
    var f, r := imm / 0x1000 % 8, imm / 0x8000 % 0x20;
    var top := b11 + 2 * b10 + 0x800 * b20;
    PackFields(JAL, rd, f, r, top);
    PackSlices(JAL, rd, f, r, top);
    JumpTopBits(b11, b10, b20);
    MiddleBits(f, r, top);
    JumpImmediateValue(b20, f + 8 * r, b11, b10);
    JumpParts(imm);
  }

  lemma JumpTopBits(b11: nat, b10: nat, b20: nat)
    requires b11 < 2 && b10 < 0x400 && b20 < 2
    ensures var top := b11 + 2 * b10 + 0x800 * b20;
      top / 0x800 == b20 && top % 2 == b11 && top / 2 % 0x400 == b10
  {
  }

  lemma MiddleBits(f: nat, r: nat, top: nat)
    requires f < 8 && r < 0x20
    ensures (f + 8 * (r + 0x20 * top)) % 0x100 == f + 8 * r
  {
  }
}
