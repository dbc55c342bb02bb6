/** `Alu`, `AluControlUnit`, `MemControlUnit` and `NextPc::branchAlu`. */
module Alu {
  import opened Words

  const LUI := 0x37
  const AUIPC := 0x17
  const JAL := 0x6f
  const JALR := 0x67
  const BTYPE := 0x63
  const LOAD := 0x03
  const STORE := 0x23
  const ITYPE := 0x13
  const RTYPE := 0x33
  const PRIV := 0x73

  const ADD := 0
  const SUB := 1
  const OR := 2
  const AND := 3
  const XOR := 4
  const SRL := 5
  const SRA := 6
  const SLL := 7
  const SLT := 8
  const SLTU := 9

  /** `execute`; a shift by 32 or more is undefined in C++. */
  function Execute(a: u32, b: u32, aluOp: nat): Option<u32> {
    match aluOp
    case 0 => Some(Wrap32(a + b))
    case 1 => Some(Wrap32(a - b))
    case 2 => Some(Or32(a, b))
    case 3 => Some(And32(a, b))
    case 4 => Some(Xor32(a, b))
    case 5 => if b >= 32 then None else Some(ShiftRight(a, b))
    case 6 =>
      var msb := Wrap32(-(a / 0x8000_0000));
      if b >= 32 then None else Some(Xor32(ShiftRight(Xor32(msb, a), b), msb))
    case 7 => if b >= 32 then None else Some(Wrap32(Shl(a, b)))
    case 8 =>
      var msb := Wrap32(a - b) / 0x8000_0000;
      Some(if msb == 1 then 1 else 0)
    case 9 => Some(if a < b then 1 else 0)
    case _ => Some(0)
  }

  /** `getAluOperation`. */
  function AluOperation(opcode: nat, funct7: nat, funct3: nat): nat
    requires funct3 < 8
  {
    if opcode == ITYPE then
      if funct3 == 5 then (if funct7 == 0 then SRL else SRA)
      else [ADD, SLL, SLT, SLTU, XOR, 0xeeee, OR, AND][funct3]
    else if opcode == RTYPE then
      if funct3 == 0 then (if funct7 == 0 then ADD else SUB)
      else if funct3 == 5 then (if funct7 == 0 then SRL else SRA)
      else [0xeeee, SLL, SLT, SLTU, XOR, 0xeeee, OR, AND][funct3]
    else if opcode == BTYPE then SUB
    else ADD
  }

  /** `branchAlu`, whether the branch is taken. */
  predicate BranchTaken(a: u32, b: u32, funct3: nat) {
    var aluOut := Wrap32(a - b);
    match funct3
    case 0 => aluOut == 0
    case 1 => aluOut != 0
    case 4 => aluOut / 0x8000_0000 == 1
    case 5 => aluOut / 0x8000_0000 == 0
    case 6 => a < b
    case 7 => a >= b
    case _ => false
  }

  /** `getMemSize`. */
  function MemSize(funct3: nat): nat {
    match funct3
    case 0 => 1 case 4 => 1
    case 1 => 2 case 5 => 2
    case 2 => 4
    case _ => 0
  }

  // ----- signed comparison -----

  /** The difference of the signed values does not leave the signed 32-bit range. */
  predicate DifferenceFits(a: u32, b: u32) {
    -0x8000_0000 <= Signed32(a) - Signed32(b) < 0x8000_0000
  }

  /** The sign of the wrapped difference decides signed order exactly when the difference fits. */
  lemma SignOfDifference(a: u32, b: u32)
    ensures (Wrap32(a - b) / 0x8000_0000 == 1 <==> Signed32(a) < Signed32(b)) <==> DifferenceFits(a, b)
  {
  }

  /** SLT and the branches BLT and BGE agree with each other for all operands. */
  lemma ComparisonsAgree(a: u32, b: u32)
    ensures BranchTaken(a, b, 4) <==> Execute(a, b, SLT) == Some(1)
    ensures BranchTaken(a, b, 5) <==> Execute(a, b, SLT) == Some(0)
    ensures BranchTaken(a, b, 5) <==> !BranchTaken(a, b, 4)
  {
  }

  /** SLT, BLT and BGE are the signed comparisons exactly when the difference fits. */
  lemma SignedComparisonsExact(a: u32, b: u32)
    ensures Execute(a, b, SLT) == Some(if Signed32(a) < Signed32(b) then 1 else 0) <==> DifferenceFits(a, b)
    ensures (BranchTaken(a, b, 4) <==> Signed32(a) < Signed32(b)) <==> DifferenceFits(a, b)
    ensures (BranchTaken(a, b, 5) <==> Signed32(a) >= Signed32(b)) <==> DifferenceFits(a, b)
  {
    hide Wrap32;
    SignOfDifference(a, b);
    ComparisonsAgree(a, b);
    QuotientIsBit(Wrap32(a - b));
  }

  lemma QuotientIsBit(x: u32)
    ensures x / 0x8000_0000 == 0 || x / 0x8000_0000 == 1
  {
  }

  // ----- arithmetic shift -----

  /** The quotient of a complement: floor division of a negative number. */
  lemma NegativeQuotient(x: nat, p: nat)
    requires p > 0
    ensures (-1 - x) / p == -1 - x / p
  {
    MulDistr(p, -1, -(x / p));
    DivUnique(-1 - x, p, -1 - x / p, p - 1 - x % p);
  }

  lemma SignMask(a: u32)
    ensures Wrap32(-(a / 0x8000_0000)) == if a < 0x8000_0000 then 0 else ALL_ONES
  {
  }

  /** The double exclusive-or computes the floor of the signed value divided by 2^b. */
  lemma SraIsFloorDivision(a: u32, b: u32)
    requires b < 32
    ensures Execute(a, b, SRA).Some?
    ensures Signed32(Execute(a, b, SRA).value) == Signed32(a) / Pow2(b)
  {
    hide Xor32, ShiftRight, Wrap32, Pow2, Or32, And32, Shl;
    SignMask(a);
    ShiftRightIsQuotient(a, b);
    if a < 0x8000_0000 {
      XorWithZero(a);
      XorWithZero(ShiftRight(a, b));
      assert ShiftRight(a, b) <= a;
    } else {
      var x := 0xffff_ffff - a;
      XorWithOnes(a);
      ShiftRightIsQuotient(x, b);
      XorWithOnes(ShiftRight(x, b));
      assert ShiftRight(x, b) <= x;
      NegativeQuotient(x, Pow2(b));
    }
  }

  lemma XorWithZero(a: u32)
    ensures Xor32(0, a) == a && Xor32(a, 0) == a
  {
    Pow2Widths();
    XorZero(a, 32);
  }

  lemma XorWithOnes(a: u32)
    ensures Xor32(ALL_ONES, a) == 0xffff_ffff - a && Xor32(a, ALL_ONES) == 0xffff_ffff - a
  {
    Pow2Widths();
    XorOnes(a, 32);
  }
}
