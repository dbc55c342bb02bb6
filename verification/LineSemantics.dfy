/**
 The line-number program as section 6.2.5 of DWARF Version 5 describes it: instructions over
 unbounded registers, their encoding, and the theorem that the byte machine refines them.
 */
module LineSemantics {
  import opened Words
  import opened Streams
  import opened LineProgram
  import LE = LittleEndian
  import D = DieRoundTrip

  datatype Op =
    | Special(adjusted: nat)
    | Copy | AdvancePc(n: nat) | AdvanceLine(k: int) | SetFile(n: nat) | SetColumn(n: nat) | NegateStmt
    | SetBasicBlock | ConstAddPc | FixedAdvancePc(n: nat) | SetPrologueEnd | SetEpilogueBegin | SetIsa(n: nat)
    | EndSequence | SetAddress(n: nat) | SetDiscriminator(n: nat)

  /** The divisors are not zero. */
  predicate ProperHeader(h: Header) {
    h.maximumOperationsPerInstruction > 0 && h.lineRange > 0
  }

  // ----- ideal semantics -----

  /** Section 6.2.2: the registers at the start of every sequence. */
  function StartState(h: Header): Registers {
    Registers(address := 0, opIndex := 0, file := 1, line := 1, column := 0, isStmt := h.defaultIsStmt,
              basicBlock := false, endSequence := false, prologueEnd := false, epilogueBegin := false,
              isa := 0, discriminator := 0)
  }

  /** What a row shows of the registers. */
  function RowShown(r: Registers): Row {
    Row(address := r.address, line := r.line, column := r.column, file := r.file, isStmt := r.isStmt,
        prologueEnd := r.prologueEnd, epilogueBegin := r.epilogueBegin)
  }

  /** After a row the registers that describe one row only are cleared. */
  function RowDone(r: Registers): Registers {
    r.(basicBlock := false, prologueEnd := false, epilogueBegin := false, discriminator := 0)
  }

  /** The operation advance of an instruction that advances by one. */
  function OperationAdvance(h: Header, op: Op): nat
    requires ProperHeader(h)
  {
    match op
    case Special(adjusted) => Quotient(adjusted, h.lineRange)
    case AdvancePc(n) => n
    case ConstAddPc => Quotient(255 - h.opcodeBase, h.lineRange)
    case _ => 0
  }

  function Quotient(a: nat, d: u8): nat
    requires d > 0
  {
    DivNonNeg(a, d);
    a / d
  }

  /** Section 6.2.5.1: the new address and op_index. */
  function IdealAdvance(h: Header, r: Registers, advance: nat): Registers
    requires ProperHeader(h)
  {
    var ops := r.opIndex + advance;
    r.(address := r.address + h.minimumInstructionLength * (ops / h.maximumOperationsPerInstruction),
       opIndex := ops % h.maximumOperationsPerInstruction)
  }

  function IdealStep(h: Header, r: Registers, op: Op): Stepped
    requires ProperHeader(h)
  {
    match op
    case Special(adjusted) =>
      var moved := IdealAdvance(h, r, OperationAdvance(h, op));
      var m := moved.(line := r.line + h.lineBase + adjusted % h.lineRange);
      Stepped(RowDone(m), [RowShown(m)])
    case Copy => Stepped(RowDone(r), [RowShown(r)])
    case AdvancePc(_) => Stepped(IdealAdvance(h, r, OperationAdvance(h, op)), [])
    case ConstAddPc => Stepped(IdealAdvance(h, r, OperationAdvance(h, op)), [])
    case AdvanceLine(k) => Stepped(r.(line := r.line + k), [])
    case SetFile(n) => Stepped(r.(file := n), [])
    case SetColumn(n) => Stepped(r.(column := n), [])
    case NegateStmt => Stepped(r.(isStmt := !r.isStmt), [])
    case SetBasicBlock => Stepped(r.(basicBlock := true), [])
    case FixedAdvancePc(n) => Stepped(r.(address := r.address + n, opIndex := 0), [])
    case SetPrologueEnd => Stepped(r.(prologueEnd := true), [])
    case SetEpilogueBegin => Stepped(r.(epilogueBegin := true), [])
    case SetIsa(n) => Stepped(r.(isa := n), [])
    case EndSequence => Stepped(StartState(h), [RowShown(r)])
    case SetAddress(n) => Stepped(r.(address := n, opIndex := 0), [])
    case SetDiscriminator(n) => Stepped(r.(discriminator := n), [])
  }

  function IdealRun(h: Header, r: Registers, ops: seq<Op>): Stepped
    requires ProperHeader(h)
    decreases |ops|
  {
    if ops == [] then Stepped(r, [])
    else
      var s := IdealStep(h, r, ops[0]);
      var rest := IdealRun(h, s.regs, ops[1..]);
      Stepped(rest.regs, s.rows + rest.rows)
  }

  // ----- encoding -----

  /** The operand fits its encoding, and the header gives the opcode its meaning. */
  predicate Encodable(h: Header, op: Op) {
    HasOpcode(h, op) && OperandFits(op)
  }

  predicate HasOpcode(h: Header, op: Op) {
    if op.Special? then h.opcodeBase + op.adjusted <= 255
    else if IsExtended(op) then h.opcodeBase > 0
    else Opcode(op) < h.opcodeBase
  }

  predicate OperandFits(op: Op) {
    match op
    case AdvancePc(n) => n < 0x1_0000_0000
    case AdvanceLine(k) => -0x800_0000 <= k < 0x8000_0000
    case SetFile(n) => n < 0x1_0000_0000
    case SetColumn(n) => n < 0x1_0000_0000
    case SetIsa(n) => n < 0x1_0000_0000
    case SetDiscriminator(n) => n < 0x1_0000_0000
    case SetAddress(n) => n < 0x1_0000_0000
    case FixedAdvancePc(n) => n < 0x1_0000
    case _ => true
  }

  function Opcode(op: Op): u8 {
    match op
    case Copy => 1 case AdvancePc(_) => 2 case AdvanceLine(_) => 3 case SetFile(_) => 4
    case SetColumn(_) => 5 case NegateStmt => 6 case SetBasicBlock => 7 case ConstAddPc => 8
    case FixedAdvancePc(_) => 9 case SetPrologueEnd => 10 case SetEpilogueBegin => 11 case SetIsa(_) => 12
    case EndSequence => 1 case SetAddress(_) => 2 case SetDiscriminator(_) => 4
    case Special(_) => 0
  }

  predicate IsExtended(op: Op) {
    op.EndSequence? || op.SetAddress? || op.SetDiscriminator?
  }

  function Operand(op: Op): seq<u8> {
    match op
    case AdvancePc(n) => EncodeULeb(n)
    case AdvanceLine(k) => EncodeSLeb(k)
    case SetFile(n) => EncodeULeb(n)
    case SetColumn(n) => EncodeULeb(n)
    case SetIsa(n) => EncodeULeb(n)
    case SetDiscriminator(n) => EncodeULeb(n)
    case FixedAdvancePc(n) => LE.Bytes(n, 2)
    case SetAddress(n) => LE.Bytes(n, 4)
    case _ => []
  }

  /** Section 6.2.5.3: an extended opcode is preceded by the length of what follows. */
  function EncodeExtended(opcode: u8, operand: seq<u8>): (b: seq<u8>)
    ensures |b| > 0
  {
    [0] + EncodeULeb(1 + |operand|) + ([opcode] + operand)
  }

  function EncodeOp(h: Header, op: Op): (b: seq<u8>)
    requires Encodable(h, op)
    ensures |b| > 0
  {
    if op.Special? then [(h.opcodeBase + op.adjusted) as u8]
    else if IsExtended(op) then EncodeExtended(Opcode(op), Operand(op))
    else [Opcode(op)] + Operand(op)
  }

  function EncodeOps(h: Header, ops: seq<Op>): seq<u8>
    requires forall op | op in ops :: Encodable(h, op)
  {
    if ops == [] then [] else EncodeOp(h, ops[0]) + EncodeOps(h, ops[1..])
  }

  // ----- refinement -----

  /** The 32-bit registers that stand for ideal ones. */
  function Reduced(r: Registers): Registers {
    r.(address := Wrap32(r.address), line := Wrap32(r.line))
  }

  function ReducedRow(row: Row): Row {
    row.(address := Wrap32(row.address), line := Wrap32(row.line))
  }

  function ReducedRows(rows: seq<Row>): seq<Row> {
    seq(|rows|, k requires 0 <= k < |rows| => ReducedRow(rows[k]))
  }

  /** The sum of op_index and the advance stays within 32 bits, or its wrap-around makes no difference. */
  predicate AdvanceFits(h: Header, opIndex: int, advance: nat)
    requires ProperHeader(h)
  {
    var m := h.maximumOperationsPerInstruction;
    opIndex + advance < 0x1_0000_0000 || (0x1_0000_0000 % m == 0 && h.minimumInstructionLength % m == 0)
  }

  predicate NoOverflow(h: Header, r: Registers, op: Op)
    requires ProperHeader(h)
  {
    0 <= r.opIndex && AdvanceFits(h, r.opIndex, OperationAdvance(h, op))
  }

  predicate NoOverflowRun(h: Header, r: Registers, ops: seq<Op>)
    requires ProperHeader(h)
    decreases |ops|
  {
    ops != [] ==> NoOverflow(h, r, ops[0]) && NoOverflowRun(h, IdealStep(h, r, ops[0]).regs, ops[1..])
  }

  lemma ReducedNone()
    ensures ReducedRows([]) == []
  {
  }

  lemma ReducedOne(row: Row)
    ensures ReducedRows([row]) == [ReducedRow(row)]
  {
  }

  lemma AdvanceRefines(h: Header, r: Registers, advance: nat)
    requires ProperHeader(h) && 0 <= r.opIndex && AdvanceFits(h, r.opIndex, advance)
    ensures Advance(h, Reduced(r), advance) == Reduced(IdealAdvance(h, r, advance))
  {
    var m, ops := h.maximumOperationsPerInstruction, r.opIndex + advance;
    if ops < 0x1_0000_0000 {
      SmallAdvanceRefines(h, r, advance);
    } else {
      WrappedAdvanceRefines(h, r, advance, ops / 0x1_0000_0000);
    }
  }

  lemma SmallAdvanceRefines(h: Header, r: Registers, advance: nat)
    requires ProperHeader(h) && 0 <= r.opIndex && r.opIndex + advance < 0x1_0000_0000
    ensures Advance(h, Reduced(r), advance) == Reduced(IdealAdvance(h, r, advance))
  {
    hide Wrap32;
    var q := (r.opIndex + advance) / h.maximumOperationsPerInstruction;
    WrapSmall(r.opIndex + advance);
    WrapSum(r.address, h.minimumInstructionLength * q);
  }

  /** The quotient of a sum that wraps q times, for a divisor of 2^32. */
  lemma WrappedQuotient(ops: nat, m: u8, q: nat)
    requires m > 0 && 0x1_0000_0000 % m == 0 && q == ops / 0x1_0000_0000
    ensures ops / m == Wrap32(ops) / m + q * (0x1_0000_0000 / m) && ops % m == Wrap32(ops) % m
  {
    var t, low := 0x1_0000_0000 / m, Wrap32(ops);
    assert m * (q * t) == q * 0x1_0000_0000 by { MulAssoc(m, q, t); MulAssoc(q, m, t); assert m * q == q * m; }
    MulDistr(m, low / m, q * t);
    DivUnique(ops, m, low / m + q * t, low % m);
  }

  lemma WrappedAdvanceRefines(h: Header, r: Registers, advance: nat, q: nat)
    requires ProperHeader(h) && 0 <= r.opIndex && q == (r.opIndex + advance) / 0x1_0000_0000
    requires 0x1_0000_0000 % h.maximumOperationsPerInstruction == 0
    requires h.minimumInstructionLength % h.maximumOperationsPerInstruction == 0
    ensures Advance(h, Reduced(r), advance) == Reduced(IdealAdvance(h, r, advance))
  {
    hide Wrap32;
    var m, n, ops := h.maximumOperationsPerInstruction, h.minimumInstructionLength, r.opIndex + advance;
    var t, s, low := 0x1_0000_0000 / m, n / m, Wrap32(ops) / m;
    WrappedQuotient(ops, m, q);
    assert n * (low + q * t) == n * low + 0x1_0000_0000 * (s * q) by { WholeTurns(n, m, s, t, q, low); }
    WrapTurns(r.address + n * low, s * q);
    WrapSum(r.address, n * low);
  }

  lemma WholeTurns(n: nat, m: nat, s: nat, t: nat, q: nat, low: int)
    requires n == m * s && m * t == 0x1_0000_0000
    ensures n * (low + q * t) == n * low + 0x1_0000_0000 * (s * q)
  {
    MulDistr(n, low, q * t);
    assert (m * s) * (q * t) == (m * t) * (s * q);
  }

  lemma WrapTurns(x: int, k: int)
    ensures Wrap32(x + 0x1_0000_0000 * k) == Wrap32(x)
  {
  }

  /** An encodable advance from a reachable op_index agrees with the ideal one exactly when it fits. */
  lemma AdvanceExact(h: Header, r: Registers, advance: nat)
    requires ProperHeader(h) && 0 <= r.opIndex < h.maximumOperationsPerInstruction && advance < 0x1_0000_0000
    ensures Advance(h, Reduced(r), advance) == Reduced(IdealAdvance(h, r, advance))
      <==> AdvanceFits(h, r.opIndex, advance)
  {
    hide Advance, IdealAdvance, Reduced;
    if AdvanceFits(h, r.opIndex, advance) {
      AdvanceRefines(h, r, advance);
    } else if Advance(h, Reduced(r), advance) == Reduced(IdealAdvance(h, r, advance)) {
      AgreementDivides(h, r, advance);
    }
  }

  /** If an advance that wraps agrees, op_index shows that m divides 2^32, and the address that m divides the length. */
  lemma AgreementDivides(h: Header, r: Registers, advance: nat)
    requires ProperHeader(h) && 0x1_0000_0000 <= r.opIndex + advance < 0x2_0000_0000
    requires Advance(h, Reduced(r), advance) == Reduced(IdealAdvance(h, r, advance))
    ensures 0x1_0000_0000 % h.maximumOperationsPerInstruction == 0
    ensures h.minimumInstructionLength % h.maximumOperationsPerInstruction == 0
  {
    var m, n, ops := h.maximumOperationsPerInstruction, h.minimumInstructionLength, r.opIndex + advance;
    var low := ops - 0x1_0000_0000;
    assert Wrap32(ops) == low;
    SameRemainder(ops, low, m);
    WrappedQuotient(ops, m, 1);
    var t := 0x1_0000_0000 / m;
    SameAddress(r.address, n * (low / m), n * (ops / m));
    MulDistr(n, low / m, t);
    DividesBack(n, m, t);
  }

  lemma SameRemainder(x: nat, y: nat, m: u8)
    requires m > 0 && x == y + 0x1_0000_0000 && x % m == y % m
    ensures 0x1_0000_0000 % m == 0
  {
    MulDistr(m, x / m, -(y / m));
    DivUnique(0x1_0000_0000, m, x / m - y / m, 0);
  }

  lemma SameAddress(a: int, x: int, y: int)
    requires Wrap32(Wrap32(a) + x) == Wrap32(a + y)
    ensures (y - x) % 0x1_0000_0000 == 0
  {
  }

  lemma DividesBack(n: nat, m: nat, t: nat)
    requires m > 0 && m * t == 0x1_0000_0000 && (n * t) % 0x1_0000_0000 == 0
    ensures n % m == 0
  {
    var c := n * t / 0x1_0000_0000;
    assert n * t == c * (m * t) == (c * m) * t by { MulAssoc(c, m, t); }
    if n != m * c {
      Cancel(n, c * m, t);
    }
    DivUnique(n, m, c, 0);
  }

  lemma Cancel(x: int, y: int, t: nat)
    requires x * t == y * t && t > 0
    ensures x == y
  {
    MulDistr(t, x, -y);
    if x - y >= 1 {
      MulLe(t, 1, x - y);
    } else if x - y <= -1 {
      MulLe(t, x - y, -1);
    }
  }

  lemma SpecialRefines(h: Header, r: Registers, op: Op, next: nat)
    requires ProperHeader(h) && op.Special? && Encodable(h, op) && NoOverflow(h, r, op)
    ensures var s := IdealStep(h, r, op);
      SpecialOpcode(h, Reduced(r), h.opcodeBase + op.adjusted, next)
        == Ok(Stepped(Reduced(s.regs), ReducedRows(s.rows)), next)
  {
    hide Advance, IdealAdvance, Wrap32, ReducedRows;
    ReducedOne(IdealStep(h, r, op).rows[0]);
    AdvanceRefines(h, r, OperationAdvance(h, op));
    AdvanceKeepsLine(h, r, OperationAdvance(h, op));
    WrapSum(r.line, h.lineBase + op.adjusted % h.lineRange);
  }

  lemma AdvanceKeepsLine(h: Header, r: Registers, advance: nat)
    requires ProperHeader(h)
    ensures IdealAdvance(h, r, advance).line == r.line
  {
  }

  lemma StandardRefines(h: Header, r: Registers, op: Op, d: seq<u8>, i: nat)
    requires ProperHeader(h) && Encodable(h, op) && NoOverflow(h, r, op) && !op.Special? && !IsExtended(op)
    requires At(d, i, Operand(op))
    ensures var s := IdealStep(h, r, op);
      StandardOpcode(h, Reduced(r), Opcode(op), d, i)
        == Ok(Stepped(Reduced(s.regs), ReducedRows(s.rows)), i + |Operand(op)|)
  {
    hide At, ULebAt, SLebAt, U16At, EncodeULeb, EncodeSLeb, Advance, IdealAdvance, Wrap32, ReducedRows;
    ReducedNone();
    match op {
      case AdvancePc(n) =>
        ULebRoundTrip32(d, i, n);
        AdvanceRefines(h, r, n);
      case ConstAddPc =>
        AdvanceRefines(h, r, OperationAdvance(h, op));
      case AdvanceLine(k) =>
        SLebRoundTrip(d, i, k);
        WrapSum(r.line, k);
      case SetFile(n) => ULebRoundTrip32(d, i, n);
      case SetColumn(n) => ULebRoundTrip32(d, i, n);
      case SetIsa(n) => ULebRoundTrip32(d, i, n);
      case FixedAdvancePc(n) =>
        U16RoundTrip(d, i, n);
        WrapSum(r.address, n);
      case Copy => ReducedOne(RowShown(r));
      case _ =>
    }
  }

  lemma U16RoundTrip(d: seq<u8>, i: nat, n: nat)
    requires n < 0x1_0000 && At(d, i, LE.Bytes(n, 2))
    ensures U16At(d, i) == Ok(n, i + 2)
  {
    LE.Pow256Small();
    D.UIntRoundTrip(d, i, n, 2);
  }

  lemma ExtendedRefines(h: Header, r: Registers, op: Op, d: seq<u8>, i: nat)
    requires ProperHeader(h) && Encodable(h, op) && IsExtended(op)
    requires At(d, i, EncodeULeb(1 + |Operand(op)|) + ([Opcode(op)] + Operand(op)))
    ensures var s := IdealStep(h, r, op);
      ExtendedOpcode(h, Reduced(r), d, i) == Ok(
        Stepped(Reduced(s.regs), ReducedRows(s.rows)), i + |EncodeULeb(1 + |Operand(op)|)| + 1 + |Operand(op)|)
  {
    hide At, ULebAt, U32At, U8At, EncodeULeb, LebBytes, Wrap32, ReducedRows;
    var s := IdealStep(h, r, op);
    var length := EncodeULeb(1 + |Operand(op)|);
    var j := i + |length| + 1;
    AtConcat(d, i, length, [Opcode(op)] + Operand(op));
    AtConcat(d, i + |length|, [Opcode(op)], Operand(op));
    OperandShort(op);
    ULebRoundTrip(d, i, 1 + |Operand(op)|);
    assert U8At(d, i + |length|) == Ok(Opcode(op), j) by { U8RoundTrip(d, i + |length|, Opcode(op)); }
    match op {
      case EndSequence =>
        ReducedOne(s.rows[0]);
        assert Reduced(StartState(h)) == StartState(h) by { WrapSmall(0); WrapSmall(1); }
      case SetAddress(n) =>
        assert U32At(d, j) == Ok(n, j + |Operand(op)|) by { D.U32RoundTrip(d, j, n); }
        WrapSmall(n);
        ReducedNone();
      case SetDiscriminator(n) =>
        ULebRoundTrip32(d, j, n);
        ReducedNone();
    }
  }

  lemma U8RoundTrip(d: seq<u8>, i: nat, b: u8)
    requires At(d, i, [b])
    ensures U8At(d, i) == Ok(b, i + 1)
  {
    D.AtHead(d, i, [b]);
  }

  lemma OperandShort(op: Op)
    requires op.SetDiscriminator? ==> op.n < 0x1_0000_0000
    requires IsExtended(op)
    ensures |Operand(op)| <= 5
  {
    if op.SetDiscriminator? {
      GroupsLength(op.n, 5);
    }
  }

  /** The byte machine takes an encoded instruction to the reduced ideal registers and rows. */
  lemma StepRefines(h: Header, r: Registers, op: Op, d: seq<u8>, i: nat)
    requires ProperHeader(h) && Encodable(h, op) && NoOverflow(h, r, op) && At(d, i, EncodeOp(h, op))
    ensures var s := IdealStep(h, r, op);
      StepAt(h, Reduced(r), d, i) == Ok(Stepped(Reduced(s.regs), ReducedRows(s.rows)), i + |EncodeOp(h, op)|)
  {
    hide At, StandardOpcode, ExtendedOpcode, SpecialOpcode, IdealStep, EncodeULeb, Operand;
    if op.Special? {
      D.AtHead(d, i, EncodeOp(h, op));
      SpecialRefines(h, r, op, i + 1);
    } else if IsExtended(op) {
      var tail := EncodeULeb(1 + |Operand(op)|) + ([Opcode(op)] + Operand(op));
      assert EncodeOp(h, op) == [0] + tail;
      AtConcat(d, i, [0], tail);
      D.AtHead(d, i, [0]);
      ExtendedRefines(h, r, op, d, i + 1);
    } else {
      AtConcat(d, i, [Opcode(op)], Operand(op));
      D.AtHead(d, i, [Opcode(op)]);
      StandardRefines(h, r, op, d, i + 1);
    }
  }

  /** From a reachable op_index, the byte machine agrees with the ideal one exactly when the advance fits. */
  lemma StepExact(h: Header, r: Registers, op: Op, d: seq<u8>, i: nat)
    requires ProperHeader(h) && Encodable(h, op) && 0 <= r.opIndex < h.maximumOperationsPerInstruction
    requires At(d, i, EncodeOp(h, op))
    ensures var s := IdealStep(h, r, op);
      StepAt(h, Reduced(r), d, i) == Ok(Stepped(Reduced(s.regs), ReducedRows(s.rows)), i + |EncodeOp(h, op)|)
      <==> NoOverflow(h, r, op)
  {
    hide At, StepAt, IdealStep, IdealAdvance, Reduced, EncodeOp, Advance, AdvanceFits, OperationAdvance;
    OtherAdvancesFit(h, r, op);
    if NoOverflow(h, r, op) {
      StepRefines(h, r, op, d, i);
    } else {
      AdvancePcStep(h, r, op.n, d, i);
      AdvanceExact(h, r, op.n);
    }
  }

  /** Only DW_LNS_advance_pc can advance by so much that the sum wraps. */
  lemma OtherAdvancesFit(h: Header, r: Registers, op: Op)
    requires ProperHeader(h) && Encodable(h, op) && 0 <= r.opIndex < h.maximumOperationsPerInstruction
    ensures op.AdvancePc? || NoOverflow(h, r, op)
    ensures op.AdvancePc? ==> OperationAdvance(h, op) == op.n && op.n < 0x1_0000_0000
  {
    QuotientSmall(255, h.lineRange);
  }

  lemma QuotientSmall(bound: nat, d: u8)
    requires d > 0
    ensures forall a: nat | a <= bound :: Quotient(a, d) <= bound
  {
    forall a: nat | a <= bound ensures Quotient(a, d) <= bound {
      var q := Quotient(a, d);
      if q > a {
        MulLe(q, 1, d);
      }
    }
  }

  lemma AdvancePcStep(h: Header, r: Registers, n: nat, d: seq<u8>, i: nat)
    requires ProperHeader(h) && Encodable(h, AdvancePc(n)) && At(d, i, EncodeOp(h, AdvancePc(n)))
    ensures StepAt(h, Reduced(r), d, i).Ok?
    ensures StepAt(h, Reduced(r), d, i).value.regs == Advance(h, Reduced(r), n)
    ensures IdealStep(h, r, AdvancePc(n)).regs == IdealAdvance(h, r, n)
  {
    hide At, ULebAt, EncodeULeb, Advance, IdealAdvance, Wrap32;
    AtConcat(d, i, [2], EncodeULeb(n));
    D.AtHead(d, i, [2]);
    ULebRoundTrip32(d, i + 1, n);
  }

  // ----- opcodes that the code does not know -----

  /**
   An extended opcode without a case changes no register. Its length is not used, so that the
   next instruction is looked for in its operand: it is passed over exactly when there is none.
   */
  lemma UnknownExtended(h: Header, r: Registers, opcode: u8, operand: seq<u8>, d: seq<u8>, i: nat)
    requires h.opcodeBase > 0 && opcode !in {1, 2, 4} && At(d, i, EncodeExtended(opcode, operand))
    ensures 1 + |operand| < 0x1_0000_0000 ==>
      StepAt(h, r, d, i) == Ok(Stepped(r, []), i + |EncodeExtended(opcode, operand)| - |operand|)
    ensures StepAt(h, r, d, i) == Ok(Stepped(r, []), i + |EncodeExtended(opcode, operand)|) <==> operand == []
  {
    hide At, ULebAt, EncodeULeb, U8At;
    var length := EncodeULeb(1 + |operand|);
    assert EncodeExtended(opcode, operand) == [0] + (length + ([opcode] + operand));
    AtConcat(d, i, [0], length + ([opcode] + operand));
    AtConcat(d, i + 1, length, [opcode] + operand);
    AtConcat(d, i + 1 + |length|, [opcode], operand);
    U8RoundTrip(d, i, 0);
    ULebRoundTrip32(d, i + 1, 1 + |operand|);
    U8RoundTrip(d, i + 1 + |length|, opcode);
  }

  /** Unsigned LEB128 operands, as many as standard_opcode_lengths says. */
  function EncodeOperands(operands: seq<nat>): (b: seq<u8>)
    ensures |b| >= |operands|
  {
    if operands == [] then [] else EncodeULeb(operands[0]) + EncodeOperands(operands[1..])
  }

  /** A standard opcode from 13 on is passed over exactly when it has no operands. */
  lemma UnknownStandard(h: Header, r: Registers, opcode: u8, operands: seq<nat>, d: seq<u8>, i: nat)
    requires 12 < opcode < h.opcodeBase && At(d, i, [opcode] + EncodeOperands(operands))
    ensures StepAt(h, r, d, i) == Ok(Stepped(r, []), i + 1)
    ensures StepAt(h, r, d, i).next == i + |[opcode] + EncodeOperands(operands)| <==> operands == []
  {
    hide At, U8At;
    AtConcat(d, i, [opcode], EncodeOperands(operands));
    U8RoundTrip(d, i, opcode);
  }

  lemma ReducedConcat(a: seq<Row>, b: seq<Row>)
    ensures ReducedRows(a + b) == ReducedRows(a) + ReducedRows(b)
  {
  }

  /** Running the bytes of a program yields exactly the rows of its ideal run, in order. */
  lemma {:induction false} RunRefines(h: Header, r: Registers, ops: seq<Op>, d: seq<u8>, i: nat)
    requires ProperHeader(h) && (forall op | op in ops :: Encodable(h, op)) && NoOverflowRun(h, r, ops)
    requires At(d, i, EncodeOps(h, ops))
    ensures var s := IdealRun(h, r, ops);
      Run(h, Reduced(r), d, i, i + |EncodeOps(h, ops)|)
        == Ok(Stepped(Reduced(s.regs), ReducedRows(s.rows)), i + |EncodeOps(h, ops)|)
    decreases |ops|
  {
    hide At, StepAt, EncodeOp, IdealStep, Reduced, Encodable;
    if ops == [] {
      ReducedNone();
    } else {
      var s := IdealStep(h, r, ops[0]);
      var rest := IdealRun(h, s.regs, ops[1..]);
      AtConcat(d, i, EncodeOp(h, ops[0]), EncodeOps(h, ops[1..]));
      StepRefines(h, r, ops[0], d, i);
      RunRefines(h, s.regs, ops[1..], d, i + |EncodeOp(h, ops[0])|);
      ReducedConcat(s.rows, rest.rows);
    }
  }

  // ----- address advance -----

  predicate Advances(op: Op) {
    op.Special? || op.AdvancePc? || op.ConstAddPc?
  }

  function TotalAdvance(h: Header, ops: seq<Op>): nat
    requires ProperHeader(h)
  {
    if ops == [] then 0 else OperationAdvance(h, ops[0]) + TotalAdvance(h, ops[1..])
  }

  lemma AdvanceStep(h: Header, r: Registers, op: Op)
    requires ProperHeader(h) && Advances(op)
    ensures var s := IdealStep(h, r, op).regs;
      s.address == IdealAdvance(h, r, OperationAdvance(h, op)).address
      && s.opIndex == IdealAdvance(h, r, OperationAdvance(h, op)).opIndex
  {
  }

  /** Two advances in a row are one advance by the sum. */
  lemma AdvanceTwice(h: Header, r: Registers, s: Registers, a: nat, b: nat)
    requires ProperHeader(h)
    requires s.address == IdealAdvance(h, r, a).address && s.opIndex == IdealAdvance(h, r, a).opIndex
    ensures IdealAdvance(h, s, b).address == IdealAdvance(h, r, a + b).address
    ensures IdealAdvance(h, s, b).opIndex == IdealAdvance(h, r, a + b).opIndex
  {
    var m := h.maximumOperationsPerInstruction;
    var x := r.opIndex + a;
    var q, t := x / m, (x % m + b) / m;
    assert x + b == m * (q + t) + (x % m + b) % m by { MulDistr(m, q, t); }
    DivUnique(x + b, m, q + t, (x % m + b) % m);
    MulDistr(h.minimumInstructionLength, q, t);
  }

  /**
   Section 6.2.5.1 in closed form: over special opcodes, DW_LNS_advance_pc and
   DW_LNS_const_add_pc only the total advance matters.
   */
  lemma {:induction false} AdvanceClosedForm(h: Header, r: Registers, ops: seq<Op>)
    requires ProperHeader(h) && 0 <= r.opIndex < h.maximumOperationsPerInstruction
    requires forall op | op in ops :: Advances(op)
    ensures var s := IdealRun(h, r, ops).regs;
      var total := r.opIndex + TotalAdvance(h, ops);
      && s.address == r.address + h.minimumInstructionLength * (total / h.maximumOperationsPerInstruction)
      && s.opIndex == total % h.maximumOperationsPerInstruction
    decreases |ops|
  {
    hide IdealStep, OperationAdvance, Advances;
    var m := h.maximumOperationsPerInstruction;
    if ops == [] {
      DivUnique(r.opIndex, m, 0, r.opIndex);
    } else {
      var a, s := OperationAdvance(h, ops[0]), IdealStep(h, r, ops[0]).regs;
      AdvanceStep(h, r, ops[0]);
      ModRange(r.opIndex + a, m);
      AdvanceClosedForm(h, s, ops[1..]);
      AdvanceTwice(h, r, s, a, TotalAdvance(h, ops[1..]));
    }
  }

  lemma ModRange(x: nat, m: u8)
    requires m > 0
    ensures 0 <= x % m < m
  {
  }

  lemma {:induction false} BoundedAdvanceFits(h: Header, r: Registers, ops: seq<Op>)
    requires ProperHeader(h) && 0 <= r.opIndex
    requires forall op | op in ops :: Advances(op)
    requires r.opIndex + TotalAdvance(h, ops) < 0x1_0000_0000
    ensures NoOverflowRun(h, r, ops)
    decreases |ops|
  {
    hide IdealStep, OperationAdvance, Advances;
    if ops != [] {
      AdvanceStep(h, r, ops[0]);
      ModSmaller(r.opIndex + OperationAdvance(h, ops[0]), h.maximumOperationsPerInstruction);
      BoundedAdvanceFits(h, IdealStep(h, r, ops[0]).regs, ops[1..]);
    }
  }

  lemma ModSmaller(x: nat, m: u8)
    requires m > 0
    ensures 0 <= x % m <= x
  {
  }

  /** The closed form of the machine: a total advance below 2^32 moves the address exactly so, modulo 2^32. */
  lemma MachineClosedForm(h: Header, r: Registers, ops: seq<Op>, d: seq<u8>, i: nat)
    requires ProperHeader(h) && r.opIndex == 0
    requires forall op | op in ops :: Advances(op) && Encodable(h, op)
    requires TotalAdvance(h, ops) < 0x1_0000_0000 && At(d, i, EncodeOps(h, ops))
    ensures var run := Run(h, Reduced(r), d, i, i + |EncodeOps(h, ops)|);
      var total := TotalAdvance(h, ops);
      && run.Ok?
      && run.value.regs.address
        == Wrap32(r.address + h.minimumInstructionLength * (total / h.maximumOperationsPerInstruction))
      && run.value.regs.opIndex == total % h.maximumOperationsPerInstruction
  {
    hide At, Run, IdealRun, TotalAdvance, EncodeOps, NoOverflowRun, Wrap32;
    BoundedAdvanceFits(h, r, ops);
    RunRefines(h, r, ops, d, i);
    AdvanceClosedForm(h, r, ops);
  }

  /** In every run op_index stays below the maximum, whatever the bytes are. */
  lemma {:induction false} OpIndexBounded(h: Header, r: Registers, d: seq<u8>, i: nat, length: nat)
    requires h.maximumOperationsPerInstruction > 0 && 0 <= r.opIndex < h.maximumOperationsPerInstruction
    requires Run(h, r, d, i, length).Ok?
    ensures 0 <= Run(h, r, d, i, length).value.regs.opIndex < h.maximumOperationsPerInstruction
    decreases length - i
  {
    hide StepAt;
    if i < length {
      OpIndexStep(h, r, d, i);
      OpIndexBounded(h, StepAt(h, r, d, i).value.regs, d, StepAt(h, r, d, i).next, length);
    }
  }

  lemma OpIndexStep(h: Header, r: Registers, d: seq<u8>, i: nat)
    requires h.maximumOperationsPerInstruction > 0 && 0 <= r.opIndex < h.maximumOperationsPerInstruction
    requires StepAt(h, r, d, i).Ok?
    ensures 0 <= StepAt(h, r, d, i).value.regs.opIndex < h.maximumOperationsPerInstruction
  {
    hide ULebAt, SLebAt, U16At, U32At, U8At, SpecialOpcode, StandardOpcode, Wrap32;
    var opcode := U8At(d, i).value;
    if opcode >= h.opcodeBase {
      SpecialOpIndex(h, r, opcode, U8At(d, i).next);
    } else if opcode > 0 {
      StandardOpIndex(h, r, opcode, d, U8At(d, i).next);
    }
  }

  lemma SpecialOpIndex(h: Header, r: Registers, opcode: u8, next: nat)
    requires h.maximumOperationsPerInstruction > 0 && opcode >= h.opcodeBase && SpecialOpcode(h, r, opcode, next).Ok?
    ensures 0 <= SpecialOpcode(h, r, opcode, next).value.regs.opIndex < h.maximumOperationsPerInstruction
  {
  }

  lemma StandardOpIndex(h: Header, r: Registers, opcode: u8, d: seq<u8>, i: nat)
    requires h.maximumOperationsPerInstruction > 0 && 0 <= r.opIndex < h.maximumOperationsPerInstruction
    requires StandardOpcode(h, r, opcode, d, i).Ok?
    ensures 0 <= StandardOpcode(h, r, opcode, d, i).value.regs.opIndex < h.maximumOperationsPerInstruction
  {
    hide ULebAt, SLebAt, U16At, Wrap32, Advance;
    match opcode {
      case 2 => AdvanceInRange(h, r, Wrap32(ULebAt(d, i).value));
      case 8 => AdvanceInRange(h, r, (255 - h.opcodeBase) / h.lineRange);
      case _ =>
    }
  }

  lemma AdvanceInRange(h: Header, r: Registers, a: int)
    requires h.maximumOperationsPerInstruction > 0
    ensures 0 <= Advance(h, r, a).opIndex < h.maximumOperationsPerInstruction
  {
  }

  /** Row addresses do not decrease, and they lie between two addresses. */
  predicate RowsAscend(rows: seq<Row>, lo: int, hi: int) {
    && lo <= hi && (forall k | 0 <= k < |rows| :: lo <= rows[k].address <= hi)
    && forall j, k | 0 <= j < k < |rows| :: rows[j].address <= rows[k].address
  }

  lemma RowsAscendConcat(a: seq<Row>, b: seq<Row>, lo: int, mid: int, hi: int)
    requires RowsAscend(a, lo, mid) && RowsAscend(b, mid, hi)
    ensures RowsAscend(a + b, lo, hi)
  {
    forall j, k | 0 <= j < k < |a + b| ensures (a + b)[j].address <= (a + b)[k].address {
      if j < |a| <= k {
        assert (a + b)[j].address <= mid <= b[k - |a|].address;
      }
    }
  }

  /** The unbounded address goes up only, but for DW_LNE_set_address and DW_LNE_end_sequence. */
  lemma {:induction false} IdealAscends(h: Header, r: Registers, ops: seq<Op>)
    requires ProperHeader(h) && 0 <= r.opIndex
    requires forall op | op in ops :: !op.SetAddress? && !op.EndSequence?
    ensures RowsAscend(IdealRun(h, r, ops).rows, r.address, IdealRun(h, r, ops).regs.address)
    decreases |ops|
  {
    hide IdealStep, RowsAscend;
    if ops == [] {
      NoRowsAscend(r.address);
    } else {
      var s := IdealStep(h, r, ops[0]);
      var rest := IdealRun(h, s.regs, ops[1..]);
      AddressStep(h, r, ops[0]);
      IdealAscends(h, s.regs, ops[1..]);
      RowsAscendConcat(s.rows, rest.rows, r.address, s.regs.address, rest.regs.address);
    }
  }

  lemma NoRowsAscend(a: int)
    ensures RowsAscend([], a, a)
  {
  }

  lemma ReducedAscend(rows: seq<Row>, lo: int, hi: int)
    requires RowsAscend(rows, lo, hi) && 0 <= lo && hi < 0x1_0000_0000
    ensures RowsAscend(ReducedRows(rows), lo, hi)
  {
    forall k | 0 <= k < |rows| ensures ReducedRows(rows)[k].address == rows[k].address {
      WrapSmall(rows[k].address);
    }
  }

  /**
   On the bytes, in 32 bits: if the address that the instructions add up to does not wrap, the
   address and the rows' addresses never go down, whatever the instructions other than
   DW_LNE_set_address and DW_LNE_end_sequence are.
   */
  lemma AddressNeverDecreases(h: Header, r: Registers, ops: seq<Op>, d: seq<u8>, i: nat)
    requires ProperHeader(h) && 0 <= r.opIndex && (forall op | op in ops :: Encodable(h, op))
    requires forall op | op in ops :: !op.SetAddress? && !op.EndSequence?
    requires NoOverflowRun(h, r, ops) && At(d, i, EncodeOps(h, ops))
    requires 0 <= r.address && IdealRun(h, r, ops).regs.address < 0x1_0000_0000
    ensures var run := Run(h, Reduced(r), d, i, i + |EncodeOps(h, ops)|);
      run.Ok? && RowsAscend(run.value.rows, Reduced(r).address, run.value.regs.address)
  {
    hide At, Run, IdealRun, EncodeOps, NoOverflowRun, RowsAscend, Wrap32, Encodable;
    RunRefines(h, r, ops, d, i);
    IdealAscends(h, r, ops);
    var s := IdealRun(h, r, ops);
    RowsAscendBounds(s.rows, r.address, s.regs.address);
    ReducedAscend(s.rows, r.address, s.regs.address);
    WrapSmall(r.address);
    WrapSmall(s.regs.address);
  }

  lemma RowsAscendBounds(rows: seq<Row>, lo: int, hi: int)
    requires RowsAscend(rows, lo, hi)
    ensures lo <= hi
  {
  }

  lemma AddressStep(h: Header, r: Registers, op: Op)
    requires ProperHeader(h) && 0 <= r.opIndex && !op.SetAddress? && !op.EndSequence?
    ensures RowsAscend(IdealStep(h, r, op).rows, r.address, IdealStep(h, r, op).regs.address)
    ensures IdealStep(h, r, op).regs.opIndex >= 0
  {
    hide OperationAdvance, IdealAdvance;
    AdvanceGrows(h, r, OperationAdvance(h, op));
  }

  lemma AdvanceGrows(h: Header, r: Registers, advance: nat)
    requires ProperHeader(h) && 0 <= r.opIndex
    ensures IdealAdvance(h, r, advance).address >= r.address && IdealAdvance(h, r, advance).opIndex >= 0
  {
  }
}
