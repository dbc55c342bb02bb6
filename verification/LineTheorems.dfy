/**
 Whole line programs: sequences are decoded independently of each other, and every list of
 row sequences has an encoding that is decoded back to it.
 */
module LineTheorems {
  import opened Words
  import opened Streams
  import opened LineProgram
  import opened LineSemantics

  // ----- a successful read does not depend on what surrounds the bytes -----

  lemma {:induction false} ULebEmbeds(d: seq<u8>, i: nat, k: nat, result: nat, e: seq<u8>, off: nat)
    requires At(e, off, d) && ULebFrom(d, i, k, result).Ok?
    ensures var r := ULebFrom(d, i, k, result);
      ULebFrom(e, off + i, k, result) == Ok(r.value, off + r.next)
    decreases |d| - i
  {
    hide ShiftedPayload;
    assert d[i] == e[off + i];
    if d[i] >= 0x80 {
      ULebEmbeds(d, i + 1, k + 1, result + ShiftedPayload(d[i] % 0x80, k).value, e, off);
    }
  }

  lemma {:induction false} SLebEmbeds(d: seq<u8>, i: nat, k: nat, result: nat, e: seq<u8>, off: nat)
    requires At(e, off, d) && SLebFrom(d, i, k, result).Ok?
    ensures var r := SLebFrom(d, i, k, result);
      SLebFrom(e, off + i, k, result) == Ok(r.value, off + r.next)
    decreases |d| - i
  {
    hide ShiftedPayload, Place;
    assert d[i] == e[off + i];
    if d[i] >= 0x80 {
      SLebEmbeds(d, i + 1, k + 1, result + ShiftedPayload(d[i] % 0x80, k).value, e, off);
    }
  }

  lemma FixedEmbeds(d: seq<u8>, i: nat, e: seq<u8>, off: nat)
    requires At(e, off, d)
    ensures i < |d| ==> U8At(e, off + i) == Ok(d[i], off + i + 1)
    ensures i + 2 <= |d| ==> U16At(e, off + i) == Ok(U16At(d, i).value, off + i + 2)
    ensures i + 4 <= |d| ==> U32At(e, off + i) == Ok(U32At(d, i).value, off + i + 4)
  {
    if i < |d| {
      assert d[i] == e[off + i];
    }
    if i + 2 <= |d| {
      assert e[off + i..off + i + 2] == d[i..i + 2];
    }
    if i + 4 <= |d| {
      assert e[off + i..off + i + 4] == d[i..i + 4];
    }
  }

  /** The reads of one instruction, at i in d and at off + i in e. */
  ghost predicate SameReads(d: seq<u8>, i: nat, e: seq<u8>, off: nat) {
    && (U8At(d, i).Ok? ==> U8At(e, off + i) == Ok(U8At(d, i).value, off + U8At(d, i).next))
    && (U16At(d, i).Ok? ==> U16At(e, off + i) == Ok(U16At(d, i).value, off + U16At(d, i).next))
    && (U32At(d, i).Ok? ==> U32At(e, off + i) == Ok(U32At(d, i).value, off + U32At(d, i).next))
    && (ULebAt(d, i).Ok? ==> ULebAt(e, off + i) == Ok(ULebAt(d, i).value, off + ULebAt(d, i).next))
    && (SLebAt(d, i).Ok? ==> SLebAt(e, off + i) == Ok(SLebAt(d, i).value, off + SLebAt(d, i).next))
  }

  lemma ReadsEmbed(d: seq<u8>, i: nat, e: seq<u8>, off: nat)
    requires At(e, off, d)
    ensures SameReads(d, i, e, off)
  {
    hide At, ULebFrom, SLebFrom;
    FixedEmbeds(d, i, e, off);
    if ULebAt(d, i).Ok? {
      ULebEmbeds(d, i, 0, 0, e, off);
    }
    if SLebAt(d, i).Ok? {
      SLebEmbeds(d, i, 0, 0, e, off);
    }
  }

  lemma StandardEmbeds(h: Header, r: Registers, opcode: u8, d: seq<u8>, i: nat, e: seq<u8>, off: nat)
    requires SameReads(d, i, e, off) && StandardOpcode(h, r, opcode, d, i).Ok?
    ensures var s := StandardOpcode(h, r, opcode, d, i);
      StandardOpcode(h, r, opcode, e, off + i) == Ok(s.value, off + s.next)
  {
    hide U8At, U16At, U32At, ULebAt, SLebAt, Advance, Wrap32;
  }

  lemma ExtendedEmbeds(h: Header, r: Registers, d: seq<u8>, i: nat, e: seq<u8>, off: nat)
    requires At(e, off, d) && ExtendedOpcode(h, r, d, i).Ok?
    ensures var s := ExtendedOpcode(h, r, d, i);
      ExtendedOpcode(h, r, e, off + i) == Ok(s.value, off + s.next)
  {
    hide At, U8At, U16At, U32At, ULebAt, SLebAt, Wrap32;
    var i1 := ULebAt(d, i).next;
    ReadsEmbed(d, i, e, off);
    ReadsEmbed(d, i1, e, off);
    ReadsEmbed(d, U8At(d, i1).next, e, off);
  }

  lemma StepEmbeds(h: Header, r: Registers, d: seq<u8>, i: nat, e: seq<u8>, off: nat)
    requires At(e, off, d) && StepAt(h, r, d, i).Ok?
    ensures var s := StepAt(h, r, d, i);
      StepAt(h, r, e, off + i) == Ok(s.value, off + s.next)
  {
    hide At, U8At, StandardOpcode, ExtendedOpcode, Advance, Wrap32, SameReads;
    var opcode, i1 := U8At(d, i).value, U8At(d, i).next;
    ReadsEmbed(d, i, e, off);
    ReadsEmbed(d, i1, e, off);
    assert U8At(e, off + i) == Ok(opcode, off + i1) by { FirstByte(d, i, e, off); }
    if opcode < h.opcodeBase {
      if opcode > 0 {
        StandardEmbeds(h, r, opcode, d, i1, e, off);
      } else {
        ExtendedEmbeds(h, r, d, i1, e, off);
      }
    }
  }

  lemma FirstByte(d: seq<u8>, i: nat, e: seq<u8>, off: nat)
    requires SameReads(d, i, e, off) && U8At(d, i).Ok?
    ensures U8At(e, off + i) == Ok(U8At(d, i).value, off + U8At(d, i).next)
  {
  }

  lemma {:induction false} RunEmbeds(h: Header, r: Registers, d: seq<u8>, i: nat, length: nat, e: seq<u8>, off: nat)
    requires At(e, off, d) && Run(h, r, d, i, length).Ok?
    ensures var s := Run(h, r, d, i, length);
      Run(h, r, e, off + i, off + length) == Ok(s.value, off + s.next)
    decreases length - i
  {
    hide At, StepAt;
    if i < length {
      var s := StepAt(h, r, d, i);
      StepEmbeds(h, r, d, i, e, off);
      RunEmbeds(h, s.value.regs, d, s.next, length, e, off);
    }
  }

  // ----- sequences -----

  lemma {:induction false} RunSplits(h: Header, r: Registers, d: seq<u8>, i: nat, mid: nat, length: nat)
    requires mid <= length && Run(h, r, d, i, mid).Ok? && Run(h, r, d, i, mid).next == mid
    ensures Run(h, r, d, i, length) ==
      Then(Run(h, r, d, i, mid).value, Run(h, Run(h, r, d, i, mid).value.regs, d, mid, length))
    decreases mid - i
  {
    hide StepAt;
    var whole := Run(h, r, d, i, mid);
    if i < mid {
      var s := StepAt(h, r, d, i);
      RunSplits(h, s.value.regs, d, s.next, mid, length);
      ThenThen(s.value, Run(h, s.value.regs, d, s.next, mid).value, Run(h, whole.value.regs, d, mid, length));
    } else {
      ThenNothing(whole.value, Run(h, r, d, mid, length));
    }
  }

  /** The last instruction executed is DW_LNE_end_sequence. */
  predicate EndsSequence(h: Header, r: Registers, d: seq<u8>, i: nat, length: nat)
    requires Run(h, r, d, i, length).Ok?
    decreases length - i
  {
    i < length &&
    var s := StepAt(h, r, d, i);
    if s.next >= length then IsEndSequence(h, d, i) else EndsSequence(h, s.value.regs, d, s.next, length)
  }

  predicate IsEndSequence(h: Header, d: seq<u8>, i: nat) {
    && i < |d| && d[i] == 0 && h.opcodeBase > 0
    && ULebAt(d, i + 1).Ok? && U8At(d, ULebAt(d, i + 1).next) == Ok(1, ULebAt(d, i + 1).next + 1)
  }

  lemma {:induction false} EndSequenceResets(h: Header, r: Registers, d: seq<u8>, i: nat, length: nat)
    requires Run(h, r, d, i, length).Ok? && EndsSequence(h, r, d, i, length)
    ensures var end := Run(h, r, d, i, length).value.regs;
      && end.address == 0 && end.opIndex == 0 && end.file == 1 && end.line == 1 && end.column == 0
      && end.isStmt == h.defaultIsStmt && !end.basicBlock && !end.endSequence && !end.prologueEnd && !end.epilogueBegin
      && end.isa == 0 && end.discriminator == 0
    decreases length - i
  {
    var s := StepAt(h, r, d, i);
    if s.next >= length {
      EndSequenceStep(h, r, d, i);
    } else {
      hide StepAt;
      EndSequenceResets(h, s.value.regs, d, s.next, length);
    }
  }

  lemma EndSequenceStep(h: Header, r: Registers, d: seq<u8>, i: nat)
    requires IsEndSequence(h, d, i)
    ensures StepAt(h, r, d, i).Ok? && StepAt(h, r, d, i).value == Stepped(StartState(h), [RowShown(r)])
  {
    hide ULebAt, U32At;
  }

  /**
   Programs of any bytes: when p is consumed exactly and ends a sequence, decoding p and then
   q is decoding p followed by decoding q on its own.
   */
  lemma SequencesIndependent(h: Header, p: seq<u8>, q: seq<u8>)
    requires Run(h, StartState(h), p, 0, |p|).Ok? && Run(h, StartState(h), p, 0, |p|).next == |p|
    requires EndsSequence(h, StartState(h), p, 0, |p|)
    requires Run(h, StartState(h), q, 0, |q|).Ok?
    ensures var whole := Run(h, StartState(h), p + q, 0, |p + q|);
      && whole.Ok?
      && whole.value.rows == Run(h, StartState(h), p, 0, |p|).value.rows + Run(h, StartState(h), q, 0, |q|).value.rows
      && whole.value.regs == Run(h, StartState(h), q, 0, |q|).value.regs
  {
    hide Run, EndsSequence;
    AtConcat(p + q, 0, p, q);
    WholeAt(p + q);
    RunEmbeds(h, StartState(h), p, 0, |p|, p + q, 0);
    RunEmbeds(h, StartState(h), q, 0, |q|, p + q, |p|);
    RunSplits(h, StartState(h), p + q, 0, |p|, |p + q|);
    EndSequenceResets(h, StartState(h), p, 0, |p|);
  }

  lemma WholeAt(d: seq<u8>)
    ensures At(d, 0, d)
  {
  }

  // ----- every list of rows can be written and read back -----

  predicate ProperRow(row: Row) {
    && 0 <= row.address < 0x1_0000_0000 && 0 <= row.line < 0x1_0000_0000
    && 0 <= row.column < 0x1_0000_0000 && 0 <= row.file < 0x1_0000_0000
  }

  /** Line advances, each within the bound of the signed decoder. */
  function LineOps(delta: int): (ops: seq<Op>)
    ensures forall op | op in ops :: op.AdvanceLine? && -0x800_0000 <= op.k < 0x8000_0000
    decreases if delta < 0 then -delta else delta
  {
    if delta == 0 then []
    else if delta < -0x800_0000 then [AdvanceLine(-0x800_0000)] + LineOps(delta + 0x800_0000)
    else if delta >= 0x8000_0000 then [AdvanceLine(0x7fff_ffff)] + LineOps(delta - 0x7fff_ffff)
    else [AdvanceLine(delta)]
  }

  /** Address, file and column, where they differ from those of the row before. */
  function PlaceOps(before: Row, row: Row): seq<Op>
    requires ProperRow(row)
  {
    (if row.address != before.address then [SetAddress(row.address)] else [])
    + (if row.file != before.file then [SetFile(row.file)] else [])
    + (if row.column != before.column then [SetColumn(row.column)] else [])
  }

  function FlagOps(isStmt: bool, row: Row): seq<Op> {
    (if row.isStmt != isStmt then [NegateStmt] else [])
    + (if row.prologueEnd then [SetPrologueEnd] else [])
    + (if row.epilogueBegin then [SetEpilogueBegin] else [])
  }

  /** Instructions for what a row changes; a register that stays the same has none. */
  function RowOps(before: Row, row: Row): seq<Op>
    requires ProperRow(row)
  {
    PlaceOps(before, row) + (LineOps(row.line - before.line) + FlagOps(before.isStmt, row))
  }

  /** One sequence: all rows by DW_LNS_copy, the last one by DW_LNE_end_sequence. */
  function SequenceOps(before: Row, rows: seq<Row>): seq<Op>
    requires rows != [] && forall row | row in rows :: ProperRow(row)
    decreases |rows|
  {
    if |rows| == 1 then RowOps(before, rows[0]) + [EndSequence]
    else RowOps(before, rows[0]) + [Copy] + SequenceOps(rows[0], rows[1..])
  }

  /** What a row would show at the start of a sequence. */
  function StartRow(h: Header): Row {
    Row(address := 0, line := 1, column := 0, file := 1, isStmt := h.defaultIsStmt,
        prologueEnd := false, epilogueBegin := false)
  }

  predicate ProperSequences(sequences: seq<seq<Row>>) {
    forall rows | rows in sequences :: ProperSequence(rows)
  }

  predicate ProperSequence(rows: seq<Row>) {
    rows != [] && forall row | row in rows :: ProperRow(row)
  }

  function AllOps(h: Header, sequences: seq<seq<Row>>): seq<Op>
    requires ProperSequences(sequences)
  {
    if sequences == [] then []
    else
      assert sequences[0] in sequences;
      SequenceOps(StartRow(h), sequences[0]) + AllOps(h, sequences[1..])
  }

  function Concatenated(sequences: seq<seq<Row>>): seq<Row> {
    if sequences == [] then [] else sequences[0] + Concatenated(sequences[1..])
  }

  lemma {:induction false} IdealConcat(h: Header, r: Registers, a: seq<Op>, b: seq<Op>)
    requires ProperHeader(h)
    ensures var s := IdealRun(h, r, a);
      var t := IdealRun(h, s.regs, b);
      IdealRun(h, r, a + b) == Stepped(t.regs, s.rows + t.rows)
    decreases |a|
  {
    hide IdealStep;
    if a == [] {
      assert [] + b == b;
      assert [] + IdealRun(h, r, b).rows == IdealRun(h, r, b).rows;
    } else {
      var s := IdealStep(h, r, a[0]);
      assert (a + b)[1..] == a[1..] + b;
      IdealConcat(h, s.regs, a[1..], b);
      var rest := IdealRun(h, s.regs, a[1..]);
      assert s.rows + (rest.rows + IdealRun(h, rest.regs, b).rows)
        == (s.rows + rest.rows) + IdealRun(h, rest.regs, b).rows;
    }
  }

  lemma IdealOne(h: Header, r: Registers, op: Op)
    requires ProperHeader(h)
    ensures IdealRun(h, r, [op]) == IdealStep(h, r, op)
  {
  }

  /** Instructions that append no row, in front of others. */
  lemma IdealSilent(h: Header, r: Registers, a: seq<Op>, b: seq<Op>)
    requires ProperHeader(h) && IdealRun(h, r, a).rows == []
    ensures IdealRun(h, r, a + b) == IdealRun(h, IdealRun(h, r, a).regs, b)
  {
    hide IdealRun;
    var t := IdealRun(h, IdealRun(h, r, a).regs, b);
    IdealConcat(h, r, a, b);
    assert [] + t.rows == t.rows;
  }

  lemma {:induction false} LineOpsRun(h: Header, r: Registers, delta: int)
    requires ProperHeader(h)
    ensures IdealRun(h, r, LineOps(delta)) == Stepped(r.(line := r.line + delta), [])
    decreases if delta < 0 then -delta else delta
  {
    hide IdealRun, IdealStep;
    if delta == 0 {
      LineOpsEnd(h, r);
    } else if delta < -0x800_0000 {
      LineOpsStep(h, r, -0x800_0000, LineOps(delta + 0x800_0000));
      LineOpsRun(h, r.(line := r.line - 0x800_0000), delta + 0x800_0000);
    } else if delta >= 0x8000_0000 {
      LineOpsStep(h, r, 0x7fff_ffff, LineOps(delta - 0x7fff_ffff));
      LineOpsRun(h, r.(line := r.line + 0x7fff_ffff), delta - 0x7fff_ffff);
    } else {
      LineOpsStep(h, r, delta, []);
      LineOpsEnd(h, r.(line := r.line + delta));
      assert [AdvanceLine(delta)] + [] == [AdvanceLine(delta)];
    }
  }

  lemma LineOpsEnd(h: Header, r: Registers)
    requires ProperHeader(h)
    ensures IdealRun(h, r, []) == Stepped(r, [])
  {
  }

  lemma AdvanceLineStep(h: Header, r: Registers, k: int)
    requires ProperHeader(h)
    ensures IdealStep(h, r, AdvanceLine(k)) == Stepped(r.(line := r.line + k), [])
  {
  }

  lemma LineOpsStep(h: Header, r: Registers, k: int, rest: seq<Op>)
    requires ProperHeader(h)
    ensures IdealRun(h, r, [AdvanceLine(k)] + rest) == IdealRun(h, r.(line := r.line + k), rest)
  {
    hide IdealRun, IdealStep;
    AdvanceLineStep(h, r, k);
    IdealOne(h, r, AdvanceLine(k));
    IdealSilent(h, r, [AdvanceLine(k)], rest);
  }

  /** Registers that show what a row did, with the row flags clear. */
  predicate Clean(r: Registers, before: Row) {
    && r.address == before.address && r.file == before.file && r.column == before.column && r.line == before.line
    && r.isStmt == before.isStmt && !r.prologueEnd && !r.epilogueBegin && r.opIndex == 0
  }

  /** An optional instruction. */
  lemma OptionalRun(h: Header, r: Registers, present: bool, op: Op, rest: seq<Op>)
    requires ProperHeader(h) && IdealStep(h, r, op).rows == []
    ensures IdealRun(h, r, (if present then [op] else []) + rest)
      == IdealRun(h, if present then IdealStep(h, r, op).regs else r, rest)
  {
    hide IdealRun, IdealStep;
    if present {
      IdealOne(h, r, op);
      IdealSilent(h, r, [op], rest);
    } else {
      assert [] + rest == rest;
    }
  }

  lemma PlaceOpsRun(h: Header, r: Registers, before: Row, row: Row)
    requires ProperHeader(h) && ProperRow(row) && Clean(r, before)
    ensures IdealRun(h, r, PlaceOps(before, row))
      == Stepped(r.(address := row.address, file := row.file, column := row.column), [])
  {
    hide IdealRun;
    var a := if row.address != before.address then [SetAddress(row.address)] else [];
    var f := if row.file != before.file then [SetFile(row.file)] else [];
    var c := if row.column != before.column then [SetColumn(row.column)] else [];
    assert PlaceOps(before, row) == a + (f + (c + []));
    var r1 := r.(address := row.address);
    var r2 := r1.(file := row.file);
    var r3 := r2.(column := row.column);
    OptionalRun(h, r, row.address != before.address, SetAddress(row.address), f + (c + []));
    OptionalRun(h, r1, row.file != before.file, SetFile(row.file), c + []);
    OptionalRun(h, r2, row.column != before.column, SetColumn(row.column), []);
    LineOpsEnd(h, r3);
  }

  lemma FlagOpsRun(h: Header, r: Registers, isStmt: bool, row: Row)
    requires ProperHeader(h) && r.isStmt == isStmt && !r.prologueEnd && !r.epilogueBegin
    ensures IdealRun(h, r, FlagOps(isStmt, row)) == Stepped(
        r.(isStmt := row.isStmt, prologueEnd := row.prologueEnd, epilogueBegin := row.epilogueBegin), [])
  {
    hide IdealRun;
    var s := if row.isStmt != isStmt then [NegateStmt] else [];
    var p := if row.prologueEnd then [SetPrologueEnd] else [];
    var e := if row.epilogueBegin then [SetEpilogueBegin] else [];
    assert FlagOps(isStmt, row) == s + (p + (e + []));
    var r1 := r.(isStmt := row.isStmt);
    var r2 := r1.(prologueEnd := row.prologueEnd);
    var r3 := r2.(epilogueBegin := row.epilogueBegin);
    OptionalRun(h, r, row.isStmt != isStmt, NegateStmt, p + (e + []));
    OptionalRun(h, r1, row.prologueEnd, SetPrologueEnd, e + []);
    OptionalRun(h, r2, row.epilogueBegin, SetEpilogueBegin, []);
    LineOpsEnd(h, r3);
  }

  lemma RowOpsRun(h: Header, r: Registers, before: Row, row: Row)
    requires ProperHeader(h) && ProperRow(row) && Clean(r, before)
    ensures IdealRun(h, r, RowOps(before, row)).rows == []
    ensures var s := IdealRun(h, r, RowOps(before, row)).regs;
      RowShown(s) == row && Clean(RowDone(s), row)
  {
    hide IdealRun, IdealStep, PlaceOps, LineOps, FlagOps;
    var r1 := r.(address := row.address, file := row.file, column := row.column);
    var r2 := r1.(line := row.line);
    PlaceOpsRun(h, r, before, row);
    IdealSilent(h, r, PlaceOps(before, row), LineOps(row.line - before.line) + FlagOps(before.isStmt, row));
    LineOpsRun(h, r1, row.line - before.line);
    IdealSilent(h, r1, LineOps(row.line - before.line), FlagOps(before.isStmt, row));
    FlagOpsRun(h, r2, before.isStmt, row);
  }

  /** The instructions of a sequence append exactly its rows and reset the registers. */
  lemma {:induction false} SequenceRun(h: Header, r: Registers, before: Row, rows: seq<Row>)
    requires ProperHeader(h) && Clean(r, before)
    requires rows != [] && forall row | row in rows :: ProperRow(row)
    ensures IdealRun(h, r, SequenceOps(before, rows)) == Stepped(StartState(h), rows)
    decreases |rows|
  {
    hide IdealRun, RowOps, ProperRow, Clean;
    var row := rows[0];
    var first := RowOps(before, row);
    var r1 := IdealRun(h, r, first).regs;
    RowOpsRun(h, r, before, row);
    if |rows| == 1 {
      IdealSilent(h, r, first, [EndSequence]);
      IdealOne(h, r1, EndSequence);
      assert rows == [row];
    } else {
      var rest := SequenceOps(row, rows[1..]);
      assert first + [Copy] + rest == first + ([Copy] + rest);
      IdealSilent(h, r, first, [Copy] + rest);
      IdealOne(h, r1, Copy);
      IdealConcat(h, r1, [Copy], rest);
      SequenceRun(h, RowDone(r1), row, rows[1..]);
      assert rows == [row] + rows[1..];
    }
  }

  lemma {:induction false} AllRun(h: Header, sequences: seq<seq<Row>>)
    requires ProperHeader(h) && ProperSequences(sequences)
    ensures IdealRun(h, StartState(h), AllOps(h, sequences)) == Stepped(StartState(h), Concatenated(sequences))
  {
    hide IdealRun, SequenceOps, ProperRow;
    if sequences == [] {
      LineOpsEnd(h, StartState(h));
    } else {
      assert sequences[0] in sequences;
      SequenceRun(h, StartState(h), StartRow(h), sequences[0]);
      IdealConcat(h, StartState(h), SequenceOps(StartRow(h), sequences[0]), AllOps(h, sequences[1..]));
      AllRun(h, sequences[1..]);
    }
  }

  /** Instructions that use opcodes below 12, are encodable and never advance by operations. */
  predicate Plain(op: Op) {
    match op
    case Special(_) => false
    case AdvancePc(_) => false
    case ConstAddPc => false
    case FixedAdvancePc(_) => false
    case SetIsa(_) => false
    case AdvanceLine(k) => -0x800_0000 <= k < 0x8000_0000
    case SetFile(n) => n < 0x1_0000_0000
    case SetColumn(n) => n < 0x1_0000_0000
    case SetDiscriminator(n) => n < 0x1_0000_0000
    case SetAddress(n) => n < 0x1_0000_0000
    case _ => true
  }

  lemma {:induction false} PlainFits(h: Header, r: Registers, ops: seq<Op>)
    requires ProperHeader(h) && h.opcodeBase > 11 && r.opIndex == 0 && forall op | op in ops :: Plain(op)
    ensures (forall op | op in ops :: Encodable(h, op)) && NoOverflowRun(h, r, ops)
    decreases |ops|
  {
    if ops != [] {
      assert Plain(ops[0]);
      PlainFits(h, IdealStep(h, r, ops[0]).regs, ops[1..]);
      assert forall op | op in ops :: op == ops[0] || op in ops[1..];
    }
  }

  lemma {:induction false} SequenceOpsPlain(before: Row, rows: seq<Row>)
    requires rows != [] && forall row | row in rows :: ProperRow(row)
    ensures forall op | op in SequenceOps(before, rows) :: Plain(op)
    decreases |rows|
  {
    assert rows[0] in rows;
    assert forall op | op in RowOps(before, rows[0]) :: Plain(op) by { RowOpsPlain(before, rows[0]); }
    if |rows| > 1 {
      SequenceOpsPlain(rows[0], rows[1..]);
    }
  }

  lemma RowOpsPlain(before: Row, row: Row)
    requires ProperRow(row)
    ensures forall op | op in RowOps(before, row) :: Plain(op)
  {
  }

  lemma {:induction false} AllOpsPlain(h: Header, sequences: seq<seq<Row>>)
    requires ProperSequences(sequences)
    ensures forall op | op in AllOps(h, sequences) :: Plain(op)
  {
    hide SequenceOps, Plain;
    if sequences != [] {
      assert sequences[0] in sequences;
      SequenceOpsPlain(StartRow(h), sequences[0]);
      AllOpsPlain(h, sequences[1..]);
    }
  }

  lemma {:induction false} ConcatenatedReduced(sequences: seq<seq<Row>>)
    requires ProperSequences(sequences)
    ensures ReducedRows(Concatenated(sequences)) == Concatenated(sequences)
  {
    if sequences != [] {
      var rows := sequences[0];
      assert rows in sequences;
      forall k | 0 <= k < |rows| ensures ReducedRow(rows[k]) == rows[k] {
        assert ProperRow(rows[k]);
      }
      assert ReducedRows(rows) == rows;
      ReducedConcat(rows, Concatenated(sequences[1..]));
      ConcatenatedReduced(sequences[1..]);
    }
  }

  /**
   Every list of row sequences with 32-bit fields can be written as a line program whose
   bytes decode to exactly those rows, in order, and leave the registers reset. The header
   has to give the opcodes up to DW_LNS_set_epilogue_begin their meaning.
   */
  lemma RowsRoundTrip(h: Header, sequences: seq<seq<Row>>, d: seq<u8>)
    requires ProperHeader(h) && h.opcodeBase > 11 && ProperSequences(sequences)
    ensures forall op | op in AllOps(h, sequences) :: Encodable(h, op)
    ensures At(d, 0, EncodeOps(h, AllOps(h, sequences))) ==>
      Run(h, StartState(h), d, 0, |EncodeOps(h, AllOps(h, sequences))|)
        == Ok(Stepped(StartState(h), Concatenated(sequences)), |EncodeOps(h, AllOps(h, sequences))|)
  {
    hide At, Run, IdealRun, NoOverflowRun, EncodeOps, AllOps, Concatenated, ProperSequences, ReducedRows;
    AllOpsPlain(h, sequences);
    PlainFits(h, StartState(h), AllOps(h, sequences));
    AllRun(h, sequences);
    ConcatenatedReduced(sequences);
    if At(d, 0, EncodeOps(h, AllOps(h, sequences))) {
      RunRefines(h, StartState(h), AllOps(h, sequences), d, 0);
    }
  }

  // ----- one sequence ascends -----

  function WholeSequence(start: nat, body: seq<Op>): seq<Op> {
    [SetAddress(start)] + (body + [EndSequence])
  }

  /** The rows of a sequence that the ideal machine appends. */
  lemma SequenceIdeal(h: Header, r: Registers, start: nat, body: seq<Op>)
    requires ProperHeader(h)
    ensures var b := IdealRun(h, r.(address := start, opIndex := 0), body);
      IdealRun(h, r, WholeSequence(start, body)) == Stepped(StartState(h), b.rows + [RowShown(b.regs)])
  {
    hide IdealRun;
    var s := r.(address := start, opIndex := 0);
    IdealOne(h, r, SetAddress(start));
    IdealSilent(h, r, [SetAddress(start)], body + [EndSequence]);
    IdealConcat(h, s, body, [EndSequence]);
    IdealOne(h, IdealRun(h, s, body).regs, EndSequence);
  }

  /**
   A sequence that sets its start address once and whose addresses stay below 2^32 decodes,
   in 32 bits, to rows whose addresses ascend from there, the row of the end included.
   */
  lemma SequenceAscends(h: Header, r: Registers, start: nat, body: seq<Op>, d: seq<u8>, i: nat)
    requires ProperHeader(h) && forall op | op in WholeSequence(start, body) :: Encodable(h, op)
    requires forall op | op in body :: !op.SetAddress? && !op.EndSequence?
    requires NoOverflowRun(h, r, WholeSequence(start, body))
    requires IdealRun(h, r.(address := start, opIndex := 0), body).regs.address < 0x1_0000_0000
    requires At(d, i, EncodeOps(h, WholeSequence(start, body)))
    ensures var run := Run(h, Reduced(r), d, i, i + |EncodeOps(h, WholeSequence(start, body))|);
      run.Ok? && run.value.rows != [] && RowsAscend(run.value.rows, start, run.value.rows[|run.value.rows| - 1].address)
  {
    hide At, Run, IdealRun, EncodeOps, NoOverflowRun, RowsAscend, WholeSequence, Encodable;
    var b := IdealRun(h, r.(address := start, opIndex := 0), body);
    var last := b.regs.address;
    RunRefines(h, r, WholeSequence(start, body), d, i);
    SequenceIdeal(h, r, start, body);
    IdealAscends(h, r.(address := start, opIndex := 0), body);
    RowsAscendBounds(b.rows, start, last);
    LastRowAscends(b.regs);
    RowsAscendConcat(b.rows, [RowShown(b.regs)], start, last, last);
    ReducedAscend(b.rows + [RowShown(b.regs)], start, last);
    WrapSmall(last);
  }

  lemma LastRowAscends(r: Registers)
    ensures RowsAscend([RowShown(r)], r.address, r.address)
  {
  }
}
