/** Where the machine does something else than the reference instruction set: a state and instructions that show it. */
module Deviations {
  import opened Words
  import opened Alu
  import opened Memory
  import opened Machines
  import opened Isa
  import opened Precise
  import opened Refinement
  import opened ResetState
  import F = FlatMemory

  /** Memory at the documented addresses, the RAM filled with 0x81, and some registers and a CSR set. */
  function Example(): (m: Machine)
    ensures Valid(m)
  {
    var m := Reset(0x8000_0000, 0x4000_0000, 0x8000_0000, map[0x340 := 6]);
    MemoryMap(0x8000_0000, 0x4000_0000, 0x8000_0000, map[0x340 := 6]);
    m.(regs := m.regs[1 := 0x8000_0000][2 := 1][3 := 0x21][6 := 0x4010_0000][7 := 0x4000_0000],
       devices := m.devices[1 := m.devices[1].(mem := seq(RAM_SIZE, _ => 0x81))])
  }

  lemma ExampleReady()
    ensures Ready(Example())
  {
    var before := Reset(0x8000_0000, 0x4000_0000, 0x8000_0000, map[0x340 := 6]);
    MemoryMap(0x8000_0000, 0x4000_0000, 0x8000_0000, map[0x340 := 6]);
    F.ShapeKept(before.devices, Example().devices);
  }

  /** Comparison, shift, jump and CSR instructions whose operands are the problem. */
  function OperandCases(): set<Instr> {
    {Op(Slt, 5, 1, 2), OpImm(Slt, 5, 1, 1), Branch(Lt, 1, 2, 8), Op(Sll, 5, 2, 3), Jalr(5, 2, 4), Jal(5, 2),
     CsrAccess(Swap, 2, 2, 0x340), CsrAccess(SetBits, 2, 2, 0x340), CsrAccess(ClearBits, 5, 4, 0x340)}
  }

  /** Accesses at the end of the RAM, stores to the ROM, and narrow loads. */
  function MemoryCases(): set<Instr> {
    {Lw(5, 6, 0), StoreTo(Word, 6, 1, 0), StoreTo(Byte, 6, 1, 0), StoreTo(Word, 1, 2, 0),
     LoadNarrow(false, true, 5, 7, 0), LoadNarrow(false, false, 5, 7, 0),
     LoadNarrow(true, true, 5, 7, 0), LoadNarrow(true, false, 5, 7, 0)}
  }

  predicate Differs(i: Instr) {
    Representable(i) && !Exact(Example(), i)
  }

  lemma OperandsDiffer()
    ensures forall i | i in OperandCases() :: Differs(i)
  {
    hide Or32, And32;
    WordMasks(6);
    assert Or32(1, 6) == 7 by { OrOfExample(); }
  }

  lemma OrOfExample()
    ensures Or32(1, 6) == 7
  {
    hide Words.Or, Pow2;
    Pow2Table();
    OrAdds(3, 1, 1);
  }

  lemma NarrowDiffers(half: bool, signed: bool)
    ensures Differs(LoadNarrow(half, signed, 5, 7, 0))
  {
    hide F.Holder;
    var m := Example();
    ExampleReady();
    HolderUnique(m.devices, 0x4000_0000, 1);
    assert m.devices[1].mem[3] == 0x81;
    assert !ExtensionStored(m.devices[1], 0, half, signed, 5);
    WrapSmall(m.regs[7]);
  }

  lemma EndDiffers(i: Instr)
    requires i == Lw(5, 6, 0) || i == StoreTo(Word, 6, 1, 0) || i == StoreTo(Byte, 6, 1, 0)
    ensures Differs(i)
  {
    var m := Example();
    assert m.devices[1].base + |m.devices[1].mem| == 0x4010_0000;
    assert !F.NoEnd(m.devices, 0x4010_0000);
    WrapSmall(m.regs[6]);
  }

  lemma RomStoreDiffers()
    ensures Differs(StoreTo(Word, 1, 2, 0))
  {
    hide F.Holder;
    var m := Example();
    ExampleReady();
    HolderUnique(m.devices, 0x8000_0000, 0);
    WrapSmall(m.regs[1]);
  }

  lemma MemoryDiffers()
    ensures forall i | i in MemoryCases() :: Differs(i)
  {
    hide Differs;
    NarrowDiffers(false, true);
    NarrowDiffers(false, false);
    NarrowDiffers(true, true);
    NarrowDiffers(true, false);
    EndDiffers(Lw(5, 6, 0));
    EndDiffers(StoreTo(Word, 6, 1, 0));
    EndDiffers(StoreTo(Byte, 6, 1, 0));
    RomStoreDiffers();
  }

  /** The example stands for a hart, and none of these instructions has the reference effect on it. */
  lemma Deviating()
    ensures Ready(Example()) && Stands(Example(), HartOf(Example()))
    ensures forall i | i in OperandCases() + MemoryCases() ::
      && Representable(i)
      && !Matches(ExecuteWord(Example(), Encode(i)), HartOf(Example()), Effects(i, HartOf(Example())))
  {
    hide Example, OperandCases, MemoryCases, Exact, Representable, ExecuteWord, Encode, Effects, Matches;
    hide HartOf, Stands;
    var m := Example();
    ExampleReady();
    Abstraction(m);
    ReadyShape(m, HartOf(m));
    OperandsDiffer();
    MemoryDiffers();
    forall i | i in OperandCases() + MemoryCases()
      ensures Representable(i) && !Matches(ExecuteWord(m, Encode(i)), HartOf(m), Effects(i, HartOf(m)))
    {
      assert Differs(i);
      RefinementExact(m, HartOf(m), i);
    }
  }

  /**
   A fetch from an address that no device holds, or from a misaligned one, reports the code of
   a load (5 or 4) and never that of a fetch (1 or 0).
   */
  lemma FetchFaults(m: Machine)
    requires Valid(m) && F.WellLaidOut(m.devices) && F.NoEnd(m.devices, m.pc)
    ensures F.Holder(m.devices, m.pc) == |m.devices| ==> ExecuteInstruction(m) == Done(m, 5)
    ensures F.Holder(m.devices, m.pc) < |m.devices| && m.pc % 4 != 0 ==>
      ExecuteInstruction(m) == Done(m, 4)
  {
    hide Valid, ExecuteWord, BusRead, F.Holder, F.WellLaidOut, F.NoEnd;
    NarrowRefused(m.devices, m.pc, 4);
  }
}
