/** `Csr`: the registers as a map that is changed in place, field by field. */
module ControlRegisters {
  import opened Words
  import opened Machines
  import opened StatusBits

  class Csr {
    var registers: Csrs

    /** The constructor creates these entries, and none is ever removed. */
    ghost predicate Valid()
      reads this
    {
      {MSTATUS, MIE, MTVEC, MEPC, MCAUSE, MIP} <= registers.Keys
    }

    constructor ()
      ensures Valid() && forall a: u32 :: Get(registers, a) == 0
    {
      registers := map[0x301 := 0, 0xf11 := 0, 0xf12 := 0, 0xf13 := 0, 0xf14 := 0, MSTATUS := 0, MTVEC := 0,
                       MIE := 0, MIP := 0, MCAUSE := 0, MEPC := 0, 0x340 := 0, 0x343 := 0];
    }

    method ReadCsr(address: u32) returns (data: u32)
      modifies this
      ensures registers == Read(old(registers), address) && data == Get(old(registers), address)
      ensures data == if address in old(registers) then old(registers)[address] else 0
      ensures old(Valid()) ==> Valid()
    {
      if address !in registers {
        registers := registers[address := 0];
      }
      data := registers[address];
    }

    method WriteCsr(address: u32, data: u32)
      modifies this
      ensures registers == old(registers)[address := data]
      ensures old(Valid()) ==> Valid()
    {
      registers := registers[address := data];
    }

    method SetBits(address: u32, mask: u32)
      requires Valid() && address in registers
      modifies this
      ensures registers == Set(old(registers), address, mask) && Valid()
    {
      registers := registers[address := Or32(registers[address], mask)];
    }

    method ResetBits(address: u32, mask: u32)
      requires Valid() && address in registers
      modifies this
      ensures registers == Clear(old(registers), address, mask) && Valid()
    {
      registers := registers[address := And32(registers[address], ALL_ONES - mask)];
    }

    method SetMie()
      requires Valid()
      modifies this
      ensures registers == Set(old(registers), MSTATUS, BIT3) && Valid()
      ensures OnlyBit(old(registers), registers, MSTATUS, 3, 1)
    {
      SetIsOnlyBit(registers, MSTATUS);
      SetBits(MSTATUS, BIT3);
    }

    method ResetMie()
      requires Valid()
      modifies this
      ensures registers == Clear(old(registers), MSTATUS, BIT3) && Valid()
      ensures OnlyBit(old(registers), registers, MSTATUS, 3, 0)
    {
      ClearIsOnlyBit(registers, MSTATUS);
      ResetBits(MSTATUS, BIT3);
    }

    method SetMpie()
      requires Valid()
      modifies this
      ensures registers == Set(old(registers), MSTATUS, BIT7) && Valid()
      ensures OnlyBit(old(registers), registers, MSTATUS, 7, 1)
    {
      SetIsOnlyBit(registers, MSTATUS);
      SetBits(MSTATUS, BIT7);
    }

    /** The privilege mode goes to bits 11 and 12. */
    method SetMpp(mode: nat)
      requires Valid()
      modifies this
      ensures registers == Set(old(registers), MSTATUS, 0x800 * (mode % 4)) && Valid()
      ensures forall j: nat | j < 32 ::
        Bit(Get(registers, MSTATUS), j) == if ModeBit(mode, j) then 1 else old(Bit(Get(registers, MSTATUS), j))
    {
      forall j: nat | j < 32
        ensures Bit(Get(Set(registers, MSTATUS, 0x800 * (mode % 4)), MSTATUS), j)
          == if ModeBit(mode, j) then 1 else Bit(Get(registers, MSTATUS), j)
      {
        SetModeBits(registers, MSTATUS, mode, j);
      }
      SetBits(MSTATUS, 0x800 * (mode % 4));
    }

    method SetMtip()
      requires Valid()
      modifies this
      ensures registers == Set(old(registers), MIP, BIT7) && Valid()
      ensures OnlyBit(old(registers), registers, MIP, 7, 1)
    {
      SetIsOnlyBit(registers, MIP);
      SetBits(MIP, BIT7);
    }

    method ResetMtip()
      requires Valid()
      modifies this
      ensures registers == Clear(old(registers), MIP, BIT7) && Valid()
      ensures OnlyBit(old(registers), registers, MIP, 7, 0)
    {
      ClearIsOnlyBit(registers, MIP);
      ResetBits(MIP, BIT7);
    }

    method SetMsip()
      requires Valid()
      modifies this
      ensures registers == Set(old(registers), MIP, BIT3) && Valid()
      ensures OnlyBit(old(registers), registers, MIP, 3, 1)
    {
      SetIsOnlyBit(registers, MIP);
      SetBits(MIP, BIT3);
    }

    function GetMie(): nat
      requires Valid()
      reads this
    {
      Bit(registers[MSTATUS], 3)
    }

    function GetMpie(): nat
      requires Valid()
      reads this
    {
      Bit(registers[MSTATUS], 7)
    }

    function GetMsie(): nat
      requires Valid()
      reads this
    {
      Bit(registers[MIE], 3)
    }

    function GetMtie(): nat
      requires Valid()
      reads this
    {
      Bit(registers[MIE], 7)
    }

    function GetMtip(): nat
      requires Valid()
      reads this
    {
      Bit(registers[MIP], 7)
    }

    method SetMepc(mepc: u32)
      requires Valid()
      modifies this
      ensures registers == old(registers)[MEPC := mepc] && Valid()
    {
      registers := registers[MEPC := mepc];
    }

    method SetMcause(mcause: u32)
      requires Valid()
      modifies this
      ensures registers == old(registers)[MCAUSE := mcause] && Valid()
    {
      registers := registers[MCAUSE := mcause];
    }

    function GetMepc(): u32
      requires Valid()
      reads this
    {
      registers[MEPC]
    }

    function GetMtvec(): u32
      requires Valid()
      reads this
    {
      registers[MTVEC]
    }
  }
}
