/** The machine after reset and its memory map. */
module ResetState {
  import opened Words
  import opened Memory
  import opened Machines
  import F = FlatMemory

  const ROM_SIZE: u32 := 2_097_152
  const RAM_SIZE: u32 := 1_048_576
  const VIDEO_BASE: u32 := 0x2000_0000
  const VIDEO_SIZE: u32 := 16 + 21 * 64 + 512 * 288
  const CLINT_BASE: u32 := 0x3000_0000

  /** The machine's value after reset. */
  function Reset(romBase: u32, ramBase: u32, entryPc: u32, csr: Csrs): Machine {
    Machine(seq(32, _ => 0), csr, entryPc, entryPc,
            [Device(Rom, romBase, seq(ROM_SIZE, _ => 0)), Device(Ram, ramBase, seq(RAM_SIZE, _ => 0)),
             Device(Video, VIDEO_BASE, seq(VIDEO_SIZE, _ => 0)),
             Device(Kind.Clint, CLINT_BASE, seq(CLINT_SIZE, _ => 0))])
  }

  predicate Blank(d: Device, kind: Kind, base: u32, size: nat) {
    d.kind == kind && d.base == base && |d.mem| == size && forall i | 0 <= i < size :: d.mem[i] == 0
  }

  /** Both counters are at the entry, every register and every byte is 0, and the devices have these bases and sizes. */
  lemma ResetStarts(romBase: u32, ramBase: u32, entryPc: u32, csr: Csrs)
    ensures var m := Reset(romBase, ramBase, entryPc, csr);
      && m.pc == entryPc && m.nextPc == entryPc && m.csr == csr
      && |m.regs| == 32 && (forall r | 0 <= r < 32 :: m.regs[r] == 0)
      && |m.devices| == 4
      && Blank(m.devices[0], Rom, romBase, 0x20_0000) && Blank(m.devices[1], Ram, ramBase, 0x10_0000)
      && Blank(m.devices[2], Video, 0x2000_0000, 0x2_4550) && Blank(m.devices[3], Kind.Clint, 0x3000_0000, 24)
  {
  }

  /** A range of the given size touches neither the video memory nor the CLINT, nor the top of the address space. */
  predicate Free(base: u32, size: u32) {
    || base + size < 0x2000_0000
    || (0x2002_4550 < base && base + size < 0x3000_0000)
    || (0x3000_0018 < base && base + size < 0x1_0000_0000)
  }

  /**
   The devices of a fresh machine are laid out apart exactly when ROM and RAM begin at
   multiples of four, in the gaps that the other devices leave, and do not touch each other;
   so they are at the documented addresses.
   */
  lemma MemoryMap(romBase: u32, ramBase: u32, entryPc: u32, csr: Csrs)
    ensures F.WellLaidOut(Reset(romBase, ramBase, entryPc, csr).devices) <==>
      && romBase % 4 == 0 && ramBase % 4 == 0
      && Free(romBase, 0x20_0000) && Free(ramBase, 0x10_0000)
      && (romBase + 0x20_0000 < ramBase || ramBase + 0x10_0000 < romBase)
    ensures romBase == 0x8000_0000 && ramBase == 0x4000_0000 ==>
      F.WellLaidOut(Reset(romBase, ramBase, entryPc, csr).devices)
    ensures Valid(Reset(romBase, ramBase, entryPc, csr))
  {
    var d := Reset(romBase, ramBase, entryPc, csr).devices;
    assert F.WellLaidOut(d) <==>
      && F.WordSized(d[0]) && F.WordSized(d[1]) && F.Separate(d[0], d[1])
      && F.Separate(d[0], d[2]) && F.Separate(d[0], d[CLINT]) && F.Separate(d[1], d[2]) && F.Separate(d[1], d[CLINT]);
  }
}
