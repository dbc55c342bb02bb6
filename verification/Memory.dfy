/**
 Memory devices and the bus, on values: `MemoryDevice`, its RAM, ROM, video and CLINT
 variants, and the search of `Bus::read` and `Bus::write`.
 */
module Memory {
  import opened Words
  import LE = LittleEndian

  const STATUS_OK: u32 := 0xffff_ffff
  const ILLEGAL_INSTRUCTION: u32 := 2
  const LOAD_ADDRESS_MISALIGNED: u32 := 4
  const LOAD_ACCESS_FAULT: u32 := 5
  const STORE_ADDRESS_MISALIGNED: u32 := 6
  const STORE_ACCESS_FAULT: u32 := 7

  datatype Kind = Ram | Rom | Video | Clint

  datatype Device = Device(kind: Kind, base: u32, mem: seq<u8>) {
    /** `getEndAddress`, in 32 bits. */
    function End(): u32 {
      Wrap32(base + |mem|)
    }

    /** The bus's test, inclusive at the end address. */
    predicate Selects(addr: u32) {
      base <= addr <= End()
    }

    function Offset(addr: u32): u32 {
      Wrap32(addr - base)
    }
  }

  /** A value, an exception code, or an access that C++ leaves undefined. */
  datatype Access = Value(value: u32) | Fault(code: u32) | Wild

  datatype Stored = Written(devices: seq<Device>) | WriteFault(code: u32) | WildWrite

  /** `checkAlignment`. */
  predicate Aligned(addr: u32, size: nat) {
    if size == 4 then addr % 4 == 0 else if size == 2 then addr % 2 == 0 else true
  }

  predicate ValidSize(size: nat) {
    size == 1 || size == 2 || size == 4
  }

  /**
   The bytes a read touches: the cases of RAM, ROM and video memory fall through to the
   32-bit read, those of the CLINT do not.
   */
  function Touched(kind: Kind, size: nat): nat {
    if kind == Clint then size else 4
  }

  function DeviceRead(dev: Device, addr: u32, size: nat): Access {
    if !Aligned(addr, size) then Fault(LOAD_ADDRESS_MISALIGNED)
    else
      var off, n := dev.Offset(addr), Touched(dev.kind, size);
      if !ValidSize(size) || off + n > |dev.mem| then Wild
      else
        LE.ValueBound(dev.mem[off..off + n]);
        LE.Pow256Small();
        Value(LE.Value(dev.mem[off..off + n]))
  }

  /** The low `size` bytes of a value replace those at an offset. */
  function Poke(mem: seq<u8>, off: nat, value: u32, size: nat): (m: seq<u8>)
    requires off + size <= |mem|
    ensures |m| == |mem|
  {
    mem[..off] + LE.Bytes(value, size) + mem[off + size..]
  }

  datatype DeviceStored = DeviceWritten(device: Device) | DeviceFault(code: u32) | DeviceWild

  function DeviceWrite(dev: Device, addr: u32, value: u32, size: nat): DeviceStored {
    if dev.kind == Rom then DeviceFault(ILLEGAL_INSTRUCTION)
    else if !Aligned(addr, size) then DeviceFault(STORE_ADDRESS_MISALIGNED)
    else if !ValidSize(size) then DeviceWritten(dev)
    else
      var off := dev.Offset(addr);
      if off + size > |dev.mem| then DeviceWild
      else DeviceWritten(dev.(mem := Poke(dev.mem, off, value, size)))
  }

  /** The first device whose range holds the address. */
  function Find(devices: seq<Device>, addr: u32): (k: nat)
    ensures k <= |devices| && (k < |devices| ==> devices[k].Selects(addr))
    ensures forall j | 0 <= j < k :: !devices[j].Selects(addr)
  {
    if devices == [] then 0
    else if devices[0].Selects(addr) then 0
    else 1 + Find(devices[1..], addr)
  }

  function BusRead(devices: seq<Device>, addr: u32, size: nat): Access {
    var k := Find(devices, addr);
    if k == |devices| then Fault(LOAD_ACCESS_FAULT) else DeviceRead(devices[k], addr, size)
  }

  function BusWrite(devices: seq<Device>, addr: u32, value: u32, size: nat): Stored {
    var k := Find(devices, addr);
    if k == |devices| then WriteFault(STORE_ACCESS_FAULT)
    else match DeviceWrite(devices[k], addr, value, size)
      case DeviceWritten(d) => Written(devices[k := d])
      case DeviceFault(code) => WriteFault(code)
      case DeviceWild => WildWrite
  }

  /** Kinds, bases and sizes. */
  predicate SameShape(a: seq<Device>, b: seq<Device>) {
    |a| == |b| && forall k | 0 <= k < |a| ::
      a[k].kind == b[k].kind && a[k].base == b[k].base && |a[k].mem| == |b[k].mem|
  }

  /** A store changes one device's bytes and nothing else, and never a ROM. */
  lemma WriteFrame(devices: seq<Device>, addr: u32, value: u32, size: nat)
    requires BusWrite(devices, addr, value, size).Written?
    ensures var after := BusWrite(devices, addr, value, size).devices;
      && SameShape(devices, after)
      && (forall k | 0 <= k < |devices| && k != Find(devices, addr) :: after[k] == devices[k])
      && forall k | 0 <= k < |devices| && devices[k].kind == Rom :: after[k] == devices[k]
  {
    hide Aligned;
  }
}
