/** The bus and its memory devices as objects that share byte buffers. */
module Devices {
  import opened Words
  import opened Memory
  import opened Machines
  import opened ControlRegisters
  import LE = LittleEndian

  /** One device: the kind stands for the subclass, which decides how it is read and written. */
  class MemoryDevice {
    const kind: Kind
    const baseAddress: u32
    const mem: array<u8>

    ghost function Contents(): Device
      reads mem
    {
      Device(kind, baseAddress, mem[..])
    }

    constructor (kind: Kind, baseAddress: u32, deviceSize: u32)
      ensures fresh(mem) && mem.Length == deviceSize
      ensures Contents() == Device(kind, baseAddress, seq(deviceSize, _ => 0))
    {
      this.kind, this.baseAddress := kind, baseAddress;
      mem := new u8[deviceSize](_ => 0);
    }

    function EndAddress(): u32 {
      Wrap32(baseAddress + mem.Length)
    }

    predicate CheckAlignment(addr: u32, size: nat) {
      match size
      case 4 => addr % 4 == 0
      case 2 => addr % 2 == 0
      case _ => true
    }

    /** The offset into the buffer that `getAddress` adds to it. */
    function GetAddress(addr: u32): u32 {
      Wrap32(addr - baseAddress)
    }

    method Read(addr: u32, size: nat) returns (access: Access)
      ensures access == DeviceRead(Contents(), addr, size)
    {
      hide LE.Value, Wrap32;
      if !CheckAlignment(addr, size) {
        return Fault(LOAD_ADDRESS_MISALIGNED);
      }
      var touched := Touched(kind, size);
      var offset := GetAddress(addr);
      if !ValidSize(size) || offset + touched > mem.Length {
        return Wild;
      }
      assert mem[..][offset..offset + touched] == mem[offset..offset + touched];
      LE.ValueBound(mem[offset..offset + touched]);
      LE.Pow256Small();
      return Value(LE.Value(mem[offset..offset + touched]));
    }

    /** `None` when the store goes past the end of the buffer. */
    method Write(addr: u32, value: u32, size: nat) returns (code: Option<u32>)
      modifies mem
      ensures match DeviceWrite(old(Contents()), addr, value, size)
        case DeviceWritten(after) => code == Some(STATUS_OK) && Contents() == after
        case DeviceFault(c) => code == Some(c) && Contents() == old(Contents())
        case DeviceWild => code == None && Contents() == old(Contents())
    {
      hide LE.Bytes, Wrap32, Poke;
      if kind == Rom {
        return Some(ILLEGAL_INSTRUCTION);
      }
      if !CheckAlignment(addr, size) {
        return Some(STORE_ADDRESS_MISALIGNED);
      }
      if !ValidSize(size) {
        return Some(STATUS_OK);
      }
      var offset := GetAddress(addr);
      if offset + size > mem.Length {
        return None;
      }
      StoreBytes(offset, value, size);
      return Some(STATUS_OK);
    }

    method StoreBytes(offset: nat, value: u32, size: nat)
      requires offset + size <= mem.Length
      modifies mem
      ensures mem[..] == Poke(old(mem[..]), offset, value, size)
    {
      hide LE.Bytes;
      var bytes := LE.Bytes(value, size);
      forall i | 0 <= i < size {
        mem[offset + i] := bytes[i];
      }
    }
  }

  /** The CLINT: a device whose buffer also holds the cycle counter, the comparand and msip. */
  class ClintMemoryDevice {
    const device: MemoryDevice
    var interruptType: u32

    constructor (baseAddress: u32)
      ensures fresh(device) && fresh(device.mem) && device.mem.Length == CLINT_SIZE
      ensures device.Contents() == Device(Kind.Clint, baseAddress, seq(CLINT_SIZE, _ => 0))
    {
      device := new MemoryDevice(Kind.Clint, baseAddress, CLINT_SIZE);
      interruptType := 0;
    }

    method NextCycle(csr: Csr)
      requires device.mem.Length == CLINT_SIZE && csr.Valid()
      modifies csr, device.mem
      ensures device.mem[..] == Ticked(old(device.mem[..])) && csr.Valid()
      ensures csr.registers == CycleCsrs(old(csr.registers), device.mem[..])
    {
      hide LE.Value, LE.Bytes, Wrap64, Or32, And32;
      IncrementCycle();
      ghost var ticked := device.mem[..];
      assert ticked[0..8] == device.mem[0..8] && ticked[8..16] == device.mem[8..16];
      assert ticked[20..24] == device.mem[20..24];
      if LE.Value(device.mem[0..8]) >= LE.Value(device.mem[8..16]) {
        csr.SetMtip();
      } else {
        csr.ResetMtip();
      }
      if LE.Value(device.mem[20..24]) == 1 {
        csr.SetMsip();
      }
    }

    method IncrementCycle()
      requires device.mem.Length == CLINT_SIZE
      modifies device.mem
      ensures device.mem[..] == Ticked(old(device.mem[..]))
    {
      hide LE.Value, LE.Bytes, Wrap64;
      var mem := device.mem;
      assert mem[..][0..8] == mem[0..8];
      var bytes := LE.Bytes(Wrap64(LE.Value(mem[0..8]) + 1), 8);
      forall i | 0 <= i < 8 {
        mem[i] := bytes[i];
      }
      assert mem[..] == bytes + old(mem[..])[8..];
    }

    method CheckInterrupts(csr: Csr) returns (pending: bool)
      requires device.mem.Length == CLINT_SIZE && csr.Valid()
      modifies this`interruptType
      ensures match InterruptCause(csr.registers, device.mem[..])
        case None => !pending
        case Some(cause) => pending && interruptType == cause
    {
      hide LE.Value, Bit;
      assert device.mem[..][20..24] == device.mem[20..24];
      if csr.GetMie() == 0 {
        return false;
      }
      if LE.Value(device.mem[20..24]) == 1 && csr.GetMsie() == 1 {
        interruptType := MACHINE_SOFTWARE_INTERRUPT;
        return true;
      }
      if csr.GetMtip() == 1 && csr.GetMtie() == 1 {
        interruptType := MACHINE_TIMER_INTERRUPT;
        return true;
      }
      return false;
    }
  }

  /** The values of devices, in order. */
  ghost function AllContents(devices: seq<MemoryDevice>): (r: seq<Device>)
    reads set d | d in devices :: d.mem
    ensures |r| == |devices| && forall k | 0 <= k < |devices| :: r[k] == devices[k].Contents()
  {
    if devices == [] then [] else [devices[0].Contents()] + AllContents(devices[1..])
  }

  /** No two devices share a buffer. */
  ghost predicate OwnBuffers(devices: seq<MemoryDevice>) {
    forall j, k | 0 <= j < k < |devices| :: devices[j].mem != devices[k].mem
  }

  class Bus {
    var devices: seq<MemoryDevice>

    constructor ()
      ensures devices == []
    {
      devices := [];
    }

    method AddDevice(device: MemoryDevice) returns (index: nat)
      modifies this
      ensures devices == old(devices) + [device] && index == |old(devices)|
    {
      devices := devices + [device];
      return |devices| - 1;
    }

    method Read(addr: u32, accessSize: nat) returns (access: Access)
      ensures access == BusRead(AllContents(devices), addr, accessSize)
    {
      hide DeviceRead, Wrap32, AllContents;
      ghost var all := AllContents(devices);
      var k := 0;
      while k < |devices|
        invariant k <= |devices| && forall j | 0 <= j < k :: !all[j].Selects(addr)
      {
        var device := devices[k];
        if device.baseAddress <= addr <= device.EndAddress() {
          FindIs(all, addr, k);
          access := device.Read(addr, accessSize);
          return;
        }
        k := k + 1;
      }
      return Fault(LOAD_ACCESS_FAULT);
    }

    method Write(addr: u32, data: u32, accessSize: nat) returns (code: Option<u32>)
      requires OwnBuffers(devices)
      modifies set d | d in devices :: d.mem
      ensures match BusWrite(old(AllContents(devices)), addr, data, accessSize)
        case Written(after) => code == Some(STATUS_OK) && AllContents(devices) == after
        case WriteFault(c) => code == Some(c) && AllContents(devices) == old(AllContents(devices))
        case WildWrite => code == None && AllContents(devices) == old(AllContents(devices))
    {
      hide DeviceWrite, Wrap32, AllContents, OwnBuffers;
      ghost var all := AllContents(devices);
      var k := 0;
      while k < |devices|
        invariant k <= |devices| && forall j | 0 <= j < k :: !all[j].Selects(addr)
        invariant AllContents(devices) == all
      {
        var device := devices[k];
        if device.baseAddress <= addr <= device.EndAddress() {
          FindIs(all, addr, k);
          code := WriteDevice(k, addr, data, accessSize);
          return;
        }
        k := k + 1;
      }
      return Some(STORE_ACCESS_FAULT);
    }

    /** The store to one device of the bus: the others keep their bytes. */
    method WriteDevice(k: nat, addr: u32, data: u32, accessSize: nat) returns (code: Option<u32>)
      requires OwnBuffers(devices) && k < |devices|
      modifies set d | d in devices :: d.mem
      ensures var all := old(AllContents(devices));
        match DeviceWrite(all[k], addr, data, accessSize)
        case DeviceWritten(after) => code == Some(STATUS_OK) && AllContents(devices) == all[k := after]
        case DeviceFault(c) => code == Some(c) && AllContents(devices) == all
        case DeviceWild => code == None && AllContents(devices) == all
    {
      hide DeviceWrite, AllContents;
      ghost var all := AllContents(devices);
      code := devices[k].Write(addr, data, accessSize);
      OneChanged(all, devices, k);
    }
  }

  lemma FindIs(devices: seq<Device>, addr: u32, k: nat)
    requires k < |devices| && devices[k].Selects(addr) && forall j | 0 <= j < k :: !devices[j].Selects(addr)
    ensures Find(devices, addr) == k
  {
  }

  /** When only one buffer may have changed, the values differ from the former ones in one place. */
  lemma OneChanged(before: seq<Device>, devices: seq<MemoryDevice>, k: nat)
    requires k < |devices| == |before|
    requires forall j | 0 <= j < |devices| && j != k :: devices[j].Contents() == before[j]
    ensures AllContents(devices) == before[k := devices[k].Contents()]
  {
  }
}
