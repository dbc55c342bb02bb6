/** The bus as one flat memory: reads return the last bytes written, whatever the device order. */
module FlatMemory {
  import opened Words
  import opened Memory
  import LE = LittleEndian

  /** Sizes fit the address space, and bases and sizes are multiples of four. */
  predicate WordSized(dev: Device) {
    dev.base + |dev.mem| < 0x1_0000_0000 && dev.base % 4 == 0 && |dev.mem| % 4 == 0
  }

  /** Ranges do not even touch, so that an end address belongs to no other device. */
  predicate Separate(a: Device, b: Device) {
    a.base + |a.mem| < b.base || b.base + |b.mem| < a.base
  }

  predicate WellLaidOut(devices: seq<Device>) {
    && (forall k | 0 <= k < |devices| :: WordSized(devices[k]))
    && forall j, k | 0 <= j < k < |devices| :: Separate(devices[j], devices[k])
  }

  predicate Holds(dev: Device, addr: int) {
    dev.base <= addr < dev.base + |dev.mem|
  }

  /** The byte at an address, if some device holds it. */
  function ByteAt(devices: seq<Device>, addr: int): Option<u8> {
    if devices == [] then None
    else if Holds(devices[0], addr) then Some(devices[0].mem[addr - devices[0].base])
    else ByteAt(devices[1..], addr)
  }

  /** The bytes from an address on, when all are held. */
  function BytesAt(devices: seq<Device>, addr: int, n: nat): (r: Option<seq<u8>>)
    ensures r.Some? ==> |r.value| == n
    decreases n
  {
    if n == 0 then Some([])
    else match (ByteAt(devices, addr), BytesAt(devices, addr + 1, n - 1))
      case (Some(b), Some(rest)) => Some([b] + rest)
      case _ => None
  }

  lemma SelectsExactly(dev: Device, addr: u32)
    requires WordSized(dev)
    ensures dev.End() == dev.base + |dev.mem|
    ensures Holds(dev, addr) ==> dev.Selects(addr) && dev.Offset(addr) == addr - dev.base
    ensures dev.Selects(addr) ==> Holds(dev, addr) || addr == dev.base + |dev.mem|
  {
  }

  /** A held address is found in the device that holds it, wherever that stands in the list. */
  lemma {:induction false} FindHolder(devices: seq<Device>, addr: u32, k: nat)
    requires WellLaidOut(devices) && k < |devices| && Holds(devices[k], addr)
    ensures Find(devices, addr) == k
    ensures ByteAt(devices, addr) == Some(devices[k].mem[addr - devices[k].base])
  {
    SelectsExactly(devices[k], addr);
    SelectsExactly(devices[0], addr);
    if k > 0 {
      assert Separate(devices[0], devices[k]);
      TailLaidOut(devices);
      FindHolder(devices[1..], addr, k - 1);
    }
  }

  lemma TailLaidOut(devices: seq<Device>)
    requires WellLaidOut(devices) && devices != []
    ensures WellLaidOut(devices[1..])
  {
  }

  lemma {:induction false} ByteAtHolder(devices: seq<Device>, addr: int)
    ensures ByteAt(devices, addr).Some? <==> exists k :: 0 <= k < |devices| && Holds(devices[k], addr)
  {
    if devices != [] {
      ByteAtHolder(devices[1..], addr);
      assert forall k | 0 < k < |devices| :: devices[k] == devices[1..][k - 1];
      if ByteAt(devices[1..], addr).Some? {
        var k :| 0 <= k < |devices[1..]| && Holds(devices[1..][k], addr);
        assert Holds(devices[k + 1], addr);
      }
    }
  }

  /** The bytes of one device are its slice. */
  lemma {:induction false} BytesOfHolder(devices: seq<Device>, addr: u32, n: nat, k: nat)
    requires WellLaidOut(devices) && k < |devices|
    requires devices[k].base <= addr && addr + n <= devices[k].base + |devices[k].mem|
    ensures var off := addr - devices[k].base;
      BytesAt(devices, addr, n) == Some(devices[k].mem[off..off + n])
    decreases n
  {
    var off := addr - devices[k].base;
    if n > 0 {
      FindHolder(devices, addr, k);
      if n > 1 {
        BytesOfHolder(devices, addr + 1, n - 1, k);
      } else {
        assert BytesAt(devices, addr + 1, 0) == Some([]);
      }
      assert devices[k].mem[off..off + n] == [devices[k].mem[off]] + devices[k].mem[off + 1..off + n];
    } else {
      assert devices[k].mem[off..off] == [];
    }
  }

  /** An aligned word whose first byte is held lies within the device. */
  lemma WordInside(dev: Device, addr: u32, n: nat)
    requires WordSized(dev) && Holds(dev, addr) && ValidSize(n) && Aligned(addr, n)
    ensures addr + n <= dev.base + |dev.mem|
  {
  }

  /** An aligned word read of a held address returns the four flat bytes, little-endian. */
  lemma WordRead(devices: seq<Device>, addr: u32, k: nat)
    requires WellLaidOut(devices) && k < |devices| && Holds(devices[k], addr) && addr % 4 == 0
    ensures BytesAt(devices, addr, 4).Some?
    ensures BusRead(devices, addr, 4).Value?
    ensures BusRead(devices, addr, 4).value == LE.Value(BytesAt(devices, addr, 4).value)
  {
    FindHolder(devices, addr, k);
    SelectsExactly(devices[k], addr);
    WordInside(devices[k], addr, 4);
    BytesOfHolder(devices, addr, 4, k);
  }

  /** A byte or halfword read: the CLINT answers with those bytes, other devices with the whole word from there on. */
  lemma NarrowRead(devices: seq<Device>, addr: u32, n: nat, k: nat)
    requires WellLaidOut(devices) && k < |devices| && Holds(devices[k], addr)
    requires (n == 1 || n == 2) && Aligned(addr, n)
    ensures addr - devices[k].base + n <= |devices[k].mem|
    ensures var off, mem, r := addr - devices[k].base, devices[k].mem, BusRead(devices, addr, n);
      if devices[k].kind == Clint then r.Value? && r.value == LE.Value(mem[off..off + n])
      else if off + 4 > |mem| then r == Wild
      else r.Value? && r.value == LE.Value(mem[off..off + 4])
  {
    hide Find, LE.Value;
    FindHolder(devices, addr, k);
    SelectsExactly(devices[k], addr);
    WordInside(devices[k], addr, n);
  }

  /**
   A sub-word read agrees with the flat bytes in its low bits. From the CLINT it is those
   bytes. Elsewhere it is the whole word from the address on, which must be inside, and so the
   bytes that were asked for exactly when all the others are zero.
   */
  lemma SubWordRead(devices: seq<Device>, addr: u32, n: nat, k: nat)
    requires WellLaidOut(devices) && k < |devices| && Holds(devices[k], addr)
    requires (n == 1 || n == 2) && Aligned(addr, n)
    ensures BytesAt(devices, addr, n).Some?
    ensures var r, asked := BusRead(devices, addr, n), LE.Value(BytesAt(devices, addr, n).value);
      if devices[k].kind == Clint then r.Value? && r.value == asked
      else if addr + 4 > devices[k].base + |devices[k].mem| then r == Wild
      else
        && r.Value? && BytesAt(devices, addr, 4).Some? && r.value == LE.Value(BytesAt(devices, addr, 4).value)
        && r.value % LE.Pow256(n) == asked
        && (r.value == asked <==> forall j | n <= j < 4 :: BytesAt(devices, addr, 4).value[j] == 0)
  {
    hide Find, BusRead, LE.Value, WellLaidOut, ByteAt, LE.Pow256;
    NarrowRead(devices, addr, n, k);
    BytesOfHolder(devices, addr, n, k);
    var mem, off := devices[k].mem, addr - devices[k].base;
    if devices[k].kind != Clint && off + 4 <= |mem| {
      BytesOfHolder(devices, addr, 4, k);
      LowBytes(mem, off, n);
      HighBytesZero(mem[off..off + 4], n);
      assert mem[off..off + 4][..n] == mem[off..off + n];
    }
  }

  lemma HighBytesZero(b: seq<u8>, n: nat)
    requires |b| == 4 && (n == 1 || n == 2)
    ensures LE.Value(b) == LE.Value(b[..n]) <==> forall j | n <= j < 4 :: b[j] == 0
  {
    hide LE.Value;
    LE.ValueOf4(b);
    if n == 1 {
      LE.ValueOf1(b[..1]);
    } else {
      LE.ValueOf2(b[..2]);
    }
  }

  lemma LowBytes(mem: seq<u8>, off: nat, n: nat)
    requires n <= 4 && off + 4 <= |mem|
    ensures LE.Value(mem[off..off + 4]) % LE.Pow256(n) == LE.Value(mem[off..off + n])
  {
    var low, high := mem[off..off + n], mem[off + n..off + 4];
    assert mem[off..off + 4] == low + high;
    LE.ValueConcat(low, high);
    LE.ValueBound(low);
    DivUnique(LE.Value(low + high), LE.Pow256(n), LE.Value(high), LE.Value(low));
  }

  // ----- stores -----

  datatype Store = Store(addr: u32, value: u32, size: nat)

  /** An address that is not the end address of any device. */
  predicate NoEnd(devices: seq<Device>, addr: u32) {
    forall k | 0 <= k < |devices| :: addr != devices[k].base + |devices[k].mem|
  }

  /** The device that holds the address, or the number of devices. */
  function Holder(devices: seq<Device>, addr: int): (k: nat)
    ensures k <= |devices| && (k < |devices| ==> Holds(devices[k], addr))
    ensures forall j | 0 <= j < k :: !Holds(devices[j], addr)
  {
    if devices == [] then 0
    else if Holds(devices[0], addr) then 0
    else 1 + Holder(devices[1..], addr)
  }

  /** The stores that change memory. */
  predicate Effective(devices: seq<Device>, s: Store) {
    var k := Holder(devices, s.addr);
    k < |devices| && devices[k].kind != Rom && Aligned(s.addr, s.size)
  }

  /** The bus looks exactly at the device that holds the address. */
  lemma FindIsHolder(devices: seq<Device>, addr: u32)
    requires WellLaidOut(devices) && NoEnd(devices, addr)
    ensures Find(devices, addr) == Holder(devices, addr)
  {
    forall k | 0 <= k < |devices| ensures devices[k].Selects(addr) <==> Holds(devices[k], addr) {
      SelectsExactly(devices[k], addr);
    }
  }

  /**
   A store takes effect or is refused; which of them, and with what code, depends on the
   address alone: unmapped, read-only, misaligned.
   */
  lemma StoreOutcome(devices: seq<Device>, s: Store)
    requires WellLaidOut(devices) && NoEnd(devices, s.addr) && ValidSize(s.size)
    ensures var k := Holder(devices, s.addr);
      var r := BusWrite(devices, s.addr, s.value, s.size);
      if k == |devices| then r == WriteFault(7)
      else if devices[k].kind == Rom then r == WriteFault(2)
      else if s.addr % s.size != 0 then r == WriteFault(6)
      else
        var off := s.addr - devices[k].base;
        && off + s.size <= |devices[k].mem|
        && r == Written(devices[k := devices[k].(mem := Poke(devices[k].mem, off, s.value, s.size))])
  {
    hide Find, Holder, Poke;
    var k := Holder(devices, s.addr);
    FindIsHolder(devices, s.addr);
    if k < |devices| {
      SelectsExactly(devices[k], s.addr);
      if Aligned(s.addr, s.size) {
        WordInside(devices[k], s.addr, s.size);
      }
    }
  }

  lemma PokeByte(mem: seq<u8>, off: nat, value: u32, size: nat, i: nat)
    requires off + size <= |mem| && i < |mem|
    ensures Poke(mem, off, value, size)[i]
      == if off <= i < off + size then LE.Bytes(value, size)[i - off] else mem[i]
  {
  }

  lemma ShapeKept(a: seq<Device>, b: seq<Device>)
    requires WellLaidOut(a) && SameShape(a, b)
    ensures WellLaidOut(b)
    ensures forall addr: u32 :: NoEnd(a, addr) ==> NoEnd(b, addr)
    ensures forall addr :: Holder(b, addr) == Holder(a, addr)
  {
    forall j, k | 0 <= j < k < |b| ensures Separate(b[j], b[k]) {
      assert Separate(a[j], a[k]);
    }
    forall addr ensures Holder(b, addr) == Holder(a, addr) {
      assert forall k | 0 <= k < |a| :: Holds(a[k], addr) == Holds(b[k], addr);
    }
  }

  /** After an effective store, the stored bytes are the new ones and all others are unchanged. */
  lemma StoreBytes(devices: seq<Device>, s: Store, addr: u32)
    requires WellLaidOut(devices) && NoEnd(devices, s.addr) && ValidSize(s.size) && Effective(devices, s)
    ensures BusWrite(devices, s.addr, s.value, s.size).Written?
    ensures ByteAt(BusWrite(devices, s.addr, s.value, s.size).devices, addr)
      == if s.addr <= addr < s.addr + s.size then Some(LE.Bytes(s.value, s.size)[addr - s.addr])
         else ByteAt(devices, addr)
  {
    hide BusWrite, Poke, Find, ByteAt, Holder;
    StoreOutcome(devices, s);
    PokedByte(devices, s, Holder(devices, s.addr), addr);
  }

  lemma PokedByte(devices: seq<Device>, s: Store, k: nat, addr: u32)
    requires WellLaidOut(devices) && k < |devices| && Holds(devices[k], s.addr)
    requires s.addr + s.size <= devices[k].base + |devices[k].mem|
    ensures var off := s.addr - devices[k].base;
      ByteAt(devices[k := devices[k].(mem := Poke(devices[k].mem, off, s.value, s.size))], addr)
      == if s.addr <= addr < s.addr + s.size then Some(LE.Bytes(s.value, s.size)[addr - s.addr])
         else ByteAt(devices, addr)
  {
    hide Poke, Find, ByteAt, Holder, WellLaidOut;
    var off := s.addr - devices[k].base;
    var after := devices[k := devices[k].(mem := Poke(devices[k].mem, off, s.value, s.size))];
    ShapeKept(devices, after);
    var j := Holder(devices, addr);
    if j < |devices| {
      FindHolder(devices, addr, j);
      FindHolder(after, addr, j);
      if Holds(devices[k], addr) {
        FindHolder(devices, addr, k);
        FindHolder(after, addr, k);
        PokeByte(devices[k].mem, off, s.value, s.size, addr - devices[k].base);
      } else {
        OtherHolder(devices, s, addr, k);
      }
    } else {
      ByteAtHolder(devices, addr);
      ByteAtHolder(after, addr);
    }
  }

  lemma OtherHolder(devices: seq<Device>, s: Store, addr: int, k: nat)
    requires k < |devices| && Holds(devices[k], s.addr) && !Holds(devices[k], addr)
    requires s.addr + s.size <= devices[k].base + |devices[k].mem|
    ensures !(s.addr <= addr < s.addr + s.size)
  {
  }

  /** Stores in order; a refused one changes nothing. */
  function AfterStores(devices: seq<Device>, stores: seq<Store>): seq<Device> {
    if stores == [] then devices
    else
      var before := AfterStores(devices, stores[..|stores| - 1]);
      var s := stores[|stores| - 1];
      match BusWrite(before, s.addr, s.value, s.size)
      case Written(after) => after
      case _ => before
  }

  /** The byte that the last effective store to an address left there. */
  function LastWritten(devices: seq<Device>, stores: seq<Store>, addr: int): Option<u8> {
    if stores == [] then ByteAt(devices, addr)
    else
      var s := stores[|stores| - 1];
      if Effective(devices, s) && s.addr <= addr < s.addr + s.size then
        Some(LE.Bytes(s.value, s.size)[addr - s.addr])
      else LastWritten(devices, stores[..|stores| - 1], addr)
  }

  predicate ProperStores(devices: seq<Device>, stores: seq<Store>) {
    forall k | 0 <= k < |stores| :: NoEnd(devices, stores[k].addr) && ValidSize(stores[k].size)
  }

  /**
   The bus refines a flat byte memory: after any stores strictly below the end addresses
   every address reads as the last byte written to it.
   */
  lemma {:induction false} BusIsFlat(devices: seq<Device>, stores: seq<Store>, addr: u32)
    requires WellLaidOut(devices) && ProperStores(devices, stores)
    ensures SameShape(devices, AfterStores(devices, stores))
    ensures ByteAt(AfterStores(devices, stores), addr) == LastWritten(devices, stores, addr)
    decreases |stores|
  {
    hide BusWrite, WellLaidOut, NoEnd, Holder, ByteAt, Aligned;
    if stores != [] {
      var earlier := stores[..|stores| - 1];
      var s := stores[|stores| - 1];
      assert forall k | 0 <= k < |earlier| :: earlier[k] == stores[k];
      BusIsFlat(devices, earlier, addr);
      var before := AfterStores(devices, earlier);
      ShapeKept(devices, before);
      StoreEffect(before, s, addr);
      assert Effective(before, s) <==> Effective(devices, s);
    }
  }

  /** An aligned word read after any stores returns the four bytes last written there, little-endian. */
  lemma WordAfterStores(devices: seq<Device>, stores: seq<Store>, addr: u32, k: nat)
    requires WellLaidOut(devices) && ProperStores(devices, stores)
    requires k < |devices| && Holds(devices[k], addr) && addr % 4 == 0
    ensures var last := (j: int) => LastWritten(devices, stores, addr + j);
      && last(0).Some? && last(1).Some? && last(2).Some? && last(3).Some?
      && BusRead(AfterStores(devices, stores), addr, 4)
        == Value(last(0).value + 0x100 * last(1).value + 0x1_0000 * last(2).value + 0x100_0000 * last(3).value)
  {
    hide BusRead, WellLaidOut, ByteAt, LastWritten, AfterStores, LE.Value;
    var after := AfterStores(devices, stores);
    assert WordSized(devices[k]) by { WellSized(devices, k); }
    WordInside(devices[k], addr, 4);
    BusIsFlat(devices, stores, addr);
    BusIsFlat(devices, stores, addr + 1);
    BusIsFlat(devices, stores, addr + 2);
    BusIsFlat(devices, stores, addr + 3);
    ShapeKept(devices, after);
    WordRead(after, addr, k);
    FourBytes(after, addr);
    LE.ValueOf4(BytesAt(after, addr, 4).value);
  }

  lemma WellSized(devices: seq<Device>, k: nat)
    requires WellLaidOut(devices) && k < |devices|
    ensures WordSized(devices[k])
  {
  }

  lemma FourBytes(devices: seq<Device>, addr: int)
    requires BytesAt(devices, addr, 4).Some?
    ensures var b := BytesAt(devices, addr, 4).value;
      forall j: nat | j < 4 :: ByteAt(devices, addr + j) == Some(b[j])
  {
  }

  lemma StoreEffect(devices: seq<Device>, s: Store, addr: u32)
    requires WellLaidOut(devices) && NoEnd(devices, s.addr) && ValidSize(s.size)
    ensures BusWrite(devices, s.addr, s.value, s.size).Written? <==> Effective(devices, s)
    ensures Effective(devices, s) ==>
      && SameShape(devices, BusWrite(devices, s.addr, s.value, s.size).devices)
      && ByteAt(BusWrite(devices, s.addr, s.value, s.size).devices, addr)
        == if s.addr <= addr < s.addr + s.size then Some(LE.Bytes(s.value, s.size)[addr - s.addr])
           else ByteAt(devices, addr)
  {
    hide BusWrite, Holder, ByteAt, Poke;
    StoreOutcome(devices, s);
    if Effective(devices, s) {
      StoreBytes(devices, s, addr);
      WriteFrame(devices, s.addr, s.value, s.size);
    }
  }

  /** A read-only device keeps its image through any stores at all. */
  lemma {:induction false} RomKept(devices: seq<Device>, stores: seq<Store>, k: nat)
    requires k < |devices| && devices[k].kind == Rom
    ensures k < |AfterStores(devices, stores)| && AfterStores(devices, stores)[k] == devices[k]
    decreases |stores|
  {
    hide BusWrite;
    if stores != [] {
      var s := stores[|stores| - 1];
      RomKept(devices, stores[..|stores| - 1], k);
      var before := AfterStores(devices, stores[..|stores| - 1]);
      if BusWrite(before, s.addr, s.value, s.size).Written? {
        WriteFrame(before, s.addr, s.value, s.size);
      }
    }
  }

  /** Reordering the devices changes no byte, hence no read. */
  lemma OrderIrrelevant(a: seq<Device>, b: seq<Device>, addr: u32)
    requires WellLaidOut(a) && WellLaidOut(b) && multiset(a) == multiset(b)
    ensures ByteAt(a, addr) == ByteAt(b, addr)
  {
    HeldInBoth(a, b, addr);
    HeldInBoth(b, a, addr);
  }

  lemma HeldInBoth(a: seq<Device>, b: seq<Device>, addr: u32)
    requires WellLaidOut(a) && WellLaidOut(b) && multiset(a) == multiset(b)
    ensures ByteAt(a, addr).Some? ==> ByteAt(b, addr) == ByteAt(a, addr)
  {
    hide ByteAt, Holder, Find, WellLaidOut;
    if ByteAt(a, addr).Some? {
      ByteAtHolder(a, addr);
      var k :| 0 <= k < |a| && Holds(a[k], addr);
      FindHolder(a, addr, k);
      assert a[k] in multiset(b);
      var j :| 0 <= j < |b| && b[j] == a[k];
      FindHolder(b, addr, j);
    }
  }

  lemma EffectiveInBoth(a: seq<Device>, b: seq<Device>, s: Store)
    requires WellLaidOut(a) && WellLaidOut(b) && multiset(a) == multiset(b) && NoEnd(b, s.addr)
    ensures Effective(a, s) ==> Effective(b, s)
  {
    hide WellLaidOut, Find, Aligned;
    var k := Holder(a, s.addr);
    if k < |a| {
      assert a[k] in multiset(b);
      var j :| 0 <= j < |b| && b[j] == a[k];
      FindHolder(b, s.addr, j);
      FindIsHolder(b, s.addr);
    }
  }

  lemma {:induction false} LastWrittenInBoth(a: seq<Device>, b: seq<Device>, stores: seq<Store>, addr: u32)
    requires WellLaidOut(a) && WellLaidOut(b) && multiset(a) == multiset(b)
    requires ProperStores(a, stores) && ProperStores(b, stores)
    ensures LastWritten(a, stores, addr) == LastWritten(b, stores, addr)
    decreases |stores|
  {
    hide WellLaidOut, NoEnd, Effective, ByteAt;
    if stores == [] {
      OrderIrrelevant(a, b, addr);
    } else {
      var earlier := stores[..|stores| - 1];
      assert forall k | 0 <= k < |earlier| :: earlier[k] == stores[k];
      LastWrittenInBoth(a, b, earlier, addr);
      EffectiveInBoth(a, b, stores[|stores| - 1]);
      EffectiveInBoth(b, a, stores[|stores| - 1]);
    }
  }

  /** The order in which devices were added to the bus makes no difference to any byte after any stores. */
  lemma StoresOrderIrrelevant(a: seq<Device>, b: seq<Device>, stores: seq<Store>, addr: u32)
    requires WellLaidOut(a) && WellLaidOut(b) && multiset(a) == multiset(b)
    requires ProperStores(a, stores) && ProperStores(b, stores)
    ensures ByteAt(AfterStores(a, stores), addr) == ByteAt(AfterStores(b, stores), addr)
  {
    hide WellLaidOut, ProperStores, LastWritten, ByteAt, AfterStores;
    BusIsFlat(a, stores, addr);
    BusIsFlat(b, stores, addr);
    LastWrittenInBoth(a, b, stores, addr);
  }
}
