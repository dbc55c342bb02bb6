/**
 The debugging-information-entry tree: attribute forms (`CompileUnit::decodeInfo`) and the
 recursive parser (`CompileUnit::generateDebugInfo`) as functions of the bytes.
 */
module DieTree {
  import opened Words
  import opened Streams
  import opened Abbrev
  import LE = LittleEndian

  /** How the bytes of an attribute are laid out, by its form. */
  datatype Layout =
    | Fixed(size: nat)            // that many bytes
    | Block(prefix: nat)          // a length in `prefix` bytes, ULEB128 when 0, then a block
    | SignedNumber                // LEB128
    | UnsignedNumber              // ULEB128
    | StringReference             // a 4-byte offset into a string section
    | InlineString                // bytes up to a NUL
    | ImplicitConst               // no bytes; the value is in the abbreviation
    | Unsupported

  /** The layout of a form; an address takes as many bytes as the unit's header says. */
  function LayoutOf(form: u32, addressSize: u8): Layout {
    match form
    case 0x01 => Fixed(addressSize)                               // addr
    case 0x09 => Block(0) case 0x18 => Block(0)                   // block, exprloc
    case 0x0a => Block(1) case 0x03 => Block(2) case 0x04 => Block(4)
    case 0x19 => Fixed(0)                                         // flag_present
    case 0x0b => Fixed(1) case 0x0c => Fixed(1)                   // data1, flag
    case 0x11 => Fixed(1) case 0x25 => Fixed(1)                   // ref1, strx1
    case 0x29 => Fixed(1)                                         // addrx1
    case 0x05 => Fixed(2) case 0x12 => Fixed(2)                   // data2, ref2
    case 0x26 => Fixed(2) case 0x2a => Fixed(2)                   // strx2, addrx2
    case 0x27 => Fixed(3) case 0x2b => Fixed(3)                   // strx3, addrx3
    case 0x06 => Fixed(4) case 0x10 => Fixed(4)                   // data4, ref_addr
    case 0x13 => Fixed(4) case 0x17 => Fixed(4)                   // ref4, sec_offset
    case 0x28 => Fixed(4) case 0x2c => Fixed(4)                   // strx4, addrx4
    case 0x07 => Fixed(8) case 0x14 => Fixed(8)                   // data8, ref8
    case 0x20 => Fixed(8)                                         // ref_sig8
    case 0x1e => Fixed(16)                                        // data16
    case 0x0d => SignedNumber                                     // sdata
    case 0x0f => UnsignedNumber case 0x15 => UnsignedNumber       // udata, ref_udata
    case 0x1a => UnsignedNumber case 0x1b => UnsignedNumber       // strx, addrx
    case 0x22 => UnsignedNumber case 0x23 => UnsignedNumber       // loclistx, rnglistx
    case 0x0e => StringReference case 0x1f => StringReference     // strp, line_strp
    case 0x08 => InlineString                                     // string
    case 0x21 => ImplicitConst
    case _ => Unsupported
  }

  datatype DebugData = DebugData(form: u32, data: seq<u8>)

  /** A node of the tree. */
  datatype Entry = Entry(
    code: nat, abbrev: AbbrevEntry, offset: nat, attributes: map<u32, DebugData>, children: seq<Entry>)

  /** What decides how entries are laid out: the abbreviations and the size of an address. */
  datatype Format = Format(table: AbbrevMap, addressSize: u8)

  /**
   What the parser reads from: the bytes from the first entry on, the length of the compile
   unit's part of them, the offset of the first byte in .debug_info, the format, and the
   strings by form and offset.
   */
  datatype Unit = Unit(
    data: seq<u8>, length: nat, base: nat, format: Format, strings: (u32, u32) -> seq<u8>)

  // ----- attribute values -----

  function TakeAt(d: seq<u8>, i: nat, n: nat): Read<seq<u8>> {
    if n == 0 then Ok([], i) else if i + n <= |d| then Ok(d[i..i + n], i + n) else Fail(Overrun)
  }

  function StringAt(d: seq<u8>, i: nat): (r: Read<seq<u8>>)
    ensures r.Ok? ==> i < r.next
    decreases |d| - i
  {
    if i >= |d| then Fail(Overrun)
    else if d[i] == 0 then Ok([], i + 1)
    else Prepend([d[i]], StringAt(d, i + 1))
  }

  /** The length before a block. */
  function BlockLengthAt(d: seq<u8>, i: nat, prefix: nat): (r: Read<nat>)
    ensures r.Ok? ==> i <= r.next
  {
    if prefix == 0 then ULebAt(d, i) else UIntAt(d, i, prefix)
  }

  /** The 8 bytes of a 64-bit number. */
  function Bytes8(n: int): (b: seq<u8>)
    ensures |b| == 8
  {
    LE.Bytes(Wrap64(n), 8)
  }

  function DataAt(u: Unit, a: AttributeEntry, i: nat): (r: Read<seq<u8>>)
    ensures r.Ok? ==> i <= r.next
  {
    match LayoutOf(a.form, u.format.addressSize)
    case Fixed(size) => TakeAt(u.data, i, size)
    case Block(prefix) =>
      var (n, i1) :- BlockLengthAt(u.data, i, prefix);
      TakeAt(u.data, i1, n)
    case SignedNumber =>
      var (n, i1) :- SLebAt(u.data, i);
      Ok(Bytes8(n), i1)
    case UnsignedNumber =>
      var (n, i1) :- ULebAt(u.data, i);
      Ok(Bytes8(n), i1)
    case StringReference =>
      var (offset, i1) :- U32At(u.data, i);
      Ok(u.strings(a.form, offset), i1)
    case InlineString => StringAt(u.data, i)
    case ImplicitConst => Ok(Bytes8(a.special), i)
    case Unsupported => Fail(UnsupportedForm(a.form))
  }

  function AttributesAt(u: Unit, attributes: seq<AttributeEntry>, i: nat, found: map<u32, DebugData>)
    : (r: Read<map<u32, DebugData>>)
    ensures r.Ok? ==> i <= r.next
    decreases |attributes|
  {
    if attributes == [] then Ok(found, i)
    else
      var a := attributes[0];
      var (data, i1) :- DataAt(u, a, i);
      AttributesAt(u, attributes[1..], i1, Insert(found, a.name, DebugData(a.form, data)))
  }

  // ----- the tree -----

  /**
   The outcome of one call: a null entry ends the siblings; a node that is the last thing in
   the unit is filled in, but the call returns a null pointer.
   */
  datatype Parsed = EndOfSiblings | Filled(node: Entry, returned: bool)

  function EntryAt(u: Unit, i: nat): (r: Read<Parsed>)
    ensures r.Ok? ==> i < r.next && i < |u.data|
    decreases |u.data| - i, 0
  {
    var (code, i1) :- ULebAt(u.data, i);
    if code == 0 then Ok(EndOfSiblings, i1)
    else if code !in u.format.table then Fail(MissingAbbrev(code))
    else
      var abbrev := u.format.table[code];
      var (attributes, i2) :- AttributesAt(u, abbrev.attributes, i1, map[]);
      var node := Entry(code, abbrev, u.base + i, attributes, []);
      if i2 >= u.length then Ok(Filled(node, false), i2)
      else if !abbrev.hasChild then Ok(Filled(node, true), i2)
      else
        var (children, i3) :- ChildrenAt(u, i2);
        Ok(Filled(node.(children := children), true), i3)
  }

  /** The children added until a call returns a null pointer. */
  function ChildrenAt(u: Unit, i: nat): (r: Read<seq<Entry>>)
    ensures r.Ok? ==> i < r.next
    decreases |u.data| - i, 1
  {
    var (child, i1) :- EntryAt(u, i);
    if child.EndOfSiblings? || !child.returned then Ok([], i1)
    else Prepend([child.node], ChildrenAt(u, i1))
  }
}
