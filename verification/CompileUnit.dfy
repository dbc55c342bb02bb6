/**
 The parser classes of .debug_info: nodes are allocated, filled in place and linked, while
 one cursor moves through the unit's bytes.
 */
module CompileUnits {
  import opened Words
  import opened Streams
  import opened DataStreams
  import opened Abbrev
  import opened DieTree
  import LE = LittleEndian

  class DebugInfoEntry {
    const parent: DebugInfoEntry?
    var code: nat
    var abbrevEntry: Option<AbbrevEntry>
    var offset: nat
    var attributes: map<u32, DebugData>
    var children: seq<DebugInfoEntry>
    ghost var Repr: set<object>

    /** The children are valid, link back to this node and share no object with each other. */
    ghost predicate Valid()
      reads this, Repr
      decreases Repr
    {
      && this in Repr
      && (forall k | 0 <= k < |children| ::
        var c := children[k];
        && c in Repr && c.Repr < Repr && this !in c.Repr
        && c.parent == this && c.abbrevEntry.Some? && c.Valid())
      && forall j, k | 0 <= j < k < |children| :: children[j].Repr !! children[k].Repr
    }

    ghost function Trees(): (es: seq<Entry>)
      requires Valid()
      reads this, Repr
      ensures |es| == |children|
      decreases Repr, 0
    {
      seq(|children|, k requires 0 <= k < |children| && Valid() reads this, Repr => children[k].Tree())
    }

    /** The tree that hangs off this node, as a value. */
    ghost function Tree(): Entry
      requires Valid() && abbrevEntry.Some?
      reads this, Repr
      decreases Repr, 1
    {
      Entry(code, abbrevEntry.value, offset, attributes, Trees())
    }

    constructor (parent: DebugInfoEntry?)
      ensures Valid() && Repr == {this} && this.parent == parent
      ensures children == [] && attributes == map[] && code == 0
    {
      this.parent := parent;
      code := 0;
      abbrevEntry := None;
      attributes := map[];
      children := [];
      Repr := {this};
    }

    method AddAttribute(name: u32, data: DebugData)
      requires Valid()
      modifies this
      ensures Valid() && Repr == old(Repr) && attributes == Insert(old(attributes), name, data)
      ensures code == old(code) && abbrevEntry == old(abbrevEntry) && offset == old(offset)
      ensures children == old(children) && Trees() == old(Trees())
    {
      attributes := Insert(attributes, name, data);
    }

    method AddChild(child: DebugInfoEntry)
      requires Valid() && child.Valid() && child.abbrevEntry.Some? && child.parent == this
      requires child.Repr !! Repr
      modifies this
      ensures Valid() && Repr == old(Repr) + child.Repr && children == old(children) + [child]
      ensures code == old(code) && abbrevEntry == old(abbrevEntry)
      ensures offset == old(offset) && attributes == old(attributes)
      ensures Trees() == old(Trees()) + [old(child.Tree())]
    {
      children := children + [child];
      Repr := Repr + child.Repr;
    }
  }

  class CompileUnit {
    const abbrevTable: AbbrevMap
    const addressSize: u8
    const debugStream: DataStream
    const base: nat
    const strings: (u32, u32) -> seq<u8>

    ghost function UnitOf(): Unit {
      Unit(debugStream.data, debugStream.streamLen, base, Format(abbrevTable, addressSize), strings)
    }

    constructor (data: seq<u8>, length: nat, base: nat, format: Format, strings: (u32, u32) -> seq<u8>)
      ensures fresh(debugStream) && debugStream.index == 0
      ensures UnitOf() == Unit(data, length, base, format, strings)
    {
      debugStream := new DataStream(data, length);
      this.base := base;
      abbrevTable, addressSize := format.table, format.addressSize;
      this.strings := strings;
    }

    /** The bytes of a block, written one by one. */
    method ReadBytes(streamLen: nat, prefix: seq<u8>) returns (r: Read<seq<u8>>)
      modifies debugStream
      ensures r == Prepend(prefix, TakeAt(debugStream.data, old(debugStream.index), streamLen))
      ensures r.Ok? ==> debugStream.index == r.next
    {
      var written := prefix;
      var remaining := streamLen;
      ghost var start := debugStream.index;
      while remaining > 0
        invariant 0 <= remaining <= streamLen && debugStream.index == start + (streamLen - remaining)
        invariant remaining == streamLen ==> written == prefix
        invariant remaining < streamLen ==>
          debugStream.index <= |debugStream.data| && written == prefix + debugStream.data[start..debugStream.index]
      {
        var byte := debugStream.DecodeUInt8();
        if byte.Fail? {
          return Fail(byte.fault);
        }
        written := written + [byte.value];
        remaining := remaining - 1;
      }
      PrependAll(prefix, start);
      r := Ok(written, debugStream.index);
    }

    method ReadString() returns (r: Read<seq<u8>>)
      modifies debugStream
      ensures r == StringAt(debugStream.data, old(debugStream.index))
      ensures r.Ok? ==> debugStream.index == r.next
    {
      var d := debugStream.data;
      var written := [];
      PrependNone(StringAt(d, debugStream.index));
      while true
        invariant StringAt(d, old(debugStream.index)) == Prepend(written, StringAt(d, debugStream.index))
        decreases |d| - debugStream.index
      {
        var c := debugStream.DecodeUInt8();
        if c.Fail? {
          return Fail(c.fault);
        }
        if c.value == 0 {
          PrependAll(written, debugStream.index);
          return Ok(written, debugStream.index);
        }
        PrependMore(written, c.value, StringAt(d, debugStream.index));
        written := written + [c.value];
      }
    }

    method ReadBlockLength(prefix: nat) returns (r: Read<nat>)
      requires prefix in {0, 1, 2, 4}
      modifies debugStream
      ensures r == BlockLengthAt(debugStream.data, old(debugStream.index), prefix)
      ensures r.Ok? ==> debugStream.index == r.next
    {
      match prefix
      case 0 => r := debugStream.DecodeULeb128();
      case 1 =>
        var n := debugStream.DecodeUInt8();
        UIntIsU8(debugStream.data, old(debugStream.index));
        r := n;
      case 2 =>
        var n := debugStream.DecodeUInt16();
        r := n;
      case 4 =>
        var n := debugStream.DecodeUInt32();
        r := n;
    }

    method DecodeInfo(entry: AttributeEntry) returns (r: Read<DebugData>)
      modifies debugStream
      ensures match DataAt(UnitOf(), entry, old(debugStream.index))
        case Ok(data, next) => r == Ok(DebugData(entry.form, data), next) && debugStream.index == next
        case Fail(fault) => r == Fail(fault)
    {
      hide ULebAt, SLebAt, U32At, TakeAt, StringAt, BlockLengthAt;
      var bytes: Read<seq<u8>>;
      match LayoutOf(entry.form, addressSize) {
        case Fixed(size) =>
          PrependNone(TakeAt(debugStream.data, debugStream.index, size));
          bytes := ReadBytes(size, []);
        case Block(prefix) =>
          var n := ReadBlockLength(prefix);
          if n.Fail? {
            return Fail(n.fault);
          }
          PrependNone(TakeAt(debugStream.data, debugStream.index, n.value));
          bytes := ReadBytes(n.value, []);
        case SignedNumber =>
          var n := debugStream.DecodeLeb128();
          bytes := if n.Ok? then Ok(Bytes8(n.value), n.next) else Fail(n.fault);
        case UnsignedNumber =>
          var n := debugStream.DecodeULeb128();
          bytes := if n.Ok? then Ok(Bytes8(n.value), n.next) else Fail(n.fault);
        case StringReference =>
          var offset := debugStream.DecodeUInt32();
          bytes := if offset.Ok? then Ok(strings(entry.form, offset.value), offset.next) else Fail(offset.fault);
        case InlineString =>
          bytes := ReadString();
        case ImplicitConst =>
          bytes := Ok(Bytes8(entry.special), debugStream.index);
        case Unsupported =>
          bytes := Fail(UnsupportedForm(entry.form));
      }
      r := if bytes.Ok? then Ok(DebugData(entry.form, bytes.value), bytes.next) else Fail(bytes.fault);
    }

    /** The attribute loop of `generateDebugInfo`. */
    method DecodeAttributes(node: DebugInfoEntry, attributes: seq<AttributeEntry>) returns (r: Read<()>)
      requires node.Valid() && node.children == [] && node.attributes == map[] && debugStream !in node.Repr
      modifies debugStream, node
      ensures node.Valid() && node.Repr == old(node.Repr) && node.children == []
      ensures node.code == old(node.code) && node.abbrevEntry == old(node.abbrevEntry)
      ensures node.offset == old(node.offset)
      ensures match AttributesAt(UnitOf(), attributes, old(debugStream.index), map[])
        case Ok(found, next) => r == Ok((), next) && node.attributes == found && debugStream.index == next
        case Fail(fault) => r == Fail(fault)
    {
      hide DataAt;
      var i := 0;
      assert attributes[0..] == attributes;
      while i < |attributes|
        invariant 0 <= i <= |attributes|
        invariant node.Valid() && node.Repr == old(node.Repr) && node.children == []
        invariant node.code == old(node.code) && node.abbrevEntry == old(node.abbrevEntry)
        invariant node.offset == old(node.offset)
        invariant AttributesAt(UnitOf(), attributes, old(debugStream.index), map[])
          == AttributesAt(UnitOf(), attributes[i..], debugStream.index, node.attributes)
      {
        var data := DecodeInfo(attributes[i]);
        assert attributes[i..][1..] == attributes[i + 1..];
        if data.Fail? {
          return Fail(data.fault);
        }
        node.AddAttribute(attributes[i].name, data.value);
        i := i + 1;
      }
      r := Ok((), debugStream.index);
    }

    /**
     Fills in the node and its subtree. `null` is returned for a null entry and for a node
     that ends the unit, just as in the source.
     */
    method GenerateDebugInfo(node: DebugInfoEntry) returns (r: Read<DebugInfoEntry?>)
      requires node.Valid() && node.children == [] && node.attributes == map[] && node.Repr == {node}
      modifies debugStream, node
      ensures match EntryAt(UnitOf(), old(debugStream.index))
        case Fail(fault) => r == Fail(fault)
        case Ok(EndOfSiblings, next) => r == Ok(null, next) && debugStream.index == next
        case Ok(Filled(tree, returned), next) =>
          && r == Ok(if returned then node else null, next) && debugStream.index == next
          && node.Valid() && node.abbrevEntry.Some? && node.Tree() == tree
          && fresh(node.Repr - {node}) && debugStream !in node.Repr
      decreases |debugStream.data| - debugStream.index, 0
    {
      hide ULebAt, AttributesAt;
      var offset := base + debugStream.index;
      var code := debugStream.DecodeULeb128();
      if code.Fail? {
        return Fail(code.fault);
      }
      if code.value == 0 {
        return Ok(null, debugStream.index);
      }
      if code.value !in abbrevTable {
        return Fail(MissingAbbrev(code.value));
      }
      var abbrev := abbrevTable[code.value];
      node.code := code.value;
      node.abbrevEntry := Some(abbrev);
      node.offset := offset;
      var decoded := DecodeAttributes(node, abbrev.attributes);
      if decoded.Fail? {
        return Fail(decoded.fault);
      }
      if !debugStream.IsStreamable() {
        return Ok(null, debugStream.index);
      }
      if !abbrev.hasChild {
        return Ok(node, debugStream.index);
      }
      var children := GenerateChildren(node);
      r := if children.Fail? then Fail(children.fault) else Ok(node, debugStream.index);
    }

    /** The child loop of `generateDebugInfo`. */
    method GenerateChildren(node: DebugInfoEntry) returns (r: Read<()>)
      requires node.Valid() && node.children == [] && node.abbrevEntry.Some? && node.Repr == {node}
      modifies debugStream, node
      ensures match ChildrenAt(UnitOf(), old(debugStream.index))
        case Fail(fault) => r == Fail(fault)
        case Ok(trees, next) =>
          && r == Ok((), next) && debugStream.index == next
          && node.Valid() && node.Trees() == trees
          && node.code == old(node.code) && node.abbrevEntry == old(node.abbrevEntry)
          && node.offset == old(node.offset) && node.attributes == old(node.attributes)
          && fresh(node.Repr - {node}) && debugStream !in node.Repr
      decreases |debugStream.data| - debugStream.index, 1
    {
      hide EntryAt;
      ghost var u := UnitOf();
      PrependNone(ChildrenAt(u, debugStream.index));
      while true
        invariant node.Valid() && fresh(node.Repr - {node}) && debugStream !in node.Repr
        invariant node.code == old(node.code) && node.abbrevEntry == old(node.abbrevEntry)
        invariant node.offset == old(node.offset) && node.attributes == old(node.attributes)
        invariant old(debugStream.index) <= debugStream.index
        invariant old(debugStream.index) < debugStream.index ==> old(debugStream.index) < |debugStream.data|
        invariant ChildrenAt(u, old(debugStream.index)) == Prepend(node.Trees(), ChildrenAt(u, debugStream.index))
        decreases |debugStream.data| - debugStream.index
      {
        var child := new DebugInfoEntry(node);
        var result := GenerateDebugInfo(child);
        if result.Fail? {
          return Fail(result.fault);
        }
        if result.value == null {
          PrependAll(node.Trees(), debugStream.index);
          return Ok((), debugStream.index);
        }
        PrependMore(node.Trees(), child.Tree(), ChildrenAt(u, debugStream.index));
        node.AddChild(child);
      }
    }
  }

  lemma UIntIsU8(d: seq<u8>, i: nat)
    ensures UIntAt(d, i, 1) == U8At(d, i)
  {
    if i < |d| {
      var b := d[i..i + 1];
      assert b[1..] == [];
      assert LE.Value(b) == b[0] + 0x100 * LE.Value(b[1..]);
    }
  }
}
