/**
 The encoder of sections 2.3, 7.5.2 and 7.5.3 of DWARF Version 5, and the theorem that the
 parser undoes it.
 */
module DieRoundTrip {
  import opened Words
  import opened Streams
  import opened Abbrev
  import opened DieTree
  import LE = LittleEndian

  /** An attribute value to encode. */
  datatype Value = Raw(bytes: seq<u8>) | Number(n: int)

  // ----- the forms of section 7.5.6, by how a value is written -----

  /** Forms of a fixed number of bytes: constants, flags, references, offsets and indices. */
  function FixedSize(form: u32, addressSize: u8): Option<nat> {
    if form in {0x19} then Some(0)                                      // flag_present
    else if form in {0x0b, 0x0c, 0x11, 0x25, 0x29} then Some(1)         // data1, flag, ref1, strx1, addrx1
    else if form in {0x05, 0x12, 0x26, 0x2a} then Some(2)               // data2, ref2, strx2, addrx2
    else if form in {0x27, 0x2b} then Some(3)                           // strx3, addrx3
    else if form in {0x06, 0x10, 0x13, 0x17, 0x28, 0x2c} then Some(4)   // data4, ref_addr, ref4, sec_offset, ...4
    else if form in {0x07, 0x14, 0x20} then Some(8)                     // data8, ref8, ref_sig8
    else if form == 0x1e then Some(16)                                  // data16
    else if form == 0x01 then Some(addressSize)                         // addr
    else None
  }

  /** Blocks: the number of bytes of the length before them, 0 when it is an unsigned LEB128 number. */
  function BlockPrefix(form: u32): Option<nat> {
    if form in {0x09, 0x18} then Some(0)                                // block, exprloc
    else if form == 0x0a then Some(1)                                   // block1
    else if form == 0x03 then Some(2)                                   // block2
    else if form == 0x04 then Some(4)                                   // block4
    else None
  }

  predicate WritesSigned(form: u32) {
    form == 0x0d                                                        // sdata
  }

  predicate WritesUnsigned(form: u32) {
    form in {0x0f, 0x15, 0x1a, 0x1b, 0x22, 0x23}                        // udata, ref_udata and the ...x forms
  }

  predicate WritesOffset(form: u32) {
    form in {0x0e, 0x1f}                                                // strp, line_strp
  }

  predicate WritesString(form: u32) {
    form == 0x08                                                        // string
  }

  predicate WritesNothing(form: u32) {
    form == 0x21                                                        // implicit_const
  }

  /** The forms that can be written here: all of version 5 but indirect and the supplementary-file ones. */
  predicate Supported(form: u32) {
    || FixedSize(form, 0).Some? || BlockPrefix(form).Some? || WritesSigned(form) || WritesUnsigned(form)
    || WritesOffset(form) || WritesString(form) || WritesNothing(form)
  }

  predicate Encodable(f: Format, a: AttributeEntry, v: Value) {
    if FixedSize(a.form, f.addressSize).Some? then v.Raw? && |v.bytes| == FixedSize(a.form, f.addressSize).value
    else if BlockPrefix(a.form).Some? then v.Raw? && BlockFits(|v.bytes|, BlockPrefix(a.form).value)
    else if WritesSigned(a.form) then v.Number? && -0x800_0000 <= v.n < 0x8000_0000
    else if WritesUnsigned(a.form) then v.Number? && 0 <= v.n < 0x8000_0000
    else if WritesOffset(a.form) then v.Number? && 0 <= v.n < 0x1_0000_0000
    else if WritesString(a.form) then v.Raw? && 0 !in v.bytes
    else WritesNothing(a.form) && v == Number(a.special)
  }

  /** The length of a block fits its prefix. */
  predicate BlockFits(length: nat, prefix: nat) {
    if prefix == 1 then length < 0x100
    else if prefix == 2 then length < 0x1_0000
    else if prefix == 4 then length < 0x1_0000_0000
    else length < 0x8000_0000
  }

  function EncodeValue(f: Format, a: AttributeEntry, v: Value): seq<u8>
    requires Encodable(f, a, v)
  {
    if FixedSize(a.form, f.addressSize).Some? then v.bytes
    else if BlockPrefix(a.form).Some? then
      (if BlockPrefix(a.form).value == 0 then EncodeULeb(|v.bytes|) else LE.Bytes(|v.bytes|, BlockPrefix(a.form).value))
      + v.bytes
    else if WritesSigned(a.form) then EncodeSLeb(v.n)
    else if WritesUnsigned(a.form) then EncodeULeb(v.n)
    else if WritesOffset(a.form) then LE.Bytes(v.n, 4)
    else if WritesString(a.form) then v.bytes + [0]
    else []
  }

  /** The attribute data that the value should be read as: its bytes, the string it points to, or 64 bits. */
  function ValueData(u: Unit, a: AttributeEntry, v: Value): seq<u8>
    requires Encodable(u.format, a, v)
  {
    if v.Raw? then v.bytes
    else if WritesOffset(a.form) then u.strings(a.form, v.n)
    else LE.Bytes(v.n % 0x1_0000_0000_0000_0000, 8)
  }

  /** The parser's classification agrees with the encoder's, form by form. */
  lemma LayoutsAgree(form: u32, addressSize: u8)
    ensures var layout := LayoutOf(form, addressSize);
      && (layout.Fixed? <==> FixedSize(form, addressSize).Some?)
      && (layout.Fixed? ==> FixedSize(form, addressSize) == Some(layout.size))
      && (layout.Block? <==> BlockPrefix(form).Some?)
      && (layout.Block? ==> BlockPrefix(form) == Some(layout.prefix))
      && (layout.SignedNumber? <==> WritesSigned(form)) && (layout.UnsignedNumber? <==> WritesUnsigned(form))
      && (layout.StringReference? <==> WritesOffset(form)) && (layout.InlineString? <==> WritesString(form))
      && (layout.ImplicitConst? <==> WritesNothing(form)) && (layout.Unsupported? <==> !Supported(form))
  {
  }

  lemma TakeRoundTrip(d: seq<u8>, i: nat, b: seq<u8>)
    requires At(d, i, b)
    ensures TakeAt(d, i, |b|) == Ok(b, i + |b|)
  {
    AtSlice(d, i, b);
  }

  lemma UIntRoundTrip(d: seq<u8>, i: nat, n: nat, k: nat)
    requires n < LE.Pow256(k) && At(d, i, LE.Bytes(n, k))
    ensures UIntAt(d, i, k) == Ok(n, i + k)
  {
    AtSlice(d, i, LE.Bytes(n, k));
    LE.ValueOfBytes(n, k);
  }

  lemma U32RoundTrip(d: seq<u8>, i: nat, n: nat)
    requires n < 0x1_0000_0000 && At(d, i, LE.Bytes(n, 4))
    ensures U32At(d, i) == Ok(n, i + 4)
  {
    LE.Pow256Small();
    UIntRoundTrip(d, i, n, 4);
  }

  lemma {:induction false} StringRoundTrip(d: seq<u8>, i: nat, s: seq<u8>)
    requires 0 !in s && At(d, i, s + [0])
    ensures StringAt(d, i) == Ok(s, i + |s| + 1)
    decreases |s|
  {
    hide At;
    if s == [] {
      assert s + [0] == [0];
      AtHead(d, i, [0]);
    } else {
      assert s + [0] == [s[0]] + (s[1..] + [0]);
      AtConcat(d, i, [s[0]], s[1..] + [0]);
      AtHead(d, i, [s[0]]);
      StringRoundTrip(d, i + 1, s[1..]);
      assert s == [s[0]] + s[1..];
    }
  }

  lemma AtHead(d: seq<u8>, i: nat, b: seq<u8>)
    requires b != [] && At(d, i, b)
    ensures i < |d| && d[i] == b[0]
  {
  }

  lemma BlockRoundTrip(u: Unit, a: AttributeEntry, v: Value, i: nat)
    requires Encodable(u.format, a, v) && BlockPrefix(a.form).Some? && At(u.data, i, EncodeValue(u.format, a, v))
    ensures DataAt(u, a, i) == Ok(v.bytes, i + |EncodeValue(u.format, a, v)|)
  {
    hide At, EncodeULeb, ULebAt, UIntAt, TakeAt, LayoutOf, FixedSize, BlockPrefix;
    LayoutsAgree(a.form, u.format.addressSize);
    var prefix := BlockPrefix(a.form).value;
    var n := |v.bytes|;
    var length := if prefix == 0 then EncodeULeb(n) else LE.Bytes(n, prefix);
    AtConcat(u.data, i, length, v.bytes);
    if prefix == 0 {
      ULebRoundTrip(u.data, i, n);
    } else {
      BlockPrefixes(a.form);
      LE.Pow256Small();
      UIntRoundTrip(u.data, i, n, prefix);
    }
    TakeRoundTrip(u.data, i + |length|, v.bytes);
  }

  lemma BlockPrefixes(form: u32)
    requires BlockPrefix(form).Some?
    ensures BlockPrefix(form).value in {0, 1, 2, 4}
  {
  }

  /** Reading an attribute yields the encoded value and consumes exactly its bytes. */
  lemma DataRoundTrip(u: Unit, a: AttributeEntry, v: Value, i: nat)
    requires Encodable(u.format, a, v) && At(u.data, i, EncodeValue(u.format, a, v))
    ensures DataAt(u, a, i) == Ok(ValueData(u, a, v), i + |EncodeValue(u.format, a, v)|)
  {
    hide At, EncodeULeb, EncodeSLeb, ULebAt, SLebAt, U32At, TakeAt, StringAt, LayoutOf, FixedSize, BlockPrefix;
    hide WritesSigned, WritesUnsigned, WritesOffset, WritesString, WritesNothing, LE.Bytes, BlockFits, Supported;
    LayoutsAgree(a.form, u.format.addressSize);
    match LayoutOf(a.form, u.format.addressSize)
    case Fixed(_) => TakeRoundTrip(u.data, i, v.bytes);
    case Block(_) => BlockRoundTrip(u, a, v, i);
    case SignedNumber => SLebRoundTrip(u.data, i, v.n);
    case UnsignedNumber => ULebRoundTrip(u.data, i, v.n);
    case StringReference => U32RoundTrip(u.data, i, v.n);
    case InlineString => StringRoundTrip(u.data, i, v.bytes);
    case ImplicitConst =>
  }

  // ----- attribute lists -----

  predicate EncodableAll(f: Format, attributes: seq<AttributeEntry>, values: seq<Value>) {
    |attributes| == |values| && forall k | 0 <= k < |values| :: Encodable(f, attributes[k], values[k])
  }

  function EncodeValues(f: Format, attributes: seq<AttributeEntry>, values: seq<Value>): seq<u8>
    requires EncodableAll(f, attributes, values)
  {
    if values == [] then []
    else EncodeValue(f, attributes[0], values[0]) + EncodeValues(f, attributes[1..], values[1..])
  }

  /** The attributes of a node; of equal names the first is kept. */
  function ValuesData(u: Unit, attributes: seq<AttributeEntry>, values: seq<Value>, found: map<u32, DebugData>)
    : map<u32, DebugData>
    requires EncodableAll(u.format, attributes, values)
    decreases |values|
  {
    if values == [] then found
    else
      var a := attributes[0];
      ValuesData(u, attributes[1..], values[1..],
                 Insert(found, a.name, DebugData(a.form, ValueData(u, a, values[0]))))
  }

  lemma {:induction false} AttributesRoundTrip(
      u: Unit, attributes: seq<AttributeEntry>, values: seq<Value>, i: nat, found: map<u32, DebugData>)
    requires EncodableAll(u.format, attributes, values) && At(u.data, i, EncodeValues(u.format, attributes, values))
    ensures AttributesAt(u, attributes, i, found)
      == Ok(ValuesData(u, attributes, values, found), i + |EncodeValues(u.format, attributes, values)|)
    decreases |values|
  {
    hide At, DataAt, EncodeValue, ValueData, Encodable, Insert;
    if values != [] {
      var a, v := attributes[0], values[0];
      AtConcat(u.data, i, EncodeValue(u.format, a, v), EncodeValues(u.format, attributes[1..], values[1..]));
      DataRoundTrip(u, a, v, i);
      AttributesRoundTrip(u, attributes[1..], values[1..], i + |EncodeValue(u.format, a, v)|,
                          Insert(found, a.name, DebugData(a.form, ValueData(u, a, v))));
    }
  }

  /** With distinct names, every attribute is found with its data. */
  lemma {:induction false} DistinctAttributesKept(
      u: Unit, attributes: seq<AttributeEntry>, values: seq<Value>, found: map<u32, DebugData>)
    requires EncodableAll(u.format, attributes, values)
    requires forall j, k | 0 <= j < k < |attributes| :: attributes[j].name != attributes[k].name
    requires forall k | 0 <= k < |attributes| :: attributes[k].name !in found
    ensures var m := ValuesData(u, attributes, values, found);
      && m.Keys == found.Keys + (set k | 0 <= k < |attributes| :: attributes[k].name)
      && (forall n | n in found :: m[n] == found[n])
      && forall k | 0 <= k < |attributes| ::
        m[attributes[k].name] == DebugData(attributes[k].form, ValueData(u, attributes[k], values[k]))
    decreases |values|
  {
    hide Encodable, ValueData;
    if values != [] {
      var a := attributes[0];
      var rest := attributes[1..];
      assert forall k | 0 <= k < |rest| :: rest[k] == attributes[k + 1] && values[1..][k] == values[k + 1];
      DistinctAttributesKept(u, rest, values[1..],
                             Insert(found, a.name, DebugData(a.form, ValueData(u, a, values[0]))));
      assert (set k | 0 <= k < |attributes| :: attributes[k].name)
        == {a.name} + set k | 0 <= k < |rest| :: rest[k].name;
    }
  }

  // ----- trees -----

  datatype Tree = Tree(code: nat, values: seq<Value>, children: seq<Tree>)

  predicate WellFormed(f: Format, t: Tree)
    decreases t
  {
    && 0 < t.code < 0x8000_0000 && t.code in f.table
    && EncodableAll(f, f.table[t.code].attributes, t.values)
    && (!f.table[t.code].hasChild ==> t.children == [])
    && AllWellFormed(f, t.children)
  }

  predicate AllWellFormed(f: Format, ts: seq<Tree>)
    decreases ts
  {
    ts != [] ==> WellFormed(f, ts[0]) && AllWellFormed(f, ts[1..])
  }

  /** Code and attribute values: the bytes of one entry. */
  function EncodeNode(f: Format, t: Tree): seq<u8>
    requires WellFormed(f, t)
  {
    EncodeULeb(t.code) + EncodeValues(f, f.table[t.code].attributes, t.values)
  }

  /** Preorder; a chain of siblings ends with a null entry. */
  function EncodeTree(f: Format, t: Tree): (b: seq<u8>)
    requires WellFormed(f, t)
    decreases t
  {
    EncodeNode(f, t) + if f.table[t.code].hasChild then EncodeSiblings(f, t.children) else []
  }

  function EncodeSiblings(f: Format, ts: seq<Tree>): seq<u8>
    requires AllWellFormed(f, ts)
    decreases ts
  {
    if ts == [] then [0] else EncodeTree(f, ts[0]) + EncodeSiblings(f, ts[1..])
  }

  /** The node that the tree should be parsed as when it starts at the given position. */
  function Expected(u: Unit, t: Tree, i: nat): Entry
    requires WellFormed(u.format, t)
    decreases t
  {
    var abbrev := u.format.table[t.code];
    Entry(t.code, abbrev, u.base + i, ValuesData(u, abbrev.attributes, t.values, map[]),
          ExpectedSiblings(u, t.children, i + |EncodeNode(u.format, t)|))
  }

  function ExpectedSiblings(u: Unit, ts: seq<Tree>, i: nat): (es: seq<Entry>)
    requires AllWellFormed(u.format, ts)
    decreases ts
  {
    if ts == [] then []
    else [Expected(u, ts[0], i)] + ExpectedSiblings(u, ts[1..], i + |EncodeTree(u.format, ts[0])|)
  }

  /** The code and the attributes of a node are read back. */
  lemma NodeRoundTrip(u: Unit, t: Tree, i: nat)
    requires WellFormed(u.format, t) && At(u.data, i, EncodeNode(u.format, t))
    ensures ULebAt(u.data, i) == Ok(t.code, i + |EncodeULeb(t.code)|)
    ensures AttributesAt(u, u.format.table[t.code].attributes, i + |EncodeULeb(t.code)|, map[])
      == Ok(ValuesData(u, u.format.table[t.code].attributes, t.values, map[]), i + |EncodeNode(u.format, t)|)
  {
    hide At, EncodeULeb, ULebAt, AttributesAt, EncodeValues, ValuesData;
    var attributes := u.format.table[t.code].attributes;
    AtConcat(u.data, i, EncodeULeb(t.code), EncodeValues(u.format, attributes, t.values));
    ULebRoundTrip(u.data, i, t.code);
    AttributesRoundTrip(u, attributes, t.values, i + |EncodeULeb(t.code)|, map[]);
  }

  /**
   Parsing the preorder bytes of a well-formed tree rebuilds exactly that tree and consumes
   exactly its bytes. The call returns a null pointer only for a childless tree that is the
   last thing in the unit.
   */
  lemma {:induction false} TreeRoundTrip(u: Unit, t: Tree, i: nat)
    requires WellFormed(u.format, t) && At(u.data, i, EncodeTree(u.format, t))
    requires i + |EncodeTree(u.format, t)| <= u.length
    ensures EntryAt(u, i) == Ok(
        Filled(Expected(u, t, i), u.format.table[t.code].hasChild || i + |EncodeTree(u.format, t)| < u.length),
        i + |EncodeTree(u.format, t)|)
    decreases t, 0
  {
    hide At, EncodeULeb, ULebAt, AttributesAt, EncodeNode, ValuesData;
    var abbrev := u.format.table[t.code];
    var siblings := if abbrev.hasChild then EncodeSiblings(u.format, t.children) else [];
    AtConcat(u.data, i, EncodeNode(u.format, t), siblings);
    NodeRoundTrip(u, t, i);
    if abbrev.hasChild {
      SiblingsNonempty(u.format, t.children);
      SiblingsRoundTrip(u, t.children, i + |EncodeNode(u.format, t)|);
    }
  }

  lemma SiblingsNonempty(f: Format, ts: seq<Tree>)
    requires AllWellFormed(f, ts)
    ensures |EncodeSiblings(f, ts)| > 0
  {
  }

  lemma {:induction false} SiblingsRoundTrip(u: Unit, ts: seq<Tree>, i: nat)
    requires AllWellFormed(u.format, ts) && At(u.data, i, EncodeSiblings(u.format, ts))
    requires i + |EncodeSiblings(u.format, ts)| <= u.length
    ensures ChildrenAt(u, i) == Ok(ExpectedSiblings(u, ts, i), i + |EncodeSiblings(u.format, ts)|)
    decreases ts, 1
  {
    hide At, EncodeTree, Expected, EntryAt, WellFormed;
    if ts == [] {
      NullEntry(u, i);
    } else {
      AtConcat(u.data, i, EncodeTree(u.format, ts[0]), EncodeSiblings(u.format, ts[1..]));
      SiblingsNonempty(u.format, ts[1..]);
      TreeRoundTrip(u, ts[0], i);
      SiblingsRoundTrip(u, ts[1..], i + |EncodeTree(u.format, ts[0])|);
    }
  }

  lemma NullEntry(u: Unit, i: nat)
    requires At(u.data, i, [0])
    ensures EntryAt(u, i) == Ok(EndOfSiblings, i + 1)
  {
    assert EncodeULeb(0) == [0];
    ULebRoundTrip(u.data, i, 0);
  }

  // ----- whole units -----

  /**
   The whole of it: the abbreviation bytes give the table, and the unit's bytes then give
   the tree, whatever bytes follow either of them.
   */
  lemma UnitRoundTrip(entries: seq<AbbrevEntry>, abbrevBytes: seq<u8>, u: Unit, t: Tree)
    requires forall e | e in entries :: EncodableEntry(e)
    requires At(abbrevBytes, 0, EncodeTable(entries))
    requires u.format.table == InsertAll(map[], entries) && WellFormed(u.format, t)
    requires At(u.data, 0, EncodeTree(u.format, t)) && u.length == |EncodeTree(u.format, t)|
    ensures TableAt(abbrevBytes, 0, map[]) == Ok(u.format.table, |EncodeTable(entries)|)
    ensures EntryAt(u, 0) == Ok(Filled(Expected(u, t, 0), u.format.table[t.code].hasChild), u.length)
  {
    hide At, TableAt, EntryAt, EncodeTable, EncodeTree, Expected;
    TableRoundTrip(abbrevBytes, 0, entries, map[]);
    TreeRoundTrip(u, t, 0);
  }

  /** The offsets of a tree in preorder. */
  function Offsets(e: Entry): seq<nat>
    decreases e
  {
    [e.offset] + SiblingOffsets(e.children)
  }

  function SiblingOffsets(es: seq<Entry>): seq<nat>
    decreases es
  {
    if es == [] then [] else Offsets(es[0]) + SiblingOffsets(es[1..])
  }

  predicate Ascending(s: seq<nat>, lo: nat, hi: nat) {
    && (forall k | 0 <= k < |s| :: lo <= s[k] < hi)
    && forall j, k | 0 <= j < k < |s| :: s[j] < s[k]
  }

  lemma AscendingConcat(a: seq<nat>, b: seq<nat>, lo: nat, mid: nat, hi: nat)
    requires lo <= mid <= hi && Ascending(a, lo, mid) && Ascending(b, mid, hi)
    ensures Ascending(a + b, lo, hi)
  {
  }

  lemma AscendingOne(x: nat, hi: nat)
    requires x < hi
    ensures Ascending([x], x, hi)
  {
  }

  lemma AscendingNone(lo: nat, hi: nat)
    ensures Ascending([], lo, hi)
  {
  }

  /** Offsets increase strictly in preorder and lie within the bytes of the tree. */
  lemma {:induction false} OffsetsAscend(u: Unit, t: Tree, i: nat)
    requires WellFormed(u.format, t)
    ensures Ascending(Offsets(Expected(u, t, i)), u.base + i, u.base + i + |EncodeTree(u.format, t)|)
    decreases t, 0
  {
    hide ValuesData, EncodeValues, EncodeULeb, Ascending;
    var lo, node := u.base + i, |EncodeNode(u.format, t)|;
    AscendingOne(lo, lo + node);
    if t.children == [] {
      AscendingNone(lo + node, lo + |EncodeTree(u.format, t)|);
      AscendingConcat([lo], [], lo, lo + node, lo + |EncodeTree(u.format, t)|);
    } else {
      SiblingOffsetsAscend(u, t.children, i + node);
      AscendingConcat([lo], SiblingOffsets(ExpectedSiblings(u, t.children, i + node)),
                      lo, lo + node, lo + |EncodeTree(u.format, t)|);
    }
  }

  lemma {:induction false} SiblingOffsetsAscend(u: Unit, ts: seq<Tree>, i: nat)
    requires AllWellFormed(u.format, ts)
    ensures Ascending(SiblingOffsets(ExpectedSiblings(u, ts, i)),
                      u.base + i, u.base + i + |EncodeSiblings(u.format, ts)|)
    decreases ts, 1
  {
    hide Expected, EncodeTree, Offsets, Ascending;
    if ts == [] {
      AscendingNone(u.base + i, u.base + i + 1);
    } else {
      var e, rest := Expected(u, ts[0], i), i + |EncodeTree(u.format, ts[0])|;
      var es := ExpectedSiblings(u, ts[1..], rest);
      OffsetsAscend(u, ts[0], i);
      SiblingOffsetsAscend(u, ts[1..], rest);
      assert ([e] + es)[1..] == es;
      AscendingConcat(Offsets(e), SiblingOffsets(es), u.base + i, u.base + rest,
                      u.base + i + |EncodeSiblings(u.format, ts)|);
    }
  }
}
