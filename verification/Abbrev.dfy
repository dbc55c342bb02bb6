/**
 The abbreviation table: the parser of `AbbrevTable`, and the encoder of section 7.5.3 of
 DWARF Version 5 that it undoes.
 */
module Abbrev {
  import opened Words
  import opened Streams
  import opened DataStreams

  const FORM_IMPLICIT_CONST: u32 := 0x21

  /** `special` is a `size_t`; what a table should say can also be negative. */
  datatype AttributeEntry = AttributeEntry(name: u32, form: u32, special: int)
  datatype AbbrevEntry = AbbrevEntry(dieCode: nat, dieTag: u32, hasChild: bool, attributes: seq<AttributeEntry>)

  type AbbrevMap = map<nat, AbbrevEntry>

  /** `std::map::insert`: an existing entry stays. */
  function Insert<K, V>(m: map<K, V>, k: K, v: V): map<K, V> {
    if k in m then m else m[k := v]
  }

  // ----- the parser -----

  function SpecsAt(d: seq<u8>, i: nat): (r: Read<seq<AttributeEntry>>)
    ensures r.Ok? ==> i < r.next
    decreases |d| - i
  {
    var (name, i1) :- ULebAt(d, i);
    var (form, i2) :- ULebAt(d, i1);
    if Wrap32(name) == 0 && Wrap32(form) == 0 then Ok([], i2)
    else
      var (special, i3) :- if Wrap32(form) == FORM_IMPLICIT_CONST then ULebAt(d, i2) else Ok(0, i2);
      Prepend([AttributeEntry(Wrap32(name), Wrap32(form), special)], SpecsAt(d, i3))
  }

  function AbbrevAt(d: seq<u8>, i: nat, code: nat): (r: Read<AbbrevEntry>)
    ensures r.Ok? ==> i < r.next
  {
    var (tag, i1) :- ULebAt(d, i);
    var (child, i2) :- ULebAt(d, i1);
    var (attributes, i3) :- SpecsAt(d, i2);
    Ok(AbbrevEntry(code, Wrap32(tag), child != 0, attributes), i3)
  }

  function TableAt(d: seq<u8>, i: nat, table: AbbrevMap): Read<AbbrevMap>
    decreases |d| - i
  {
    var (code, i1) :- ULebAt(d, i);
    if code == 0 then Ok(table, i1)
    else
      var (entry, i2) :- AbbrevAt(d, i1, code);
      TableAt(d, i2, Insert(table, code, entry))
  }

  function Prepend<T>(prefix: seq<T>, r: Read<seq<T>>): Read<seq<T>> {
    match r
    case Ok(rest, next) => Ok(prefix + rest, next)
    case Fail(fault) => Fail(fault)
  }

  lemma PrependNone<T>(r: Read<seq<T>>)
    ensures Prepend([], r) == r
  {
    if r.Ok? {
      assert [] + r.value == r.value;
    }
  }

  lemma PrependAll<T>(prefix: seq<T>, next: nat)
    ensures Prepend(prefix, Ok([], next)) == Ok(prefix, next)
  {
    assert prefix + [] == prefix;
  }

  lemma PrependMore<T>(prefix: seq<T>, x: T, r: Read<seq<T>>)
    ensures Prepend(prefix, Prepend([x], r)) == Prepend(prefix + [x], r)
  {
    if r.Ok? {
      assert prefix + ([x] + r.value) == (prefix + [x]) + r.value;
    }
  }

  class AbbrevTable {
    var abbrevEntries: AbbrevMap
    const abbrevData: DataStream

    constructor (d: seq<u8>)
      ensures fresh(abbrevData) && abbrevData.data == d && abbrevData.index == 0 && abbrevEntries == map[]
    {
      abbrevData := new DataStream(d, 0xffff_ffff_ffff_ffff);
      abbrevEntries := map[];
    }

    /** The constructor's loop; `ok` is false where the C++ has no defined continuation. */
    method Parse() returns (ok: bool)
      requires abbrevEntries == map[]
      modifies this, abbrevData
      ensures ok == TableAt(abbrevData.data, old(abbrevData.index), map[]).Ok?
      ensures ok ==> TableAt(abbrevData.data, old(abbrevData.index), map[]) == Ok(abbrevEntries, abbrevData.index)
    {
      var d := abbrevData.data;
      while true
        invariant TableAt(d, old(abbrevData.index), map[]) == TableAt(d, abbrevData.index, abbrevEntries)
        decreases |d| - abbrevData.index
      {
        var code := abbrevData.DecodeULeb128();
        if code.Fail? {
          return false;
        }
        if code.value == 0 {
          return true;
        }
        var entry := ParseEntry(code.value);
        if entry.Fail? {
          return false;
        }
        abbrevEntries := Insert(abbrevEntries, code.value, entry.value);
      }
    }

    method ParseEntry(code: nat) returns (r: Read<AbbrevEntry>)
      modifies abbrevData
      ensures r == AbbrevAt(abbrevData.data, old(abbrevData.index), code)
      ensures r.Ok? ==> abbrevData.index == r.next
    {
      var tag := abbrevData.DecodeULeb128();
      if tag.Fail? {
        return Fail(tag.fault);
      }
      var child := abbrevData.DecodeULeb128();
      if child.Fail? {
        return Fail(child.fault);
      }
      var attributes := ParseAttributes();
      if attributes.Fail? {
        return Fail(attributes.fault);
      }
      r := Ok(AbbrevEntry(code, Wrap32(tag.value), child.value != 0, attributes.value), abbrevData.index);
    }

    method ParseAttributes() returns (r: Read<seq<AttributeEntry>>)
      modifies abbrevData
      ensures r == SpecsAt(abbrevData.data, old(abbrevData.index))
      ensures r.Ok? ==> abbrevData.index == r.next
    {
      hide ULebAt;
      var d := abbrevData.data;
      var attributes := [];
      PrependNone(SpecsAt(d, abbrevData.index));
      while true
        invariant SpecsAt(d, old(abbrevData.index)) == Prepend(attributes, SpecsAt(d, abbrevData.index))
        decreases |d| - abbrevData.index
      {
        var name := abbrevData.DecodeULeb128();
        if name.Fail? {
          return Fail(name.fault);
        }
        var form := abbrevData.DecodeULeb128();
        if form.Fail? {
          return Fail(form.fault);
        }
        if Wrap32(name.value) == 0 && Wrap32(form.value) == 0 {
          PrependAll(attributes, abbrevData.index);
          return Ok(attributes, abbrevData.index);
        }
        var special := 0;
        if Wrap32(form.value) == FORM_IMPLICIT_CONST {
          var s := abbrevData.DecodeULeb128();
          if s.Fail? {
            return Fail(s.fault);
          }
          special := s.value;
        }
        var entry := AttributeEntry(Wrap32(name.value), Wrap32(form.value), special);
        PrependMore(attributes, entry, SpecsAt(d, abbrevData.index));
        attributes := attributes + [entry];
      }
    }
  }

  // ----- the encoder; the code 0x21 is DW_FORM_implicit_const -----

  /** A name and a form within the decoder's bound; only DW_FORM_implicit_const has a constant, which is any number. */
  predicate Listable(a: AttributeEntry) {
    && a.name < 0x8000_0000 && a.form < 0x8000_0000
    && (a.name != 0 || a.form != 0)
    && (a.form != 0x21 ==> a.special == 0)
  }

  /** The constant lies where the decoder reads a signed number correctly. */
  predicate ConstantReadable(a: AttributeEntry) {
    0 <= a.special < 0x8000_0000
  }

  predicate ListableEntry(e: AbbrevEntry) {
    && 0 < e.dieCode < 0x8000_0000 && e.dieTag < 0x8000_0000
    && forall a | a in e.attributes :: Listable(a)
  }

  predicate EncodableEntry(e: AbbrevEntry) {
    ListableEntry(e) && forall a | a in e.attributes :: ConstantReadable(a)
  }

  function EncodeAttribute(a: AttributeEntry): seq<u8> {
    EncodeULeb(a.name) + EncodeULeb(a.form) + if a.form == 0x21 then EncodeSLeb(a.special) else []
  }

  function EncodeAttributes(attributes: seq<AttributeEntry>): seq<u8> {
    if attributes == [] then EncodeULeb(0) + EncodeULeb(0)
    else EncodeAttribute(attributes[0]) + EncodeAttributes(attributes[1..])
  }

  function EncodeEntry(e: AbbrevEntry): seq<u8> {
    EncodeULeb(e.dieCode) + EncodeULeb(e.dieTag) + EncodeULeb(if e.hasChild then 1 else 0)
    + EncodeAttributes(e.attributes)
  }

  function EncodeTable(entries: seq<AbbrevEntry>): seq<u8> {
    if entries == [] then EncodeULeb(0) else EncodeEntry(entries[0]) + EncodeTable(entries[1..])
  }

  /** The map that inserting the entries in order leaves. */
  function InsertAll(table: AbbrevMap, entries: seq<AbbrevEntry>): AbbrevMap
    decreases |entries|
  {
    if entries == [] then table else InsertAll(Insert(table, entries[0].dieCode, entries[0]), entries[1..])
  }

  // ----- decoding undoes encoding -----

  /**
   Section 7.5.3 of DWARF Version 5 stores the constant of DW_FORM_implicit_const as a signed
   LEB128 number, which the parser reads as an unsigned one: it is right exactly when the
   constant is not negative (and below the unsigned decoder's bound).
   */
  lemma ImplicitConstExact(d: seq<u8>, i: nat, n: int)
    requires At(d, i, EncodeSLeb(n))
    ensures ULebAt(d, i) == Ok(n, i + |EncodeSLeb(n)|) <==> 0 <= n < 0x8000_0000
    ensures ULebAt(d, i).Ok? ==> ULebAt(d, i).next == i + |EncodeSLeb(n)|
  {
    hide At, ULebAt;
    var p := SignedGroups(n);
    LebOfBytes(d, i, p);
    ULebExact(d, i);
    SignedGroupsValue(n);
    SignedGroupsLength(n, 5);
    LebValueBound(p);
    assert Place(0x40, 4) == 0x4_0000_0000;
  }

  lemma NameAndForm(d: seq<u8>, i: nat, a: AttributeEntry)
    requires Listable(a) && At(d, i, EncodeAttribute(a))
    ensures ULebAt(d, i) == Ok(a.name, i + |EncodeULeb(a.name)|)
    ensures ULebAt(d, i + |EncodeULeb(a.name)|) == Ok(a.form, i + |EncodeULeb(a.name)| + |EncodeULeb(a.form)|)
    ensures a.form == 0x21 ==>
      && At(d, i + |EncodeULeb(a.name)| + |EncodeULeb(a.form)|, EncodeSLeb(a.special))
      && |EncodeAttribute(a)| == |EncodeULeb(a.name)| + |EncodeULeb(a.form)| + |EncodeSLeb(a.special)|
    ensures a.form != 0x21 ==> |EncodeAttribute(a)| == |EncodeULeb(a.name)| + |EncodeULeb(a.form)|
  {
    hide EncodeULeb, EncodeSLeb, ULebAt, At;
    var n, f := EncodeULeb(a.name), EncodeULeb(a.form);
    var s := if a.form == 0x21 then EncodeSLeb(a.special) else [];
    AtConcat(d, i, n + f, s);
    AtConcat(d, i, n, f);
    ULebRoundTrip(d, i, a.name);
    ULebRoundTrip(d, i + |n|, a.form);
  }

  /** One attribute: what is read before the rest of the list is the entry exactly when its constant is readable. */
  lemma AttributeExact(d: seq<u8>, i: nat, a: AttributeEntry)
    requires Listable(a) && At(d, i, EncodeAttribute(a))
    ensures var rest := SpecsAt(d, i + |EncodeAttribute(a)|);
      if ConstantReadable(a) then SpecsAt(d, i) == Prepend([a], rest)
      else SpecsAt(d, i).Ok? ==> SpecsAt(d, i).value != [] && SpecsAt(d, i).value[0] != a
  {
    hide EncodeULeb, EncodeSLeb, ULebAt, At;
    NameAndForm(d, i, a);
    if a.form == 0x21 {
      ImplicitConstExact(d, i + |EncodeULeb(a.name)| + |EncodeULeb(a.form)|, a.special);
    }
  }

  /** An attribute list is read back, with exactly its bytes, if and only if every constant in it is readable. */
  lemma {:induction false} AttributesExact(d: seq<u8>, i: nat, attributes: seq<AttributeEntry>)
    requires forall a | a in attributes :: Listable(a)
    requires At(d, i, EncodeAttributes(attributes))
    ensures SpecsAt(d, i) == Ok(attributes, i + |EncodeAttributes(attributes)|)
      <==> forall a | a in attributes :: ConstantReadable(a)
    decreases |attributes|
  {
    hide EncodeULeb, ULebAt, At, EncodeAttribute, SpecsAt, ConstantReadable;
    if attributes == [] {
      NullPair(d, i);
    } else {
      var a, rest := attributes[0], attributes[1..];
      AtConcat(d, i, EncodeAttribute(a), EncodeAttributes(rest));
      AttributeExact(d, i, a);
      AttributesExact(d, i + |EncodeAttribute(a)|, rest);
      assert attributes == [a] + rest;
      PrependSame(a, rest, SpecsAt(d, i + |EncodeAttribute(a)|), i + |EncodeAttributes(attributes)|);
    }
  }

  lemma NullPair(d: seq<u8>, i: nat)
    requires At(d, i, EncodeAttributes([]))
    ensures SpecsAt(d, i) == Ok([], i + |EncodeAttributes([])|)
  {
    hide EncodeULeb, ULebAt, At;
    AtConcat(d, i, EncodeULeb(0), EncodeULeb(0));
    ULebRoundTrip(d, i, 0);
    ULebRoundTrip(d, i + |EncodeULeb(0)|, 0);
  }

  lemma PrependSame<T>(x: T, rest: seq<T>, r: Read<seq<T>>, next: nat)
    ensures Prepend([x], r) == Ok([x] + rest, next) <==> r == Ok(rest, next)
  {
    if r.Ok? && [x] + r.value == [x] + rest {
      assert ([x] + r.value)[1..] == r.value && ([x] + rest)[1..] == rest;
    }
  }

  /** One entry, after its code: it is read back if and only if every constant in it is readable. */
  lemma EntryExact(d: seq<u8>, i: nat, e: AbbrevEntry)
    requires ListableEntry(e) && At(d, i, EncodeEntry(e))
    ensures ULebAt(d, i) == Ok(e.dieCode, i + |EncodeULeb(e.dieCode)|)
    ensures AbbrevAt(d, i + |EncodeULeb(e.dieCode)|, e.dieCode) == Ok(e, i + |EncodeEntry(e)|)
      <==> forall a | a in e.attributes :: ConstantReadable(a)
  {
    hide EncodeULeb, ULebAt, At, EncodeAttributes, SpecsAt, ConstantReadable;
    var flag := if e.hasChild then 1 else 0;
    var c, t, h := EncodeULeb(e.dieCode), EncodeULeb(e.dieTag), EncodeULeb(flag);
    var a := EncodeAttributes(e.attributes);
    AtConcat(d, i, c + t + h, a);
    AtConcat(d, i, c + t, h);
    AtConcat(d, i, c, t);
    ULebRoundTrip(d, i, e.dieCode);
    ULebRoundTrip(d, i + |c|, e.dieTag);
    ULebRoundTrip(d, i + |c + t|, flag);
    AttributesExact(d, i + |c + t + h|, e.attributes);
  }

  /** Parsing an encoded table inserts exactly its entries, in order, and consumes exactly its bytes. */
  lemma {:induction false} TableRoundTrip(d: seq<u8>, i: nat, entries: seq<AbbrevEntry>, table: AbbrevMap)
    requires forall e | e in entries :: EncodableEntry(e)
    requires At(d, i, EncodeTable(entries))
    ensures TableAt(d, i, table) == Ok(InsertAll(table, entries), i + |EncodeTable(entries)|)
    decreases |entries|
  {
    hide EncodeULeb, ULebAt, At, EncodeEntry, AbbrevAt, Insert;
    if entries == [] {
      ULebRoundTrip(d, i, 0);
    } else {
      var e := entries[0];
      assert e in entries && EncodableEntry(e);
      AtConcat(d, i, EncodeEntry(e), EncodeTable(entries[1..]));
      EntryExact(d, i, e);
      TableRoundTrip(d, i + |EncodeEntry(e)|, entries[1..], Insert(table, e.dieCode, e));
    }
  }

  predicate IsFirst(entries: seq<AbbrevEntry>, code: nat, k: nat) {
    k < |entries| && entries[k].dieCode == code && forall j | 0 <= j < k :: entries[j].dieCode != code
  }

  /** A lookup finds the first entry with the code, and nothing when there is none. */
  lemma {:induction false} LookupFindsFirst(table: AbbrevMap, entries: seq<AbbrevEntry>, code: nat)
    ensures code in InsertAll(table, entries) <==> code in table || exists k: nat :: IsFirst(entries, code, k)
    ensures code in table ==> InsertAll(table, entries)[code] == table[code]
    ensures forall k: nat :: code !in table && IsFirst(entries, code, k) ==>
      InsertAll(table, entries)[code] == entries[k]
    decreases |entries|
  {
    if entries != [] {
      var rest := entries[1..];
      LookupFindsFirst(Insert(table, entries[0].dieCode, entries[0]), rest, code);
      if entries[0].dieCode == code {
        assert IsFirst(entries, code, 0);
      } else {
        assert forall j | 0 <= j < |rest| :: rest[j] == entries[j + 1];
        forall k: nat | IsFirst(entries, code, k)
          ensures k > 0 && IsFirst(rest, code, k - 1)
        {
        }
        forall k: nat | IsFirst(rest, code, k)
          ensures IsFirst(entries, code, k + 1)
        {
          assert forall j | 0 < j < k + 1 :: entries[j] == rest[j - 1];
        }
      }
    }
  }
}
