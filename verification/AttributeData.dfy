/** `DebugData`: the bytes of an attribute, and reading them as a number. */
module AttributeData {
  import opened Words
  import opened Abbrev
  import opened DieTree
  import opened DieRoundTrip
  import LE = LittleEndian

  /** The forms that `getUInt` accepts; on others the program exits. */
  predicate HasUInt(form: u32) {
    form in {0x01, 0x05, 0x06, 0x07, 0x09, 0x0b, 0x0c, 0x0d, 0x0f, 0x10, 0x11, 0x12, 0x13, 0x14, 0x15, 0x17,
             0x18, 0x19, 0x1a, 0x1b, 0x1f, 0x20, 0x21, 0x22, 0x23, 0x25, 0x26, 0x27, 0x28, 0x29, 0x2a, 0x2b, 0x2c}
  }

  /** Little-endian; more than eight bytes lead to an undefined shift. */
  function UIntOf(d: DebugData): Option<nat> {
    if HasUInt(d.form) && |d.data| <= 8 then Some(LE.Value(d.data)) else None
  }

  method GetUInt(d: DebugData) returns (r: Option<nat>)
    ensures r == UIntOf(d)
  {
    hide HasUInt, LE.Value, Or, Shl;
    if !HasUInt(d.form) {
      return None;
    }
    var res := 0;
    var i := 0;
    assert LE.Value(d.data[..0]) == 0 by { ValueOfNone(d.data[..0]); }
    while i < |d.data|
      invariant i <= |d.data| && i <= 8 && res == LE.Value(d.data[..i])
    {
      if 8 * i >= 64 {
        return None;
      }
      OrIsNext(d.data, i);
      res := Or(res, Shl(d.data[i], 8 * i), 64);
      i := i + 1;
    }
    assert d.data[..i] == d.data;
    r := Some(res);
  }

  lemma ValueOfNone(b: seq<u8>)
    requires b == []
    ensures LE.Value(b) == 0
  {
  }

  /** `res | data[i] << 8 * i` appends a byte at the top. */
  lemma OrIsNext(data: seq<u8>, i: nat)
    requires i < |data| && i < 8
    ensures Or(LE.Value(data[..i]), Shl(data[i], 8 * i), 64) == LE.Value(data[..i + 1])
  {
    hide LE.Value, Or, Shl, LE.Pow256, Pow2;
    var low, b := data[..i], data[i];
    assert data[..i + 1] == low + [b];
    LE.ValueConcat(low, [b]);
    ValueOfOne(b);
    LE.ValueBound(low);
    LE.ValueBound(low + [b]);
    PlaceOfByte(b, i);
    PlaceOfByte(1, i);
    Pow256Fits(i + 1);
    Pow2Widths();
    OrDisjoint(LE.Value(low), b, 8 * i, 64);
  }

  lemma ValueOfOne(b: u8)
    ensures LE.Value([b]) == b
  {
  }

  lemma {:induction false} PlaceOfByte(b: nat, i: nat)
    ensures Shl(b, 8 * i) == LE.Pow256(i) * b
  {
    if i > 0 {
      PlaceOfByte(b, i - 1);
      ShlAdd(b, 8 * (i - 1), 8);
      ShiftByEight(Shl(b, 8 * (i - 1)));
      MulAssoc(0x100, LE.Pow256(i - 1), b);
    }
  }

  lemma ShiftByEight(x: nat)
    ensures Shl(x, 8) == 0x100 * x
  {
  }

  lemma {:induction false} Pow256Fits(k: nat)
    requires k <= 8
    ensures LE.Pow256(k) <= 0x1_0000_0000_0000_0000
    decreases 8 - k
  {
    if k == 8 {
      LE.Pow256Small();
    } else {
      Pow256Fits(k + 1);
    }
  }

  /** The forms accepted are those of numbers and of two blocks, not the other blocks, data16 or most strings. */
  lemma AcceptedForms(form: u32)
    ensures HasUInt(form) <==> Supported(form) && form !in {0x03, 0x04, 0x08, 0x0a, 0x0e, 0x1e}
  {
  }

  /** The value that an encoded attribute should read back as. */
  function Number(u: Unit, a: AttributeEntry, v: Value): nat
    requires Encodable(u.format, a, v)
  {
    if v.Raw? then LE.Value(v.bytes) else v.n % 0x1_0000_0000_0000_0000
  }

  /**
   Reading the parsed attribute as a number gives back the encoded one, in 64 bits, whenever
   its form is accepted, except for the text of a line_strp; so flag_present reads as 0.
   */
  lemma NumberReadsBack(u: Unit, a: AttributeEntry, v: Value)
    requires Encodable(u.format, a, v) && a.form !in {0x03, 0x04, 0x08, 0x0a, 0x0e, 0x1e, 0x1f}
    requires |ValueData(u, a, v)| <= 8
    ensures UIntOf(DebugData(a.form, ValueData(u, a, v))) == Some(Number(u, a, v))
    ensures a.form == 0x19 ==> Number(u, a, v) == 0
  {
    hide LE.Value, LE.Bytes, HasUInt;
    AcceptedForms(a.form);
    if v.Number? {
      LE.Pow256Small();
      LE.ValueOfBytes(v.n % 0x1_0000_0000_0000_0000, 8);
    }
    if a.form == 0x19 {
      ValueOfNone(v.bytes);
    }
  }
}
