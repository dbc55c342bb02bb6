/** The cursor class: every decode reads at `index` and advances it. */
module DataStreams {
  import opened Words
  import opened Streams
  import LE = LittleEndian

  function Or64(a: u64, b: u64): u64 {
    Pow2Widths();
    Or(a, b, 64)
  }

  /** `(0x7f & byte) << shift` on `int`, converted to `size_t`. */
  function ShiftInt(low: u7, shift: nat): Option<u64> {
    if shift >= 32 || Shl(low, shift) >= 0x1_0000_0000 then None
    else if Shl(low, shift) < 0x8000_0000 then Some(Shl(low, shift))
    else Some(Shl(low, shift) + 0xffff_ffff_0000_0000)
  }

  /** `-(1 << shift)` on `int`, converted to `size_t`. */
  function SignMask(shift: nat): Option<u64> {
    if shift >= 31 || Shl(1, shift) > 0x4000_0000 then None
    else Some(0x1_0000_0000_0000_0000 - Shl(1, shift))
  }

  lemma {:induction false} ShlIsPlace(x: nat, k: nat)
    ensures Shl(x, 7 * k) == Place(x, k)
  {
    if k > 0 {
      ShlIsPlace(x, k - 1);
      ShlAdd(x, 7 * (k - 1), 7);
      assert Shl(Shl(x, 7 * (k - 1)), 7) == 0x80 * Shl(x, 7 * (k - 1));
    }
  }

  lemma ShiftIntIsPayload(low: u7, k: nat)
    requires k <= 5
    ensures ShiftInt(low, 7 * k) == ShiftedPayload(low, k)
  {
    ShlIsPlace(low, k);
  }

  lemma OrGroup(result: u64, low: u7, k: nat)
    requires k <= 4 && result < Place(1, k) && ShiftedPayload(low, k).Some?
    ensures Or64(result, ShiftedPayload(low, k).value) == result + ShiftedPayload(low, k).value
  {
    Pow2Widths();
    ShlIsPlace(low, k);
    ShlIsPlace(1, k);
    if Place(low, k) < 0x8000_0000 {
      OrDisjoint(result, low, 7 * k, 64);
    } else {
      Carry(result, low, k);
      OrWide(result, low);
    }
  }

  lemma OrWide(result: u64, low: u7)
    requires result < Shl(1, 28) && Place(low, 4) < 0x1_0000_0000
    ensures Or64(result, Place(low, 4) + 0xffff_ffff_0000_0000) == result + Place(low, 4) + 0xffff_ffff_0000_0000
  {
    var wide: nat := (low as int) + 0xf_ffff_fff0;
    Pow2Widths();
    ShlIsPlace(wide, 4);
    assert Place(wide, 4) == Place(low, 4) + 0xffff_ffff_0000_0000;
    OrDisjoint(result, wide, 28, 64);
  }

  /** Setting the sign bits above k groups subtracts the modulus. */
  lemma OrSign(result: u64, k: nat)
    requires 1 <= k <= 4 && result < Place(1, k)
    ensures SignMask(7 * k) == Some(0x1_0000_0000_0000_0000 - Place(1, k))
    ensures Or64(result, 0x1_0000_0000_0000_0000 - Place(1, k)) == result + 0x1_0000_0000_0000_0000 - Place(1, k)
  {
    hide Shl, Place, Or, Pow2;
    ShlIsPlace(1, k);
    assert Place(1, k) <= 0x1000_0000 by { OneBelow(k); }
    OrHigh(result, 7 * k);
  }

  lemma OneBelow(k: nat)
    requires 1 <= k <= 4
    ensures Place(1, k) <= 0x1000_0000
  {
    assert Place(0, k - 1) == 0 && Place(1, k - 1) > 0 by { PlaceCons(0, 0, k - 1); }
    Carry(0, 0, k - 1);
  }

  lemma OrHigh(low: u64, s: nat)
    requires s <= 64 && low < Shl(1, s)
    ensures Shl(1, s) <= 0x1_0000_0000_0000_0000
    ensures Or(low, 0x1_0000_0000_0000_0000 - Shl(1, s), 64) == low + 0x1_0000_0000_0000_0000 - Shl(1, s)
  {
    ShlAdd(1, 64 - s, s);
    assert Shl(1, 64) == 0x1_0000_0000_0000_0000 by { ShlIsProduct(1, 64); Pow2Widths(); }
    var high := Shl(1, 64 - s) - 1;
    ShlSum(high, 1, s);
    assert Pow2(64) == 0x1_0000_0000_0000_0000 by { Pow2Widths(); }
    OrDisjoint(low, high, s, 64);
  }

  lemma {:induction false} ShlSum(x: nat, y: nat, s: nat)
    ensures Shl(x + y, s) == Shl(x, s) + Shl(y, s)
  {
    if s > 0 {
      ShlSum(x, y, s - 1);
    }
  }

  lemma ShlBytes(x: nat)
    ensures Shl(x, 8) == 0x100 * x && Shl(x, 16) == 0x1_0000 * x && Shl(x, 24) == 0x100_0000 * x
  {
    ShlAdd(x, 8, 8);
    assert Shl(Shl(x, 8), 8) == 0x100 * Shl(x, 8);
    ShlAdd(x, 16, 8);
    assert Shl(Shl(x, 16), 8) == 0x100 * Shl(x, 16);
  }

  lemma ShiftedByte(low: nat, b: u8, n: nat)
    requires 1 <= n <= 3 && low < LE.Pow256(n)
    ensures Or(low, Shl(b, 8 * n), 32) == low + (b as int) * LE.Pow256(n)
  {
    hide Shl, Or, Pow2, LE.Pow256;
    Pow2Widths();
    LE.Pow256Small();
    ShlBytes(1);
    ShlBytes(b);
    if n == 1 {
      OrDisjoint(low, b, 8, 32);
    } else if n == 2 {
      OrDisjoint(low, b, 16, 32);
    } else {
      OrDisjoint(low, b, 24, 32);
    }
  }

  /** `low | b << 8 * n` for a `low` of n bytes. */
  method OrByte(low: nat, b: u8, n: nat) returns (r: nat)
    requires 1 <= n <= 3 && low < LE.Pow256(n)
    ensures r == low + (b as int) * LE.Pow256(n)
  {
    ShiftedByte(low, b, n);
    r := Or(low, Shl(b, 8 * n), 32);
  }

  /** `result | (0x7f & byte) << shift`. */
  method OrPayload(result: u64, low: u7, shift: nat, ghost k: nat) returns (r: Option<u64>)
    requires shift == 7 * k && k <= 5 && (k <= 4 ==> result < Place(1, k))
    ensures ShiftedPayload(low, k) == None ==> r == None
    ensures ShiftedPayload(low, k) != None ==> r == Some(result + ShiftedPayload(low, k).value)
  {
    ShiftIntIsPayload(low, k);
    var bits := ShiftInt(low, shift);
    if bits == None {
      return None;
    }
    OrGroup(result, low, k);
    r := Some(Or64(result, bits.value));
  }

  /** `result | -(1 << shift)`. */
  method OrSignBits(result: u64, shift: nat, ghost k: nat) returns (r: Option<u64>)
    requires shift == 7 * k && 1 <= k <= 5 && (k <= 4 ==> result < Place(1, k))
    ensures if k == 5 then r == None else r == Some(result + 0x1_0000_0000_0000_0000 - Place(1, k))
  {
    if k < 5 {
      OrSign(result, k);
    }
    var sign := SignMask(shift);
    r := if sign == None then None else Some(Or64(result, sign.value));
  }

  class DataStream {
    const data: seq<u8>
    const streamLen: nat
    var index: nat

    constructor (data: seq<u8>, streamLen: nat)
      ensures this.data == data && this.streamLen == streamLen && index == 0
    {
      this.data := data;
      this.streamLen := streamLen;
      index := 0;
    }

    predicate IsStreamable()
      reads this
    {
      index < streamLen
    }

    method SetOffset(offset: nat)
      modifies this
      ensures index == offset
    {
      index := offset;
    }

    method DecodeUInt8() returns (r: Read<u8>)
      modifies this
      ensures r == U8At(data, old(index))
      ensures r.Ok? ==> index == r.next
    {
      if index >= |data| {
        return Fail(Overrun);
      }
      var res := data[index];
      index := index + 1;
      r := Ok(res, index);
    }

    method DecodeUInt16() returns (r: Read<u16>)
      modifies this
      ensures r == U16At(data, old(index))
      ensures r.Ok? ==> index == r.next
    {
      if index + 2 > |data| {
        return Fail(Overrun);
      }
      var b := data[index..index + 2];
      LE.ValueOf2(b);
      LE.Pow256Small();
      var res := OrByte(b[0], b[1], 1);
      index := index + 2;
      r := Ok(res, index);
    }

    method DecodeUInt32() returns (r: Read<u32>)
      modifies this
      ensures r == U32At(data, old(index))
      ensures r.Ok? ==> index == r.next
    {
      if index + 4 > |data| {
        return Fail(Overrun);
      }
      var b := data[index..index + 4];
      LE.ValueOf4(b);
      LE.Pow256Small();
      var res := OrByte(b[0], b[1], 1);
      res := OrByte(res, b[2], 2);
      res := OrByte(res, b[3], 3);
      index := index + 4;
      r := Ok(res, index);
    }

    method DecodeULeb128() returns (r: Read<nat>)
      modifies this
      ensures r == ULebAt(data, old(index))
      ensures r.Ok? ==> index == r.next
    {
      var result: u64 := 0;
      var shift := 0;
      ghost var k := 0;
      while true
        invariant k <= 5 && shift == 7 * k
        invariant k <= 4 ==> result < Place(1, k)
        invariant ULebFrom(data, index, k, result) == ULebAt(data, old(index))
        decreases |data| - index
      {
        if index >= |data| {
          return Fail(Overrun);
        }
        var low: u7 := data[index] % 0x80;
        var next := OrPayload(result, low, shift, k);
        if next == None {
          return Fail(UndefinedShift);
        }
        Carry(result, low, k);
        result := next.value;
        index := index + 1;
        if data[index - 1] < 0x80 {
          return Ok(result, index);
        }
        shift := shift + 7;
        k := k + 1;
      }
    }

    method DecodeLeb128() returns (r: Read<int>)
      modifies this
      ensures r == SLebAt(data, old(index))
      ensures r.Ok? ==> index == r.next
    {
      var result: u64 := 0;
      var shift := 0;
      ghost var k := 0;
      while true
        invariant k <= 5 && shift == 7 * k
        invariant k <= 4 ==> result < Place(1, k)
        invariant SLebFrom(data, index, k, result) == SLebAt(data, old(index))
        decreases |data| - index
      {
        if index >= |data| {
          return Fail(Overrun);
        }
        var byte := data[index];
        index := index + 1;
        var low: u7 := byte % 0x80;
        var next := OrPayload(result, low, shift, k);
        if next == None {
          return Fail(UndefinedShift);
        }
        Carry(result, low, k);
        result := next.value;
        shift := shift + 7;
        k := k + 1;
        if byte < 0x80 {
          if byte >= 0x40 {
            next := OrSignBits(result, shift, k);
            if next == None {
              return Fail(UndefinedShift);
            }
            result := next.value;
          }
          return Ok(AsSigned64(result), index);
        }
      }
    }
  }
}
