/**
 The byte cursor that every DWARF section is read through, with fixed-width little-endian
 reads and LEB128 numbers. The functions describe a read at a position of a byte sequence;
 the class `DataStream` performs it by moving its cursor.
 */
module Streams {
  import opened Words
  import LE = LittleEndian

  /** Why a read has no defined result, or why the program gives up. */
  datatype Fault =
    | Overrun                     // reads past the bytes of the section
    | UndefinedShift              // an `int` shift that C++ leaves undefined
    | DivisionByZero
    | UnsupportedForm(form: u32)  // the program exits
    | MissingAbbrev(code: nat)    // the program exits

  /** A value and the position after it. */
  datatype Read<+T> = Ok(value: T, next: nat) | Fail(fault: Fault) {
    predicate IsFailure() {
      Fail?
    }

    function PropagateFailure<U>(): Read<U>
      requires Fail?
    {
      Fail(fault)
    }

    function Extract(): (T, nat)
      requires Ok?
    {
      (value, next)
    }
  }

  /** The bytes `b` occur in `d` at position i. */
  ghost predicate At(d: seq<u8>, i: nat, b: seq<u8>) {
    i + |b| <= |d| && forall j | 0 <= j < |b| :: b[j] == d[i + j]
  }

  lemma AtConcat(d: seq<u8>, i: nat, a: seq<u8>, b: seq<u8>)
    ensures At(d, i, a + b) <==> At(d, i, a) && At(d, i + |a|, b)
  {
    if At(d, i, a + b) {
      forall j | 0 <= j < |a| ensures a[j] == d[i + j] {
        assert (a + b)[j] == a[j];
      }
      forall j | 0 <= j < |b| ensures b[j] == d[i + |a| + j] {
        assert (a + b)[|a| + j] == b[j];
      }
    }
    if At(d, i, a) && At(d, i + |a|, b) {
      forall j | 0 <= j < |a + b| ensures (a + b)[j] == d[i + j] {
        assert j >= |a| ==> b[j - |a|] == d[i + |a| + (j - |a|)];
      }
    }
  }

  lemma AtSlice(d: seq<u8>, i: nat, b: seq<u8>)
    ensures At(d, i, b) <==> i + |b| <= |d| && d[i..i + |b|] == b
  {
  }

  // ----- fixed-width reads -----

  function UIntAt(d: seq<u8>, i: nat, k: nat): (r: Read<nat>)
  {
    if i + k <= |d| then Ok(LE.Value(d[i..i + k]), i + k) else Fail(Overrun)
  }

  function U8At(d: seq<u8>, i: nat): Read<u8> {
    if i < |d| then Ok(d[i], i + 1) else Fail(Overrun)
  }

  function U16At(d: seq<u8>, i: nat): Read<u16> {
    if i + 2 <= |d| then
      LE.ValueBound(d[i..i + 2]);
      LE.Pow256Small();
      Ok(LE.Value(d[i..i + 2]), i + 2)
    else Fail(Overrun)
  }

  function U32At(d: seq<u8>, i: nat): Read<u32> {
    if i + 4 <= |d| then
      LE.ValueBound(d[i..i + 4]);
      LE.Pow256Small();
      Ok(LE.Value(d[i..i + 4]), i + 4)
    else Fail(Overrun)
  }

  // ----- LEB128 as the code computes it -----

  type u7 = x: int | 0 <= x < 0x80

  /** x times 128 to the k: a group moved past k groups. */
  function Place(x: nat, k: nat): (r: nat)
    ensures r >= x
    decreases k
  {
    if k == 0 then x else 0x80 * Place(x, k - 1)
  }

  /**
   `(0x7f & byte) << shift` widened to `size_t`, for shift 7 * k: the shift is on `int`, so
   it is defined only for shifts below 32 whose result fits 32 bits, and a result with
   bit 31 set is a negative `int` that sign-extends.
   */
  function ShiftedPayload(low: u7, k: nat): Option<u64> {
    if k > 4 || Place(low, k) >= 0x1_0000_0000 then None
    else if Place(low, k) < 0x8000_0000 then Some(Place(low, k))
    else Some(Place(low, k) + 0xffff_ffff_0000_0000)
  }

  /**
   The unsigned loop with k groups read. The groups do not overlap, so that `|=` adds; the
   class below computes it with `|`.
   */
  function ULebFrom(d: seq<u8>, i: nat, k: nat, result: nat): (r: Read<nat>)
    ensures r.Ok? ==> i < r.next <= |d|
    decreases |d| - i
  {
    if i >= |d| then Fail(Overrun)
    else match ShiftedPayload(d[i] % 0x80, k)
      case None => Fail(UndefinedShift)
      case Some(bits) =>
        if d[i] < 0x80 then Ok(result + bits, i + 1)
        else ULebFrom(d, i + 1, k + 1, result + bits)
  }

  function ULebAt(d: seq<u8>, i: nat): (r: Read<nat>)
    ensures r.Ok? ==> i < r.next <= |d|
  {
    ULebFrom(d, i, 0, 0)
  }

  /** The `int64_t` reading of a number below 2^64. */
  function AsSigned64(x: nat): int {
    if x < 0x8000_0000_0000_0000 then x else x - 0x1_0000_0000_0000_0000
  }

  /** The signed loop; the sign bits above k groups are `-(1 << 7 * k)`, defined for k < 5. */
  function SLebFrom(d: seq<u8>, i: nat, k: nat, result: nat): (r: Read<int>)
    ensures r.Ok? ==> i < r.next <= |d|
    decreases |d| - i
  {
    if i >= |d| then Fail(Overrun)
    else match ShiftedPayload(d[i] % 0x80, k)
      case None => Fail(UndefinedShift)
      case Some(bits) =>
        if d[i] >= 0x80 then SLebFrom(d, i + 1, k + 1, result + bits)
        else if d[i] < 0x40 then Ok(AsSigned64(result + bits), i + 1)
        else if k >= 4 then Fail(UndefinedShift)
        else Ok(result + bits - Place(1, k + 1), i + 1)
  }

  function SLebAt(d: seq<u8>, i: nat): (r: Read<int>)
    ensures r.Ok? ==> i < r.next <= |d|
  {
    SLebFrom(d, i, 0, 0)
  }

  // ----- LEB128 as section 7.6 of DWARF Version 5 defines it -----

  /** The byte of the last group. */
  function Final(low: u7): u8 {
    low
  }

  /** The byte of a group that is not the last one. */
  function Continued(low: u7): u8 {
    0x80 + (low as int)
  }

  /** The bytes of 7-bit groups, least significant first: every byte but the last has its top bit set. */
  function LebBytes(p: seq<u7>): (b: seq<u8>)
    ensures |b| == |p|
  {
    if p == [] then []
    else if |p| == 1 then [Final(p[0])]
    else [Continued(p[0])] + LebBytes(p[1..])
  }

  function LebValue(p: seq<u7>): nat {
    if p == [] then 0 else p[0] + 0x80 * LebValue(p[1..])
  }

  function LebSigned(p: seq<u7>): int
    requires p != []
  {
    LebValue(p) - if p[|p| - 1] >= 0x40 then Place(1, |p|) else 0
  }

  function Groups(n: nat): (p: seq<u7>)
    ensures p != []
  {
    if n < 0x80 then [n] else [n % 0x80] + Groups(n / 0x80)
  }

  function SignedGroups(n: int): (p: seq<u7>)
    ensures p != []
    decreases if n < 0 then -n else n
  {
    if -0x40 <= n < 0x40 then [n % 0x80] else [n % 0x80] + SignedGroups(n / 0x80)
  }

  /** The shortest unsigned encoding of n. */
  function EncodeULeb(n: nat): (b: seq<u8>)
    ensures |b| >= 1
  {
    LebBytes(Groups(n))
  }

  /** The shortest signed encoding of n. */
  function EncodeSLeb(n: int): (b: seq<u8>)
    ensures |b| >= 1
  {
    LebBytes(SignedGroups(n))
  }

  // ----- what the code computes on any bytes -----

  /** The number of bytes up to the first one whose top bit is clear; 0 when there is none. */
  function LebLength(d: seq<u8>, i: nat): (n: nat)
    ensures i + n <= |d| || n == 0
    ensures n > 0 ==> d[i + n - 1] < 0x80
    decreases |d| - i
  {
    if i >= |d| then 0
    else if d[i] < 0x80 then 1
    else var n := LebLength(d, i + 1); if n == 0 then 0 else n + 1
  }

  /** The number that those bytes stand for. */
  function LebSum(d: seq<u8>, i: nat): nat
    decreases |d| - i
  {
    if i >= |d| then 0
    else if d[i] < 0x80 then d[i]
    else (d[i] - 0x80) + 0x80 * LebSum(d, i + 1)
  }

  /** The sum accumulated from `result` on, k groups having been read. */
  function LebTotal(d: seq<u8>, i: nat, k: nat, result: nat): nat
    decreases |d| - i
  {
    if i >= |d| then result
    else if d[i] < 0x80 then result + Place(d[i], k)
    else LebTotal(d, i + 1, k + 1, result + Place(d[i] - 0x80, k))
  }

  lemma {:induction false} TotalIsSum(d: seq<u8>, i: nat, k: nat, result: nat)
    ensures LebTotal(d, i, k, result) == result + Place(LebSum(d, i), k)
    decreases |d| - i
  {
    if i >= |d| {
      PlaceCons(0, 0, k);
    } else if d[i] >= 0x80 {
      TotalIsSum(d, i + 1, k + 1, result + Place(d[i] - 0x80, k));
      PlaceCons(d[i] - 0x80, LebSum(d, i + 1), k);
    }
  }

  lemma {:induction false} PlaceCons(low: nat, rest: nat, k: nat)
    ensures Place(low + 0x80 * rest, k) == Place(low, k) + Place(rest, k + 1)
  {
    if k > 0 {
      PlaceCons(low, rest, k - 1);
    }
  }

  /** A group added to a result that lies below its place. */
  lemma Carry(result: nat, low: u7, k: nat)
    requires k <= 4 && result < Place(1, k)
    ensures result + Place(low, k) < Place(1, k + 1)
    ensures Place(low, k) < 0x8000_0000 <==> result + Place(low, k) < 0x8000_0000
    ensures Place(low, k) < 0x1_0000_0000 <==> result + Place(low, k) < 0x1_0000_0000
    ensures Place(low, k) >= 0x8000_0000 ==> k == 4
    ensures k <= 3 ==> Place(1, k + 1) <= 0x1000_0000
  {
    if k == 0 {
    } else if k == 1 {
    } else if k == 2 {
    } else if k == 3 {
    } else {
      assert k == 4;
    }
  }

  /** One iteration of either loop on one of the first four groups. */
  lemma GroupStep(d: seq<u8>, i: nat, k: nat, result: nat)
    requires i < |d| && d[i] >= 0x80 && k <= 3 && result < Place(1, k)
    ensures result + Place(d[i] - 0x80, k) < Place(1, k + 1)
    ensures ULebFrom(d, i, k, result) == ULebFrom(d, i + 1, k + 1, result + Place(d[i] - 0x80, k))
    ensures SLebFrom(d, i, k, result) == SLebFrom(d, i + 1, k + 1, result + Place(d[i] - 0x80, k))
  {
    hide Place;
    Carry(result, d[i] - 0x80, k);
  }

  /** A fifth group that has a successor ends in an undefined shift. */
  lemma SixthGroupFails(d: seq<u8>, i: nat, result: nat)
    requires i + 1 < |d| && d[i] >= 0x80
    ensures ULebFrom(d, i, 4, result) == Fail(UndefinedShift)
    ensures SLebFrom(d, i, 4, result) == Fail(UndefinedShift)
  {
  }

  /** The unsigned decoder's result in closed form. */
  function ULebResult(length: nat, value: nat, next: nat): Read<nat> {
    if length > 5 || value >= 0x1_0000_0000 then Fail(UndefinedShift)
    else if value < 0x8000_0000 then Ok(value, next)
    else Ok(value + 0xffff_ffff_0000_0000, next)
  }

  /** The last group, among the first five. */
  lemma ULebEnd(d: seq<u8>, i: nat, k: nat, result: nat)
    requires i < |d| && d[i] < 0x80 && k <= 4 && result < Place(1, k)
    ensures ULebFrom(d, i, k, result) == ULebResult(k + 1, result + Place(d[i], k), i + 1)
  {
    hide Place;
    Carry(result, d[i], k);
  }

  lemma {:induction false} ULebTail(d: seq<u8>, i: nat, k: nat, result: nat)
    requires LebLength(d, i) > 0 && k <= 4 && result < Place(1, k)
    ensures ULebFrom(d, i, k, result)
      == ULebResult(k + LebLength(d, i), LebTotal(d, i, k, result), i + LebLength(d, i))
    decreases |d| - i
  {
    hide Place, ULebFrom;
    if d[i] < 0x80 {
      ULebEnd(d, i, k, result);
    } else if k == 4 {
      SixthGroupFails(d, i, result);
    } else {
      GroupStep(d, i, k, result);
      ULebTail(d, i + 1, k + 1, result + Place(d[i] - 0x80, k));
    }
  }

  /**
   The unsigned decoder on all bytes. It ends at the first byte whose top bit is clear, and
   its result is the encoded number exactly when at most five bytes encode a number below 2^31.
   */
  lemma ULebExact(d: seq<u8>, i: nat)
    ensures LebLength(d, i) > 0 ==> ULebAt(d, i) == ULebResult(LebLength(d, i), LebSum(d, i), i + LebLength(d, i))
    ensures LebLength(d, i) == 0 ==> ULebAt(d, i).Fail?
    ensures ULebAt(d, i) == Ok(LebSum(d, i), i + LebLength(d, i))
      <==> 0 < LebLength(d, i) <= 5 && LebSum(d, i) < 0x8000_0000
  {
    if LebLength(d, i) > 0 {
      ULebTail(d, i, 0, 0);
      TotalIsSum(d, i, 0, 0);
    } else {
      UnterminatedFails(d, i, 0, 0);
    }
  }

  lemma {:induction false} UnterminatedFails(d: seq<u8>, i: nat, k: nat, result: nat)
    requires LebLength(d, i) == 0
    ensures ULebFrom(d, i, k, result).Fail? && SLebFrom(d, i, k, result).Fail?
    decreases |d| - i
  {
    if i < |d| && ShiftedPayload(d[i] % 0x80, k).Some? {
      UnterminatedFails(d, i + 1, k + 1, result + ShiftedPayload(d[i] % 0x80, k).value);
    }
  }

  /** The signed decoder's result in closed form. */
  function SLebResult(length: nat, value: nat, last: nat, next: nat): Read<int> {
    if length <= 4 then Ok(if last >= 0x40 then value - Place(1, length) else value, next)
    else if length > 5 || value >= 0x1_0000_0000 then Fail(UndefinedShift)
    else if value < 0x8000_0000 then Ok(value, next)
    else Ok(value - 0x1_0000_0000, next)
  }

  lemma SLebEnd(d: seq<u8>, i: nat, k: nat, result: nat)
    requires i < |d| && d[i] < 0x80 && k <= 4 && result < Place(1, k)
    ensures SLebFrom(d, i, k, result) == SLebResult(k + 1, result + Place(d[i], k), d[i], i + 1)
  {
    hide Place;
    Carry(result, d[i], k);
    PlaceFour(d[i]);
  }

  lemma PlaceFour(low: u8)
    ensures Place(low, 4) == 0x1000_0000 * (low as int)
  {
  }

  lemma {:induction false} SLebTail(d: seq<u8>, i: nat, k: nat, result: nat)
    requires LebLength(d, i) > 0 && k <= 4 && result < Place(1, k)
    ensures SLebFrom(d, i, k, result) == SLebResult(
        k + LebLength(d, i), LebTotal(d, i, k, result), d[i + LebLength(d, i) - 1], i + LebLength(d, i))
    decreases |d| - i
  {
    hide Place, SLebFrom;
    if d[i] < 0x80 {
      SLebEnd(d, i, k, result);
    } else if k == 4 {
      SixthGroupFails(d, i, result);
    } else {
      GroupStep(d, i, k, result);
      SLebTail(d, i + 1, k + 1, result + Place(d[i] - 0x80, k));
    }
  }

  /** The signed decoder on all bytes. */
  lemma SLebExact(d: seq<u8>, i: nat)
    ensures LebLength(d, i) > 0 ==> SLebAt(d, i) == SLebResult(
        LebLength(d, i), LebSum(d, i), d[i + LebLength(d, i) - 1], i + LebLength(d, i))
    ensures LebLength(d, i) == 0 ==> SLebAt(d, i).Fail?
  {
    if LebLength(d, i) > 0 {
      SLebTail(d, i, 0, 0);
      TotalIsSum(d, i, 0, 0);
    } else {
      UnterminatedFails(d, i, 0, 0);
    }
  }

  lemma {:induction false} LebOfBytes(d: seq<u8>, i: nat, p: seq<u7>)
    requires p != [] && At(d, i, LebBytes(p))
    ensures LebLength(d, i) == |p| && LebSum(d, i) == LebValue(p) && d[i + |p| - 1] == p[|p| - 1]
    decreases |p|
  {
    var b := LebBytes(p);
    assert b == [b[0]] + b[1..];
    AtConcat(d, i, [b[0]], b[1..]);
    assert d[i] == [b[0]][0];
    if |p| > 1 {
      LebOfBytes(d, i + 1, p[1..]);
    } else {
      assert p[1..] == [];
    }
  }

  // ----- round trips of the shortest encodings -----

  lemma {:induction false} GroupsValue(n: nat)
    ensures LebValue(Groups(n)) == n
  {
    if n >= 0x80 {
      GroupsValue(n / 0x80);
      assert Groups(n)[1..] == Groups(n / 0x80);
    }
  }

  lemma {:induction false} GroupsLength(n: nat, k: nat)
    requires k > 0 && n < Place(1, k)
    ensures |Groups(n)| <= k
  {
    if n >= 0x80 {
      GroupsLength(n / 0x80, k - 1);
    }
  }

  /** Decoding undoes the shortest encoding of n exactly when n is below 2^31. */
  lemma ULebRoundTrip(d: seq<u8>, i: nat, n: nat)
    requires At(d, i, EncodeULeb(n))
    ensures ULebAt(d, i) == Ok(n, i + |EncodeULeb(n)|) <==> n < 0x8000_0000
  {
    GroupsValue(n);
    LebOfBytes(d, i, Groups(n));
    ULebExact(d, i);
    if n < 0x8000_0000 {
      GroupsLength(n, 5);
    }
  }

  /** The low 32 bits, all that an `unsigned int` destination keeps, are right up to 2^32. */
  lemma ULebRoundTrip32(d: seq<u8>, i: nat, n: nat)
    requires At(d, i, EncodeULeb(n))
    ensures n < 0x1_0000_0000 <==> ULebAt(d, i).Ok?
    ensures n < 0x1_0000_0000 ==>
      && ULebAt(d, i).next == i + |EncodeULeb(n)|
      && Wrap32(ULebAt(d, i).value) == n
  {
    GroupsValue(n);
    LebOfBytes(d, i, Groups(n));
    ULebExact(d, i);
    if n < 0x1_0000_0000 {
      GroupsLength(n, 5);
    }
  }

  lemma {:induction false} SignedGroupsValue(n: int)
    ensures LebSigned(SignedGroups(n)) == n
    decreases if n < 0 then -n else n
  {
    if -0x40 <= n < 0x40 {
      assert LebValue([n % 0x80]) == n % 0x80 by { assert [n % 0x80][1..] == []; }
      assert Place(1, 1) == 0x80;
    } else {
      SignedGroupsValue(n / 0x80);
      LebSignedCons(n % 0x80, SignedGroups(n / 0x80));
    }
  }

  lemma LebSignedCons(low: u7, q: seq<u7>)
    requires q != []
    ensures LebSigned([low] + q) == low + 0x80 * LebSigned(q)
  {
  }

  lemma {:induction false} SignedGroupsLength(n: int, k: nat)
    requires k > 0
    ensures |SignedGroups(n)| <= k <==> -(Place(0x40, k - 1) as int) <= n < Place(0x40, k - 1)
    decreases k
  {
    if k > 1 {
      SignedGroupsLength(n / 0x80, k - 1);
    }
  }

  lemma {:induction false} LebValueBound(p: seq<u7>)
    ensures LebValue(p) < Place(1, |p|)
  {
    if p != [] {
      LebValueBound(p[1..]);
    }
  }

  /** Decoding undoes the shortest signed encoding exactly from -2^27 up to 2^31. */
  lemma SLebRoundTrip(d: seq<u8>, i: nat, n: int)
    requires At(d, i, EncodeSLeb(n))
    ensures SLebAt(d, i) == Ok(n, i + |EncodeSLeb(n)|) <==> -0x800_0000 <= n < 0x8000_0000
  {
    var p := SignedGroups(n);
    LebOfBytes(d, i, p);
    SLebExact(d, i);
    SignedGroupsValue(n);
    SignedGroupsLength(n, 4);
    SignedGroupsLength(n, 5);
    assert Place(0x40, 3) == 0x800_0000 && Place(0x40, 4) == 0x4_0000_0000 && Place(1, 5) == 0x8_0000_0000;
    if |p| <= 4 {
      assert SLebAt(d, i) == Ok(n, i + |p|);
    } else if |p| == 5 {
      LebValueBound(p);
    } else {
      assert !(-0x4_0000_0000 <= n < 0x4_0000_0000);
    }
  }
}
