/**
 Section 6.4.1 of DWARF Version 5 (in the version-3 layout that the code reads): the records
 of a section are recovered in order, their instruction blocks tile the section, and the
 entry covering an address is found together with its common information.
 */
module CallFrameTheorems {
  import opened Words
  import opened Streams
  import opened Abbrev
  import opened DieTree
  import opened CallFrame
  import LE = LittleEndian
  import D = DieRoundTrip
  import L = LineSemantics

  datatype Record =
    | CieRecord(version: u8, augmentation: seq<u8>, codeAlignmentFactor: nat, dataAlignmentFactor: int,
                returnAddressRegister: nat, instructions: seq<u8>)
    | FdeRecord(ciePointer: u32, initialLocation: u32, addressRange: u32, instructions: seq<u8>)

  /** The fields after the identifier and before the instructions. */
  function Fields(r: Record): seq<u8> {
    match r
    case CieRecord(version, augmentation, code, data, register, _) =>
      [version] + ((augmentation + [0]) + (EncodeULeb(code) + (EncodeSLeb(data) + EncodeULeb(register))))
    case FdeRecord(_, location, range, _) => LE.Bytes(location, 4) + LE.Bytes(range, 4)
  }

  function Identifier(r: Record): u32 {
    if r.CieRecord? then 0xffff_ffff else r.ciePointer
  }

  /** The value of the length field: everything after it. */
  function Length(r: Record): nat {
    4 + |Fields(r)| + |r.instructions|
  }

  predicate Encodable(r: Record) {
    && Length(r) < 0x1_0000_0000
    && match r
      case CieRecord(_, augmentation, code, data, register, _) =>
        0 !in augmentation && code < 0x8000_0000 && -0x800_0000 <= data < 0x8000_0000 && register < 0x8000_0000
      case FdeRecord(pointer, _, _, _) => pointer != 0xffff_ffff
  }

  function EncodeRecord(r: Record): (b: seq<u8>)
    ensures |b| == 4 + Length(r)
  {
    LE.Bytes(Length(r), 4) + (LE.Bytes(Identifier(r), 4) + (Fields(r) + r.instructions))
  }

  function EncodeRecords(rs: seq<Record>): seq<u8> {
    if rs == [] then [] else EncodeRecord(rs[0]) + EncodeRecords(rs[1..])
  }

  /** Where the instructions of a record at position i begin. */
  function InstructionsAt(r: Record, i: nat): nat {
    i + 8 + |Fields(r)|
  }

  /** The address of the instructions; there is none when they would begin at the end of the section. */
  function Pointer(r: Record, i: nat, n: nat): Option<nat> {
    if InstructionsAt(r, i) < n then Some(InstructionsAt(r, i)) else None
  }

  function ExpectedCie(r: Record, i: nat, n: nat): Cie
    requires r.CieRecord? && Encodable(r)
  {
    Cie(Length(r), r.version, r.augmentation, r.codeAlignmentFactor, r.dataAlignmentFactor, r.returnAddressRegister,
        Pointer(r, i, n), |r.instructions|)
  }

  function ExpectedFde(r: Record, i: nat, n: nat): Fde
    requires r.FdeRecord? && Encodable(r)
  {
    Fde(Length(r), r.ciePointer, r.initialLocation, r.addressRange,
        Pointer(r, i, n), |r.instructions|)
  }

  /** The content after the record at position i has been added. */
  function Added(f: Frames, r: Record, i: nat, n: nat): Frames
    requires Encodable(r)
  {
    if r.CieRecord? then f.(cies := Insert(f.cies, i, ExpectedCie(r, i, n)))
    else f.(fdes := f.fdes + [ExpectedFde(r, i, n)])
  }

  /** The content after the records from position i on have been added. */
  function Expected(rs: seq<Record>, i: nat, n: nat, f: Frames): Frames
    requires forall r | r in rs :: Encodable(r)
    decreases |rs|
  {
    if rs == [] then f else Expected(rs[1..], i + |EncodeRecord(rs[0])|, n, Added(f, rs[0], i, n))
  }

  /** The common information and its instructions: the block ends where the record does. */
  lemma CieRoundTrip(r: Record, d: seq<u8>, n: nat, start: nat)
    requires r.CieRecord? && Encodable(r) && start < 0x1_0000_0000
    requires At(d, start + 8, Fields(r))
    ensures CieAt(d, n, start, start + 8, Length(r)) == Ok(ExpectedCie(r, start, n), InstructionsAt(r, start))
  {
    hide At, StringAt, ULebAt, SLebAt, U8At, EncodeULeb, EncodeSLeb, Wrap32, Wrap64;
    var i := start + 8;
    var v, a := [r.version], r.augmentation + [0];
    var c, f := EncodeULeb(r.codeAlignmentFactor), EncodeSLeb(r.dataAlignmentFactor);
    var g := EncodeULeb(r.returnAddressRegister);
    AtConcat(d, i, v, a + (c + (f + g)));
    AtConcat(d, i + 1, a, c + (f + g));
    AtConcat(d, i + 1 + |a|, c, f + g);
    AtConcat(d, i + 1 + |a| + |c|, f, g);
    L.U8RoundTrip(d, i, r.version);
    D.StringRoundTrip(d, i + 1, r.augmentation);
    ULebRoundTrip(d, i + 1 + |a|, r.codeAlignmentFactor);
    SLebRoundTrip(d, i + 1 + |a| + |c|, r.dataAlignmentFactor);
    ULebRoundTrip(d, i + 1 + |a| + |c| + |f|, r.returnAddressRegister);
    BlockSizeExact(r, start);
  }

  lemma FdeRoundTrip(r: Record, d: seq<u8>, n: nat, start: nat)
    requires r.FdeRecord? && Encodable(r) && start < 0x1_0000_0000
    requires At(d, start + 8, Fields(r))
    ensures FdeAt(d, n, start, start + 8, Length(r), r.ciePointer)
      == Ok(ExpectedFde(r, start, n), InstructionsAt(r, start))
  {
    hide At, U32At, Wrap32, Wrap64;
    AtConcat(d, start + 8, LE.Bytes(r.initialLocation, 4), LE.Bytes(r.addressRange, 4));
    D.U32RoundTrip(d, start + 8, r.initialLocation);
    D.U32RoundTrip(d, start + 12, r.addressRange);
    BlockSizeExact(r, start);
  }

  lemma BlockSizeExact(r: Record, start: nat)
    requires Encodable(r) && start < 0x1_0000_0000
    ensures BlockSize(Length(r), start, InstructionsAt(r, start)) == |r.instructions|
  {
  }

  lemma RecordRoundTrip(r: Record, d: seq<u8>, n: nat, i: nat, f: Frames)
    requires Encodable(r) && i < 0x1_0000_0000 && At(d, i, EncodeRecord(r))
    ensures RecordAt(d, n, i, f) == Ok(Added(f, r, i, n), i + |EncodeRecord(r)|)
  {
    hide At, U32At, CieAt, FdeAt, Fields, ExpectedCie, ExpectedFde;
    var rest := Fields(r) + r.instructions;
    AtConcat(d, i, LE.Bytes(Length(r), 4), LE.Bytes(Identifier(r), 4) + rest);
    AtConcat(d, i + 4, LE.Bytes(Identifier(r), 4), rest);
    AtConcat(d, i + 8, Fields(r), r.instructions);
    D.U32RoundTrip(d, i, Length(r));
    D.U32RoundTrip(d, i + 4, Identifier(r));
    WrapSmall(i);
    if r.CieRecord? {
      CieRoundTrip(r, d, n, i);
    } else {
      FdeRoundTrip(r, d, n, i);
    }
  }

  /** The loop ends at the end of the section with every record, in order. */
  lemma Tiling(rs: seq<Record>, d: seq<u8>, i: nat, f: Frames)
    requires (forall r | r in rs :: Encodable(r)) && At(d, i, EncodeRecords(rs))
    requires i + |EncodeRecords(rs)| <= 0x1_0000_0000
    ensures var n := i + |EncodeRecords(rs)|;
      FramesAt(d, n, i, f) == Ok(Expected(rs, i, n, f), n)
  {
    hide At, FramesAt, Expected, EncodeRecords;
    TilingFrom(rs, d, i, f, i + |EncodeRecords(rs)|);
  }

  lemma {:induction false} TilingFrom(rs: seq<Record>, d: seq<u8>, i: nat, f: Frames, n: nat)
    requires (forall r | r in rs :: Encodable(r)) && At(d, i, EncodeRecords(rs))
    requires i + |EncodeRecords(rs)| == n <= 0x1_0000_0000
    ensures FramesAt(d, n, i, f) == Ok(Expected(rs, i, n, f), n)
    decreases |rs|
  {
    hide At, RecordAt, EncodeRecord, Added, Encodable;
    if rs != [] {
      var r := rs[0];
      AtConcat(d, i, EncodeRecord(r), EncodeRecords(rs[1..]));
      RecordRoundTrip(r, d, n, i, f);
      TilingFrom(rs[1..], d, i + |EncodeRecord(r)|, Added(f, r, i, n), n);
    }
  }

  // ----- what the content means -----

  /** The position of the k-th record. */
  function Position(rs: seq<Record>, k: nat): nat
    requires k <= |rs|
  {
    |EncodeRecords(rs[..k])|
  }

  lemma {:induction false} EncodeConcat(a: seq<Record>, b: seq<Record>)
    ensures EncodeRecords(a + b) == EncodeRecords(a) + EncodeRecords(b)
    decreases |a|
  {
    if a == [] {
      assert a + b == b;
    } else {
      assert (a + b)[1..] == a[1..] + b;
      EncodeConcat(a[1..], b);
    }
  }

  lemma PositionStep(rs: seq<Record>, k: nat)
    requires k < |rs|
    ensures Position(rs, k + 1) == Position(rs, k) + |EncodeRecord(rs[k])|
  {
    assert rs[..k + 1] == rs[..k] + [rs[k]];
    EncodeConcat(rs[..k], [rs[k]]);
    assert [rs[k]][1..] == [];
  }

  lemma {:induction false} PositionsIncrease(rs: seq<Record>, j: nat, k: nat)
    requires j < k <= |rs|
    ensures Position(rs, j) < Position(rs, k)
    decreases k
  {
    hide EncodeRecords;
    PositionStep(rs, k - 1);
    if j < k - 1 {
      PositionsIncrease(rs, j, k - 1);
    }
  }

  /** What the entry of a record says about its instructions. */
  function StoredPointer(r: Record, i: nat, n: nat): Option<nat>
    requires Encodable(r)
  {
    if r.CieRecord? then ExpectedCie(r, i, n).initialInstructions else ExpectedFde(r, i, n).instructions
  }

  /**
   The blocks tile the section: the instructions of every record occur where its entry points,
   and they end exactly where the next record begins. Only a last record without instructions
   points nowhere.
   */
  lemma BlocksTile(rs: seq<Record>, d: seq<u8>, k: nat)
    requires At(d, 0, EncodeRecords(rs)) && k < |rs| && Encodable(rs[k])
    ensures match StoredPointer(rs[k], Position(rs, k), |EncodeRecords(rs)|)
      case Some(start) => At(d, start, rs[k].instructions) && start + |rs[k].instructions| == Position(rs, k + 1)
      case None => k == |rs| - 1 && rs[k].instructions == []
  {
    hide At, EncodeRecords, Fields, Encodable, Position;
    BlockPlaced(rs, d, k);
    LastPosition(rs);
    if k + 1 < |rs| {
      PositionsIncrease(rs, k + 1, |rs|);
    }
  }

  lemma BlockPlaced(rs: seq<Record>, d: seq<u8>, k: nat)
    requires At(d, 0, EncodeRecords(rs)) && k < |rs|
    ensures var start := InstructionsAt(rs[k], Position(rs, k));
      && At(d, start, rs[k].instructions)
      && start + |rs[k].instructions| == Position(rs, k + 1)
  {
    hide At, EncodeRecords, Fields;
    var r := rs[k];
    var p := Position(rs, k);
    assert rs == rs[..k + 1] + rs[k + 1..] && rs[..k + 1] == rs[..k] + [r];
    EncodeConcat(rs[..k + 1], rs[k + 1..]);
    EncodeConcat(rs[..k], [r]);
    EncodeOne(r);
    AtConcat(d, 0, EncodeRecords(rs[..k + 1]), EncodeRecords(rs[k + 1..]));
    AtConcat(d, 0, EncodeRecords(rs[..k]), EncodeRecord(r));
    AtConcat(d, p, LE.Bytes(Length(r), 4), LE.Bytes(Identifier(r), 4) + (Fields(r) + r.instructions));
    AtConcat(d, p + 4, LE.Bytes(Identifier(r), 4), Fields(r) + r.instructions);
    AtConcat(d, p + 8, Fields(r), r.instructions);
    PositionStep(rs, k);
  }

  lemma EncodeOne(r: Record)
    ensures EncodeRecords([r]) == EncodeRecord(r)
  {
  }

  /** The entry list is the list of the records' entries, in order. */
  function FdesOf(rs: seq<Record>, i: nat, n: nat): seq<Fde>
    requires forall r | r in rs :: Encodable(r)
    decreases |rs|
  {
    if rs == [] then []
    else (if rs[0].FdeRecord? then [ExpectedFde(rs[0], i, n)] else []) + FdesOf(rs[1..], i + |EncodeRecord(rs[0])|, n)
  }

  lemma ExpectedStep(rs: seq<Record>, i: nat, n: nat, f: Frames)
    requires forall r | r in rs :: Encodable(r)
    ensures Expected(rs, i, n, f)
      == if rs == [] then f else Expected(rs[1..], i + |EncodeRecord(rs[0])|, n, Added(f, rs[0], i, n))
  {
  }

  lemma FdesStep(rs: seq<Record>, i: nat, n: nat)
    requires forall r | r in rs :: Encodable(r)
    ensures FdesOf(rs, i, n)
      == if rs == [] then []
         else (if rs[0].FdeRecord? then [ExpectedFde(rs[0], i, n)] else [])
              + FdesOf(rs[1..], i + |EncodeRecord(rs[0])|, n)
  {
  }

  lemma {:induction false} ExpectedFdes(rs: seq<Record>, i: nat, n: nat, f: Frames)
    requires forall r | r in rs :: Encodable(r)
    ensures Expected(rs, i, n, f).fdes == f.fdes + FdesOf(rs, i, n)
    decreases |rs|
  {
    hide ExpectedFde, EncodeRecord, Encodable, Added, Expected, FdesOf;
    ExpectedStep(rs, i, n, f);
    FdesStep(rs, i, n);
    if rs == [] {
      assert f.fdes + [] == f.fdes;
    } else {
      var first := if rs[0].FdeRecord? then [ExpectedFde(rs[0], i, n)] else [];
      var tail := FdesOf(rs[1..], i + |EncodeRecord(rs[0])|, n);
      AddedFdes(f, rs[0], i, n);
      ExpectedFdes(rs[1..], i + |EncodeRecord(rs[0])|, n, Added(f, rs[0], i, n));
      Associative(f.fdes, first, tail);
    }
  }

  lemma Associative<T>(a: seq<T>, b: seq<T>, c: seq<T>)
    ensures (a + b) + c == a + (b + c)
  {
  }

  lemma AddedFdes(f: Frames, r: Record, i: nat, n: nat)
    requires Encodable(r)
    ensures Added(f, r, i, n).fdes == f.fdes + if r.FdeRecord? then [ExpectedFde(r, i, n)] else []
  {
  }

  /** All keys lie below a position. */
  predicate KeysBelow(f: Frames, i: nat) {
    forall key | key in f.cies :: key < i
  }

  /** Every common information entry is found under the offset of its record. */
  lemma ExpectedCies(rs: seq<Record>, i: nat, n: nat, f: Frames, k: nat)
    requires (forall r | r in rs :: Encodable(r)) && k < |rs| && rs[k].CieRecord? && KeysBelow(f, i)
    ensures i + Position(rs, k) in Expected(rs, i, n, f).cies
    ensures Expected(rs, i, n, f).cies[i + Position(rs, k)] == ExpectedCie(rs[k], i + Position(rs, k), n)
  {
    ExpectedCieAt(rs, i, n, f, k, i + Position(rs, k));
  }

  lemma {:induction false} ExpectedCieAt(rs: seq<Record>, i: nat, n: nat, f: Frames, k: nat, p: nat)
    requires (forall r | r in rs :: Encodable(r)) && k < |rs| && rs[k].CieRecord?
    requires KeysBelow(f, i) && p == i + Position(rs, k)
    ensures p in Expected(rs, i, n, f).cies && Expected(rs, i, n, f).cies[p] == ExpectedCie(rs[k], p, n)
    decreases |rs|
  {
    hide EncodeRecord, Encodable, Position, Added, ExpectedCie, Expected, KeysBelow, Length, Fields, EncodeRecords;
    var r, rest := rs[0], rs[1..];
    assert forall x | x in rest :: x in rs;
    ExpectedStep(rs, i, n, f);
    AddedBelow(f, r, i, n);
    if k == 0 {
      FirstPosition(rs);
      ExpectedKeeps(rest, i + |EncodeRecord(r)|, n, Added(f, r, i, n), i);
    } else {
      PositionTail(rs, k);
      ExpectedCieAt(rest, i + |EncodeRecord(r)|, n, Added(f, r, i, n), k - 1, p);
    }
  }

  lemma AddedBelow(f: Frames, r: Record, i: nat, n: nat)
    requires Encodable(r) && KeysBelow(f, i)
    ensures KeysBelow(Added(f, r, i, n), i + |EncodeRecord(r)|)
    ensures r.CieRecord? ==> i in Added(f, r, i, n).cies && Added(f, r, i, n).cies[i] == ExpectedCie(r, i, n)
  {
    hide EncodeRecord, Encodable, ExpectedCie, Added;
    AddedCies(f, r, i, n);
    assert i !in f.cies;
  }

  lemma AddedCies(f: Frames, r: Record, i: nat, n: nat)
    requires Encodable(r)
    ensures forall key | key in Added(f, r, i, n).cies :: key in f.cies || key == i
    ensures forall key | key in f.cies :: key in Added(f, r, i, n).cies && Added(f, r, i, n).cies[key] == f.cies[key]
    ensures r.CieRecord? && i !in f.cies ==> Added(f, r, i, n).cies == f.cies[i := ExpectedCie(r, i, n)]
  {
  }

  lemma LastPosition(rs: seq<Record>)
    ensures Position(rs, |rs|) == |EncodeRecords(rs)|
  {
    assert rs[..|rs|] == rs;
  }

  lemma FirstPosition(rs: seq<Record>)
    ensures Position(rs, 0) == 0
  {
  }

  lemma PositionTail(rs: seq<Record>, k: nat)
    requires 0 < k <= |rs|
    ensures Position(rs, k) == |EncodeRecord(rs[0])| + Position(rs[1..], k - 1)
  {
    assert rs[..k] == [rs[0]] + rs[1..][..k - 1];
    EncodeConcat([rs[0]], rs[1..][..k - 1]);
    EncodeOne(rs[0]);
  }

  lemma {:induction false} ExpectedKeeps(rs: seq<Record>, i: nat, n: nat, f: Frames, key: nat)
    requires (forall r | r in rs :: Encodable(r)) && key in f.cies
    ensures key in Expected(rs, i, n, f).cies && Expected(rs, i, n, f).cies[key] == f.cies[key]
    decreases |rs|
  {
    hide EncodeRecord, Encodable, Added;
    if rs != [] {
      AddedCies(f, rs[0], i, n);
      ExpectedKeeps(rs[1..], i + |EncodeRecord(rs[0])|, n, Added(f, rs[0], i, n), key);
    }
  }

  // ----- selection -----

  predicate Disjoint(a: Fde, b: Fde) {
    a.initialLocation + a.addressRange <= b.initialLocation || b.initialLocation + b.addressRange <= a.initialLocation
  }

  predicate WellPlaced(fdes: seq<Fde>) {
    && (forall k | 0 <= k < |fdes| :: fdes[k].initialLocation + fdes[k].addressRange < 0x1_0000_0000)
    && forall j, k | 0 <= j < k < |fdes| :: Disjoint(fdes[j], fdes[k])
  }

  /** The address lies in the entry's range, whose end is computed in 32 bits. */
  predicate Holds(fde: Fde, pc: u32) {
    fde.initialLocation <= pc < (fde.initialLocation + fde.addressRange) % 0x1_0000_0000
  }

  /** The k-th entry covers the address, and no later one does. */
  predicate IsLastCovering(fdes: seq<Fde>, pc: u32, k: nat) {
    k < |fdes| && Holds(fdes[k], pc) && forall j | k < j < |fdes| :: !Holds(fdes[j], pc)
  }

  lemma HoldsCovers(fde: Fde, pc: u32)
    ensures Holds(fde, pc) == Covers(fde, pc)
  {
  }

  /** Selection finds an entry exactly when one covers the address; it is the last such entry. */
  lemma {:induction false} SelectedIsLast(fdes: seq<Fde>, pc: u32)
    ensures Selected(fdes, pc) == None <==> forall k | 0 <= k < |fdes| :: !Holds(fdes[k], pc)
    ensures Selected(fdes, pc).Some? ==> exists k: nat ::
      IsLastCovering(fdes, pc, k) && fdes[k] == Selected(fdes, pc).value
    decreases |fdes|
  {
    hide Covers, Holds;
    if fdes != [] {
      var n := |fdes| - 1;
      var earlier := fdes[..n];
      SelectedIsLast(earlier, pc);
      HoldsCovers(fdes[n], pc);
      if Holds(fdes[n], pc) {
        assert IsLastCovering(fdes, pc, n);
      } else if Selected(earlier, pc).Some? {
        var k: nat :| IsLastCovering(earlier, pc, k) && earlier[k] == Selected(earlier, pc).value;
        assert forall j | k < j < n :: !Holds(earlier[j], pc);
        assert IsLastCovering(fdes, pc, k);
      }
    }
  }

  /** With disjoint ranges that do not wrap, it is the unique entry whose range holds the address. */
  lemma SelectionUnique(fdes: seq<Fde>, pc: u32, k: nat)
    requires WellPlaced(fdes) && k < |fdes|
    requires fdes[k].initialLocation <= pc < fdes[k].initialLocation + fdes[k].addressRange
    ensures Selected(fdes, pc) == Some(fdes[k])
  {
  }

  /**
   From the bytes to the frame: in an encoded section whose ranges are well placed, an address
   covered by an entry that points at the c-th record, a common information entry, is mapped
   to exactly that pair.
   */
  lemma FrameFound(rs: seq<Record>, d: seq<u8>, pc: u32, k: nat, c: nat)
    requires (forall r | r in rs :: Encodable(r)) && At(d, 0, EncodeRecords(rs))
    requires |EncodeRecords(rs)| <= 0x1_0000_0000
    requires var fdes := FdesOf(rs, 0, |EncodeRecords(rs)|);
      && WellPlaced(fdes) && k < |fdes|
      && fdes[k].initialLocation <= pc < fdes[k].initialLocation + fdes[k].addressRange
      && c < |rs| && rs[c].CieRecord? && fdes[k].ciePointer == Position(rs, c)
    ensures var n := |EncodeRecords(rs)|;
      var f := FramesAt(d, n, 0, Frames(map[], []));
      && f.Ok?
      && FrameFor(f.value, pc) == Some((FdesOf(rs, 0, n)[k], ExpectedCie(rs[c], Position(rs, c), n)))
  {
    hide At, EncodeRecords, FramesAt, FdesOf, Expected, ExpectedCie, Encodable, WellPlaced, Position, Selected;
    var n := |EncodeRecords(rs)|;
    var empty := Frames(map[], []);
    Tiling(rs, d, 0, empty);
    ExpectedFdes(rs, 0, n, empty);
    assert [] + FdesOf(rs, 0, n) == FdesOf(rs, 0, n);
    ExpectedCies(rs, 0, n, empty, c);
    SelectionUnique(FdesOf(rs, 0, n), pc, k);
  }
}
