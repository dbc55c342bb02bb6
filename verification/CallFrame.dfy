/**
 The records of .debug_frame: `CallFrameInfo::generateFrameInfo`, `parseCie`, `parseFde` and
 the selection of the entry for an address, as functions of the bytes.
 */
module CallFrame {
  import opened Words
  import opened Streams
  import opened Abbrev
  import opened DieTree

  const CIE_ID: u32 := 0xffff_ffff

  /** A common information entry; `initialInstructions` is null at the end of the section. */
  datatype Cie = Cie(
    length: u32, version: u8, augmentation: seq<u8>, codeAlignmentFactor: nat, dataAlignmentFactor: int,
    returnAddressRegister: nat, initialInstructions: Option<nat>, instructionsBlockSize: u64)

  datatype Fde = Fde(
    length: u32, ciePointer: u32, initialLocation: u32, addressRange: u32,
    instructions: Option<nat>, instructionsBlockSize: u64)

  datatype Frames = Frames(cies: map<nat, Cie>, fdes: seq<Fde>)

  /** `getData(index)`. */
  function PointerAt(length: nat, i: nat): Option<nat> {
    if i < length then Some(i) else None
  }

  /** `getLen() - (index - offset)`, where the offset has been stored in 32 bits. */
  function BlockSize(length: u32, start: nat, i: nat): u64 {
    Wrap64(4 + length - (i - Wrap32(start)))
  }

  /** A common information entry whose first byte is at `start`; its fields begin at i. */
  function CieAt(d: seq<u8>, n: nat, start: nat, i: nat, length: u32): Read<Cie> {
    var (version, i1) :- U8At(d, i);
    var (augmentation, i2) :- StringAt(d, i1);
    var (code, i3) :- ULebAt(d, i2);
    var (data, i4) :- SLebAt(d, i3);
    var (register, i5) :- ULebAt(d, i4);
    Ok(Cie(length, version, augmentation, code, data, register, PointerAt(n, i5), BlockSize(length, start, i5)), i5)
  }

  function FdeAt(d: seq<u8>, n: nat, start: nat, i: nat, length: u32, ciePointer: u32): Read<Fde> {
    var (location, i1) :- U32At(d, i);
    var (range, i2) :- U32At(d, i1);
    Ok(Fde(length, ciePointer, location, range, PointerAt(n, i2), BlockSize(length, start, i2)), i2)
  }

  /** One iteration of the loop: the record at i is added and the cursor moves to its end. */
  function RecordAt(d: seq<u8>, n: nat, i: nat, f: Frames): (r: Read<Frames>)
    ensures r.Ok? ==> i < r.next
  {
    var (length, i1) :- U32At(d, i);
    var (identifier, i2) :- U32At(d, i1);
    if identifier == CIE_ID then
      var (cie, _) :- CieAt(d, n, i, i2, length);
      Ok(f.(cies := Insert(f.cies, Wrap32(i), cie)), i + 4 + length)
    else
      var (fde, _) :- FdeAt(d, n, i, i2, length, identifier);
      Ok(f.(fdes := f.fdes + [fde]), i + 4 + length)
  }

  function FramesAt(d: seq<u8>, n: nat, i: nat, f: Frames): Read<Frames>
    decreases n - i
  {
    if i >= n then Ok(f, i)
    else
      var (g, i1) :- RecordAt(d, n, i, f);
      FramesAt(d, n, i1, g)
  }

  // ----- selection -----

  predicate Covers(fde: Fde, pc: u32) {
    fde.initialLocation <= pc < Wrap32(fde.initialLocation + fde.addressRange)
  }

  /** The last entry that covers the address. */
  function Selected(fdes: seq<Fde>, pc: u32): Option<Fde> {
    if fdes == [] then None
    else
      var last := fdes[|fdes| - 1];
      if Covers(last, pc) then Some(last) else Selected(fdes[..|fdes| - 1], pc)
  }

  /** The entry and its common information, when both exist. */
  function FrameFor(f: Frames, pc: u32): Option<(Fde, Cie)> {
    match Selected(f.fdes, pc)
    case None => None
    case Some(fde) => if fde.ciePointer in f.cies then Some((fde, f.cies[fde.ciePointer])) else None
  }
}
