/** The class that splits .debug_frame into its records. */
module CallFrameInfos {
  import opened Words
  import opened Streams
  import opened DataStreams
  import opened Abbrev
  import opened DieTree
  import opened CallFrame

  class CallFrameInfo {
    const cfiStream: DataStream
    var cies: map<nat, Cie>
    var fdes: seq<Fde>

    function Content(): Frames
      reads this
    {
      Frames(cies, fdes)
    }

    constructor (data: seq<u8>, length: nat)
      ensures fresh(cfiStream) && cfiStream.data == data && cfiStream.streamLen == length && cfiStream.index == 0
      ensures Content() == Frames(map[], [])
    {
      cfiStream := new DataStream(data, length);
      cies := map[];
      fdes := [];
    }

    method ReadAugmentation() returns (r: Read<seq<u8>>)
      modifies cfiStream
      ensures r == StringAt(cfiStream.data, old(cfiStream.index))
      ensures r.Ok? ==> cfiStream.index == r.next
    {
      var d := cfiStream.data;
      var read := [];
      PrependNone(StringAt(d, cfiStream.index));
      while true
        invariant StringAt(d, old(cfiStream.index)) == Prepend(read, StringAt(d, cfiStream.index))
        decreases |d| - cfiStream.index
      {
        var c := cfiStream.DecodeUInt8();
        if c.Fail? { return Fail(c.fault); }
        if c.value == 0 {
          PrependAll(read, cfiStream.index);
          return Ok(read, cfiStream.index);
        }
        PrependMore(read, c.value, StringAt(d, cfiStream.index));
        read := read + [c.value];
      }
    }

    method ParseCie(length: u32, debugFrameOffset: nat) returns (r: Read<Cie>)
      modifies this, cfiStream
      ensures r == CieAt(cfiStream.data, cfiStream.streamLen, debugFrameOffset, old(cfiStream.index), length)
      ensures r.Ok? ==> cies == Insert(old(cies), Wrap32(debugFrameOffset), r.value) && fdes == old(fdes)
    {
      hide StringAt, ULebAt, SLebAt, U8At;
      var version := cfiStream.DecodeUInt8();
      if version.Fail? { return Fail(version.fault); }
      var augmentation := ReadAugmentation();
      if augmentation.Fail? { return Fail(augmentation.fault); }
      var code := cfiStream.DecodeULeb128();
      if code.Fail? { return Fail(code.fault); }
      var data := cfiStream.DecodeLeb128();
      if data.Fail? { return Fail(data.fault); }
      var register := cfiStream.DecodeULeb128();
      if register.Fail? { return Fail(register.fault); }
      var cie := Cie(length, version.value, augmentation.value, code.value, data.value, register.value,
                     PointerAt(cfiStream.streamLen, cfiStream.index),
                     BlockSize(length, debugFrameOffset, cfiStream.index));
      cies := Insert(cies, Wrap32(debugFrameOffset), cie);
      r := Ok(cie, cfiStream.index);
    }

    method ParseFde(length: u32, ciePointer: u32, startIdx: nat) returns (r: Read<Fde>)
      modifies this, cfiStream
      ensures r == FdeAt(cfiStream.data, cfiStream.streamLen, startIdx, old(cfiStream.index), length, ciePointer)
      ensures r.Ok? ==> fdes == old(fdes) + [r.value] && cies == old(cies)
    {
      hide U32At;
      var location := cfiStream.DecodeUInt32();
      if location.Fail? { return Fail(location.fault); }
      var range := cfiStream.DecodeUInt32();
      if range.Fail? { return Fail(range.fault); }
      var fde := Fde(length, ciePointer, location.value, range.value,
                     PointerAt(cfiStream.streamLen, cfiStream.index), BlockSize(length, startIdx, cfiStream.index));
      fdes := fdes + [fde];
      r := Ok(fde, cfiStream.index);
    }

    method GenerateFrameInfo() returns (r: Read<()>)
      modifies this, cfiStream
      ensures match FramesAt(cfiStream.data, cfiStream.streamLen, old(cfiStream.index), old(Content()))
        case Ok(f, next) => r == Ok((), next) && Content() == f && cfiStream.index == next
        case Fail(fault) => r == Fail(fault)
    {
      hide U32At, CieAt, FdeAt;
      ghost var d, n := cfiStream.data, cfiStream.streamLen;
      while cfiStream.IsStreamable()
        invariant FramesAt(d, n, old(cfiStream.index), old(Content())) == FramesAt(d, n, cfiStream.index, Content())
        decreases n - cfiStream.index
      {
        var debugFrameOffset := cfiStream.index;
        var length := cfiStream.DecodeUInt32();
        if length.Fail? { return Fail(length.fault); }
        var identifier := cfiStream.DecodeUInt32();
        if identifier.Fail? { return Fail(identifier.fault); }
        if identifier.value == CIE_ID {
          var cie := ParseCie(length.value, debugFrameOffset);
          if cie.Fail? { return Fail(cie.fault); }
        } else {
          var fde := ParseFde(length.value, identifier.value, debugFrameOffset);
          if fde.Fail? { return Fail(fde.fault); }
        }
        cfiStream.SetOffset(debugFrameOffset + 4 + (length.value as int));
      }
      r := Ok((), cfiStream.index);
    }

    /** The selection loop of `generateVirtTable`. */
    method FindFrame(l1: u32) returns (r: Option<(Fde, Cie)>)
      ensures r == FrameFor(Content(), l1)
    {
      var fde: Option<Fde> := None;
      var i := 0;
      while i < |fdes|
        invariant 0 <= i <= |fdes| && fde == Selected(fdes[..i], l1)
      {
        var entry := fdes[i];
        assert fdes[..i + 1][..i] == fdes[..i];
        if entry.initialLocation <= l1 < Wrap32(entry.initialLocation + entry.addressRange) {
          fde := Some(entry);
        }
        i := i + 1;
      }
      assert fdes[..|fdes|] == fdes;
      if fde == None || fde.value.ciePointer !in cies {
        return None;
      }
      r := Some((fde.value, cies[fde.value.ciePointer]));
    }
  }
}
