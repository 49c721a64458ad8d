/**
 * The image decoder (assets/image.cpp): the image's name and the metadata
 * unpacked from the 12 bytes after it.  Store does nothing.
 */
module Images {
  import opened Errors
  import opened Utility
  import opened AddressCodec
  import opened Memory
  import opened Arenas

  /** SIZE_IMAGE (docs/types.h:42): nine words. */
  const SIZE_IMAGE: nat := 0x24

  /** Image::metadata (image.hpp:21-33). */
  datatype ImageMetadata = ImageMetadata(
    imageType: byte, usage: byte, width: nat, height: nat, flags: nat, format: u32, zero: u32)

  datatype ImageValue = ImageValue(name: Option<nat>, metadata: ImageMetadata)

  /**
   * A new Image.  The constructor (image.cpp:6-9) sets only the name; the
   * metadata it leaves uninitialised starts at zero here.
   */
  const DEFAULT: ImageValue := ImageValue(None, ImageMetadata(0, 0, 0, 0, 0, 0, 0))

  /**
   * The metadata assignments (image.cpp:65-72) from the three words read
   * after the name.  `type` is assigned twice and keeps the second value;
   * `usage` and `zero` are never assigned.
   */
  function Unpack(md: ImageMetadata, b0: u32, b1: u32, b2: u32): ImageMetadata
  {
    AndBounds(Shr(b0, 8), 0xFF);
    md.(imageType := And(Shr(b0, 8), 0xFF), width := And(Shr(b0, 16), 0xFFFF),
        height := And(b1, 0xFFFF), flags := And(Shr(b1, 16), 0xFFFF), format := b2)
  }

  /** Image::Load (image.cpp:21-86) from the handle slot at `slot`. */
  function LoadImage(m: Mem, slot: nat, v: ImageValue): (r: Result<(Mem, ImageValue)>)
    requires slot + 4 <= |m.bytes|
    ensures r.Ok? ==> |r.value.0.bytes| == |m.bytes|
  {
    var handle := WordAt(m.bytes, slot);
    :- Check(handle == ADDRESS_MISSING || handle == ADDRESS_FOLLOWING, InternalError);
    if handle == ADDRESS_MISSING then Ok((m, v))
    else
      var record :- ReadMemoryStep(m, SIZE_IMAGE);
      var nameHandle := WordAt(record.1, 32);
      :- Check(nameHandle != ADDRESS_MISSING, CorruptedData);
      var named :- ResolveString(record.0, nameHandle);
      // handler[8] = GetAddress(4, name) rewrites the local copy only.
      var rewritten :-
        if nameHandle == ADDRESS_FOLLOWING then AddressOf(named.0, named.1) else Ok(nameHandle);
      LoadMetadata(named.0, named.1, v.metadata)
  }

  /**
   * The rest of Image::Load (image.cpp:61-82) once the name is at `name`:
   * the 12 metadata bytes, then a 4-byte arena block that must read zero.
   */
  function LoadMetadata(m: Mem, name: nat, md: ImageMetadata): (r: Result<(Mem, ImageValue)>)
    ensures r.Ok? ==> |r.value.0.bytes| == |m.bytes|
  {
    var buffer :- ReadMemoryStep(m, 12);
    var b := Words(buffer.1);
    var reference :- ReadSharedMemoryStep(buffer.0, 4, 4);
    :- Check(WordAt(reference.0.bytes, reference.1) == 0, CorruptedData);
    Ok((reference.0, ImageValue(Some(name), Unpack(md, b[0], b[1], b[2]))))
  }

  class Image {
    var name: Option<nat>
    var metadata: ImageMetadata

    function Value(): ImageValue
      reads this
    {
      ImageValue(name, metadata)
    }

    /** Image::Image (image.cpp:6-9): only the name is initialised. */
    constructor ()
      ensures Value() == DEFAULT
    {
      name, metadata := None, DEFAULT.metadata;
    }

    /** Image::Release (image.cpp:16-19): only the name is reset. */
    method Release()
      modifies this
      ensures name.None? && metadata == old(metadata)
    {
      name := None;
    }

    /**
     * Image::Load (image.cpp:21-86): the record is decoded by Decode and
     * the fields take the result when the load succeeds.
     */
    method Load(arena: Arena, slot: nat) returns (r: Result<()>)
      requires arena.Valid() && slot + 4 <= arena.data.Length
      modifies this, arena, arena.data, arena.stream, arena.stream.buffer
      ensures arena.Valid()
      ensures Agrees(LoadImage(old(arena.State()), slot, old(Value())), r, arena.State(), Value())
    {
      var v;
      r, v := Decode(arena, slot, Value());
      if r.Ok? {
        name, metadata := v.name, v.metadata;
      }
    }
  }

  /** The body of Image::Load (image.cpp:21-86) on a value of the fields. */
  method Decode(arena: Arena, slot: nat, v0: ImageValue) returns (r: Result<()>, v: ImageValue)
    requires arena.Valid() && slot + 4 <= arena.data.Length
    modifies arena, arena.data, arena.stream, arena.stream.buffer
    ensures arena.Valid()
    ensures Agrees(LoadImage(old(arena.State()), slot, v0), r, arena.State(), v)
  {
    v := v0;
    var handle := arena.ReadWord(slot);
    if handle != ADDRESS_MISSING && handle != ADDRESS_FOLLOWING {
      return Fail(InternalError), v;
    }
    if handle == ADDRESS_FOLLOWING {
      var record :- arena.ReadMemory(SIZE_IMAGE);
      var nameHandle := WordAt(record, 32);
      if nameHandle == ADDRESS_MISSING {
        return Fail(CorruptedData), v;
      }
      var name :- arena.ResolveString(nameHandle);
      if nameHandle == ADDRESS_FOLLOWING {
        var rewritten :- GetAddress(arena.data.Length, arena.current, 4, Some(name));
      }
      r, v := DecodeMetadata(arena, name, v.metadata);
      return;
    }
    r := Ok(());
  }

  /** The metadata and reference block of Image::Load (image.cpp:61-82). */
  method DecodeMetadata(arena: Arena, name: nat, md: ImageMetadata) returns (r: Result<()>, v: ImageValue)
    requires arena.Valid()
    modifies arena, arena.data, arena.stream, arena.stream.buffer
    ensures arena.Valid()
    ensures Agrees(LoadMetadata(old(arena.State()), name, md), r, arena.State(), v)
  {
    v := ImageValue(Some(name), md);
    var buffer :- arena.ReadMemory(12);
    var b := Words(buffer);
    v := ImageValue(Some(name), Unpack(md, b[0], b[1], b[2]));
    var reference :- arena.ReadSharedMemory(4, 4);
    var word := arena.ReadWord(reference);
    if word != 0 {
      return Fail(CorruptedData), v;
    }
    r := Ok(());
  }

  // ---------------------------------------------------------------------
  // Properties.

  /**
   * The metadata fields are bit fields of the three words: type is bits
   * 8-15 of the first (the second assignment wins), width bits 16-31 of
   * the first, height and flags the low and high halves of the second,
   * format the third; usage and zero keep their values.
   */
  lemma UnpackFields(md: ImageMetadata, b0: u32, b1: u32, b2: u32)
    ensures var r := Unpack(md, b0, b1, b2);
      && r.imageType == (b0 / 0x100) % 0x100 && r.width == b0 / 0x1_0000
      && r.height == b1 % 0x1_0000 && r.flags == b1 / 0x1_0000 && r.format == b2
      && r.usage == md.usage && r.zero == md.zero
  {
    Pow2Small();
    ShrDiv(b0, 8);
    AndLowMask(b0 / 0x100, 8);
    HalfWords(b0);
    HalfWords(b1);
  }

  /** In terms of the 12 bytes read: which byte of the stream each field comes from. */
  lemma UnpackBytes(md: ImageMetadata, s: seq<byte>)
    requires |s| == 12
    ensures var b := Words(s);
      var r := Unpack(md, b[0], b[1], b[2]);
      && r.imageType == s[1] && r.width == (s[2] as int) + 0x100 * (s[3] as int)
      && r.height == (s[4] as int) + 0x100 * (s[5] as int)
      && r.flags == (s[6] as int) + 0x100 * (s[7] as int)
      && r.format == WordAt(s, 8)
  {
    var b := Words(s);
    UnpackFields(md, b[0], b[1], b[2]);
    var s0, s1, s2, s3 := s[0] as int, s[1] as int, s[2] as int, s[3] as int;
    var s4, s5, s6, s7 := s[4] as int, s[5] as int, s[6] as int, s[7] as int;
    assert b[0] == WordAt(s, 0) == s0 + 0x100 * s1 + 0x1_0000 * s2 + 0x100_0000 * s3;
    assert b[1] == WordAt(s, 4) == s4 + 0x100 * s5 + 0x1_0000 * s6 + 0x100_0000 * s7;
    DivModUnique(b[0], 0x100, s1 + 0x100 * s2 + 0x1_0000 * s3, s0);
    DivModUnique(s1 + 0x100 * s2 + 0x1_0000 * s3, 0x100, s2 + 0x100 * s3, s1);
    DivModUnique(b[0], 0x1_0000, s2 + 0x100 * s3, s0 + 0x100 * s1);
    DivModUnique(b[1], 0x1_0000, s6 + 0x100 * s7, s4 + 0x100 * s5);
  }

  /** The handle decides the path: MISSING reads nothing, other encodings are internal errors. */
  lemma HandleRule(m: Mem, slot: nat, v: ImageValue)
    requires slot + 4 <= |m.bytes|
    ensures WordAt(m.bytes, slot) == ADDRESS_MISSING ==> LoadImage(m, slot, v) == Ok((m, v))
    ensures WordAt(m.bytes, slot) != ADDRESS_MISSING && WordAt(m.bytes, slot) != ADDRESS_FOLLOWING
      ==> LoadImage(m, slot, v) == Fail(InternalError)
  {
  }

  /**
   * After the name: the next 12 stream bytes give the metadata, and the 4
   * bytes after them are copied into a block at the next multiple of 4,
   * where they must read as zero.
   */
  lemma MetadataLayout(m: Mem, name: nat, md: ImageMetadata)
    requires Wf(m) && |m.input| >= 16 && AlignUp(m.cursor, 4) + 4 <= |m.bytes|
    ensures var b := Words(m.input[..12]);
      var at := AlignUp(m.cursor, 4);
      var m1 := Mem(Splice(m.bytes, at, m.input[12..16]), at + 4, m.input[16..]);
      LoadMetadata(m, name, md) ==
        if WordAt(m.input, 12) == 0 then Ok((m1, ImageValue(Some(name), Unpack(md, b[0], b[1], b[2]))))
        else Fail(CorruptedData)
  {
    var buffer := ReadMemoryStep(m, 12).value;
    ReadMemoryGrows(m, 12);
    assert buffer.0.input[..4] == m.input[12..16];
    AllocAligned(buffer.0, 4);
    var at := AlignUp(m.cursor, 4);
    var m1 := Mem(Splice(m.bytes, at, m.input[12..16]), at + 4, m.input[16..]);
    assert ReadSharedMemoryStep(buffer.0, 4, 4) == Ok((m1, at));
    assert m1.bytes[at..at + 4] == m.input[12..16];
    assert WordAt(m1.bytes, at) == WordAt(m.input, 12);
  }

  /**
   * A FOLLOWING image with an encoded name (neither MISSING nor FOLLOWING)
   * reads the 36-byte record and no string: the name is what GetPointer
   * decodes from word 8, and the metadata follows the record directly.
   */
  lemma EncodedNameLayout(m: Mem, slot: nat, v: ImageValue)
    requires Wf(m) && slot + 4 <= |m.bytes| && WordAt(m.bytes, slot) == ADDRESS_FOLLOWING
    requires |m.input| >= SIZE_IMAGE && WordAt(m.input, 32) != ADDRESS_FOLLOWING
    requires WordAt(m.input, 32) != ADDRESS_MISSING
    ensures var p := GetPointer(|m.bytes|, WordAt(m.input, 32));
      var after := m.(input := m.input[SIZE_IMAGE..]);
      LoadImage(m, slot, v) == if p.Ok? then LoadMetadata(after, p.value, v.metadata) else Fail(p.error)
  {
    var record := ReadMemoryStep(m, SIZE_IMAGE).value;
    ReadMemoryGrows(m, SIZE_IMAGE);
    assert WordAt(record.1, 32) == WordAt(m.input, 32);
  }

  /** Store is a no-op: nothing below the cursor changes, the handle slot included. */
  lemma LoadKeepsArena(m: Mem, slot: nat, v: ImageValue)
    requires Wf(m) && slot + 4 <= |m.bytes| && LoadImage(m, slot, v).Ok?
    ensures Wf(LoadImage(m, slot, v).value.0)
    ensures Grows(m, LoadImage(m, slot, v).value.0)
  {
    if WordAt(m.bytes, slot) == ADDRESS_MISSING {
      GrowsRefl(m);
    } else {
      var record := ReadMemoryStep(m, SIZE_IMAGE).value;
      ReadMemoryGrows(m, SIZE_IMAGE);
      var named := ResolveString(record.0, WordAt(record.1, 32)).value;
      ResolveStringGrows(record.0, WordAt(record.1, 32));
      MetadataGrows(named.0, named.1, v.metadata);
      GrowsTrans(m, record.0, named.0);
      GrowsTrans(m, named.0, LoadMetadata(named.0, named.1, v.metadata).value.0);
    }
  }

  lemma MetadataGrows(m: Mem, name: nat, md: ImageMetadata)
    requires Wf(m) && LoadMetadata(m, name, md).Ok?
    ensures Wf(LoadMetadata(m, name, md).value.0) && Grows(m, LoadMetadata(m, name, md).value.0)
  {
    var buffer := ReadMemoryStep(m, 12).value;
    ReadMemoryGrows(m, 12);
    ReadSharedMemoryGrows(buffer.0, 4, 4);
    GrowsTrans(m, buffer.0, ReadSharedMemoryStep(buffer.0, 4, 4).value.0);
  }
}
