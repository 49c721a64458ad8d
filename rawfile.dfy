/**
 * The raw file decoder (assets/rawfile.cpp): a name, a data blob and its
 * size.  Store does nothing.
 */
module Rawfiles {
  import opened Errors
  import opened Utility
  import opened AddressCodec
  import opened Memory
  import opened Arenas

  /** SIZE_RAWFILE (docs/types.h:67): three words. */
  const SIZE_RAWFILE: nat := 0x0C

  datatype RawfileValue = RawfileValue(name: Option<nat>, data: Option<nat>, dataSize: int)

  /** The constructor's and Release's values (rawfile.cpp:7-24). */
  const DEFAULT: RawfileValue := RawfileValue(None, None, 0)

  /**
   * `data_s = handler[1] + 1`: the sum is taken on address_t, so it wraps
   * at 2^32, and the result is stored in an int.
   */
  function DataSize(declared: u32): int
  {
    Signed(Low32(declared + 1))
  }

  /**
   * Rawfile::Load (rawfile.cpp:26-81) from the handle slot at `slot`.  The
   * check `handler[1] >= 0` compares an unsigned word and never fails, so it
   * has no counterpart here.
   */
  function LoadRawfile(m: Mem, slot: nat, v: RawfileValue): (r: Result<(Mem, RawfileValue)>)
    requires slot + 4 <= |m.bytes|
    ensures r.Ok? ==> |r.value.0.bytes| == |m.bytes|
  {
    var handle := WordAt(m.bytes, slot);
    :- Check(handle == ADDRESS_MISSING || handle == ADDRESS_FOLLOWING, InternalError);
    if handle == ADDRESS_MISSING then Ok((m, v))
    else
      var record :- ReadMemoryStep(m, SIZE_RAWFILE);
      var h := Words(record.1);
      :- Check(h[0] != ADDRESS_MISSING && h[2] != ADDRESS_MISSING, CorruptedData);
      var named :- ResolveString(record.0, h[0]);
      var size := DataSize(h[1]);
      var data :- LoadData(named.0, h[2], size);
      Ok((data.0, RawfileValue(Some(named.1), Some(data.1), size)))
  }

  /**
   * The data rule (rawfile.cpp:66-77): an encoded handle is decoded, a
   * FOLLOWING one reads data_s bytes into an unaligned shared block.
   */
  function LoadData(m: Mem, handle: u32, size: int): (r: Result<(Mem, nat)>)
    ensures r.Ok? ==> |r.value.0.bytes| == |m.bytes|
  {
    if handle != ADDRESS_FOLLOWING then
      var p :- GetPointer(|m.bytes|, handle);
      Ok((m, p))
    else ReadSharedMemoryStep(m, size, -1)
  }

  class Rawfile {
    var name: Option<nat>
    var data: Option<nat>
    var dataSize: int

    function Value(): RawfileValue
      reads this
    {
      RawfileValue(name, data, dataSize)
    }

    /** Rawfile::Rawfile (rawfile.cpp:7-12). */
    constructor ()
      ensures Value() == DEFAULT
    {
      name, data, dataSize := None, None, 0;
    }

    /** Rawfile::Release (rawfile.cpp:19-24). */
    method Release()
      modifies this
      ensures Value() == DEFAULT
    {
      name, data, dataSize := None, None, 0;
    }

    /**
     * Rawfile::Load (rawfile.cpp:26-81): the record is decoded by Decode
     * and the fields take the result when the load succeeds.
     */
    method Load(arena: Arena, slot: nat) returns (r: Result<()>)
      requires arena.Valid() && slot + 4 <= arena.data.Length
      modifies this, arena, arena.data, arena.stream, arena.stream.buffer
      ensures arena.Valid()
      ensures Agrees(LoadRawfile(old(arena.State()), slot, old(Value())), r, arena.State(), Value())
    {
      var v;
      r, v := Decode(arena, slot, Value());
      if r.Ok? {
        name, data, dataSize := v.name, v.data, v.dataSize;
      }
    }
  }

  /** The body of Rawfile::Load (rawfile.cpp:26-81) on a value of the fields. */
  method Decode(arena: Arena, slot: nat, v0: RawfileValue) returns (r: Result<()>, v: RawfileValue)
    requires arena.Valid() && slot + 4 <= arena.data.Length
    modifies arena, arena.data, arena.stream, arena.stream.buffer
    ensures arena.Valid()
    ensures Agrees(LoadRawfile(old(arena.State()), slot, v0), r, arena.State(), v)
  {
    v := v0;
    var handle := arena.ReadWord(slot);
    if handle != ADDRESS_MISSING && handle != ADDRESS_FOLLOWING {
      return Fail(InternalError), v;
    }
    if handle == ADDRESS_FOLLOWING {
      var record :- arena.ReadMemory(SIZE_RAWFILE);
      var h := Words(record);
      if h[0] == ADDRESS_MISSING || h[2] == ADDRESS_MISSING {
        return Fail(CorruptedData), v;
      }
      var name :- arena.ResolveString(h[0]);
      var size := DataSize(h[1]);
      var data;
      if h[2] != ADDRESS_FOLLOWING {
        data :- GetPointer(arena.data.Length, h[2]);
      } else {
        data :- arena.ReadSharedMemory(size, -1);
      }
      v := RawfileValue(Some(name), Some(data), size);
    }
    r := Ok(());
  }

  // ---------------------------------------------------------------------
  // Properties.

  /**
   * data_s is the declared size plus one taken modulo 2^32 and read as a
   * signed int: below 0x7FFFFFFF it is simply one more than the declared
   * size, 0x7FFFFFFF to 0xFFFFFFFE give negative sizes and 0xFFFFFFFF gives
   * zero.  No declared size is rejected by `handler[1] >= 0`.
   */
  lemma DataSizeWraps(declared: u32)
    ensures declared < 0x7FFF_FFFF ==> DataSize(declared) == declared + 1
    ensures 0x7FFF_FFFF <= declared < 0xFFFF_FFFF ==> DataSize(declared) == declared + 1 - TWO_32
    ensures declared == 0xFFFF_FFFF ==> DataSize(declared) == 0
  {
  }

  /** The handle decides the path: MISSING reads nothing, other encodings are internal errors. */
  lemma HandleRule(m: Mem, slot: nat, v: RawfileValue)
    requires slot + 4 <= |m.bytes|
    ensures WordAt(m.bytes, slot) == ADDRESS_MISSING ==> LoadRawfile(m, slot, v) == Ok((m, v))
    ensures WordAt(m.bytes, slot) != ADDRESS_MISSING && WordAt(m.bytes, slot) != ADDRESS_FOLLOWING
      ==> LoadRawfile(m, slot, v) == Fail(InternalError)
  {
  }

  /**
   * A FOLLOWING raw file reads its 12-byte record; the name and data words
   * must not be MISSING, and data_s is set from the declared size whatever
   * the data handle is.  FOLLOWING data is the next data_s stream bytes,
   * copied verbatim into an unaligned block; data_s must then lie in
   * [1, 0x2000000].  Encoded data is decoded by GetPointer.
   */
  lemma FollowingRecord(m: Mem, slot: nat, v: RawfileValue)
    requires Wf(m) && slot + 4 <= |m.bytes| && WordAt(m.bytes, slot) == ADDRESS_FOLLOWING
    requires LoadRawfile(m, slot, v).Ok?
    ensures |m.input| >= SIZE_RAWFILE
    ensures var h := Words(m.input[..SIZE_RAWFILE]);
      var (m1, r) := LoadRawfile(m, slot, v).value;
      && h[0] != ADDRESS_MISSING && h[2] != ADDRESS_MISSING
      && r.name.Some? && r.data.Some? && r.dataSize == DataSize(h[1])
      && (h[2] == ADDRESS_FOLLOWING ==>
            1 <= r.dataSize <= 0x200_0000 && r.data.value + r.dataSize == m1.cursor <= |m1.bytes|)
      && (h[2] != ADDRESS_FOLLOWING ==> Ok(r.data.value) == GetPointer(|m.bytes|, h[2]))
  {
    var record := ReadMemoryStep(m, SIZE_RAWFILE).value;
    ReadMemoryGrows(m, SIZE_RAWFILE);
    var h := Words(record.1);
    var named := ResolveString(record.0, h[0]).value;
    ResolveStringGrows(record.0, h[0]);
    if h[2] == ADDRESS_FOLLOWING {
      ReadSharedMemoryGrows(named.0, DataSize(h[1]), -1);
    }
  }

  /** With an encoded name, a FOLLOWING raw file is its record followed by its data. */
  lemma EncodedNameLayout(m: Mem, slot: nat, v: RawfileValue)
    requires slot + 4 <= |m.bytes| && WordAt(m.bytes, slot) == ADDRESS_FOLLOWING
    requires |m.input| >= SIZE_RAWFILE
    requires WordAt(m.input, 0) != ADDRESS_MISSING && WordAt(m.input, 0) != ADDRESS_FOLLOWING
    requires WordAt(m.input, 8) != ADDRESS_MISSING
    ensures var p := GetPointer(|m.bytes|, WordAt(m.input, 0));
      var size := DataSize(WordAt(m.input, 4));
      var data := LoadData(m.(input := m.input[SIZE_RAWFILE..]), WordAt(m.input, 8), size);
      LoadRawfile(m, slot, v) ==
        if p.Fail? then Fail(p.error)
        else if data.Fail? then Fail(data.error)
        else Ok((data.value.0, RawfileValue(Some(p.value), Some(data.value.1), size)))
  {
    var record := ReadMemoryStep(m, SIZE_RAWFILE).value;
    assert record.1 == m.input[..SIZE_RAWFILE];
    var h := Words(record.1);
    assert h[0] == WordAt(m.input, 0) && h[1] == WordAt(m.input, 4) && h[2] == WordAt(m.input, 8);
  }

  /**
   * FOLLOWING data is copied verbatim: with an encoded name, the block
   * holds exactly the data_s stream bytes after the record.
   */
  lemma DataVerbatim(m: Mem, slot: nat, v: RawfileValue)
    requires Wf(m) && slot + 4 <= |m.bytes| && WordAt(m.bytes, slot) == ADDRESS_FOLLOWING
    requires |m.input| >= SIZE_RAWFILE
    requires WordAt(m.input, 0) != ADDRESS_MISSING && WordAt(m.input, 0) != ADDRESS_FOLLOWING
    requires WordAt(m.input, 8) == ADDRESS_FOLLOWING
    requires LoadRawfile(m, slot, v).Ok?
    ensures var (m1, r) := LoadRawfile(m, slot, v).value;
      var n := r.dataSize;
      && r.data.Some? && 1 <= n && SIZE_RAWFILE + n <= |m.input|
      && r.data.value + n <= |m1.bytes|
      && m1.bytes[r.data.value..r.data.value + n] == m.input[SIZE_RAWFILE..SIZE_RAWFILE + n]
      && m1.input == m.input[SIZE_RAWFILE + n..]
  {
    EncodedNameLayout(m, slot, v);
    var after := m.(input := m.input[SIZE_RAWFILE..]);
    var size := DataSize(WordAt(m.input, 4));
    var p := GetPointer(|m.bytes|, WordAt(m.input, 0));
    assert p.Ok? && ReadSharedMemoryStep(after, size, -1).Ok?;
    var (m1, at) := ReadSharedMemoryStep(after, size, -1).value;
    assert LoadRawfile(m, slot, v) == Ok((m1, RawfileValue(Some(p.value), Some(at), size)));
    ReadSharedMemoryGrows(after, size, -1);
  }

  /** The name is resolved before the data: a FOLLOWING name's string comes first. */
  lemma NameBeforeData(m: Mem, slot: nat, v: RawfileValue)
    requires Wf(m) && slot + 4 <= |m.bytes| && WordAt(m.bytes, slot) == ADDRESS_FOLLOWING
    requires LoadRawfile(m, slot, v).Ok?
    requires var h := Words(m.input[..SIZE_RAWFILE]);
      h[0] == ADDRESS_FOLLOWING && h[2] == ADDRESS_FOLLOWING
    ensures var (m1, r) := LoadRawfile(m, slot, v).value;
      && r.name.Some? && r.data.Some?
      && m.cursor <= r.name.value < r.data.value < m1.cursor
  {
    var record := ReadMemoryStep(m, SIZE_RAWFILE).value;
    ReadMemoryGrows(m, SIZE_RAWFILE);
    ReadSharedStringGrows(record.0, 64);
    var named := ResolveString(record.0, ADDRESS_FOLLOWING).value;
    ReadSharedMemoryGrows(named.0, DataSize(Words(record.1)[1]), -1);
  }

  /** Store is a no-op: nothing below the cursor changes, the handle slot included. */
  lemma LoadKeepsArena(m: Mem, slot: nat, v: RawfileValue)
    requires Wf(m) && slot + 4 <= |m.bytes| && LoadRawfile(m, slot, v).Ok?
    ensures Wf(LoadRawfile(m, slot, v).value.0)
    ensures Grows(m, LoadRawfile(m, slot, v).value.0)
  {
    if WordAt(m.bytes, slot) == ADDRESS_MISSING {
      GrowsRefl(m);
    } else {
      var record := ReadMemoryStep(m, SIZE_RAWFILE).value;
      ReadMemoryGrows(m, SIZE_RAWFILE);
      var h := Words(record.1);
      var named := ResolveString(record.0, h[0]).value;
      ResolveStringGrows(record.0, h[0]);
      GrowsTrans(m, record.0, named.0);
      if h[2] == ADDRESS_FOLLOWING {
        ReadSharedMemoryGrows(named.0, DataSize(h[1]), -1);
        GrowsTrans(m, named.0, ReadSharedMemoryStep(named.0, DataSize(h[1]), -1).value.0);
      } else {
        GrowsRefl(named.0);
      }
    }
  }
}
