/**
 * The arena of a FastFile (fastfile.cpp:171-431): the zero-filled data
 * buffer of the declared data size, the forward cursor `current`, and the
 * decompressed stream the shared reads draw from.  Pointers into the arena
 * are offsets into `data`.
 *
 * Every method is proved to agree with the corresponding step of `Memory`
 * on the abstract state `State()`; the ghost field `mem` mirrors the bytes
 * of `data`.
 */
module Arenas {
  import opened Errors
  import opened Utility
  import opened Streams
  import opened AddressCodec
  import opened Memory

  class Arena {
    const data: array<byte>
    var current: nat
    const stream: Stream
    /** The bytes of `data`, as a value. */
    ghost var mem: seq<byte>

    ghost predicate Valid()
      reads this, data, stream, stream.buffer
    {
      && stream.Valid() && data != stream.buffer
      && |mem| == data.Length && current <= data.Length <= MAX_DATA_SIZE
      && (forall i :: 0 <= i < data.Length ==> data[i] == mem[i])
    }

    /** What the asset decoders can observe. */
    ghost function State(): (m: Mem)
      reads this, stream
      ensures m.bytes == mem && m.cursor == current && m.input == stream.pending
    {
      Mem(mem, current, stream.pending)
    }

    /**
     * The allocation in LoadHeader (fastfile.cpp:508-513): `calloc(data_s, 1)`
     * gives a zero-filled buffer and the cursor starts at its beginning.
     */
    constructor (stream: Stream, size: nat)
      requires stream.Valid() && size <= MAX_DATA_SIZE
      ensures Valid() && fresh(data)
      ensures this.stream == stream && data.Length == size && current == 0
      ensures mem == Zeroed(size)
    {
      data := new byte[size](_ => 0);
      current := 0;
      this.stream := stream;
      mem := Zeroed(size);
    }

    /** Copies `s` into the arena at offset `at`. */
    method Place(at: nat, s: seq<byte>)
      requires Valid() && at + |s| <= data.Length
      modifies this, data
      ensures Valid() && current == old(current)
      ensures mem == Splice(old(mem), at, s)
    {
      forall i | 0 <= i < |s| {
        data[at + i] := s[i];
      }
      mem := Splice(mem, at, s);
    }

    /** Reads the little-endian word at offset p. */
    method ReadWord(p: nat) returns (w: u32)
      requires Valid() && p + 4 <= data.Length
      ensures w == WordAt(mem, p)
    {
      w := (data[p] as int) + 0x100 * (data[p + 1] as int) + 0x1_0000 * (data[p + 2] as int) + 0x100_0000 * (data[p + 3] as int);
    }

    /** `*handle = w` for a handle slot at offset p. */
    method WriteWord(p: nat, w: u32)
      requires Valid() && p + 4 <= data.Length
      modifies this, data
      ensures Valid() && State() == WriteWordStep(old(State()), p, w)
    {
      Place(p, WordBytes(w));
    }

    /** Align (fastfile.cpp:249-263). */
    method Align(alignment: int) returns (r: Result<()>)
      requires Valid()
      modifies this
      ensures Valid()
      ensures AgreesValue(AlignStep(old(State()), alignment), r, State())
    {
      if alignment % 4 != 0 {
        return Fail(InvalidAlignment);
      }
      var c := AlignUp(current, alignment);
      if c > data.Length {
        return Fail(BeyondMemoryBoundary);
      }
      current := c;
      r := Ok(());
    }

    /** Alloc (fastfile.cpp:271-296). */
    method Alloc(size: int, alignment: int) returns (r: Result<nat>)
      requires Valid()
      modifies this
      ensures Valid()
      ensures AgreesValue(AllocStep(old(State()), size, alignment), r, State())
    {
      if size <= 0 {
        return Fail(InvalidAllocationSize);
      }
      if alignment != -1 {
        var _ :- Align(alignment);
      }
      if current + size > data.Length {
        return Fail(BeyondMemoryBoundary);
      }
      r := Ok(current);
      current := current + size;
    }

    /** FastFile::ReadMemory (fastfile.cpp:303-321): the bytes land in a local buffer. */
    method ReadMemory(size: int) returns (r: Result<seq<byte>>)
      requires Valid()
      modifies stream, stream.buffer
      ensures Valid()
      ensures AgreesValue(ReadMemoryStep(old(State()), size), r, State())
    {
      if size <= 0 {
        return Fail(InvalidParameter);
      }
      r := stream.ReadMemory(size);
    }

    /** FastFile::ReadString (fastfile.cpp:358-376): the string lands in a local buffer. */
    method ReadString(max: int) returns (r: Result<seq<byte>>)
      requires Valid()
      modifies stream, stream.buffer
      ensures Valid()
      ensures AgreesValue(ReadStringStep(old(State()), max), r, State())
    {
      if max <= 0 {
        return Fail(InvalidParameter);
      }
      r := stream.ReadString(max);
    }

    /** ReadSharedMemory (fastfile.cpp:329-351). */
    method ReadSharedMemory(size: int, alignment: int) returns (r: Result<nat>)
      requires Valid()
      modifies this, data, stream, stream.buffer
      ensures Valid()
      ensures AgreesValue(ReadSharedMemoryStep(old(State()), size, alignment), r, State())
    {
      if !(1 <= size <= 0x200_0000) {
        return Fail(SingleAllocationTooLarge);
      }
      var at :- Alloc(size, alignment);
      var s :- stream.ReadMemory(size);
      Place(at, s);
      r := Ok(at);
    }

    /** ReadSharedString (fastfile.cpp:383-411). */
    method ReadSharedString(max: int, alignment: int) returns (r: Result<nat>)
      requires Valid()
      modifies this, data, stream, stream.buffer
      ensures Valid()
      ensures AgreesValue(ReadSharedStringStep(old(State()), max, alignment), r, State())
    {
      if !(1 <= max <= 256) {
        return Fail(MaxStringSizeOutOfRange);
      }
      var s :- stream.ReadString(max);
      var at :- Alloc(|s|, alignment);
      Place(at, s);
      r := Ok(at);
    }

    /** AllocSharedMemory (fastfile.cpp:413-431). */
    method AllocSharedMemory(size: int, alignment: int) returns (r: Result<nat>)
      requires Valid()
      modifies this
      ensures Valid()
      ensures AgreesValue(AllocSharedMemoryStep(old(State()), size, alignment), r, State())
    {
      if size <= 0 {
        return Fail(InvalidAllocationSize);
      }
      r := Alloc(size, alignment);
    }

    /**
     * `*handle = GetAddress(4, ReadSharedMemory(size, alignment))` for a
     * handle slot at offset p: the block follows in the stream and the
     * slot is rewritten to its address.
     */
    method FollowMemory(p: nat, size: int, alignment: int) returns (r: Result<nat>)
      requires Valid() && p + 4 <= data.Length
      modifies this, data, stream, stream.buffer
      ensures Valid()
      ensures AgreesValue(Memory.FollowMemory(old(State()), p, size, alignment), r, State())
    {
      var at :- ReadSharedMemory(size, alignment);
      var address :- GetAddress(data.Length, current, 4, Some(at));
      WriteWord(p, address);
      r := Ok(at);
    }

    /** The same for a string: `*handle = GetAddress(4, ReadSharedString(64))`. */
    method FollowString(p: nat) returns (r: Result<nat>)
      requires Valid() && p + 4 <= data.Length
      modifies this, data, stream, stream.buffer
      ensures Valid()
      ensures AgreesValue(Memory.FollowString(old(State()), p), r, State())
    {
      var at :- ReadSharedString(64, -1);
      var address :- GetAddress(data.Length, current, 4, Some(at));
      WriteWord(p, address);
      r := Ok(at);
    }

    /** FollowMemory when the handle at p is FOLLOWING; any other handle is left as it is. */
    method FollowMemoryIf(p: nat, size: int, alignment: int) returns (r: Result<()>)
      requires Valid() && p + 4 <= data.Length
      modifies this, data, stream, stream.buffer
      ensures Valid()
      ensures AgreesState(Memory.FollowMemoryIf(old(State()), p, size, alignment), r, State())
    {
      var handle := ReadWord(p);
      if handle == ADDRESS_FOLLOWING {
        var _ :- FollowMemory(p, size, alignment);
      }
      r := Ok(());
    }

    /** FollowString when the handle at p is FOLLOWING. */
    method FollowStringIf(p: nat) returns (r: Result<()>)
      requires Valid() && p + 4 <= data.Length
      modifies this, data, stream, stream.buffer
      ensures Valid()
      ensures AgreesState(Memory.FollowStringIf(old(State()), p), r, State())
    {
      var handle := ReadWord(p);
      if handle == ADDRESS_FOLLOWING {
        var _ :- FollowString(p);
      }
      r := Ok(());
    }

    /** `stream->ReadMemory(current, size); current += size`: the unchecked index copy. */
    method ReadInPlace(size: nat) returns (r: Result<nat>)
      requires Valid()
      modifies this, data, stream, stream.buffer
      ensures Valid()
      ensures AgreesValue(ReadInPlaceStep(old(State()), size), r, State())
    {
      if current + size > data.Length {
        return Fail(UncheckedWrite);
      }
      var s :- stream.ReadMemory(size);
      Place(current, s);
      r := Ok(current);
      current := current + size;
    }

    /** `stream->ReadString(current, -1); current += strlen(current) + 1`: the unchecked tag copy. */
    method ReadStringInPlace() returns (r: Result<nat>)
      requires Valid()
      modifies this, data, stream, stream.buffer
      ensures Valid()
      ensures AgreesValue(ReadStringInPlaceStep(old(State())), r, State())
    {
      var s :- stream.ReadString(-1);
      if current + |s| > data.Length {
        return Fail(UncheckedWrite);
      }
      Place(current, s);
      r := Ok(current);
      current := current + |s|;
    }

    /** The string rule of the decoders (see Memory.ResolveString). */
    method ResolveString(h: u32) returns (r: Result<nat>)
      requires Valid()
      modifies this, data, stream, stream.buffer
      ensures Valid()
      ensures AgreesValue(Memory.ResolveString(old(State()), h), r, State())
    {
      if h == ADDRESS_FOLLOWING {
        r := ReadSharedString(64, -1);
      } else {
        r := GetPointer(data.Length, h);
      }
    }
  }
}
