/**
 * The technique set decoder (assets/techset.cpp).
 *
 * A technique set is a 37-word record: the name handle, two reserved zero
 * words and 34 technique handles.  The technique handles are copied into
 * the object's own array and every FOLLOWING one is loaded and rewritten
 * there; the handles inside a technique (state map, two shaders, bindings,
 * name) are rewritten in the arena.  Store does nothing.
 */
module Techsets {
  import opened Errors
  import opened Utility
  import opened AddressCodec
  import opened Memory
  import opened Arenas

  /** MAX_TECHNIQUES (techset.hpp:9). */
  const MAX_TECHNIQUES: nat := 0x22

  /** The record read by Techset::Load: 37 words (techset.cpp:28, 42). */
  const SIZE_TECHSET: nat := 37 * 4

  /** The blocks of a technique (techset.cpp:86, 134, 154, 202). */
  const SIZE_TECHNIQUE: nat := 7 * 4
  const SIZE_STATEMAP: nat := 100
  const SIZE_SHADER: nat := 4 * 4
  const SIZE_EXTENSION: nat := 16

  datatype TechsetValue = TechsetValue(name: Option<nat>, techniques: seq<u32>)

  /**
   * A new Techset.  The constructor (techset.cpp:11-14) sets only the name;
   * the technique handles it leaves uninitialised start at zero here.
   */
  const DEFAULT: TechsetValue := TechsetValue(None, Zeros(MAX_TECHNIQUES))

  /** n zero handles. */
  function Zeros(n: nat): (s: seq<u32>)
    ensures |s| == n && forall k :: 0 <= k < n ==> s[k] == 0
  {
    if n == 0 then [] else Zeros(n - 1) + [0]
  }

  /** Techset::LoadStateMap (techset.cpp:118-137) on the slot at p. */
  function LoadStateMap(m: Mem, p: nat): (r: Result<Mem>)
    requires p + 4 <= |m.bytes|
    ensures r.Ok? ==> |r.value.bytes| == |m.bytes|
  {
    if WordAt(m.bytes, p) == ADDRESS_MISSING then Fail(CorruptedData) else
    FollowMemoryIf(m, p, SIZE_STATEMAP, 4)
  }

  /** `(handler[3] & 0xFFFF) * 4`: the shader's data size in bytes (techset.cpp:175). */
  function ShaderDataSize(w: u32): nat
  {
    And(w, 0xFFFF) * 4
  }

  /** Techset::LoadShader (techset.cpp:139-182) on the slot at p. */
  function LoadShader(m: Mem, p: nat): (r: Result<Mem>)
    requires p + 4 <= |m.bytes|
    ensures r.Ok? ==> |r.value.bytes| == |m.bytes|
  {
    var handle := WordAt(m.bytes, p);
    :- Check(handle != ADDRESS_MISSING, CorruptedData);
    if handle != ADDRESS_FOLLOWING then Ok(m)
    else
      var block :- FollowMemory(m, p, SIZE_SHADER, 4);
      LoadShaderBlock(block.0, block.1)
  }

  /** The four-word shader block at `at`: its checks, its name, then its data (techset.cpp:157-180). */
  function LoadShaderBlock(m: Mem, at: nat): (r: Result<Mem>)
    requires at + SIZE_SHADER <= |m.bytes|
    ensures r.Ok? ==> |r.value.bytes| == |m.bytes|
  {
    if !(WordAt(m.bytes, at) != 0 && WordAt(m.bytes, at + 4) == 0 && WordAt(m.bytes, at + 8) != 0) then Fail(CorruptedData) else
    var named :- FollowStringIf(m, at);
    FollowMemoryIf(named, at + 8, ShaderDataSize(WordAt(named.bytes, at + 12)), 4)
  }

  /**
   * The size of the bindings (techset.cpp:186-189): eight bytes for each
   * unit of bits 0-7, 8-15 and 16-23 of bindInfo.  The shifts act on an
   * int, but masking with 0xFF keeps only bits the sign does not reach,
   * so they are taken on the unsigned word.
   */
  function BindsCount(bindInfo: u32): nat
  {
    And(Shr(bindInfo, 0x10), 0xFF) * 8 + And(Shr(bindInfo, 0x08), 0xFF) * 8 + And(bindInfo, 0xFF) * 8
  }

  /** The bindings take a multiple of eight bytes, at most 8 * 3 * 255 of them. */
  lemma BindsCountShape(bindInfo: u32)
    ensures BindsCount(bindInfo) % 8 == 0 && BindsCount(bindInfo) <= 8 * 3 * 0xFF
    ensures BindsCount(bindInfo) == 0 || BindsCount(bindInfo) >= 8
  {
    var x, y, z := And(Shr(bindInfo, 0x10), 0xFF), And(Shr(bindInfo, 0x08), 0xFF), And(bindInfo, 0xFF);
    AndBounds(Shr(bindInfo, 0x10), 0xFF);
    AndBounds(Shr(bindInfo, 0x08), 0xFF);
    AndBounds(bindInfo, 0xFF);
    SlotsShape(x, y, z);
  }

  lemma SlotsShape(x: nat, y: nat, z: nat)
    requires x <= 0xFF && y <= 0xFF && z <= 0xFF
    ensures (x * 8 + y * 8 + z * 8) % 8 == 0 && x * 8 + y * 8 + z * 8 <= 8 * 3 * 0xFF
    ensures x * 8 + y * 8 + z * 8 == 0 || x * 8 + y * 8 + z * 8 >= 8
  {
    assert x * 8 + y * 8 + z * 8 == 8 * (x + y + z);
  }

  /**
   * Techset::LoadBinds (techset.cpp:184-206) on the slot at p: no MISSING
   * check; a FOLLOWING block may end with a FOLLOWING extension handle,
   * whose 16 unaligned bytes follow.
   */
  function LoadBinds(m: Mem, p: nat, bindInfo: u32): (r: Result<Mem>)
    requires p + 4 <= |m.bytes|
    ensures r.Ok? ==> |r.value.bytes| == |m.bytes|
  {
    BindsCountShape(bindInfo);
    LoadBindsOf(m, p, BindsCount(bindInfo))
  }

  /** LoadBinds once the size is known. */
  function LoadBindsOf(m: Mem, p: nat, count: nat): (r: Result<Mem>)
    requires p + 4 <= |m.bytes| && (count == 0 || count >= 8)
    ensures r.Ok? ==> |r.value.bytes| == |m.bytes|
  {
    if WordAt(m.bytes, p) != ADDRESS_FOLLOWING then Ok(m)
    else
      var binds :- FollowMemory(m, p, count, 4);
      LoadBindsBlock(binds.0, binds.1, count)
  }

  /** The binding table at `at`: its last word is the extension slot. */
  function LoadBindsBlock(m: Mem, at: nat, count: nat): (r: Result<Mem>)
    requires count >= 8 && at + count <= |m.bytes|
    ensures r.Ok? ==> |r.value.bytes| == |m.bytes|
  {
    FollowMemoryIf(m, at + count - 4, SIZE_EXTENSION, -1)
  }

  /**
   * Techset::LoadTechnique (techset.cpp:79-115) on a technique handle t of
   * the object's array: the result is the handle's new value.
   */
  function LoadTechnique(m: Mem, t: u32): (r: Result<(Mem, u32)>)
    ensures r.Ok? ==> |r.value.0.bytes| == |m.bytes|
  {
    if t != ADDRESS_FOLLOWING then Ok((m, t))
    else
      var block :- ReadSharedMemoryStep(m, SIZE_TECHNIQUE, 4);
      var address :- AddressOf(block.0, block.1);
      var parts :- LoadTechniqueBlock(block.0, block.1);
      Ok((parts, address))
  }

  /** The seven-word technique block at `at`: its checks and its dependencies (techset.cpp:89-113). */
  function LoadTechniqueBlock(m: Mem, at: nat): (r: Result<Mem>)
    requires at + SIZE_TECHNIQUE <= |m.bytes|
    ensures r.Ok? ==> |r.value.bytes| == |m.bytes|
  {
    if WordAt(m.bytes, at) == ADDRESS_MISSING then Fail(CorruptedData) else
    :- Check(And(Shr(WordAt(m.bytes, at + 4), 16), 0xFFFF) == 1, CorruptedData);
    var m1 :- LoadStateMap(m, at + 8);
    var m2 :- LoadShader(m1, at + 12);
    var m3 :- LoadShader(m2, at + 16);
    var m4 :- LoadBinds(m3, at + 24, WordAt(m3.bytes, at + 20));
    FollowStringIf(m4, at)
  }

  /** The loop of Techset::Load (techset.cpp:70-73) from technique i on. */
  function LoadTechniques(m: Mem, ts: seq<u32>, i: nat): (r: Result<(Mem, seq<u32>)>)
    requires i <= |ts|
    ensures r.Ok? ==> |r.value.0.bytes| == |m.bytes| && |r.value.1| == |ts|
    decreases |ts| - i
  {
    if i == |ts| then Ok((m, ts))
    else
      var loaded :- LoadTechnique(m, ts[i]);
      LoadTechniques(loaded.0, ts[i := loaded.1], i + 1)
  }

  /**
   * The record of Techset::Load (techset.cpp:41-67): the name's offset and
   * the 34 technique handles.
   */
  function ReadHeader(m: Mem): (r: Result<(Mem, (nat, seq<u32>))>)
    ensures r.Ok? ==> |r.value.1.1| == MAX_TECHNIQUES && |r.value.0.bytes| == |m.bytes|
  {
    var record :- ReadMemoryStep(m, SIZE_TECHSET);
    var h := Words(record.1);
    :- Check(h[0] != ADDRESS_MISSING, CorruptedData);
    :- Check(h[1] == 0 && h[2] == 0, CorruptedData);
    var named :- ResolveString(record.0, h[0]);
    Ok((named.0, (named.1, h[3..3 + MAX_TECHNIQUES])))
  }

  /** Techset::Load (techset.cpp:26-77) from the handle slot at `slot`. */
  function LoadTechset(m: Mem, slot: nat, v: TechsetValue): (r: Result<(Mem, TechsetValue)>)
    requires slot + 4 <= |m.bytes|
    ensures r.Ok? ==> |r.value.0.bytes| == |m.bytes|
  {
    var handle := WordAt(m.bytes, slot);
    :- Check(handle == ADDRESS_MISSING || handle == ADDRESS_FOLLOWING, InternalError);
    if handle == ADDRESS_MISSING then Ok((m, v))
    else
      var header :- ReadHeader(m);
      var loaded :- LoadTechniques(header.0, header.1.1, 0);
      Ok((loaded.0, TechsetValue(Some(header.1.0), loaded.1)))
  }

  class Techset {
    var name: Option<nat>
    const techniques: array<u32>

    ghost predicate Valid()
      reads this
    {
      techniques.Length == MAX_TECHNIQUES
    }

    function Value(): TechsetValue
      reads this, techniques
    {
      TechsetValue(name, techniques[..])
    }

    /** Techset::Techset (techset.cpp:11-14): only the name is set. */
    constructor ()
      ensures Valid() && fresh(techniques) && Value() == DEFAULT
    {
      name := None;
      techniques := new u32[MAX_TECHNIQUES](_ => 0);
    }

    /** Techset::Release (techset.cpp:21-24): the technique handles are kept. */
    method Release()
      modifies this
      ensures Value() == old(Value()).(name := None)
    {
      name := None;
    }

    /**
     * Techset::Load (techset.cpp:26-77): the technique handles are copied
     * into the array and loaded there one by one.
     */
    method Load(arena: Arena, slot: nat) returns (r: Result<()>)
      requires Valid() && arena.Valid() && slot + 4 <= arena.data.Length
      modifies this, techniques, arena, arena.data, arena.stream, arena.stream.buffer
      ensures arena.Valid()
      ensures Agrees(LoadTechset(old(arena.State()), slot, old(Value())), r, arena.State(), Value())
    {
      var handle := arena.ReadWord(slot);
      if handle != ADDRESS_MISSING && handle != ADDRESS_FOLLOWING {
        return Fail(InternalError);
      }
      if handle == ADDRESS_FOLLOWING {
        var header :- DecodeHeader(arena);
        name := Some(header.0);
        ghost var m1 := arena.State();
        forall k | 0 <= k < MAX_TECHNIQUES {
          techniques[k] := header.1[k];
        }
        assert techniques[..] == header.1;
        var i := 0;
        while i < MAX_TECHNIQUES
          invariant 0 <= i <= MAX_TECHNIQUES && arena.Valid() && name == Some(header.0)
          invariant LoadTechniques(m1, header.1, 0) == LoadTechniques(arena.State(), techniques[..], i)
        {
          var t :- DecodeTechnique(arena, techniques[i]);
          techniques[i] := t;
          i := i + 1;
        }
      }
      r := Ok(());
    }
  }

  /** The record of Techset::Load (techset.cpp:41-63). */
  method DecodeHeader(arena: Arena) returns (r: Result<(nat, seq<u32>)>)
    requires arena.Valid()
    modifies arena, arena.data, arena.stream, arena.stream.buffer
    ensures arena.Valid()
    ensures AgreesValue(ReadHeader(old(arena.State())), r, arena.State())
  {
    var record :- arena.ReadMemory(SIZE_TECHSET);
    var h := Words(record);
    if h[0] == ADDRESS_MISSING || !(h[1] == 0 && h[2] == 0) {
      return Fail(CorruptedData);
    }
    var n :- arena.ResolveString(h[0]);
    r := Ok((n, h[3..3 + MAX_TECHNIQUES]));
  }

  /** Techset::LoadTechnique (techset.cpp:79-115). */
  method DecodeTechnique(arena: Arena, t: u32) returns (r: Result<u32>)
    requires arena.Valid()
    modifies arena, arena.data, arena.stream, arena.stream.buffer
    ensures arena.Valid()
    ensures AgreesValue(LoadTechnique(old(arena.State()), t), r, arena.State())
  {
    if t != ADDRESS_FOLLOWING {
      return Ok(t);
    }
    var at :- arena.ReadSharedMemory(SIZE_TECHNIQUE, 4);
    // The block lies inside the arena, so GetAddress cannot throw here.
    var address := GetAddress(arena.data.Length, arena.current, 4, Some(at)).value;
    var _ :- DecodeTechniqueBlock(arena, at);
    r := Ok(address);
  }

  /** The technique block's checks and dependencies (techset.cpp:89-113). */
  method DecodeTechniqueBlock(arena: Arena, at: nat) returns (r: Result<()>)
    requires arena.Valid() && at + SIZE_TECHNIQUE <= arena.data.Length
    modifies arena, arena.data, arena.stream, arena.stream.buffer
    ensures arena.Valid()
    ensures AgreesState(LoadTechniqueBlock(old(arena.State()), at), r, arena.State())
  {
    hide LoadStateMap, LoadShader, LoadBinds, FollowStringIf, And, Shr;
    var w0 := arena.ReadWord(at);
    var w1 := arena.ReadWord(at + 4);
    if w0 == ADDRESS_MISSING || And(Shr(w1, 16), 0xFFFF) != 1 {
      return Fail(CorruptedData);
    }
    var _ :- DecodeStateMap(arena, at + 8);
    var _ :- DecodeShader(arena, at + 12);
    var _ :- DecodeShader(arena, at + 16);
    var bindInfo := arena.ReadWord(at + 20);
    var _ :- DecodeBinds(arena, at + 24, bindInfo);
    r := arena.FollowStringIf(at);
  }

  /** Techset::LoadStateMap (techset.cpp:118-137). */
  method DecodeStateMap(arena: Arena, p: nat) returns (r: Result<()>)
    requires arena.Valid() && p + 4 <= arena.data.Length
    modifies arena, arena.data, arena.stream, arena.stream.buffer
    ensures arena.Valid()
    ensures AgreesState(LoadStateMap(old(arena.State()), p), r, arena.State())
  {
    var handle := arena.ReadWord(p);
    if handle == ADDRESS_MISSING {
      return Fail(CorruptedData);
    }
    r := arena.FollowMemoryIf(p, SIZE_STATEMAP, 4);
  }

  /** Techset::LoadShader (techset.cpp:139-182). */
  method DecodeShader(arena: Arena, p: nat) returns (r: Result<()>)
    requires arena.Valid() && p + 4 <= arena.data.Length
    modifies arena, arena.data, arena.stream, arena.stream.buffer
    ensures arena.Valid()
    ensures AgreesState(LoadShader(old(arena.State()), p), r, arena.State())
  {
    var handle := arena.ReadWord(p);
    if handle == ADDRESS_MISSING {
      return Fail(CorruptedData);
    }
    if handle != ADDRESS_FOLLOWING {
      return Ok(());
    }
    var at :- arena.FollowMemory(p, SIZE_SHADER, 4);
    r := DecodeShaderBlock(arena, at);
  }

  /** The shader block's checks, name and data (techset.cpp:157-180). */
  method DecodeShaderBlock(arena: Arena, at: nat) returns (r: Result<()>)
    requires arena.Valid() && at + SIZE_SHADER <= arena.data.Length
    modifies arena, arena.data, arena.stream, arena.stream.buffer
    ensures arena.Valid()
    ensures AgreesState(LoadShaderBlock(old(arena.State()), at), r, arena.State())
  {
    var w0 := arena.ReadWord(at);
    var w1 := arena.ReadWord(at + 4);
    var w2 := arena.ReadWord(at + 8);
    if !(w0 != 0 && w1 == 0 && w2 != 0) {
      return Fail(CorruptedData);
    }
    var _ :- arena.FollowStringIf(at);
    var w3 := arena.ReadWord(at + 12);
    r := arena.FollowMemoryIf(at + 8, ShaderDataSize(w3), 4);
  }

  /** Techset::LoadBinds (techset.cpp:184-206). */
  method DecodeBinds(arena: Arena, p: nat, bindInfo: u32) returns (r: Result<()>)
    requires arena.Valid() && p + 4 <= arena.data.Length
    modifies arena, arena.data, arena.stream, arena.stream.buffer
    ensures arena.Valid()
    ensures AgreesState(LoadBinds(old(arena.State()), p, bindInfo), r, arena.State())
  {
    var count := BindsCount(bindInfo);
    BindsCountShape(bindInfo);
    r := DecodeBindsOf(arena, p, count);
  }

  /** LoadBindsOf on the arena. */
  method DecodeBindsOf(arena: Arena, p: nat, count: nat) returns (r: Result<()>)
    requires arena.Valid() && p + 4 <= arena.data.Length && (count == 0 || count >= 8)
    modifies arena, arena.data, arena.stream, arena.stream.buffer
    ensures arena.Valid()
    ensures AgreesState(LoadBindsOf(old(arena.State()), p, count), r, arena.State())
  {
    var handle := arena.ReadWord(p);
    if handle != ADDRESS_FOLLOWING {
      return Ok(());
    }
    var at :- arena.FollowMemory(p, count, 4);
    r := DecodeBindsBlock(arena, at, count);
  }

  /** LoadBindsBlock on the arena. */
  method DecodeBindsBlock(arena: Arena, at: nat, count: nat) returns (r: Result<()>)
    requires arena.Valid() && count >= 8 && at + count <= arena.data.Length
    modifies arena, arena.data, arena.stream, arena.stream.buffer
    ensures arena.Valid()
    ensures AgreesState(LoadBindsBlock(old(arena.State()), at, count), r, arena.State())
  {
    r := arena.FollowMemoryIf(at + count - 4, SIZE_EXTENSION, -1);
  }


  // ---------------------------------------------------------------------
  // Properties.

  /** The handle decides the path: MISSING reads nothing, other encodings are internal errors. */
  lemma HandleRule(m: Mem, slot: nat, v: TechsetValue)
    requires slot + 4 <= |m.bytes|
    ensures WordAt(m.bytes, slot) == ADDRESS_MISSING ==> LoadTechset(m, slot, v) == Ok((m, v))
    ensures WordAt(m.bytes, slot) != ADDRESS_MISSING && WordAt(m.bytes, slot) != ADDRESS_FOLLOWING
      ==> LoadTechset(m, slot, v) == Fail(InternalError)
  {
  }

  /**
   * A loaded technique's new handle is the encoded address of its
   * seven-word block, which GetPointer decodes back to the block.
   */
  lemma TechniqueEncoded(m: Mem, t: u32)
    requires |m.bytes| <= MAX_DATA_SIZE && LoadTechnique(m, t).Ok?
    ensures Resolved(|m.bytes|, t, LoadTechnique(m, t).value.1)
    ensures t == ADDRESS_FOLLOWING ==>
      GetPointer(|m.bytes|, LoadTechnique(m, t).value.1) == Ok(ReadSharedMemoryStep(m, SIZE_TECHNIQUE, 4).value.1)
  {
    if t == ADDRESS_FOLLOWING {
      var block := ReadSharedMemoryStep(m, SIZE_TECHNIQUE, 4).value;
      assert LoadTechnique(m, t).value.1 == AddressOf(block.0, block.1).value;
      GetAddressEncodes(|block.0.bytes|, block.0.cursor, Some(block.1));
      GetPointerOfGetAddress(|block.0.bytes|, block.0.cursor, Some(block.1));
    }
  }

  /**
   * The loop from technique i on keeps the handles before i and resolves
   * every handle from i on.
   */
  lemma {:induction false} TechniquesResolved(m: Mem, ts: seq<u32>, i: nat)
    requires i <= |ts| && |m.bytes| <= MAX_DATA_SIZE && LoadTechniques(m, ts, i).Ok?
    ensures var out := LoadTechniques(m, ts, i).value.1;
      && (forall j :: 0 <= j < i ==> out[j] == ts[j])
      && (forall j :: i <= j < |ts| ==> Resolved(|m.bytes|, ts[j], out[j]))
    decreases |ts| - i
  {
    if i < |ts| {
      var loaded := LoadTechnique(m, ts[i]).value;
      TechniqueEncoded(m, ts[i]);
      TechniquesResolved(loaded.0, ts[i := loaded.1], i + 1);
    }
  }

  /**
   * A FOLLOWING technique set reads its 148-byte record: the name word is
   * not MISSING, the two reserved words are zero, and each of the 34
   * technique words that follow is resolved into the object's array.
   */
  lemma FollowingTechset(m: Mem, slot: nat, v: TechsetValue)
    requires slot + 4 <= |m.bytes| && |m.bytes| <= MAX_DATA_SIZE
    requires WordAt(m.bytes, slot) == ADDRESS_FOLLOWING && LoadTechset(m, slot, v).Ok?
    ensures |m.input| >= SIZE_TECHSET
    ensures WordAt(m.input, 0) != ADDRESS_MISSING && WordAt(m.input, 4) == 0 && WordAt(m.input, 8) == 0
    ensures var r := LoadTechset(m, slot, v).value.1;
      && r.name.Some? && |r.techniques| == MAX_TECHNIQUES
      && forall j :: 0 <= j < MAX_TECHNIQUES ==> Resolved(|m.bytes|, WordAt(m.input, 12 + 4 * j), r.techniques[j])
  {
    var header := ReadHeader(m).value;
    HeaderLayout(m);
    TechniquesResolved(header.0, header.1.1, 0);
  }

  /** The record's words as ReadHeader checks and returns them. */
  lemma HeaderLayout(m: Mem)
    requires ReadHeader(m).Ok?
    ensures |m.input| >= SIZE_TECHSET
    ensures WordAt(m.input, 0) != ADDRESS_MISSING && WordAt(m.input, 4) == 0 && WordAt(m.input, 8) == 0
    ensures forall j :: 0 <= j < MAX_TECHNIQUES ==> ReadHeader(m).value.1.1[j] == WordAt(m.input, 12 + 4 * j)
  {
    var record := ReadMemoryStep(m, SIZE_TECHSET).value;
    var h := Words(record.1);
    assert record.1 == m.input[..SIZE_TECHSET];
    assert h[0] == WordAt(m.input, 0) && h[1] == WordAt(m.input, 4) && h[2] == WordAt(m.input, 8);
    forall j | 0 <= j < MAX_TECHNIQUES
      ensures ReadHeader(m).value.1.1[j] == WordAt(m.input, 12 + 4 * j)
    {
      assert ReadHeader(m).value.1.1[j] == h[3 + j];
    }
  }

  /**
   * The slot rules inside a technique (techset.cpp:118-206): a MISSING
   * state map or shader is corrupt data, while the bindings have no such
   * check; an encoded handle of any of the three reads nothing and keeps
   * the arena as it is.
   */
  lemma SlotRules(m: Mem, p: nat, bindInfo: u32)
    requires p + 4 <= |m.bytes|
    ensures WordAt(m.bytes, p) == ADDRESS_MISSING ==>
      && LoadStateMap(m, p) == Fail(CorruptedData)
      && LoadShader(m, p) == Fail(CorruptedData)
      && LoadBinds(m, p, bindInfo) == Ok(m)
    ensures WordAt(m.bytes, p) != ADDRESS_MISSING && WordAt(m.bytes, p) != ADDRESS_FOLLOWING ==>
      && LoadStateMap(m, p) == Ok(m)
      && LoadShader(m, p) == Ok(m)
      && LoadBinds(m, p, bindInfo) == Ok(m)
  {
  }

  /**
   * The checks of a technique block (techset.cpp:89-99): its name word is
   * not MISSING, the upper half of word 1 is 1, and its state map word is
   * not MISSING.
   */
  lemma TechniqueChecks(m: Mem, at: nat)
    requires at + SIZE_TECHNIQUE <= |m.bytes| && LoadTechniqueBlock(m, at).Ok?
    ensures WordAt(m.bytes, at) != ADDRESS_MISSING
    ensures WordAt(m.bytes, at + 4) / 0x1_0000 == 1
    ensures WordAt(m.bytes, at + 8) != ADDRESS_MISSING
  {
    HalfWords(WordAt(m.bytes, at + 4));
  }

  /**
   * The checks of a shader block (techset.cpp:157-162), and the size of
   * its data: four bytes for each unit of the low half of word 3.
   */
  lemma ShaderChecks(m: Mem, at: nat)
    requires at + SIZE_SHADER <= |m.bytes| && LoadShaderBlock(m, at).Ok?
    ensures WordAt(m.bytes, at) != 0 && WordAt(m.bytes, at + 4) == 0 && WordAt(m.bytes, at + 8) != 0
    ensures forall w: u32 :: ShaderDataSize(w) == (w % 0x1_0000) * 4
  {
    forall w: u32 ensures ShaderDataSize(w) == (w % 0x1_0000) * 4 {
      HalfWords(w);
    }
  }

  /**
   * A FOLLOWING binding block is read only when bindInfo gives it a size:
   * ReadSharedMemory rejects a zero size.
   */
  lemma BindsFollowing(m: Mem, p: nat, bindInfo: u32)
    requires p + 4 <= |m.bytes| && WordAt(m.bytes, p) == ADDRESS_FOLLOWING
    ensures BindsCount(bindInfo) == 0 ==> LoadBinds(m, p, bindInfo) == Fail(SingleAllocationTooLarge)
    ensures LoadBinds(m, p, bindInfo).Ok? ==> BindsCount(bindInfo) >= 8
  {
    BindsCountShape(bindInfo);
  }

  // LOAD ORDER.  Every dependency is read at or after the cursor, so the
  // words of a block already in the arena stay as they are, the one slot
  // being rewritten aside.

  /** Two four-byte words that do not overlap. */
  predicate Apart(p: nat, q: nat)
  {
    q + 4 <= p || p + 4 <= q
  }

  lemma StateMapKeeps(m: Mem, p: nat, q: nat)
    requires Wf(m) && p + 4 <= |m.bytes| && LoadStateMap(m, p).Ok?
    requires q + 4 <= m.cursor && Apart(p, q)
    ensures var m1 := LoadStateMap(m, p).value;
      Wf(m1) && m.cursor <= m1.cursor && WordAt(m1.bytes, q) == WordAt(m.bytes, q)
  {
    FollowMemoryIfKeeps(m, p, SIZE_STATEMAP, 4, q);
  }

  lemma ShaderBlockKeeps(m: Mem, at: nat, q: nat)
    requires Wf(m) && at + SIZE_SHADER <= |m.bytes| && LoadShaderBlock(m, at).Ok?
    requires q + 4 <= m.cursor && Apart(at, q) && Apart(at + 8, q)
    ensures var m1 := LoadShaderBlock(m, at).value;
      Wf(m1) && m.cursor <= m1.cursor && WordAt(m1.bytes, q) == WordAt(m.bytes, q)
  {
    FollowStringIfKeeps(m, at, q);
    var named := FollowStringIf(m, at).value;
    FollowMemoryIfKeeps(named, at + 8, ShaderDataSize(WordAt(named.bytes, at + 12)), 4, q);
  }

  lemma ShaderKeeps(m: Mem, p: nat, q: nat)
    requires Wf(m) && p + 4 <= |m.bytes| && LoadShader(m, p).Ok?
    requires q + 4 <= m.cursor && Apart(p, q)
    ensures var m1 := LoadShader(m, p).value;
      Wf(m1) && m.cursor <= m1.cursor && WordAt(m1.bytes, q) == WordAt(m.bytes, q)
  {
    if WordAt(m.bytes, p) == ADDRESS_FOLLOWING {
      FollowMemoryKeeps(m, p, SIZE_SHADER, 4, q);
      FollowMemoryRewrites(m, p, SIZE_SHADER, 4);
      var (block, at) := FollowMemory(m, p, SIZE_SHADER, 4).value;
      ShaderBlockKeeps(block, at, q);
    }
  }

  lemma BindsOfKeeps(m: Mem, p: nat, count: nat, q: nat)
    requires Wf(m) && p + 4 <= |m.bytes| && (count == 0 || count >= 8) && LoadBindsOf(m, p, count).Ok?
    requires q + 4 <= m.cursor && Apart(p, q)
    ensures var m1 := LoadBindsOf(m, p, count).value;
      Wf(m1) && m.cursor <= m1.cursor && WordAt(m1.bytes, q) == WordAt(m.bytes, q)
  {
    if WordAt(m.bytes, p) == ADDRESS_FOLLOWING {
      FollowMemoryKeeps(m, p, count, 4, q);
      FollowMemoryRewrites(m, p, count, 4);
      var (binds, at) := FollowMemory(m, p, count, 4).value;
      hide FollowMemory, LoadBindsBlock;
      BindsBlockKeeps(binds, at, count, q);
    }
  }

  lemma BindsBlockKeeps(m: Mem, at: nat, count: nat, q: nat)
    requires Wf(m) && count >= 8 && at + count <= |m.bytes| && LoadBindsBlock(m, at, count).Ok?
    requires q + 4 <= m.cursor && q + 4 <= at
    ensures var m1 := LoadBindsBlock(m, at, count).value;
      Wf(m1) && m.cursor <= m1.cursor && WordAt(m1.bytes, q) == WordAt(m.bytes, q)
  {
    FollowMemoryIfKeeps(m, at + count - 4, SIZE_EXTENSION, -1, q);
  }

  lemma BindsKeeps(m: Mem, p: nat, bindInfo: u32, q: nat)
    requires Wf(m) && p + 4 <= |m.bytes| && LoadBinds(m, p, bindInfo).Ok?
    requires q + 4 <= m.cursor && Apart(p, q)
    ensures var m1 := LoadBinds(m, p, bindInfo).value;
      Wf(m1) && m.cursor <= m1.cursor && WordAt(m1.bytes, q) == WordAt(m.bytes, q)
  {
    BindsCountShape(bindInfo);
    hide BindsCount, LoadBindsOf;
    BindsOfKeeps(m, p, BindsCount(bindInfo), q);
  }

  /**
   * Inside a shader the name comes before the data (techset.cpp:164-180):
   * a FOLLOWING name is the string at the old cursor, and a FOLLOWING data
   * block of (word 3 & 0xFFFF) * 4 bytes is placed after it and ends at
   * the new cursor.
   */
  lemma ShaderNameBeforeData(m: Mem, at: nat)
    requires Wf(m) && at + SIZE_SHADER <= m.cursor && LoadShaderBlock(m, at).Ok?
    ensures var m1 := LoadShaderBlock(m, at).value;
      var name := GetPointer(|m1.bytes|, WordAt(m1.bytes, at));
      var data := GetPointer(|m1.bytes|, WordAt(m1.bytes, at + 8));
      && (WordAt(m.bytes, at) == ADDRESS_FOLLOWING ==> name == Ok(m.cursor))
      && (WordAt(m.bytes, at + 8) == ADDRESS_FOLLOWING ==>
            && data.Ok? && m.cursor <= data.value
            && data.value + ShaderDataSize(WordAt(m.bytes, at + 12)) == m1.cursor
            && (WordAt(m.bytes, at) == ADDRESS_FOLLOWING ==> m.cursor < data.value))
  {
    FollowStringIfKeeps(m, at, at + 8);
    FollowStringIfKeeps(m, at, at + 12);
    var named := FollowStringIf(m, at).value;
    if WordAt(m.bytes, at) == ADDRESS_FOLLOWING {
      FollowStringRewrites(m, at);
    }
    var size := ShaderDataSize(WordAt(named.bytes, at + 12));
    if WordAt(m.bytes, at + 8) == ADDRESS_FOLLOWING {
      FollowMemoryRewrites(named, at + 8, size, 4);
      FollowMemoryKeeps(named, at + 8, size, 4, at);
    }
  }

  /**
   * Inside a technique the dependencies are read in the order state map,
   * vertex shader, pixel shader, bindings, each from the cursor the one
   * before left, and the name last (techset.cpp:102-113): a FOLLOWING name
   * is the string at the cursor the bindings leave.
   */
  lemma TechniqueNameLast(m: Mem, at: nat)
    requires Wf(m) && at + SIZE_TECHNIQUE <= m.cursor && LoadTechniqueBlock(m, at).Ok?
    ensures var r1 := LoadStateMap(m, at + 8);
      r1.Ok? && m.cursor <= r1.value.cursor &&
      var r2 := LoadShader(r1.value, at + 12);
      r2.Ok? && r1.value.cursor <= r2.value.cursor &&
      var r3 := LoadShader(r2.value, at + 16);
      r3.Ok? && r2.value.cursor <= r3.value.cursor &&
      var r4 := LoadBinds(r3.value, at + 24, WordAt(r3.value.bytes, at + 20));
      r4.Ok? && r3.value.cursor <= r4.value.cursor &&
      var m1 := LoadTechniqueBlock(m, at).value;
      && (WordAt(m.bytes, at) == ADDRESS_FOLLOWING ==>
            GetPointer(|m1.bytes|, WordAt(m1.bytes, at)) == Ok(r4.value.cursor) && r4.value.cursor < m1.cursor)
      && (WordAt(m.bytes, at) != ADDRESS_FOLLOWING ==> m1 == r4.value)
  {
    var m1 := LoadStateMap(m, at + 8).value;
    StateMapKeeps(m, at + 8, at);
    var m2 := LoadShader(m1, at + 12).value;
    ShaderKeeps(m1, at + 12, at);
    var m3 := LoadShader(m2, at + 16).value;
    ShaderKeeps(m2, at + 16, at);
    var m4 := LoadBinds(m3, at + 24, WordAt(m3.bytes, at + 20)).value;
    BindsKeeps(m3, at + 24, WordAt(m3.bytes, at + 20), at);
    if WordAt(m.bytes, at) == ADDRESS_FOLLOWING {
      FollowStringRewrites(m4, at);
    }
  }
}
