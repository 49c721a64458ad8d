/**
 * The physics preset decoder (assets/physpreset.cpp).
 *
 * The 44-byte record is read into a local buffer, not the arena, and Store
 * does nothing, so the handle slot is never rewritten.  The float fields
 * are kept as the raw 32-bit words the loader copies bit for bit.
 */
module PhysPresets {
  import opened Errors
  import opened Utility
  import opened AddressCodec
  import opened Memory
  import opened Arenas

  /** SIZE_PHYSPRESET (docs/types.h:37): 11 words. */
  const SIZE_PHYSPRESET: nat := 0x2C

  datatype PhysPresetValue = PhysPresetValue(
    name: Option<nat>,
    sndAliasPrefix: Option<nat>,
    mass: u32,
    friction: int,
    isFrictionInfinity: bool,
    bounce: u32,
    bulletForceScale: u32,
    explosiveForceScale: u32,
    piecesSpreadFraction: u32,
    piecesUpwardVelocity: u32,
    tempDefaultToCylinder: bool)

  /** The constructor's and Release's values (physpreset.cpp:7-40); 0.0f is the zero word. */
  const DEFAULT: PhysPresetValue :=
    PhysPresetValue(None, None, 0, 0, false, 0, 0, 0, 0, 0, false)

  /** The fields the record's words set (physpreset.cpp:69-77). */
  function Settings(v: PhysPresetValue, h: seq<u32>): PhysPresetValue
    requires |h| == 11
  {
    v.(isFrictionInfinity := h[1] != 0, mass := h[2], bounce := h[3],
       friction := Signed(h[4]), bulletForceScale := h[5], explosiveForceScale := h[6],
       piecesSpreadFraction := h[8], piecesUpwardVelocity := h[9],
       tempDefaultToCylinder := h[10] != 0)
  }

  /** Physpreset::Load (physpreset.cpp:42-110) from the handle slot at `slot`. */
  function LoadPhysPreset(m: Mem, slot: nat, v: PhysPresetValue): (r: Result<(Mem, PhysPresetValue)>)
    requires slot + 4 <= |m.bytes|
    ensures r.Ok? ==> |r.value.0.bytes| == |m.bytes|
  {
    var handle := WordAt(m.bytes, slot);
    :- Check(handle == ADDRESS_MISSING || handle == ADDRESS_FOLLOWING, InternalError);
    if handle == ADDRESS_MISSING then Ok((m, v)) else LoadRecord(m, v)
  }

  /** The FOLLOWING case (physpreset.cpp:58-107): the record, then the strings. */
  function LoadRecord(m: Mem, v: PhysPresetValue): (r: Result<(Mem, PhysPresetValue)>)
    ensures r.Ok? ==> |r.value.0.bytes| == |m.bytes|
  {
    var record :- ReadMemoryStep(m, SIZE_PHYSPRESET);
    var h := Words(record.1);
    :- Check(h[0] != ADDRESS_MISSING, CorruptedData);
    LoadStrings(record.0, h, Settings(v, h))
  }

  /** The name, then the sound alias prefix (physpreset.cpp:79-106). */
  function LoadStrings(m: Mem, h: seq<u32>, v: PhysPresetValue): (r: Result<(Mem, PhysPresetValue)>)
    requires |h| == 11
    ensures r.Ok? ==> |r.value.0.bytes| == |m.bytes|
  {
    var named :- ResolveString(m, h[0]);
    var v1 := v.(name := Some(named.1));
    if h[7] != ADDRESS_MISSING then
      var prefix :- ResolveString(named.0, h[7]);
      Ok((prefix.0, v1.(sndAliasPrefix := Some(prefix.1))))
    else
      Ok((named.0, v1.(sndAliasPrefix := None)))
  }

  class PhysPreset {
    var name: Option<nat>
    var sndAliasPrefix: Option<nat>
    var mass: u32
    var friction: int
    var isFrictionInfinity: bool
    var bounce: u32
    var bulletForceScale: u32
    var explosiveForceScale: u32
    var piecesSpreadFraction: u32
    var piecesUpwardVelocity: u32
    var tempDefaultToCylinder: bool

    function Value(): PhysPresetValue
      reads this
    {
      PhysPresetValue(name, sndAliasPrefix, mass, friction, isFrictionInfinity, bounce,
        bulletForceScale, explosiveForceScale, piecesSpreadFraction, piecesUpwardVelocity,
        tempDefaultToCylinder)
    }

    /** Physpreset::Physpreset (physpreset.cpp:7-20). */
    constructor ()
      ensures Value() == DEFAULT
    {
      name, sndAliasPrefix := None, None;
      mass, friction, isFrictionInfinity := 0, 0, false;
      bounce, bulletForceScale, explosiveForceScale := 0, 0, 0;
      piecesSpreadFraction, piecesUpwardVelocity, tempDefaultToCylinder := 0, 0, false;
    }

    /** Physpreset::Release (physpreset.cpp:27-40): every field back to its default. */
    method Release()
      modifies this
      ensures Value() == DEFAULT
    {
      name, sndAliasPrefix := None, None;
      mass, friction, isFrictionInfinity := 0, 0, false;
      bounce, bulletForceScale, explosiveForceScale := 0, 0, 0;
      piecesSpreadFraction, piecesUpwardVelocity, tempDefaultToCylinder := 0, 0, false;
    }

    /** Stores a decoded value in the fields. */
    method Assign(v: PhysPresetValue)
      modifies this
      ensures Value() == v
    {
      name, sndAliasPrefix := v.name, v.sndAliasPrefix;
      mass, friction, isFrictionInfinity := v.mass, v.friction, v.isFrictionInfinity;
      bounce, bulletForceScale, explosiveForceScale := v.bounce, v.bulletForceScale, v.explosiveForceScale;
      piecesSpreadFraction, piecesUpwardVelocity := v.piecesSpreadFraction, v.piecesUpwardVelocity;
      tempDefaultToCylinder := v.tempDefaultToCylinder;
    }

    /**
     * Physpreset::Load (physpreset.cpp:42-110): the record is decoded by
     * Decode and the fields take the result when the load succeeds.
     */
    method Load(arena: Arena, slot: nat) returns (r: Result<()>)
      requires arena.Valid() && slot + 4 <= arena.data.Length
      modifies this, arena, arena.data, arena.stream, arena.stream.buffer
      ensures arena.Valid()
      ensures Agrees(LoadPhysPreset(old(arena.State()), slot, old(Value())), r, arena.State(), Value())
    {
      var v;
      r, v := Decode(arena, slot, Value());
      if r.Ok? {
        Assign(v);
      }
    }
  }

  /**
   * The body of Physpreset::Load (physpreset.cpp:42-110) on a value `v0`
   * of the fields: `v` is what the fields hold afterwards.
   */
  method Decode(arena: Arena, slot: nat, v0: PhysPresetValue) returns (r: Result<()>, v: PhysPresetValue)
    requires arena.Valid() && slot + 4 <= arena.data.Length
    modifies arena, arena.data, arena.stream, arena.stream.buffer
    ensures arena.Valid()
    ensures Agrees(LoadPhysPreset(old(arena.State()), slot, v0), r, arena.State(), v)
  {
    v := v0;
    var handle := arena.ReadWord(slot);
    if handle != ADDRESS_MISSING && handle != ADDRESS_FOLLOWING {
      return Fail(InternalError), v;
    }
    if handle == ADDRESS_FOLLOWING {
      var record :- arena.ReadMemory(SIZE_PHYSPRESET);
      var h := Words(record);
      if h[0] == ADDRESS_MISSING {
        return Fail(CorruptedData), v;
      }
      v := Settings(v, h);
      var n :- arena.ResolveString(h[0]);
      v := v.(name := Some(n));
      if h[7] != ADDRESS_MISSING {
        var p :- arena.ResolveString(h[7]);
        v := v.(sndAliasPrefix := Some(p));
      } else {
        v := v.(sndAliasPrefix := None);
      }
    }
    r := Ok(());
  }

  // ---------------------------------------------------------------------
  // Properties.

  /** A MISSING handle reads nothing and leaves every field as it was. */
  lemma MissingReadsNothing(m: Mem, slot: nat, v: PhysPresetValue)
    requires slot + 4 <= |m.bytes| && WordAt(m.bytes, slot) == ADDRESS_MISSING
    ensures LoadPhysPreset(m, slot, v) == Ok((m, v))
  {
  }

  /** Any handle other than MISSING and FOLLOWING is an internal error. */
  lemma OtherHandleFails(m: Mem, slot: nat, v: PhysPresetValue)
    requires slot + 4 <= |m.bytes|
    requires WordAt(m.bytes, slot) != ADDRESS_MISSING && WordAt(m.bytes, slot) != ADDRESS_FOLLOWING
    ensures LoadPhysPreset(m, slot, v) == Fail(InternalError)
  {
  }

  /**
   * A FOLLOWING preset takes its settings from the first 44 stream bytes
   * (physpreset.cpp:61-77): the booleans test words 1 and 10, friction is
   * word 4 as a signed int and the float fields are words 2, 3, 5, 6, 8
   * and 9 unchanged.  The name is resolved and a MISSING word 7 leaves the
   * sound alias prefix null.
   */
  lemma FollowingSettings(m: Mem, slot: nat, v: PhysPresetValue)
    requires Wf(m) && slot + 4 <= |m.bytes| && WordAt(m.bytes, slot) == ADDRESS_FOLLOWING
    requires LoadPhysPreset(m, slot, v).Ok?
    ensures |m.input| >= SIZE_PHYSPRESET
    ensures var h := Words(m.input[..SIZE_PHYSPRESET]);
      var r := LoadPhysPreset(m, slot, v).value.1;
      && h[0] != ADDRESS_MISSING
      && r.isFrictionInfinity == (h[1] != 0) && r.tempDefaultToCylinder == (h[10] != 0)
      && r.friction == Signed(h[4])
      && r.mass == h[2] && r.bounce == h[3] && r.bulletForceScale == h[5]
      && r.explosiveForceScale == h[6] && r.piecesSpreadFraction == h[8]
      && r.piecesUpwardVelocity == h[9]
      && r.name.Some? && r.name.value < |m.bytes|
      && (h[7] == ADDRESS_MISSING <==> r.sndAliasPrefix.None?)
  {
    var record := ReadMemoryStep(m, SIZE_PHYSPRESET).value;
    ReadMemoryGrows(m, SIZE_PHYSPRESET);
    ResolveStringGrows(record.0, Words(record.1)[0]);
  }

  /**
   * The name is resolved before the sound alias prefix: with both FOLLOWING,
   * the name is the string right after the record and the prefix the one
   * after that.
   */
  lemma NameBeforePrefix(m: Mem, slot: nat, v: PhysPresetValue)
    requires Wf(m) && slot + 4 <= |m.bytes| && WordAt(m.bytes, slot) == ADDRESS_FOLLOWING
    requires LoadPhysPreset(m, slot, v).Ok?
    requires var h := Words(m.input[..SIZE_PHYSPRESET]);
      h[0] == ADDRESS_FOLLOWING && h[7] == ADDRESS_FOLLOWING
    ensures var (m1, r) := LoadPhysPreset(m, slot, v).value;
      && r.name.Some? && r.sndAliasPrefix.Some?
      && m.cursor <= r.name.value < r.sndAliasPrefix.value < m1.cursor
  {
    var record := ReadMemoryStep(m, SIZE_PHYSPRESET).value;
    ReadMemoryGrows(m, SIZE_PHYSPRESET);
    ReadSharedStringGrows(record.0, 64);
    var named := ResolveString(record.0, ADDRESS_FOLLOWING).value;
    ReadSharedStringGrows(named.0, 64);
  }

  /**
   * Store is a no-op and the record stays in a local buffer: loading never
   * rewrites anything below the cursor, the handle slot included.
   */
  lemma LoadKeepsArena(m: Mem, slot: nat, v: PhysPresetValue)
    requires Wf(m) && slot + 4 <= |m.bytes| && LoadPhysPreset(m, slot, v).Ok?
    ensures Wf(LoadPhysPreset(m, slot, v).value.0)
    ensures Grows(m, LoadPhysPreset(m, slot, v).value.0)
  {
    var handle := WordAt(m.bytes, slot);
    if handle == ADDRESS_MISSING {
      GrowsRefl(m);
    } else {
      var record := ReadMemoryStep(m, SIZE_PHYSPRESET).value;
      ReadMemoryGrows(m, SIZE_PHYSPRESET);
      var h := Words(record.1);
      var named := ResolveString(record.0, h[0]).value;
      ResolveStringGrows(record.0, h[0]);
      GrowsTrans(m, record.0, named.0);
      if h[7] != ADDRESS_MISSING {
        ResolveStringGrows(named.0, h[7]);
        GrowsTrans(m, named.0, ResolveString(named.0, h[7]).value.0);
      }
    }
  }
}
