/**
 * The material decoder (assets/material.cpp).  It reads the record and
 * the name, skips 12 more bytes, and then always stops with "Not yet
 * implemented": no material can be loaded.
 */
module Materials {
  import opened Errors
  import opened Utility
  import opened AddressCodec
  import opened Memory
  import opened Arenas

  /** SIZE_MATERIAL (docs/types.h:40): twenty words. */
  const SIZE_MATERIAL: nat := 0x50

  /**
   * What Material::Load reads for a FOLLOWING handle (material.cpp:30-56):
   * the 80-byte record, the name, then 12 bytes into a local buffer.
   */
  function ReadMaterial(m: Mem): (r: Result<(Mem, Option<nat>)>)
    ensures r.Ok? ==> |r.value.0.bytes| == |m.bytes|
  {
    var record :- ReadMemoryStep(m, SIZE_MATERIAL);
    var nameHandle := WordAt(record.1, 0);
    :- Check(nameHandle != ADDRESS_MISSING, CorruptedData);
    var named :- ResolveString(record.0, nameHandle);
    // handler[0] = GetAddress(4, name) rewrites the local copy only.
    var rewritten :-
      if nameHandle == ADDRESS_FOLLOWING then AddressOf(named.0, named.1) else Ok(nameHandle);
    var buffer :- ReadMemoryStep(named.0, 12);
    Ok((buffer.0, Some(named.1)))
  }

  /**
   * Material::Load (material.cpp:21-61) from the handle slot at `slot`:
   * there is no check on the handle, and after the reads the final
   * `ASSERT(FALSE, ...)` always fails.
   */
  function LoadMaterial(m: Mem, slot: nat, name: Option<nat>): (r: Result<(Mem, Option<nat>)>)
    requires slot + 4 <= |m.bytes|
    ensures r.Ok? ==> |r.value.0.bytes| == |m.bytes|
  {
    var loaded :- if WordAt(m.bytes, slot) == ADDRESS_FOLLOWING then ReadMaterial(m) else Ok((m, name));
    :- Check(false, NotYetImplemented);
    Ok(loaded)
  }

  class Material {
    var name: Option<nat>

    /** Material::Material (material.cpp:6-9). */
    constructor ()
      ensures name.None?
    {
      name := None;
    }

    /** Material::Release (material.cpp:16-19). */
    method Release()
      modifies this
      ensures name.None?
    {
      name := None;
    }

    /** Material::Load (material.cpp:21-61). */
    method Load(arena: Arena, slot: nat) returns (r: Result<()>)
      requires arena.Valid() && slot + 4 <= arena.data.Length
      modifies this, arena, arena.data, arena.stream, arena.stream.buffer
      ensures arena.Valid()
      ensures Agrees(LoadMaterial(old(arena.State()), slot, old(name)), r, arena.State(), name)
    {
      var handle := arena.ReadWord(slot);
      if handle == ADDRESS_FOLLOWING {
        var record :- arena.ReadMemory(SIZE_MATERIAL);
        var nameHandle := WordAt(record, 0);
        if nameHandle == ADDRESS_MISSING {
          return Fail(CorruptedData);
        }
        var n :- arena.ResolveString(nameHandle);
        name := Some(n);
        if nameHandle == ADDRESS_FOLLOWING {
          var rewritten :- GetAddress(arena.data.Length, arena.current, 4, Some(n));
        }
        var buffer :- arena.ReadMemory(12);
      }
      r := Fail(NotYetImplemented);
    }
  }

  // ---------------------------------------------------------------------
  // Properties.

  /** Loading a material never succeeds. */
  lemma NeverLoads(m: Mem, slot: nat, name: Option<nat>)
    requires slot + 4 <= |m.bytes|
    ensures LoadMaterial(m, slot, name).Fail?
  {
  }

  /**
   * Any handle other than FOLLOWING, MISSING included and with no check
   * that it is MISSING, reads nothing and fails with "Not yet implemented".
   */
  lemma NoHandleCheck(m: Mem, slot: nat, name: Option<nat>)
    requires slot + 4 <= |m.bytes| && WordAt(m.bytes, slot) != ADDRESS_FOLLOWING
    ensures LoadMaterial(m, slot, name) == Fail(NotYetImplemented)
  {
  }

  /**
   * A FOLLOWING material reads the 80-byte record and fails on a MISSING
   * name; with an encoded name that GetPointer accepts and 12 more bytes
   * in the stream it reaches the final "Not yet implemented".
   */
  lemma FollowingRecord(m: Mem, slot: nat, name: Option<nat>)
    requires slot + 4 <= |m.bytes| && WordAt(m.bytes, slot) == ADDRESS_FOLLOWING
    requires |m.input| >= SIZE_MATERIAL
    ensures WordAt(m.input, 0) == ADDRESS_MISSING ==> LoadMaterial(m, slot, name) == Fail(CorruptedData)
    ensures var h := WordAt(m.input, 0);
      h != ADDRESS_FOLLOWING && GetPointer(|m.bytes|, h).Ok? && |m.input| >= SIZE_MATERIAL + 12
      ==> LoadMaterial(m, slot, name) == Fail(NotYetImplemented)
  {
    var record := ReadMemoryStep(m, SIZE_MATERIAL).value;
    assert WordAt(record.1, 0) == WordAt(m.input, 0);
  }
}
