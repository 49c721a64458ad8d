/**
 * The localized string decoder (assets/localize.cpp): a value and a key,
 * each an arena string.  Store does nothing.
 */
module Localizes {
  import opened Errors
  import opened Utility
  import opened AddressCodec
  import opened Memory
  import opened Arenas

  /** SIZE_LOCALIZE (docs/types.h:58): two words. */
  const SIZE_LOCALIZE: nat := 8

  datatype LocalizeValue = LocalizeValue(key: Option<nat>, value: Option<nat>)

  /** The constructor's and Release's values (localize.cpp:6-21). */
  const DEFAULT: LocalizeValue := LocalizeValue(None, None)

  /** Localize::Load (localize.cpp:23-68) from the handle slot at `slot`. */
  function LoadLocalize(m: Mem, slot: nat, v: LocalizeValue): (r: Result<(Mem, LocalizeValue)>)
    requires slot + 4 <= |m.bytes|
    ensures r.Ok? ==> |r.value.0.bytes| == |m.bytes|
  {
    var handle := WordAt(m.bytes, slot);
    :- Check(handle == ADDRESS_MISSING || handle == ADDRESS_FOLLOWING, InternalError);
    if handle == ADDRESS_MISSING then Ok((m, v))
    else
      var record :- ReadMemoryStep(m, SIZE_LOCALIZE);
      var h := Words(record.1);
      :- Check(h[0] != ADDRESS_MISSING && h[1] != ADDRESS_MISSING, CorruptedData);
      var value :- ResolveString(record.0, h[0]);
      var key :- ResolveString(value.0, h[1]);
      Ok((key.0, LocalizeValue(Some(key.1), Some(value.1))))
  }

  class Localize {
    var key: Option<nat>
    var value: Option<nat>

    function Value(): LocalizeValue
      reads this
    {
      LocalizeValue(key, value)
    }

    /** Localize::Localize (localize.cpp:6-10). */
    constructor ()
      ensures Value() == DEFAULT
    {
      key, value := None, None;
    }

    /** Localize::Release (localize.cpp:17-21). */
    method Release()
      modifies this
      ensures Value() == DEFAULT
    {
      key, value := None, None;
    }

    /**
     * Localize::Load (localize.cpp:23-68): the strings are resolved by
     * Decode and the fields take them when the load succeeds.
     */
    method Load(arena: Arena, slot: nat) returns (r: Result<()>)
      requires arena.Valid() && slot + 4 <= arena.data.Length
      modifies this, arena, arena.data, arena.stream, arena.stream.buffer
      ensures arena.Valid()
      ensures Agrees(LoadLocalize(old(arena.State()), slot, old(Value())), r, arena.State(), Value())
    {
      var v;
      r, v := Decode(arena, slot, Value());
      if r.Ok? {
        key, value := v.key, v.value;
      }
    }
  }

  /** The body of Localize::Load (localize.cpp:23-68) on a value of the fields. */
  method Decode(arena: Arena, slot: nat, v0: LocalizeValue) returns (r: Result<()>, v: LocalizeValue)
    requires arena.Valid() && slot + 4 <= arena.data.Length
    modifies arena, arena.data, arena.stream, arena.stream.buffer
    ensures arena.Valid()
    ensures Agrees(LoadLocalize(old(arena.State()), slot, v0), r, arena.State(), v)
  {
    v := v0;
    var handle := arena.ReadWord(slot);
    if handle != ADDRESS_MISSING && handle != ADDRESS_FOLLOWING {
      return Fail(InternalError), v;
    }
    if handle == ADDRESS_FOLLOWING {
      var record :- arena.ReadMemory(SIZE_LOCALIZE);
      var h := Words(record);
      if h[0] == ADDRESS_MISSING || h[1] == ADDRESS_MISSING {
        return Fail(CorruptedData), v;
      }
      var value :- arena.ResolveString(h[0]);
      var key :- arena.ResolveString(h[1]);
      v := LocalizeValue(Some(key), Some(value));
    }
    r := Ok(());
  }

  // ---------------------------------------------------------------------
  // Properties.

  /**
   * The handle decides the path: MISSING reads nothing and keeps both
   * fields, anything but MISSING or FOLLOWING is an internal error.
   */
  lemma HandleRule(m: Mem, slot: nat, v: LocalizeValue)
    requires slot + 4 <= |m.bytes|
    ensures WordAt(m.bytes, slot) == ADDRESS_MISSING ==> LoadLocalize(m, slot, v) == Ok((m, v))
    ensures WordAt(m.bytes, slot) != ADDRESS_MISSING && WordAt(m.bytes, slot) != ADDRESS_FOLLOWING
      ==> LoadLocalize(m, slot, v) == Fail(InternalError)
  {
  }

  /**
   * A FOLLOWING localize reads its 8-byte record from the stream; neither
   * word may be MISSING, and an encoded word is decoded by GetPointer with
   * no further stream read.
   */
  lemma FollowingRecord(m: Mem, slot: nat, v: LocalizeValue)
    requires Wf(m) && slot + 4 <= |m.bytes| && WordAt(m.bytes, slot) == ADDRESS_FOLLOWING
    requires LoadLocalize(m, slot, v).Ok?
    ensures |m.input| >= SIZE_LOCALIZE
    ensures var h := Words(m.input[..SIZE_LOCALIZE]);
      var r := LoadLocalize(m, slot, v).value.1;
      && h[0] != ADDRESS_MISSING && h[1] != ADDRESS_MISSING
      && r.key.Some? && r.value.Some?
      && (h[0] != ADDRESS_FOLLOWING ==> Ok(r.value.value) == GetPointer(|m.bytes|, h[0]))
      && (h[0] != ADDRESS_FOLLOWING && h[1] != ADDRESS_FOLLOWING ==>
            Ok(r.key.value) == GetPointer(|m.bytes|, h[1])
            && LoadLocalize(m, slot, v).value.0 == m.(input := m.input[SIZE_LOCALIZE..]))
  {
    ReadMemoryGrows(m, SIZE_LOCALIZE);
  }

  /**
   * The value is resolved before the key: with both FOLLOWING, the value's
   * string is the one right after the record and the key's the next one.
   */
  lemma ValueBeforeKey(m: Mem, slot: nat, v: LocalizeValue)
    requires Wf(m) && slot + 4 <= |m.bytes| && WordAt(m.bytes, slot) == ADDRESS_FOLLOWING
    requires LoadLocalize(m, slot, v).Ok?
    requires var h := Words(m.input[..SIZE_LOCALIZE]);
      h[0] == ADDRESS_FOLLOWING && h[1] == ADDRESS_FOLLOWING
    ensures var (m1, r) := LoadLocalize(m, slot, v).value;
      && r.key.Some? && r.value.Some?
      && m.cursor <= r.value.value < r.key.value < m1.cursor
  {
    var record := ReadMemoryStep(m, SIZE_LOCALIZE).value;
    ReadMemoryGrows(m, SIZE_LOCALIZE);
    ReadSharedStringGrows(record.0, 64);
    var value := ResolveString(record.0, ADDRESS_FOLLOWING).value;
    ReadSharedStringGrows(value.0, 64);
  }

  /** Store is a no-op: nothing below the cursor changes, the handle slot included. */
  lemma LoadKeepsArena(m: Mem, slot: nat, v: LocalizeValue)
    requires Wf(m) && slot + 4 <= |m.bytes| && LoadLocalize(m, slot, v).Ok?
    ensures Wf(LoadLocalize(m, slot, v).value.0)
    ensures Grows(m, LoadLocalize(m, slot, v).value.0)
  {
    if WordAt(m.bytes, slot) == ADDRESS_MISSING {
      GrowsRefl(m);
    } else {
      var record := ReadMemoryStep(m, SIZE_LOCALIZE).value;
      ReadMemoryGrows(m, SIZE_LOCALIZE);
      var h := Words(record.1);
      var value := ResolveString(record.0, h[0]).value;
      ResolveStringGrows(record.0, h[0]);
      ResolveStringGrows(value.0, h[1]);
      GrowsTrans(m, record.0, value.0);
      GrowsTrans(m, value.0, ResolveString(value.0, h[1]).value.0);
    }
  }
}
