/**
 * The tag section (fastfile.cpp:531-626): an index of `count` handle words
 * copied to the cursor, then for each FOLLOWING slot a NUL-terminated
 * string read to the cursor, with the slot rewritten to the string's
 * address.
 */
module Tags {
  import opened Errors
  import opened Utility
  import opened Streams
  import opened AddressCodec
  import opened Memory
  import opened Arenas
  import opened Headers

  /**
   * Tag slot `slot` (fastfile.cpp:603-624): it must be MISSING or
   * FOLLOWING.  A MISSING tag is null; a FOLLOWING slot first receives the
   * cursor's address (`GetAddress(4)`), then the string is read there.
   */
  function TagStep(m: Mem, slot: nat): (r: Result<(Mem, Option<nat>)>)
    requires slot + 4 <= |m.bytes|
    ensures r.Ok? ==> |r.value.0.bytes| == |m.bytes|
  {
    var w := WordAt(m.bytes, slot);
    if w != ADDRESS_MISSING && w != ADDRESS_FOLLOWING then Fail(BadOptimization)
    else if w == ADDRESS_MISSING then Ok((m, None))
    else
      var address :- GetAddress(|m.bytes|, m.cursor, 4, None);
      var placed :- ReadStringInPlaceStep(WriteWordStep(m, slot, address));
      Ok((placed.0, Some(placed.1)))
  }

  /** The tag loop (fastfile.cpp:600-625) from tag i on, over an index at `index`. */
  function TagsFrom(m: Mem, index: nat, n: nat, i: nat): (r: Result<(Mem, seq<Option<nat>>)>)
    requires index + 4 * n <= |m.bytes| && i <= n
    ensures r.Ok? ==> |r.value.0.bytes| == |m.bytes| && |r.value.1| == n - i
    decreases n - i
  {
    if i == n then Ok((m, []))
    else
      var tag :- TagStep(m, index + 4 * i);
      var rest :- TagsFrom(tag.0, index, n, i + 1);
      Ok((rest.0, [tag.1] + rest.1))
  }

  /**
   * FastFile::ReadTags (fastfile.cpp:577-626) for `count` tags: the index
   * goes to the cursor unaligned, then the tags are read in order.  The
   * `count == section.count` check always passes, since LoadTags has just
   * stored that count.
   */
  function ReadTags(m: Mem, count: nat): (r: Result<(Mem, seq<Option<nat>>)>)
    ensures r.Ok? ==> |r.value.0.bytes| == |m.bytes| && |r.value.1| == count
  {
    var block :- ReadInPlaceStep(m, 4 * count);
    TagsFrom(block.0, block.1, count, 0)
  }

  /**
   * FastFile::LoadTags (fastfile.cpp:531-569) on the packed descriptor:
   * the section rule, then no tags at all or ReadTags.  The result holds
   * the count the section keeps and the tag table.
   */
  function LoadTags(m: Mem, packed: nat): (r: Result<(Mem, int, seq<Option<nat>>)>)
    ensures r.Ok? ==> |r.value.0.bytes| == |m.bytes| && r.value.1 >= 0 && |r.value.2| == r.value.1
  {
    var (count, address) := Unpack(packed);
    if !SectionValid(count, address) then Fail(InvalidSectionCombination)
    else if count == 0 then Ok((m, 0, []))
    else
      var loaded :- ReadTags(m, count);
      Ok((loaded.0, count, loaded.1))
  }

  // ---------------------------------------------------------------------
  // What the tag loop does.

  /** What a loaded tag slot holds: a MISSING slot stays MISSING with a null tag, a FOLLOWING one points at its string. */
  predicate TagLoaded(size: nat, w: u32, tag: Option<nat>, w1: u32)
  {
    || (w == ADDRESS_MISSING && tag == None && w1 == ADDRESS_MISSING)
    || (w == ADDRESS_FOLLOWING && tag.Some? && GetPointer(size, w1) == Ok(tag.value))
  }

  /**
   * One tag: a slot that is neither MISSING nor FOLLOWING is a "bad
   * optimization"; a FOLLOWING slot in a full arena has no address to
   * take; otherwise the slot now encodes the old cursor, where the string,
   * terminator included, was copied from the stream.
   */
  lemma TagStepMeaning(m: Mem, slot: nat)
    requires Wf(m) && slot + 4 <= m.cursor
    ensures var w := WordAt(m.bytes, slot);
      && (w != ADDRESS_MISSING && w != ADDRESS_FOLLOWING ==> TagStep(m, slot) == Fail(BadOptimization))
      && (w == ADDRESS_MISSING ==> TagStep(m, slot) == Ok((m, None)))
      && (w == ADDRESS_FOLLOWING && m.cursor == |m.bytes| ==> TagStep(m, slot) == Fail(CorruptedPointer))
    ensures WordAt(m.bytes, slot) == ADDRESS_FOLLOWING && TagStep(m, slot).Ok? ==>
      && ReadStringSpec(m.input, -1).Ok?
      && var s := ReadStringSpec(m.input, -1).value;
         var (m1, tag) := TagStep(m, slot).value;
         && tag == Some(m.cursor) && WordAt(m1.bytes, slot) == Encode(m.cursor)
         && GetPointer(|m1.bytes|, WordAt(m1.bytes, slot)) == Ok(m.cursor)
         && m1.cursor == m.cursor + |s| && m1.bytes[m.cursor..m1.cursor] == s && s[|s| - 1] == 0
         && m1.input == m.input[|s|..]
  {
    CursorAddress(|m.bytes|, m.cursor);
    if WordAt(m.bytes, slot) == ADDRESS_FOLLOWING && TagStep(m, slot).Ok? {
      GetAddressEncodes(|m.bytes|, m.cursor, None);
      ReadStringSpecMeaning(m.input, -1);
    }
  }

  /** A tag that loads leaves its slot as TagLoaded says. */
  lemma TagStepLoaded(m: Mem, slot: nat)
    requires Wf(m) && slot + 4 <= m.cursor && TagStep(m, slot).Ok?
    ensures var (m1, tag) := TagStep(m, slot).value;
      TagLoaded(|m.bytes|, WordAt(m.bytes, slot), tag, WordAt(m1.bytes, slot))
  {
    TagStepMeaning(m, slot);
  }

  /** A tag keeps the arena well formed and only moves the cursor forward. */
  lemma TagStepGrows(m: Mem, slot: nat)
    requires Wf(m) && slot + 4 <= m.cursor && TagStep(m, slot).Ok?
    ensures var m1 := TagStep(m, slot).value.0;
      Wf(m1) && m.cursor <= m1.cursor
  {
  }

  /** A tag writes only its own slot and at or after the cursor. */
  lemma TagStepKeeps(m: Mem, slot: nat, q: nat)
    requires Wf(m) && slot + 4 <= m.cursor && TagStep(m, slot).Ok?
    requires q + 4 <= m.cursor && (q + 4 <= slot || slot + 4 <= q)
    ensures var m1 := TagStep(m, slot).value.0;
      Wf(m1) && m.cursor <= m1.cursor && WordAt(m1.bytes, q) == WordAt(m.bytes, q)
  {
    if WordAt(m.bytes, slot) == ADDRESS_FOLLOWING {
      var address := GetAddress(|m.bytes|, m.cursor, 4, None).value;
      var m0 := WriteWordStep(m, slot, address);
      var m1 := TagStep(m, slot).value.0;
      forall i | q <= i < q + 4
        ensures m1.bytes[i] == m.bytes[i]
      {
        assert m1.bytes[i] == m1.bytes[..m0.cursor][i] == m0.bytes[..m0.cursor][i];
      }
    }
  }

  /** The tags from i on leave every word below the cursor alone but their own slots. */
  lemma {:induction false} TagsKeep(m: Mem, index: nat, n: nat, i: nat, q: nat)
    requires Wf(m) && index + 4 * n <= m.cursor && i <= n && TagsFrom(m, index, n, i).Ok?
    requires q + 4 <= m.cursor && (q + 4 <= index + 4 * i || index + 4 * n <= q)
    ensures var m1 := TagsFrom(m, index, n, i).value.0;
      Wf(m1) && m.cursor <= m1.cursor && WordAt(m1.bytes, q) == WordAt(m.bytes, q)
    decreases n - i
  {
    hide TagStep;
    if i < n {
      TagStepKeeps(m, index + 4 * i, q);
      TagsKeep(TagStep(m, index + 4 * i).value.0, index, n, i + 1, q);
    }
  }

  /** The tags from i on keep the arena well formed and only move the cursor forward. */
  lemma {:induction false} TagsGrow(m: Mem, index: nat, n: nat, i: nat)
    requires Wf(m) && index + 4 * n <= m.cursor && i <= n && TagsFrom(m, index, n, i).Ok?
    ensures var m1 := TagsFrom(m, index, n, i).value.0;
      Wf(m1) && m.cursor <= m1.cursor
    decreases n - i
  {
    hide TagStep;
    if i < n {
      TagStepGrows(m, index + 4 * i);
      var m1 := TagStep(m, index + 4 * i).value.0;
      TagsGrow(m1, index, n, i + 1);
    }
  }

  /** Every tag from i on is loaded as its slot said. */
  lemma {:induction false} TagsResolved(m: Mem, index: nat, n: nat, i: nat)
    requires Wf(m) && index + 4 * n <= m.cursor && i <= n && TagsFrom(m, index, n, i).Ok?
    ensures var (m2, tags) := TagsFrom(m, index, n, i).value;
      forall j :: i <= j < n ==>
        TagLoaded(|m.bytes|, WordAt(m.bytes, index + 4 * j), tags[j - i], WordAt(m2.bytes, index + 4 * j))
    decreases n - i
  {
    hide TagStep, TagLoaded;
    if i < n {
      var p := index + 4 * i;
      var (m1, tag) := TagStep(m, p).value;
      var (m2, rest) := TagsFrom(m1, index, n, i + 1).value;
      assert TagsFrom(m, index, n, i).value == (m2, [tag] + rest);
      hide TagsFrom;
      TagStepLoaded(m, p);
      TagStepGrows(m, p);
      TagsResolved(m1, index, n, i + 1);
      TagsKeep(m1, index, n, i + 1, p);
      forall j | i < j < n
        ensures WordAt(m1.bytes, index + 4 * j) == WordAt(m.bytes, index + 4 * j)
      {
        TagStepKeeps(m, p, index + 4 * j);
      }
    }
  }

  /**
   * ReadTags as a whole: the index lies at the old cursor, and each of the
   * `count` stream words was MISSING, giving a null tag and a MISSING slot,
   * or FOLLOWING, giving a tag whose offset the slot now encodes.  A
   * stream word of any other value therefore makes ReadTags fail.
   */
  lemma TagsLoaded(m: Mem, count: nat)
    requires Wf(m) && ReadTags(m, count).Ok?
    ensures 4 * count <= |m.input|
    ensures var (m1, tags) := ReadTags(m, count).value;
      && Wf(m1) && m.cursor + 4 * count <= m1.cursor
      && forall j :: 0 <= j < count ==>
           TagLoaded(|m.bytes|, WordAt(m.input, 4 * j), tags[j], WordAt(m1.bytes, m.cursor + 4 * j))
  {
    hide TagLoaded, TagStep, ReadInPlaceStep;
    var (m0, index) := ReadInPlaceStep(m, 4 * count).value;
    assert ReadTags(m, count) == TagsFrom(m0, index, count, 0);
    hide TagsFrom, ReadTags;
    if count > 0 {
      InPlaceWords(m, 4 * count, 0);
    }
    var (m1, tags) := TagsFrom(m0, index, count, 0).value;
    TagsResolved(m0, index, count, 0);
    TagsGrow(m0, index, count, 0);
    forall j | 0 <= j < count
      ensures TagLoaded(|m.bytes|, WordAt(m.input, 4 * j), tags[j], WordAt(m1.bytes, m.cursor + 4 * j))
    {
      InPlaceWords(m, 4 * count, 4 * j);
      assert TagLoaded(|m0.bytes|, WordAt(m0.bytes, index + 4 * j), tags[j - 0], WordAt(m1.bytes, index + 4 * j));
    }
  }

  /**
   * LoadTags on the descriptor packed from the header's tag count and
   * address: a zero count with a zero address is no tags, a positive count
   * with a FOLLOWING address reads them, and every other combination,
   * negative counts included, is rejected before anything is read.
   */
  lemma LoadTagsMeaning(m: Mem, count: int, address: int)
    requires -0x8000_0000 <= count < 0x8000_0000 && -0x8000_0000 <= address < 0x8000_0000
    ensures !SectionValid(count, address) ==> LoadTags(m, Pack(count, address)) == Fail(InvalidSectionCombination)
    ensures count == 0 && address == 0 ==> LoadTags(m, Pack(count, address)) == Ok((m, 0, []))
    ensures count >= 1 && address == -1 ==>
      && (LoadTags(m, Pack(count, address)).Ok? <==> ReadTags(m, count).Ok?)
      && (ReadTags(m, count).Ok? ==>
            LoadTags(m, Pack(count, address)) == Ok((ReadTags(m, count).value.0, count, ReadTags(m, count).value.1)))
      && (ReadTags(m, count).Fail? ==> LoadTags(m, Pack(count, address)) == Fail(ReadTags(m, count).error))
  {
    hide ReadTags;
    if count >= 0 {
      PackRoundTrip(count, address);
    } else {
      PackKeepsCount(count, address);
    }
  }

  /** The ends of the tag loop: nothing read yet, and every tag read. */
  lemma TagsEnds(m: Mem, m1: Mem, index: nat, n: nat, done: seq<Option<nat>>)
    requires index + 4 * n <= |m.bytes| && index + 4 * n <= |m1.bytes|
    ensures Prefixed([], TagsFrom(m, index, n, 0)) == TagsFrom(m, index, n, 0)
    ensures Prefixed(done, TagsFrom(m1, index, n, n)) == Ok((m1, done))
  {
    if TagsFrom(m, index, n, 0).Ok? {
      assert [] + TagsFrom(m, index, n, 0).value.1 == TagsFrom(m, index, n, 0).value.1;
    }
    assert done + [] == done;
  }

  /** One turn of the tag loop, seen from the tags read before it. */
  lemma TagsTurn(m: Mem, index: nat, n: nat, i: nat, done: seq<Option<nat>>, t: Result<Option<nat>>, m1: Mem)
    requires index + 4 * n <= |m.bytes| && i < n
    requires AgreesValue(TagStep(m, index + 4 * i), t, m1)
    ensures t.Fail? ==> Prefixed(done, TagsFrom(m, index, n, i)) == Fail(t.error)
    ensures t.Ok? ==> |m1.bytes| == |m.bytes|
    ensures t.Ok? ==> Prefixed(done, TagsFrom(m, index, n, i)) == Prefixed(done + [t.value], TagsFrom(m1, index, n, i + 1))
  {
    if t.Ok? {
      PrefixedTwice(done, [t.value], TagsFrom(m1, index, n, i + 1));
    }
  }

  // ---------------------------------------------------------------------
  // The methods.

  /** Tag slot `slot` (fastfile.cpp:603-624). */
  method DecodeTag(arena: Arena, slot: nat) returns (r: Result<Option<nat>>)
    requires arena.Valid() && slot + 4 <= arena.data.Length
    modifies arena, arena.data, arena.stream, arena.stream.buffer
    ensures arena.Valid()
    ensures AgreesValue(TagStep(old(arena.State()), slot), r, arena.State())
  {
    var w := arena.ReadWord(slot);
    if w != ADDRESS_MISSING && w != ADDRESS_FOLLOWING {
      return Fail(BadOptimization);
    }
    if w == ADDRESS_MISSING {
      return Ok(None);
    }
    var address :- GetAddress(arena.data.Length, arena.current, 4, None);
    arena.WriteWord(slot, address);
    var at :- arena.ReadStringInPlace();
    r := Ok(Some(at));
  }

  /** The loop of ReadTags (fastfile.cpp:600-625) over the index at `index`. */
  method DecodeTags(arena: Arena, index: nat, count: nat) returns (r: Result<seq<Option<nat>>>)
    requires arena.Valid() && index + 4 * count <= arena.data.Length
    modifies arena, arena.data, arena.stream, arena.stream.buffer
    ensures arena.Valid()
    ensures AgreesValue(TagsFrom(old(arena.State()), index, count, 0), r, arena.State())
  {
    hide TagStep, TagsFrom, Prefixed;
    ghost var m0 := arena.State();
    var tags: seq<Option<nat>> := [];
    var i := 0;
    TagsEnds(m0, m0, index, count, tags);
    while i < count
      invariant 0 <= i <= count && arena.Valid() && |arena.mem| == |m0.bytes| && |tags| == i
      invariant TagsFrom(m0, index, count, 0) == Prefixed(tags, TagsFrom(arena.State(), index, count, i))
    {
      ghost var m := arena.State();
      var t := DecodeTag(arena, index + 4 * i);
      TagsTurn(m, index, count, i, tags, t, arena.State());
      if t.Fail? {
        return Fail(t.error);
      }
      tags := tags + [t.value];
      i := i + 1;
    }
    TagsEnds(m0, arena.State(), index, count, tags);
    r := Ok(tags);
  }
}
