/**
 * The loader's memory as a value, and one pure step per memory operation of
 * FastFile (fastfile.cpp:249-431).
 *
 * A `Mem` is what the asset decoders can observe: the arena bytes, the
 * allocation cursor and the stream bytes not read yet.  Every operation is
 * a function from a Mem to either a failure or a new Mem and a result.  The
 * `Arena` class runs the same operations in place and its methods are
 * proved to agree with these steps; the decoders are specified by
 * composing them.
 */
module Memory {
  import opened Errors
  import opened Utility
  import opened Streams
  import opened AddressCodec

  datatype Mem = Mem(bytes: seq<byte>, cursor: nat, input: seq<byte>)

  /** The cursor stays inside an arena the header accepted. */
  predicate Wf(m: Mem)
  {
    m.cursor <= |m.bytes| <= MAX_DATA_SIZE
  }

  /** A method's outcome and final state agree with what a step computes. */
  predicate AgreesValue<T(==)>(spec: Result<(Mem, T)>, r: Result<T>, m: Mem)
  {
    if spec.Ok? then r == Ok(spec.value.1) && m == spec.value.0 else r == Fail(spec.error)
  }

  /** The same for a method whose result is the state of an object. */
  predicate Agrees<T(==)>(spec: Result<(Mem, T)>, r: Result<()>, m: Mem, v: T)
  {
    if spec.Ok? then r == Ok(()) && m == spec.value.0 && v == spec.value.1 else r == Fail(spec.error)
  }

  /** The same for a method that only changes the arena. */
  predicate AgreesState(spec: Result<Mem>, r: Result<()>, m: Mem)
  {
    if spec.Ok? then r == Ok(()) && m == spec.value else r == Fail(spec.error)
  }

  /** Where the next block goes: the cursor, aligned unless alignment is -1. */
  function Aligned(cursor: nat, alignment: int): nat
  {
    if alignment == -1 then cursor else AlignUp(cursor, alignment)
  }

  /**
   * Align (fastfile.cpp:249-263).  `(alignment & 3) == 0` is
   * `alignment % 4 == 0` for every int, negative ones included.  The source
   * moves the cursor without a bounds check; the model fails with
   * BeyondMemoryBoundary instead of leaving the cursor past the arena.
   */
  function AlignStep(m: Mem, alignment: int): (r: Result<(Mem, ())>)
    ensures r.Ok? ==> r.value.0 == m.(cursor := AlignUp(m.cursor, alignment))
  {
    if alignment % 4 != 0 then Fail(InvalidAlignment) else
    var c := AlignUp(m.cursor, alignment);
    :- Check(c <= |m.bytes|, BeyondMemoryBoundary);
    Ok((m.(cursor := c), ()))
  }

  /** Alloc (fastfile.cpp:271-296): the bump allocator. */
  function AllocStep(m: Mem, size: int, alignment: int): (r: Result<(Mem, nat)>)
  {
    if size <= 0 then Fail(InvalidAllocationSize) else
    var aligned :- if alignment != -1 then AlignStep(m, alignment) else Ok((m, ()));
    var m1 := aligned.0;
    :- Check(m1.cursor + size <= |m1.bytes|, BeyondMemoryBoundary);
    Ok((m1.(cursor := m1.cursor + size), m1.cursor))
  }

  /** FastFile::ReadMemory (fastfile.cpp:303-321) into a local buffer. */
  function ReadMemoryStep(m: Mem, size: int): (r: Result<(Mem, seq<byte>)>)
    ensures r.Ok? ==> r.value.0.bytes == m.bytes && r.value.0.cursor == m.cursor
  {
    if size <= 0 then Fail(InvalidParameter) else
    var s :- ReadMemorySpec(m.input, size);
    Ok((m.(input := m.input[size..]), s))
  }

  /** FastFile::ReadString (fastfile.cpp:358-376) into a local buffer. */
  function ReadStringStep(m: Mem, max: int): (r: Result<(Mem, seq<byte>)>)
  {
    if max <= 0 then Fail(InvalidParameter) else
    var s :- ReadStringSpec(m.input, max);
    Ok((m.(input := m.input[|s|..]), s))
  }

  /** ReadSharedMemory (fastfile.cpp:329-351): allocate, then fill from the stream. */
  function ReadSharedMemoryStep(m: Mem, size: int, alignment: int): (r: Result<(Mem, nat)>)
    ensures r.Ok? ==> |r.value.0.bytes| == |m.bytes| && r.value.1 + size <= |m.bytes|
  {
    if !(1 <= size <= 0x200_0000) then Fail(SingleAllocationTooLarge) else
    var placed :- AllocStep(m, size, alignment);
    var (m1, at) := placed;
    var s :- ReadMemorySpec(m1.input, size);
    Ok((m1.(bytes := Splice(m1.bytes, at, s), input := m1.input[size..]), at))
  }

  /**
   * ReadSharedString (fastfile.cpp:383-411): read the string into a local
   * 256-byte buffer, then allocate exactly the bytes read and copy them.
   */
  function ReadSharedStringStep(m: Mem, max: int, alignment: int): (r: Result<(Mem, nat)>)
  {
    if !(1 <= max <= 256) then Fail(MaxStringSizeOutOfRange) else
    var s :- ReadStringSpec(m.input, max);
    var placed :- AllocStep(m.(input := m.input[|s|..]), |s|, alignment);
    var (m1, at) := placed;
    Ok((m1.(bytes := Splice(m1.bytes, at, s)), at))
  }

  /** AllocSharedMemory (fastfile.cpp:413-431). */
  function AllocSharedMemoryStep(m: Mem, size: int, alignment: int): (r: Result<(Mem, nat)>)
  {
    if size <= 0 then Fail(InvalidAllocationSize) else
    AllocStep(m, size, alignment)
  }

  /**
   * `*handle = GetAddress(4, ReadSharedMemory(size, alignment))`: a
   * FOLLOWING handle at offset p is replaced by the address of the block
   * read for it.  The result is the block's offset.
   */
  function FollowMemory(m: Mem, p: nat, size: int, alignment: int): (r: Result<(Mem, nat)>)
    requires p + 4 <= |m.bytes|
    ensures r.Ok? ==> |r.value.0.bytes| == |m.bytes| && 1 <= size && r.value.1 + size <= |m.bytes|
  {
    var block :- ReadSharedMemoryStep(m, size, alignment);
    var address :- AddressOf(block.0, block.1);
    Ok((WriteWordStep(block.0, p, address), block.1))
  }

  /** The same for a string: `*handle = GetAddress(4, ReadSharedString(64))`. */
  function FollowString(m: Mem, p: nat): (r: Result<(Mem, nat)>)
    requires p + 4 <= |m.bytes|
    ensures r.Ok? ==> |r.value.0.bytes| == |m.bytes| && r.value.1 < |m.bytes|
  {
    ReadSharedStringKeepsLength(m, 64, -1);
    var block :- ReadSharedStringStep(m, 64, -1);
    var address :- AddressOf(block.0, block.1);
    Ok((WriteWordStep(block.0, p, address), block.1))
  }

  /** A handle slot at p that may be FOLLOWING: the block is read and the slot rewritten. */
  function FollowMemoryIf(m: Mem, p: nat, size: int, alignment: int): (r: Result<Mem>)
    requires p + 4 <= |m.bytes|
    ensures r.Ok? ==> |r.value.bytes| == |m.bytes|
  {
    if WordAt(m.bytes, p) == ADDRESS_FOLLOWING then
      var block :- FollowMemory(m, p, size, alignment);
      Ok(block.0)
    else Ok(m)
  }

  /** A string slot at p that may be FOLLOWING: the string is read and the slot rewritten. */
  function FollowStringIf(m: Mem, p: nat): (r: Result<Mem>)
    requires p + 4 <= |m.bytes|
    ensures r.Ok? ==> |r.value.bytes| == |m.bytes|
  {
    if WordAt(m.bytes, p) == ADDRESS_FOLLOWING then
      var name :- FollowString(m, p);
      Ok(name.0)
    else Ok(m)
  }

  /**
   * The index copies of ReadTags and ReadAssets (fastfile.cpp:596-597,
   * 699-700): `size` stream bytes go straight to the cursor, which moves
   * past them.  The source writes them without a bounds check; the model
   * fails with UncheckedWrite when they do not fit.  The result is the
   * block's offset.
   */
  function ReadInPlaceStep(m: Mem, size: nat): (r: Result<(Mem, nat)>)
    ensures r.Ok? ==> |r.value.0.bytes| == |m.bytes| && r.value.1 == m.cursor
    ensures r.Ok? ==> r.value.0.cursor == m.cursor + size <= |m.bytes|
  {
    if m.cursor + size > |m.bytes| then Fail(UncheckedWrite)
    else
      var s :- ReadMemorySpec(m.input, size);
      Ok((Mem(Splice(m.bytes, m.cursor, s), m.cursor + size, m.input[size..]), m.cursor))
  }

  /**
   * A tag string (fastfile.cpp:622-623): `ReadString(current, -1)` with no
   * length limit straight to the cursor, then `current += strlen + 1`.  The
   * source has no bounds check; the model fails with UncheckedWrite when
   * the string does not fit.  The result is the string's offset.
   */
  function ReadStringInPlaceStep(m: Mem): (r: Result<(Mem, nat)>)
    ensures r.Ok? ==> |r.value.0.bytes| == |m.bytes| && r.value.1 == m.cursor < r.value.0.cursor <= |m.bytes|
  {
    var s :- ReadStringSpec(m.input, -1);
    if m.cursor + |s| > |m.bytes| then Fail(UncheckedWrite)
    else Ok((Mem(Splice(m.bytes, m.cursor, s), m.cursor + |s|, m.input[|s|..]), m.cursor))
  }

  /** A shared string lies inside the arena, whose size does not change. */
  lemma ReadSharedStringKeepsLength(m: Mem, max: int, alignment: int)
    ensures var r := ReadSharedStringStep(m, max, alignment);
      r.Ok? ==> |r.value.0.bytes| == |m.bytes| && r.value.1 < |m.bytes|
  {
  }

  /** `*handle = word` for a handle slot inside the arena. */
  function WriteWordStep(m: Mem, p: nat, w: u32): (r: Mem)
    requires p + 4 <= |m.bytes|
    ensures |r.bytes| == |m.bytes| && r.cursor == m.cursor && r.input == m.input
    ensures WordAt(r.bytes, p) == w
    ensures forall i :: 0 <= i < |m.bytes| && (i < p || p + 4 <= i) ==> r.bytes[i] == m.bytes[i]
  {
    WordRoundTrip(w);
    m.(bytes := Splice(m.bytes, p, WordBytes(w)))
  }

  /** `ff->GetAddress(4, ptr)` in state m. */
  function AddressOf(m: Mem, p: nat): Result<u32>
  {
    GetAddress(|m.bytes|, m.cursor, 4, Some(p))
  }

  /**
   * The string rule of the decoders: an encoded handle goes through
   * GetPointer and reads nothing; FOLLOWING reads a shared string of at
   * most 64 bytes.  MISSING is rejected by GetPointer.
   */
  function ResolveString(m: Mem, h: u32): (r: Result<(Mem, nat)>)
    ensures r.Ok? ==> |r.value.0.bytes| == |m.bytes|
  {
    if h == ADDRESS_FOLLOWING then
      ReadSharedStringKeepsLength(m, 64, -1);
      ReadSharedStringStep(m, 64, -1)
    else
      var p :- GetPointer(|m.bytes|, h);
      Ok((m, p))
  }

  // ---------------------------------------------------------------------
  // What the steps guarantee.

  /**
   * Alloc succeeds exactly when the size is positive, the alignment is valid
   * and the block fits; the block starts at the aligned cursor, the cursor
   * moves past it, and neither the bytes nor the stream change.
   */
  lemma AllocPlaces(m: Mem, size: int, alignment: int)
    ensures var r := AllocStep(m, size, alignment);
      var start := Aligned(m.cursor, alignment);
      && (r.Ok? <==> size > 0 && (alignment == -1 || alignment % 4 == 0) && start + size <= |m.bytes|)
      && (r.Ok? ==> r.value == (m.(cursor := start + size), start))
      && (size <= 0 ==> r == Fail(InvalidAllocationSize))
  {
  }

  /**
   * With alignment 4 the block starts at the least multiple of 4 at or
   * after the cursor; blocks never overlap what was allocated before.
   */
  lemma AllocAligned(m: Mem, size: int)
    requires Wf(m) && AllocStep(m, size, 4).Ok?
    ensures var (m1, at) := AllocStep(m, size, 4).value;
      && at % 4 == 0 && m.cursor <= at < m.cursor + 4
      && (forall c: nat :: m.cursor <= c && c % 4 == 0 ==> at <= c)
      && Wf(m1) && m1.cursor == at + size
  {
    Pow2Values();
    assert Pow2(2) == 4;
    AlignUpPow2(m.cursor, 2);
  }

  /** Without alignment the block starts right at the cursor. */
  lemma AllocUnaligned(m: Mem, size: int)
    requires Wf(m) && AllocStep(m, size, -1).Ok?
    ensures AllocStep(m, size, -1).value == (m.(cursor := m.cursor + size), m.cursor)
    ensures Wf(AllocStep(m, size, -1).value.0)
  {
  }

  /**
   * ReadSharedMemory accepts sizes in [1, 0x2000000] and fills the block it
   * allocates with exactly the next `size` stream bytes, in order.
   */
  lemma ReadSharedMemoryFills(m: Mem, size: int, alignment: int)
    requires Wf(m)
    ensures ReadSharedMemoryStep(m, size, alignment).Ok? ==> 1 <= size <= 0x200_0000
    ensures var r := ReadSharedMemoryStep(m, size, alignment);
      r.Ok? ==> var (m1, at) := r.value;
        && at == Aligned(m.cursor, alignment) && m1.cursor == at + size && Wf(m1)
        && m1.bytes[at..at + size] == m.input[..size]
        && m1.bytes[..at] == m.bytes[..at] && m1.bytes[at + size..] == m.bytes[at + size..]
        && m1.input == m.input[size..]
  {
  }

  /**
   * ReadSharedString allocates exactly the bytes it read, terminator
   * included, and they are the string at the head of the stream.
   */
  lemma ReadSharedStringFills(m: Mem, max: int, alignment: int)
    requires Wf(m)
    ensures ReadSharedStringStep(m, max, alignment).Ok? ==> 1 <= max <= 256
    ensures var r := ReadSharedStringStep(m, max, alignment);
      r.Ok? ==> var (m1, at) := r.value;
        var s := ReadStringSpec(m.input, max).value;
        && ReadStringSpec(m.input, max).Ok?
        && at == Aligned(m.cursor, alignment) && m1.cursor == at + |s| && Wf(m1)
        && m1.bytes[at..at + |s|] == s && s[|s| - 1] == 0 && |s| <= max
        && m1.bytes[..at] == m.bytes[..at] && m1.bytes[at + |s|..] == m.bytes[at + |s|..]
        && m1.input == m.input[|s|..]
  {
  }

  /** A string the decoders resolve always lies inside the arena. */
  lemma ResolveStringInside(m: Mem, h: u32)
    requires Wf(m) && ResolveString(m, h).Ok?
    ensures var (m1, p) := ResolveString(m, h).value;
      Wf(m1) && p < |m1.bytes| == |m.bytes| && AddressOf(m1, p).Ok?
  {
    if h == ADDRESS_FOLLOWING {
      ReadSharedStringFills(m, 64, -1);
    }
  }

  /** An encoded handle is resolved without touching the memory or the stream. */
  lemma ResolveEncoded(m: Mem, h: u32)
    requires h != ADDRESS_FOLLOWING
    ensures ResolveString(m, h).Ok? ==> ResolveString(m, h).value.0 == m
    ensures ResolveString(m, h).Ok? <==> GetPointer(|m.bytes|, h).Ok?
  {
  }

  // ---------------------------------------------------------------------
  // The arena only grows.

  /**
   * m1 is a later state than m: same arena, the cursor has not moved back,
   * nothing below m's cursor was rewritten, and the stream only moved on.
   */
  predicate Grows(m: Mem, m1: Mem)
  {
    && |m1.bytes| == |m.bytes| && m.cursor <= m1.cursor <= |m1.bytes|
    && m1.bytes[..m.cursor] == m.bytes[..m.cursor]
    && |m1.input| <= |m.input| && m1.input == m.input[|m.input| - |m1.input|..]
  }

  lemma GrowsRefl(m: Mem)
    requires Wf(m)
    ensures Grows(m, m)
  {
  }

  lemma GrowsTrans(m: Mem, m1: Mem, m2: Mem)
    requires Grows(m, m1) && Grows(m1, m2)
    ensures Grows(m, m2)
  {
    assert m2.bytes[..m.cursor] == m2.bytes[..m1.cursor][..m.cursor];
    assert m1.bytes[..m.cursor] == m1.bytes[..m1.cursor][..m.cursor];
    var k := |m.input| - |m1.input|;
    assert m2.input == m.input[k..][|m1.input| - |m2.input|..];
  }

  /** A handle written inside a block allocated after m keeps the growth. */
  lemma WriteWordGrows(m: Mem, m1: Mem, p: nat, w: u32)
    requires Grows(m, m1) && m.cursor <= p && p + 4 <= |m1.bytes|
    ensures Grows(m, WriteWordStep(m1, p, w))
  {
    var m2 := WriteWordStep(m1, p, w);
    assert m2.bytes[..m.cursor] == m1.bytes[..m.cursor] by {
      forall i | 0 <= i < m.cursor
        ensures m2.bytes[i] == m1.bytes[i]
      {
      }
    }
  }

  /** The alignments the loader passes: 4, or -1 for none. */
  predicate LoaderAlignment(alignment: int)
  {
    alignment == 4 || alignment == -1
  }

  lemma AllocGrows(m: Mem, size: int, alignment: int)
    requires Wf(m) && LoaderAlignment(alignment) && AllocStep(m, size, alignment).Ok?
    ensures var (m1, at) := AllocStep(m, size, alignment).value;
      Wf(m1) && Grows(m, m1) && m.cursor <= at && m1.cursor == at + size
  {
    if alignment == 4 {
      AllocAligned(m, size);
    }
  }

  lemma ReadMemoryGrows(m: Mem, size: int)
    requires Wf(m) && ReadMemoryStep(m, size).Ok?
    ensures var (m1, s) := ReadMemoryStep(m, size).value;
      Wf(m1) && Grows(m, m1) && m1.bytes == m.bytes && m1.cursor == m.cursor
      && |s| == size && s == m.input[..size] && m1.input == m.input[size..]
  {
  }

  lemma ReadSharedMemoryGrows(m: Mem, size: int, alignment: int)
    requires Wf(m) && LoaderAlignment(alignment) && ReadSharedMemoryStep(m, size, alignment).Ok?
    ensures var (m1, at) := ReadSharedMemoryStep(m, size, alignment).value;
      && Wf(m1) && Grows(m, m1) && m.cursor <= at && m1.cursor == at + size
      && 1 <= size <= |m.input| && m1.bytes[at..at + size] == m.input[..size]
      && m1.input == m.input[size..]
  {
    AllocGrows(m, size, alignment);
    ReadSharedMemoryFills(m, size, alignment);
    var r := ReadSharedMemoryStep(m, size, alignment).value;
    PrefixOfPrefix(r.0.bytes, m.bytes, m.cursor, r.1);
  }

  lemma PrefixOfPrefix(a: seq<byte>, b: seq<byte>, k: nat, n: nat)
    requires k <= n <= |a| && n <= |b| && a[..n] == b[..n]
    ensures a[..k] == b[..k]
  {
    assert a[..k] == a[..n][..k];
    assert b[..k] == b[..n][..k];
  }

  /** The decoders read every shared string without alignment. */
  lemma ReadSharedStringGrows(m: Mem, max: int)
    requires Wf(m) && ReadSharedStringStep(m, max, -1).Ok?
    ensures var (m1, at) := ReadSharedStringStep(m, max, -1).value;
      Wf(m1) && Grows(m, m1) && at == m.cursor < m1.cursor
  {
    var s := ReadStringSpec(m.input, max).value;
    var m1 := Mem(Splice(m.bytes, m.cursor, s), m.cursor + |s|, m.input[|s|..]);
    assert ReadSharedStringStep(m, max, -1).value == (m1, m.cursor);
    assert m1.bytes[..m.cursor] == m.bytes[..m.cursor];
  }

  lemma ResolveStringGrows(m: Mem, h: u32)
    requires Wf(m) && ResolveString(m, h).Ok?
    ensures var (m1, p) := ResolveString(m, h).value;
      Wf(m1) && Grows(m, m1) && p < |m1.bytes| && AddressOf(m1, p).Ok?
  {
    ResolveStringInside(m, h);
    if h == ADDRESS_FOLLOWING {
      ReadSharedStringGrows(m, 64);
    }
  }

  /**
   * Every in-place rewrite stores the encoded address of the block just
   * read: never MISSING or FOLLOWING, and GetPointer decodes it back to the
   * block.  A handle slot below the cursor is outside the block, so the
   * block keeps the stream bytes.
   */
  lemma FollowMemoryRewrites(m: Mem, p: nat, size: int, alignment: int)
    requires Wf(m) && LoaderAlignment(alignment) && p + 4 <= |m.bytes|
    requires FollowMemory(m, p, size, alignment).Ok?
    ensures var (m1, at) := FollowMemory(m, p, size, alignment).value;
      && Wf(m1) && m.cursor <= at && m1.cursor == at + size
      && size <= |m.input| && m1.input == m.input[size..]
      && WordAt(m1.bytes, p) == Encode(at)
      && WordAt(m1.bytes, p) != ADDRESS_MISSING && WordAt(m1.bytes, p) != ADDRESS_FOLLOWING
      && GetPointer(|m1.bytes|, WordAt(m1.bytes, p)) == Ok(at)
      && (p + 4 <= m.cursor ==> m1.bytes[at..at + size] == m.input[..size])
  {
    ReadSharedMemoryGrows(m, size, alignment);
    ReadSharedMemoryFills(m, size, alignment);
    var (m1, at) := ReadSharedMemoryStep(m, size, alignment).value;
    GetAddressEncodes(|m1.bytes|, m1.cursor, Some(at));
    GetPointerOfGetAddress(|m1.bytes|, m1.cursor, Some(at));
    var m2 := FollowMemory(m, p, size, alignment).value.0;
    if p + 4 <= m.cursor {
      assert m2.bytes[at..at + size] == m1.bytes[at..at + size];
    }
  }

  /** The same for a string: the handle now encodes the string's offset. */
  lemma FollowStringRewrites(m: Mem, p: nat)
    requires Wf(m) && p + 4 <= |m.bytes| && FollowString(m, p).Ok?
    ensures var (m1, at) := FollowString(m, p).value;
      && Wf(m1) && at == m.cursor < m1.cursor
      && WordAt(m1.bytes, p) == Encode(at)
      && WordAt(m1.bytes, p) != ADDRESS_MISSING && WordAt(m1.bytes, p) != ADDRESS_FOLLOWING
      && GetPointer(|m1.bytes|, WordAt(m1.bytes, p)) == Ok(at)
  {
    ReadSharedStringGrows(m, 64);
    var (m1, at) := ReadSharedStringStep(m, 64, -1).value;
    GetAddressEncodes(|m1.bytes|, m1.cursor, Some(at));
    GetPointerOfGetAddress(|m1.bytes|, m1.cursor, Some(at));
  }

  /**
   * What becomes of a handle t once loaded: a FOLLOWING one is replaced by
   * a valid encoded address, any other one is kept as it is.
   */
  predicate Resolved(size: nat, t: u32, h: u32)
  {
    if t == ADDRESS_FOLLOWING then h != ADDRESS_MISSING && h != ADDRESS_FOLLOWING && IsValidAddress(size, h)
    else h == t
  }

  /** A FollowStringIf leaves its own slot resolved. */
  lemma FollowStringIfResolves(m: Mem, p: nat)
    requires Wf(m) && p + 4 <= |m.bytes| && FollowStringIf(m, p).Ok?
    ensures var m1 := FollowStringIf(m, p).value;
      Wf(m1) && m.cursor <= m1.cursor && Resolved(|m.bytes|, WordAt(m.bytes, p), WordAt(m1.bytes, p))
  {
    if WordAt(m.bytes, p) == ADDRESS_FOLLOWING {
      FollowStringRewrites(m, p);
      var m1 := FollowString(m, p).value.0;
      GetPointerAcceptsValid(|m1.bytes|, WordAt(m1.bytes, p));
    }
  }

  /** A word inside a block copied from the stream is the stream's word. */
  lemma WordOfBlock(bytes: seq<byte>, input: seq<byte>, at: nat, size: nat, k: nat)
    requires at + size <= |bytes| && size <= |input| && k + 4 <= size
    requires bytes[at..at + size] == input[..size]
    ensures WordAt(bytes, at + k) == WordAt(input, k)
  {
    forall i | k <= i < k + 4
      ensures bytes[at + i] == input[i]
    {
      assert bytes[at + i] == bytes[at..at + size][i];
      assert input[i] == input[..size][i];
    }
  }

  /**
   * A string slot rewritten in place changes no other word below the
   * cursor: the string itself goes at the cursor.
   */
  lemma FollowStringIfKeeps(m: Mem, p: nat, q: nat)
    requires Wf(m) && p + 4 <= |m.bytes| && FollowStringIf(m, p).Ok?
    requires q + 4 <= m.cursor && (q + 4 <= p || p + 4 <= q)
    ensures var m1 := FollowStringIf(m, p).value;
      Wf(m1) && m.cursor <= m1.cursor && WordAt(m1.bytes, q) == WordAt(m.bytes, q)
  {
    if WordAt(m.bytes, p) == ADDRESS_FOLLOWING {
      ReadSharedStringGrows(m, 64);
      var m1 := ReadSharedStringStep(m, 64, -1).value.0;
      forall i | q <= i < q + 4
        ensures m1.bytes[i] == m.bytes[i]
      {
        assert m1.bytes[i] == m1.bytes[..m.cursor][i];
      }
    }
  }

  /** The same for a block: it goes at or after the cursor. */
  lemma FollowMemoryKeeps(m: Mem, p: nat, size: int, alignment: int, q: nat)
    requires Wf(m) && LoaderAlignment(alignment) && p + 4 <= |m.bytes|
    requires FollowMemory(m, p, size, alignment).Ok?
    requires q + 4 <= m.cursor && (q + 4 <= p || p + 4 <= q)
    ensures var m1 := FollowMemory(m, p, size, alignment).value.0;
      Wf(m1) && m.cursor <= m1.cursor && WordAt(m1.bytes, q) == WordAt(m.bytes, q)
  {
    ReadSharedMemoryGrows(m, size, alignment);
    var m1 := ReadSharedMemoryStep(m, size, alignment).value.0;
    forall i | q <= i < q + 4
      ensures m1.bytes[i] == m.bytes[i]
    {
      assert m1.bytes[i] == m1.bytes[..m.cursor][i];
    }
  }

  /** The same when the slot may not be FOLLOWING: nothing is read then. */
  lemma FollowMemoryIfKeeps(m: Mem, p: nat, size: int, alignment: int, q: nat)
    requires Wf(m) && LoaderAlignment(alignment) && p + 4 <= |m.bytes|
    requires FollowMemoryIf(m, p, size, alignment).Ok?
    requires q + 4 <= m.cursor && (q + 4 <= p || p + 4 <= q)
    ensures var m1 := FollowMemoryIf(m, p, size, alignment).value;
      Wf(m1) && m.cursor <= m1.cursor && WordAt(m1.bytes, q) == WordAt(m.bytes, q)
  {
    if WordAt(m.bytes, p) == ADDRESS_FOLLOWING {
      FollowMemoryKeeps(m, p, size, alignment, q);
    }
  }

  /** A rewrite inside a block allocated after m0 keeps the growth from m0. */
  lemma FollowMemoryGrows(m0: Mem, m: Mem, p: nat, size: int, alignment: int)
    requires Wf(m) && Grows(m0, m) && LoaderAlignment(alignment)
    requires m0.cursor <= p && p + 4 <= |m.bytes| && FollowMemory(m, p, size, alignment).Ok?
    ensures Grows(m0, FollowMemory(m, p, size, alignment).value.0)
    ensures m.cursor <= FollowMemory(m, p, size, alignment).value.1
  {
    ReadSharedMemoryGrows(m, size, alignment);
    var m1 := ReadSharedMemoryStep(m, size, alignment).value.0;
    GrowsTrans(m0, m, m1);
    var at := ReadSharedMemoryStep(m, size, alignment).value.1;
    WriteWordGrows(m0, m1, p, AddressOf(m1, at).value);
  }

  lemma FollowStringGrows(m0: Mem, m: Mem, p: nat)
    requires Wf(m) && Grows(m0, m)
    requires m0.cursor <= p && p + 4 <= |m.bytes| && FollowString(m, p).Ok?
    ensures Grows(m0, FollowString(m, p).value.0)
  {
    ReadSharedStringGrows(m, 64);
    var (m1, at) := ReadSharedStringStep(m, 64, -1).value;
    GrowsTrans(m0, m, m1);
    WriteWordGrows(m0, m1, p, AddressOf(m1, at).value);
  }

  /** The words of a block copied in place are the stream's words. */
  lemma InPlaceWords(m: Mem, size: nat, k: nat)
    requires ReadInPlaceStep(m, size).Ok? && k + 4 <= size
    ensures size <= |m.input|
    ensures var (m1, at) := ReadInPlaceStep(m, size).value;
      at + size <= |m1.bytes| && WordAt(m1.bytes, at + k) == WordAt(m.input, k)
  {
    var (m1, at) := ReadInPlaceStep(m, size).value;
    WordOfBlock(m1.bytes, m.input, at, size, k);
  }

  /** A zero-filled arena of n bytes, as `calloc(n, 1)` gives it. */
  function Zeroed(n: nat): (s: seq<byte>)
    ensures |s| == n && forall i :: 0 <= i < n ==> s[i] == 0
  {
    if n == 0 then [] else Zeroed(n - 1) + [0]
  }

  /** The outcome of the later turns of a loop, with the items read so far in front. */
  function Prefixed<T>(done: seq<T>, r: Result<(Mem, seq<T>)>): Result<(Mem, seq<T>)>
  {
    if r.Ok? then Ok((r.value.0, done + r.value.1)) else r
  }

  /** Prefixing twice is prefixing with both. */
  lemma PrefixedTwice<T>(a: seq<T>, b: seq<T>, r: Result<(Mem, seq<T>)>)
    ensures Prefixed(a, Prefixed(b, r)) == Prefixed(a + b, r)
  {
    if r.Ok? {
      assert a + (b + r.value.1) == (a + b) + r.value.1;
    }
  }
}
