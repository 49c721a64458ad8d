/**
 * The fast-file address codec (fastfile.cpp:171-243).
 *
 * A 32-bit handle has three meanings: ADDRESS_MISSING (0), ADDRESS_FOLLOWING
 * (0xFFFFFFFF, "the data comes next in the stream") and an encoded address
 * whose bits 28-30 hold the group (always 4) and whose low 28 bits hold the
 * arena offset plus one.  The codec depends only on the arena size
 * (`header[6]`) and, for the cursor's own address, on the cursor; it is
 * modelled as pure functions of those two numbers.  Pointers into the arena
 * are offsets.
 */
module AddressCodec {
  import opened Errors
  import opened Utility

  /** ADDRESS_MISSING and ADDRESS_FOLLOWING (fastfile.hpp:18-19) as address_t values. */
  const ADDRESS_MISSING: u32 := 0
  const ADDRESS_FOLLOWING: u32 := 0xFFFF_FFFF

  /** 2^28: one unit of the group field. */
  const GROUP_UNIT: nat := 0x1000_0000

  /** The largest arena size the header accepts (fastfile.cpp:505). */
  const MAX_DATA_SIZE: nat := 0x0FFF_FFC4

  /** `((int)a >> 28) & 7`: bits 28-30; the arithmetic shift of bit 31 is masked away. */
  function Group(a: u32): nat
  {
    And(Shr(a, 28), 7)
  }

  /** `(int)a & 0x0FFFFFFF`: the low 28 bits. */
  function Offset(a: u32): nat
  {
    And(a, 0x0FFF_FFFF)
  }

  /**
   * GetAddress(group, address) (fastfile.cpp:171-199).  `ptr` is the arena
   * offset the C pointer points at, or None for nullptr, which stands for
   * the cursor.  The result is (offset + 1) | 0x40000000, cast to address_t.
   */
  function GetAddress(size: nat, cursor: nat, group: int, ptr: Option<nat>): (r: Result<u32>)
    ensures r.Ok? <==> group == 4 && (if ptr.Some? then ptr.value < size else cursor < size)
    ensures group != 4 ==> r == Fail(UnsupportedGroup)
    ensures group == 4 && ptr.Some? && ptr.value >= size ==> r == Fail(AddressNotInFastFile)
    ensures group == 4 && ptr.None? && cursor >= size ==> r == Fail(CorruptedPointer)
  {
    if group != 4 then Fail(UnsupportedGroup) else
    var intermediate :-
      if ptr.None? then Ok(cursor + 1)
      else if ptr.value < size then Ok(ptr.value + 1)
      else Fail(AddressNotInFastFile);
    :- Check(1 <= intermediate <= size, CorruptedPointer);
    Ok(Low32(Or(intermediate, 0x4000_0000)))
  }

  /** IsValidAddress (fastfile.cpp:206-220). */
  function IsValidAddress(size: nat, a: u32): bool
  {
    a == ADDRESS_MISSING || a == ADDRESS_FOLLOWING || (Group(a) == 4 && 0 < Offset(a) <= size)
  }

  /** GetPointer (fastfile.cpp:226-243): the arena offset an encoded address denotes. */
  function GetPointer(size: nat, a: u32): (r: Result<nat>)
    ensures r.Ok? ==> r.value < size
    ensures a == ADDRESS_MISSING || a == ADDRESS_FOLLOWING ==> r == Fail(InvalidAddress)
    ensures r.Fail? ==> r.error == InvalidAddress || r.error == UnsupportedAddress
  {
    if a == ADDRESS_MISSING || a == ADDRESS_FOLLOWING then Fail(InvalidAddress)
    else if Group(a) == 4 && 0 < Offset(a) <= size then Ok(Offset(a) - 1)
    else Fail(UnsupportedAddress)
  }

  /** The encoded address of arena offset p, as GetAddress produces it. */
  function Encode(p: nat): nat
  {
    4 * GROUP_UNIT + p + 1
  }

  // ---------------------------------------------------------------------
  // Lemmas.

  lemma Pow2Small()
    ensures Pow2(3) == 8 && Pow2(8) == 0x100 && Pow2(16) == 0x1_0000 && Pow2(28) == GROUP_UNIT
  {
    assert Pow2(4) == 16;
    assert Pow2(8) == 256 by { Pow2Add(4, 4); }
    assert Pow2(16) == 0x1_0000 by { Pow2Add(8, 8); }
    assert Pow2(24) == 0x100_0000 by { Pow2Add(16, 8); }
    Pow2Add(24, 4);
  }

  /** The group and offset fields are bits 28-30 and bits 0-27 of the word. */
  lemma Fields(a: u32)
    ensures Group(a) == (a / GROUP_UNIT) % 8
    ensures Offset(a) == a % GROUP_UNIT
  {
    Pow2Small();
    ShrDiv(a, 28);
    AndLowMask(a / GROUP_UNIT, 3);
    AndLowMask(a, 28);
  }

  /** Splitting a word into its bit-31 part, its group and its offset. */
  lemma FieldsOf(a: u32, high: nat, group: nat, offset: nat)
    requires high < 2 && group < 8 && offset < GROUP_UNIT
    requires a == high * 0x8000_0000 + group * GROUP_UNIT + offset
    ensures Group(a) == group && Offset(a) == offset
  {
    Fields(a);
    DivModUnique(a, GROUP_UNIT, high * 8 + group, offset);
    DivModUnique(high * 8 + group, 8, high, group);
  }

  /** OR with the group bit adds it when the offset fits below bit 28. */
  lemma {:induction false} OrGroupBit(n: nat)
    requires 1 <= n < GROUP_UNIT
    ensures Or(n, 0x4000_0000) == Encode(n - 1)
  {
    Pow2Small();
    OrDisjoint(4, n, 28);
    OrCommutes(4 * GROUP_UNIT, n);
  }

  lemma {:induction false} OrCommutes(a: nat, b: nat)
    ensures Or(a, b) == Or(b, a)
    decreases a
  {
    if a > 0 && b > 0 {
      OrCommutes(a / 2, b / 2);
    }
  }

  /**
   * A successful GetAddress returns the offset plus one with the group bit
   * set: never ADDRESS_MISSING, never ADDRESS_FOLLOWING, and always a valid
   * address (fastfile.cpp:192-198, 215-219).
   */
  lemma GetAddressEncodes(size: nat, cursor: nat, ptr: Option<nat>)
    requires size <= MAX_DATA_SIZE
    requires GetAddress(size, cursor, 4, ptr).Ok?
    ensures var target := if ptr.Some? then ptr.value else cursor;
      GetAddress(size, cursor, 4, ptr).value == Encode(target)
    ensures GetAddress(size, cursor, 4, ptr).value != ADDRESS_MISSING
    ensures GetAddress(size, cursor, 4, ptr).value != ADDRESS_FOLLOWING
    ensures IsValidAddress(size, GetAddress(size, cursor, 4, ptr).value)
  {
    var target := if ptr.Some? then ptr.value else cursor;
    GetAddressValue(size, cursor, ptr);
    FieldsOf(Encode(target), 0, 4, target + 1);
  }

  lemma GetAddressValue(size: nat, cursor: nat, ptr: Option<nat>)
    requires size <= MAX_DATA_SIZE
    requires GetAddress(size, cursor, 4, ptr).Ok?
    ensures GetAddress(size, cursor, 4, ptr).value == Encode(if ptr.Some? then ptr.value else cursor)
  {
    var target := if ptr.Some? then ptr.value else cursor;
    assert GetAddress(size, cursor, 4, ptr) == Ok(Low32(Or(target + 1, 0x4000_0000)));
    LowGroupBit(target);
  }

  lemma LowGroupBit(target: nat)
    requires target < MAX_DATA_SIZE
    ensures Low32(Or(target + 1, 0x4000_0000)) == Encode(target)
  {
    OrGroupBit(target + 1);
    DivModUnique(Encode(target), TWO_32, 0, Encode(target));
  }

  /** Decoding an encoded arena offset gives the offset back (fastfile.cpp:171-243). */
  lemma GetPointerOfGetAddress(size: nat, cursor: nat, ptr: Option<nat>)
    requires size <= MAX_DATA_SIZE
    requires GetAddress(size, cursor, 4, ptr).Ok?
    ensures GetPointer(size, GetAddress(size, cursor, 4, ptr).value)
      == Ok(if ptr.Some? then ptr.value else cursor)
  {
    var target := if ptr.Some? then ptr.value else cursor;
    GetAddressEncodes(size, cursor, ptr);
    FieldsOf(Encode(target), 0, 4, target + 1);
  }

  /** Every offset inside the arena round-trips through the codec. */
  lemma RoundTrip(size: nat, p: nat)
    requires size <= MAX_DATA_SIZE && p < size
    ensures GetAddress(size, 0, 4, Some(p)).Ok?
    ensures GetPointer(size, GetAddress(size, 0, 4, Some(p)).value) == Ok(p)
  {
    GetPointerOfGetAddress(size, 0, Some(p));
  }

  /**
   * The other direction: a handle GetPointer accepts re-encodes to itself
   * with bit 31 cleared, because the group field ignores that bit.
   */
  lemma GetAddressOfGetPointer(size: nat, cursor: nat, a: u32)
    requires size <= MAX_DATA_SIZE
    requires GetPointer(size, a).Ok?
    ensures GetAddress(size, cursor, 4, Some(GetPointer(size, a).value)) == Ok(a % 0x8000_0000)
  {
    var p := GetPointer(size, a).value;
    Fields(a);
    var high, rest := a / 0x8000_0000, a % 0x8000_0000;
    DivModUnique(rest, GROUP_UNIT, rest / GROUP_UNIT, rest % GROUP_UNIT);
    FieldsOf(a, high, rest / GROUP_UNIT, rest % GROUP_UNIT);
    assert rest == Encode(p);
    GetAddressEncodes(size, cursor, Some(p));
  }

  /**
   * GetPointer accepts exactly the valid addresses other than MISSING and
   * FOLLOWING: both functions apply the same group and offset test.
   */
  lemma GetPointerAcceptsValid(size: nat, a: u32)
    ensures GetPointer(size, a).Ok? <==>
      IsValidAddress(size, a) && a != ADDRESS_MISSING && a != ADDRESS_FOLLOWING
  {
  }

  /**
   * GetPointer's two failures: MISSING and FOLLOWING are invalid addresses,
   * and a group other than 4 or an offset outside [1, size] is unsupported.
   */
  lemma GetPointerRejects(size: nat, a: u32)
    requires a != ADDRESS_MISSING && a != ADDRESS_FOLLOWING
    ensures GetPointer(size, a) == Fail(UnsupportedAddress) <==>
      (a / GROUP_UNIT) % 8 != 4 || a % GROUP_UNIT == 0 || a % GROUP_UNIT > size
  {
    Fields(a);
  }

  /**
   * The cursor's own address is encodable only while the cursor is inside
   * the arena: once it reaches the declared size, GetAddress(4) fails.
   */
  lemma CursorAddress(size: nat, cursor: nat)
    requires size <= MAX_DATA_SIZE
    ensures GetAddress(size, cursor, 4, None).Ok? <==> cursor < size
    ensures cursor < size ==> GetPointer(size, GetAddress(size, cursor, 4, None).value) == Ok(cursor)
  {
    if cursor < size {
      GetPointerOfGetAddress(size, cursor, None);
    }
  }

  /**
   * Bit 31 does not take part in decoding: apart from the two handles it
   * turns into MISSING or FOLLOWING, setting it changes nothing.
   */
  lemma BitThirtyOneIgnored(size: nat, a: u32)
    requires a < 0x8000_0000 && a != 0 && a != 0x7FFF_FFFF
    ensures IsValidAddress(size, a + 0x8000_0000) == IsValidAddress(size, a)
    ensures GetPointer(size, a + 0x8000_0000) == GetPointer(size, a)
  {
    DivModUnique(a, GROUP_UNIT, a / GROUP_UNIT, a % GROUP_UNIT);
    FieldsOf(a, 0, a / GROUP_UNIT, a % GROUP_UNIT);
    FieldsOf(a + 0x8000_0000, 1, a / GROUP_UNIT, a % GROUP_UNIT);
  }
}
