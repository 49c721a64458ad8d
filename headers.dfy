/**
 * The two fixed-size parts at the front of a FastFile: the 14-byte file
 * prefix that Validate checks (fastfile.cpp:436-479) and the 60-byte header
 * at the start of the inflated stream that LoadHeader reads
 * (fastfile.cpp:485-525), with the packing of the two section descriptors
 * into one 64-bit count each.
 */
module Headers {
  import opened Errors
  import opened Utility
  import opened Streams
  import opened AddressCodec

  /** "IWff" and "u100", the two magic words (fastfile.cpp:456-457). */
  const MAGIC_IWFF: u32 := 0x6666_5749
  const MAGIC_U100: u32 := 0x3030_3175
  /** The MW1 version word (fastfile.cpp:458). */
  const VERSION: u32 := 5
  /** The zlib CMF/FLG pair of maximum compression (section 2.2 of RFC 1950). */
  const ZLIB_CMF: byte := 0x78
  const ZLIB_FLG: byte := 0xDA

  const SIZE_PREFIX: nat := 14
  const SIZE_HEADER: nat := 44
  const SIZE_SECTIONS: nat := 16
  /** The bounds LoadHeader puts on the file size (fastfile.cpp:503-504). */
  const MIN_FILE_SIZE: int := 0x3C
  const MAX_FILE_SIZE: int := 0x1000_0000

  /**
   * FastFile::Validate (fastfile.cpp:436-479) on the bytes of the file.
   * The prefix is read through a stream of its own, so a file shorter than
   * 14 bytes fails with a refill failure.  A wrong version word is reported
   * before a wrong magic word, and both before the zlib pair.
   */
  function Validate(file: seq<byte>): Result<()>
  {
    var prefix :- ReadMemorySpec(file, SIZE_PREFIX);
    var magic, tag, version := WordAt(prefix, 0), WordAt(prefix, 4), WordAt(prefix, 8);
    if !(magic == MAGIC_IWFF && tag == MAGIC_U100 && version == VERSION) then
      if version != VERSION then Fail(NotFromMW1) else Fail(NotAFastFile)
    else if !(prefix[12] == ZLIB_CMF && prefix[13] == ZLIB_FLG) then Fail(CorruptedFastFile)
    else Ok(())
  }

  /** The words of the file prefix, read in place. */
  predicate PrefixMatches(file: seq<byte>)
    requires |file| >= SIZE_PREFIX
  {
    && WordAt(file, 0) == MAGIC_IWFF && WordAt(file, 4) == MAGIC_U100 && WordAt(file, 8) == VERSION
    && file[12] == ZLIB_CMF && file[13] == ZLIB_FLG
  }

  /**
   * Validate accepts exactly the files that start with the two magic
   * words, version 5 and the zlib pair 0x78 0xDA; it reports the version
   * first, then the magic, then the compression.
   */
  lemma ValidateAccepts(file: seq<byte>)
    ensures Validate(file).Ok? <==> |file| >= SIZE_PREFIX && PrefixMatches(file)
    ensures |file| < SIZE_PREFIX ==> Validate(file) == Fail(RefillFailed)
    ensures |file| >= SIZE_PREFIX ==>
      && (Validate(file) == Fail(NotFromMW1) <==> WordAt(file, 8) != VERSION)
      && (Validate(file) == Fail(NotAFastFile) <==>
            WordAt(file, 8) == VERSION && !(WordAt(file, 0) == MAGIC_IWFF && WordAt(file, 4) == MAGIC_U100))
      && (Validate(file) == Fail(CorruptedFastFile) <==>
            && WordAt(file, 0) == MAGIC_IWFF && WordAt(file, 4) == MAGIC_U100 && WordAt(file, 8) == VERSION
            && !(file[12] == ZLIB_CMF && file[13] == ZLIB_FLG))
  {
    if |file| >= SIZE_PREFIX {
      var prefix := file[..SIZE_PREFIX];
      assert WordAt(prefix, 0) == WordAt(file, 0);
      assert WordAt(prefix, 4) == WordAt(file, 4);
      assert WordAt(prefix, 8) == WordAt(file, 8);
    }
  }

  /**
   * A section descriptor packed into the `long long` count field
   * (fastfile.cpp:516-524): `((long long)address << 32) | (long long)count`,
   * as a 64-bit pattern.  A negative count is sign-extended and so covers
   * the address bits.
   */
  function Pack(count: int, address: int): nat
  {
    Or(Low32(address) * TWO_32, count % TWO_64)
  }

  /**
   * The count and address LoadTags and LoadAssets take back out
   * (fastfile.cpp:537-538, 638-639): `(packed >> 0) & 0xFFFFFFFF` and
   * `(packed >> 32) & 0xFFFFFFFF`, each stored in an `int`.
   */
  function Unpack(packed: nat): (int, int)
  {
    (Signed(packed % TWO_32), Signed((packed / TWO_32) % TWO_32))
  }

  /** A 32-bit int survives the round trip through its pattern. */
  lemma SignedOfLow32(x: int)
    requires -0x8000_0000 <= x < 0x8000_0000
    ensures Signed(Low32(x)) == x
  {
  }

  /** For a non-negative count, unpacking gives back both halves. */
  lemma PackRoundTrip(count: int, address: int)
    requires 0 <= count < 0x8000_0000 && -0x8000_0000 <= address < 0x8000_0000
    ensures Unpack(Pack(count, address)) == (count, address)
  {
    hide Or;
    Pow2Values();
    var hi := Low32(address);
    OrDisjoint(hi, count, 32);
    var p := Pack(count, address);
    assert p == hi * TWO_32 + count;
    DivModUnique(p, TWO_32, hi, count);
    DivModUnique(hi, TWO_32, 0, hi);
    SignedOfLow32(address);
    hide Low32;
    assert Unpack(p) == (Signed(count), Signed(hi));
  }

  /** Any count, negative ones included, comes back out unchanged. */
  lemma PackKeepsCount(count: int, address: int)
    requires -0x8000_0000 <= count < 0x8000_0000
    ensures Unpack(Pack(count, address)).0 == count
  {
    hide Or, Signed;
    Pow2Values();
    var hi := Low32(address) * TWO_32;
    DivModUnique(hi, TWO_32, Low32(address), 0);
    OrLow(hi, count % TWO_64, 32);
    LowOfLow64(count);
    SignedOfLow32(count);
  }

  /** Reducing modulo 2^64 first keeps the low 32 bits. */
  lemma LowOfLow64(x: int)
    ensures (x % TWO_64) % TWO_32 == Low32(x)
  {
    var q, r := x / TWO_64, x % TWO_64;
    var q2, r2 := r / TWO_32, r % TWO_32;
    assert x == TWO_64 * q + r && r == TWO_32 * q2 + r2;
    assert TWO_64 * q == TWO_32 * (TWO_32 * q);
    DivModUnique(x, TWO_32, TWO_32 * q + q2, r2);
  }

  /**
   * The section rule (fastfile.cpp:541-546, 642-647): no entries and a
   * MISSING address, or at least one entry and a FOLLOWING address
   * (ADDRESS_FOLLOWING is the int -1 there).
   */
  predicate SectionValid(count: int, address: int)
  {
    (count == 0 && address == 0) || (count >= 1 && address == -1)
  }

  /** A negative count never passes the section rule, whatever became of the address. */
  lemma NegativeCountRejected(count: int, address: int)
    requires -0x8000_0000 <= count < 0
    ensures !SectionValid(Unpack(Pack(count, address)).0, Unpack(Pack(count, address)).1)
  {
    PackKeepsCount(count, address);
  }

  /** The header words and the two packed section descriptors. */
  datatype Header = Header(words: seq<u32>, tags: nat, assets: nat)

  /**
   * FastFile::LoadHeader (fastfile.cpp:485-525) on the inflated stream:
   * 44 header bytes and 16 section bytes are read, the file size (word 0)
   * and the data size (word 6) are checked as signed ints, and the section
   * descriptors are packed.  The result holds the rest of the stream.
   */
  function LoadHeader(input: seq<byte>): (r: Result<(seq<byte>, Header)>)
    ensures r.Ok? ==> |r.value.1.words| == 11
  {
    var header :- ReadMemorySpec(input, SIZE_HEADER);
    var rest := input[SIZE_HEADER..];
    var sections :- ReadMemorySpec(rest, SIZE_SECTIONS);
    var h, s := Words(header), Words(sections);
    if !(MIN_FILE_SIZE <= Signed(h[0]) <= MAX_FILE_SIZE) then Fail(FileSizeOutOfBounds)
    else if !(0 <= Signed(h[6]) <= MAX_DATA_SIZE) then Fail(DataSizeOutOfBounds)
    else Ok((rest[SIZE_SECTIONS..], Header(h, Pack(Signed(s[0]), Signed(s[1])), Pack(Signed(s[2]), Signed(s[3])))))
  }

  /** The declared data size, header word 6. */
  function DataSize(h: Header): int
    requires |h.words| == 11
  {
    Signed(h.words[6])
  }

  /**
   * What LoadHeader accepts: 60 bytes are consumed, the header words are
   * the stream's first eleven, both sizes are in bounds, and each
   * descriptor unpacks to the stream's count, with its address as well
   * when the count is not negative.
   */
  lemma HeaderLayout(input: seq<byte>)
    requires LoadHeader(input).Ok?
    ensures var (rest, h) := LoadHeader(input).value;
      && SIZE_HEADER + SIZE_SECTIONS <= |input| && rest == input[SIZE_HEADER + SIZE_SECTIONS..]
      && (forall i :: 0 <= i < 11 ==> h.words[i] == WordAt(input, 4 * i))
      && MIN_FILE_SIZE <= Signed(h.words[0]) <= MAX_FILE_SIZE && 0 <= DataSize(h) <= MAX_DATA_SIZE
      && Unpack(h.tags).0 == Signed(WordAt(input, 44)) && Unpack(h.assets).0 == Signed(WordAt(input, 52))
      && (Signed(WordAt(input, 44)) >= 0 ==> Unpack(h.tags).1 == Signed(WordAt(input, 48)))
      && (Signed(WordAt(input, 52)) >= 0 ==> Unpack(h.assets).1 == Signed(WordAt(input, 56)))
  {
    var header := input[..SIZE_HEADER];
    var sections := input[SIZE_HEADER..][..SIZE_SECTIONS];
    forall i | 0 <= i < 11
      ensures WordAt(header, 4 * i) == WordAt(input, 4 * i)
    {
    }
    forall i | 0 <= i < 4
      ensures WordAt(sections, 4 * i) == WordAt(input, SIZE_HEADER + 4 * i)
    {
    }
    var s := Words(sections);
    PackKeepsCount(Signed(s[0]), Signed(s[1]));
    PackKeepsCount(Signed(s[2]), Signed(s[3]));
    if Signed(s[0]) >= 0 {
      PackRoundTrip(Signed(s[0]), Signed(s[1]));
    }
    if Signed(s[2]) >= 0 {
      PackRoundTrip(Signed(s[2]), Signed(s[3]));
    }
  }
}
