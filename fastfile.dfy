/**
 * FastFile (fastfile.cpp:22-169, 436-1007): a fast file is validated on
 * its first 14 bytes, then the zlib stream that starts at byte 12 is read
 * in order: the header, the tag section and the asset section.
 *
 * Opening the file and inflating it are left to the caller: `file` is the
 * file's bytes and `inflated` what zlib produces from byte 12 on.
 */
module FastFiles {
  import opened Errors
  import opened Utility
  import opened Streams
  import opened Memory
  import opened Arenas
  import opened AddressCodec
  import Headers
  import Tags
  import Assets

  /** What a loaded fast file holds. */
  datatype Loaded = Loaded(
    header: seq<u32>,
    bytes: seq<byte>,
    cursor: nat,
    tagCount: int,
    tags: seq<Option<nat>>,
    assetCount: int,
    assets: seq<Assets.AssetEntry>)

  /** The arena LoadHeader allocates: the declared data size in zeroes, over the rest of the stream. */
  function Fresh(rest: seq<byte>, h: Headers.Header): Mem
    requires |h.words| == 11 && 0 <= Headers.DataSize(h)
  {
    Mem(Zeroed(Headers.DataSize(h)), 0, rest)
  }

  /**
   * FastFile::Load (fastfile.cpp:133-162): Validate, then LoadHeader,
   * LoadTags and LoadAssets on the inflated stream; the first error ends
   * the load.
   */
  function LoadSpec(file: seq<byte>, inflated: seq<byte>): (r: Result<Loaded>)
    ensures r.Ok? ==> |r.value.header| == 11 && |r.value.tags| == r.value.tagCount && |r.value.assets| == r.value.assetCount
  {
    var _ :- Headers.Validate(file);
    var read :- Headers.LoadHeader(inflated);
    var h := read.1;
    var tags :- Tags.LoadTags(Fresh(read.0, h), h.tags);
    var assets :- Assets.LoadAssets(tags.0, h.assets);
    Ok(Loaded(h.words, assets.0.bytes, assets.0.cursor, tags.1, tags.2, assets.1, assets.2))
  }

  /**
   * What a successful load promises: the file starts with the fast file
   * prefix; the header is the stream's first eleven words with both sizes
   * in bounds; the arena has the declared data size; the tag and asset
   * tables have the section counts; and when there are assets the arena
   * is used up.
   */
  lemma LoadMeaning(file: seq<byte>, inflated: seq<byte>)
    requires LoadSpec(file, inflated).Ok?
    ensures var l := LoadSpec(file, inflated).value;
      && |file| >= Headers.SIZE_PREFIX && Headers.PrefixMatches(file)
      && 60 <= |inflated| && (forall i :: 0 <= i < 11 ==> l.header[i] == WordAt(inflated, 4 * i))
      && Headers.MIN_FILE_SIZE <= Signed(l.header[0]) <= Headers.MAX_FILE_SIZE
      && |l.bytes| == Signed(l.header[6]) <= MAX_DATA_SIZE
      && l.tagCount >= 0 && l.assetCount >= 0
      && (l.assetCount > 0 ==> l.cursor == |l.bytes|)
  {
    Headers.ValidateAccepts(file);
    Headers.HeaderLayout(inflated);
    var read := Headers.LoadHeader(inflated).value;
    var m := Fresh(read.0, read.1);
    var tags := Tags.LoadTags(m, read.1.tags).value;
    hide Tags.LoadTags, Assets.ReadAssets, Headers.LoadHeader;
    var (count, _) := Headers.Unpack(read.1.assets);
    if count > 0 {
      assert Assets.LoadAssets(tags.0, read.1.assets).value.0 == Assets.ReadAssets(tags.0, count).value.0;
    }
  }

  class FastFile {
    /** The bytes of the file. */
    const file: seq<byte>
    /** What the zlib stream starting at file byte 12 inflates to. */
    const inflated: seq<byte>

    var header: seq<u32>
    var arena: Arena?
    /** The two `section[].count` fields: packed descriptors after LoadHeader, counts after the load. */
    var tagSection: nat
    var assetSection: nat
    var tags: seq<Option<nat>>
    var assets: seq<Assets.AssetEntry>

    /** FastFile::FastFile and Initialize (fastfile.cpp:22-46, 113-128): nothing loaded yet. */
    constructor (file: seq<byte>, inflated: seq<byte>)
      ensures this.file == file && this.inflated == inflated
      ensures arena == null && tagSection == 0 && assetSection == 0 && tags == [] && assets == []
    {
      this.file := file;
      this.inflated := inflated;
      header := [];
      arena := null;
      tagSection, assetSection := 0, 0;
      tags, assets := [], [];
    }

    /** What the load has produced. */
    ghost function Snapshot(): Loaded
      reads this, arena
      requires arena != null
    {
      Loaded(header, arena.mem, arena.current, tagSection, tags, assetSection, assets)
    }

    /**
     * FastFile::Validate (fastfile.cpp:436-479): the first 14 bytes are
     * read through a stream of their own and checked.
     */
    method Validate() returns (r: Result<()>)
      ensures r == Headers.Validate(file)
    {
      var stream := new Stream(file);
      var prefix :- stream.ReadMemory(Headers.SIZE_PREFIX);
      var magic, tag, version := WordAt(prefix, 0), WordAt(prefix, 4), WordAt(prefix, 8);
      if !(magic == Headers.MAGIC_IWFF && tag == Headers.MAGIC_U100 && version == Headers.VERSION) {
        if version != Headers.VERSION {
          return Fail(NotFromMW1);
        }
        return Fail(NotAFastFile);
      }
      if !(prefix[12] == Headers.ZLIB_CMF && prefix[13] == Headers.ZLIB_FLG) {
        return Fail(CorruptedFastFile);
      }
      r := Ok(());
    }

    /**
     * FastFile::LoadHeader (fastfile.cpp:485-525): the header and the
     * section descriptors, then the zero-filled arena over the stream.
     */
    method LoadHeader(stream: Stream) returns (r: Result<()>)
      requires stream.Valid()
      modifies this`header, this`arena, this`tagSection, this`assetSection, stream, stream.buffer
      ensures var spec := Headers.LoadHeader(old(stream.pending));
        && (spec.Fail? ==> r == Fail(spec.error))
        && (spec.Ok? ==>
              && r == Ok(()) && arena != null && fresh(arena) && fresh(arena.data) && arena.Valid() && arena.stream == stream
              && header == spec.value.1.words && tagSection == spec.value.1.tags && assetSection == spec.value.1.assets
              && arena.State() == Fresh(spec.value.0, spec.value.1))
    {
      hide Headers.Pack;
      var h :- stream.ReadMemory(Headers.SIZE_HEADER);
      var s :- stream.ReadMemory(Headers.SIZE_SECTIONS);
      var words, sections := Words(h), Words(s);
      if !(Headers.MIN_FILE_SIZE <= Signed(words[0]) <= Headers.MAX_FILE_SIZE) {
        return Fail(FileSizeOutOfBounds);
      }
      if !(0 <= Signed(words[6]) <= MAX_DATA_SIZE) {
        return Fail(DataSizeOutOfBounds);
      }
      arena := new Arena(stream, Signed(words[6]));
      header := words;
      tagSection := Headers.Pack(Signed(sections[0]), Signed(sections[1]));
      assetSection := Headers.Pack(Signed(sections[2]), Signed(sections[3]));
      r := Ok(());
    }

    /** FastFile::ReadTags (fastfile.cpp:577-626) for `count` tags. */
    method ReadTags(count: nat) returns (r: Result<()>)
      requires arena != null && arena.Valid()
      modifies this`tags, arena, arena.data, arena.stream, arena.stream.buffer
      ensures arena.Valid()
      ensures var spec := Tags.ReadTags(old(arena.State()), count);
        && (spec.Fail? ==> r == Fail(spec.error))
        && (spec.Ok? ==> r == Ok(()) && arena.State() == spec.value.0 && tags == spec.value.1)
    {
      var index :- arena.ReadInPlace(4 * count);
      var loaded :- Tags.DecodeTags(arena, index, count);
      tags := loaded;
      r := Ok(());
    }

    /** FastFile::LoadTags (fastfile.cpp:531-569). */
    method LoadTags() returns (r: Result<()>)
      requires arena != null && arena.Valid()
      modifies this`tags, this`tagSection, arena, arena.data, arena.stream, arena.stream.buffer
      ensures arena.Valid()
      ensures var spec := Tags.LoadTags(old(arena.State()), old(tagSection));
        && (spec.Fail? ==> r == Fail(spec.error))
        && (spec.Ok? ==> r == Ok(()) && arena.State() == spec.value.0 && tagSection == spec.value.1 && tags == spec.value.2)
    {
      var (count, address) := Headers.Unpack(tagSection);
      if !Headers.SectionValid(count, address) {
        return Fail(InvalidSectionCombination);
      }
      if count == 0 {
        tags := [];
        tagSection := 0;
        return Ok(());
      }
      tagSection := count;
      r := ReadTags(count);
    }

    /** FastFile::ReadAssets (fastfile.cpp:678-1007) for `count` entries. */
    method ReadAssets(count: nat) returns (r: Result<()>)
      requires arena != null && arena.Valid()
      modifies this`assets, arena, arena.data, arena.stream, arena.stream.buffer
      ensures arena.Valid()
      ensures var spec := Assets.ReadAssets(old(arena.State()), count);
        && (spec.Fail? ==> r == Fail(spec.error))
        && (spec.Ok? ==> r == Ok(()) && arena.State() == spec.value.0 && assets == spec.value.1)
    {
      hide Assets.Classify, Assets.LoadFrom, Assets.LoadOne;
      var _ :- arena.Align(4);
      var index :- arena.ReadInPlace(8 * count);
      var entries :- Assets.ClassifyIndex(arena, index, count);
      var loaded :- Assets.LoadEntries(arena, entries, index);
      assets := loaded;
      if arena.current != arena.data.Length {
        return Fail(DidNotReadAllData);
      }
      r := Ok(());
    }

    /** FastFile::LoadAssets (fastfile.cpp:632-670). */
    method LoadAssets() returns (r: Result<()>)
      requires arena != null && arena.Valid()
      modifies this`assets, this`assetSection, arena, arena.data, arena.stream, arena.stream.buffer
      ensures arena.Valid()
      ensures var spec := Assets.LoadAssets(old(arena.State()), old(assetSection));
        && (spec.Fail? ==> r == Fail(spec.error))
        && (spec.Ok? ==> r == Ok(()) && arena.State() == spec.value.0 && assetSection == spec.value.1 && assets == spec.value.2)
    {
      var (count, address) := Headers.Unpack(assetSection);
      if !Headers.SectionValid(count, address) {
        return Fail(InvalidSectionCombination);
      }
      if count == 0 {
        assets := [];
        assetSection := 0;
        return Ok(());
      }
      assetSection := count;
      r := ReadAssets(count);
    }

    /** FastFile::Load (fastfile.cpp:133-162). */
    method Load() returns (r: Result<()>)
      modifies this
      ensures var spec := LoadSpec(file, inflated);
        && (spec.Fail? ==> r == Fail(spec.error))
        && (spec.Ok? ==> r == Ok(()) && arena != null && Snapshot() == spec.value)
    {
      hide Headers.Validate, Headers.LoadHeader, Tags.LoadTags, Assets.LoadAssets;
      var _ :- Validate();
      var stream := new Stream(inflated);
      var _ :- LoadHeader(stream);
      var _ :- LoadTags();
      var _ :- LoadAssets();
      r := Ok(());
    }
  }
}
