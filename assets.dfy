/**
 * The asset section (fastfile.cpp:632-1007): an index of `count` pairs of
 * words (asset type, handle) copied to the aligned cursor, classified in a
 * first pass, then handed one by one to the decoder of the asset's type;
 * at the end every byte of the arena must have been used.
 *
 * The seven supported asset types and their decoders (asset.hpp:8-40):
 * physpreset 0x01, material 0x04, techset 0x05, image 0x06, localize
 * 0x16, rawfile 0x1F and stringtable 0x20.
 */
module Assets {
  import opened Errors
  import opened Utility
  import opened AddressCodec
  import opened Memory
  import opened Arenas
  import opened Headers
  import PhysPresets
  import Materials
  import Techsets
  import Images
  import Localizes
  import Rawfiles
  import Stringtables

  const ASSET_TYPE_PHYSPRESET: int := 0x01
  const ASSET_TYPE_MATERIAL: int := 0x04
  const ASSET_TYPE_TECHSET: int := 0x05
  const ASSET_TYPE_IMAGE: int := 0x06
  const ASSET_TYPE_LOCALIZE: int := 0x16
  const ASSET_TYPE_RAWFILE: int := 0x1F
  const ASSET_TYPE_STRINGTABLE: int := 0x20

  /** lpAssetType (asset.cpp:18-52): the name of each asset type 0x00 ... 0x20. */
  const ASSET_TYPE_NAMES: seq<string> := [
    "xmodelpieces", "physpreset", "xanim", "xmodel", "material", "techset", "image", "sound",
    "sndcurve", "loaded_sound", "col_map_sp", "col_map_mp", "com_map", "game_map_sp", "game_map_mp", "map_ents",
    "gfx_map", "lightdef", "ui_map", "font", "menufile", "menu", "localize", "weapon",
    "snddriverglobals", "fx", "impactfx", "aitype", "mptype", "character", "xmodelalias", "rawfile",
    "stringtable"]

  /** Which decoder an asset type goes to; NoDecoder is the `nullptr` of the first pass. */
  datatype AssetKind =
    | PhysPresetKind | MaterialKind | TechsetKind | ImageKind
    | LocalizeKind | RawfileKind | StringtableKind | NoDecoder

  /** The name each decoder's asset type carries in lpAssetType. */
  function KindName(k: AssetKind): string
  {
    match k
    case PhysPresetKind => "physpreset"
    case MaterialKind => "material"
    case TechsetKind => "techset"
    case ImageKind => "image"
    case LocalizeKind => "localize"
    case RawfileKind => "rawfile"
    case StringtableKind => "stringtable"
    case NoDecoder => ""
  }

  /**
   * The switch of the first pass (fastfile.cpp:719-761).  Every type with
   * a decoder is a listed type whose name is the decoder's.
   */
  function KindOf(t: int): (k: AssetKind)
    ensures k != NoDecoder ==> 0 <= t < |ASSET_TYPE_NAMES| && ASSET_TYPE_NAMES[t] == KindName(k)
  {
    if t == ASSET_TYPE_PHYSPRESET then PhysPresetKind
    else if t == ASSET_TYPE_MATERIAL then MaterialKind
    else if t == ASSET_TYPE_TECHSET then TechsetKind
    else if t == ASSET_TYPE_IMAGE then ImageKind
    else if t == ASSET_TYPE_LOCALIZE then LocalizeKind
    else if t == ASSET_TYPE_RAWFILE then RawfileKind
    else if t == ASSET_TYPE_STRINGTABLE then StringtableKind
    else NoDecoder
  }

  /** What the first pass keeps of an index entry: its type and its decoder. */
  datatype IndexEntry = IndexEntry(assetType: int, kind: AssetKind)

  /** An entry whose type can be named in an error message. */
  predicate Named(e: IndexEntry)
  {
    0 <= e.assetType < |ASSET_TYPE_NAMES|
  }

  /** The name the "unsupported asset type" error gives an entry (asset.cpp:18-52). */
  function TypeName(e: IndexEntry): string
    requires Named(e)
  {
    ASSET_TYPE_NAMES[e.assetType]
  }

  /** Every entry can be named. */
  predicate AllNamed(entries: seq<IndexEntry>)
  {
    forall j :: 0 <= j < |entries| ==> Named(entries[j])
  }

  /**
   * Entry i of the index at `index` (fastfile.cpp:706-761): its handle must
   * be MISSING or FOLLOWING, and its type, read as a signed int, must be
   * one of the 0x20 listed types 0x01 ... 0x20 (type 0, xmodelpieces, is
   * rejected too).
   */
  function EntryAt(bytes: seq<byte>, index: nat, i: nat): (r: Result<IndexEntry>)
    requires index + 8 * i + 8 <= |bytes|
    ensures var t := Signed(WordAt(bytes, index + 8 * i));
      var h := WordAt(bytes, index + 8 * i + 4);
      && (r.Ok? <==> (h == ADDRESS_MISSING || h == ADDRESS_FOLLOWING) && 1 <= t <= 0x20)
      && (r.Ok? ==> r.value == IndexEntry(t, KindOf(t)) && Named(r.value))
      && (r.Fail? ==> r.error == if h == ADDRESS_MISSING || h == ADDRESS_FOLLOWING then InvalidAssetType else AssetAddressingError)
  {
    var h := WordAt(bytes, index + 8 * i + 4);
    if h != ADDRESS_MISSING && h != ADDRESS_FOLLOWING then Fail(AssetAddressingError)
    else
      var t := Signed(WordAt(bytes, index + 8 * i));
      var k := KindOf(t);
      if k == NoDecoder && !(1 <= t <= 0x20) then Fail(InvalidAssetType)
      else Ok(IndexEntry(t, k))
  }

  /** The first pass (fastfile.cpp:703-762) over the first n entries. */
  function Classify(bytes: seq<byte>, index: nat, n: nat): (r: Result<seq<IndexEntry>>)
    requires index + 8 * n <= |bytes|
    ensures r.Ok? ==> |r.value| == n && AllNamed(r.value)
    ensures r.Ok? ==> forall j :: 0 <= j < n ==> EntryAt(bytes, index, j) == Ok(r.value[j])
  {
    if n == 0 then Ok([])
    else
      var before :- Classify(bytes, index, n - 1);
      var e :- EntryAt(bytes, index, n - 1);
      Ok(before + [e])
  }

  /** The first pass succeeds exactly when every entry is well formed. */
  lemma {:induction false} ClassifyAll(bytes: seq<byte>, index: nat, n: nat)
    requires index + 8 * n <= |bytes|
    ensures Classify(bytes, index, n).Ok? <==> forall j :: 0 <= j < n ==> EntryAt(bytes, index, j).Ok?
  {
    hide EntryAt;
    if n > 0 {
      ClassifyAll(bytes, index, n - 1);
    }
  }

  /** A failing first pass reports the first entry, in index order, that is not well formed. */
  lemma {:induction false} ClassifyFirstFailure(bytes: seq<byte>, index: nat, n: nat)
    requires index + 8 * n <= |bytes| && Classify(bytes, index, n).Fail?
    ensures exists j ::
              && 0 <= j < n && EntryAt(bytes, index, j) == Fail(Classify(bytes, index, n).error)
              && forall y :: 0 <= y < j ==> EntryAt(bytes, index, y).Ok?
  {
    hide EntryAt;
    if Classify(bytes, index, n - 1).Fail? {
      ClassifyFirstFailure(bytes, index, n - 1);
    } else {
      ClassifyAll(bytes, index, n - 1);
      assert EntryAt(bytes, index, n - 1) == Fail(Classify(bytes, index, n).error);
    }
  }

  /** What a decoder leaves in its asset object. */
  datatype AssetValue =
    | PhysPresetAsset(physPreset: PhysPresets.PhysPresetValue)
    | MaterialAsset(materialName: Option<nat>)
    | TechsetAsset(techset: Techsets.TechsetValue)
    | ImageAsset(image: Images.ImageValue)
    | LocalizeAsset(localize: Localizes.LocalizeValue)
    | RawfileAsset(rawfile: Rawfiles.RawfileValue)
    | StringtableAsset(stringtable: Stringtables.StringtableValue)

  /** AssetEntry (fastfile.hpp): the type and the loaded asset. */
  datatype AssetEntry = AssetEntry(assetType: int, asset: AssetValue)

  /** The decoder an asset value came from. */
  function KindOfValue(a: AssetValue): AssetKind
  {
    match a
    case PhysPresetAsset(_) => PhysPresetKind
    case MaterialAsset(_) => MaterialKind
    case TechsetAsset(_) => TechsetKind
    case ImageAsset(_) => ImageKind
    case LocalizeAsset(_) => LocalizeKind
    case RawfileAsset(_) => RawfileKind
    case StringtableAsset(_) => StringtableKind
  }

  /**
   * One turn of the second pass (fastfile.cpp:765-780): an entry without a
   * decoder is "unsupported", named by its type; otherwise a fresh asset
   * object, in its constructor's state, loads from the entry's handle slot.
   */
  function LoadOne(m: Mem, e: IndexEntry, slot: nat): (r: Result<(Mem, AssetValue)>)
    requires slot + 4 <= |m.bytes| && Named(e)
    ensures r.Ok? ==> |r.value.0.bytes| == |m.bytes| && e.kind != NoDecoder && KindOfValue(r.value.1) == e.kind
    ensures e.kind == NoDecoder ==> r == Fail(UnsupportedAssetType(TypeName(e), e.assetType))
  {
    if e.kind == NoDecoder then Fail(UnsupportedAssetType(TypeName(e), e.assetType))
    else
      LoadKindShape(m, e.kind, slot);
      LoadKind(m, e.kind, slot)
  }

  /** The decoder of a kind, on a fresh object of that kind (fastfile.cpp:719-775). */
  function LoadKind(m: Mem, kind: AssetKind, slot: nat): Result<(Mem, AssetValue)>
    requires slot + 4 <= |m.bytes| && kind != NoDecoder
  {
    match kind
    case PhysPresetKind =>
      (match PhysPresets.LoadPhysPreset(m, slot, PhysPresets.DEFAULT)
       case Ok(loaded) => Ok((loaded.0, PhysPresetAsset(loaded.1)))
       case Fail(error) => Fail(error))
    case MaterialKind =>
      (match Materials.LoadMaterial(m, slot, None)
       case Ok(loaded) => Ok((loaded.0, MaterialAsset(loaded.1)))
       case Fail(error) => Fail(error))
    case TechsetKind =>
      (match Techsets.LoadTechset(m, slot, Techsets.DEFAULT)
       case Ok(loaded) => Ok((loaded.0, TechsetAsset(loaded.1)))
       case Fail(error) => Fail(error))
    case ImageKind =>
      (match Images.LoadImage(m, slot, Images.DEFAULT)
       case Ok(loaded) => Ok((loaded.0, ImageAsset(loaded.1)))
       case Fail(error) => Fail(error))
    case LocalizeKind =>
      (match Localizes.LoadLocalize(m, slot, Localizes.DEFAULT)
       case Ok(loaded) => Ok((loaded.0, LocalizeAsset(loaded.1)))
       case Fail(error) => Fail(error))
    case RawfileKind =>
      (match Rawfiles.LoadRawfile(m, slot, Rawfiles.DEFAULT)
       case Ok(loaded) => Ok((loaded.0, RawfileAsset(loaded.1)))
       case Fail(error) => Fail(error))
    case StringtableKind =>
      (match Stringtables.LoadStringtable(m, slot, Stringtables.DEFAULT)
       case Ok(loaded) => Ok((loaded.0, StringtableAsset(loaded.1)))
       case Fail(error) => Fail(error))
  }

  /** A decoder keeps the arena's size and yields an object of its own kind. */
  lemma LoadKindShape(m: Mem, kind: AssetKind, slot: nat)
    requires slot + 4 <= |m.bytes| && kind != NoDecoder
    ensures var r := LoadKind(m, kind, slot);
      r.Ok? ==> |r.value.0.bytes| == |m.bytes| && KindOfValue(r.value.1) == kind
  {
    hide PhysPresets.LoadPhysPreset, Materials.LoadMaterial, Techsets.LoadTechset, Images.LoadImage,
      Localizes.LoadLocalize, Rawfiles.LoadRawfile, Stringtables.LoadStringtable;
  }

  /** A loaded asset came from the decoder its entry named. */
  predicate LoadedAs(e: IndexEntry, a: AssetEntry)
  {
    e.kind != NoDecoder && a.assetType == e.assetType && KindOfValue(a.asset) == e.kind
  }

  /** The second pass from entry i on; entry j loads from the handle slot at index + 8j + 4. */
  function LoadFrom(m: Mem, entries: seq<IndexEntry>, index: nat, i: nat): (r: Result<(Mem, seq<AssetEntry>)>)
    requires index + 8 * |entries| <= |m.bytes| && i <= |entries| && AllNamed(entries)
    ensures r.Ok? ==> |r.value.0.bytes| == |m.bytes| && |r.value.1| == |entries| - i
    ensures r.Ok? ==> forall j :: i <= j < |entries| ==> LoadedAs(entries[j], r.value.1[j - i])
    decreases |entries| - i
  {
    if i == |entries| then Ok((m, []))
    else
      var one :- LoadOne(m, entries[i], index + 8 * i + 4);
      var rest :- LoadFrom(one.0, entries, index, i + 1);
      Ok((rest.0, [AssetEntry(entries[i].assetType, one.1)] + rest.1))
  }

  /**
   * The first half of FastFile::ReadAssets (fastfile.cpp:690-762): the
   * cursor is aligned to 4, the index copied there, and every entry
   * classified before any asset is loaded.  The result is the arena, the
   * index's offset and the entries.
   */
  function ReadIndex(m: Mem, count: nat): (r: Result<(Mem, nat, seq<IndexEntry>)>)
    ensures r.Ok? ==> var (m0, index, entries) := r.value;
      |m0.bytes| == |m.bytes| && index + 8 * count <= |m0.bytes| && |entries| == count && AllNamed(entries)
  {
    var aligned :- AlignStep(m, 4);
    var block :- ReadInPlaceStep(aligned.0, 8 * count);
    var entries :- Classify(block.0.bytes, block.1, count);
    Ok((block.0, block.1, entries))
  }

  /**
   * FastFile::ReadAssets (fastfile.cpp:678-1007) for `count` entries: the
   * index, then the assets loaded in index order, and then the cursor must
   * have reached the end of the arena.  Each asset carries its entry's
   * type and came from the decoder that type names.
   */
  function ReadAssets(m: Mem, count: nat): (r: Result<(Mem, seq<AssetEntry>)>)
    ensures r.Ok? ==> |r.value.0.bytes| == |m.bytes| && |r.value.1| == count
    ensures r.Ok? ==> r.value.0.cursor == |m.bytes|
    ensures r.Ok? ==>
      && ReadIndex(m, count).Ok?
      && forall j :: 0 <= j < count ==> LoadedAs(ReadIndex(m, count).value.2[j], r.value.1[j])
  {
    var (m0, index, entries) :- ReadIndex(m, count);
    var loaded :- LoadFrom(m0, entries, index, 0);
    if loaded.0.cursor != |loaded.0.bytes| then Fail(DidNotReadAllData) else Ok(loaded)
  }

  /**
   * FastFile::LoadAssets (fastfile.cpp:632-670) on the packed descriptor:
   * the section rule, then no assets at all, or ReadAssets.  With no
   * assets, the end-of-arena check is not made.
   */
  function LoadAssets(m: Mem, packed: nat): (r: Result<(Mem, int, seq<AssetEntry>)>)
    ensures r.Ok? ==> |r.value.0.bytes| == |m.bytes| && r.value.1 >= 0 && |r.value.2| == r.value.1
  {
    var (count, address) := Unpack(packed);
    if !SectionValid(count, address) then Fail(InvalidSectionCombination)
    else if count == 0 then Ok((m, 0, []))
    else
      var loaded :- ReadAssets(m, count);
      Ok((loaded.0, count, loaded.1))
  }

  /** The first pass fails on entry i and on the entries after it alike. */
  lemma {:induction false} ClassifyStops(bytes: seq<byte>, index: nat, i: nat, n: nat)
    requires i <= n && index + 8 * n <= |bytes| && Classify(bytes, index, i).Fail?
    ensures Classify(bytes, index, n) == Classify(bytes, index, i)
    decreases n
  {
    if i < n {
      ClassifyStops(bytes, index, i, n - 1);
    }
  }

  /** Entry j of an index that came from `input`: a well-formed pair of words and the entry that keeps its type. */
  predicate FromStream(input: seq<byte>, j: nat, e: IndexEntry)
  {
    && 8 * j + 8 <= |input|
    && var t := Signed(WordAt(input, 8 * j));
       var h := WordAt(input, 8 * j + 4);
       && (h == ADDRESS_MISSING || h == ADDRESS_FOLLOWING) && 1 <= t <= 0x20
       && e == IndexEntry(t, KindOf(t))
  }

  /**
   * The index ReadIndex classifies is the `count` pairs of words that
   * follow in the stream: each had a MISSING or FOLLOWING handle and a type
   * 0x01 ... 0x20, and its entry keeps that type.
   */
  lemma IndexFromStream(m: Mem, count: nat)
    requires ReadIndex(m, count).Ok?
    ensures 8 * count <= |m.input|
    ensures forall j :: 0 <= j < count ==> FromStream(m.input, j, ReadIndex(m, count).value.2[j])
  {
    var aligned := AlignStep(m, 4).value.0;
    var (m0, index) := ReadInPlaceStep(aligned, 8 * count).value;
    var entries := Classify(m0.bytes, index, count).value;
    assert ReadIndex(m, count).value.2 == entries;
    hide AlignStep, ReadInPlaceStep, Classify, ReadIndex, EntryAt, FromStream;
    if count > 0 {
      InPlaceWords(aligned, 8 * count, 0);
    }
    forall j | 0 <= j < count
      ensures FromStream(m.input, j, entries[j])
    {
      EntryFromStream(aligned, count, j, entries[j]);
    }
  }

  /** One entry of the index copied in place. */
  lemma EntryFromStream(m: Mem, count: nat, j: nat, e: IndexEntry)
    requires ReadInPlaceStep(m, 8 * count).Ok? && j < count
    requires var (m0, index) := ReadInPlaceStep(m, 8 * count).value;
      index + 8 * count <= |m0.bytes| && EntryAt(m0.bytes, index, j) == Ok(e)
    ensures FromStream(m.input, j, e)
  {
    hide ReadInPlaceStep;
    InPlaceWords(m, 8 * count, 8 * j);
    InPlaceWords(m, 8 * count, 8 * j + 4);
  }

  /**
   * ReadAssets as a whole: the index came from the stream at the aligned
   * cursor; every entry in it had a MISSING or FOLLOWING handle and a type
   * with a decoder; each asset carries its entry's type and came from that
   * decoder; and the arena is used up.  So a stream entry with any other
   * handle or type, or a type without a decoder, makes ReadAssets fail.
   */
  lemma ReadAssetsLoaded(m: Mem, count: nat)
    requires ReadAssets(m, count).Ok?
    ensures 8 * count <= |m.input| && ReadIndex(m, count).Ok?
    ensures var (m1, assets) := ReadAssets(m, count).value;
      var entries := ReadIndex(m, count).value.2;
      && m1.cursor == |m1.bytes| == |m.bytes|
      && forall j :: 0 <= j < count ==> FromStream(m.input, j, entries[j]) && LoadedAs(entries[j], assets[j])
  {
    hide ReadAssets, ReadIndex, LoadFrom, LoadOne, FromStream, LoadedAs;
    IndexFromStream(m, count);
  }

  /**
   * LoadAssets on the descriptor packed from the header's asset count and
   * address: a zero count with a zero address is no assets, a positive
   * count with a FOLLOWING address reads them, and every other
   * combination is rejected before anything is read.
   */
  lemma LoadAssetsMeaning(m: Mem, count: int, address: int)
    requires -0x8000_0000 <= count < 0x8000_0000 && -0x8000_0000 <= address < 0x8000_0000
    ensures !SectionValid(count, address) ==> LoadAssets(m, Pack(count, address)) == Fail(InvalidSectionCombination)
    ensures count == 0 && address == 0 ==> LoadAssets(m, Pack(count, address)) == Ok((m, 0, []))
    ensures count >= 1 && address == -1 ==>
      && (ReadAssets(m, count).Ok? ==>
            LoadAssets(m, Pack(count, address)) == Ok((ReadAssets(m, count).value.0, count, ReadAssets(m, count).value.1)))
      && (ReadAssets(m, count).Fail? ==> LoadAssets(m, Pack(count, address)) == Fail(ReadAssets(m, count).error))
  {
    hide ReadAssets;
    if count >= 0 {
      PackRoundTrip(count, address);
    } else {
      PackKeepsCount(count, address);
    }
  }

  // ---------------------------------------------------------------------
  // The methods.

  /** One turn of the first pass: entry i is added, or its failure is the pass's. */
  lemma ClassifyTurn(bytes: seq<byte>, index: nat, i: nat, n: nat, entries: seq<IndexEntry>)
    requires i < n && index + 8 * n <= |bytes| && Classify(bytes, index, i) == Ok(entries)
    ensures EntryAt(bytes, index, i).Ok? ==> Classify(bytes, index, i + 1) == Ok(entries + [EntryAt(bytes, index, i).value])
    ensures EntryAt(bytes, index, i).Fail? ==> Classify(bytes, index, n) == Fail(EntryAt(bytes, index, i).error)
  {
    hide EntryAt;
    if EntryAt(bytes, index, i).Fail? {
      ClassifyStops(bytes, index, i + 1, n);
    }
  }

  /** Entry i of the index at `index` (fastfile.cpp:706-761). */
  method ReadEntry(arena: Arena, index: nat, i: nat) returns (r: Result<IndexEntry>)
    requires arena.Valid() && index + 8 * i + 8 <= arena.data.Length
    ensures r == EntryAt(arena.mem, index, i)
  {
    var h := arena.ReadWord(index + 8 * i + 4);
    if h != ADDRESS_MISSING && h != ADDRESS_FOLLOWING {
      return Fail(AssetAddressingError);
    }
    var w := arena.ReadWord(index + 8 * i);
    var t := Signed(w);
    var k := KindOf(t);
    if k == NoDecoder && !(1 <= t <= 0x20) {
      return Fail(InvalidAssetType);
    }
    r := Ok(IndexEntry(t, k));
  }

  /** The first pass (fastfile.cpp:703-762) over the index at `index`. */
  method ClassifyIndex(arena: Arena, index: nat, count: nat) returns (r: Result<seq<IndexEntry>>)
    requires arena.Valid() && index + 8 * count <= arena.data.Length
    ensures r == Classify(arena.mem, index, count)
  {
    var entries: seq<IndexEntry> := [];
    var i := 0;
    assert Classify(arena.mem, index, 0) == Ok([]);
    hide Classify, EntryAt;
    while i < count
      invariant 0 <= i <= count && Classify(arena.mem, index, i) == Ok(entries)
    {
      ClassifyTurn(arena.mem, index, i, count, entries);
      var e :- ReadEntry(arena, index, i);
      entries := entries + [e];
      i := i + 1;
    }
    r := Ok(entries);
  }

  /**
   * One turn of the second pass (fastfile.cpp:765-780): the asset object
   * of the entry's type is created and loads from the slot.
   */
  method LoadAsset(arena: Arena, e: IndexEntry, slot: nat) returns (r: Result<AssetValue>)
    requires arena.Valid() && slot + 4 <= arena.data.Length && Named(e)
    modifies arena, arena.data, arena.stream, arena.stream.buffer
    ensures arena.Valid()
    ensures AgreesValue(LoadOne(old(arena.State()), e, slot), r, arena.State())
  {
    match e.kind
    case PhysPresetKind =>
      var asset := new PhysPresets.PhysPreset();
      var _ :- asset.Load(arena, slot);
      r := Ok(PhysPresetAsset(asset.Value()));
    case MaterialKind =>
      var asset := new Materials.Material();
      var _ :- asset.Load(arena, slot);
      r := Ok(MaterialAsset(asset.name));
    case TechsetKind =>
      var asset := new Techsets.Techset();
      var _ :- asset.Load(arena, slot);
      r := Ok(TechsetAsset(asset.Value()));
    case ImageKind =>
      var asset := new Images.Image();
      var _ :- asset.Load(arena, slot);
      r := Ok(ImageAsset(asset.Value()));
    case LocalizeKind =>
      var asset := new Localizes.Localize();
      var _ :- asset.Load(arena, slot);
      r := Ok(LocalizeAsset(asset.Value()));
    case RawfileKind =>
      var asset := new Rawfiles.Rawfile();
      var _ :- asset.Load(arena, slot);
      r := Ok(RawfileAsset(asset.Value()));
    case StringtableKind =>
      var asset := new Stringtables.Stringtable();
      var _ :- asset.Load(arena, slot);
      r := Ok(StringtableAsset(asset.Value()));
    case NoDecoder =>
      r := Fail(UnsupportedAssetType(TypeName(e), e.assetType));
  }

  /** The ends of the second pass: nothing loaded yet, and every asset loaded. */
  lemma LoadEnds(m: Mem, m1: Mem, entries: seq<IndexEntry>, index: nat, done: seq<AssetEntry>)
    requires index + 8 * |entries| <= |m.bytes| && index + 8 * |entries| <= |m1.bytes| && AllNamed(entries)
    ensures Prefixed([], LoadFrom(m, entries, index, 0)) == LoadFrom(m, entries, index, 0)
    ensures Prefixed(done, LoadFrom(m1, entries, index, |entries|)) == Ok((m1, done))
  {
    if LoadFrom(m, entries, index, 0).Ok? {
      assert [] + LoadFrom(m, entries, index, 0).value.1 == LoadFrom(m, entries, index, 0).value.1;
    }
    assert done + [] == done;
  }

  /** One turn of the second pass, seen from the assets loaded before it. */
  lemma LoadTurn(m: Mem, entries: seq<IndexEntry>, index: nat, i: nat, done: seq<AssetEntry>,
                 a: Result<AssetValue>, m1: Mem)
    requires index + 8 * |entries| <= |m.bytes| && i < |entries| && AllNamed(entries)
    requires AgreesValue(LoadOne(m, entries[i], index + 8 * i + 4), a, m1)
    ensures a.Fail? ==> Prefixed(done, LoadFrom(m, entries, index, i)) == Fail(a.error)
    ensures a.Ok? ==> |m1.bytes| == |m.bytes|
    ensures a.Ok? ==>
      Prefixed(done, LoadFrom(m, entries, index, i))
        == Prefixed(done + [AssetEntry(entries[i].assetType, a.value)], LoadFrom(m1, entries, index, i + 1))
  {
    hide LoadOne;
    if a.Ok? {
      PrefixedTwice(done, [AssetEntry(entries[i].assetType, a.value)], LoadFrom(m1, entries, index, i + 1));
    }
  }

  /** The second pass (fastfile.cpp:765-780) over the classified entries. */
  method LoadEntries(arena: Arena, entries: seq<IndexEntry>, index: nat) returns (r: Result<seq<AssetEntry>>)
    requires arena.Valid() && index + 8 * |entries| <= arena.data.Length && AllNamed(entries)
    modifies arena, arena.data, arena.stream, arena.stream.buffer
    ensures arena.Valid()
    ensures AgreesValue(LoadFrom(old(arena.State()), entries, index, 0), r, arena.State())
  {
    hide LoadOne, LoadFrom, Prefixed;
    ghost var m0 := arena.State();
    var assets: seq<AssetEntry> := [];
    var i := 0;
    LoadEnds(m0, m0, entries, index, assets);
    while i < |entries|
      invariant 0 <= i <= |entries| && arena.Valid() && |arena.mem| == |m0.bytes| && |assets| == i
      invariant LoadFrom(m0, entries, index, 0) == Prefixed(assets, LoadFrom(arena.State(), entries, index, i))
    {
      ghost var m := arena.State();
      var a := LoadAsset(arena, entries[i], index + 8 * i + 4);
      LoadTurn(m, entries, index, i, assets, a, arena.State());
      if a.Fail? {
        return Fail(a.error);
      }
      assets := assets + [AssetEntry(entries[i].assetType, a.value)];
      i := i + 1;
    }
    LoadEnds(m0, arena.State(), entries, index, assets);
    r := Ok(assets);
  }
}
