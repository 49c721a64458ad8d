# The deff fast-file loader, modelled in Dafny

deff reads the fast files of Call of Duty 4 (MW1): a 14-byte prefix
("IWffu100", version 5, zlib header 0x78 0xDA), followed by a zlib
stream. The inflated stream holds three parts:

- an eleven-word header with the file size and the data size;
- four words of section descriptors;
- the data itself.

The data is rebuilt into an **arena**: a zero-filled block of the
declared data size with a forward-only cursor.

Inside the data, references are 32-bit **handles**:

- `0` (MISSING): nothing;
- `0xFFFFFFFF` (FOLLOWING): the data comes next in the stream;
- anything else: an encoded address, with group 4 in bits 28-30 and the
  arena offset plus one in the low 28 bits.

The loader proceeds in order:

1. It validates the prefix.
2. It reads the header, checks both sizes, and packs each section
   descriptor into a 64-bit value.
3. It copies the tag index into the arena and reads each FOLLOWING tag
   string after it. The tag's slot is rewritten with the string's
   encoded address.
4. It copies the asset index, checks every entry, and hands each asset to
   one of seven decoders: physpreset, material, techset, image,
   localize, rawfile and stringtable. Each decoder reads its record and
   follows its handles: MISSING is skipped, FOLLOWING is read from the
   stream (and, where the source does it, the handle is rewritten in
   place), and an encoded handle is decoded with `GetPointer`.
5. It requires the arena to be used up exactly.

Every `ASSERT` and `throw` ends the load, so each is one `Fail(error)`
of the `Result` type in `errors.dfy`.

## Modules

One Dafny module per source component:

| file | module | source |
|---|---|---|
| `utility.dfy` | `Utility` | byte and word helpers, unsigned/signed 32-bit views, AND/OR/XOR/shift on naturals, `ALIGN` |
| `errors.dfy` | `Errors` | the failure outcomes, `Result`, `Option` |
| `streams.dfy` | `Streams` | `Stream`: the 16 KiB window with `absPosition`, `relPosition` and `available`, over an abstract `Refill` |
| `addresscodec.dfy` | `AddressCodec` | `GetAddress`, `IsValidAddress` and `GetPointer` as functions of the data size and the cursor |
| `memory.dfy` | `Memory` | the arena as a value `Mem(bytes, cursor, input)`, and every arena operation as a step function on it |
| `arena.dfy` | `Arenas` | the class `Arena`: an `array<byte>` plus the cursor, whose methods are proved against those step functions |
| `headers.dfy` | `Headers` | `Validate`, `LoadHeader` and the section descriptors |
| `tags.dfy` | `Tags` | `LoadTags`, `ReadTags` |
| `assets.dfy` | `Assets` | `LoadAssets`, `ReadAssets` and the dispatch on the type code |
| `physpreset.dfy`, `material.dfy`, `techset.dfy`, `image.dfy`, `localize.dfy`, `rawfile.dfy`, `stringtable.dfy` | one module each | the seven decoders |
| `fastfile.dfy` | `FastFiles` | the class `FastFile` and `Load` |
| `intersect.dfy` | `Intersect` | `xtoi` of the intersect tool |
| `djb2.dfy` | `Djb2` | the string hash |
| `deff.dfy` | `Deff` | `getMaxSize` and the dot padding of the front end |

Every operation that changes state is a method on `Stream`, `Arena`,
`FastFile` or an asset class. Each such method is proved equal to a pure
step function of the old state, for example
`AgreesValue(AllocStep(old(State()), size, alignment), r, State())`.
The properties the source promises are then proved as lemmas about those
functions.

Two kinds of write in the source have no bounds check. The model makes
both explicit errors:

- The index copies and tag strings of `ReadTags`/`ReadAssets` are written
  straight at the cursor. Here they fail with `UncheckedWrite` when they
  would pass the end of the arena.
- `Align` can move the cursor past the end. Here it fails with
  `BeyondMemoryBoundary`. Every caller of `Align` would fail on the same
  input anyway, so this changes only which error is reported.

Pointers are arena offsets.

## Model

| member | source | states |
|---|---|---|
| AddressCodec.GetAddress | src/fastfile.cpp:171-199 | succeeds exactly for group 4 with a target (the pointer, or the cursor when there is none) below the data size; otherwise fails with UnsupportedGroup, AddressNotInFastFile or CorruptedPointer, as the source's three throws |
| AddressCodec.GetPointer | src/fastfile.cpp:226-243 | a decoded pointer lies inside the arena; MISSING and FOLLOWING are rejected as invalid addresses |
| AddressCodec.GetAddressEncodes | src/fastfile.cpp:192-198 | for a data size within 0x0FFFFFC4, a successful GetAddress is (offset+1) with group 4, never 0 or 0xFFFFFFFF, and always passes IsValidAddress |
| AddressCodec.GetPointerOfGetAddress | src/fastfile.cpp:171-243 | GetPointer decodes what GetAddress encoded back to the pointer (or the cursor) |
| AddressCodec.RoundTrip | src/fastfile.cpp:171-243 | for every offset p below the data size, GetAddress(4, p) succeeds and GetPointer of it is p |
| AddressCodec.GetAddressOfGetPointer | src/fastfile.cpp:171-243 | the other direction: re-encoding a decoded handle gives the handle back with bit 31 cleared |
| AddressCodec.GetPointerAcceptsValid | src/fastfile.cpp:206-243 | GetPointer succeeds if and only if IsValidAddress holds and the handle is neither MISSING nor FOLLOWING |
| AddressCodec.GetPointerRejects | src/fastfile.cpp:226-243 | for other handles, GetPointer fails with "unsupported address" exactly when the group is not 4 or the offset is 0 or beyond the data size |
| AddressCodec.CursorAddress | src/fastfile.cpp:171-199 | GetAddress(4) with no pointer encodes the cursor and succeeds exactly while the cursor is below the data size |
| AddressCodec.BitThirtyOneIgnored | src/fastfile.cpp:206-220 | the group is read from bits 28-30 only: setting bit 31 changes neither IsValidAddress nor GetPointer |
| Utility.Signed | src/utility.hpp:72 | the int view of an address_t word is in [-2^31, 2^31) and converts back to the same word |
| Utility.AlignUpBounds | src/utility.hpp:60 | ALIGN(p, x) is at least p and below p + x |
| Utility.AlignUpPow2 | src/utility.hpp:60 | for a power of two x, ALIGN(p, x) is a multiple of x and the least such value that is at least p |
| Utility.AlignUpAligned | src/utility.hpp:60 | ALIGN leaves a multiple of x unchanged |
| Utility.AlignUpZero | src/utility.hpp:60 | ALIGN(0, x) is 0 |
| Errors.Check | src/utility.hpp:48 | an ASSERT passes exactly when its condition holds, and otherwise fails with its own error |
| Streams.ReadStringSpecMeaning | src/stream.cpp:26-67 | a read string is the next bytes up to and including the first zero, within max; "string buffer too small" exactly when max bytes carry no zero; a refill failure when the stream ends first |
| Streams.ReadMemorySpec | src/stream.cpp:69-127 | ReadMemory yields exactly the next size bytes, and fails on a refill failure when fewer remain or the stream is empty |
| Streams.ReadStringStops | src/stream.cpp:51-56 | the string ends at the first zero byte, terminator included |
| Streams.ReadStringRunsOut | src/stream.cpp:34-41 | with no zero before the stream ends, the read fails on the refill rather than returning short data |
| Streams.ReadStringTruncates | src/stream.cpp:59-64 | with no zero in the next max bytes, the read fails with "string buffer too small" |
| Streams.Stream.constructor | src/stream.cpp:7-14 | a new stream has absPosition, relPosition and available at 0 and a zero-filled buffer |
| Streams.Stream.GetPosition | src/stream.cpp:21-24 | the position is the number of bytes handed out so far |
| Streams.Stream.Refill | src/zstream.cpp:80-118 | requested only with nothing available; fails exactly when the source is exhausted; on success relPosition is 0 and available is in 1..BUFFER_SIZE; no byte is lost |
| Streams.Stream.Fill | src/stream.cpp:79-88 | the refill check: afterwards bytes are available unless the refill failed |
| Streams.Stream.Take | src/stream.cpp:90-117 | taking n available bytes hands out the next n pending bytes and advances absPosition by n |
| Streams.Stream.ReadMemory | src/stream.cpp:69-127 | the do-while loop copies exactly the next size bytes across as many refills as needed; absPosition advances by size |
| Streams.Stream.CopyNext | src/stream.cpp:90-105 | one turn of the copy loop extends the copied prefix of the pending bytes by n |
| Streams.Stream.NextByte | src/stream.cpp:33-49 | one character: refill if needed, then the next pending byte, and absPosition advances by one |
| Streams.Stream.ReadString | src/stream.cpp:26-67 | the for loop returns what ReadStringSpec says; absPosition advances by the bytes consumed |
| Memory.AlignStep | src/fastfile.cpp:249-263 | a successful Align moves only the cursor, to ALIGN(cursor, alignment) |
| Memory.AllocPlaces | src/fastfile.cpp:271-296 | Alloc succeeds exactly for a positive size, an alignment of -1 or a multiple of 4, and room after the aligned cursor; it returns the aligned cursor and advances it by exactly size; size <= 0 is an invalid allocation size |
| Memory.AllocAligned | src/fastfile.cpp:249-296 | with alignment 4 the block starts at the least multiple of 4 that is at least the cursor |
| Memory.AllocUnaligned | src/fastfile.cpp:271-296 | with alignment -1 the block starts at the cursor |
| Memory.ReadMemoryStep | src/fastfile.cpp:303-321 | ReadMemory into a local buffer leaves the arena bytes and cursor alone |
| Memory.ReadMemoryGrows | src/fastfile.cpp:303-321 | it yields exactly the next size stream bytes |
| Memory.ReadSharedMemoryStep | src/fastfile.cpp:329-351 | a shared block lies inside the arena, which keeps its size |
| Memory.ReadSharedMemoryFills | src/fastfile.cpp:329-351 | sizes outside [1, 0x2000000] fail; the allocated range holds exactly the next size stream bytes, and every other byte is unchanged |
| Memory.ReadSharedStringFills | src/fastfile.cpp:383-411 | max outside [1, 256] fails; exactly the bytes read, terminator included, are allocated and filled, and every other byte is unchanged |
| Memory.ReadSharedStringKeepsLength | src/fastfile.cpp:383-411 | the string's offset lies inside the arena, which keeps its size |
| Memory.WriteWordStep | src/fastfile.cpp:618 | writing a handle word changes those four bytes to the word and nothing else |
| Memory.FollowMemory | src/assets/techset.cpp:154-155 | a followed block lies inside the arena and has a positive size |
| Memory.FollowString | src/assets/techset.cpp:167-168 | a followed string lies inside the arena |
| Memory.FollowMemoryIf | src/assets/techset.cpp:131-136 | the arena keeps its size |
| Memory.FollowStringIf | src/assets/techset.cpp:164-169 | the arena keeps its size |
| Memory.FollowMemoryRewrites | src/assets/techset.cpp:151-155 | the rewritten handle is the encoded address of the new block, never 0 or 0xFFFFFFFF, and GetPointer decodes it to the block, which holds the stream bytes read |
| Memory.FollowStringRewrites | src/assets/techset.cpp:164-169 | the same for a string: the handle is rewritten to an encoded address that decodes to the string at the old cursor |
| Memory.FollowStringIfResolves | src/assets/techset.cpp:164-169 | a FOLLOWING slot becomes a valid encoded address; any other slot keeps its value |
| Memory.FollowStringIfKeeps | src/assets/techset.cpp:164-169 | no other word below the cursor changes |
| Memory.FollowMemoryKeeps | src/assets/techset.cpp:151-155 | no other word below the cursor changes |
| Memory.FollowMemoryIfKeeps | src/assets/techset.cpp:131-136 | a slot that may be FOLLOWING: the cursor moves forward and no other word below the old cursor changes |
| Memory.ResolveString | src/assets/physpreset.cpp:80-88 | resolving a name handle keeps the arena's size |
| Memory.ResolveStringInside | src/assets/physpreset.cpp:80-88 | a resolved name lies inside the arena and has an encoded address |
| Memory.ResolveEncoded | src/assets/physpreset.cpp:80-88 | an encoded handle goes through GetPointer alone: no stream read and no arena change |
| Memory.ResolveStringGrows | src/assets/physpreset.cpp:80-88 | resolving a name never changes what lies below the old cursor |
| Memory.AllocGrows | src/fastfile.cpp:271-296 | the forward-only cursor: allocation changes no byte below the old cursor |
| Memory.ReadSharedMemoryGrows | src/fastfile.cpp:329-351 | the same for a shared block, which holds the next size stream bytes |
| Memory.ReadSharedStringGrows | src/fastfile.cpp:383-411 | the same for a shared string |
| Memory.ReadInPlaceStep | src/fastfile.cpp:596-597 | the index copy starts at the cursor and moves it by exactly size, within the arena |
| Memory.InPlaceWords | src/fastfile.cpp:596-597 | the index words in the arena are the stream's words, in order |
| Memory.ReadStringInPlaceStep | src/fastfile.cpp:622-623 | a tag string starts at the cursor, which moves past it and stays within the arena |
| Memory.Zeroed | src/fastfile.cpp:508-513 | the calloc'ed arena: size zero bytes |
| Arenas.Arena.constructor | src/fastfile.cpp:508-513 | the arena is the declared data size in zeroes with the cursor at 0 |
| Arenas.Arena.Align | src/fastfile.cpp:249-263 | agrees with AlignStep |
| Arenas.Arena.Alloc | src/fastfile.cpp:271-296 | agrees with AllocStep |
| Arenas.Arena.ReadMemory | src/fastfile.cpp:303-321 | agrees with ReadMemoryStep |
| Arenas.Arena.ReadString | src/fastfile.cpp:358-376 | agrees with ReadStringStep |
| Arenas.Arena.ReadSharedMemory | src/fastfile.cpp:329-351 | agrees with ReadSharedMemoryStep |
| Arenas.Arena.ReadSharedString | src/fastfile.cpp:383-411 | agrees with ReadSharedStringStep |
| Arenas.Arena.AllocSharedMemory | src/fastfile.cpp:413-431 | agrees with AllocSharedMemoryStep |
| Arenas.Arena.FollowMemory | src/assets/techset.cpp:154-155 | agrees with Memory.FollowMemory |
| Arenas.Arena.FollowString | src/assets/techset.cpp:167-168 | agrees with Memory.FollowString |
| Arenas.Arena.FollowMemoryIf | src/assets/techset.cpp:131-136 | agrees with Memory.FollowMemoryIf |
| Arenas.Arena.FollowStringIf | src/assets/techset.cpp:164-169 | agrees with Memory.FollowStringIf |
| Arenas.Arena.ReadInPlace | src/fastfile.cpp:596-597 | agrees with ReadInPlaceStep |
| Arenas.Arena.ReadStringInPlace | src/fastfile.cpp:622-623 | agrees with ReadStringInPlaceStep |
| Arenas.Arena.ResolveString | src/assets/physpreset.cpp:80-88 | agrees with Memory.ResolveString |
| Arenas.Arena.WriteWord | src/fastfile.cpp:618 | agrees with WriteWordStep |
| Headers.ValidateAccepts | src/fastfile.cpp:453-475 | Validate accepts exactly a prefix of at least 14 bytes with "IWff", "u100", version 5 and the zlib pair 0x78 0xDA; a short file fails on the refill; a wrong version fails with "not from MW1"; otherwise a wrong magic fails with "not a Fast File"; and with both magic words and the version right, a wrong zlib pair fails with "corrupted Fast File data" |
| Headers.PackRoundTrip | src/fastfile.cpp:516-524 | for a count in [0, 2^31) and any address, unpacking (address << 32) \| count gives both back |
| Headers.PackKeepsCount | src/fastfile.cpp:537-538 | unpacking always gives the count back, a negative one included |
| Headers.NegativeCountRejected | src/fastfile.cpp:541-546 | a negative count never passes the section rule |
| Headers.LoadHeader | src/fastfile.cpp:485-525 | a read header has eleven words |
| Headers.HeaderLayout | src/fastfile.cpp:495-524 | the header is the stream's first eleven little-endian words, the file size is in [0x3C, 0x10000000], the data size in [0, 0x0FFFFFC4], and each descriptor unpacks to the stream's count and address; the rest of the stream follows the 60 bytes |
| Tags.TagStep | src/fastfile.cpp:603-624 | one tag keeps the arena's size |
| Tags.TagStepMeaning | src/fastfile.cpp:603-624 | a slot other than MISSING or FOLLOWING is a bad optimization; MISSING gives no tag and changes nothing; FOLLOWING with the cursor at the end fails; otherwise the slot is rewritten to the encoded cursor, the tag is the cursor, and the NUL-terminated string is placed there with the cursor moved past it |
| Tags.TagStepLoaded | src/fastfile.cpp:603-624 | after one tag, its slot and tag agree: MISSING stays MISSING with no tag; FOLLOWING decodes to the tag |
| Tags.TagStepKeeps | src/fastfile.cpp:603-624 | no other word below the cursor changes |
| Tags.TagsFrom | src/fastfile.cpp:600-625 | the loop yields one tag per remaining slot |
| Tags.TagsKeep | src/fastfile.cpp:600-625 | the loop changes no word below the cursor outside the slots still to visit |
| Tags.TagsResolved | src/fastfile.cpp:600-625 | every visited slot ends up agreeing with its tag |
| Tags.ReadTags | src/fastfile.cpp:577-626 | a read tag table has count entries |
| Tags.TagsLoaded | src/fastfile.cpp:577-626 | the index holds the stream's count words, and every slot and tag agree with that stream word |
| Tags.LoadTags | src/fastfile.cpp:531-569 | the stored count is non-negative and is the number of tags |
| Tags.LoadTagsMeaning | src/fastfile.cpp:531-569 | an invalid count/address pair fails; count 0 with MISSING reads nothing; count >= 1 with FOLLOWING is ReadTags, with its success and its error |
| Tags.DecodeTag | src/fastfile.cpp:603-624 | agrees with TagStep |
| Tags.DecodeTags | src/fastfile.cpp:600-625 | the tag loop agrees with TagsFrom |
| Assets.KindOf | src/asset.cpp:18-52 | each decoder's type code names the asset type the type-name table gives it |
| Assets.EntryAt | src/fastfile.cpp:706-758 | an entry is accepted exactly when its handle is MISSING or FOLLOWING and its type is in [1, 0x20]; otherwise it fails with an addressing error or an invalid type, in that order |
| Assets.Classify | src/fastfile.cpp:703-758 | the first loop accepts the index only if every entry is accepted, and keeps each entry's type |
| Assets.ClassifyAll | src/fastfile.cpp:703-758 | the index is accepted if and only if every entry is |
| Assets.ClassifyFirstFailure | src/fastfile.cpp:703-758 | a rejected index fails with the error of its first rejected entry |
| Assets.LoadOne | src/fastfile.cpp:765-775 | a loaded asset comes from the decoder of its type; a type without a decoder fails with "unsupported asset type" and its name |
| Assets.LoadKindShape | src/fastfile.cpp:719-775 | each decoder runs on a fresh object of its own kind: a loaded asset has that kind and the arena keeps its size |
| Assets.LoadFrom | src/fastfile.cpp:761-776 | the second loop loads every entry with its own decoder |
| Assets.ReadIndex | src/fastfile.cpp:690-758 | the index lies in the arena and has count entries |
| Assets.ReadAssets | src/fastfile.cpp:678-1007 | a successful read has one asset per entry, each loaded by the decoder of its entry, and ends with the cursor exactly at the data size |
| Assets.IndexFromStream | src/fastfile.cpp:693-758 | every accepted entry is the stream's pair of words at its position |
| Assets.ReadAssetsLoaded | src/fastfile.cpp:678-1007 | all entries are validated before any asset is loaded, each asset has the type of its stream entry, and the arena is used up exactly |
| Assets.LoadAssets | src/fastfile.cpp:632-670 | the stored count is non-negative and is the number of assets |
| Assets.LoadAssetsMeaning | src/fastfile.cpp:632-670 | an invalid count/address pair fails; count 0 with MISSING reads nothing; count >= 1 with FOLLOWING is ReadAssets, with its success and its error |
| Assets.ReadEntry | src/fastfile.cpp:706-758 | agrees with EntryAt |
| Assets.ClassifyIndex | src/fastfile.cpp:703-758 | the first loop agrees with Classify |
| Assets.LoadAsset | src/fastfile.cpp:765-775 | agrees with LoadOne |
| Assets.LoadEntries | src/fastfile.cpp:761-776 | the second loop agrees with LoadFrom |
| FastFiles.LoadSpec | src/fastfile.cpp:133-162 | a load gives eleven header words, and one tag and one asset per section count |
| FastFiles.LoadMeaning | src/fastfile.cpp:133-162 | a successful load means a valid prefix; a header of the stream's first words with both sizes in bounds; an arena of the declared size; and, with assets, the arena used up |
| FastFiles.FastFile.constructor | src/fastfile.cpp:22-46 | nothing is loaded: no arena, empty sections |
| FastFiles.FastFile.Validate | src/fastfile.cpp:436-479 | agrees with Headers.Validate |
| FastFiles.FastFile.LoadHeader | src/fastfile.cpp:485-525 | agrees with Headers.LoadHeader: a fresh zero-filled arena of the data size with the cursor at 0, and both packed descriptors |
| FastFiles.FastFile.ReadTags | src/fastfile.cpp:577-626 | agrees with Tags.ReadTags |
| FastFiles.FastFile.LoadTags | src/fastfile.cpp:531-569 | agrees with Tags.LoadTags |
| FastFiles.FastFile.ReadAssets | src/fastfile.cpp:678-1007 | agrees with Assets.ReadAssets |
| FastFiles.FastFile.LoadAssets | src/fastfile.cpp:632-670 | agrees with Assets.LoadAssets |
| FastFiles.FastFile.Load | src/fastfile.cpp:133-162 | agrees with LoadSpec; the first error ends the load |
| PhysPresets.LoadPhysPreset | src/assets/physpreset.cpp:42-110 | the arena keeps its size |
| PhysPresets.MissingReadsNothing | src/assets/physpreset.cpp:51-58 | a MISSING handle reads nothing and leaves every field as it was |
| PhysPresets.OtherHandleFails | src/assets/physpreset.cpp:51-56 | a handle other than MISSING or FOLLOWING is an internal error |
| PhysPresets.FollowingSettings | src/assets/physpreset.cpp:61-102 | FOLLOWING reads 44 bytes into a local buffer; the name word is not MISSING; the two flags are words 1 and 10 non-zero; friction is word 4 as an int; the float fields are words 2, 3, 5, 6, 8 and 9 bit for bit; the prefix is null exactly when word 7 is MISSING |
| PhysPresets.NameBeforePrefix | src/assets/physpreset.cpp:80-106 | a FOLLOWING name is read before a FOLLOWING prefix, both after the old cursor |
| PhysPresets.LoadKeepsArena | src/assets/physpreset.cpp:42-110 | the handle slot and everything below the cursor are unchanged: Store is a no-op |
| PhysPresets.PhysPreset.constructor | src/assets/physpreset.cpp:7-20 | every field at its default |
| PhysPresets.PhysPreset.Release | src/assets/physpreset.cpp:27-40 | restores every field to its constructor default |
| PhysPresets.PhysPreset.Load | src/assets/physpreset.cpp:42-110 | agrees with LoadPhysPreset |
| PhysPresets.Decode | src/assets/physpreset.cpp:42-110 | agrees with LoadPhysPreset |
| Materials.ReadMaterial | src/assets/material.cpp:30-56 | the arena keeps its size |
| Materials.LoadMaterial | src/assets/material.cpp:21-61 | the arena keeps its size |
| Materials.NeverLoads | src/assets/material.cpp:59 | Load never succeeds, whatever the handle |
| Materials.NoHandleCheck | src/assets/material.cpp:21-61 | with no handle check, MISSING and any encoded handle go straight to "not yet implemented" |
| Materials.FollowingRecord | src/assets/material.cpp:30-56 | FOLLOWING reads 80 bytes; a MISSING name is corrupt data; with an encoded name and 12 more bytes it still ends in "not yet implemented" |
| Materials.Material.constructor | src/assets/material.cpp:6-9 | no name |
| Materials.Material.Release | src/assets/material.cpp:16-19 | no name |
| Materials.Material.Load | src/assets/material.cpp:21-61 | agrees with LoadMaterial |
| Techsets.Zeros | src/assets/techset.cpp:11-14 | n zero handles |
| Techsets.LoadStateMap | src/assets/techset.cpp:118-137 | the arena keeps its size. Its meaning is in SlotRules (a MISSING slot is corrupt data, an encoded one reads nothing) and in Memory.FollowMemoryRewrites (a FOLLOWING slot is rewritten to the address of the 100-byte block read at 4-byte alignment) |
| Techsets.LoadShader | src/assets/techset.cpp:139-182 | the arena keeps its size. Its meaning is in SlotRules (a MISSING slot is corrupt data, an encoded one reads nothing), in Memory.FollowMemoryRewrites (a FOLLOWING slot is rewritten to its 16-byte block) and in ShaderChecks |
| Techsets.LoadShaderBlock | src/assets/techset.cpp:157-180 | the arena keeps its size. Its checks and data size are in ShaderChecks, and its order, name before data, in ShaderNameBeforeData |
| Techsets.BindsCountShape | src/assets/techset.cpp:186-189 | the binding size is a multiple of 8, at most 8 * 3 * 255, and 0 or at least 8 |
| Techsets.LoadBinds | src/assets/techset.cpp:184-206 | the arena keeps its size. Its meaning is in SlotRules (no MISSING check, and an encoded slot reads nothing), in BindsFollowing (a zero size fails, a loaded table has at least 8 bytes) and in BindsCountShape |
| Techsets.LoadBindsOf | src/assets/techset.cpp:191-205 | the arena keeps its size. A FOLLOWING slot is rewritten to the address of the table of `count` bytes read at 4-byte alignment, as Memory.FollowMemoryRewrites states |
| Techsets.LoadBindsBlock | src/assets/techset.cpp:197-204 | the arena keeps its size. A FOLLOWING extension word, the table's last, is rewritten to the address of 16 unaligned bytes, as Memory.FollowMemoryRewrites states |
| Techsets.LoadTechnique | src/assets/techset.cpp:79-115 | the arena keeps its size |
| Techsets.LoadTechniqueBlock | src/assets/techset.cpp:89-113 | the arena keeps its size. Its checks are in TechniqueChecks, and its order, dependencies first and the name last, in TechniqueNameLast |
| Techsets.LoadTechniques | src/assets/techset.cpp:70-73 | the loop keeps all 34 handles in place |
| Techsets.ReadHeader | src/assets/techset.cpp:41-67 | the record yields 34 technique handles |
| Techsets.LoadTechset | src/assets/techset.cpp:26-77 | the arena keeps its size |
| Techsets.HandleRule | src/assets/techset.cpp:30-37 | MISSING reads nothing and keeps the object; a handle other than MISSING or FOLLOWING is an internal error |
| Techsets.SlotRules | src/assets/techset.cpp:118-206 | a MISSING state map or shader is corrupt data, a MISSING binding handle is not checked; an encoded state map, shader or binding handle reads nothing |
| Techsets.TechniqueChecks | src/assets/techset.cpp:89-102 | a loaded technique has a name word that is not MISSING, 1 in the upper half of word 1, and a state map word that is not MISSING |
| Techsets.ShaderChecks | src/assets/techset.cpp:157-175 | a loaded shader has words 0 and 2 non-zero and word 1 zero; its data is four bytes per unit of the low half of word 3 |
| Techsets.BindsFollowing | src/assets/techset.cpp:186-194 | FOLLOWING bindings with a zero size fail in ReadSharedMemory; loaded ones are at least 8 bytes |
| Techsets.StateMapKeeps | src/assets/techset.cpp:118-137 | loading a state map moves the cursor forward and changes no word below the old cursor other than its slot |
| Techsets.ShaderBlockKeeps | src/assets/techset.cpp:163-180 | loading a shader's name and data changes no word below the old cursor other than the block's words 0 and 2 |
| Techsets.ShaderKeeps | src/assets/techset.cpp:139-182 | loading a shader moves the cursor forward and changes no word below the old cursor other than its slot |
| Techsets.BindsOfKeeps | src/assets/techset.cpp:191-205 | loading the bindings of a known size changes no word below the old cursor other than their slot |
| Techsets.BindsBlockKeeps | src/assets/techset.cpp:197-204 | the extension changes no word below the old cursor other than itself |
| Techsets.BindsKeeps | src/assets/techset.cpp:184-206 | loading the bindings moves the cursor forward and changes no word below the old cursor other than their slot |
| Techsets.ShaderNameBeforeData | src/assets/techset.cpp:163-180 | a FOLLOWING shader name is the string at the old cursor; a FOLLOWING data block of (word 3 & 0xFFFF) * 4 bytes comes after it and ends at the new cursor |
| Techsets.TechniqueNameLast | src/assets/techset.cpp:101-113 | a technique's state map, vertex shader, pixel shader and bindings are read in that order, each from the cursor the one before left; a FOLLOWING name is the string at the cursor the bindings leave, and any other name reads nothing |
| Techsets.TechniqueEncoded | src/assets/techset.cpp:83-87 | a FOLLOWING technique handle becomes the encoded address of its 28-byte block, which GetPointer decodes back; other handles are kept |
| Techsets.TechniquesResolved | src/assets/techset.cpp:70-73 | the loop resolves every technique handle in index order and keeps the ones already done |
| Techsets.FollowingTechset | src/assets/techset.cpp:41-73 | FOLLOWING reads 148 bytes; the name word is not MISSING; words 1 and 2 are zero; each of the 34 technique words of the record is resolved into the object's array |
| Techsets.HeaderLayout | src/assets/techset.cpp:41-67 | the 34 handles are words 3-36 of the record |
| Techsets.Techset.constructor | src/assets/techset.cpp:11-14 | no name and 34 zero technique handles |
| Techsets.Techset.Release | src/assets/techset.cpp:21-24 | the name is cleared, the techniques are kept |
| Techsets.Techset.Load | src/assets/techset.cpp:26-77 | agrees with LoadTechset, the technique array included |
| Techsets.DecodeHeader | src/assets/techset.cpp:41-67 | agrees with ReadHeader |
| Techsets.DecodeTechnique | src/assets/techset.cpp:79-115 | agrees with LoadTechnique |
| Techsets.DecodeTechniqueBlock | src/assets/techset.cpp:89-113 | agrees with LoadTechniqueBlock |
| Techsets.DecodeStateMap | src/assets/techset.cpp:118-137 | agrees with LoadStateMap |
| Techsets.DecodeShader | src/assets/techset.cpp:139-182 | agrees with LoadShader |
| Techsets.DecodeShaderBlock | src/assets/techset.cpp:157-180 | agrees with LoadShaderBlock |
| Techsets.DecodeBinds | src/assets/techset.cpp:184-206 | agrees with LoadBinds |
| Techsets.DecodeBindsOf | src/assets/techset.cpp:191-205 | agrees with LoadBindsOf |
| Techsets.DecodeBindsBlock | src/assets/techset.cpp:197-204 | agrees with LoadBindsBlock |
| Images.LoadImage | src/assets/image.cpp:21-86 | the arena keeps its size |
| Images.LoadMetadata | src/assets/image.cpp:61-82 | the arena keeps its size |
| Images.UnpackFields | src/assets/image.cpp:62-72 | width is bits 16-31 of word A; type is bits 8-15 of word A, its second assignment; height and flags are the two halves of word B; format is word C; usage is never set |
| Images.UnpackBytes | src/assets/image.cpp:62-72 | the same fields as bytes of the 12 bytes read |
| Images.HandleRule | src/assets/image.cpp:25-32 | MISSING reads nothing; a handle other than MISSING or FOLLOWING is an internal error |
| Images.MetadataLayout | src/assets/image.cpp:61-82 | after the name, 12 bytes of metadata are read, then 4 bytes are allocated at 4-byte alignment; they must be zero, else the data is corrupt |
| Images.EncodedNameLayout | src/assets/image.cpp:35-59 | FOLLOWING reads 36 bytes into a local buffer; an encoded name word goes through GetPointer with no stream read before the metadata |
| Images.LoadKeepsArena | src/assets/image.cpp:21-86 | the handle slot and everything below the cursor are unchanged: Store is a no-op |
| Images.MetadataGrows | src/assets/image.cpp:61-82 | the metadata read changes nothing below the cursor |
| Images.Image.constructor | src/assets/image.cpp:6-9 | no name |
| Images.Image.Release | src/assets/image.cpp:16-19 | the name is cleared, the metadata is kept |
| Images.Image.Load | src/assets/image.cpp:21-86 | agrees with LoadImage |
| Images.Decode | src/assets/image.cpp:21-86 | agrees with LoadImage |
| Images.DecodeMetadata | src/assets/image.cpp:61-82 | agrees with LoadMetadata |
| Localizes.LoadLocalize | src/assets/localize.cpp:23-68 | the arena keeps its size |
| Localizes.HandleRule | src/assets/localize.cpp:27-34 | MISSING reads nothing; a handle other than MISSING or FOLLOWING is an internal error |
| Localizes.FollowingRecord | src/assets/localize.cpp:37-64 | FOLLOWING reads 8 bytes; neither word is MISSING; an encoded value or key is its GetPointer; with both encoded only the 8 bytes are read |
| Localizes.ValueBeforeKey | src/assets/localize.cpp:45-64 | a FOLLOWING value's string comes before the key's in the stream |
| Localizes.LoadKeepsArena | src/assets/localize.cpp:23-68 | the handle slot and everything below the cursor are unchanged: Store is a no-op |
| Localizes.Localize.constructor | src/assets/localize.cpp:6-10 | no key and no value |
| Localizes.Localize.Release | src/assets/localize.cpp:17-21 | no key and no value |
| Localizes.Localize.Load | src/assets/localize.cpp:23-68 | agrees with LoadLocalize |
| Localizes.Decode | src/assets/localize.cpp:23-68 | agrees with LoadLocalize |
| Rawfiles.LoadRawfile | src/assets/rawfile.cpp:26-81 | the arena keeps its size |
| Rawfiles.LoadData | src/assets/rawfile.cpp:66-77 | the arena keeps its size |
| Rawfiles.DataSizeWraps | src/assets/rawfile.cpp:66 | data_s is the declared size + 1 as a 32-bit int: 0x7FFFFFFF and above wrap negative, 0xFFFFFFFF gives 0 |
| Rawfiles.HandleRule | src/assets/rawfile.cpp:30-34 | MISSING reads nothing; a handle other than MISSING or FOLLOWING is an internal error |
| Rawfiles.FollowingRecord | src/assets/rawfile.cpp:40-77 | FOLLOWING reads 12 bytes; the name and data words are not MISSING; data_s is the declared size + 1 whatever the data handle; FOLLOWING data needs data_s in [1, 0x2000000] and ends at the new cursor; encoded data is its GetPointer |
| Rawfiles.EncodedNameLayout | src/assets/rawfile.cpp:48-77 | an encoded name goes through GetPointer with no stream read, then the data is loaded |
| Rawfiles.DataVerbatim | src/assets/rawfile.cpp:69-77 | FOLLOWING data is the next data_s stream bytes copied verbatim, without alignment |
| Rawfiles.NameBeforeData | src/assets/rawfile.cpp:48-77 | a FOLLOWING name is read before FOLLOWING data |
| Rawfiles.LoadKeepsArena | src/assets/rawfile.cpp:26-81 | the handle slot and everything below the cursor are unchanged: Store is a no-op |
| Rawfiles.Rawfile.constructor | src/assets/rawfile.cpp:7-12 | no name, no data, size 0 |
| Rawfiles.Rawfile.Release | src/assets/rawfile.cpp:19-24 | no name, no data, size 0 |
| Rawfiles.Rawfile.Load | src/assets/rawfile.cpp:26-81 | agrees with LoadRawfile |
| Rawfiles.Decode | src/assets/rawfile.cpp:26-81 | agrees with LoadRawfile |
| Stringtables.LoadStringtable | src/assets/stringtable.cpp:33-103 | the arena keeps its size. Its meaning is in LoadHandleRule, FollowingLoaded and StoreHandleRule |
| Stringtables.LoadTable | src/assets/stringtable.cpp:51-99 | the arena keeps its size |
| Stringtables.LoadTableBlock | src/assets/stringtable.cpp:54-73 | the arena keeps its size |
| Stringtables.LoadTableCells | src/assets/stringtable.cpp:67-99 | the arena keeps its size |
| Stringtables.LoadIndex | src/assets/stringtable.cpp:78-98 | the arena keeps its size |
| Stringtables.LoadCells | src/assets/stringtable.cpp:89-98 | the arena keeps its size |
| Stringtables.LoadHandleRule | src/assets/stringtable.cpp:41-49 | MISSING reads nothing; a handle other than MISSING or FOLLOWING is an internal error |
| Stringtables.LoadCellsKeeps | src/assets/stringtable.cpp:89-98 | the cell loop changes no word below the cursor outside the cells still to visit |
| Stringtables.CellsResolved | src/assets/stringtable.cpp:89-98 | in index order, each FOLLOWING cell becomes a valid encoded address; MISSING and encoded cells are untouched |
| Stringtables.IndexLoaded | src/assets/stringtable.cpp:78-98 | the rows x columns x 4 byte index is allocated after the cursor, its handle rewritten to it, and each cell resolved from the stream's word |
| Stringtables.IndexKeeps | src/assets/stringtable.cpp:78-98 | the index load changes no other word below the cursor |
| Stringtables.TableCellsLoaded | src/assets/stringtable.cpp:67-99 | columns and rows are each in [1, 255], and the cells word is resolved |
| Stringtables.TableBlockLoaded | src/assets/stringtable.cpp:54-99 | the name and cells words are not MISSING; the name is resolved before the bounds check; the counts are in bounds |
| Stringtables.TableLoaded | src/assets/stringtable.cpp:51-99 | FOLLOWING allocates the 16-byte header at 4-byte alignment, rewrites the handle to it, keeps the stream's columns and rows there, and resolves the name and cells words |
| Stringtables.FollowingLoaded | src/assets/stringtable.cpp:51-100 | after a FOLLOWING load the object holds the stream's columns and rows, in bounds, a name, and rows x columns cells |
| Stringtables.StoreCells | src/assets/stringtable.cpp:146-163 | n cells are stored |
| Stringtables.StoreHandleRule | src/assets/stringtable.cpp:118-128 | Store rejects a FOLLOWING handle; MISSING keeps the object; a handle GetPointer rejects fails |
| Stringtables.CellDecodes | src/assets/stringtable.cpp:152-161 | a cell is accepted exactly when it is MISSING or a valid address; it is null exactly when MISSING; a FOLLOWING cell is corrupt data |
| Stringtables.CellOfEncoded | src/assets/stringtable.cpp:158-161 | an encoded cell decodes to its offset |
| Stringtables.StoreCellsAll | src/assets/stringtable.cpp:146-163 | the cells are stored if and only if every cell is accepted, each one as CellOf says |
| Stringtables.StoreCellsFirstFailure | src/assets/stringtable.cpp:146-163 | a failure is the error of the first rejected cell |
| Stringtables.StoreTableLayout | src/assets/stringtable.cpp:128-163 | the object holds the header's name, columns and rows, and columns x rows cells, each one the decoded index word |
| Stringtables.RowMajor | src/assets/stringtable.cpp:146-161 | cell (y, x) is at z = y * columns + x and is the decoded index word z |
| Stringtables.Stringtable.constructor | src/assets/stringtable.cpp:7-13 | no name, 0 columns and rows, no cells |
| Stringtables.Stringtable.Release | src/assets/stringtable.cpp:20-31 | frees the cells and resets name, columns and rows |
| Stringtables.Stringtable.Load | src/assets/stringtable.cpp:33-103 | agrees with LoadStringtable |
| Stringtables.Stringtable.Store | src/assets/stringtable.cpp:109-165 | agrees with StoreTable |
| Stringtables.Stringtable.StoreAt | src/assets/stringtable.cpp:128-163 | agrees with StoreBlock |
| Stringtables.DecodeStoreHeader | src/assets/stringtable.cpp:128-136 | agrees with StoreHeader |
| Stringtables.Tabulate | src/assets/stringtable.cpp:139-163 | the calloc'ed cells array: the visited cells in row-major order, then nulls; or the first cell's error |
| Stringtables.FillRow | src/assets/stringtable.cpp:148-162 | one row of the inner loop extends the stored cells by a row |
| Stringtables.FillCell | src/assets/stringtable.cpp:150-161 | one cell of the inner loop |
| Stringtables.DecodeCell | src/assets/stringtable.cpp:150-161 | agrees with CellOf |
| Stringtables.DecodeTable | src/assets/stringtable.cpp:51-99 | agrees with LoadTable |
| Stringtables.DecodeTableBlock | src/assets/stringtable.cpp:54-73 | agrees with LoadTableBlock |
| Stringtables.DecodeTableCells | src/assets/stringtable.cpp:67-99 | agrees with LoadTableCells |
| Stringtables.DecodeIndex | src/assets/stringtable.cpp:78-98 | agrees with LoadIndex |
| Stringtables.DecodeCells | src/assets/stringtable.cpp:89-98 | agrees with LoadCells |
| Intersect.SplitMeaning | tools/intersect.cpp:23-45 | the argument is the sign, one of "", "0x", "0X", "x", "X", and the digits, without loss; '-' is taken first; a leading "0" without x stays a digit |
| Intersect.Digit | tools/intersect.cpp:52-80 | a digit is 0-9, and in hexadecimal also upper-case A-F; lower-case a-f is not a digit |
| Intersect.ValueOf | tools/intersect.cpp:47-84 | a failure is the error of the base |
| Intersect.ValueOfOk | tools/intersect.cpp:47-84 | the digit loop succeeds if and only if every character is a digit of the base |
| Intersect.ValueIsPositional | tools/intersect.cpp:65-82 | the loop's total = total * base + digit is the positional value of the digits |
| Intersect.ParseMeaning | tools/intersect.cpp:10-87 | xtoi succeeds exactly when all digits are of the chosen base, giving the positional value, negated after a '-'; otherwise the base's error |
| Intersect.NoDigitsIsZero | tools/intersect.cpp:20-47 | an empty digit string ("", "-", "0x", "x") gives 0 |
| Intersect.Xtoi | tools/intersect.cpp:10-87 | agrees with Parse |
| Intersect.ReadDigits | tools/intersect.cpp:47-84 | the digit loop agrees with ValueOf on the characters before the terminator |
| Djb2.Widened | docs/djb2.c:9-10 | a char below 0x80 enters the xor as itself; one of 0x80 or above sign-extended |
| Djb2.HashEmpty | docs/djb2.c:7-12 | the empty string, and any buffer starting with the terminator, hash to 0 |
| Djb2.HashAppend | docs/djb2.c:9-10 | a non-zero char c gives h(s + c) = ((h(s) * 33) mod 2^32) xor c |
| Djb2.HashStopsAtNul | docs/djb2.c:9 | nothing after the first zero byte affects the hash |
| Djb2.HashSingle | docs/djb2.c:6-10 | a single char hashes to itself, sign-extended from 0x80 on: the hash starts at 0 and uses xor, not the 5381 of the original djb2 |
| Djb2.Hash | docs/djb2.c:4-13 | the while loop computes HashValue |
| Deff.GetMaxSize | src/deff.cpp:10-25 | 3 with no argument; at least every argument's length + 3; with arguments, exactly some argument's length + 3 |
| Deff.Dots | src/deff.cpp:48 | n dots |
| Deff.Pad | src/deff.cpp:47-50 | the buffer is the argument followed by dots to its end, with no terminator |
| Deff.PadArguments | src/deff.cpp:42-52 | over argv[1..] only: each line is its argument followed by at least 3 dots, and all lines have the longest argument's length + 3 |
| Deff.PaddedLineUnterminated | src/deff.cpp:47-52 | as written, a padded line holds no terminator at all |
| Deff.PadArgumentsTerminated | src/deff.cpp:42-52 | with a buffer of maxSize + 1 ending in a terminator, the string printed is the argument and its dots, of the longest argument's length + 3 |

## Left out

- Inflation and file reading: zlib `inflate` and `fread` are not modelled. The stream's source is a parameter (`inflated`), and `Refill` may pick any chunk size from 1 to BUFFER_SIZE that the source still holds.
- The FastFile constructor's file handling: path conversion, `_wfopen_s`, `fseek` and `free` (src/fastfile.cpp:22-128). The file's bytes are a parameter.
- The destructors and `delete` of assets: assets are held as values in the loaded table, and `Release` is modelled.
- The DEBUG/VERBOSE printing block of ReadAssets (src/fastfile.cpp:778-991), `DumpMemory`, and the `fprintf` output of deff: output only. The `ASSET_NOT` throws of that block cannot be reached, because an asset without a decoder has already failed.
- Exception objects and messages: every error is one `Error` value. The unsupported asset type carries its name and code.
- Floating point: PhysPreset's float fields are kept as their raw 32-bit words.
- Allocation failure is not modelled, because the model has no memory limit. This covers the `calloc` of the arena (src/fastfile.cpp:508-513), of the tags array ("Could not allocate tags array.", src/fastfile.cpp:556-560) and of the assets array ("Could not allocate assets structures array.", src/fastfile.cpp:657-661), and the `new` of each decoder object (src/fastfile.cpp:722-746). The stringtable's `calloc(columns * rows)` fails with `OutOfMemory` only when the product is negative.
- 32-bit int overflow of `count * 4`, `count * 8` and `columns * rows`: counts are unbounded here. The section rule and the [1, 255] bounds keep the values the loader accepts far from overflow, except the index sizes for counts above 2^29.
- Intersect.Xtoi: `total` is unbounded. The source's int overflows, which is undefined behaviour in C, above 2^31 - 1.
- Stringtables.CellOf: the index is read without a bounds check in the source. The model fails with `UncheckedRead` when the cell lies outside the arena.
- Stringtables.StoreHeader: the header block is read without a bounds check in the source. The model fails with `UncheckedRead` when it lies outside the arena.
- State after a failure: the methods promise `Valid()` but not the partial state a failed load leaves behind. This covers a material's name, a techset's array, a stringtable's fields and the FastFile's fields. Every failure ends the load.
- The `flags` parameter of `Techset::LoadBinds` is unused in the source and left out.
- The "Internal error" asserts that the section count equals the count passed on (src/fastfile.cpp:583-585, 683-687) always hold by construction and are not modelled separately.
- deff's arguments are given as their characters without terminator, which is what `wcslen` counts.
- Techsets.LoadTechset: no lemma shows that a technique set load leaves the bytes below the old cursor unchanged, as `LoadKeepsArena` does for the other decoders. Only `Valid()` and the agreement with the spec function are proved for it.

## Findings

| source | as written | input that shows it | evidently intended | confidence | as-written member | corrected member |
|---|---|---|---|---|---|---|
| src/deff.cpp:42-52 | the buffer holds exactly maxSize wide chars of argument and dots, with no terminator, and `%-*ls` then prints it as a string | arguments ["a.ff"]: the buffer is "a.ff..." with nothing after it, so `%ls` reads past its end | a buffer of maxSize + 1 chars whose last one is 0 | not executed | Deff.PaddedLineUnterminated | Deff.PadArgumentsTerminated |
