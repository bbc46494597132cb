# MCC texture pack dumper: chunk parser, pack assembler and pixel codec

This project models the core of MCCTexturePackDumper in Dafny and proves
properties of the model. The tool reads the texture packs of a game archive
(`.perm.bin`, with an optional `.temp.bin` sibling) and decodes their textures
into BGRA32 rasters. The model covers three parts:

- **The chunk-stream parser** (`TexturePackFile`). A little-endian stream is a
  series of records: a 4-byte tag, then three `int32` header fields (Size1,
  Size2, Unknown), then a payload. The tag picks one of eight readers, and any
  other tag aborts the parse.
  - `TextureData` keeps Size1 payload bytes.
  - The `Texture` metadata reader reads fixed offsets from DataStart
    (FileOffset + 0x10). It always consumes 0x1D0 bytes.
  - The other readers seek Size1 bytes ahead. A zero tag is read as a
    `Reflect` chunk.
- **The pack assembler** (`TexturePack`, `ProcessedTexture`).
  - When the temp sibling exists, every `Texture` chunk slices its pixels out
    of the temp file at its absolute offset.
  - Otherwise the i-th `Texture` chunk takes the first TextureSize bytes of the
    i-th `TextureData` chunk.
- **The pixel codec** (`TextureConversion`).
  - A8R8G8B8 swaps bytes 0 and 2 of every 4-byte group.
  - DXT1, DXT3 and DXT5 are S3TC block decoders on a ceil(w/4) × ceil(h/4)
    grid. They write each pixel into a growing stream at an explicit position.
  - Every other format is a zero-padded raw copy.

## Layout

- `results.dfy`
  - `Results`: the error kinds and `Result`.
  - `LittleEndian`: bytes, and the little-endian integer readings.
- `streams.dfy` (`Streams`)
  - The BinaryReader the parser and the codec read through: a class with a
    position over the bytes.
  - The MemoryStream the codec writes into: a class that logs its 32-bit
    writes. Its contents are those writes painted in order over an empty
    stream.
- `chunks.dfy` (`Chunks`)
  - The chunk datatypes, the tag constants and the Texture field-offset table.
  - The reference definition of the parse, `Parse`, and its properties.
- `chunk_reader.dfy` (`ChunkReader`)
  - The parser as the program runs it: methods that advance one shared
    BinaryReader by reads and seeks, and the `while` loop appending chunks.
  - Each method is proved equal to its reference definition.
- `pack.dfy` (`Pack`)
  - The pack name and both `ProcessedTexture` constructors.
  - Both pairing modes as functions, with their properties.
- `pack_loader.dfy` (`PackLoader`)
  - The `TexturePack` constructor's loops and the in-place `Array.Copy`, as
    methods proved equal to `Pack`.
- `codec.dfy` (`Codec`)
  - The reference definitions of the codec: channel expansion, pixel assembly,
    colour and alpha blocks, the block grid, the swizzle, the raw copy and the
    format dispatch.
- `codec_facts.dfy` (`CodecFacts`)
  - Where every decoded pixel lands, which selector and alpha bits it takes,
    and the output length.
- `decoders.dfy` (`Decoders`)
  - The codec as the program runs it: the block loops, the 2-bit, 4-bit and
    3-bit shift loops, and the `byte[4,4]` alpha arrays filled in place.
  - Each method is proved equal to its reference definition.

Methods that change a reader, a stream or an array are proved against a
function of the inputs. For example, `ReadPackFile` ensures
`r == Parse(data, fuel)`, and `ConvertTexture` ensures
`r == Convert(texture, lerp)`. The properties the program promises are proved
as lemmas about those functions.

The model follows the code in these places, where its behaviour is easy to
misread:

- **Name field.** The name is the 32-byte ASCII field with only its trailing
  NULs removed (`TexturePack.cs:214`). It is not cut at the first NUL, so an
  inner NUL stays (`NameKeepsInnerNul`).
- **A8R8G8B8.** The swizzle exchanges bytes 0 and 2 of each group and leaves
  bytes 1 and 3 in place (`TextureConversion.cs:57-63`). The input
  `FF 10 20 30 FF 40 50 60` decodes to `20 10 FF 30 50 40 FF 60`
  (`SwizzleExample`): the red and blue bytes of a little-endian word trade
  places, and the byte in position 3 stays in position 3.
- **DXT5 index order.** The 3-bit indices fill the alpha block row by row:
  entry (column c, row r) takes index number 4r + c. The loop names
  `channel[j, i]` with i outer, and the colour loop reads it as
  `alpha[column, row]` (`TextureConversion.cs:231-239`, `:166`).
- **DXT5 six-value mode.** This mode is entered when `first0 < first1`
  (`TextureConversion.cs:238-252`). Equal endpoints take the seven-step
  branch, whereas BC3 (DXT5) in the S3TC format uses six values when the
  endpoints are equal.
- **Positional pairing.** The index `textureDatas[i]` goes out of range only
  when there are fewer `TextureData` chunks than `Texture` chunks. A pair can
  still fail inside the `ProcessedTexture` constructor, on a negative
  TextureSize or one larger than its data chunk. Extra data chunks are ignored
  (`TexturePack.cs:79-80`, `PairPositionalSpec`).
- **Size1 overruns.** A skip chunk whose Size1 runs past the end of the stream
  does not fail, because `FileStream.Seek` past the end is allowed. The loop
  simply ends. A `TextureData` chunk keeps the bytes that are there, as
  `ReadBytes` does. The `Texture` reader ignores Size1.
- **The temp file.** When the temp sibling exists it is also parsed as a chunk
  stream (`TexturePack.cs:62-63`). A temp file that fails to parse fails the
  load.

## Model

| member | source | states |
|---|---|---|
| `Chunks.FormatOfCode` | MCCTexturePackDumper/TexturePack.cs:218-222 | a format is found exactly for the codes 0..13 of the `TextureFormat` enum, and the format found has that code as its value |
| `Chunks.FormatRoundTrip` | MCCTexturePackDumper/TexturePack.cs:218-222 | every `TextureFormat` value maps back to itself |
| `Chunks.TrimTrailingNuls` | MCCTexturePackDumper/TexturePack.cs:214 | the result is a prefix of the string, everything removed is `'\0'`, and the result does not end in `'\0'` |
| `Chunks.DecodeAscii` | MCCTexturePackDumper/TexturePack.cs:213-214 | one character per byte: bytes below 0x80 keep their code, others become `'?'` |
| `Chunks.NameFieldExample` | MCCTexturePackDumper/TexturePack.cs:213-214 | the field "foo" followed by 29 NULs reads as "foo" |
| `Chunks.NameKeepsInnerNul` | MCCTexturePackDumper/TexturePack.cs:214 | only trailing NULs go: "a\0b" plus NULs reads as "a\0b" |
| `Chunks.TrimPaddedName` | MCCTexturePackDumper/TexturePack.cs:214 | any name not ending in NUL, padded with any number of NULs, trims back to itself |
| `Chunks.GenerateIdxPaddingChunks` | MCCTexturePackDumper/TexturePack.cs:134-148 | one Padding(pad) exactly when pad <= 0x3F0, else Padding(0x3F0) and a positive Alignment; the sizes sum to pad |
| `Chunks.SizeConstructors` | MCCTexturePackDumper/TexturePack.cs:271-373 | each size constructor's chunk declares Size1 = size, has a known tag, and occupies header + size bytes; Padding, Reflect, Shader and ShaderData set Size2 = size and Unknown = 0; Alignment sets Size2 = Unknown = size; Zero sets Size2 = Unknown = -1 |
| `Chunks.NewPadding` | MCCTexturePackDumper/TexturePack.cs:271-277 | the Padding tag, Size1 = Size2 = size, Unknown = 0, no payload, header + size bytes |
| `Chunks.NewAlignment` | MCCTexturePackDumper/TexturePack.cs:291-297 | the Alignment tag, Size1 = Size2 = Unknown = size, no payload, header + size bytes |
| `Chunks.NewReflect` | MCCTexturePackDumper/TexturePack.cs:310-316 | the Reflect tag, Size1 = Size2 = size, Unknown = 0, no payload, header + size bytes |
| `Chunks.NewZero` | MCCTexturePackDumper/TexturePack.cs:329-335 | the zero tag, Size1 = size, Size2 = Unknown = -1, no payload, header + size bytes |
| `Chunks.NewShader` | MCCTexturePackDumper/TexturePack.cs:348-354 | the Shader tag, Size1 = Size2 = size, Unknown = 0, no payload, header + size bytes |
| `Chunks.NewShaderData` | MCCTexturePackDumper/TexturePack.cs:367-373 | the ShaderData tag, Size1 = Size2 = size, Unknown = 0, no payload, header + size bytes |
| `Chunks.DecodeTexture` | MCCTexturePackDumper/TexturePack.cs:206-245 | succeeds exactly when the stream holds the fields up to 0x1C8 and the format code at 0x5C is in 0..13; an out-of-enum code fails with that code; every other failure is truncation |
| `Chunks.DecodedTextureFields` | MCCTexturePackDumper/TexturePack.cs:206-245 | the field-offset table: NameHash 0x18, UnknownUID 0x30, name 0x34, format 0x5C, width/height/mips/depth int16 at 0x64–0x6A, blend 0x6C, Unknown3 0x70, size 0x78, offset 0x80, media 0xB0, Unknown4 0xD0, Unknown5 0x1C0, Unknown6 0x1C4 |
| `Chunks.HeaderAt` | MCCTexturePackDumper/TexturePack.cs:169-176 | FileOffset is the tag's position and Size1, Size2, Unknown are the three int32s after the tag; DataStart lies within the stream |
| `Chunks.ReadPayload` | MCCTexturePackDumper/TexturePack.cs:101-124 | the selected reader: a Texture's metadata is `DecodeTexture` at its DataStart, a decoding failure fails the pass with the same error, and it ends 0x1D0 past DataStart; TextureData keeps `data[DataStart .. min(DataStart+Size1, len)]`, or fails on a negative Size1; a skip chunk ends Size1 past DataStart; the header fields are kept; tag 0 becomes Reflect |
| `Chunks.ReadChunk` | MCCTexturePackDumper/TexturePack.cs:95-128 | FileOffset is the tag's position, the header fields are the three int32s after it, and the next position is the chunk's end; an unknown tag fails with `UnknownChunkType(tag)`; a Texture's metadata is `DecodeTexture` at its DataStart and a TextureData keeps the Size1 bytes after DataStart that the stream holds |
| `Chunks.ReadChunkErrors` | MCCTexturePackDumper/TexturePack.cs:95-128 | a pass fails only on a short stream, an unknown tag, an unknown pixel format, a negative byte count or a seek before byte 0 |
| `Chunks.ParseFrom` | MCCTexturePackDumper/TexturePack.cs:95-129 | a consumed stream yields no chunk; otherwise a successful parse starts with a chunk read at the current position, and never holds more chunks than the bound |
| `Chunks.ParseAt` | MCCTexturePackDumper/TexturePack.cs:97-129 | a successful parse starts with the chunk the pass reads; a failing pass fails the parse with its error |
| `Chunks.Parse` | MCCTexturePackDumper/TexturePack.cs:89-132 | an empty file has no chunks, and a successful parse of a non-empty file has at least one, never more than the bound |
| `Chunks.ParseStart` | MCCTexturePackDumper/TexturePack.cs:95-97 | the first tag is read at the start; no chunk exactly when the stream is already consumed |
| `Chunks.ParseBackToBack` | MCCTexturePackDumper/TexturePack.cs:161-171 | every next tag is read where the previous chunk's payload ends; only the last chunk reaches the end of the stream |
| `Chunks.ParseTagsKnown` | MCCTexturePackDumper/TexturePack.cs:99-128 | every parsed chunk's tag lies in the stream with room for its header and is one of the eight known tags |
| `Chunks.ParseFootprint` | MCCTexturePackDumper/TexturePack.cs:95-97 | the chunks' header-plus-payload sizes add up to the distance from the start to the last chunk's end |
| `Chunks.ParseCoversStream` | MCCTexturePackDumper/TexturePack.cs:95-97 | when the last chunk does not overrun, the chunks' header-plus-payload sizes sum to its length (a Size1 between -16 and 0 lets the next chunk start inside the previous one's header, so this is a sum, not a tiling) |
| `Chunks.ParseStopsAt` | MCCTexturePackDumper/TexturePack.cs:126-127 | a failing pass fails the whole parse with its error: no partial chunk list |
| `Chunks.ParseContinuesAt` | MCCTexturePackDumper/TexturePack.cs:95-129 | a successful pass puts its chunk in front of the parse from where it left the reader |
| `Chunks.ParseFuelMonotone` | MCCTexturePackDumper/TexturePack.cs:95 | the chunk bound only cuts a parse short: once a bound suffices, larger bounds give the same chunks |
| `Chunks.ParsePayloadContents` | MCCTexturePackDumper/TexturePack.cs:101-105 | in a successful parse, every Texture chunk's metadata is `DecodeTexture` at its DataStart, and every TextureData chunk holds the Size1 bytes after its DataStart that the stream has |
| `Chunks.ParseFuelEnough` | MCCTexturePackDumper/TexturePack.cs:95-129 | when every successful pass moves the reader forward, a bound of one chunk per remaining byte never runs out |
| `Chunks.ParsePayloadKinds` | MCCTexturePackDumper/TexturePack.cs:101-105 | a parsed chunk holds metadata exactly when its UID is the Texture tag, and pixel bytes exactly when its UID is the TextureData tag |
| `ChunkReader.ReadHeader` | MCCTexturePackDumper/TexturePack.cs:169-176 | FileOffset = position - 4; Size1, Size2, Unknown are the int32s read; the reader ends at DataStart; fails only when the header is truncated |
| `ChunkReader.ReadTexture` | MCCTexturePackDumper/TexturePack.cs:206-245 | the skips and reads in program order equal `DecodeTexture`, and leave the reader 0x1D0 bytes past DataStart |
| `ChunkReader.ReadIdentity` | MCCTexturePackDumper/TexturePack.cs:208-214 | NameHash at 0x18, UnknownUID at 0x30, the 32 name bytes at 0x34 |
| `ChunkReader.ReadLayout` | MCCTexturePackDumper/TexturePack.cs:225-232 | four int16 dimensions, the uint blend state and three int64 fields from 0x64, in order |
| `ChunkReader.ReadTrailer` | MCCTexturePackDumper/TexturePack.cs:234-242 | MediaUID at 0xB0, Unknown4 at 0xD0, Unknown5 at 0x1C0 and Unknown6's bits at 0x1C4 |
| `ChunkReader.ReadNextChunk` | MCCTexturePackDumper/TexturePack.cs:97-128 | one loop pass (tag, dispatch, reader) agrees with `ReadChunk`, chunk, end position and error alike |
| `ChunkReader.ReadBody` | MCCTexturePackDumper/TexturePack.cs:101-124 | the reader the tag selects agrees with `ReadPayload` |
| `ChunkReader.ReadPackFile` | MCCTexturePackDumper/TexturePack.cs:89-132 | the `while (Position < Length)` loop returns exactly `Parse(data, fuel)` |
| `Pack.RemoveAll` | MCCTexturePackDumper/TexturePack.cs:54 | removing occurrences never lengthens the string |
| `Pack.RemoveAllKeeps` | MCCTexturePackDumper/TexturePack.cs:54 | every character left after the removal was in the string |
| `Pack.PackName` | MCCTexturePackDumper/TexturePack.cs:54 | the name is no longer than the file name and has no upper-case ASCII letter |
| `Pack.TempFileName` | MCCTexturePackDumper/TexturePack.cs:56 | the temp path is the pack name followed by ".temp.bin", with no upper-case ASCII letter |
| `Pack.RemoveAllNone` | MCCTexturePackDumper/TexturePack.cs:54 | a string in which the pattern does not occur comes through `Replace(pat, "")` unchanged |
| `Pack.RemoveAllFirst` | MCCTexturePackDumper/TexturePack.cs:54 | `Replace(pat, "")` removes the first occurrence: when the pattern first occurs right after a, the result of a + pat + b is a followed by the result of b |
| `Pack.PackNameOfPermFile` | MCCTexturePackDumper/TexturePack.cs:54-56 | a stem without dots, in any case, loses exactly ".perm.bin": the name is the lower-cased stem and the temp sibling is that name + ".temp.bin" |
| `Pack.PackNameOfFirstExtension` | MCCTexturePackDumper/TexturePack.cs:54 | any stem whose lower-cased form holds no ".perm.bin" starting before the extension names the pack by its lower-cased form |
| `Pack.PackNameWithoutExtension` | MCCTexturePackDumper/TexturePack.cs:54 | a file name with no ".perm.bin" in any case is only lower-cased |
| `Pack.PackNameIgnoresCase` | MCCTexturePackDumper/TexturePack.cs:54 | the name is lower-cased before ".perm.bin" is removed: "Foo.PERM.BIN" names the pack "foo" |
| `Pack.PackNameSinglePass` | MCCTexturePackDumper/TexturePack.cs:54 | `Replace` makes one pass: "w.perm.perm.bin.bin" names the pack "w.perm.bin" |
| `Pack.ToLower` | MCCTexturePackDumper/TexturePack.cs:54 | ASCII capitals become lower case and every other character is kept |
| `Pack.CopyOut` | MCCTexturePackDumper/TexturePack.cs:411-412 | `new byte[n]` plus `Array.Copy`: fails on a negative length or a range outside the source, else the n bytes from the offset |
| `Pack.FromData` | MCCTexturePackDumper/TexturePack.cs:399-419 | copies the metadata unchanged; the pixels are the first TextureSize bytes of the data chunk (failing when it holds fewer); TextureOffset = DataStart, TextureSize = Size1, and the data chunk's DataStart and Size1 |
| `Pack.FromTemp` | MCCTexturePackDumper/TexturePack.cs:421-442 | copies the metadata; the pixels are `temp[TextureOffset .. TextureOffset+TextureSize)`; TextureDataOffset = TextureOffset + 0x10 in uint arithmetic, and TextureDataSize is TextureSize as an int |
| `Pack.TempDataOffset` | MCCTexturePackDumper/TexturePack.cs:440 | `(uint)TextureOffset + 0x10`, equal to TextureOffset + 0x10 whenever that fits in a uint |
| `Pack.TextureChunks` | MCCTexturePackDumper/TexturePack.cs:77 | keeps exactly the Texture chunks of the list, and is no longer than it |
| `Pack.TextureDataChunks` | MCCTexturePackDumper/TexturePack.cs:78 | keeps exactly the TextureData chunks of the list, and is no longer than it |
| `Pack.ChunksWithUid` | MCCTexturePackDumper/TexturePack.cs:71 | keeps exactly the chunks of the list whose UID is the given one, and is no longer than it |
| `Pack.TextureChunksOfConcat` | MCCTexturePackDumper/TexturePack.cs:77 | selecting from two lists joined is joining the two selections: the order of the chunks is kept |
| `Pack.TextureDataChunksOfConcat` | MCCTexturePackDumper/TexturePack.cs:78 | the same for the TextureData selection |
| `Pack.ChunksWithUidOfConcat` | MCCTexturePackDumper/TexturePack.cs:71 | the same for the selection by UID |
| `Pack.SelectionsOfOne` | MCCTexturePackDumper/TexturePack.cs:71-78 | a single chunk is kept exactly when it has the selected kind or UID |
| `Pack.UidSelectsTextureChunks` | MCCTexturePackDumper/TexturePack.cs:71 | on parsed chunks, selecting by the Texture UID and selecting Texture chunks give the same list |
| `Pack.PairPositional` | MCCTexturePackDumper/TexturePack.cs:79-80 | a success has one texture per Texture chunk and at least as many data chunks; the count error arises only with fewer data chunks than textures |
| `Pack.PairPositionalSpec` | MCCTexturePackDumper/TexturePack.cs:77-80 | the positional pairing succeeds exactly when there are at least as many data chunks as textures and texture i fits data chunk i for every i; it then has one texture per Texture chunk, texture i built from data chunk i |
| `Pack.PairPositionalResult` | MCCTexturePackDumper/TexturePack.cs:79-80 | a successful pairing builds texture i from data chunk i |
| `Pack.PairPositionalSucceeds` | MCCTexturePackDumper/TexturePack.cs:79-80 | enough data chunks, each accepted by the texture at its index, make the pairing succeed |
| `Pack.PairPositionalIgnoresExtra` | MCCTexturePackDumper/TexturePack.cs:79-80 | data chunks past the last texture do not change the result |
| `Pack.SliceAll` | MCCTexturePackDumper/TexturePack.cs:71-72 | a success has one texture per Texture chunk; a failure is a negative size or a range outside the temp file |
| `Pack.SliceAllSpec` | MCCTexturePackDumper/TexturePack.cs:71-72 | the absolute-offset loop succeeds exactly when every texture's slice succeeds, and yields them one per chunk, in order |
| `Pack.AssemblePack` | MCCTexturePackDumper/TexturePack.cs:51-82 | a perm file that fails to parse fails the load with its error, then a temp file that fails to parse does; a loaded pack holds the parsed perm chunks, the pack name, and the parsed temp chunks exactly when the temp file exists |
| `Pack.AbsoluteModeTextures` | MCCTexturePackDumper/TexturePack.cs:59-73 | with a temp file both files parse; one processed texture per Texture chunk, in encounter order, sliced from the temp file; TextureData chunks play no part |
| `Pack.PositionalModeTextures` | MCCTexturePackDumper/TexturePack.cs:74-81 | without a temp file, texture i takes data chunk i, and there are at least as many data chunks as textures |
| `Pack.AbsoluteModeLoads` | MCCTexturePackDumper/TexturePack.cs:59-73 | with a temp file, the load succeeds exactly when both files parse and every Texture chunk's pixel range lies in the temp file |
| `Pack.PositionalModeLoads` | MCCTexturePackDumper/TexturePack.cs:59-81 | without a temp file, the load succeeds exactly when the perm file parses, has at least as many TextureData as Texture chunks, and every texture fits in the data chunk at its index |
| `Pack.PositionalTooFewData` | MCCTexturePackDumper/TexturePack.cs:79-80 | fewer TextureData than Texture chunks fails the load |
| `PackLoader.CopyPixels` | MCCTexturePackDumper/TexturePack.cs:433-434 | the element-by-element copy into a fresh array equals `CopyOut` |
| `PackLoader.NewFromData` | MCCTexturePackDumper/TexturePack.cs:399-419 | the constructor equals `FromData` |
| `PackLoader.NewFromTemp` | MCCTexturePackDumper/TexturePack.cs:421-442 | the constructor over the temp file's bytes equals `FromTemp` |
| `PackLoader.SliceTextures` | MCCTexturePackDumper/TexturePack.cs:67-73 | the loop appending to Textures equals `SliceAll` |
| `PackLoader.PairTextures` | MCCTexturePackDumper/TexturePack.cs:74-81 | the indexed loop equals `PairPositional`, failing when `textureDatas[i]` is out of range |
| `PackLoader.LoadTexturePack` | MCCTexturePackDumper/TexturePack.cs:51-82 | the constructor equals `AssemblePack`: the temp file selects the mode |
| `Codec.ExtractTo8Bit` | MCCTexturePackDumper/TextureConversion.cs:37-42 | a channel value of 0 gives 0 and the mask gives 255; a 4-bit value v gives 17v |
| `Codec.ExtractTo8BitRounds` | MCCTexturePackDumper/TextureConversion.cs:37-42 | the result is 255·v/mask rounded to the nearest integer: within half a unit |
| `Codec.AssembleBgraPixel` | MCCTexturePackDumper/TextureConversion.cs:44-47 | the uint's little-endian bytes are b, g, r, a |
| `Codec.ColorPixel` | MCCTexturePackDumper/TextureConversion.cs:168-190 | selector 0 and 1 give endpoint 0 and 1 with the pixel's alpha; when color0 <= color1 (equality included), selector 2 is the 1/2 blend and selector 3 is all-zero; otherwise selectors 2 and 3 are the 1/3 and 2/3 blends |
| `Codec.AlphaOfIndex` | MCCTexturePackDumper/TextureConversion.cs:238-252 | index 0 gives first0 and 1 gives first1; when first0 < first1, 6 gives 0, 7 gives 255 and 2..5 the fifths blend; otherwise 2..7 the sevenths blend |
| `Codec.PackedAlpha` | MCCTexturePackDumper/TextureConversion.cs:195-216 | entry n is 17 times base-16 digit n of the little-endian 64-bit word |
| `Codec.NibbleAlphas` | MCCTexturePackDumper/TextureConversion.cs:204-213 | entry n is 17 times nibble n of the code |
| `Codec.BlockCount` | MCCTexturePackDumper/TextureConversion.cs:77-78 | `(n + 3) / 4` with truncating division: 0 for n <= 0, else ceil(n/4) |
| `Codec.BlockAt` | MCCTexturePackDumper/TextureConversion.cs:80-86 | when it lies in the source, block (x, y) is the BlockBytes bytes at (y·xBlocks + x)·BlockBytes: blocks are stored row by row, 8 bytes each for DXT1 and 16 for DXT3/DXT5 |
| `Codec.DecodeDxt` | MCCTexturePackDumper/TextureConversion.cs:71-137 | succeeds exactly when the source holds ceil(w/4)·ceil(h/4) blocks of 8 (DXT1) or 16 (DXT3, DXT5) bytes |
| `Codec.SwizzleArgb` | MCCTexturePackDumper/TextureConversion.cs:49-69 | succeeds exactly on a length divisible by 4 (a partial pixel fails the read), with output length = input length |
| `Codec.SwizzleArgbPixel` | MCCTexturePackDumper/TextureConversion.cs:55-63 | output group p is `[b2, b1, b0, b3]` of input group p |
| `Codec.RawCopy` | MCCTexturePackDumper/TextureConversion.cs:25-30 | a buffer of `width*height*4` (int product) bytes: the first min(len, n) are the source, the rest zero; negative n fails the allocation |
| `Codec.Selector` | MCCTexturePackDumper/TextureConversion.cs:144-164 | the pixel in column i, row r takes selector `(codeBytes[r] >> 2i) & 3` |
| `Codec.Texel` | MCCTexturePackDumper/TextureConversion.cs:166-190 | the pixel's alpha byte is 0 for selector 3 when color0 <= color1, and the pixel's alpha-block entry (255 without one) otherwise |
| `Codec.ColorBlockWrites` | MCCTexturePackDumper/TextureConversion.cs:155-192 | sixteen writes; the write for column c, row r comes in pass r ^ 1 at position c, at the pixel's offset in the image, and holds that pixel's texel |
| `Codec.InterpolatedAlpha` | MCCTexturePackDumper/TextureConversion.cs:218-257 | sixteen alphas; entry n is what 3-bit index n of the 48-bit field stands for, with the block's two endpoints |
| `Codec.IndexAlphas` | MCCTexturePackDumper/TextureConversion.cs:229-252 | sixteen alphas, entry n given by base-8 digit n of the code |
| `Codec.Convert` | MCCTexturePackDumper/TextureConversion.cs:7-35 | the format picks the decoder (the swizzle for A8R8G8B8, the DXT1, DXT3 and DXT5 grids, the raw copy otherwise), and the texture converts exactly when: A8R8G8B8 data is a whole number of pixels; DXT1 data holds ceil(w/4)·ceil(h/4) blocks of 8 bytes; DXT3/DXT5 data holds as many blocks of 16 bytes; for any other format, `width*height*4` (wrapped to int) is not negative |
| `Codec.TransparentBlackAssembled` | MCCTexturePackDumper/TextureConversion.cs:182 | `AssembleBGRAPixel(0, 0, 0, 0)` is the zero pixel |
| `CodecFacts.CodeWordSelectors` | MCCTexturePackDumper/TextureConversion.cs:145-162 | the 2-bit digits of `(cb[2]<<24)\|(cb[3]<<16)\|(cb[0]<<8)\|cb[1]`, lowest first, are the selectors of row k^1, columns 0..3, for k = 0..3 |
| `CodecFacts.PackedAlphaBits` | MCCTexturePackDumper/TextureConversion.cs:197-211 | DXT3 alpha at column i, row r is 17 × nibble 4r+i of the little-endian 64-bit word |
| `CodecFacts.InterpolatedAlphaBits` | MCCTexturePackDumper/TextureConversion.cs:225-252 | DXT5 alpha at column c, row r is what 3-bit index 4r+c of the 48-bit field stands for |
| `CodecFacts.AlphaEndpoints` | MCCTexturePackDumper/TextureConversion.cs:220-223 | first0 and first1 are the low and high byte of the first 16-bit word |
| `CodecFacts.Dxt1Alpha` | MCCTexturePackDumper/TextureConversion.cs:166-182 | DXT1 alpha is 255 on every pixel except selector 3 with color0 <= color1, where it is 0 |
| `CodecFacts.BlockAlphaKept` | MCCTexturePackDumper/TextureConversion.cs:166-182 | DXT3/DXT5 pixels carry their alpha-block entry, except the transparent black of selector 3 when color0 <= color1, even with an alpha block |
| `CodecFacts.PaintRowLog` | MCCTexturePackDumper/TextureConversion.cs:82-85 | decoding block row y left to right makes the blocks' writes in that order, one run over the stream |
| `CodecFacts.PaintGridLog` | MCCTexturePackDumper/TextureConversion.cs:80-85 | decoding the grid row by row into an empty stream makes every block's writes, row after row, over the empty stream |
| `CodecFacts.DxtImageLength` | MCCTexturePackDumper/TextureConversion.cs:77-88 | for a width divisible by 4, the output is 4·width bytes per pixel row for 4·ceil(h/4) rows |
| `CodecFacts.DxtImagePixels` | MCCTexturePackDumper/TextureConversion.cs:155-164 | for a width divisible by 4, image pixel (x, y) at byte 4(width·y + x) holds texel (x%4, y%4) of block (x/4, y/4) |
| `CodecFacts.NarrowImageSpills` | MCCTexturePackDumper/TextureConversion.cs:155-164 | on a 2×2 texture, columns 2–3 spill into the next row: pixel (0, 1) ends up holding the texel of column 2, row 0, and the output is 40 bytes long |
| `CodecFacts.SwizzleExample` | MCCTexturePackDumper/TextureConversion.cs:55-63 | `FF 10 20 30 FF 40 50 60` becomes `20 10 FF 30 50 40 FF 60` |
| `Decoders.Decode565ColorBlock` | MCCTexturePackDumper/TextureConversion.cs:139-193 | consumes 8 bytes and appends the block's sixteen writes, in the program's order; a truncated block fails before writing |
| `Decoders.PaintPasses` | MCCTexturePackDumper/TextureConversion.cs:155-192 | the four passes append the block's writes in order, shifting the code by 2 bits per pixel |
| `Decoders.TexelPixel` | MCCTexturePackDumper/TextureConversion.cs:161-190 | the low 2 bits of the shifted code word pick the texel's pixel |
| `Decoders.DecodePackedChannelBlock` | MCCTexturePackDumper/TextureConversion.cs:195-216 | consumes 8 bytes; the filled `byte[4,4]` equals `PackedAlpha` of them |
| `Decoders.UnpackNibbles` | MCCTexturePackDumper/TextureConversion.cs:202-215 | the `& 0xF; >>= 4` loop fills channel[i, j] with entry 4j+i of `NibbleAlphas` |
| `Decoders.Decode8BitChannelBlock` | MCCTexturePackDumper/TextureConversion.cs:218-257 | consumes 8 bytes; the filled `byte[4,4]` equals `InterpolatedAlpha` of them |
| `Decoders.UnpackIndices` | MCCTexturePackDumper/TextureConversion.cs:229-256 | the `& 7; >>= 3` loop fills channel[j, i] with entry 4i+j of `IndexAlphas` |
| `Decoders.FromA8R8G8B8` | MCCTexturePackDumper/TextureConversion.cs:49-69 | the read/write loop equals `SwizzleArgb` |
| `Decoders.SwizzlePixel` | MCCTexturePackDumper/TextureConversion.cs:57-63 | one pixel read and written back keeps the output the swizzle of the input read so far |
| `Decoders.DecodeBlock` | MCCTexturePackDumper/TextureConversion.cs:104-107 | consumes BlockBytes bytes, alpha block first, and appends the block's writes |
| `Decoders.FromDxt` | MCCTexturePackDumper/TextureConversion.cs:71-137 | the nested block loops equal `DecodeDxt` |
| `Decoders.DecodeBlockRow` | MCCTexturePackDumper/TextureConversion.cs:82-85 | the inner loop paints block row y, left to right, or fails only when the grid exceeds the source |
| `Decoders.GridPastSource` | MCCTexturePackDumper/TextureConversion.cs:80-85 | a source too short for the whole grid fails with a truncated stream, however much of it the loops decoded |
| `Decoders.NoBlockColumns` | MCCTexturePackDumper/TextureConversion.cs:77-82 | a width of 0 or less gives no block columns and an empty image, whatever the height |
| `Decoders.CopyRaw` | MCCTexturePackDumper/TextureConversion.cs:26-29 | the zeroed buffer plus `Array.Copy` equals `RawCopy` |
| `Decoders.ConvertTexture` | MCCTexturePackDumper/TextureConversion.cs:7-35 | the dispatch equals `Convert` |

## Left out

- Interpolated colours and alphas: `Lerp` (`TextureConversion.cs:259-262`)
  works in single-precision floating point with a truncating cast. It is a
  parameter `lerp` of the codec. The model states which blend each selector or
  index takes, never its value.
- `Codec.ExtractTo8Bit`: the double-precision `v / mask * 255 + 0.5` is
  replaced by the integer rounding `(510 v + mask) / (2 mask)`. For the masks
  0xF, 0x1F and 0x3F no channel value lies exactly halfway between two bytes,
  so the two agree. Floating point is not modelled, so this agreement is not
  proved.
- `Pack.ToLower`: only the ASCII capitals are lowered. `ToLowerInvariant`
  also lowers other Unicode letters in a file name.
- File system access: `FileStream`, `File.Exists` and `File.ReadAllBytes`
  become byte sequences passed in. A null temp array (or `None`) stands for a
  missing temp file. `Path.GetDirectoryName`, `Path.Combine` and the `.perm.idx`
  path, which is built but never read, are not modelled. A missing perm file is
  not modelled.
- `Chunks.Parse`: the parse takes a `fuel` bound on the number of chunks and
  fails with `OutOfFuel` past it. A negative Size1 seeks backwards and can make
  the program loop forever; the bound turns that into a failure. When every
  pass moves the reader forward, a bound equal to the file's length never runs
  out (`ParseFuelEnough`).
- Offsets and sizes are unbounded integers. `FileOffset` as a `uint`, and
  positions beyond 2^31 or 2^32, are not wrapped, so files of 4 GiB or more are
  not modelled. Only `TextureDataOffset`, `TextureDataSize` and the fallback
  buffer's `width*height*4` product are wrapped.
- `Codec.Convert`: the output of the DXT decoders is characterised pixel by
  pixel only for widths divisible by 4. For other widths, the as-written
  overlap is shown on the 2×2 case only (`NarrowImageSpills`).
- `HashName` calls `CRC32MPEG.CountCRC`, which is not part of this model.
- The float `Unknown6` is kept as its raw 32 bits.
- `Chunk.DataStart` is a `uint` sum in the source. It is unbounded here, like
  the other positions.
- The WPF window, the bitmap wrapper and the bulk export (`MainWindow.xaml.cs`,
  `UIBitmap.cs`, `TextureCollection.cs`) are not part of the core. The export's
  duplicate-name suffixing is interleaved with I/O and is left out with it.
