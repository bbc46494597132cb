/** The chunk-stream format of a texture pack file (`.perm.bin`, `.temp.bin`):
    the chunk records, the layout of the Texture metadata chunk, and the
    reference definition of how a BinaryReader walks a stream of chunks. */
module Chunks {
  import opened Results
  import opened LittleEndian
  import opened Streams

  // The eight chunk tags the parser recognises.
  const TextureUid: nat := 0xCDBF_A090
  const TextureDataUid: nat := 0x5E73_CDD7
  const PaddingUid: nat := 0xDEAD_B0FF
  const AlignmentUid: nat := 0xC9DC_5F62
  const ReflectUid: nat := 0x616A_903F
  const ZeroUid: nat := 0x0000_0000
  const ShaderUid: nat := 0x0C46_AEEF
  const ShaderDataUid: nat := 0x985B_E50C

  /** The tag and the three int32 header fields Size1, Size2 and Unknown. */
  const HeaderSize: nat := 0x10

  /** Payload bytes a Texture chunk occupies, whatever its Size1 says. */
  const TexturePayloadSize: nat := 0x1D0

  // The Texture chunk's fields, as byte offsets from DataStart.  The spans
  // between them are reserved and skipped.
  const NameHashAt: nat := 0x18
  const UnknownUidAt: nat := 0x30
  const NameAt: nat := 0x34
  const NameLength: nat := 0x20
  const FormatAt: nat := 0x5C
  const WidthAt: nat := 0x64
  const HeightAt: nat := 0x66
  const MipCountAt: nat := 0x68
  const DepthAt: nat := 0x6A
  const BlendingAt: nat := 0x6C
  const Unknown3At: nat := 0x70
  const TextureSizeAt: nat := 0x78
  const TextureOffsetAt: nat := 0x80
  const MediaUidAt: nat := 0xB0
  const Unknown4At: nat := 0xD0
  const Unknown5At: nat := 0x1C0
  const Unknown6At: nat := 0x1C4
  /** The end of the last field read; the final 8 reserved bytes are only seeked over. */
  const FieldsEnd: nat := 0x1C8

  predicate KnownTag(tag: nat) {
    tag == TextureUid || tag == TextureDataUid || tag == PaddingUid || tag == AlignmentUid
    || tag == ReflectUid || tag == ZeroUid || tag == ShaderUid || tag == ShaderDataUid
  }

  datatype TextureFormat =
    | A8R8G8B8 | DXT1 | DXT3 | DXT5 | R5G6B5 | A1R5G5B5 | X8 | X16
    | Unk8 | Unk9 | BC6H_UF16 | BC6H_SF16 | BC7 | BC7_SRGB

  /** The enum members in declaration order: member k has the value k. */
  const Formats: seq<TextureFormat> :=
    [A8R8G8B8, DXT1, DXT3, DXT5, R5G6B5, A1R5G5B5, X8, X16,
     Unk8, Unk9, BC6H_UF16, BC6H_SF16, BC7, BC7_SRGB]

  function FormatCode(f: TextureFormat): nat {
    match f
    case A8R8G8B8 => 0 case DXT1 => 1 case DXT3 => 2 case DXT5 => 3
    case R5G6B5 => 4 case A1R5G5B5 => 5 case X8 => 6 case X16 => 7
    case Unk8 => 8 case Unk9 => 9 case BC6H_UF16 => 10 case BC6H_SF16 => 11
    case BC7 => 12 case BC7_SRGB => 13
  }

  /** Enum.IsDefined followed by the cast: the format whose value is `code`. */
  function FormatOfCode(code: int): (r: Option<TextureFormat>)
    ensures r.Some? <==> 0 <= code < 14
    ensures r.Some? ==> FormatCode(r.value) == code
  {
    if 0 <= code < |Formats| then Some(Formats[code]) else None
  }

  /** Every format is found again from its value. */
  lemma FormatRoundTrip(f: TextureFormat)
    ensures FormatOfCode(FormatCode(f)) == Some(f)
  {
  }

  /** The metadata a Texture chunk carries.  The reserved 32-bit float at 0x1C4
      is kept as its raw bits. */
  datatype TextureMeta = TextureMeta(
    nameHash: nat, unknownUid: nat, name: string, format: TextureFormat,
    width: int, height: int, mipCount: int, depth: int, blending: nat,
    unknown3: int, textureSize: int, textureOffset: int, mediaUid: nat,
    unknown4: int, unknown5: int, unknown6Bits: nat)

  datatype Payload =
    | TexturePayload(meta: TextureMeta)
    | TextureDataPayload(pixelData: seq<byte>)
    | PaddingPayload
    | AlignmentPayload
    | ReflectPayload
    | ZeroPayload
    | ShaderPayload
    | ShaderDataPayload

  /** One chunk: where its tag sits in the file, its tag, its header fields and
      what its payload holds. */
  datatype Chunk = Chunk(fileOffset: nat, uid: nat, size1: int, size2: int, unknown: int, payload: Payload) {
    function DataStart(): nat {
      fileOffset + HeaderSize
    }

    /** How far past DataStart the reader stands once the chunk is read. */
    function PayloadLength(): int {
      match payload
      case TexturePayload(_) => TexturePayloadSize
      case TextureDataPayload(pixels) => |pixels|
      case _ => size1
    }

    function End(): int {
      DataStart() + PayloadLength()
    }
  }

  // The size constructors, which the program keeps for rebuilding a pack.
  // Such chunks have no position in a file, so FileOffset keeps its default 0.

  function NewPadding(size: int): (c: Chunk)
    ensures c.uid == PaddingUid && c.payload == SkipPayload(c.uid)
    ensures c.size1 == size && c.size2 == size && c.unknown == 0
    ensures c.End() == HeaderSize + size
  {
    Chunk(0, PaddingUid, size, size, 0, PaddingPayload)
  }

  function NewAlignment(size: int): (c: Chunk)
    ensures c.uid == AlignmentUid && c.payload == SkipPayload(c.uid)
    ensures c.size1 == size && c.size2 == size && c.unknown == size
    ensures c.End() == HeaderSize + size
  {
    Chunk(0, AlignmentUid, size, size, size, AlignmentPayload)
  }

  function NewReflect(size: int): (c: Chunk)
    ensures c.uid == ReflectUid && c.payload == SkipPayload(c.uid)
    ensures c.size1 == size && c.size2 == size && c.unknown == 0
    ensures c.End() == HeaderSize + size
  {
    Chunk(0, ReflectUid, size, size, 0, ReflectPayload)
  }

  /** The reader stores a zero tag as a Reflect chunk, so this chunk alone is
      not what reading its own header back gives. */
  function NewZero(size: int): (c: Chunk)
    ensures c.uid == ZeroUid && c.payload == ZeroPayload && SkipPayload(c.uid) == ReflectPayload
    ensures c.size1 == size && c.size2 == -1 && c.unknown == -1
    ensures c.End() == HeaderSize + size
  {
    Chunk(0, ZeroUid, size, -1, -1, ZeroPayload)
  }

  function NewShader(size: int): (c: Chunk)
    ensures c.uid == ShaderUid && c.payload == SkipPayload(c.uid)
    ensures c.size1 == size && c.size2 == size && c.unknown == 0
    ensures c.End() == HeaderSize + size
  {
    Chunk(0, ShaderUid, size, size, 0, ShaderPayload)
  }

  function NewShaderData(size: int): (c: Chunk)
    ensures c.uid == ShaderDataUid && c.payload == SkipPayload(c.uid)
    ensures c.size1 == size && c.size2 == size && c.unknown == 0
    ensures c.End() == HeaderSize + size
  {
    Chunk(0, ShaderDataUid, size, size, 0, ShaderDataPayload)
  }

  /** A chunk built for `size` bytes carries a known tag, declares Size1 =
      `size` and, in a chunk list, occupies exactly its header and `size`
      payload bytes.  Size2 repeats the size and Unknown is 0, except that the
      Alignment chunk also repeats the size in Unknown and the Zero chunk has
      -1 in Size2 and Unknown. */
  lemma SizeConstructors(size: int)
    ensures forall c :: c in [NewPadding(size), NewAlignment(size), NewReflect(size), NewZero(size), NewShader(size), NewShaderData(size)] ==>
      && c.size1 == size && c.PayloadLength() == size && Footprint([c]) == HeaderSize + size
      && KnownTag(c.uid) && !c.payload.TexturePayload? && !c.payload.TextureDataPayload?
    ensures forall c :: c in [NewPadding(size), NewReflect(size), NewShader(size), NewShaderData(size)] ==>
      c.size2 == size && c.unknown == 0
    ensures NewAlignment(size).size2 == size && NewAlignment(size).unknown == size
    ensures NewZero(size).size2 == -1 && NewZero(size).unknown == -1
  {
    var cs := [NewPadding(size), NewAlignment(size), NewReflect(size), NewZero(size), NewShader(size), NewShaderData(size)];
    forall c | c in cs
      ensures Footprint([c]) == HeaderSize + size
    {
      assert [c][1..] == [];
    }
  }

  /** The chunks GenerateIDXPaddingChunks builds for `pad` bytes of padding: one
      Padding chunk holds at most 0x3F0 bytes and an Alignment chunk takes the
      rest.  (The program builds them and does not yet store them anywhere.) */
  function GenerateIdxPaddingChunks(pad: int): (r: seq<Chunk>)
    ensures 1 <= |r| <= 2
    ensures |r| == 1 <==> pad <= 0x3F0
    ensures r[0].payload == PaddingPayload && r[0].uid == PaddingUid && r[0].size1 <= 0x3F0
    ensures |r| == 2 ==> r[1].payload == AlignmentPayload && r[1].uid == AlignmentUid
                         && r[0].size1 == 0x3F0 && r[1].size1 > 0
    ensures (if |r| == 1 then r[0].size1 else r[0].size1 + r[1].size1) == pad
    ensures forall c :: c in r ==> c.size2 == c.size1
  {
    if pad <= 0x3F0 then [NewPadding(pad)] else [NewPadding(0x3F0), NewAlignment(pad - 0x3F0)]
  }

  /** Encoding.ASCII.GetString of one byte: bytes above 0x7F decode as '?'. */
  function AsciiChar(b: byte): (c: char)
    ensures b < 0x80 ==> c as int == b as int
    ensures b >= 0x80 ==> c == '?'
  {
    if b < 0x80 then (b as int) as char else '?'
  }

  function DecodeAscii(bytes: seq<byte>): (r: string)
    ensures |r| == |bytes|
    ensures forall k :: 0 <= k < |bytes| ==> r[k] == AsciiChar(bytes[k])
  {
    seq(|bytes|, k requires 0 <= k < |bytes| => AsciiChar(bytes[k]))
  }

  /** String.TrimEnd('\0'): the longest prefix of `s` that leaves off only NULs
      and does not itself end in a NUL.  NULs inside the string are kept. */
  function TrimTrailingNuls(s: string): (r: string)
    ensures |r| <= |s| && r == s[..|r|]
    ensures forall k :: |r| <= k < |s| ==> s[k] == '\0'
    ensures r == [] || r[|r| - 1] != '\0'
    decreases |s|
  {
    if |s| > 0 && s[|s| - 1] == '\0' then TrimTrailingNuls(s[..|s| - 1]) else s
  }

  function DecodeName(field: seq<byte>): string {
    TrimTrailingNuls(DecodeAscii(field))
  }

  /** How the constructor reads a numeric field. */
  datatype FieldType = UInt32 | Int16 | Int32 | Int64

  datatype Field = Field(at: nat, ty: FieldType)

  function FieldSize(ty: FieldType): nat {
    match ty
    case Int16 => 2
    case UInt32 | Int32 => 4
    case Int64 => 8
  }

  /** The field of type `ty` at `p`; 0 where the stream is too short for it. */
  function FieldValue(data: seq<byte>, p: nat, ty: FieldType): (r: int)
    ensures ty == UInt32 ==> r >= 0
  {
    if |data| < p + FieldSize(ty) then 0
    else match ty
      case UInt32 => U32At(data, p)
      case Int16 => I16At(data, p)
      case Int32 => I32At(data, p)
      case Int64 => I64At(data, p)
  }

  /** The numeric fields of a Texture chunk, in the order the constructor reads
      them: NameHash, UnknownUID, Width, Height, MipCount, Depth, Blending,
      Unknown3, TextureSize, TextureOffset, MediaUID, Unknown4, Unknown5 and
      the bits of Unknown6. */
  const NumericFields: seq<Field> := [
    Field(NameHashAt, UInt32), Field(UnknownUidAt, UInt32),
    Field(WidthAt, Int16), Field(HeightAt, Int16), Field(MipCountAt, Int16), Field(DepthAt, Int16),
    Field(BlendingAt, UInt32), Field(Unknown3At, Int64), Field(TextureSizeAt, Int64),
    Field(TextureOffsetAt, Int64), Field(MediaUidAt, UInt32), Field(Unknown4At, Int32),
    Field(Unknown5At, Int32), Field(Unknown6At, UInt32)]

  /** The values of the fields `fs` of the record starting at `ds`. */
  function ReadFields(data: seq<byte>, ds: nat, fs: seq<Field>): (r: seq<int>)
    ensures |r| == |fs|
    ensures forall k :: 0 <= k < |fs| && fs[k].ty == UInt32 ==> r[k] >= 0
    decreases |fs|
  {
    if fs == [] then []
    else [FieldValue(data, ds + fs[0].at, fs[0].ty)] + ReadFields(data, ds, fs[1..])
  }

  /** The Texture chunk payload starting at `ds`, read through the field-offset
      table.  The reads before the format field fail when the stream is too
      short for the format field; a format code outside the enum fails next;
      the reads after it fail when the stream ends before the last read field. */
  function DecodeTexture(data: seq<byte>, ds: nat): (r: Result<TextureMeta>)
    ensures r.Success? <==> ds + FieldsEnd <= |data| && FormatOfCode(I32At(data, ds + FormatAt)).Some?
    ensures r.Failure? && r.error.UnknownPixelFormat? <==>
              ds + FormatAt + 4 <= |data| && FormatOfCode(I32At(data, ds + FormatAt)).None?
    ensures r.Failure? && r.error.UnknownPixelFormat? ==> r.error.code == I32At(data, ds + FormatAt)
    ensures r.Failure? && !r.error.UnknownPixelFormat? ==> r.error == TruncatedStream
    ensures r.Success? ==> r.value.format == Formats[I32At(data, ds + FormatAt)]
  {
    if |data| < ds + FormatAt + 4 then Failure(TruncatedStream)
    else
      var code := I32At(data, ds + FormatAt);
      match FormatOfCode(code)
      case None => Failure(UnknownPixelFormat(code))
      case Some(format) =>
        if |data| < ds + FieldsEnd then Failure(TruncatedStream)
        else
          var v := ReadFields(data, ds, NumericFields);
          Success(TextureMeta(
            v[0], v[1], DecodeName(data[ds + NameAt..ds + NameAt + NameLength]), format,
            v[2], v[3], v[4], v[5], v[6], v[7], v[8], v[9], v[10], v[11], v[12], v[13]))
  }

  lemma {:induction false} ReadFieldsAt(data: seq<byte>, ds: nat, fs: seq<Field>, k: nat)
    requires k < |fs|
    ensures ReadFields(data, ds, fs)[k] == FieldValue(data, ds + fs[k].at, fs[k].ty)
    decreases k
  {
    if k > 0 {
      ReadFieldsAt(data, ds, fs[1..], k - 1);
    }
  }

  /** A Texture chunk that decodes holds the fields at their offsets from
      DataStart, each read the way the constructor reads it. */
  lemma DecodedTextureFields(data: seq<byte>, ds: nat)
    requires DecodeTexture(data, ds).Success?
    ensures DecodeTexture(data, ds).value == TextureMeta(
      U32At(data, ds + NameHashAt), U32At(data, ds + UnknownUidAt),
      DecodeName(data[ds + NameAt..ds + NameAt + NameLength]), Formats[I32At(data, ds + FormatAt)],
      I16At(data, ds + WidthAt), I16At(data, ds + HeightAt),
      I16At(data, ds + MipCountAt), I16At(data, ds + DepthAt),
      U32At(data, ds + BlendingAt), I64At(data, ds + Unknown3At),
      I64At(data, ds + TextureSizeAt), I64At(data, ds + TextureOffsetAt),
      U32At(data, ds + MediaUidAt), I32At(data, ds + Unknown4At),
      I32At(data, ds + Unknown5At), U32At(data, ds + Unknown6At))
  {
    LeadingFields(data, ds);
    TrailingFields(data, ds);
  }

  /** NameHash, UnknownUID and the four 16-bit fields. */
  lemma LeadingFields(data: seq<byte>, ds: nat)
    requires ds + FieldsEnd <= |data|
    ensures var v := ReadFields(data, ds, NumericFields);
      && v[0] == U32At(data, ds + NameHashAt) && v[1] == U32At(data, ds + UnknownUidAt)
      && v[2] == I16At(data, ds + WidthAt) && v[3] == I16At(data, ds + HeightAt)
      && v[4] == I16At(data, ds + MipCountAt) && v[5] == I16At(data, ds + DepthAt)
  {
    var fs := NumericFields;
    ReadFieldsAt(data, ds, fs, 0); ReadFieldsAt(data, ds, fs, 1); ReadFieldsAt(data, ds, fs, 2);
    ReadFieldsAt(data, ds, fs, 3); ReadFieldsAt(data, ds, fs, 4); ReadFieldsAt(data, ds, fs, 5);
  }

  /** Blending and the fields after it. */
  lemma TrailingFields(data: seq<byte>, ds: nat)
    requires ds + FieldsEnd <= |data|
    ensures var v := ReadFields(data, ds, NumericFields);
      && v[6] == U32At(data, ds + BlendingAt) && v[7] == I64At(data, ds + Unknown3At)
      && v[8] == I64At(data, ds + TextureSizeAt) && v[9] == I64At(data, ds + TextureOffsetAt)
      && v[10] == U32At(data, ds + MediaUidAt) && v[11] == I32At(data, ds + Unknown4At)
      && v[12] == I32At(data, ds + Unknown5At) && v[13] == U32At(data, ds + Unknown6At)
  {
    var fs := NumericFields;
    ReadFieldsAt(data, ds, fs, 6); ReadFieldsAt(data, ds, fs, 7); ReadFieldsAt(data, ds, fs, 8);
    ReadFieldsAt(data, ds, fs, 9); ReadFieldsAt(data, ds, fs, 10); ReadFieldsAt(data, ds, fs, 11);
    ReadFieldsAt(data, ds, fs, 12); ReadFieldsAt(data, ds, fs, 13);
  }

  /** The payload a skip-only tag is stored as.  A zero tag is read as a
      Reflect chunk. */
  function SkipPayload(tag: nat): Payload {
    if tag == PaddingUid then PaddingPayload
    else if tag == AlignmentUid then AlignmentPayload
    else if tag == ShaderUid then ShaderPayload
    else if tag == ShaderDataUid then ShaderDataPayload
    else ReflectPayload
  }

  function SkipUid(tag: nat): nat {
    if tag == ZeroUid then ReflectUid else tag
  }

  /** The chunk reader the tag selects, entered with the header `h` read: the
      Texture reader decodes the metadata and leaves the reader 0x1D0 bytes
      past DataStart; the TextureData reader copies Size1 bytes, fewer at the
      end of the stream; every other reader seeks Size1 bytes ahead.  The
      result is the chunk and the position the reader is left at. */
  function ReadPayload(data: seq<byte>, h: Chunk): (r: Result<(Chunk, int)>)
    requires h.fileOffset + HeaderSize <= |data|
    ensures r.Success? ==> var (c, next) := r.value;
      && c == h.(uid := c.uid, payload := c.payload) && next == c.End() && next >= 0
      && c.uid == (if h.uid == ZeroUid then ReflectUid else h.uid)
    ensures r.Success? && h.uid == TextureUid ==>
      r.value.0.payload.TexturePayload? && r.value.1 == h.DataStart() + TexturePayloadSize
      && DecodeTexture(data, h.DataStart()) == Success(r.value.0.payload.meta)
    ensures h.uid == TextureUid && DecodeTexture(data, h.DataStart()).Failure? ==>
      r == Failure(DecodeTexture(data, h.DataStart()).error)
    ensures r.Failure? ==> r.error.TruncatedStream? || r.error.UnknownPixelFormat?
                           || r.error.NegativeByteCount? || r.error.SeekBeforeBeginning?
    ensures r.Success? && h.uid == TextureDataUid ==> var c := r.value.0;
      c.payload.TextureDataPayload? && 0 <= c.size1
      && c.payload.pixelData == data[c.DataStart()..Min(c.DataStart() + c.size1, |data|)]
    ensures r.Success? && h.uid != TextureUid && h.uid != TextureDataUid ==>
      r.value.1 == h.DataStart() + h.size1 && !r.value.0.payload.TexturePayload? && !r.value.0.payload.TextureDataPayload?
  {
    var ds := h.DataStart();
    if h.uid == TextureUid then
      match DecodeTexture(data, ds)
      case Failure(e) => Failure(e)
      case Success(meta) => Success((h.(payload := TexturePayload(meta)), ds + TexturePayloadSize))
    else if h.uid == TextureDataUid then
      if h.size1 < 0 then Failure(NegativeByteCount)
      else
        var end := Min(ds + h.size1, |data|);
        Success((h.(payload := TextureDataPayload(data[ds..end])), end))
    else if ds + h.size1 < 0 then Failure(SeekBeforeBeginning)
    else Success((h.(uid := SkipUid(h.uid), payload := SkipPayload(h.uid)), ds + h.size1))
  }

  /** The header at `pos`, as the Chunk base constructor reads it after the
      tag: its payload is not read yet. */
  function HeaderAt(data: seq<byte>, pos: nat): (h: Chunk)
    requires pos + HeaderSize <= |data|
    ensures h.fileOffset == pos && h.DataStart() <= |data|
    ensures h.uid == U32At(data, pos) && h.size1 == I32At(data, pos + 4)
    ensures h.size2 == I32At(data, pos + 8) && h.unknown == I32At(data, pos + 12)
  {
    Chunk(pos, U32At(data, pos), I32At(data, pos + 4), I32At(data, pos + 8), I32At(data, pos + 12), ReflectPayload)
  }

  /** One pass of the parse loop with the reader at `pos`: the tag, then the
      reader it selects; an unknown tag fails before the header is read. */
  function ReadChunk(data: seq<byte>, pos: nat): (r: Result<(Chunk, int)>)
    requires pos < |data|
    ensures r.Success? ==> var (c, next) := r.value;
      && c.fileOffset == pos && pos + HeaderSize <= |data|
      && KnownTag(U32At(data, pos))
      && c.uid == (if U32At(data, pos) == ZeroUid then ReflectUid else U32At(data, pos))
      && c.size1 == I32At(data, pos + 4) && c.size2 == I32At(data, pos + 8) && c.unknown == I32At(data, pos + 12)
      && next == c.End() && next >= 0
      && (c.payload.TexturePayload? <==> c.uid == TextureUid)
      && (c.payload.TextureDataPayload? <==> c.uid == TextureDataUid)
    ensures pos + 4 <= |data| && !KnownTag(U32At(data, pos)) ==> r == Failure(UnknownChunkType(U32At(data, pos)))
    ensures r.Success? && r.value.0.uid == TextureUid ==>
      r.value.1 == pos + HeaderSize + TexturePayloadSize
      && DecodeTexture(data, r.value.0.DataStart()) == Success(r.value.0.payload.meta)
    ensures r.Success? && r.value.0.uid == TextureDataUid ==> var c := r.value.0;
      0 <= c.size1 && c.payload.pixelData == data[c.DataStart()..Min(c.DataStart() + c.size1, |data|)]
    ensures r.Success? && r.value.0.uid != TextureUid && r.value.0.uid != TextureDataUid ==>
      r.value.1 == pos + HeaderSize + r.value.0.size1
  {
    if |data| < pos + 4 then Failure(TruncatedStream)
    else if !KnownTag(U32At(data, pos)) then Failure(UnknownChunkType(U32At(data, pos)))
    else if |data| < pos + HeaderSize then Failure(TruncatedStream)
    else
      var h := HeaderAt(data, pos);
      ReadPayload(data, h)
  }

  /** The errors a pass can end with: a short stream, an unknown tag, an
      unknown pixel format, a negative byte count or a seek before byte 0. */
  lemma ReadChunkErrors(data: seq<byte>, pos: nat)
    requires pos < |data| && ReadChunk(data, pos).Failure?
    ensures var e := ReadChunk(data, pos).error;
      e.TruncatedStream? || e.UnknownChunkType? || e.UnknownPixelFormat? || e.NegativeByteCount? || e.SeekBeforeBeginning?
  {
  }

  /** Past a known tag with room for the header, the pass is the reader the
      tag selects. */
  lemma ReadChunkAfterHeader(data: seq<byte>, pos: nat)
    requires pos + HeaderSize <= |data| && KnownTag(U32At(data, pos))
    ensures ReadChunk(data, pos) == ReadPayload(data, HeaderAt(data, pos))
  {
  }

  /** The loop `while (fs.Position < fs.Length)` from position `pos`, reading at
      most `fuel` more chunks.  A chunk whose payload overruns the stream ends
      the loop, as the program's Seek past the end does. */
  function ParseFrom(data: seq<byte>, pos: int, fuel: nat): (r: Result<seq<Chunk>>)
    requires pos >= 0
    ensures pos >= |data| ==> r == Success([])
    ensures r.Success? ==> |r.value| <= fuel
    ensures r.Success? && pos < |data| ==> r.value != [] && r.value[0].fileOffset == pos
    decreases fuel, 1
  {
    if pos >= |data| then Success([])
    else if fuel == 0 then Failure(OutOfFuel)
    else ParseAt(data, pos, fuel)
  }

  /** One pass of the loop body at `pos`, and the loop from where it leaves the reader. */
  function ParseAt(data: seq<byte>, pos: nat, fuel: nat): (r: Result<seq<Chunk>>)
    requires pos < |data| && fuel > 0
    ensures r.Success? ==>
      ReadChunk(data, pos).Success? && 0 < |r.value| <= fuel && r.value[0] == ReadChunk(data, pos).value.0
    ensures ReadChunk(data, pos).Failure? ==> r == Failure(ReadChunk(data, pos).error)
    decreases fuel, 0
  {
    match ReadChunk(data, pos)
    case Failure(e) => Failure(e)
    case Success((c, next)) => Prepend([c], ParseFrom(data, next, fuel - 1))
  }

  /** The chunk list of a whole file, as the TexturePackFile constructor builds it. */
  function Parse(data: seq<byte>, fuel: nat): (r: Result<seq<Chunk>>)
    ensures data == [] ==> r == Success([])
    ensures r.Success? ==> |r.value| <= fuel && (r.value == [] <==> data == [])
  {
    ParseFrom(data, 0, fuel)
  }

  /** Sum of the bytes each chunk occupies, header included. */
  function Footprint(cs: seq<Chunk>): int {
    if cs == [] then 0 else HeaderSize + cs[0].PayloadLength() + Footprint(cs[1..])
  }

  // Properties of the parse.

  /** One step of a successful parse: the chunk at `pos` followed by the parse
      from where it ends. */
  lemma ParseStep(data: seq<byte>, pos: int, fuel: nat)
    requires 0 <= pos < |data| && ParseFrom(data, pos, fuel).Success?
    ensures fuel > 0 && ReadChunk(data, pos).Success?
    ensures ReadChunk(data, pos).value.1 >= 0
    ensures var next := ReadChunk(data, pos).value.1;
      && ParseFrom(data, next, fuel - 1).Success?
      && ParseFrom(data, pos, fuel).value == [ReadChunk(data, pos).value.0] + ParseFrom(data, next, fuel - 1).value
  {
  }

  /** What every chunk ReadChunk returns satisfies: its tag lies inside the
      stream with room for the header and is one of the eight known ones, it
      ends at a valid position, and its payload holds metadata exactly for the
      Texture tag, decoded from the record after the header, and pixel bytes
      exactly for the TextureData tag, copied from the stream after the header. */
  predicate WellRead(data: seq<byte>, c: Chunk) {
    && c.fileOffset + HeaderSize <= |data| && KnownTag(U32At(data, c.fileOffset))
    && c.End() >= 0
    && (c.payload.TexturePayload? <==> c.uid == TextureUid)
    && (c.payload.TextureDataPayload? <==> c.uid == TextureDataUid)
    && (c.uid == TextureUid ==> DecodeTexture(data, c.DataStart()) == Success(c.payload.meta))
    && (c.uid == TextureDataUid ==>
          0 <= c.size1 && c.payload.pixelData == data[c.DataStart()..Min(c.DataStart() + c.size1, |data|)])
  }

  /** `cs` are well-read chunks laid back to back from `pos`: the first tag is
      read at `pos`, each next tag where the previous payload ends, and only
      the last chunk reaches the end of the stream. */
  predicate BackToBack(data: seq<byte>, pos: int, cs: seq<Chunk>) {
    && (cs == [] <==> pos >= |data|)
    && (cs != [] ==> cs[0].fileOffset == pos && cs[|cs| - 1].End() >= |data|)
    && (forall k :: 0 <= k < |cs| ==> WellRead(data, cs[k]))
    && (forall k :: 0 <= k < |cs| - 1 ==> cs[k + 1].fileOffset == cs[k].End() && cs[k].End() < |data|)
  }

  lemma ReadChunkWellRead(data: seq<byte>, pos: nat)
    requires pos < |data| && ReadChunk(data, pos).Success?
    ensures WellRead(data, ReadChunk(data, pos).value.0)
  {
  }

  /** A well-read chunk at `pos` followed by chunks back to back from where it ends. */
  lemma BackToBackCons(data: seq<byte>, pos: int, c: Chunk, rest: seq<Chunk>)
    requires 0 <= pos < |data| && c.fileOffset == pos && WellRead(data, c)
    requires BackToBack(data, c.End(), rest)
    ensures BackToBack(data, pos, [c] + rest)
  {
    var cs := [c] + rest;
    forall k | 0 <= k < |cs| ensures WellRead(data, cs[k]) {
      if k > 0 { assert cs[k] == rest[k - 1]; }
    }
    forall k | 0 <= k < |cs| - 1 ensures cs[k + 1].fileOffset == cs[k].End() && cs[k].End() < |data| {
      if k > 0 { assert cs[k] == rest[k - 1] && cs[k + 1] == rest[k]; }
    }
  }

  /** A successful parse from `pos` reads its chunks back to back. */
  lemma {:induction false} ParseChain(data: seq<byte>, pos: int, fuel: nat)
    requires pos >= 0 && ParseFrom(data, pos, fuel).Success?
    ensures BackToBack(data, pos, ParseFrom(data, pos, fuel).value)
    decreases fuel
  {
    if pos < |data| {
      ParseStep(data, pos, fuel);
      var next := ReadChunk(data, pos).value.1;
      ParseChain(data, next, fuel - 1);
      ChainStep(data, pos, fuel);
    } else {
      ChainEnd(data, pos, fuel);
    }
  }

  /** At the end of the stream the loop reads no chunk. */
  lemma ChainEnd(data: seq<byte>, pos: int, fuel: nat)
    requires pos >= |data|
    ensures ParseFrom(data, pos, fuel) == Success([])
    ensures BackToBack(data, pos, [])
  {
  }

  /** A chunk read at `pos` in front of a back-to-back parse from where it ends. */
  lemma ChainStep(data: seq<byte>, pos: nat, fuel: nat)
    requires pos < |data| && ParseFrom(data, pos, fuel).Success?
    requires fuel > 0 && ReadChunk(data, pos).Success? && ReadChunk(data, pos).value.1 >= 0
    requires var next := ReadChunk(data, pos).value.1;
      ParseFrom(data, next, fuel - 1).Success? && BackToBack(data, next, ParseFrom(data, next, fuel - 1).value)
    ensures BackToBack(data, pos, ParseFrom(data, pos, fuel).value)
  {
    ParseStep(data, pos, fuel);
    var c := ReadChunk(data, pos).value.0;
    var next := ReadChunk(data, pos).value.1;
    ReadChunkWellRead(data, pos);
    BackToBackCons(data, pos, c, ParseFrom(data, next, fuel - 1).value);
  }

  /** The first tag is read at `pos`, and the parse yields no chunk exactly
      when `pos` is already at or past the end. */
  lemma ParseStart(data: seq<byte>, pos: int, fuel: nat)
    requires pos >= 0 && ParseFrom(data, pos, fuel).Success?
    ensures var cs := ParseFrom(data, pos, fuel).value;
      && (cs == [] <==> pos >= |data|)
      && (cs != [] ==> cs[0].fileOffset == pos)
  {
    ParseChain(data, pos, fuel);
  }

  /** Chunks are read back to back: each next tag is read where the previous
      payload ends, and only the last chunk reaches the end of the stream. */
  lemma ParseBackToBack(data: seq<byte>, pos: int, fuel: nat)
    requires pos >= 0 && ParseFrom(data, pos, fuel).Success?
    ensures var cs := ParseFrom(data, pos, fuel).value;
      && (cs != [] ==> cs[|cs| - 1].End() >= |data|)
      && (forall k :: 0 <= k < |cs| - 1 ==> cs[k + 1].fileOffset == cs[k].End() && cs[k].End() < |data|)
  {
    ParseChain(data, pos, fuel);
  }

  /** Every tag lies inside the stream, with room for its header, and is one
      of the eight known ones. */
  lemma ParseTagsKnown(data: seq<byte>, pos: int, fuel: nat)
    requires pos >= 0 && ParseFrom(data, pos, fuel).Success?
    ensures var cs := ParseFrom(data, pos, fuel).value;
      forall k :: 0 <= k < |cs| ==>
        cs[k].fileOffset + HeaderSize <= |data| && KnownTag(U32At(data, cs[k].fileOffset))
  {
    ParseChain(data, pos, fuel);
  }

  /** The bytes the chunks occupy add up to the distance from `pos` to where
      the last chunk ends. */
  lemma ParseFootprint(data: seq<byte>, pos: int, fuel: nat)
    requires pos >= 0 && ParseFrom(data, pos, fuel).Success?
    ensures var cs := ParseFrom(data, pos, fuel).value;
      cs != [] ==> pos + Footprint(cs) == cs[|cs| - 1].End()
  {
    ParseStart(data, pos, fuel);
    ParseBackToBack(data, pos, fuel);
    var cs := ParseFrom(data, pos, fuel).value;
    if cs != [] {
      FootprintChain(cs);
    }
  }

  /** Chunks laid back to back span, from the first tag, exactly their footprint. */
  lemma {:induction false} FootprintChain(cs: seq<Chunk>)
    requires cs != []
    requires forall k :: 0 <= k < |cs| - 1 ==> cs[k + 1].fileOffset == cs[k].End()
    ensures cs[0].fileOffset + Footprint(cs) == cs[|cs| - 1].End()
    decreases |cs|
  {
    if |cs| > 1 {
      var rest := cs[1..];
      forall k | 0 <= k < |rest| - 1
        ensures rest[k + 1].fileOffset == rest[k].End()
      {
        assert rest[k + 1] == cs[k + 2] && rest[k] == cs[k + 1];
      }
      FootprintChain(rest);
      assert rest[0] == cs[1] && rest[|rest| - 1] == cs[|cs| - 1];
    }
  }

  /** A stream whose last chunk does not overrun its end is accounted for: the
      chunks' header-plus-payload sizes add up to the length of the stream.  A
      Size1 between -16 and 0 makes the next tag start inside the chunk's own
      header, so the chunks can overlap; the sum still telescopes. */
  lemma ParseCoversStream(data: seq<byte>, fuel: nat)
    requires Parse(data, fuel).Success?
    requires var cs := Parse(data, fuel).value; cs == [] || cs[|cs| - 1].End() <= |data|
    ensures Footprint(Parse(data, fuel).value) == |data|
  {
    ParseStart(data, 0, fuel);
    ParseBackToBack(data, 0, fuel);
    ParseFootprint(data, 0, fuel);
  }

  /** The bound on the number of chunks only cuts a parse short: once a bound
      suffices, every larger bound gives the same chunks. */
  lemma {:induction false} ParseFuelMonotone(data: seq<byte>, pos: int, fuel: nat, more: nat)
    requires pos >= 0 && fuel <= more && ParseFrom(data, pos, fuel).Success?
    ensures ParseFrom(data, pos, more) == ParseFrom(data, pos, fuel)
    decreases more - fuel
  {
    if fuel < more {
      ParseFuelStep(data, pos, fuel);
      ParseFuelMonotone(data, pos, fuel + 1, more);
    }
  }

  /** One more chunk allowed changes nothing once the bound suffices. */
  lemma {:induction false} ParseFuelStep(data: seq<byte>, pos: int, fuel: nat)
    requires pos >= 0 && ParseFrom(data, pos, fuel).Success?
    ensures ParseFrom(data, pos, fuel + 1) == ParseFrom(data, pos, fuel)
    decreases fuel
  {
    if pos < |data| {
      ParseStep(data, pos, fuel);
      ParseFuelStep(data, ReadChunk(data, pos).value.1, fuel - 1);
    }
  }

  /** Every chunk that can be read from `data` ends past its own tag, as it
      does unless a skip-only chunk declares Size1 below -HeaderSize. */
  predicate Advancing(data: seq<byte>) {
    forall q :: 0 <= q < |data| && ReadChunk(data, q).Success? ==> ReadChunk(data, q).value.1 > q
  }

  /** Enough fuel: when every chunk ends past its own tag, a bound of one chunk
      per remaining byte never cuts the parse short. */
  lemma {:induction false} ParseFuelEnough(data: seq<byte>, pos: int, fuel: nat)
    requires pos >= 0 && fuel >= |data| - pos && Advancing(data)
    ensures ParseFrom(data, pos, fuel) != Failure(OutOfFuel)
    decreases fuel
  {
    if pos < |data| {
      var read := ReadChunk(data, pos);
      if read.Success? {
        var next := read.value.1;
        assert next > pos;
        ParseFuelEnough(data, next, fuel - 1);
        ParseContinuesAt(data, pos, fuel);
        var rest := ParseFrom(data, next, fuel - 1);
        assert ParseFrom(data, pos, fuel) == Prepend([read.value.0], rest);
        assert rest.Failure? ==> Prepend([read.value.0], rest) == Failure(rest.error);
        assert ParseFrom(data, pos, fuel) != Failure(OutOfFuel);
      } else {
        ParseStopsAt(data, pos, fuel);
        ReadChunkErrors(data, pos);
        assert ParseFrom(data, pos, fuel) != Failure(OutOfFuel);
      }
    } else {
      assert ParseFrom(data, pos, fuel) != Failure(OutOfFuel);
    }
  }

  /** A pass that fails ends the parse with its error. */
  lemma ParseStopsAt(data: seq<byte>, pos: nat, fuel: nat)
    requires pos < |data| && fuel > 0 && ReadChunk(data, pos).Failure?
    ensures ParseFrom(data, pos, fuel) == Failure(ReadChunk(data, pos).error)
  {
  }

  /** A pass that succeeds puts its chunk in front of the parse from where it
      leaves the reader. */
  lemma ParseContinuesAt(data: seq<byte>, pos: nat, fuel: nat)
    requires pos < |data| && fuel > 0 && ReadChunk(data, pos).Success?
    ensures var (c, next) := ReadChunk(data, pos).value;
      ParseFrom(data, pos, fuel) == Prepend([c], ParseFrom(data, next, fuel - 1))
  {
  }

  /** A parsed chunk holds Texture metadata exactly when its UID is the Texture
      tag, and pixel bytes exactly when its UID is the TextureData tag, so
      selecting by UID and selecting by chunk class pick the same chunks. */
  lemma ParsePayloadKinds(data: seq<byte>, pos: int, fuel: nat)
    requires pos >= 0 && ParseFrom(data, pos, fuel).Success?
    ensures forall c :: c in ParseFrom(data, pos, fuel).value ==>
      && (c.payload.TexturePayload? <==> c.uid == TextureUid)
      && (c.payload.TextureDataPayload? <==> c.uid == TextureDataUid)
  {
    ParseChain(data, pos, fuel);
  }

  /** Every parsed Texture chunk holds the metadata decoded from the record
      after its header, and every parsed TextureData chunk holds the Size1
      bytes after its header, fewer where the stream ends first. */
  lemma ParsePayloadContents(data: seq<byte>, pos: int, fuel: nat)
    requires pos >= 0 && ParseFrom(data, pos, fuel).Success?
    ensures forall c :: c in ParseFrom(data, pos, fuel).value && c.uid == TextureUid ==>
      c.payload.TexturePayload? && DecodeTexture(data, c.DataStart()) == Success(c.payload.meta)
    ensures forall c :: c in ParseFrom(data, pos, fuel).value && c.uid == TextureDataUid ==>
      c.payload.TextureDataPayload? && 0 <= c.size1 && c.DataStart() <= |data|
      && c.payload.pixelData == data[c.DataStart()..Min(c.DataStart() + c.size1, |data|)]
  {
    ParseChain(data, pos, fuel);
  }

  /** Trimming a name padded with NULs gives back the name, provided the name
      itself does not end in a NUL. */
  lemma {:induction false} TrimPaddedName(name: string, n: nat)
    requires name == [] || name[|name| - 1] != '\0'
    ensures TrimTrailingNuls(name + seq(n, _ => '\0')) == name
  {
    if n > 0 {
      var padded := name + seq(n, _ => '\0');
      assert padded[..|padded| - 1] == name + seq(n - 1, _ => '\0');
      TrimPaddedName(name, n - 1);
    } else {
      assert name + seq(n, _ => '\0') == name;
    }
  }

  /** A 32-byte name field "foo" followed by 29 NULs reads as "foo". */
  lemma NameFieldExample()
    ensures DecodeName([0x66, 0x6F, 0x6F] + seq(29, _ => 0 as byte)) == "foo"
  {
    var field: seq<byte> := [0x66, 0x6F, 0x6F] + seq(29, _ => 0 as byte);
    assert DecodeAscii(field) == "foo" + seq(29, _ => '\0');
    TrimPaddedName("foo", 29);
  }

  /** Only trailing NULs are removed: a NUL inside the name field stays. */
  lemma NameKeepsInnerNul()
    ensures DecodeName([0x61, 0, 0x62] + seq(29, _ => 0 as byte)) == "a\0b"
  {
    var field: seq<byte> := [0x61, 0, 0x62] + seq(29, _ => 0 as byte);
    assert DecodeAscii(field) == "a\0b" + seq(29, _ => '\0');
    TrimPaddedName("a\0b", 29);
  }
}
