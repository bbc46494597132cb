/** The TexturePackFile constructor and the chunk readers it dispatches to, as
    the program runs them: every reader advances one shared BinaryReader by
    reads and relative seeks.  Each method is proved to agree with the
    reference definitions of module Chunks. */
module ChunkReader {
  import opened Results
  import opened LittleEndian
  import opened Streams
  import opened Chunks

  /** The Chunk(BinaryReader, uid) base constructor, entered just after the
      tag was read: the tag's position and the three int32 header fields. */
  method ReadHeader(br: BinaryReader, uid: nat) returns (r: Result<Chunk>)
    requires br.position >= 4
    modifies br
    ensures var pos := old(br.position) - 4;
      r.Success? <==> pos + HeaderSize <= |br.data|
    ensures var pos := old(br.position) - 4;
      r.Success? ==> && r.value.fileOffset == pos && r.value.uid == uid
                     && r.value.size1 == I32At(br.data, pos + 4)
                     && r.value.size2 == I32At(br.data, pos + 8)
                     && r.value.unknown == I32At(br.data, pos + 12)
                     && r.value.payload == ReflectPayload
                     && br.position == pos + HeaderSize
    ensures r.Failure? ==> r.error == TruncatedStream
  {
    var fileOffset := br.position - 4;
    var ok1, size1 := br.ReadInt32();
    var ok2, size2 := br.ReadInt32();
    var ok3, unknown := br.ReadInt32();
    if !(ok1 && ok2 && ok3) {
      return Failure(TruncatedStream);
    }
    return Success(Chunk(fileOffset, uid, size1, size2, unknown, ReflectPayload));
  }

  /** The Texture constructor after the header: skips and reads in the
      program's order, from DataStart to 0x1D0 bytes past it. */
  method ReadTexture(br: BinaryReader) returns (r: Result<TextureMeta>)
    modifies br
    ensures r == DecodeTexture(br.data, old(br.position))
    ensures r.Success? ==> br.position == old(br.position) + TexturePayloadSize
  {
    ghost var ds := br.position;
    var ok, nameHash, unknownUid, nameBytes := ReadIdentity(br);
    if !ok { return Failure(TruncatedStream); }
    ok := br.Seek(0x8);
    var format;
    ok, format := br.ReadInt32();
    if !ok { return Failure(TruncatedStream); }
    var fmt := FormatOfCode(format);
    if fmt.None? { return Failure(UnknownPixelFormat(format)); }
    ok := br.Seek(0x4);
    var width, height, mipCount, depth, blending, unknown3, textureSize, textureOffset;
    ok, width, height, mipCount, depth, blending, unknown3, textureSize, textureOffset := ReadLayout(br);
    if !ok { return Failure(TruncatedStream); }
    var mediaUid, unknown4, unknown5, unknown6;
    ok, mediaUid, unknown4, unknown5, unknown6 := ReadTrailer(br);
    if !ok { return Failure(TruncatedStream); }
    ok := br.Seek(0x8);
    DecodedTextureFields(br.data, ds);
    return Success(TextureMeta(
      nameHash, unknownUid, DecodeName(nameBytes), fmt.value,
      width, height, mipCount, depth, blending,
      unknown3, textureSize, textureOffset, mediaUid,
      unknown4, unknown5, unknown6));
  }

  /** From DataStart: the name hash, the unknown UID and the 32 name bytes.
      A short name read at the end of the stream is not an error by itself. */
  method ReadIdentity(br: BinaryReader) returns (ok: bool, nameHash: nat, unknownUid: nat, nameBytes: seq<byte>)
    modifies br
    ensures var ds := old(br.position);
      && (ok <==> ds + UnknownUidAt + 4 <= |br.data|)
      && (ok ==> && nameHash == U32At(br.data, ds + NameHashAt)
                 && unknownUid == U32At(br.data, ds + UnknownUidAt)
                 && (ds + NameAt + NameLength <= |br.data| ==>
                       nameBytes == br.data[ds + NameAt..ds + NameAt + NameLength]
                       && br.position == ds + NameAt + NameLength)
                 && (ds + NameAt + NameLength > |br.data| ==> br.position >= |br.data|))
  {
    nameBytes := [];
    ok := br.Seek(0x18);
    ok, nameHash := br.ReadUInt32();
    if !ok { unknownUid := 0; return; }
    ok := br.Seek(0x14);
    ok, unknownUid := br.ReadUInt32();
    if !ok { return; }
    ok, nameBytes := br.ReadBytes(NameLength);
  }

  /** From 0x64: the four int16 dimensions, the blend state and three int64 fields. */
  method ReadLayout(br: BinaryReader)
    returns (ok: bool, width: int, height: int, mipCount: int, depth: int, blending: nat,
             unknown3: int, textureSize: int, textureOffset: int)
    modifies br
    ensures var p := old(br.position);
      && (ok <==> p + (TextureOffsetAt + 8 - WidthAt) <= |br.data|)
      && (ok ==> var data := br.data;
            && width == I16At(data, p) && height == I16At(data, p + 2)
            && mipCount == I16At(data, p + 4) && depth == I16At(data, p + 6)
            && blending == U32At(data, p + 8) && unknown3 == I64At(data, p + 12)
            && textureSize == I64At(data, p + 20) && textureOffset == I64At(data, p + 28)
            && br.position == p + 36)
  {
    var ok1, ok2, ok3, ok4, ok5, ok6, ok7;
    ok1, width := br.ReadInt16();
    ok2, height := br.ReadInt16();
    ok3, mipCount := br.ReadInt16();
    ok4, depth := br.ReadInt16();
    ok5, blending := br.ReadUInt32();
    ok6, unknown3 := br.ReadInt64();
    ok7, textureSize := br.ReadInt64();
    ok, textureOffset := br.ReadInt64();
    ok := ok1 && ok2 && ok3 && ok4 && ok5 && ok6 && ok7 && ok;
  }

  /** From 0x88: the media UID, Unknown4, Unknown5 and the raw bits of Unknown6,
      with the reserved spans between them skipped. */
  method ReadTrailer(br: BinaryReader)
    returns (ok: bool, mediaUid: nat, unknown4: int, unknown5: int, unknown6: nat)
    modifies br
    ensures var p := old(br.position) - (TextureOffsetAt + 8);
      && (ok <==> p + FieldsEnd <= |br.data|)
      && (ok ==> var data := br.data;
            && mediaUid == U32At(data, p + MediaUidAt) && unknown4 == I32At(data, p + Unknown4At)
            && unknown5 == I32At(data, p + Unknown5At) && unknown6 == U32At(data, p + Unknown6At)
            && br.position == p + FieldsEnd)
  {
    var ok1, ok2, ok3, ok4;
    ok := br.Seek(0x28);
    ok1, mediaUid := br.ReadUInt32();
    ok := br.Seek(0x1C);
    ok2, unknown4 := br.ReadInt32();
    ok := br.Seek(0xEC);
    ok3, unknown5 := br.ReadInt32();
    ok4, unknown6 := br.ReadUInt32();
    ok := ok1 && ok2 && ok3 && ok4;
  }

  /** One pass of the `while (fs.Position < fs.Length)` loop: the tag, the
      dispatch on it, and the chunk reader it selects. */
  method ReadNextChunk(br: BinaryReader) returns (r: Result<Chunk>)
    requires br.position < |br.data|
    modifies br
    ensures var spec := ReadChunk(br.data, old(br.position));
      && (r.Success? <==> spec.Success?)
      && (r.Success? ==> spec.value == (r.value, br.position as int))
      && (r.Failure? ==> r.error == spec.error)
  {
    ghost var pos := br.position;
    var ok, tag := br.ReadUInt32();
    if !ok {
      return Failure(TruncatedStream);
    }
    if !KnownTag(tag) {
      return Failure(UnknownChunkType(tag));
    }
    var header := ReadHeader(br, tag);
    if header.Failure? {
      return Failure(header.error);
    }
    ReadChunkAfterHeader(br.data, pos);
    assert header.value == HeaderAt(br.data, pos);
    r := ReadBody(br, header.value);
  }

  /** The constructor of the chunk class the tag selects, entered with the
      header `h` read and the reader at DataStart. */
  method ReadBody(br: BinaryReader, h: Chunk) returns (r: Result<Chunk>)
    requires br.position == h.DataStart() <= |br.data|
    modifies br
    ensures var spec := ReadPayload(br.data, h);
      && (r.Success? <==> spec.Success?)
      && (r.Success? ==> spec.value == (r.value, br.position as int))
      && (r.Failure? ==> r.error == spec.error)
  {
    if h.uid == TextureUid {
      var meta := ReadTexture(br);
      if meta.Failure? {
        return Failure(meta.error);
      }
      return Success(h.(payload := TexturePayload(meta.value)));
    } else if h.uid == TextureDataUid {
      var ok, bytes := br.ReadBytes(h.size1);
      if !ok {
        return Failure(NegativeByteCount);
      }
      return Success(h.(payload := TextureDataPayload(bytes)));
    } else {
      var ok := br.Seek(h.size1);
      if !ok {
        return Failure(SeekBeforeBeginning);
      }
      return Success(h.(uid := SkipUid(h.uid), payload := SkipPayload(h.uid)));
    }
  }

  /** The TexturePackFile constructor: reads chunks until the reader reaches
      the end of the stream, at most `fuel` of them. */
  method ReadPackFile(data: seq<byte>, fuel: nat) returns (r: Result<seq<Chunk>>)
    ensures r == Parse(data, fuel)
  {
    var br := new BinaryReader(data);
    var chunks: seq<Chunk> := [];
    var n := 0;
    PrependNothing(Parse(data, fuel));
    while br.HasMore()
      invariant br.data == data
      invariant n <= fuel
      invariant Parse(data, fuel) == Prepend(chunks, ParseFrom(data, br.position, fuel - n))
      decreases fuel - n
    {
      if n == fuel {
        return Failure(OutOfFuel);
      }
      ghost var pos := br.position;
      var c := ReadNextChunk(br);
      if c.Failure? {
        ParseStopsAt(data, pos, fuel - n);
        return Failure(c.error);
      }
      ParseContinuesAt(data, pos, fuel - n);
      PrependTwice(chunks, [c.value], ParseFrom(data, br.position, fuel - n - 1));
      chunks := chunks + [c.value];
      n := n + 1;
    }
    assert chunks + [] == chunks;
    return Success(chunks);
  }
}
