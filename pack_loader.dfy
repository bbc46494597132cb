/** The TexturePack and ProcessedTexture constructors as the program runs them:
    loops that append to the Textures list, and SourcePixelData filled in
    place by Array.Copy.  Each method is proved to agree with module Pack. */
module PackLoader {
  import opened Results
  import opened LittleEndian
  import opened Chunks
  import opened ChunkReader
  import opened Pack

  /** `new byte[length]` followed by Array.Copy(src, offset, dst, 0, length). */
  method CopyPixels(src: seq<byte>, offset: int, length: int) returns (r: Result<seq<byte>>)
    ensures r == CopyOut(src, offset, length)
  {
    if length < 0 {
      return Failure(NegativeArraySize);
    }
    var dst := new byte[length];
    if offset < 0 || offset + length > |src| {
      return Failure(PixelRangeOutOfBounds);
    }
    var i := 0;
    while i < length
      invariant 0 <= i <= length
      invariant dst[..i] == src[offset..offset + i]
    {
      dst[i] := src[offset + i];
      i := i + 1;
    }
    assert dst[..] == dst[..length];
    return Success(dst[..]);
  }

  /** ProcessedTexture(Texture, TextureData). */
  method NewFromData(tex: Chunk, dat: Chunk) returns (r: Result<ProcessedTexture>)
    requires tex.payload.TexturePayload? && dat.payload.TextureDataPayload?
    ensures r == FromData(tex, dat)
  {
    var m := tex.payload.meta;
    var pixels := CopyPixels(dat.payload.pixelData, 0, m.textureSize);
    if pixels.Failure? {
      return Failure(pixels.error);
    }
    return Success(ProcessedTexture(
      m.nameHash, m.name, m.format, m.width, m.height, m.mipCount, m.depth,
      m.blending, m.mediaUid, pixels.value,
      PermSource, tex.DataStart(), tex.size1,
      PermSource, dat.DataStart(), dat.size1));
  }

  /** ProcessedTexture(Texture, byte[]) over the bytes of the temp file. */
  method NewFromTemp(tex: Chunk, temp: array<byte>) returns (r: Result<ProcessedTexture>)
    requires tex.payload.TexturePayload?
    ensures r == FromTemp(tex, temp[..])
  {
    var m := tex.payload.meta;
    var pixels := CopyPixels(temp[..], m.textureOffset, m.textureSize);
    if pixels.Failure? {
      return Failure(pixels.error);
    }
    return Success(ProcessedTexture(
      m.nameHash, m.name, m.format, m.width, m.height, m.mipCount, m.depth,
      m.blending, m.mediaUid, pixels.value,
      PermSource, tex.DataStart(), tex.size1,
      TempSource, TempDataOffset(m.textureOffset), WrapInt32(m.textureSize)));
  }

  /** The TexturePack constructor.  `temp` is the temp sibling's contents, or
      null when File.Exists finds no such file. */
  method LoadTexturePack(fileName: string, perm: array<byte>, temp: array?<byte>, fuel: nat)
    returns (r: Result<TexturePack>)
    ensures r == AssemblePack(fileName, perm[..], if temp == null then None else Some(temp[..]), fuel)
  {
    var name := PackName(fileName);
    var permBin := ReadPackFile(perm[..], fuel);
    if permBin.Failure? {
      return Failure(permBin.error);
    }
    var cs := permBin.value;
    if temp != null {
      var tempBin := ReadPackFile(temp[..], fuel);
      if tempBin.Failure? {
        return Failure(tempBin.error);
      }
      ParsePayloadKinds(perm[..], 0, fuel);
      var textures := SliceTextures(ChunksWithUid(cs, TextureUid), temp);
      if textures.Failure? {
        return Failure(textures.error);
      }
      return Success(TexturePack(name, cs, Some(tempBin.value), textures.value));
    } else {
      var textures := PairTextures(TextureChunks(cs), TextureDataChunks(cs));
      if textures.Failure? {
        return Failure(textures.error);
      }
      return Success(TexturePack(name, cs, None, textures.value));
    }
  }

  /** The loop over the Texture chunks when the temp file exists: each one
      slices its pixels out of the temp file at its absolute offset. */
  method SliceTextures(texs: seq<Chunk>, temp: array<byte>) returns (r: Result<seq<ProcessedTexture>>)
    requires forall c :: c in texs ==> c.payload.TexturePayload?
    ensures r == SliceAll(texs, temp[..])
  {
    var textures: seq<ProcessedTexture> := [];
    PrependNothing(SliceAll(texs, temp[..]));
    for i := 0 to |texs|
      invariant SliceAll(texs, temp[..]) == Prepend(textures, SliceAll(texs[i..], temp[..]))
    {
      assert texs[i..][1..] == texs[i + 1..];
      var p := NewFromTemp(texs[i], temp);
      if p.Failure? {
        return Failure(p.error);
      }
      PrependTwice(textures, [p.value], SliceAll(texs[i + 1..], temp[..]));
      textures := textures + [p.value];
    }
    assert textures + [] == textures;
    return Success(textures);
  }

  /** The loop when there is no temp file: the i-th Texture chunk is paired
      with the i-th TextureData chunk. */
  method PairTextures(texs: seq<Chunk>, datas: seq<Chunk>) returns (r: Result<seq<ProcessedTexture>>)
    requires forall c :: c in texs ==> c.payload.TexturePayload?
    requires forall c :: c in datas ==> c.payload.TextureDataPayload?
    ensures r == PairPositional(texs, datas)
  {
    var textures: seq<ProcessedTexture> := [];
    PrependNothing(PairPositional(texs, datas));
    for i := 0 to |texs|
      invariant i <= |datas|
      invariant PairPositional(texs, datas) == Prepend(textures, PairPositional(texs[i..], datas[i..]))
    {
      if i >= |datas| {
        return Failure(PairingCountMismatch);
      }
      assert texs[i..][1..] == texs[i + 1..] && datas[i..][1..] == datas[i + 1..];
      var p := NewFromData(texs[i], datas[i]);
      if p.Failure? {
        return Failure(p.error);
      }
      PrependTwice(textures, [p.value], PairPositional(texs[i + 1..], datas[i + 1..]));
      textures := textures + [p.value];
    }
    assert textures + [] == textures;
    return Success(textures);
  }
}
