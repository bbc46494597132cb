/** The TexturePack constructor and the two ProcessedTexture constructors as
    reference definitions: the pack name, the choice between the absolute-offset
    pairing (a `.temp.bin` sibling exists) and the positional pairing (it does
    not), and what each processed texture records. */
module Pack {
  import opened Results
  import opened LittleEndian
  import opened Chunks

  const PermExt: string := ".perm.bin"
  const TempExt: string := ".temp.bin"
  const PermSource: string := "perm.bin"
  const TempSource: string := "temp.bin"

  /** A texture whose metadata comes from a Texture chunk and whose pixel bytes
      were copied out of a TextureData chunk or out of the temp file, with where
      both came from. */
  datatype ProcessedTexture = ProcessedTexture(
    nameHash: nat, name: string, format: TextureFormat,
    width: int, height: int, mipCount: int, depth: int,
    blending: nat, mediaUid: nat,
    sourcePixelData: seq<byte>,
    textureSource: string, textureOffset: nat, textureSize: int,
    textureDataSource: string, textureDataOffset: nat, textureDataSize: int)

  datatype TexturePack = TexturePack(
    name: string, permBin: seq<Chunk>, tempBin: Option<seq<Chunk>>, textures: seq<ProcessedTexture>)

  /** The metadata a processed texture copies unchanged from its Texture chunk. */
  predicate CopiesMeta(p: ProcessedTexture, m: TextureMeta) {
    && p.nameHash == m.nameHash && p.name == m.name && p.format == m.format
    && p.width == m.width && p.height == m.height && p.mipCount == m.mipCount
    && p.depth == m.depth && p.blending == m.blending && p.mediaUid == m.mediaUid
  }

  // The pack name.

  /** String.ToLowerInvariant on ASCII letters; every other character is kept. */
  function ToLower(s: string): (r: string)
    ensures |r| == |s|
    ensures forall k :: 0 <= k < |s| ==>
      if 'A' <= s[k] <= 'Z' then r[k] as int == s[k] as int + 32 else r[k] == s[k]
  {
    seq(|s|, k requires 0 <= k < |s| => if 'A' <= s[k] <= 'Z' then (s[k] as int + 32) as char else s[k])
  }

  /** String.Replace(pat, ""): one left-to-right pass that drops every
      non-overlapping occurrence of `pat`. */
  function RemoveAll(s: string, pat: string): (r: string)
    requires |pat| > 0
    ensures |r| <= |s|
    decreases |s|
  {
    if |s| < |pat| then s
    else if s[..|pat|] == pat then RemoveAll(s[|pat|..], pat)
    else [s[0]] + RemoveAll(s[1..], pat)
  }

  lemma ToLowerHasNoCapitals(s: string)
    ensures forall c :: c in ToLower(s) ==> !('A' <= c <= 'Z')
  {
    var low := ToLower(s);
    forall c | c in low
      ensures !('A' <= c <= 'Z')
    {
      var k :| 0 <= k < |low| && low[k] == c;
    }
  }

  /** The pass only drops characters: each one it keeps is one of `s`. */
  lemma {:induction false} RemoveAllKeeps(s: string, pat: string)
    requires |pat| > 0
    ensures forall c :: c in RemoveAll(s, pat) ==> c in s
    decreases |s|
  {
    if |s| >= |pat| {
      if s[..|pat|] == pat {
        RemoveAllKeeps(s[|pat|..], pat);
        assert forall c :: c in s[|pat|..] ==> c in s;
      } else {
        RemoveAllKeeps(s[1..], pat);
        assert forall c :: c in s[1..] ==> c in s;
      }
    }
  }

  /** `pat` occurs in `s` at position k. */
  predicate OccursAt(s: string, pat: string, k: int) {
    0 <= k && k + |pat| <= |s| && s[k..k + |pat|] == pat
  }

  /** A string in which `pat` does not occur comes through the pass unchanged. */
  lemma {:induction false} RemoveAllNone(s: string, pat: string)
    requires |pat| > 0
    requires forall k :: !OccursAt(s, pat, k)
    ensures RemoveAll(s, pat) == s
    decreases |s|
  {
    if |s| >= |pat| {
      assert !OccursAt(s, pat, 0);
      assert s[..|pat|] != pat by { assert s[0..|pat|] == s[..|pat|]; }
      forall k ensures !OccursAt(s[1..], pat, k) {
        if OccursAt(s[1..], pat, k) {
          assert s[1..][k..k + |pat|] == s[k + 1..k + 1 + |pat|];
          assert OccursAt(s, pat, k + 1);
        }
      }
      RemoveAllNone(s[1..], pat);
      assert [s[0]] + s[1..] == s;
    }
  }

  /** The pass removes the first occurrence of `pat`: when `pat` first occurs
      right after `a`, the result is `a` followed by the pass over what comes
      after that occurrence. */
  lemma {:induction false} RemoveAllFirst(a: string, b: string, pat: string)
    requires |pat| > 0
    requires forall k :: 0 <= k < |a| ==> !OccursAt(a + pat, pat, k)
    ensures RemoveAll(a + pat + b, pat) == a + RemoveAll(b, pat)
    decreases |a|
  {
    var s := a + pat + b;
    if a == [] {
      assert s == pat + b;
      assert s[..|pat|] == pat && s[|pat|..] == b;
    } else {
      var t := a[1..];
      NotAtStart(a, b, pat);
      NoOccurrenceInTail(a, pat);
      RemoveAllFirst(t, b, pat);
      assert s[1..] == t + pat + b;
      assert [a[0]] + (t + RemoveAll(b, pat)) == a + RemoveAll(b, pat);
    }
  }

  /** The step of RemoveAllFirst: `a + pat + b` does not begin with `pat`. */
  lemma NotAtStart(a: string, b: string, pat: string)
    requires |pat| > 0 && a != [] && !OccursAt(a + pat, pat, 0)
    ensures var s := a + pat + b; |s| >= |pat| && s[..|pat|] != pat
  {
    var s := a + pat + b;
    assert s[..|pat|] == (a + pat)[0..|pat|];
  }

  /** The step of RemoveAllFirst: no earlier occurrence after `a`'s first
      character either. */
  lemma NoOccurrenceInTail(a: string, pat: string)
    requires |pat| > 0 && a != []
    requires forall k :: 0 <= k < |a| ==> !OccursAt(a + pat, pat, k)
    ensures forall k :: 0 <= k < |a| - 1 ==> !OccursAt(a[1..] + pat, pat, k)
  {
    var u := a + pat;
    assert a[1..] + pat == u[1..];
    forall k | 0 <= k < |a| - 1 ensures !OccursAt(u[1..], pat, k) {
      assert !OccursAt(u, pat, k + 1);
      assert u[1..][k..k + |pat|] == u[k + 1..k + 1 + |pat|];
    }
  }

  /** The pack's Name: the lower-cased file name without ".perm.bin". */
  function PackName(fileName: string): (r: string)
    ensures |r| <= |fileName|
    ensures forall k :: 0 <= k < |r| ==> !('A' <= r[k] <= 'Z')
  {
    var low := ToLower(fileName);
    ToLowerHasNoCapitals(fileName);
    RemoveAllKeeps(low, PermExt);
    var r := RemoveAll(low, PermExt);
    assert forall k :: 0 <= k < |r| ==> r[k] in r;
    r
  }

  /** The file name of the temp sibling the constructor looks for: the pack
      name, free of upper-case letters, followed by ".temp.bin". */
  function TempFileName(fileName: string): (r: string)
    ensures |r| == |PackName(fileName)| + |TempExt|
    ensures r[..|PackName(fileName)|] == PackName(fileName) && r[|PackName(fileName)|..] == TempExt
    ensures forall k :: 0 <= k < |r| ==> !('A' <= r[k] <= 'Z')
  {
    PackName(fileName) + TempExt
  }

  // The two ProcessedTexture constructors.

  /** `new byte[length]` followed by Array.Copy of `length` bytes from `offset`:
      a negative length fails the allocation, a range outside the source fails
      the copy. */
  function CopyOut(src: seq<byte>, offset: int, length: int): (r: Result<seq<byte>>)
    ensures r.Success? <==> 0 <= length && 0 <= offset && offset + length <= |src|
    ensures r.Success? ==> |r.value| == length
                           && forall k :: 0 <= k < length ==> r.value[k] == src[offset + k]
    ensures r.Failure? ==> r.error == if length < 0 then NegativeArraySize else PixelRangeOutOfBounds
  {
    if length < 0 then Failure(NegativeArraySize)
    else if offset < 0 || offset + length > |src| then Failure(PixelRangeOutOfBounds)
    else Success(src[offset..offset + length])
  }

  /** ProcessedTexture(Texture, TextureData): the first TextureSize bytes of the
      data chunk's payload. */
  function FromData(tex: Chunk, dat: Chunk): (r: Result<ProcessedTexture>)
    requires tex.payload.TexturePayload? && dat.payload.TextureDataPayload?
    ensures var m := tex.payload.meta;
      r.Success? <==> 0 <= m.textureSize <= |dat.payload.pixelData|
    ensures var m := tex.payload.meta;
      r.Success? ==> var p := r.value;
        && CopiesMeta(p, m)
        && p.sourcePixelData == dat.payload.pixelData[..m.textureSize]
        && p.textureSource == PermSource && p.textureDataSource == PermSource
        && p.textureOffset == tex.DataStart() && p.textureSize == tex.size1
        && p.textureDataOffset == dat.DataStart() && p.textureDataSize == dat.size1
  {
    var m := tex.payload.meta;
    var pixels :- CopyOut(dat.payload.pixelData, 0, m.textureSize);
    Success(ProcessedTexture(
      m.nameHash, m.name, m.format, m.width, m.height, m.mipCount, m.depth,
      m.blending, m.mediaUid, pixels,
      PermSource, tex.DataStart(), tex.size1,
      PermSource, dat.DataStart(), dat.size1))
  }

  /** TextureDataOffset of a texture taken from the temp file: the chunk offset
      TextureOffset truncated to a uint, plus the header size, in uint
      arithmetic. */
  function TempDataOffset(textureOffset: int): (r: nat)
    ensures r < 0x1_0000_0000
    ensures 0 <= textureOffset < 0x1_0000_0000 - HeaderSize ==> r == textureOffset + HeaderSize
  {
    (textureOffset % 0x1_0000_0000 + HeaderSize) % 0x1_0000_0000
  }

  /** ProcessedTexture(Texture, byte[]): TextureSize bytes of the temp file from
      the absolute offset TextureOffset. */
  function FromTemp(tex: Chunk, temp: seq<byte>): (r: Result<ProcessedTexture>)
    requires tex.payload.TexturePayload?
    ensures var m := tex.payload.meta;
      r.Success? <==> 0 <= m.textureSize && 0 <= m.textureOffset && m.textureOffset + m.textureSize <= |temp|
    ensures var m := tex.payload.meta;
      r.Success? ==> var p := r.value;
        && CopiesMeta(p, m)
        && p.sourcePixelData == temp[m.textureOffset..m.textureOffset + m.textureSize]
        && p.textureSource == PermSource && p.textureDataSource == TempSource
        && p.textureOffset == tex.DataStart() && p.textureSize == tex.size1
        && p.textureDataOffset == TempDataOffset(m.textureOffset)
        && p.textureDataSize == WrapInt32(m.textureSize)
  {
    var m := tex.payload.meta;
    var pixels :- CopyOut(temp, m.textureOffset, m.textureSize);
    Success(ProcessedTexture(
      m.nameHash, m.name, m.format, m.width, m.height, m.mipCount, m.depth,
      m.blending, m.mediaUid, pixels,
      PermSource, tex.DataStart(), tex.size1,
      TempSource, TempDataOffset(m.textureOffset), WrapInt32(m.textureSize)))
  }

  // Selecting chunks.

  /** Chunks.OfType<Texture>(). */
  function TextureChunks(cs: seq<Chunk>): (r: seq<Chunk>)
    ensures forall c :: c in r <==> c in cs && c.payload.TexturePayload?
    ensures |r| <= |cs|
  {
    if cs == [] then []
    else (if cs[0].payload.TexturePayload? then [cs[0]] else []) + TextureChunks(cs[1..])
  }

  /** Chunks.OfType<TextureData>(). */
  function TextureDataChunks(cs: seq<Chunk>): (r: seq<Chunk>)
    ensures forall c :: c in r <==> c in cs && c.payload.TextureDataPayload?
    ensures |r| <= |cs|
  {
    if cs == [] then []
    else (if cs[0].payload.TextureDataPayload? then [cs[0]] else []) + TextureDataChunks(cs[1..])
  }

  /** Chunks.Where(x => x.UID == uid). */
  function ChunksWithUid(cs: seq<Chunk>, uid: nat): (r: seq<Chunk>)
    ensures forall c :: c in r <==> c in cs && c.uid == uid
    ensures |r| <= |cs|
  {
    if cs == [] then []
    else (if cs[0].uid == uid then [cs[0]] else []) + ChunksWithUid(cs[1..], uid)
  }

  // Each selection keeps order: selecting from two lists one after the other
  // gives the two selections one after the other.

  lemma {:induction false} TextureChunksOfConcat(a: seq<Chunk>, b: seq<Chunk>)
    ensures TextureChunks(a + b) == TextureChunks(a) + TextureChunks(b)
    decreases |a|
  {
    if a == [] {
      assert a + b == b;
    } else {
      assert (a + b)[0] == a[0] && (a + b)[1..] == a[1..] + b;
      TextureChunksOfConcat(a[1..], b);
    }
  }

  lemma {:induction false} TextureDataChunksOfConcat(a: seq<Chunk>, b: seq<Chunk>)
    ensures TextureDataChunks(a + b) == TextureDataChunks(a) + TextureDataChunks(b)
    decreases |a|
  {
    if a == [] {
      assert a + b == b;
    } else {
      assert (a + b)[0] == a[0] && (a + b)[1..] == a[1..] + b;
      TextureDataChunksOfConcat(a[1..], b);
    }
  }

  lemma {:induction false} ChunksWithUidOfConcat(a: seq<Chunk>, b: seq<Chunk>, uid: nat)
    ensures ChunksWithUid(a + b, uid) == ChunksWithUid(a, uid) + ChunksWithUid(b, uid)
    decreases |a|
  {
    if a == [] {
      assert a + b == b;
    } else {
      assert (a + b)[0] == a[0] && (a + b)[1..] == a[1..] + b;
      ChunksWithUidOfConcat(a[1..], b, uid);
    }
  }

  /** A single chunk is kept exactly when it has the selected kind or UID; with
      the concatenation lemmas above this fixes each selection for every list. */
  lemma SelectionsOfOne(c: Chunk, uid: nat)
    ensures TextureChunks([c]) == if c.payload.TexturePayload? then [c] else []
    ensures TextureDataChunks([c]) == if c.payload.TextureDataPayload? then [c] else []
    ensures ChunksWithUid([c], uid) == if c.uid == uid then [c] else []
  {
    assert [c][1..] == [];
  }

  // The two pairing modes.

  /** The positional loop: texture i takes the pixels of data chunk i; running
      out of data chunks fails, data chunks left over are not looked at. */
  function PairPositional(texs: seq<Chunk>, datas: seq<Chunk>): (r: Result<seq<ProcessedTexture>>)
    requires forall c :: c in texs ==> c.payload.TexturePayload?
    requires forall c :: c in datas ==> c.payload.TextureDataPayload?
    ensures r.Success? ==> |r.value| == |texs| <= |datas|
    ensures r == Failure(PairingCountMismatch) ==> |datas| < |texs|
    decreases |texs|
  {
    if texs == [] then Success([])
    else if datas == [] then Failure(PairingCountMismatch)
    else
      var p :- FromData(texs[0], datas[0]);
      Prepend([p], PairPositional(texs[1..], datas[1..]))
  }

  /** The absolute-offset loop: every texture slices the temp file. */
  function SliceAll(texs: seq<Chunk>, temp: seq<byte>): (r: Result<seq<ProcessedTexture>>)
    requires forall c :: c in texs ==> c.payload.TexturePayload?
    ensures r.Success? ==> |r.value| == |texs|
    ensures r.Failure? ==> r.error == NegativeArraySize || r.error == PixelRangeOutOfBounds
    decreases |texs|
  {
    if texs == [] then Success([])
    else
      var p :- FromTemp(texs[0], temp);
      Prepend([p], SliceAll(texs[1..], temp))
  }

  /** The TexturePack constructor over the bytes of the perm file and, when the
      temp sibling exists, of the temp file.  Both files are parsed as chunk
      streams, the perm file first. */
  function AssemblePack(fileName: string, perm: seq<byte>, temp: Option<seq<byte>>, fuel: nat): (r: Result<TexturePack>)
    ensures Parse(perm, fuel).Failure? ==> r == Failure(Parse(perm, fuel).error)
    ensures Parse(perm, fuel).Success? && temp.Some? && Parse(temp.value, fuel).Failure? ==>
      r == Failure(Parse(temp.value, fuel).error)
    ensures r.Success? ==>
      && Parse(perm, fuel) == Success(r.value.permBin) && r.value.name == PackName(fileName)
      && (r.value.tempBin.Some? <==> temp.Some?)
      && (temp.Some? ==> Parse(temp.value, fuel) == Success(r.value.tempBin.value))
  {
    var permChunks :- Parse(perm, fuel);
    match temp
    case None =>
      var textures :- PairPositional(TextureChunks(permChunks), TextureDataChunks(permChunks));
      Success(TexturePack(PackName(fileName), permChunks, None, textures))
    case Some(tempBytes) =>
      var tempChunks :- Parse(tempBytes, fuel);
      ParsePayloadKinds(perm, 0, fuel);
      var textures :- SliceAll(ChunksWithUid(permChunks, TextureUid), tempBytes);
      Success(TexturePack(PackName(fileName), permChunks, Some(tempChunks), textures))
  }

  // Properties of the pack name.

  /** A file name whose stem has no dot loses exactly its ".perm.bin"
      extension, whatever the case of the stem: the name is the lower-cased
      stem, and its temp sibling is that name plus ".temp.bin". */
  lemma PackNameOfPermFile(stem: string)
    requires forall k :: 0 <= k < |stem| ==> stem[k] != '.'
    ensures PackName(stem + PermExt) == ToLower(stem)
    ensures TempFileName(stem + PermExt) == ToLower(stem) + TempExt
  {
    var low := ToLower(stem);
    ToLowerConcat(stem, PermExt);
    ToLowerKeeps(PermExt);
    assert forall k :: 0 <= k < |low| ==> low[k] != '.';
    RemoveTrailingPattern(low, PermExt);
  }

  /** More generally, a stem in whose lower-cased form ".perm.bin" does not
      begin before the extension names the pack by its lower-cased form. */
  lemma PackNameOfFirstExtension(stem: string)
    requires forall k :: 0 <= k < |stem| ==> !OccursAt(ToLower(stem) + PermExt, PermExt, k)
    ensures PackName(stem + PermExt) == ToLower(stem)
  {
    ToLowerConcat(stem, PermExt);
    ToLowerKeeps(PermExt);
    RemoveAllFirst(ToLower(stem), [], PermExt);
    assert ToLower(stem) + PermExt + [] == ToLower(stem + PermExt);
  }

  /** A file name without ".perm.bin" in any case is only lower-cased. */
  lemma PackNameWithoutExtension(fileName: string)
    requires forall k :: !OccursAt(ToLower(fileName), PermExt, k)
    ensures PackName(fileName) == ToLower(fileName)
  {
    RemoveAllNone(ToLower(fileName), PermExt);
  }

  lemma {:induction false} RemoveTrailingPattern(s: string, pat: string)
    requires |pat| > 0 && pat[0] == '.'
    requires forall k :: 0 <= k < |s| ==> s[k] != '.'
    ensures RemoveAll(s + pat, pat) == s
    decreases |s|
  {
    var t := s + pat;
    if s == [] {
      assert t[..|pat|] == pat && t[|pat|..] == [];
    } else {
      assert t[0] == s[0] != '.';
      assert t[..|pat|] != pat by { assert t[..|pat|][0] != pat[0]; }
      assert t[1..] == s[1..] + pat;
      RemoveTrailingPattern(s[1..], pat);
      assert [s[0]] + s[1..] == s;
    }
  }

  /** The extension is matched after lower-casing, whatever its case. */
  lemma PackNameIgnoresCase()
    ensures PackName("Foo.PERM.BIN") == "foo"
  {
    assert ToLower("Foo.PERM.BIN") == "foo" + PermExt;
    RemoveTrailingPattern("foo", PermExt);
  }

  /** String.Replace makes a single pass: an occurrence that only forms once
      an inner one is removed stays in the name, so "a.perm.perm.bin.bin"
      names the pack "a.perm.bin". */
  lemma PackNameSinglePass(w: string)
    requires forall k :: 0 <= k < |w| ==> w[k] != '.' && !('A' <= w[k] <= 'Z')
    ensures PackName(w + ".perm" + PermExt + ".bin") == w + PermExt
  {
    var v := ".perm" + PermExt + ".bin";
    assert w + ".perm" + PermExt + ".bin" == w + v;
    ToLowerConcat(w, v);
    ToLowerKeeps(w);
    ToLowerConcat(".perm", PermExt);
    ToLowerConcat(".perm" + PermExt, ".bin");
    ToLowerKeeps(".perm");
    ToLowerKeeps(PermExt);
    ToLowerKeeps(".bin");
    InnerOccurrenceKept();
    KeepPrefix(w, v, PermExt);
  }

  lemma ToLowerKeeps(s: string)
    requires forall k :: 0 <= k < |s| ==> !('A' <= s[k] <= 'Z')
    ensures ToLower(s) == s
  {
  }

  lemma ToLowerConcat(a: string, b: string)
    ensures ToLower(a + b) == ToLower(a) + ToLower(b)
  {
    var l, r := ToLower(a + b), ToLower(a) + ToLower(b);
    forall k | 0 <= k < |l|
      ensures l[k] == r[k]
    {
      if k < |a| {
        assert (a + b)[k] == a[k];
      } else {
        assert (a + b)[k] == b[k - |a|];
      }
    }
  }

  lemma InnerOccurrenceKept()
    ensures RemoveAll(".perm" + PermExt + ".bin", PermExt) == PermExt
  {
    var tail := ".bin";
    var u := PermExt + tail;
    var v := ".perm" + u;
    assert ".perm" + PermExt + ".bin" == v;
    assert v[8] == 'r' && PermExt[8] == 'n';
    assert v[..9] != PermExt by { assert v[..9][8] != PermExt[8]; }
    assert v[1..] == "perm" + u;
    assert u[..9] == PermExt && u[9..] == tail;
    assert RemoveAll(u, PermExt) == tail;
    KeepPrefix("perm", u, PermExt);
    assert RemoveAll(v, PermExt) == [v[0]] + ("perm" + tail);
  }

  /** Characters none of which begins an occurrence of `pat` are kept as they
      are, in front of what the pass makes of the rest. */
  lemma {:induction false} KeepPrefix(w: string, u: string, pat: string)
    requires |pat| > 0
    requires forall k :: 0 <= k < |w| ==> w[k] != pat[0]
    ensures RemoveAll(w + u, pat) == w + RemoveAll(u, pat)
    decreases |w|
  {
    if w != [] {
      var s := w + u;
      if |s| >= |pat| {
        assert s[..|pat|][0] == w[0];
      }
      assert s[1..] == w[1..] + u;
      KeepPrefix(w[1..], u, pat);
      assert [w[0]] + (w[1..] + RemoveAll(u, pat)) == w + RemoveAll(u, pat);
    } else {
      assert w + u == u;
    }
  }

  // Properties of the pairing modes.

  /** The positional loop succeeds exactly when there are at least as many
      data chunks as textures and every texture fits in the data chunk at its
      index; it then processes every texture, in order, with that data chunk. */
  lemma PairPositionalSpec(texs: seq<Chunk>, datas: seq<Chunk>)
    requires forall c :: c in texs ==> c.payload.TexturePayload?
    requires forall c :: c in datas ==> c.payload.TextureDataPayload?
    ensures PairPositional(texs, datas).Success? <==>
      |texs| <= |datas| && forall k :: 0 <= k < |texs| ==> FromData(texs[k], datas[k]).Success?
    ensures PairPositional(texs, datas).Success? ==> var ps := PairPositional(texs, datas).value;
      && |ps| == |texs| <= |datas|
      && forall k :: 0 <= k < |texs| ==> FromData(texs[k], datas[k]) == Success(ps[k])
  {
    if PairPositional(texs, datas).Success? {
      PairPositionalResult(texs, datas);
    } else if |texs| <= |datas| && forall k :: 0 <= k < |texs| ==> FromData(texs[k], datas[k]).Success? {
      PairPositionalSucceeds(texs, datas);
    }
  }

  /** A successful positional pairing processes every texture, in order, with
      the data chunk at the same index. */
  lemma {:induction false} PairPositionalResult(texs: seq<Chunk>, datas: seq<Chunk>)
    requires forall c :: c in texs ==> c.payload.TexturePayload?
    requires forall c :: c in datas ==> c.payload.TextureDataPayload?
    requires PairPositional(texs, datas).Success?
    ensures var ps := PairPositional(texs, datas).value;
      && |ps| == |texs| <= |datas|
      && forall k :: 0 <= k < |texs| ==> FromData(texs[k], datas[k]) == Success(ps[k])
    decreases |texs|
  {
    if texs != [] {
      assert texs[0] in texs && datas[0] in datas;
      assert forall c :: c in texs[1..] ==> c in texs;
      assert forall c :: c in datas[1..] ==> c in datas;
      PairPositionalResult(texs[1..], datas[1..]);
      var ps := PairPositional(texs, datas).value;
      forall k | 0 <= k < |texs|
        ensures FromData(texs[k], datas[k]) == Success(ps[k])
      {
        if k > 0 {
          assert texs[k] == texs[1..][k - 1] && datas[k] == datas[1..][k - 1];
        }
      }
    }
  }

  /** Enough data chunks, each large enough for the texture at its index, make
      the positional pairing succeed. */
  lemma {:induction false} PairPositionalSucceeds(texs: seq<Chunk>, datas: seq<Chunk>)
    requires forall c :: c in texs ==> c.payload.TexturePayload?
    requires forall c :: c in datas ==> c.payload.TextureDataPayload?
    requires |texs| <= |datas| && forall k :: 0 <= k < |texs| ==> FromData(texs[k], datas[k]).Success?
    ensures PairPositional(texs, datas).Success?
    decreases |texs|
  {
    if texs != [] {
      var ts, ds := texs[1..], datas[1..];
      assert texs[0] in texs && datas[0] in datas;
      assert forall c :: c in ts ==> c in texs;
      assert forall c :: c in ds ==> c in datas;
      forall k | 0 <= k < |ts| ensures FromData(ts[k], ds[k]).Success? {
        assert ts[k] == texs[k + 1] && ds[k] == datas[k + 1];
      }
      PairPositionalSucceeds(ts, ds);
      assert FromData(texs[0], datas[0]).Success?;
    }
  }

  /** Data chunks past the last texture are never looked at. */
  lemma {:induction false} PairPositionalIgnoresExtra(texs: seq<Chunk>, datas: seq<Chunk>, extra: seq<Chunk>)
    requires forall c :: c in texs ==> c.payload.TexturePayload?
    requires forall c :: c in datas + extra ==> c.payload.TextureDataPayload?
    requires |texs| <= |datas|
    ensures forall c :: c in datas ==> c.payload.TextureDataPayload?
    ensures PairPositional(texs, datas + extra) == PairPositional(texs, datas)
    decreases |texs|
  {
    assert forall c :: c in datas ==> c in datas + extra;
    if texs != [] {
      assert (datas + extra)[0] == datas[0];
      assert (datas + extra)[1..] == datas[1..] + extra;
      assert forall c :: c in texs[1..] ==> c in texs;
      assert forall c :: c in datas[1..] + extra ==> c in datas + extra;
      PairPositionalIgnoresExtra(texs[1..], datas[1..], extra);
    }
  }

  /** The absolute-offset loop succeeds exactly when every texture's range lies
      in the temp file, and then yields one processed texture per Texture
      chunk, in order. */
  lemma {:induction false} SliceAllSpec(texs: seq<Chunk>, temp: seq<byte>)
    requires forall c :: c in texs ==> c.payload.TexturePayload?
    ensures SliceAll(texs, temp).Success? <==> forall k :: 0 <= k < |texs| ==> FromTemp(texs[k], temp).Success?
    ensures SliceAll(texs, temp).Success? ==> var ps := SliceAll(texs, temp).value;
      && |ps| == |texs|
      && forall k :: 0 <= k < |texs| ==> FromTemp(texs[k], temp) == Success(ps[k])
    decreases |texs|
  {
    if texs != [] {
      assert forall c :: c in texs[1..] ==> c in texs;
      SliceAllSpec(texs[1..], temp);
      SliceAllStep(texs, temp);
    }
  }

  /** The step of SliceAllSpec: the first texture in front of the rest. */
  lemma SliceAllStep(texs: seq<Chunk>, temp: seq<byte>)
    requires texs != [] && forall c :: c in texs ==> c.payload.TexturePayload?
    requires var rest := texs[1..];
      && (SliceAll(rest, temp).Success? <==> forall k :: 0 <= k < |rest| ==> FromTemp(rest[k], temp).Success?)
      && (SliceAll(rest, temp).Success? ==> var qs := SliceAll(rest, temp).value;
           && |qs| == |rest|
           && forall k :: 0 <= k < |rest| ==> FromTemp(rest[k], temp) == Success(qs[k]))
    ensures SliceAll(texs, temp).Success? <==> forall k :: 0 <= k < |texs| ==> FromTemp(texs[k], temp).Success?
    ensures SliceAll(texs, temp).Success? ==> var ps := SliceAll(texs, temp).value;
      && |ps| == |texs|
      && forall k :: 0 <= k < |texs| ==> FromTemp(texs[k], temp) == Success(ps[k])
  {
    var rest := texs[1..];
    assert texs[0] in texs;
    forall k | 0 < k < |texs| ensures texs[k] == rest[k - 1] { }
    if SliceAll(texs, temp).Success? {
      var ps, qs := SliceAll(texs, temp).value, SliceAll(rest, temp).value;
      assert ps == [FromTemp(texs[0], temp).value] + qs;
      forall k | 0 < k < |texs|
        ensures FromTemp(texs[k], temp) == Success(ps[k])
      {
        assert ps[k] == qs[k - 1];
      }
    }
  }

  /** With the chunk kinds a parse produces, selecting by the Texture UID and
      selecting Texture chunks are the same list. */
  lemma {:induction false} UidSelectsTextureChunks(cs: seq<Chunk>)
    requires forall c :: c in cs ==> (c.payload.TexturePayload? <==> c.uid == TextureUid)
    ensures ChunksWithUid(cs, TextureUid) == TextureChunks(cs)
  {
    if cs != [] {
      assert cs[0] in cs;
      assert forall c :: c in cs[1..] ==> c in cs;
      UidSelectsTextureChunks(cs[1..]);
    }
  }

  /** A pack with a temp file: both files parse, and there is one processed
      texture per Texture chunk of the perm file, in encounter order, whose
      pixels are sliced out of the temp file; TextureData chunks play no part. */
  lemma AbsoluteModeTextures(fileName: string, perm: seq<byte>, temp: seq<byte>, fuel: nat)
    requires AssemblePack(fileName, perm, Some(temp), fuel).Success?
    ensures var pack := AssemblePack(fileName, perm, Some(temp), fuel).value;
      && Parse(perm, fuel) == Success(pack.permBin)
      && Parse(temp, fuel).Success? && pack.tempBin == Some(Parse(temp, fuel).value)
      && pack.name == PackName(fileName)
      && var texs := TextureChunks(pack.permBin);
         && |pack.textures| == |texs|
         && forall k :: 0 <= k < |texs| ==> FromTemp(texs[k], temp) == Success(pack.textures[k])
  {
    var cs := Parse(perm, fuel).value;
    ParsePayloadKinds(perm, 0, fuel);
    UidSelectsTextureChunks(cs);
    SliceAllSpec(TextureChunks(cs), temp);
  }

  /** A pack without a temp file: the perm file parses, there are at least as
      many TextureData chunks as Texture chunks, and texture i takes the pixels
      of data chunk i. */
  lemma PositionalModeTextures(fileName: string, perm: seq<byte>, fuel: nat)
    requires AssemblePack(fileName, perm, None, fuel).Success?
    ensures var pack := AssemblePack(fileName, perm, None, fuel).value;
      && Parse(perm, fuel) == Success(pack.permBin) && pack.tempBin == None
      && pack.name == PackName(fileName)
      && var texs := TextureChunks(pack.permBin);
         var datas := TextureDataChunks(pack.permBin);
         && |pack.textures| == |texs| <= |datas|
         && forall k :: 0 <= k < |texs| ==> FromData(texs[k], datas[k]) == Success(pack.textures[k])
  {
    var cs := Parse(perm, fuel).value;
    PairPositionalSpec(TextureChunks(cs), TextureDataChunks(cs));
  }

  /** A pack with a temp file loads exactly when both files parse and every
      Texture chunk's pixel range lies in the temp file. */
  lemma AbsoluteModeLoads(fileName: string, perm: seq<byte>, temp: seq<byte>, fuel: nat)
    ensures AssemblePack(fileName, perm, Some(temp), fuel).Success? <==>
      && Parse(perm, fuel).Success? && Parse(temp, fuel).Success?
      && var texs := TextureChunks(Parse(perm, fuel).value);
         forall k :: 0 <= k < |texs| ==> FromTemp(texs[k], temp).Success?
  {
    if Parse(perm, fuel).Success? {
      var cs := Parse(perm, fuel).value;
      ParsePayloadKinds(perm, 0, fuel);
      UidSelectsTextureChunks(cs);
      SliceAllSpec(TextureChunks(cs), temp);
    }
  }

  /** A pack without a temp file loads exactly when the perm file parses, has
      at least as many TextureData chunks as Texture chunks, and every texture
      fits in the data chunk at its index. */
  lemma PositionalModeLoads(fileName: string, perm: seq<byte>, fuel: nat)
    ensures AssemblePack(fileName, perm, None, fuel).Success? <==>
      && Parse(perm, fuel).Success?
      && var texs := TextureChunks(Parse(perm, fuel).value);
         var datas := TextureDataChunks(Parse(perm, fuel).value);
         && |texs| <= |datas|
         && forall k :: 0 <= k < |texs| ==> FromData(texs[k], datas[k]).Success?
  {
    if Parse(perm, fuel).Success? {
      var cs := Parse(perm, fuel).value;
      PairPositionalSpec(TextureChunks(cs), TextureDataChunks(cs));
    }
  }

  /** Without a temp file, a perm file with fewer TextureData chunks than
      Texture chunks does not load. */
  lemma PositionalTooFewData(fileName: string, perm: seq<byte>, fuel: nat)
    requires Parse(perm, fuel).Success?
    requires var cs := Parse(perm, fuel).value; |TextureDataChunks(cs)| < |TextureChunks(cs)|
    ensures AssemblePack(fileName, perm, None, fuel).Failure?
  {
    var cs := Parse(perm, fuel).value;
    if PairPositional(TextureChunks(cs), TextureDataChunks(cs)).Success? {
      PairPositionalSpec(TextureChunks(cs), TextureDataChunks(cs));
    }
  }
}
