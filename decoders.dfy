/** The texture codec as the program runs it: a BinaryReader over a
    MemoryStream of the texture's source bytes, 4x4 alpha channels decoded
    into fresh byte[4, 4] arrays, and a BinaryWriter over a growing
    MemoryStream whose position is set before every pixel it writes.  Each
    method is proved to agree with the reference definitions of module Codec. */
module Decoders {
  import opened Results
  import opened LittleEndian
  import opened Streams
  import opened Chunks
  import opened Pack
  import opened Codec
  import opened CodecFacts

  /** The 16 entries of a 4x4 alpha channel: entry 4 * row + col is
      channel[col, row], the way the colour loop indexes it. */
  function Flatten(channel: array2<byte>): (r: seq<byte>)
    requires channel.Length0 == 4 && channel.Length1 == 4
    reads channel
    ensures |r| == 16
    ensures forall col, row :: 0 <= col < 4 && 0 <= row < 4 ==> r[4 * row + col] == channel[col, row]
  {
    seq(16, n requires 0 <= n < 16 reads channel => channel[n % 4, n / 4])
  }

  /** The `alpha` argument of Decode565ColorBlock: null for DXT1. */
  function AlphaOf(alpha: array2?<byte>): (r: Option<seq<byte>>)
    requires alpha != null ==> alpha.Length0 == 4 && alpha.Length1 == 4
    reads alpha
    ensures r.None? <==> alpha == null
    ensures r.Some? ==> |r.value| == 16
  {
    if alpha == null then None else Some(Flatten(alpha))
  }

  /** `alphas` holds the entries of the alpha argument `alpha`, row by row. */
  ghost predicate AlphaIn(alpha: array2?<byte>, alphas: Option<seq<byte>>)
    reads alpha
  {
    if alpha == null then alphas.None?
    else
      && alpha.Length0 == 4 && alpha.Length1 == 4 && alphas.Some? && |alphas.value| == 16
      && forall col, row :: 0 <= col < 4 && 0 <= row < 4 ==> alphas.value[4 * row + col] == alpha[col, row]
  }

  /** The first `n` entries of `channel`, row by row, are those of `want`. */
  ghost predicate Filled(channel: array2<byte>, want: seq<byte>, n: nat)
    requires channel.Length0 == 4 && channel.Length1 == 4 && |want| == 16
    reads channel
  {
    forall col, row :: 0 <= col < 4 && 0 <= row < 4 && 4 * row + col < n ==> channel[col, row] == want[4 * row + col]
  }

  lemma FilledFlatten(channel: array2<byte>, want: seq<byte>)
    requires channel.Length0 == 4 && channel.Length1 == 4 && |want| == 16
    requires Filled(channel, want, 16)
    ensures Flatten(channel) == want
  {
    forall n | 0 <= n < 16
      ensures Flatten(channel)[n] == want[n]
    {
      assert 4 * (n / 4) + n % 4 == n;
    }
  }

  /** pixDataStart as the program computes it is the offset of the pixel. */
  lemma PixDataStart(width: nat, xBlock: nat, yBlock: nat, i: nat, j: nat)
    ensures width * (yBlock * 4 + j) * 4 + (xBlock * 4 + i) * 4 == PixelOffset(width, xBlock, yBlock, i, j)
  {
    assert width * (yBlock * 4 + j) * 4 == 4 * width * (4 * yBlock + j);
  }

  /** `code` after `code >>= bits` has run n times, a digit being `bits` wide. */
  function Shifted(code: nat, base: nat, n: nat): nat
    requires base >= 2
  {
    if n == 0 then code else Shifted(code, base, n - 1) / base
  }

  lemma {:induction false} ShiftedOuter(code: nat, base: nat, n: nat)
    requires base >= 2 && n > 0
    ensures Shifted(code, base, n) == Shifted(code / base, base, n - 1)
    decreases n
  {
    if n > 1 {
      ShiftedOuter(code, base, n - 1);
    }
  }

  /** Digit n of `code` is what `code & mask` yields after n shifts. */
  lemma {:induction false} DigitAt(code: nat, base: nat, count: nat, n: nat)
    requires base >= 2 && n < count
    ensures Digits(code, base, count)[n] == Shifted(code, base, n) % base
    decreases n
  {
    if n > 0 {
      DigitAt(code / base, base, count - 1, n - 1);
      ShiftedOuter(code, base, n);
    }
  }

  lemma NibbleAt(code: nat, n: nat)
    requires n < 16
    ensures NibbleAlphas(code)[n] == ExtractTo8Bit(Digits(code, 16, 16)[n], 0, 0xF)
  {
  }

  lemma IndexAt(first0: byte, first1: byte, code: nat, lerp: Lerp, n: nat)
    requires n < 16
    ensures IndexAlphas(first0, first1, code, lerp)[n] == AlphaOfIndex(first0, first1, Digits(code, 8, 16)[n], lerp)
  {
  }

  /** Entry 4 * k + i of a colour block's writes is the texel in column i of
      row k ^ 1. */
  lemma BlockWritesByPass(cb: seq<byte>, alphas: Option<seq<byte>>, width: nat, xBlock: nat, yBlock: nat, lerp: Lerp)
    requires |cb| == 8 && (alphas.Some? ==> |alphas.value| == 16)
    ensures forall k, i | 0 <= k < 4 && 0 <= i < 4 ::
      ColorBlockWrites(cb, alphas, width, xBlock, yBlock, lerp)[4 * k + i]
      == Write(PixelOffset(width, xBlock, yBlock, i, PassRow(k)), Texel(cb, alphas, i, PassRow(k), lerp))
  {
    forall k, i | 0 <= k < 4 && 0 <= i < 4
      ensures ColorBlockWrites(cb, alphas, width, xBlock, yBlock, lerp)[4 * k + i]
           == Write(PixelOffset(width, xBlock, yBlock, i, PassRow(k)), Texel(cb, alphas, i, PassRow(k), lerp))
    {
      BlockWriteAt(cb, alphas, width, xBlock, yBlock, lerp, 4 * k + i, k, i);
    }
  }

  lemma BlockWriteAt(cb: seq<byte>, alphas: Option<seq<byte>>, width: nat, xBlock: nat, yBlock: nat, lerp: Lerp,
                     n: nat, k: nat, i: nat)
    requires |cb| == 8 && (alphas.Some? ==> |alphas.value| == 16)
    requires k < 4 && i < 4 && n == 4 * k + i
    ensures ColorBlockWrites(cb, alphas, width, xBlock, yBlock, lerp)[n]
         == Write(PixelOffset(width, xBlock, yBlock, i, PassRow(k)), Texel(cb, alphas, i, PassRow(k), lerp))
  {
    assert n % 4 == i && n / 4 == k;
  }

  /** The pixel in column i of row k ^ 1 takes the selector that `code` holds
      after n = 4 * k + i shifts. */
  lemma PassSelector(cb: seq<byte>, k: nat, i: nat, n: nat, code: nat)
    requires |cb| == 8 && k < 4 && i < 4 && n == 4 * k + i && code == Shifted(CodeWord(cb), 4, n)
    ensures Selector(cb, i, PassRow(k)) == code % 4
  {
    DigitAt(CodeWord(cb), 4, 16, n);
    CodeWordSelectors(cb);
    assert n % 4 == i && n / 4 == k;
  }

  /** Decode565ColorBlock: reads the two endpoints and the four code bytes,
      then writes the sixteen pixels, setting the stream position before each.
      A source too short for the 8 bytes fails before anything is written. */
  method Decode565ColorBlock(reader: BinaryReader, writer: MemoryStream, width: nat, xBlock: nat, yBlock: nat,
                             alpha: array2?<byte>, lerp: Lerp) returns (ok: bool)
    requires alpha != null ==> alpha.Length0 == 4 && alpha.Length1 == 4
    modifies reader, writer
    ensures ok <==> old(reader.position) + 8 <= |reader.data|
    ensures ok ==> var p := old(reader.position);
      && reader.position == p + 8
      && writer.writes == old(writer.writes) + ColorBlockWrites(reader.data[p..p + 8], AlphaOf(alpha), width, xBlock, yBlock, lerp)
      && writer.AfterLastWrite()
    ensures !ok ==> writer.writes == old(writer.writes) && writer.position == old(writer.position)
  {
    ghost var start := reader.position;
    var ok0, color0 := reader.ReadUInt16();
    var ok1, color1 := reader.ReadUInt16();
    var ok2, codeBytes := reader.ReadBytes(4);
    if !(ok0 && ok1) || |codeBytes| < 4 {
      return false;
    }
    ghost var cb := reader.data[start..start + 8];
    assert codeBytes == cb[4..];
    assert color0 == U16At(cb, 0) && color1 == U16At(cb, 2);
    var code: nat := codeBytes[2] as nat * 0x100_0000 + codeBytes[3] as nat * 0x1_0000
                   + codeBytes[0] as nat * 0x100 + codeBytes[1] as nat;
    assert code == CodeWord(cb);
    ghost var alphas := AlphaOf(alpha);
    BlockWritesByPass(cb, alphas, width, xBlock, yBlock, lerp);
    PaintPasses(writer, width, xBlock, yBlock, color0, color1, code, alpha, alphas, cb, lerp,
                ColorBlockWrites(cb, alphas, width, xBlock, yBlock, lerp));
    ok := true;
  }

  /** The pass loop of Decode565ColorBlock: four passes, pass k painting row
      k ^ 1 of the block.  `want` is the block's writes, stated entry by entry. */
  method PaintPasses(writer: MemoryStream, width: nat, xBlock: nat, yBlock: nat, color0: nat, color1: nat,
                     code0: nat, alpha: array2?<byte>, ghost alphas: Option<seq<byte>>, ghost cb: seq<byte>,
                     lerp: Lerp, ghost want: seq<Write>)
    requires |cb| == 8 && color0 == U16At(cb, 0) && color1 == U16At(cb, 2) && code0 == CodeWord(cb)
    requires AlphaIn(alpha, alphas)
    requires |want| == 16
    requires forall k, i | 0 <= k < 4 && 0 <= i < 4 ::
      want[4 * k + i] == Write(PixelOffset(width, xBlock, yBlock, i, PassRow(k)), Texel(cb, alphas, i, PassRow(k), lerp))
    modifies writer
    ensures writer.writes == old(writer.writes) + want
    ensures writer.AfterLastWrite()
  {
    var code := code0;
    ghost var log0 := writer.writes;
    for k := 0 to 4
      invariant code == Shifted(code0, 4, 4 * k)
      invariant writer.writes == log0 + want[..4 * k]
      invariant k > 0 ==> writer.AfterLastWrite()
    {
      code := PaintPass(writer, width, xBlock, yBlock, k, color0, color1, code, alpha, alphas, cb, lerp, want);
      LogExtend(log0, want, 4 * k, 4 * k + 4);
    }
    assert want[..16] == want;
  }

  /** A log that held the writes s[from..to] and gains s[to]. */
  lemma LogSnoc<T>(log: seq<T>, s: seq<T>, from: nat, to: nat)
    requires from <= to < |s|
    ensures (log + s[from..to]) + [s[to]] == log + s[from..to + 1]
  {
    assert s[from..to + 1] == s[from..to] + [s[to]];
  }

  /** A log that held the writes s[..mid] and gains s[mid..to]. */
  lemma LogExtend<T>(log: seq<T>, s: seq<T>, mid: nat, to: nat)
    requires mid <= to <= |s|
    ensures (log + s[..mid]) + s[mid..to] == log + s[..to]
  {
    assert s[..to] == s[..mid] + s[mid..to];
  }

  /** Pass k of the colour loop, over the columns of row k ^ 1. */
  method PaintPass(writer: MemoryStream, width: nat, xBlock: nat, yBlock: nat, k: nat, color0: nat, color1: nat,
                   code0: nat, alpha: array2?<byte>, ghost alphas: Option<seq<byte>>, ghost cb: seq<byte>,
                   lerp: Lerp, ghost want: seq<Write>) returns (code: nat)
    requires k < 4
    requires |cb| == 8 && color0 == U16At(cb, 0) && color1 == U16At(cb, 2)
    requires code0 == Shifted(CodeWord(cb), 4, 4 * k)
    requires AlphaIn(alpha, alphas)
    requires |want| == 16
    requires forall i | 0 <= i < 4 ::
      want[4 * k + i] == Write(PixelOffset(width, xBlock, yBlock, i, PassRow(k)), Texel(cb, alphas, i, PassRow(k), lerp))
    modifies writer
    ensures code == Shifted(CodeWord(cb), 4, 4 * k + 4)
    ensures writer.writes == old(writer.writes) + want[4 * k..4 * k + 4]
    ensures writer.AfterLastWrite()
  {
    code := code0;
    var j := PassRow(k);
    ghost var log0 := writer.writes;
    for i := 0 to 4
      invariant code == Shifted(CodeWord(cb), 4, 4 * k + i)
      invariant writer.writes == log0 + want[4 * k..4 * k + i]
      invariant i > 0 ==> writer.AfterLastWrite()
    {
      code := PaintTexel(writer, width, xBlock, yBlock, k, i, j, color0, color1, code, alpha, alphas, cb, lerp, want[4 * k + i]);
      LogSnoc(log0, want, 4 * k, 4 * k + i);
    }
  }

  /** The body of the colour loop for column i of row j = k ^ 1: take the low
      two bits of `code` as the selector, seek to the texel and write its pixel. */
  method PaintTexel(writer: MemoryStream, width: nat, xBlock: nat, yBlock: nat, k: nat, i: nat, j: nat,
                    color0: nat, color1: nat, code: nat, alpha: array2?<byte>, ghost alphas: Option<seq<byte>>,
                    ghost cb: seq<byte>, lerp: Lerp, ghost w: Write) returns (rest: nat)
    requires k < 4 && i < 4 && j == PassRow(k) && AlphaIn(alpha, alphas)
    requires |cb| == 8 && color0 == U16At(cb, 0) && color1 == U16At(cb, 2)
    requires code == Shifted(CodeWord(cb), 4, 4 * k + i)
    requires w == Write(PixelOffset(width, xBlock, yBlock, i, j), Texel(cb, alphas, i, j, lerp))
    modifies writer
    ensures rest == Shifted(CodeWord(cb), 4, 4 * k + i + 1)
    ensures writer.writes == old(writer.writes) + [w]
    ensures writer.AfterLastWrite()
  {
    var pixDataStart := PixelOffset(width, xBlock, yBlock, i, j);
    var pixel;
    pixel, rest := TexelPixel(k, i, j, color0, color1, code, alpha, alphas, cb, lerp);
    writer.SetPosition(pixDataStart);
    writer.WriteUInt32(pixel);
  }

  /** The pixel the colour loop builds for column i of row j = k ^ 1 from the
      low two bits of `code`, and `code` shifted past them. */
  method TexelPixel(k: nat, i: nat, j: nat, color0: nat, color1: nat, code: nat, alpha: array2?<byte>,
                    ghost alphas: Option<seq<byte>>, ghost cb: seq<byte>, lerp: Lerp) returns (pixel: uint32, rest: nat)
    requires k < 4 && i < 4 && j == PassRow(k) && AlphaIn(alpha, alphas)
    requires |cb| == 8 && color0 == U16At(cb, 0) && color1 == U16At(cb, 2)
    requires code == Shifted(CodeWord(cb), 4, 4 * k + i)
    ensures pixel == Texel(cb, alphas, i, j, lerp)
    ensures rest == Shifted(CodeWord(cb), 4, 4 * k + i + 1)
  {
    var codeDec := code % 4;
    rest := code / 4;
    var a: byte := if alpha == null then 255 else alpha[i, j];
    pixel := ColorPixel(color0, color1, codeDec, a, lerp);
    PassSelector(cb, k, i, 4 * k + i, code);
    AlphaEntry(alpha, alphas, i, j);
    TexelIs(cb, alphas, i, j, lerp, color0, color1, codeDec, a, pixel);
  }

  /** The alpha the colour loop reads for column `col`, row `row`. */
  lemma AlphaEntry(alpha: array2?<byte>, alphas: Option<seq<byte>>, col: nat, row: nat)
    requires AlphaIn(alpha, alphas) && col < 4 && row < 4
    ensures alphas.Some? ==> |alphas.value| == 16
    ensures (if alpha == null then 255 else alpha[col, row]) == AlphaAt(alphas, col, row)
  {
  }

  /** A pixel built from the endpoints, selector and alpha of a texel is that texel. */
  lemma TexelIs(cb: seq<byte>, alphas: Option<seq<byte>>, col: nat, row: nat, lerp: Lerp,
                c0: nat, c1: nat, sel: nat, a: byte, pixel: uint32)
    requires |cb| == 8 && (alphas.Some? ==> |alphas.value| == 16) && col < 4 && row < 4
    requires c0 == U16At(cb, 0) && c1 == U16At(cb, 2) && sel == Selector(cb, col, row)
    requires a == AlphaAt(alphas, col, row) && pixel == ColorPixel(c0, c1, sel, a, lerp)
    ensures pixel == Texel(cb, alphas, col, row, lerp)
  {
  }

  /** channel[col, row] := v, the next entry row by row. */
  method SetEntry(channel: array2<byte>, col: nat, row: nat, v: byte, ghost want: seq<byte>)
    requires channel.Length0 == 4 && channel.Length1 == 4 && |want| == 16 && col < 4 && row < 4
    requires Filled(channel, want, 4 * row + col) && want[4 * row + col] == v
    modifies channel
    ensures Filled(channel, want, 4 * row + col + 1)
  {
    channel[col, row] := v;
  }

  /** DecodePackedChannelBlock: four little-endian ushorts make a 64-bit word
      whose nibbles, lowest first, fill the channel row by row. */
  method DecodePackedChannelBlock(reader: BinaryReader) returns (ok: bool, channel: array2<byte>)
    modifies reader
    ensures fresh(channel) && channel.Length0 == 4 && channel.Length1 == 4
    ensures ok <==> old(reader.position) + 8 <= |reader.data|
    ensures ok ==> var p := old(reader.position);
      && reader.position == p + 8
      && Flatten(channel) == PackedAlpha(reader.data[p..p + 8])
  {
    ghost var start := reader.position;
    var ok0, w0 := reader.ReadUInt16();
    var ok1, w1 := reader.ReadUInt16();
    var ok2, w2 := reader.ReadUInt16();
    var ok3, w3 := reader.ReadUInt16();
    ok := ok0 && ok1 && ok2 && ok3;
    if !ok {
      channel := new byte[4, 4];
      return;
    }
    ghost var ab := reader.data[start..start + 8];
    var code: nat := w0 + 0x1_0000 * w1 + 0x1_0000_0000 * w2 + 0x1_0000_0000_0000 * w3;
    assert code == U64At(ab, 0);
    channel := UnpackNibbles(code);
  }

  /** The loop of DecodePackedChannelBlock: `code & 0xF; code >>= 4` sixteen
      times, row by row, column by column. */
  method UnpackNibbles(code0: nat) returns (channel: array2<byte>)
    ensures fresh(channel) && channel.Length0 == 4 && channel.Length1 == 4
    ensures Flatten(channel) == NibbleAlphas(code0)
  {
    channel := new byte[4, 4];
    var code := code0;
    ghost var want := NibbleAlphas(code0);
    ghost var digits := Digits(code0, 16, 16);
    for j := 0 to 4
      invariant code == Shifted(code0, 16, 4 * j)
      invariant Filled(channel, want, 4 * j)
    {
      for i := 0 to 4
        invariant code == Shifted(code0, 16, 4 * j + i)
        invariant Filled(channel, want, 4 * j + i)
      {
        ghost var n := 4 * j + i;
        DigitAt(code0, 16, 16, n);
        var codeDec := code % 16;
        code := code / 16;
        NibbleAt(code0, n);
        SetEntry(channel, i, j, ExtractTo8Bit(codeDec, 0, 0xF), want);
      }
    }
    FilledFlatten(channel, want);
  }

  /** Decode8BitChannelBlock: the two reference alphas from the first ushort,
      then a 48-bit word from three more whose 3-bit indices, lowest first,
      fill the channel row by row. */
  method Decode8BitChannelBlock(reader: BinaryReader, lerp: Lerp) returns (ok: bool, channel: array2<byte>)
    modifies reader
    ensures fresh(channel) && channel.Length0 == 4 && channel.Length1 == 4
    ensures ok <==> old(reader.position) + 8 <= |reader.data|
    ensures ok ==> var p := old(reader.position);
      && reader.position == p + 8
      && Flatten(channel) == InterpolatedAlpha(reader.data[p..p + 8], lerp)
  {
    ghost var start := reader.position;
    var ok0, first := reader.ReadUInt16();
    var ok1, w1 := reader.ReadUInt16();
    var ok2, w2 := reader.ReadUInt16();
    var ok3, w3 := reader.ReadUInt16();
    ok := ok0 && ok1 && ok2 && ok3;
    if !ok {
      channel := new byte[4, 4];
      return;
    }
    ghost var ab := reader.data[start..start + 8];
    ByteSplit(ab[0] as int, ab[1] as int);
    var first0 := (first % 0x100) as byte;
    var first1 := (first / 0x100) as byte;
    assert first0 == ab[0] && first1 == ab[1];
    var code: nat := w1 + 0x1_0000 * w2 + 0x1_0000_0000 * w3;
    assert code == IndexField(ab);
    channel := UnpackIndices(first0, first1, code, lerp);
  }

  /** The loop of Decode8BitChannelBlock: `code & 7; code >>= 3` sixteen
      times, row by row, column by column. */
  method UnpackIndices(first0: byte, first1: byte, code0: nat, lerp: Lerp) returns (channel: array2<byte>)
    ensures fresh(channel) && channel.Length0 == 4 && channel.Length1 == 4
    ensures Flatten(channel) == IndexAlphas(first0, first1, code0, lerp)
  {
    channel := new byte[4, 4];
    var code := code0;
    ghost var want := IndexAlphas(first0, first1, code0, lerp);
    ghost var digits := Digits(code0, 8, 16);
    for i := 0 to 4
      invariant code == Shifted(code0, 8, 4 * i)
      invariant Filled(channel, want, 4 * i)
    {
      for j := 0 to 4
        invariant code == Shifted(code0, 8, 4 * i + j)
        invariant Filled(channel, want, 4 * i + j)
      {
        ghost var n := 4 * i + j;
        DigitAt(code0, 8, 16, n);
        var codeDec := code % 8;
        code := code / 8;
        IndexAt(first0, first1, code0, lerp, n);
        SetEntry(channel, j, i, AlphaOfIndex(first0, first1, codeDec, lerp), want);
      }
    }
    FilledFlatten(channel, want);
  }

  /** Reading a whole pixel: its four bytes, lowest first, are what the
      shifts and masks of FromA8R8G8B8 take apart. */
  lemma PixelFields(s: seq<byte>, p: nat)
    requires p + 4 <= |s|
    ensures var pix := U32At(s, p);
      && pix % 0x100 == s[p] as int && pix / 0x100 % 0x100 == s[p + 1] as int
      && pix / 0x1_0000 % 0x100 == s[p + 2] as int && pix / 0x100_0000 % 0x100 == s[p + 3] as int
  {
    var pix := U32At(s, p);
    var lo := s[p] as int + 0x100 * s[p + 1] as int;
    var hi := s[p + 2] as int + 0x100 * s[p + 3] as int;
    assert pix == lo + 0x1_0000 * hi;
    ByteSplit(s[p] as int, s[p + 1] as int + 0x100 * hi);
    ByteSplit(s[p + 1] as int, hi);
    assert pix / 0x1_0000 == hi;
    ByteSplit(s[p + 2] as int, s[p + 3] as int);
    assert pix / 0x100_0000 == s[p + 3] as int;
  }

  /** FromA8R8G8B8: while the stream has bytes left, one 32-bit pixel whose
      bytes are written back in BGRA order; a trailing partial pixel fails
      the read. */
  method FromA8R8G8B8(reader: BinaryReader) returns (r: Result<seq<byte>>)
    requires reader.position == 0
    modifies reader
    ensures r == SwizzleArgb(reader.data)
  {
    var writer := new MemoryStream();
    while reader.HasMore()
      invariant reader.position <= |reader.data| && reader.position % 4 == 0
      invariant writer.position == reader.position
      invariant SwizzleArgb(reader.data[..reader.position]) == Success(writer.Contents())
      decreases |reader.data| - reader.position
    {
      var ok := SwizzlePixel(reader, writer);
      if !ok {
        return Failure(TruncatedStream);
      }
    }
    assert reader.data[..reader.position] == reader.data;
    r := Success(writer.Contents());
  }

  /** The loop body of FromA8R8G8B8: read one pixel, write it back as BGRA. */
  method SwizzlePixel(reader: BinaryReader, writer: MemoryStream) returns (ok: bool)
    requires reader.position % 4 == 0 && writer.position == reader.position <= |reader.data|
    requires SwizzleArgb(reader.data[..reader.position]) == Success(writer.Contents())
    modifies reader, writer
    ensures ok <==> old(reader.position) + 4 <= |reader.data|
    ensures ok ==> && reader.position == old(reader.position) + 4 && writer.position == reader.position
                   && SwizzleArgb(reader.data[..reader.position]) == Success(writer.Contents())
  {
    ghost var p := reader.position;
    var pix;
    ok, pix := reader.ReadUInt32();
    if !ok {
      return;
    }
    var a := (pix / 0x100_0000 % 0x100) as byte;
    var b := (pix / 0x1_0000 % 0x100) as byte;
    var g := (pix / 0x100 % 0x100) as byte;
    var red := (pix % 0x100) as byte;
    PixelFields(reader.data, p);
    ghost var group := reader.data[p..p + 4];
    SwizzleArgbSnoc(reader.data[..p], group);
    assert reader.data[..p + 4] == reader.data[..p] + group;
    ghost var before := writer.writes;
    var pixel := AssembleBgraPixel(a, red, g, b);
    writer.WriteUInt32(pixel);
    PaintSnoc([], before, Write(p, pixel));
    WriteAtEnd(Paint([], before), LeBytes32(pixel));
  }

  /** The body of the block loops of FromDXT1, FromDXT3 and FromDXT5: the
      block's alpha channel when the kind has one, then its colour block. */
  method DecodeBlock(kind: DxtKind, reader: BinaryReader, writer: MemoryStream, width: nat, xBlock: nat, yBlock: nat,
                     lerp: Lerp) returns (ok: bool)
    modifies reader, writer
    ensures ok <==> old(reader.position) + BlockBytes(kind) <= |reader.data|
    ensures ok ==> var p := old(reader.position);
      && reader.position == p + BlockBytes(kind)
      && writer.writes == old(writer.writes)
                          + DecodedBlock(kind, reader.data[p..p + BlockBytes(kind)], width, xBlock, yBlock, lerp)
  {
    ghost var p := reader.position;
    var alpha;
    ok, alpha := ReadAlpha(kind, reader, lerp);
    if !ok {
      return;
    }
    ok := Decode565ColorBlock(reader, writer, width, xBlock, yBlock, alpha, lerp);
    if ok {
      BlockSplit(kind, reader.data, p, AlphaOf(alpha), width, xBlock, yBlock, lerp);
    }
  }

  /** The alpha channel FromDXT3 and FromDXT5 decode before each colour
      block; FromDXT1 passes null. */
  method ReadAlpha(kind: DxtKind, reader: BinaryReader, lerp: Lerp) returns (ok: bool, alpha: array2?<byte>)
    modifies reader
    ensures alpha != null ==> fresh(alpha) && alpha.Length0 == 4 && alpha.Length1 == 4
    ensures ok <==> kind == Dxt1 || old(reader.position) + 8 <= |reader.data|
    ensures ok ==> var p := old(reader.position);
      && reader.position == p + BlockBytes(kind) - 8
      && (kind == Dxt1 ==> alpha == null)
      && (kind == Dxt3 ==> alpha != null && AlphaOf(alpha) == Some(PackedAlpha(reader.data[p..p + 8])))
      && (kind == Dxt5 ==> alpha != null && AlphaOf(alpha) == Some(InterpolatedAlpha(reader.data[p..p + 8], lerp)))
  {
    alpha := null;
    ok := true;
    if kind == Dxt3 {
      var channel;
      ok, channel := DecodePackedChannelBlock(reader);
      alpha := channel;
    } else if kind == Dxt5 {
      var channel;
      ok, channel := Decode8BitChannelBlock(reader, lerp);
      alpha := channel;
    }
  }

  /** A block at `p` is its alpha block followed by its colour block. */
  lemma BlockSplit(kind: DxtKind, data: seq<byte>, p: nat, alphas: Option<seq<byte>>, width: nat, xBlock: nat,
                   yBlock: nat, lerp: Lerp)
    requires p + BlockBytes(kind) <= |data|
    requires kind == Dxt1 ==> alphas == None
    requires kind == Dxt3 ==> alphas == Some(PackedAlpha(data[p..p + 8]))
    requires kind == Dxt5 ==> alphas == Some(InterpolatedAlpha(data[p..p + 8], lerp))
    ensures ColorBlockWrites(data[p + BlockBytes(kind) - 8..p + BlockBytes(kind)], alphas, width, xBlock, yBlock, lerp)
         == DecodedBlock(kind, data[p..p + BlockBytes(kind)], width, xBlock, yBlock, lerp)
  {
    var block := data[p..p + BlockBytes(kind)];
    assert block[BlockBytes(kind) - 8..] == data[p + BlockBytes(kind) - 8..p + BlockBytes(kind)];
    assert kind != Dxt1 ==> block[..8] == data[p..p + 8];
  }

  /** FromDXT1, FromDXT3 and FromDXT5: the ceil(width / 4) by ceil(height / 4)
      blocks, row by row, decoded into an empty stream. */
  method FromDxt(kind: DxtKind, reader: BinaryReader, width: int, height: int, lerp: Lerp) returns (r: Result<seq<byte>>)
    requires reader.position == 0
    modifies reader
    ensures r == DecodeDxt(kind, reader.data, width, height, lerp)
  {
    var writer := new MemoryStream();
    var xBlocks := BlockCount(width);
    var yBlocks := BlockCount(height);
    ghost var blocks := GridBlocks(kind, reader.data, if width > 0 then width else 0, xBlocks, lerp);
    for y := 0 to yBlocks
      invariant reader.position == BlockStart(kind, xBlocks, 0, y) <= |reader.data|
      invariant writer.Contents() == PaintGrid(blocks, xBlocks, y)
    {
      var ok := DecodeBlockRow(kind, reader, writer, width, xBlocks, yBlocks, y, lerp, blocks);
      if !ok {
        GridPastSource(kind, reader.data, width, height, lerp);
        return Failure(TruncatedStream);
      }
    }
    if xBlocks == 0 {
      EmptyGrid(blocks, yBlocks);
      NoBlockColumns(kind, reader.data, width, height, lerp);
    } else {
      assert DecodeDxt(kind, reader.data, width, height, lerp) == Success(PaintGrid(blocks, xBlocks, yBlocks));
    }
    r := Success(writer.Contents());
  }

  /** The inner loop of FromDXT1, FromDXT3 and FromDXT5: the blocks of block
      row y, left to right.  It fails when the row does not fit the source. */
  method DecodeBlockRow(kind: DxtKind, reader: BinaryReader, writer: MemoryStream, width: int, xBlocks: nat,
                        ghost yBlocks: nat, y: nat, lerp: Lerp, ghost blocks: (nat, nat) -> seq<Write>) returns (ok: bool)
    requires xBlocks == BlockCount(width) && y < yBlocks
    requires blocks == GridBlocks(kind, reader.data, if width > 0 then width else 0, xBlocks, lerp)
    requires reader.position == BlockStart(kind, xBlocks, 0, y) <= |reader.data|
    modifies reader, writer
    ensures !ok ==> |reader.data| < BlockStart(kind, xBlocks, 0, yBlocks)
    ensures ok ==> && reader.position == BlockStart(kind, xBlocks, 0, y + 1) <= |reader.data|
                   && writer.Contents() == PaintRow(blocks, y, xBlocks, old(writer.Contents()))
  {
    ghost var start := writer.Contents();
    for x := 0 to xBlocks
      invariant reader.position == BlockStart(kind, xBlocks, x, y) <= |reader.data|
      invariant writer.Contents() == PaintRow(blocks, y, x, start)
    {
      ok := DecodeGridBlock(kind, reader, writer, width, xBlocks, yBlocks, x, y, lerp, blocks, start);
      if !ok {
        return;
      }
    }
    BlockStartRows(kind, xBlocks, y);
    ok := true;
  }

  /** One pass of the inner loop: block (x, y) decoded after the first x
      blocks of its row. */
  method DecodeGridBlock(kind: DxtKind, reader: BinaryReader, writer: MemoryStream, width: nat, xBlocks: nat,
                         ghost yBlocks: nat, x: nat, y: nat, lerp: Lerp, ghost blocks: (nat, nat) -> seq<Write>,
                         ghost start: seq<byte>) returns (ok: bool)
    requires x < xBlocks && y < yBlocks
    requires blocks == GridBlocks(kind, reader.data, width, xBlocks, lerp)
    requires reader.position == BlockStart(kind, xBlocks, x, y) <= |reader.data|
    requires writer.Contents() == PaintRow(blocks, y, x, start)
    modifies reader, writer
    ensures !ok ==> |reader.data| < BlockStart(kind, xBlocks, 0, yBlocks)
    ensures ok ==> && reader.position == BlockStart(kind, xBlocks, x + 1, y) <= |reader.data|
                   && writer.Contents() == PaintRow(blocks, y, x + 1, start)
  {
    ghost var before := writer.writes;
    ok := DecodeBlock(kind, reader, writer, width, x, y, lerp);
    if !ok {
      BlockInGrid(kind, xBlocks, yBlocks, x, y);
      return;
    }
    BlockStartMonotone(kind, xBlocks, x + 1, y);
    RowStep(kind, reader.data, width, xBlocks, x, y, lerp, blocks, start, before, writer.writes);
  }

  /** Decoding block (x, y) into the stream after the first x blocks of row
      y gives the stream after the first x + 1. */
  lemma RowStep(kind: DxtKind, src: seq<byte>, width: nat, xBlocks: nat, x: nat, y: nat, lerp: Lerp,
                blocks: (nat, nat) -> seq<Write>, start: seq<byte>, before: seq<Write>, after: seq<Write>)
    requires blocks == GridBlocks(kind, src, width, xBlocks, lerp)
    requires Paint([], before) == PaintRow(blocks, y, x, start)
    requires BlockStart(kind, xBlocks, x, y) + BlockBytes(kind) <= |src|
    requires after == before + DecodedBlock(kind, src[BlockStart(kind, xBlocks, x, y)..BlockStart(kind, xBlocks, x, y) + BlockBytes(kind)],
                                            width, x, y, lerp)
    ensures Paint([], after) == PaintRow(blocks, y, x + 1, start)
  {
    assert blocks(x, y) == BlockWrites(kind, src, width, xBlocks, x, y, lerp);
    PaintConcat([], before, blocks(x, y));
  }

  lemma NoBlockColumns(kind: DxtKind, src: seq<byte>, width: int, height: int, lerp: Lerp)
    requires BlockCount(width) == 0
    ensures DecodeDxt(kind, src, width, height, lerp).Success?
    ensures DecodeDxt(kind, src, width, height, lerp).value == []
  {
  }

  lemma GridPastSource(kind: DxtKind, src: seq<byte>, width: int, height: int, lerp: Lerp)
    requires |src| < BlockStart(kind, BlockCount(width), 0, BlockCount(height))
    ensures DecodeDxt(kind, src, width, height, lerp) == Failure(TruncatedStream)
  {
  }

  /** A grid with no block columns paints nothing. */
  lemma {:induction false} EmptyGrid(blocks: (nat, nat) -> seq<Write>, y: nat)
    ensures PaintGrid(blocks, 0, y) == []
    decreases y
  {
    if y > 0 {
      EmptyGrid(blocks, y - 1);
    }
  }

  /** The fallback of ConvertTexture: a zeroed width * height * 4 buffer (an
      int product) and as many of the source bytes as fit copied into it. */
  method CopyRaw(src: seq<byte>, width: int, height: int) returns (r: Result<seq<byte>>)
    ensures r == RawCopy(src, width, height)
  {
    var n := WrapInt32(width * height * 4);
    if n < 0 {
      return Failure(NegativeArraySize);
    }
    var hackBuffer := new byte[n](_ => 0);
    var count := Min(|src|, n);
    forall k | 0 <= k < count {
      hackBuffer[k] := src[k];
    }
    assert hackBuffer[..] == src[..count] + seq(n - count, _ => 0);
    r := Success(hackBuffer[..]);
  }

  /** ConvertTexture: a reader over the texture's source bytes, handed to the
      decoder its format selects. */
  method ConvertTexture(texture: ProcessedTexture, lerp: Lerp) returns (r: Result<seq<byte>>)
    ensures r == Convert(texture, lerp)
  {
    var reader := new BinaryReader(texture.sourcePixelData);
    match texture.format
    case A8R8G8B8 => r := FromA8R8G8B8(reader);
    case DXT1 => r := FromDxt(Dxt1, reader, texture.width, texture.height, lerp);
    case DXT3 => r := FromDxt(Dxt3, reader, texture.width, texture.height, lerp);
    case DXT5 => r := FromDxt(Dxt5, reader, texture.width, texture.height, lerp);
    case _ => r := CopyRaw(texture.sourcePixelData, texture.width, texture.height);
  }
}
