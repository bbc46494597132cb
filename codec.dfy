/** The pixel codec of ConvertTexture as reference definitions: the channel
    expansion and pixel assembly helpers, the S3TC (DXT1, DXT3, DXT5) block
    decoders on their 4x4 block grid, the A8R8G8B8 swizzle and the raw copy
    every other format falls back to.  Outputs are BGRA bytes. */
module Codec {
  import opened Results
  import opened LittleEndian
  import opened Streams
  import opened Chunks
  import opened Pack

  // Digits and bit fields.

  /** The `count` lowest base-`base` digits of `x`, lowest first: what masking
      with `base - 1` and shifting right by log2(base) produce, step by step. */
  function Digits(x: nat, base: nat, count: nat): (r: seq<nat>)
    requires base >= 2
    ensures |r| == count
    ensures forall k :: 0 <= k < count ==> r[k] < base
  {
    if count == 0 then [] else [x % base] + Digits(x / base, base, count - 1)
  }

  /** (color >> firstBit) & mask, for the channel masks 0xF, 0x1F and 0x3F. */
  function Field(color: nat, firstBit: nat, mask: nat): (r: nat)
    requires mask == 0xF || mask == 0x1F || mask == 0x3F
    ensures r <= mask
  {
    color / Pow2(firstBit) % (mask + 1)
  }

  function Pow2(n: nat): (r: nat)
    ensures r >= 1
  {
    if n == 0 then 1 else 2 * Pow2(n - 1)
  }

  /** ExtractTo8Bit: the channel field scaled from 0..mask to 0..255 and
      rounded to the nearest integer. */
  function ExtractTo8Bit(color: nat, firstBit: nat, mask: nat): (r: byte)
    requires mask == 0xF || mask == 0x1F || mask == 0x3F
    ensures var v := Field(color, firstBit, mask);
      && (v == 0 ==> r == 0)
      && (v == mask ==> r == 255)
      && (mask == 0xF ==> r as int == 17 * v)
  {
    var v := Field(color, firstBit, mask);
    ((510 * v + mask) / (2 * mask)) as byte
  }

  /** ExtractTo8Bit rounds v / mask * 255 to the nearest byte: 255 * v / mask
      lies within half a unit of the result. */
  lemma ExtractTo8BitRounds(color: nat, firstBit: nat, mask: nat)
    requires mask == 0xF || mask == 0x1F || mask == 0x3F
    ensures var v := Field(color, firstBit, mask); var r := ExtractTo8Bit(color, firstBit, mask);
      (2 * r as int - 1) * mask <= 510 * v < (2 * r as int + 1) * mask
  {
  }

  /** AssembleBGRAPixel: the uint whose little-endian bytes are b, g, r, a. */
  function AssembleBgraPixel(a: byte, r: byte, g: byte, b: byte): (v: uint32)
    ensures LeBytes32(v) == [b, g, r, a]
  {
    PixelBytes(a, r, g, b);
    (b as int + 0x100 * g as int + 0x1_0000 * r as int + 0x100_0000 * a as int) as uint32
  }

  lemma PixelBytes(a: byte, r: byte, g: byte, b: byte)
    ensures var x := b as int + 0x100 * g as int + 0x1_0000 * r as int + 0x100_0000 * a as int;
      && x % 0x100 == b as int && x / 0x100 % 0x100 == g as int
      && x / 0x100 / 0x100 % 0x100 == r as int && x / 0x100 / 0x100 / 0x100 == a as int
  {
    var q1 := g as int + 0x100 * r as int + 0x1_0000 * a as int;
    var q2 := r as int + 0x100 * a as int;
    ByteSplit(b as int, q1);
    ByteSplit(g as int, q2);
    ByteSplit(r as int, a as int);
  }

  lemma ByteSplit(lo: int, q: int)
    requires 0 <= lo < 0x100 && q >= 0
    ensures (lo + 0x100 * q) % 0x100 == lo && (lo + 0x100 * q) / 0x100 == q
  {
  }

  // Colour blocks.

  /** The interpolation the program does in floating point on two channel
      values: Lerp(a, b, num / den).  It is a parameter of the model. */
  type Lerp = (byte, byte, nat, nat) -> byte

  /** The red, green and blue channels of an RGB565 endpoint. */
  function Red(c: nat): byte { ExtractTo8Bit(c, 11, 0x1F) }
  function Green(c: nat): byte { ExtractTo8Bit(c, 5, 0x3F) }
  function Blue(c: nat): byte { ExtractTo8Bit(c, 0, 0x1F) }

  /** A pixel num/den of the way from endpoint c0 to endpoint c1. */
  function Mix(c0: nat, c1: nat, num: nat, den: nat, a: byte, lerp: Lerp): uint32 {
    AssembleBgraPixel(a, lerp(Red(c0), Red(c1), num, den), lerp(Green(c0), Green(c1), num, den),
                      lerp(Blue(c0), Blue(c1), num, den))
  }

  /** AssembleBGRAPixel(0, 0, 0, 0): the transparent black pixel. */
  const TransparentBlack: uint32 := 0

  lemma TransparentBlackAssembled()
    ensures AssembleBgraPixel(0, 0, 0, 0) == TransparentBlack
  {
  }

  /** The pixel a 2-bit selector stands for, given the raw endpoints c0, c1
      and the pixel's alpha. */
  function ColorPixel(c0: nat, c1: nat, sel: nat, a: byte, lerp: Lerp): (p: uint32)
    requires sel < 4
    ensures sel == 0 ==> p == AssembleBgraPixel(a, Red(c0), Green(c0), Blue(c0))
    ensures sel == 1 ==> p == AssembleBgraPixel(a, Red(c1), Green(c1), Blue(c1))
    ensures sel == 2 && c0 <= c1 ==> p == Mix(c0, c1, 1, 2, a, lerp)
    ensures sel == 3 && c0 <= c1 ==> LeBytes32(p) == [0, 0, 0, 0]
    ensures sel >= 2 && c0 > c1 ==> p == Mix(c0, c1, sel - 1, 3, a, lerp)
  {
    if sel == 0 then AssembleBgraPixel(a, Red(c0), Green(c0), Blue(c0))
    else if sel == 1 then AssembleBgraPixel(a, Red(c1), Green(c1), Blue(c1))
    else if c0 <= c1 then
      if sel == 2 then Mix(c0, c1, 1, 2, a, lerp) else TransparentBlack
    else Mix(c0, c1, sel - 1, 3, a, lerp)
  }

  /** The row the k-th pass of the colour loop paints: j = k ^ 1. */
  function PassRow(k: nat): (row: nat)
    requires k < 4
    ensures row < 4
  {
    if k == 0 then 1 else if k == 1 then 0 else if k == 2 then 3 else 2
  }

  /** The selector of the pixel in column `col`, row `row` of a colour block:
      bits 2*col of code byte `row`. */
  function Selector(cb: seq<byte>, col: nat, row: nat): (sel: nat)
    requires |cb| == 8 && col < 4 && row < 4
    ensures sel < 4
    ensures sel == cb[4 + row] as nat / Pow2(2 * col) % 4
  {
    SelectorDigits(cb[4 + row] as nat, col);
    Digits(cb[4 + row] as nat, 4, 4)[col]
  }

  /** The base-4 digits of a code byte are its 2-bit fields. */
  lemma SelectorDigits(x: nat, col: nat)
    requires x < 0x100 && col < 4
    ensures Digits(x, 4, 4)[col] == x / Pow2(2 * col) % 4
  {
    assert x / 4 / 4 == x / 16 && x / 16 / 4 == x / 64;
    assert Digits(x, 4, 4) == [x % 4] + Digits(x / 4, 4, 3);
    assert Digits(x / 4, 4, 3) == [x / 4 % 4] + Digits(x / 16, 4, 2);
    assert Digits(x / 16, 4, 2) == [x / 16 % 4] + Digits(x / 64, 4, 1);
    assert Digits(x / 64, 4, 1) == [x / 64 % 4] + Digits(x / 256, 4, 0);
    assert Pow2(0) == 1 && Pow2(2) == 4 && Pow2(4) == 16 && Pow2(6) == 64;
  }

  /** The 32-bit code word the program assembles from the four code bytes. */
  function CodeWord(cb: seq<byte>): (w: nat)
    requires |cb| == 8
    ensures w < 0x1_0000_0000
  {
    cb[5] as nat + 0x100 * cb[4] as nat + 0x1_0000 * cb[7] as nat + 0x100_0000 * cb[6] as nat
  }

  /** The alpha of the pixel in column `col`, row `row`: opaque without an
      alpha block, else the decoded alpha block's entry. */
  function AlphaAt(alpha: Option<seq<byte>>, col: nat, row: nat): byte
    requires alpha.Some? ==> |alpha.value| == 16
    requires col < 4 && row < 4
  {
    if alpha.None? then 255 else alpha.value[4 * row + col]
  }

  /** pixDataStart: where the pixel in column `col`, row `row` of block
      (xBlock, yBlock) is written, 4 bytes per pixel and `width` pixels per row. */
  function PixelOffset(width: nat, xBlock: nat, yBlock: nat, col: nat, row: nat): nat {
    width * (yBlock * 4 + row) * 4 + (xBlock * 4 + col) * 4
  }

  /** Decode565ColorBlock: the sixteen writes of the 8-byte colour block `cb`
      for block (xBlock, yBlock), in the order the program makes them: pass k paints
      row k ^ 1, columns 0 to 3. */
  function ColorBlockWrites(cb: seq<byte>, alpha: Option<seq<byte>>, width: nat, xBlock: nat, yBlock: nat, lerp: Lerp): (ws: seq<Write>)
    requires |cb| == 8 && (alpha.Some? ==> |alpha.value| == 16)
    ensures |ws| == 16
    ensures forall col, row :: 0 <= col < 4 && 0 <= row < 4 ==>
      ws[4 * PassRow(row) + col] == Write(PixelOffset(width, xBlock, yBlock, col, row), Texel(cb, alpha, col, row, lerp))
  {
    var ws := seq(16, n requires 0 <= n < 16 =>
      var col := n % 4;
      var row := PassRow(n / 4);
      Write(PixelOffset(width, xBlock, yBlock, col, row), Texel(cb, alpha, col, row, lerp)));
    assert forall col, row :: 0 <= col < 4 && 0 <= row < 4 ==>
      ws[4 * PassRow(row) + col] == Write(PixelOffset(width, xBlock, yBlock, col, row), Texel(cb, alpha, col, row, lerp))
    by {
      forall col, row | 0 <= col < 4 && 0 <= row < 4
        ensures ws[4 * PassRow(row) + col] == Write(PixelOffset(width, xBlock, yBlock, col, row), Texel(cb, alpha, col, row, lerp))
      {
        PassIndex(col, row);
      }
    }
    ws
  }

  /** Pixel (col, row) is painted by pass PassRow(row), at index col of it. */
  lemma PassIndex(col: nat, row: nat)
    requires col < 4 && row < 4
    ensures var n := 4 * PassRow(row) + col; n < 16 && n % 4 == col && PassRow(n / 4) == row
  {
  }

  /** The pixel in column `col`, row `row` of the colour block `cb`: the
      colour its selector picks between the block's endpoints, with its alpha. */
  function Texel(cb: seq<byte>, alpha: Option<seq<byte>>, col: nat, row: nat, lerp: Lerp): (t: uint32)
    requires |cb| == 8 && (alpha.Some? ==> |alpha.value| == 16)
    requires col < 4 && row < 4
    ensures var transparent := U16At(cb, 0) <= U16At(cb, 2) && Selector(cb, col, row) == 3;
      LeBytes32(t)[3] == if transparent then 0 else AlphaAt(alpha, col, row)
  {
    ColorPixel(U16At(cb, 0), U16At(cb, 2), Selector(cb, col, row), AlphaAt(alpha, col, row), lerp)
  }

  // Alpha blocks.

  /** DecodePackedChannelBlock: sixteen 4-bit alphas of the little-endian
      64-bit word, entry 4*row + col taking nibble number 4*row + col. */
  function PackedAlpha(ab: seq<byte>): (r: seq<byte>)
    requires |ab| == 8
    ensures |r| == 16
    ensures forall n :: 0 <= n < 16 ==> r[n] as int == 17 * Digits(U64At(ab, 0), 16, 16)[n]
  {
    NibbleAlphas(U64At(ab, 0))
  }

  /** The alphas of the nibbles of `code`, lowest first, each scaled to 0..255. */
  function NibbleAlphas(code: nat): (r: seq<byte>)
    ensures |r| == 16
    ensures forall n :: 0 <= n < 16 ==> r[n] as int == 17 * Digits(code, 16, 16)[n]
  {
    var nibbles := Digits(code, 16, 16);
    seq(16, n requires 0 <= n < 16 => ExtractTo8Bit(nibbles[n], 0, 0xF))
  }

  /** The 48-bit index field of a DXT5 alpha block. */
  function IndexField(ab: seq<byte>): nat
    requires |ab| == 8
  {
    U16At(ab, 2) + 0x1_0000 * U16At(ab, 4) + 0x1_0000_0000 * U16At(ab, 6)
  }

  /** The alpha a 3-bit DXT5 index stands for, given first0 (the low byte) and
      first1 (the high byte) of the first word. */
  function AlphaOfIndex(first0: byte, first1: byte, idx: nat, lerp: Lerp): (a: byte)
    requires idx < 8
    ensures idx == 0 ==> a == first0
    ensures idx == 1 ==> a == first1
    ensures first0 < first1 && idx == 6 ==> a == 0
    ensures first0 < first1 && idx == 7 ==> a == 255
    ensures first0 < first1 && 2 <= idx <= 5 ==> a == lerp(first0, first1, idx - 1, 5)
    ensures first0 >= first1 && idx >= 2 ==> a == lerp(first0, first1, idx - 1, 7)
  {
    if idx == 0 then first0
    else if idx == 1 then first1
    else if first0 < first1 then
      if idx == 6 then 0 else if idx == 7 then 255 else lerp(first0, first1, idx - 1, 5)
    else lerp(first0, first1, idx - 1, 7)
  }

  /** Decode8BitChannelBlock: entry 4*row + col takes the 3-bit index number
      4*row + col of the 48-bit field. */
  function InterpolatedAlpha(ab: seq<byte>, lerp: Lerp): (r: seq<byte>)
    requires |ab| == 8
    ensures |r| == 16
    ensures forall n :: 0 <= n < 16 ==> r[n] == AlphaOfIndex(ab[0], ab[1], Digits(IndexField(ab), 8, 16)[n], lerp)
  {
    IndexAlphas(ab[0], ab[1], IndexField(ab), lerp)
  }

  /** The alphas the 3-bit indices of `code`, lowest first, stand for. */
  function IndexAlphas(first0: byte, first1: byte, code: nat, lerp: Lerp): (r: seq<byte>)
    ensures |r| == 16
    ensures forall n :: 0 <= n < 16 ==> r[n] == AlphaOfIndex(first0, first1, Digits(code, 8, 16)[n], lerp)
  {
    var indices := Digits(code, 8, 16);
    seq(16, n requires 0 <= n < 16 => AlphaOfIndex(first0, first1, indices[n], lerp))
  }

  // The block grid.

  datatype DxtKind = Dxt1 | Dxt3 | Dxt5

  /** Bytes each block occupies in the source: a colour block, after an alpha
      block for DXT3 and DXT5. */
  function BlockBytes(kind: DxtKind): nat {
    if kind == Dxt1 then 8 else 16
  }

  /** C#'s int division, which truncates toward zero. */
  function TruncDiv(a: int, b: nat): int
    requires b > 0
  {
    if a >= 0 then a / b else -((-a) / b)
  }

  /** The number of iterations of `for (i = 0; i < (n + 3) / 4; i++)`. */
  function BlockCount(n: int): (r: nat)
    ensures n <= 0 ==> r == 0
    ensures n > 0 ==> 4 * (r - 1) < n <= 4 * r
  {
    var q := TruncDiv(n + 3, 4);
    if q < 0 then 0 else q
  }

  /** The alpha block decoded from a block's first 8 bytes, if the kind has one. */
  function BlockAlpha(kind: DxtKind, block: seq<byte>, lerp: Lerp): (r: Option<seq<byte>>)
    requires |block| == BlockBytes(kind)
    ensures r.Some? ==> |r.value| == 16
  {
    match kind
    case Dxt1 => None
    case Dxt3 => Some(PackedAlpha(block[..8]))
    case Dxt5 => Some(InterpolatedAlpha(block[..8], lerp))
  }

  /** Where block (xBlock, yBlock) begins in the source: blocks are stored row by row. */
  function BlockStart(kind: DxtKind, xBlocks: nat, xBlock: nat, yBlock: nat): nat {
    (yBlock * xBlocks + xBlock) * BlockBytes(kind)
  }

  /** The writes of block (xBlock, yBlock). */
  function BlockWrites(kind: DxtKind, src: seq<byte>, width: nat, xBlocks: nat, xBlock: nat, yBlock: nat, lerp: Lerp): seq<Write>
  {
    DecodedBlock(kind, BlockAt(kind, src, xBlocks, xBlock, yBlock), width, xBlock, yBlock, lerp)
  }

  /** The writes of the source block `block` placed at (xBlock, yBlock): its
      colour block, the last 8 bytes, with the alpha of its first 8 bytes. */
  function DecodedBlock(kind: DxtKind, block: seq<byte>, width: nat, xBlock: nat, yBlock: nat, lerp: Lerp): seq<Write>
    requires |block| == BlockBytes(kind)
  {
    ColorBlockWrites(block[BlockBytes(kind) - 8..], BlockAlpha(kind, block, lerp), width, xBlock, yBlock, lerp)
  }

  /** The source bytes of block (xBlock, yBlock).  A block that lies past the
      end of the source is never decoded (DecodeDxt fails first); it reads as
      zeros here only so that the grid's writes are defined everywhere. */
  function BlockAt(kind: DxtKind, src: seq<byte>, xBlocks: nat, xBlock: nat, yBlock: nat): (block: seq<byte>)
    ensures |block| == BlockBytes(kind)
    ensures var start := BlockStart(kind, xBlocks, xBlock, yBlock);
      start + BlockBytes(kind) <= |src| ==> block == src[start..start + BlockBytes(kind)]
  {
    var start := BlockStart(kind, xBlocks, xBlock, yBlock);
    if start + BlockBytes(kind) <= |src| then src[start..start + BlockBytes(kind)]
    else seq(BlockBytes(kind), _ => 0)
  }

  /** The pixel in column `col`, row `row` of block (xBlock, yBlock). */
  function BlockTexel(kind: DxtKind, src: seq<byte>, xBlocks: nat, xBlock: nat, yBlock: nat, col: nat, row: nat, lerp: Lerp): uint32
    requires col < 4 && row < 4
  {
    var block := BlockAt(kind, src, xBlocks, xBlock, yBlock);
    Texel(block[BlockBytes(kind) - 8..], BlockAlpha(kind, block, lerp), col, row, lerp)
  }

  /** The writes of every block of the grid, by block column and row. */
  function GridBlocks(kind: DxtKind, src: seq<byte>, width: nat, xBlocks: nat, lerp: Lerp): (nat, nat) -> seq<Write> {
    (x: nat, y: nat) => BlockWrites(kind, src, width, xBlocks, x, y, lerp)
  }

  /** The stream `buf` after the first `x` blocks of block row `yBlock` are
      decoded into it, left to right. */
  function PaintRow(blocks: (nat, nat) -> seq<Write>, yBlock: nat, x: nat, buf: seq<byte>): seq<byte>
    decreases x
  {
    if x == 0 then buf else Paint(PaintRow(blocks, yBlock, x - 1, buf), blocks(x - 1, yBlock))
  }

  /** The stream after the first `y` block rows are decoded into an empty one. */
  function PaintGrid(blocks: (nat, nat) -> seq<Write>, xBlocks: nat, y: nat): seq<byte>
    decreases y
  {
    if y == 0 then [] else PaintRow(blocks, y - 1, xBlocks, PaintGrid(blocks, xBlocks, y - 1))
  }

  /** The writes of the first `x` blocks of block row `yBlock`, left to right. */
  function RowLog(blocks: (nat, nat) -> seq<Write>, yBlock: nat, x: nat): seq<Write>
    decreases x
  {
    if x == 0 then [] else RowLog(blocks, yBlock, x - 1) + blocks(x - 1, yBlock)
  }

  /** The writes of the first `y` block rows, row by row. */
  function GridLog(blocks: (nat, nat) -> seq<Write>, xBlocks: nat, y: nat): seq<Write>
    decreases y
  {
    if y == 0 then [] else GridLog(blocks, xBlocks, y - 1) + RowLog(blocks, y - 1, xBlocks)
  }

  lemma BlockStartMonotone(kind: DxtKind, xBlocks: nat, x: nat, yBlock: nat)
    requires 0 < x <= xBlocks
    ensures BlockStart(kind, xBlocks, x - 1, yBlock) + BlockBytes(kind) == BlockStart(kind, xBlocks, x, yBlock)
    ensures BlockStart(kind, xBlocks, x, yBlock) <= BlockStart(kind, xBlocks, 0, yBlock + 1)
  {
  }

  lemma BlockStartRows(kind: DxtKind, xBlocks: nat, yBlock: nat)
    ensures BlockStart(kind, xBlocks, 0, yBlock) <= BlockStart(kind, xBlocks, 0, yBlock + 1)
    ensures BlockStart(kind, xBlocks, xBlocks, yBlock) == BlockStart(kind, xBlocks, 0, yBlock + 1)
  {
  }

  /** FromDXT1, FromDXT3, FromDXT5: every block of the ceil(w/4) by ceil(h/4)
      grid, row by row, painted into an empty stream; a source too short for
      the grid fails. */
  function DecodeDxt(kind: DxtKind, src: seq<byte>, width: int, height: int, lerp: Lerp): (r: Result<seq<byte>>)
    ensures r.Success? <==> BlockCount(width) * BlockCount(height) * BlockBytes(kind) <= |src|
  {
    var xBlocks := BlockCount(width);
    var yBlocks := BlockCount(height);
    if |src| < BlockStart(kind, xBlocks, 0, yBlocks) then Failure(TruncatedStream)
    else if xBlocks == 0 then Success([])
    else Success(PaintGrid(GridBlocks(kind, src, width, xBlocks, lerp), xBlocks, yBlocks))
  }

  // The other formats.

  /** FromA8R8G8B8: each 4-byte group [b0, b1, b2, b3] becomes [b2, b1, b0, b3];
      a trailing partial group fails the read. */
  function SwizzleArgb(src: seq<byte>): (r: Result<seq<byte>>)
    ensures r.Success? <==> |src| % 4 == 0
    ensures r.Failure? ==> r.error == TruncatedStream
    ensures r.Success? ==> |r.value| == |src|
    decreases |src|
  {
    if src == [] then Success([])
    else if |src| < 4 then Failure(TruncatedStream)
    else Prepend([src[2], src[1], src[0], src[3]], SwizzleArgb(src[4..]))
  }

  /** Pixel p of the output is pixel p of the source with bytes 0 and 2 swapped. */
  lemma {:induction false} SwizzleArgbPixel(src: seq<byte>, p: nat)
    requires SwizzleArgb(src).Success? && 4 * p + 4 <= |src|
    ensures var r := SwizzleArgb(src).value;
      && r[4 * p] == src[4 * p + 2] && r[4 * p + 1] == src[4 * p + 1]
      && r[4 * p + 2] == src[4 * p] && r[4 * p + 3] == src[4 * p + 3]
    decreases p
  {
    if p > 0 {
      var rest := src[4..];
      SwizzleArgbPixel(rest, p - 1);
      assert SwizzleArgb(src).value == [src[2], src[1], src[0], src[3]] + SwizzleArgb(rest).value;
    }
  }

  /** Swizzling one more 4-byte group appends its swizzled bytes. */
  lemma {:induction false} SwizzleArgbSnoc(s: seq<byte>, w: seq<byte>)
    requires |s| % 4 == 0 && |w| == 4
    ensures SwizzleArgb(s + w) == Success(SwizzleArgb(s).value + [w[2], w[1], w[0], w[3]])
    decreases |s|
  {
    if s == [] {
      assert s + w == w && w[4..] == [];
      var tail := [w[2], w[1], w[0], w[3]];
      assert SwizzleArgb(w) == Prepend(tail, SwizzleArgb([]));
      assert SwizzleArgb(s).value + tail == tail + SwizzleArgb([]).value;
    } else {
      var head := [s[2], s[1], s[0], s[3]];
      assert (s + w)[4..] == s[4..] + w;
      SwizzleArgbSnoc(s[4..], w);
      assert SwizzleArgb(s + w) == Prepend(head, SwizzleArgb(s[4..] + w));
      assert SwizzleArgb(s) == Prepend(head, SwizzleArgb(s[4..]));
      var mid, tail := SwizzleArgb(s[4..]).value, [w[2], w[1], w[0], w[3]];
      assert head + (mid + tail) == (head + mid) + tail;
    }
  }

  /** The fallback: a width*height*4 buffer (a 32-bit int product) holding the
      source bytes that fit, then zeros. */
  function RawCopy(src: seq<byte>, width: int, height: int): (r: Result<seq<byte>>)
    ensures var n := WrapInt32(width * height * 4);
      && (r.Success? <==> n >= 0)
      && (r.Failure? ==> r.error == NegativeArraySize)
      && (r.Success? ==> && |r.value| == n
                         && (forall k :: 0 <= k < Min(|src|, n) ==> r.value[k] == src[k])
                         && (forall k :: Min(|src|, n) <= k < n ==> r.value[k] == 0))
  {
    var n := WrapInt32(width * height * 4);
    if n < 0 then Failure(NegativeArraySize)
    else Success(src[..Min(|src|, n)] + seq(n - Min(|src|, n), _ => 0))
  }

  /** ConvertTexture: the decoder the texture's format selects, over its
      source pixel data; every format without a decoder of its own is copied. */
  function Convert(tex: ProcessedTexture, lerp: Lerp): (r: Result<seq<byte>>)
    ensures var data := tex.sourcePixelData;
      && (tex.format == A8R8G8B8 ==> (r.Success? <==> |data| % 4 == 0))
      && (tex.format == DXT1 ==> (r.Success? <==> BlockCount(tex.width) * BlockCount(tex.height) * 8 <= |data|))
      && (tex.format in {DXT3, DXT5} ==>
            (r.Success? <==> BlockCount(tex.width) * BlockCount(tex.height) * 16 <= |data|))
      && (tex.format !in {A8R8G8B8, DXT1, DXT3, DXT5} ==>
            (r.Success? <==> WrapInt32(tex.width * tex.height * 4) >= 0))
    ensures var data := tex.sourcePixelData;
      && (tex.format == A8R8G8B8 ==> r == SwizzleArgb(data))
      && (tex.format == DXT1 ==> r == DecodeDxt(Dxt1, data, tex.width, tex.height, lerp))
      && (tex.format == DXT3 ==> r == DecodeDxt(Dxt3, data, tex.width, tex.height, lerp))
      && (tex.format == DXT5 ==> r == DecodeDxt(Dxt5, data, tex.width, tex.height, lerp))
      && (tex.format !in {A8R8G8B8, DXT1, DXT3, DXT5} ==> r == RawCopy(data, tex.width, tex.height))
  {
    var data := tex.sourcePixelData;
    match tex.format
    case A8R8G8B8 => SwizzleArgb(data)
    case DXT1 => DecodeDxt(Dxt1, data, tex.width, tex.height, lerp)
    case DXT3 => DecodeDxt(Dxt3, data, tex.width, tex.height, lerp)
    case DXT5 => DecodeDxt(Dxt5, data, tex.width, tex.height, lerp)
    case _ => RawCopy(data, tex.width, tex.height)
  }
}
