/** What the codec's reference definitions promise: how the stream writes of
    the block decoders combine, that the program's 32-bit code word holds
    exactly the per-pixel selectors, and where every decoded pixel lands. */
module CodecFacts {
  import opened Results
  import opened LittleEndian
  import opened Streams
  import opened Codec

  // Painting.

  /** Write `w` covers byte `j` of the stream. */
  predicate Covers(w: Write, j: nat) {
    w.pos <= j < w.pos + 4
  }

  /** None of the writes `ws` covers byte `j`. */
  predicate Avoids(ws: seq<Write>, j: nat) {
    forall l :: 0 <= l < |ws| ==> !Covers(ws[l], j)
  }

  /** Writes made in two runs paint what the whole run paints. */
  lemma {:induction false} PaintConcat(buf: seq<byte>, a: seq<Write>, b: seq<Write>)
    ensures Paint(buf, a + b) == Paint(Paint(buf, a), b)
    decreases |b|
  {
    if b == [] {
      assert a + b == a;
    } else {
      var b' := b[..|b| - 1];
      assert (a + b)[..|a + b| - 1] == a + b';
      PaintConcat(buf, a, b');
    }
  }

  /** Decoding a block row writes its blocks' writes one after the other. */
  lemma {:induction false} PaintRowLog(blocks: (nat, nat) -> seq<Write>, yBlock: nat, x: nat, buf: seq<byte>)
    ensures PaintRow(blocks, yBlock, x, buf) == Paint(buf, RowLog(blocks, yBlock, x))
    decreases x
  {
    if x > 0 {
      PaintRowLog(blocks, yBlock, x - 1, buf);
      PaintConcat(buf, RowLog(blocks, yBlock, x - 1), blocks(x - 1, yBlock));
    }
  }

  /** Decoding the grid row by row into an empty stream is one run of every
      block's writes, in the order the nested block loops make them. */
  lemma {:induction false} PaintGridLog(blocks: (nat, nat) -> seq<Write>, xBlocks: nat, y: nat)
    ensures PaintGrid(blocks, xBlocks, y) == Paint([], GridLog(blocks, xBlocks, y))
    decreases y
  {
    if y > 0 {
      var last := y - 1;
      var before, row := GridLog(blocks, xBlocks, last), RowLog(blocks, last, xBlocks);
      var prefix := PaintGrid(blocks, xBlocks, last);
      assert PaintGrid(blocks, xBlocks, y) == PaintRow(blocks, last, xBlocks, prefix);
      assert GridLog(blocks, xBlocks, y) == before + row;
      PaintGridLog(blocks, xBlocks, last);
      PaintRowLog(blocks, last, xBlocks, prefix);
      PaintConcat([], before, row);
    }
  }

  /** No write beyond `bound` leaves the stream no longer than `bound`. */
  lemma {:induction false} PaintBounded(buf: seq<byte>, ws: seq<Write>, bound: nat)
    requires |buf| <= bound
    requires forall l :: 0 <= l < |ws| ==> ws[l].pos + 4 <= bound
    ensures |Paint(buf, ws)| <= bound
    decreases |ws|
  {
    if ws != [] {
      PaintBounded(buf, ws[..|ws| - 1], bound);
    }
  }

  /** Writes that avoid byte `j` leave it as it was. */
  lemma {:induction false} PaintAvoiding(buf: seq<byte>, ws: seq<Write>, j: nat)
    requires j < |buf| && Avoids(ws, j)
    ensures j < |Paint(buf, ws)| && Paint(buf, ws)[j] == buf[j]
    decreases |ws|
  {
    if ws != [] {
      PaintAvoiding(buf, ws[..|ws| - 1], j);
    }
  }

  /** The last write that covers byte `j` decides it. */
  lemma PaintLastWrite(buf: seq<byte>, ws: seq<Write>, n: nat, j: nat)
    requires n < |ws| && Covers(ws[n], j) && Avoids(ws[n + 1..], j)
    ensures var out := Paint(buf, ws);
      j < |out| && out[j] == LeBytes32(ws[n].pixel)[j - ws[n].pos]
  {
    var before := ws[..n];
    assert ws[..n + 1] == before + [ws[n]];
    assert ws == ws[..n + 1] + ws[n + 1..];
    PaintConcat(buf, ws[..n + 1], ws[n + 1..]);
    PaintAvoiding(Paint(buf, ws[..n + 1]), ws[n + 1..], j);
  }

  lemma AvoidsConcat(a: seq<Write>, b: seq<Write>, j: nat)
    requires Avoids(a, j) && Avoids(b, j)
    ensures Avoids(a + b, j)
  {
    forall l | 0 <= l < |a + b|
      ensures !Covers((a + b)[l], j)
    {
      if l >= |a| {
        assert (a + b)[l] == b[l - |a|];
      }
    }
  }

  // Selectors.

  function Pow4(n: nat): (r: nat)
    ensures r >= 1
  {
    if n == 0 then 1 else 4 * Pow4(n - 1)
  }

  /** The base-4 digits of lo + 4^m * hi are the m digits of lo, then those of hi. */
  lemma {:induction false} DigitsSplit(x: nat, lo: nat, hi: nat, m: nat, n: nat)
    requires lo < Pow4(m) && x == lo + Pow4(m) * hi
    ensures Digits(x, 4, m + n) == Digits(lo, 4, m) + Digits(hi, 4, n)
  {
    if m == 0 {
      assert Digits(lo, 4, 0) == [];
    } else {
      QuarterStep(x, lo, hi, m);
      DigitsSplit(x / 4, lo / 4, hi, m - 1, n);
      assert Digits(x, 4, m + n) == [x % 4] + Digits(x / 4, 4, m - 1 + n);
      assert Digits(lo, 4, m) == [lo % 4] + Digits(lo / 4, 4, m - 1);
    }
  }

  lemma QuarterStep(x: nat, lo: nat, hi: nat, m: nat)
    requires m > 0 && lo < Pow4(m) && x == lo + Pow4(m) * hi
    ensures lo / 4 < Pow4(m - 1)
    ensures x % 4 == lo % 4
    ensures x / 4 == lo / 4 + Pow4(m - 1) * hi
  {
    var q := Pow4(m - 1) * hi;
    assert Pow4(m) * hi == 4 * q;
  }

  /** The code word's 2-bit digits, lowest first, are the selectors in the order
      the colour loop consumes them: pass k reads row k ^ 1, columns 0 to 3. */
  lemma CodeWordSelectors(cb: seq<byte>)
    requires |cb| == 8
    ensures forall n :: 0 <= n < 16 ==>
      Digits(CodeWord(cb), 4, 16)[n] == Selector(cb, n % 4, PassRow(n / 4))
  {
    var d := Digits(CodeWord(cb), 4, 16);
    CodeWordBytes(cb);
    forall n | 0 <= n < 16
      ensures d[n] == Selector(cb, n % 4, PassRow(n / 4))
    {
      var k := n / 4;
      assert d[4 * k..4 * k + 4] == Digits(cb[4 + PassRow(k)] as nat, 4, 4);
      assert d[n] == d[4 * k..4 * k + 4][n % 4];
    }
  }

  /** The code word's digits are those of code bytes 1, 0, 3 and 2, in turn. */
  lemma CodeWordBytes(cb: seq<byte>)
    requires |cb| == 8
    ensures var d := Digits(CodeWord(cb), 4, 16);
      && d[0..4] == Digits(cb[5] as nat, 4, 4) && d[4..8] == Digits(cb[4] as nat, 4, 4)
      && d[8..12] == Digits(cb[7] as nat, 4, 4) && d[12..16] == Digits(cb[6] as nat, 4, 4)
  {
    var b4, b5, b6, b7 := cb[4] as nat, cb[5] as nat, cb[6] as nat, cb[7] as nat;
    var t2 := b7 + 0x100 * b6;
    var t1 := b4 + 0x100 * t2;
    var t0 := b5 + 0x100 * t1;
    var d5, d4, d7, d6 := Digits(b5, 4, 4), Digits(b4, 4, 4), Digits(b7, 4, 4), Digits(b6, 4, 4);
    assert CodeWord(cb) == t0;
    DigitsByteSplit(t2, b7, b6, 4);
    DigitsByteSplit(t1, b4, t2, 8);
    DigitsByteSplit(t0, b5, t1, 12);
    Quarters(d5, d4, d7, d6);
  }

  lemma Quarters(a: seq<nat>, b: seq<nat>, c: seq<nat>, e: seq<nat>)
    requires |a| == 4 && |b| == 4 && |c| == 4 && |e| == 4
    ensures var d := a + (b + (c + e));
      d[0..4] == a && d[4..8] == b && d[8..12] == c && d[12..16] == e
  {
    var d := a + (b + (c + e));
    assert d[4..16] == b + (c + e);
    assert d[8..16] == c + e;
  }

  /** The base-4 digits of lo + 256 * hi: the four of the byte lo, then those of hi. */
  lemma DigitsByteSplit(x: nat, lo: nat, hi: nat, n: nat)
    requires lo < 0x100 && x == lo + 0x100 * hi
    ensures Digits(x, 4, 4 + n) == Digits(lo, 4, 4) + Digits(hi, 4, n)
  {
    assert Pow4(4) == 0x100;
    DigitsSplit(x, lo, hi, 4, n);
  }

  // Bit positions.

  lemma Pow2Add(a: nat, b: nat)
    ensures Pow2(a + b) == Pow2(a) * Pow2(b)
    decreases a
  {
    if a > 0 {
      Pow2Add(a - 1, b);
    }
  }

  /** Dividing by a and then by b is dividing by a * b. */
  lemma DivDiv(x: nat, a: nat, b: nat)
    requires a > 0 && b > 0
    ensures x / a / b == x / (a * b)
  {
    var q, r1, r2 := x / a / b, x % a, x / a % b;
    assert x == a * (x / a) + r1;
    assert x / a == b * q + r2;
    assert x == (a * b) * q + (a * r2 + r1) by {
      assert a * (b * q + r2) == (a * b) * q + a * r2;
    }
    MulMonotone(a, r2, b - 1);
    assert a * (b - 1) == a * b - a;
    DivUnique(x, a * b, q, a * r2 + r1);
  }

  lemma DivUnique(x: nat, d: nat, q: nat, r: nat)
    requires d > 0 && r < d && x == d * q + r
    ensures x / d == q
  {
    var q' := x / d;
    if q' < q {
      MulStep(d, q');
      MulMonotone(d, q' + 1, q);
    } else if q < q' {
      MulStep(d, q);
      MulMonotone(d, q + 1, q');
    }
  }

  lemma MulStep(d: nat, q: nat)
    ensures d * (q + 1) == d * q + d
  {
  }

  function Power(base: nat, n: nat): (r: nat)
    requires base >= 1
    ensures r >= 1
  {
    if n == 0 then 1 else base * Power(base, n - 1)
  }

  /** Digit n of x in base `base` is x / base^n % base. */
  lemma {:induction false} DigitPower(x: nat, base: nat, count: nat, n: nat)
    requires base >= 2 && n < count
    ensures Digits(x, base, count)[n] == x / Power(base, n) % base
    decreases n
  {
    if n > 0 {
      DigitPower(x / base, base, count - 1, n - 1);
      DivDiv(x, base, Power(base, n - 1));
    }
  }

  /** Shifting right by k * n bits is dividing by (2^k)^n. */
  lemma {:induction false} Pow2Power(k: nat, n: nat)
    ensures Pow2(k * n) == Power(Pow2(k), n)
    decreases n
  {
    if n > 0 {
      Pow2Power(k, n - 1);
      MulSucc(k, n);
      Pow2Add(k, k * (n - 1));
    }
  }

  lemma MulSucc(k: nat, n: nat)
    requires n > 0
    ensures k * n == k + k * (n - 1)
  {
  }

  /** Digit n of x in base 2^k is what `(x >> k * n) & (2^k - 1)` extracts. */
  lemma DigitBits(x: nat, k: nat, count: nat, n: nat)
    requires k > 0 && n < count
    ensures Pow2(k) >= 2
    ensures Digits(x, Pow2(k), count)[n] == x / Pow2(k * n) % Pow2(k)
  {
    Pow2Add(1, k - 1);
    DigitPower(x, Pow2(k), count, n);
    Pow2Power(k, n);
  }

  /** DXT3: the alpha in column `col`, row `row` is 17 times nibble number
      4 * row + col of the little-endian 64-bit word. */
  lemma PackedAlphaBits(ab: seq<byte>, col: nat, row: nat)
    requires |ab| == 8 && col < 4 && row < 4
    ensures PackedAlpha(ab)[4 * row + col] as int == 17 * (U64At(ab, 0) / Pow2(4 * (4 * row + col)) % 16)
  {
    DigitBits(U64At(ab, 0), 4, 16, 4 * row + col);
  }

  /** DXT5: the alpha in column `col`, row `row` is what 3-bit index number
      4 * row + col of the 48-bit field stands for, between first0 (byte 0)
      and first1 (byte 1). */
  lemma InterpolatedAlphaBits(ab: seq<byte>, col: nat, row: nat, lerp: Lerp)
    requires |ab| == 8 && col < 4 && row < 4
    ensures InterpolatedAlpha(ab, lerp)[4 * row + col]
         == AlphaOfIndex(ab[0], ab[1], IndexField(ab) / Pow2(3 * (4 * row + col)) % 8, lerp)
  {
    DigitBits(IndexField(ab), 3, 16, 4 * row + col);
  }

  /** first0 and first1 are the low and the high byte of the block's first
      little-endian 16-bit word. */
  lemma AlphaEndpoints(ab: seq<byte>)
    requires |ab| == 8
    ensures ab[0] as int == U16At(ab, 0) % 0x100 && ab[1] as int == U16At(ab, 0) / 0x100
  {
  }

  // Pixels.

  /** Without an alpha block (DXT1) every pixel is opaque, except the
      transparent black of selector 3 when color0 <= color1. */
  lemma Dxt1Alpha(cb: seq<byte>, col: nat, row: nat, lerp: Lerp)
    requires |cb| == 8 && col < 4 && row < 4
    ensures var transparent := U16At(cb, 0) <= U16At(cb, 2) && Selector(cb, col, row) == 3;
      LeBytes32(Texel(cb, None, col, row, lerp))[3] == if transparent then 0 else 255
  {
  }

  /** With an alpha block (DXT3, DXT5) every pixel carries its entry of the
      block, except the transparent black of selector 3 when color0 <= color1. */
  lemma BlockAlphaKept(cb: seq<byte>, alpha: seq<byte>, col: nat, row: nat, lerp: Lerp)
    requires |cb| == 8 && |alpha| == 16 && col < 4 && row < 4
    ensures var transparent := U16At(cb, 0) <= U16At(cb, 2) && Selector(cb, col, row) == 3;
      LeBytes32(Texel(cb, Some(alpha), col, row, lerp))[3] == if transparent then 0 else alpha[4 * row + col]
  {
  }

  // The block grid.

  lemma {:induction false} MulMonotone(w: nat, a: nat, b: nat)
    requires a <= b
    ensures w * a <= w * b
    decreases b - a
  {
    if a < b {
      MulMonotone(w, a, b - 1);
      assert w * b == w * (b - 1) + w;
    }
  }

  /** Every block of the grid ends no later than the grid's last block. */
  lemma BlockInGrid(kind: DxtKind, xBlocks: nat, yBlocks: nat, x: nat, y: nat)
    requires x < xBlocks && y < yBlocks
    ensures BlockStart(kind, xBlocks, x, y) + BlockBytes(kind) <= BlockStart(kind, xBlocks, 0, yBlocks)
  {
    MulMonotone(xBlocks, y + 1, yBlocks);
    assert xBlocks * (y + 1) == y * xBlocks + xBlocks;
    var i := y * xBlocks + x;
    MulMonotone(BlockBytes(kind), i + 1, yBlocks * xBlocks);
    assert BlockBytes(kind) * (i + 1) == i * BlockBytes(kind) + BlockBytes(kind);
  }

  /** Later block rows start later. */
  lemma RowStartMonotone(kind: DxtKind, xBlocks: nat, y: nat, y': nat)
    requires y <= y'
    ensures BlockStart(kind, xBlocks, 0, y) <= BlockStart(kind, xBlocks, 0, y')
  {
    MulMonotone(xBlocks, y, y');
    assert y * xBlocks <= y' * xBlocks;
    MulMonotone(BlockBytes(kind), y * xBlocks, y' * xBlocks);
  }

  /** Row-major positions are unique: a row and a column below `w` give one index. */
  lemma RowMajorUnique(w: nat, y: nat, x: nat, y': nat, x': nat)
    requires x < w && x' < w && w * y + x == w * y' + x'
    ensures y == y' && x == x'
  {
    if y < y' {
      MulMonotone(w, y + 1, y');
    } else if y' < y {
      MulMonotone(w, y' + 1, y);
    }
  }

  /** Byte `j` lies in the image pixel that pixel (col, row) of block
      (xBlock, yBlock) stands for. */
  predicate InPixel(width: nat, xBlock: nat, yBlock: nat, col: nat, row: nat, j: nat) {
    PixelOffset(width, xBlock, yBlock, col, row) <= j < PixelOffset(width, xBlock, yBlock, col, row) + 4
  }

  /** When the width is a multiple of 4, a write of one block pixel covers no
      byte of any other block pixel. */
  lemma WriteInPixel(xBlocks: nat, xBlock: nat, yBlock: nat, col: nat, row: nat, pixel: uint32,
                     px: nat, py: nat, c: nat, r: nat, j: nat)
    requires xBlock < xBlocks && col < 4 && row < 4 && px < xBlocks && c < 4 && r < 4
    requires InPixel(4 * xBlocks, px, py, c, r, j)
    ensures Covers(Write(PixelOffset(4 * xBlocks, xBlock, yBlock, col, row), pixel), j) <==>
      xBlock == px && yBlock == py && col == c && row == r
  {
    var w := 4 * xBlocks;
    var y', x' := 4 * yBlock + row, 4 * xBlock + col;
    var y, x := 4 * py + r, 4 * px + c;
    PixelOffsetIs(w, xBlock, yBlock, col, row);
    PixelOffsetIs(w, px, py, c, r);
    if Covers(Write(PixelOffset(w, xBlock, yBlock, col, row), pixel), j) {
      SameQuad(w * y' + x', w * y + x, j);
      RowMajorUnique(w, y, x, y', x');
    }
  }

  lemma PixelOffsetIs(width: nat, xBlock: nat, yBlock: nat, col: nat, row: nat)
    ensures PixelOffset(width, xBlock, yBlock, col, row) == 4 * (width * (4 * yBlock + row) + (4 * xBlock + col))
  {
  }

  /** Two aligned 4-byte spans that share a byte are the same span. */
  lemma SameQuad(a: nat, b: nat, j: nat)
    requires 4 * a <= j < 4 * a + 4 && 4 * b <= j < 4 * b + 4
    ensures a == b
  {
  }

  /** The write number of pixel (col, row) within its block's sixteen. */
  function WriteIndex(col: nat, row: nat): (n: nat)
    requires col < 4 && row < 4
    ensures n < 16 && n % 4 == col && PassRow(n / 4) == row
  {
    4 * PassRow(row) + col
  }

  /** The writes of every block sit where the colour loop puts them: sixteen
      per block, write n of block (x, y) at pixel (n % 4, PassRow(n / 4)). */
  ghost predicate BlockLayout(blocks: (nat, nat) -> seq<Write>, width: nat) {
    forall x: nat, y: nat :: |blocks(x, y)| == 16 &&
      forall l :: 0 <= l < 16 ==> blocks(x, y)[l].pos == PixelOffset(width, x, y, l % 4, PassRow(l / 4))
  }

  lemma GridBlocksLayout(kind: DxtKind, src: seq<byte>, xBlocks: nat, lerp: Lerp)
    ensures BlockLayout(GridBlocks(kind, src, 4 * xBlocks, xBlocks, lerp), 4 * xBlocks)
  {
  }

  /** Write n of block (px, py) of the grid carries that block's texel. */
  lemma GridBlocksTexel(kind: DxtKind, src: seq<byte>, xBlocks: nat, lerp: Lerp, px: nat, py: nat, c: nat, r: nat)
    requires c < 4 && r < 4
    ensures var ws := GridBlocks(kind, src, 4 * xBlocks, xBlocks, lerp)(px, py);
      |ws| == 16 && LeBytes32(ws[WriteIndex(c, r)].pixel) == TexelBytes(kind, src, xBlocks, px, py, c, r, lerp)
  {
  }

  /** Every write of a block other than (px, py) avoids the block's pixels. */
  lemma OtherBlockAvoids(blocks: (nat, nat) -> seq<Write>, xBlocks: nat, xBlock: nat, yBlock: nat,
                         px: nat, py: nat, c: nat, r: nat, j: nat)
    requires BlockLayout(blocks, 4 * xBlocks)
    requires xBlock < xBlocks && px < xBlocks && c < 4 && r < 4 && InPixel(4 * xBlocks, px, py, c, r, j)
    requires xBlock != px || yBlock != py
    ensures Avoids(blocks(xBlock, yBlock), j)
  {
    var ws := blocks(xBlock, yBlock);
    forall l | 0 <= l < |ws|
      ensures !Covers(ws[l], j)
    {
      WriteInPixel(xBlocks, xBlock, yBlock, l % 4, PassRow(l / 4), ws[l].pixel, px, py, c, r, j);
    }
  }

  /** Block (px, py) writes pixel (c, r) as its write WriteIndex(c, r), and
      none of its later writes touches it. */
  lemma OwnBlockWrites(blocks: (nat, nat) -> seq<Write>, xBlocks: nat, px: nat, py: nat, c: nat, r: nat, j: nat)
    requires BlockLayout(blocks, 4 * xBlocks)
    requires px < xBlocks && c < 4 && r < 4 && InPixel(4 * xBlocks, px, py, c, r, j)
    ensures var ws := blocks(px, py);
      var n := WriteIndex(c, r);
      && |ws| == 16
      && ws[n].pos == PixelOffset(4 * xBlocks, px, py, c, r)
      && Covers(ws[n], j) && Avoids(ws[n + 1..], j)
  {
    var ws := blocks(px, py);
    var n := WriteIndex(c, r);
    var after := ws[n + 1..];
    forall l | 0 <= l < |after|
      ensures !Covers(after[l], j)
    {
      var m := n + 1 + l;
      assert after[l] == ws[m];
      WriteInPixel(xBlocks, px, py, m % 4, PassRow(m / 4), ws[m].pixel, px, py, c, r, j);
    }
  }

  /** The texel of pixel (c, r) of block (px, py), as four bytes. */
  function TexelBytes(kind: DxtKind, src: seq<byte>, xBlocks: nat, px: nat, py: nat, c: nat, r: nat, lerp: Lerp): seq<byte>
    requires c < 4 && r < 4
  {
    LeBytes32(BlockTexel(kind, src, xBlocks, px, py, c, r, lerp))
  }

  /** A block row whose blocks all avoid byte `j` leaves it as it was. */
  lemma {:induction false} RowKeeps(blocks: (nat, nat) -> seq<Write>, yBlock: nat, xs: nat, buf: seq<byte>, j: nat)
    requires j < |buf|
    requires forall x :: 0 <= x < xs ==> Avoids(blocks(x, yBlock), j)
    ensures var out := PaintRow(blocks, yBlock, xs, buf);
      j < |out| && out[j] == buf[j]
    decreases xs
  {
    if xs > 0 {
      RowKeeps(blocks, yBlock, xs - 1, buf, j);
      PaintAvoiding(PaintRow(blocks, yBlock, xs - 1, buf), blocks(xs - 1, yBlock), j);
    }
  }

  /** Within the first `xs` blocks of a block row, write `n` of block `px`
      decides byte `j` when no later write of the row covers it. */
  lemma {:induction false} RowLastWrite(blocks: (nat, nat) -> seq<Write>, yBlock: nat, xs: nat, buf: seq<byte>,
                                        px: nat, n: nat, j: nat)
    requires px < xs && n < |blocks(px, yBlock)|
    requires Covers(blocks(px, yBlock)[n], j) && Avoids(blocks(px, yBlock)[n + 1..], j)
    requires forall x :: px < x < xs ==> Avoids(blocks(x, yBlock), j)
    ensures var w := blocks(px, yBlock)[n];
      var out := PaintRow(blocks, yBlock, xs, buf);
      j < |out| && out[j] == LeBytes32(w.pixel)[j - w.pos]
    decreases xs
  {
    var prefix := PaintRow(blocks, yBlock, xs - 1, buf);
    if xs - 1 == px {
      PaintLastWrite(prefix, blocks(px, yBlock), n, j);
    } else {
      RowLastWrite(blocks, yBlock, xs - 1, buf, px, n, j);
      PaintAvoiding(prefix, blocks(xs - 1, yBlock), j);
    }
  }

  /** Within the first `ys` block rows, write `n` of block (px, py) decides
      byte `j` when no later write of the grid covers it. */
  lemma {:induction false} GridLastWrite(blocks: (nat, nat) -> seq<Write>, xBlocks: nat, ys: nat, px: nat, py: nat, n: nat, j: nat)
    requires px < xBlocks && py < ys && n < |blocks(px, py)|
    requires Covers(blocks(px, py)[n], j) && Avoids(blocks(px, py)[n + 1..], j)
    requires forall x, y :: py <= y < ys && 0 <= x < xBlocks && (y > py || x > px) ==> Avoids(blocks(x, y), j)
    ensures var w := blocks(px, py)[n];
      var out := PaintGrid(blocks, xBlocks, ys);
      j < |out| && out[j] == LeBytes32(w.pixel)[j - w.pos]
    decreases ys
  {
    var prefix := PaintGrid(blocks, xBlocks, ys - 1);
    assert PaintGrid(blocks, xBlocks, ys) == PaintRow(blocks, ys - 1, xBlocks, prefix);
    if ys - 1 == py {
      forall x | px < x < xBlocks ensures Avoids(blocks(x, py), j) { }
      RowLastWrite(blocks, py, xBlocks, prefix, px, n, j);
    } else {
      forall x, y | py <= y < ys - 1 && 0 <= x < xBlocks && (y > py || x > px)
        ensures Avoids(blocks(x, y), j)
      { }
      GridLastWrite(blocks, xBlocks, ys - 1, px, py, n, j);
      var last := ys - 1;
      forall x | 0 <= x < xBlocks ensures Avoids(blocks(x, last), j) { }
      RowKeeps(blocks, last, xBlocks, prefix, j);
    }
  }

  lemma LaterBlocksAvoid(blocks: (nat, nat) -> seq<Write>, xBlocks: nat, ys: nat, px: nat, py: nat, c: nat, r: nat, j: nat)
    requires BlockLayout(blocks, 4 * xBlocks)
    requires px < xBlocks && c < 4 && r < 4 && InPixel(4 * xBlocks, px, py, c, r, j)
    ensures forall x, y :: py <= y < ys && 0 <= x < xBlocks && (y > py || x > px) ==> Avoids(blocks(x, y), j)
  {
    forall x, y | py <= y < ys && 0 <= x < xBlocks && (y > py || x > px)
      ensures Avoids(blocks(x, y), j)
    {
      OtherBlockAvoids(blocks, xBlocks, x, y, px, py, c, r, j);
    }
  }

  /** When the width is a multiple of 4, byte `j` of pixel (c, r) of block
      (px, py) ends up holding what that block's write of the pixel wrote. */
  lemma GridPaintsPixel(blocks: (nat, nat) -> seq<Write>, xBlocks: nat, ys: nat, px: nat, py: nat, c: nat, r: nat, j: nat)
    requires BlockLayout(blocks, 4 * xBlocks)
    requires px < xBlocks && py < ys && c < 4 && r < 4 && InPixel(4 * xBlocks, px, py, c, r, j)
    ensures |blocks(px, py)| == 16
    ensures var out := PaintGrid(blocks, xBlocks, ys);
      && j < |out|
      && out[j] == LeBytes32(blocks(px, py)[WriteIndex(c, r)].pixel)[j - PixelOffset(4 * xBlocks, px, py, c, r)]
  {
    OwnBlockWrites(blocks, xBlocks, px, py, c, r, j);
    LaterBlocksAvoid(blocks, xBlocks, ys, px, py, c, r, j);
    GridLastWrite(blocks, xBlocks, ys, px, py, WriteIndex(c, r), j);
  }

  /** A row of blocks whose writes all end by `bound` leaves a stream that
      ended by `bound` ending by it. */
  lemma {:induction false} RowBounded(blocks: (nat, nat) -> seq<Write>, yBlock: nat, xs: nat, buf: seq<byte>, bound: nat)
    requires |buf| <= bound
    requires forall x, l :: 0 <= x < xs && 0 <= l < |blocks(x, yBlock)| ==> blocks(x, yBlock)[l].pos + 4 <= bound
    ensures |PaintRow(blocks, yBlock, xs, buf)| <= bound
    decreases xs
  {
    if xs > 0 {
      RowBounded(blocks, yBlock, xs - 1, buf, bound);
      PaintBounded(PaintRow(blocks, yBlock, xs - 1, buf), blocks(xs - 1, yBlock), bound);
    }
  }

  lemma {:induction false} GridBounded(blocks: (nat, nat) -> seq<Write>, xBlocks: nat, ys: nat, bound: nat)
    requires forall x, y, l :: 0 <= x < xBlocks && 0 <= y < ys && 0 <= l < |blocks(x, y)| ==> blocks(x, y)[l].pos + 4 <= bound
    ensures |PaintGrid(blocks, xBlocks, ys)| <= bound
    decreases ys
  {
    if ys > 0 {
      GridBounded(blocks, xBlocks, ys - 1, bound);
      RowBounded(blocks, ys - 1, xBlocks, PaintGrid(blocks, xBlocks, ys - 1), bound);
    }
  }

  /** Every write of the first `ys` block rows ends within 4 * ys pixel rows. */
  lemma GridWritesEnd(blocks: (nat, nat) -> seq<Write>, xBlocks: nat, ys: nat)
    requires BlockLayout(blocks, 4 * xBlocks)
    ensures forall x, y, l :: 0 <= x < xBlocks && 0 <= y < ys && 0 <= l < |blocks(x, y)| ==>
      blocks(x, y)[l].pos + 4 <= 4 * (4 * xBlocks) * (4 * ys)
  {
    forall x, y, l | 0 <= x < xBlocks && 0 <= y < ys && 0 <= l < |blocks(x, y)|
      ensures blocks(x, y)[l].pos + 4 <= 4 * (4 * xBlocks) * (4 * ys)
    {
      OffsetWithin(4 * xBlocks, x, y, l % 4, PassRow(l / 4), ys);
    }
  }

  lemma OffsetWithin(w: nat, px: nat, py: nat, c: nat, r: nat, ys: nat)
    requires 4 * px + c < w && py < ys && r < 4
    ensures PixelOffset(w, px, py, c, r) + 4 <= 4 * w * (4 * ys)
  {
    var y, h := 4 * py + r, 4 * ys;
    PixelOffsetIs(w, px, py, c, r);
    MulMonotone(w, y + 1, h);
    assert w * (y + 1) == w * y + w;
    Times4(w, h);
  }

  lemma Times4(a: nat, b: nat)
    ensures 4 * a * b == 4 * (a * b)
  {
  }

  /** The first byte of pixel (x, y) of a 32-bit image `width` pixels wide. */
  function ImageOffset(width: nat, x: nat, y: nat): (p: nat)
    ensures p % 4 == 0
  {
    4 * (width * y + x)
  }

  lemma PixelInBlock(width: nat, x: nat, y: nat, b: nat)
    requires b < 4
    ensures InPixel(width, x / 4, y / 4, x % 4, y % 4, 4 * (width * y + x) + b)
    ensures PixelOffset(width, x / 4, y / 4, x % 4, y % 4) == 4 * (width * y + x)
  {
    PixelOffsetIs(width, x / 4, y / 4, x % 4, y % 4);
    assert 4 * (y / 4) + y % 4 == y && 4 * (x / 4) + x % 4 == x;
  }

  /** The 4 bytes of image pixel (x, y) are those block (x / 4, y / 4) wrote
      for it, and the stream ends with the last pixel. */
  lemma GridImage(blocks: (nat, nat) -> seq<Write>, xBlocks: nat, ys: nat, x: nat, y: nat)
    requires BlockLayout(blocks, 4 * xBlocks)
    requires x < 4 * xBlocks && y < 4 * ys
    ensures var out := PaintGrid(blocks, xBlocks, ys);
      var p := ImageOffset(4 * xBlocks, x, y);
      && |blocks(x / 4, y / 4)| == 16
      && p + 4 <= |out|
      && out[p..p + 4] == LeBytes32(blocks(x / 4, y / 4)[WriteIndex(x % 4, y % 4)].pixel)
  {
    var w := 4 * xBlocks;
    var out := PaintGrid(blocks, xBlocks, ys);
    var p := ImageOffset(w, x, y);
    var pixel := LeBytes32(blocks(x / 4, y / 4)[WriteIndex(x % 4, y % 4)].pixel);
    forall b | 0 <= b < 4
      ensures p + b < |out| && out[p + b] == pixel[b]
    {
      ImageByte(blocks, xBlocks, ys, x, y, b);
    }
    assert out[p..p + 4] == pixel;
  }

  /** Byte b of image pixel (x, y). */
  lemma ImageByte(blocks: (nat, nat) -> seq<Write>, xBlocks: nat, ys: nat, x: nat, y: nat, b: nat)
    requires BlockLayout(blocks, 4 * xBlocks)
    requires x < 4 * xBlocks && y < 4 * ys && b < 4
    ensures |blocks(x / 4, y / 4)| == 16
    ensures var out := PaintGrid(blocks, xBlocks, ys);
      var p := ImageOffset(4 * xBlocks, x, y);
      && p + b < |out|
      && out[p + b] == LeBytes32(blocks(x / 4, y / 4)[WriteIndex(x % 4, y % 4)].pixel)[b]
  {
    PixelInBlock(4 * xBlocks, x, y, b);
    GridPaintsPixel(blocks, xBlocks, ys, x / 4, y / 4, x % 4, y % 4, ImageOffset(4 * xBlocks, x, y) + b);
  }

  /** The stream after the whole grid holds 4 * width bytes per pixel row. */
  lemma GridLength(blocks: (nat, nat) -> seq<Write>, xBlocks: nat, ys: nat)
    requires BlockLayout(blocks, 4 * xBlocks) && xBlocks > 0
    ensures |PaintGrid(blocks, xBlocks, ys)| == 4 * (4 * xBlocks) * (4 * ys)
  {
    GridAtMost(blocks, xBlocks, ys);
    if ys > 0 {
      GridAtLeast(blocks, xBlocks, ys);
    }
  }

  lemma GridAtMost(blocks: (nat, nat) -> seq<Write>, xBlocks: nat, ys: nat)
    requires BlockLayout(blocks, 4 * xBlocks)
    ensures |PaintGrid(blocks, xBlocks, ys)| <= 4 * (4 * xBlocks) * (4 * ys)
  {
    GridWritesEnd(blocks, xBlocks, ys);
    GridBounded(blocks, xBlocks, ys, 4 * (4 * xBlocks) * (4 * ys));
  }

  lemma GridAtLeast(blocks: (nat, nat) -> seq<Write>, xBlocks: nat, ys: nat)
    requires BlockLayout(blocks, 4 * xBlocks) && xBlocks > 0 && ys > 0
    ensures |PaintGrid(blocks, xBlocks, ys)| >= 4 * (4 * xBlocks) * (4 * ys)
  {
    var j := PixelOffset(4 * xBlocks, xBlocks - 1, ys - 1, 3, 3) + 3;
    LastPixelEnd(xBlocks, ys);
    GridPaintsPixel(blocks, xBlocks, ys, xBlocks - 1, ys - 1, 3, 3, j);
  }

  /** The last pixel of the grid ends the image. */
  lemma LastPixelEnd(xBlocks: nat, ys: nat)
    requires xBlocks > 0 && ys > 0
    ensures PixelOffset(4 * xBlocks, xBlocks - 1, ys - 1, 3, 3) + 4 == 4 * (4 * xBlocks) * (4 * ys)
  {
    var w := 4 * xBlocks;
    assert w * ((ys - 1) * 4 + 3) == w * (4 * ys) - w;
  }

  /** On a width that is a multiple of 4 the decoded stream is the painted grid. */
  lemma DxtValue(kind: DxtKind, src: seq<byte>, width: int, height: int, lerp: Lerp)
    requires width > 0 && width % 4 == 0 && DecodeDxt(kind, src, width, height, lerp).Success?
    ensures DecodeDxt(kind, src, width, height, lerp).value
         == PaintGrid(GridBlocks(kind, src, width, width / 4, lerp), width / 4, BlockCount(height))
  {
    assert BlockCount(width) == width / 4;
  }

  /** FromDXT1, FromDXT3 and FromDXT5 on an image whose width is a multiple
      of 4: the output holds 4 * width bytes for each of the 4 * ceil(h/4)
      pixel rows. */
  lemma DxtImageLength(kind: DxtKind, src: seq<byte>, width: int, height: int, lerp: Lerp)
    requires width > 0 && width % 4 == 0 && DecodeDxt(kind, src, width, height, lerp).Success?
    ensures |DecodeDxt(kind, src, width, height, lerp).value| == 4 * width * (4 * BlockCount(height))
  {
    var xb, yb := width / 4, BlockCount(height);
    assert 4 * xb == width;
    var blocks := GridBlocks(kind, src, width, xb, lerp);
    DxtValue(kind, src, width, height, lerp);
    GridBlocksLayout(kind, src, xb, lerp);
    GridLength(blocks, xb, yb);
    assert |PaintGrid(blocks, xb, yb)| == 4 * width * (4 * yb);
  }

  /** FromDXT1, FromDXT3 and FromDXT5 on an image whose width is a multiple
      of 4: pixel (x, y) holds the texel of pixel (x % 4, y % 4) of block
      (x / 4, y / 4). */
  lemma DxtImagePixels(kind: DxtKind, src: seq<byte>, width: int, height: int, lerp: Lerp, x: nat, y: nat)
    requires width > 0 && width % 4 == 0 && DecodeDxt(kind, src, width, height, lerp).Success?
    requires x < width && y < 4 * BlockCount(height)
    ensures var out := DecodeDxt(kind, src, width, height, lerp).value;
      var p := ImageOffset(width, x, y);
      p + 4 <= |out| && out[p..p + 4] == TexelBytes(kind, src, width / 4, x / 4, y / 4, x % 4, y % 4, lerp)
  {
    var xb := width / 4;
    assert 4 * xb == width;
    var blocks := GridBlocks(kind, src, width, xb, lerp);
    var out := PaintGrid(blocks, xb, BlockCount(height));
    var p := ImageOffset(width, x, y);
    DxtValue(kind, src, width, height, lerp);
    GridBlocksLayout(kind, src, xb, lerp);
    GridImage(blocks, xb, BlockCount(height), x, y);
    assert p + 4 <= |out| && out[p..p + 4] == LeBytes32(blocks(x / 4, y / 4)[WriteIndex(x % 4, y % 4)].pixel);
    GridBlocksTexel(kind, src, xb, lerp, x / 4, y / 4, x % 4, y % 4);
  }

  // Images narrower than a block.

  /** The writes of the one block of a 2x2 image: write n paints column n % 4
      of row PassRow(n / 4) at 8 bytes per row. */
  lemma NarrowBlockLayout(kind: DxtKind, src: seq<byte>, lerp: Lerp)
    ensures var ws := GridBlocks(kind, src, 2, 1, lerp)(0, 0);
      |ws| == 16 && forall n :: 0 <= n < 16 ==> ws[n].pos == 8 * PassRow(n / 4) + 4 * (n % 4)
  {
    var block := BlockAt(kind, src, 1, 0, 0);
    var n := BlockBytes(kind);
    assert |block| == n && 8 <= n;
    var cb, alpha := block[n - 8..], BlockAlpha(kind, block, lerp);
    assert GridBlocks(kind, src, 2, 1, lerp)(0, 0) == BlockWrites(kind, src, 2, 1, 0, 0, lerp);
    assert BlockWrites(kind, src, 2, 1, 0, 0, lerp) == ColorBlockWrites(cb, alpha, 2, 0, 0, lerp);
    NarrowPositions(cb, alpha, lerp);
  }

  /** A colour block at the origin of a 2-pixel-wide image writes pixel
      (col, row) at byte 8 * row + 4 * col. */
  lemma NarrowPositions(cb: seq<byte>, alpha: Option<seq<byte>>, lerp: Lerp)
    requires |cb| == 8 && (alpha.Some? ==> |alpha.value| == 16)
    ensures var ws := ColorBlockWrites(cb, alpha, 2, 0, 0, lerp);
      forall n :: 0 <= n < 16 ==> ws[n].pos == 8 * PassRow(n / 4) + 4 * (n % 4)
  {
  }

  /** The grid of a 2x2 image is its one block, painted into an empty stream. */
  lemma NarrowGrid(kind: DxtKind, src: seq<byte>, lerp: Lerp)
    requires DecodeDxt(kind, src, 2, 2, lerp).Success?
    ensures DecodeDxt(kind, src, 2, 2, lerp).value == Paint([], GridBlocks(kind, src, 2, 1, lerp)(0, 0))
  {
    var blocks := GridBlocks(kind, src, 2, 1, lerp);
    assert BlockCount(2) == 1;
    assert PaintGrid(blocks, 1, 0) == [] && PaintRow(blocks, 0, 0, []) == [];
  }

  /** Sixteen writes laid out as in a 2x2 image reach byte 40 and no further. */
  lemma NarrowLength(ws: seq<Write>)
    requires |ws| == 16 && forall n :: 0 <= n < 16 ==> ws[n].pos == 8 * PassRow(n / 4) + 4 * (n % 4)
    ensures |Paint([], ws)| == 40
  {
    PaintLength([], ws);
    assert ws[11].pos + 4 == 40;
    forall l | 0 <= l < |ws| ensures ws[l].pos + 4 <= 40 {
      assert ws[l].pos == 8 * PassRow(l / 4) + 4 * (l % 4);
    }
    PaintBounded([], ws, 40);
  }

  /** Of such writes, write 6 (column 2 of row 0) decides bytes 8 to 11. */
  lemma NarrowPixel(ws: seq<Write>)
    requires |ws| == 16 && forall n :: 0 <= n < 16 ==> ws[n].pos == 8 * PassRow(n / 4) + 4 * (n % 4)
    ensures var out := Paint([], ws); 12 <= |out| && out[8..12] == LeBytes32(ws[6].pixel)
  {
    var out := Paint([], ws);
    PaintLength([], ws);
    assert ws[6].pos == 8;
    forall b | 8 <= b < 12
      ensures out[b] == LeBytes32(ws[6].pixel)[b - 8]
    {
      forall l | 0 <= l < 9 ensures !Covers(ws[7..][l], b) {
        assert ws[7..][l] == ws[7 + l];
        assert ws[7 + l].pos == 8 * PassRow((7 + l) / 4) + 4 * ((7 + l) % 4);
      }
      PaintLastWrite([], ws, 6, b);
    }
  }

  /** On an image 2 pixels wide, FromDXT1, FromDXT3 and FromDXT5 place columns
      2 and 3 of a block in the next pixel row: of a 2x2 texture, image pixel
      (0, 1), at byte 8 with a stride of 8, ends up holding the texel of
      column 2, row 0, written over the texel of column 0, row 1 (row 0 is
      painted after row 1); and the output runs to 40 bytes where the image
      has 16. */
  lemma NarrowImageSpills(kind: DxtKind, src: seq<byte>, lerp: Lerp)
    requires DecodeDxt(kind, src, 2, 2, lerp).Success?
    ensures var out := DecodeDxt(kind, src, 2, 2, lerp).value;
      && |out| == 40
      && out[8..12] == TexelBytes(kind, src, 1, 0, 0, 2, 0, lerp)
  {
    var ws := GridBlocks(kind, src, 2, 1, lerp)(0, 0);
    NarrowGrid(kind, src, lerp);
    NarrowBlockLayout(kind, src, lerp);
    NarrowLength(ws);
    NarrowPixel(ws);
    NarrowTexel(kind, src, lerp);
  }

  /** Write 6 of the block carries the texel of column 2, row 0. */
  lemma NarrowTexel(kind: DxtKind, src: seq<byte>, lerp: Lerp)
    ensures var ws := GridBlocks(kind, src, 2, 1, lerp)(0, 0);
      |ws| == 16 && ws[6].pixel == BlockTexel(kind, src, 1, 0, 0, 2, 0, lerp)
  {
    var block := BlockAt(kind, src, 1, 0, 0);
    var n := BlockBytes(kind);
    assert |block| == n && 8 <= n;
    var cb, alpha := block[n - 8..], BlockAlpha(kind, block, lerp);
    assert GridBlocks(kind, src, 2, 1, lerp)(0, 0) == BlockWrites(kind, src, 2, 1, 0, 0, lerp);
    assert BlockWrites(kind, src, 2, 1, 0, 0, lerp) == ColorBlockWrites(cb, alpha, 2, 0, 0, lerp);
    SixthWrite(cb, alpha, lerp);
  }

  /** Write 6 of a colour block is column 2 of row 0, the second pass's row. */
  lemma SixthWrite(cb: seq<byte>, alpha: Option<seq<byte>>, lerp: Lerp)
    requires |cb| == 8 && (alpha.Some? ==> |alpha.value| == 16)
    ensures ColorBlockWrites(cb, alpha, 2, 0, 0, lerp)[6].pixel == Texel(cb, alpha, 2, 0, lerp)
  {
    assert 6 / 4 == 1 && 6 % 4 == 2 && PassRow(1) == 0;
  }

  /** FromA8R8G8B8 on the bytes FF 10 20 30 FF 40 50 60: bytes 0 and 2 of
      each 4-byte group change places, and nothing else moves. */
  lemma SwizzleExample()
    ensures SwizzleArgb([0xFF, 0x10, 0x20, 0x30, 0xFF, 0x40, 0x50, 0x60])
         == Success([0x20, 0x10, 0xFF, 0x30, 0x50, 0x40, 0xFF, 0x60])
  {
    var s: seq<byte> := [0xFF, 0x10, 0x20, 0x30, 0xFF, 0x40, 0x50, 0x60];
    var t := s[4..];
    assert t == [0xFF, 0x40, 0x50, 0x60] && t[4..] == [];
    var h: seq<byte> := [t[2], t[1], t[0], t[3]];
    assert h == [0x50, 0x40, 0xFF, 0x60] && h + [] == h;
    assert SwizzleArgb(t) == Prepend(h, SwizzleArgb([]));
    var g: seq<byte> := [s[2], s[1], s[0], s[3]];
    assert g + h == [0x20, 0x10, 0xFF, 0x30, 0x50, 0x40, 0xFF, 0x60];
    assert SwizzleArgb(s) == Prepend(g, SwizzleArgb(t));
  }
}
