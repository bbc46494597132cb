/** The two .NET streams the program works through: a BinaryReader over a byte
    stream (a FileStream for the pack files, a MemoryStream over a texture's
    source bytes for the codec), and a BinaryWriter over a growing MemoryStream
    that the codec writes its raster into. */
module Streams {
  import opened LittleEndian

  function Min(a: int, b: int): int {
    if a <= b then a else b
  }

  /** The four bytes BinaryWriter.Write(uint) emits for `v`, lowest first. */
  function LeBytes32(v: uint32): (r: seq<byte>)
    ensures |r| == 4
    ensures v as int == r[0] as int + 0x100 * r[1] as int + 0x1_0000 * r[2] as int + 0x100_0000 * r[3] as int
  {
    var x0 := v as int;
    var x1 := x0 / 0x100;
    var x2 := x1 / 0x100;
    var x3 := x2 / 0x100;
    [(x0 % 0x100) as byte, (x1 % 0x100) as byte, (x2 % 0x100) as byte, x3 as byte]
  }

  /** The contents of a MemoryStream of contents `buf` after `bytes` are written
      at position `pos`: a gap between the old end and `pos` reads as zeros, the
      written bytes replace what was there, and the stream grows when needed. */
  function WriteAt(buf: seq<byte>, pos: nat, bytes: seq<byte>): (r: seq<byte>)
    ensures |r| == if pos + |bytes| > |buf| then pos + |bytes| else |buf|
    ensures forall k :: 0 <= k < |r| ==>
      r[k] == if pos <= k < pos + |bytes| then bytes[k - pos] else if k < |buf| then buf[k] else 0
  {
    var padded := if pos <= |buf| then buf else buf + seq(pos - |buf|, _ => 0 as byte);
    padded[..pos] + bytes + (if pos + |bytes| <= |padded| then padded[pos + |bytes|..] else [])
  }

  /** One write of a 32-bit pixel into the output stream. */
  datatype Write = Write(pos: nat, pixel: uint32)

  /** The contents of a MemoryStream holding `buf` after the writes `ws`, in order. */
  function Paint(buf: seq<byte>, ws: seq<Write>): seq<byte>
    decreases |ws|
  {
    if ws == [] then buf
    else WriteAt(Paint(buf, ws[..|ws| - 1]), ws[|ws| - 1].pos, LeBytes32(ws[|ws| - 1].pixel))
  }

  /** Painting one more write. */
  lemma PaintSnoc(buf: seq<byte>, ws: seq<Write>, w: Write)
    ensures Paint(buf, ws + [w]) == WriteAt(Paint(buf, ws), w.pos, LeBytes32(w.pixel))
  {
    assert (ws + [w])[..|ws|] == ws;
  }

  /** The stream only grows, and it ends at or after every write. */
  lemma {:induction false} PaintLength(buf: seq<byte>, ws: seq<Write>)
    ensures |Paint(buf, ws)| >= |buf|
    ensures forall l :: 0 <= l < |ws| ==> ws[l].pos + 4 <= |Paint(buf, ws)|
    decreases |ws|
  {
    if ws != [] {
      PaintLength(buf, ws[..|ws| - 1]);
    }
  }

  /** A write at the end of the stream appends its bytes. */
  lemma WriteAtEnd(buf: seq<byte>, bytes: seq<byte>)
    ensures WriteAt(buf, |buf|, bytes) == buf + bytes
  {
    var r := WriteAt(buf, |buf|, bytes);
    assert forall k :: 0 <= k < |r| ==> r[k] == (buf + bytes)[k];
  }

  /** A BinaryReader over a seekable stream whose bytes are `data`.  Seeking past
      the end is allowed (later fixed-size reads then fail); seeking before the
      beginning fails. */
  class BinaryReader {
    const data: seq<byte>
    var position: nat

    constructor (data: seq<byte>)
      ensures this.data == data && position == 0
    {
      this.data := data;
      position := 0;
    }

    /** Stream.Position < Stream.Length */
    function HasMore(): (r: bool)
      reads this
      ensures r <==> position < |data|
    {
      position < |data|
    }

    method ReadUInt16() returns (ok: bool, v: nat)
      modifies this
      ensures ok <==> old(position) + 2 <= |data|
      ensures ok ==> v == U16At(data, old(position)) && position == old(position) + 2
    {
      ok := position + 2 <= |data|;
      if ok {
        v := data[position] as int + 0x100 * data[position + 1] as int;
        position := position + 2;
      } else {
        v := 0;
      }
    }

    method ReadUInt32() returns (ok: bool, v: nat)
      modifies this
      ensures ok <==> old(position) + 4 <= |data|
      ensures ok ==> v == U32At(data, old(position)) && position == old(position) + 4
    {
      ok := position + 4 <= |data|;
      if ok {
        var lo := data[position] as int + 0x100 * data[position + 1] as int;
        var hi := data[position + 2] as int + 0x100 * data[position + 3] as int;
        v := lo + 0x1_0000 * hi;
        position := position + 4;
      } else {
        v := 0;
      }
    }

    method ReadInt16() returns (ok: bool, v: int)
      modifies this
      ensures ok <==> old(position) + 2 <= |data|
      ensures ok ==> v == I16At(data, old(position)) && position == old(position) + 2
    {
      var u;
      ok, u := ReadUInt16();
      v := if ok then Signed(u, 0x8000) else 0;
    }

    method ReadInt32() returns (ok: bool, v: int)
      modifies this
      ensures ok <==> old(position) + 4 <= |data|
      ensures ok ==> v == I32At(data, old(position)) && position == old(position) + 4
    {
      var u;
      ok, u := ReadUInt32();
      v := if ok then Signed(u, 0x8000_0000) else 0;
    }

    method ReadInt64() returns (ok: bool, v: int)
      modifies this
      ensures ok <==> old(position) + 8 <= |data|
      ensures ok ==> v == I64At(data, old(position)) && position == old(position) + 8
    {
      ghost var start := position;
      var lo, hi;
      ok, lo := ReadUInt32();
      v := 0;
      if ok {
        ok, hi := ReadUInt32();
        if ok {
          assert lo + 0x1_0000_0000 * hi == U64At(data, start);
          v := Signed(lo + 0x1_0000_0000 * hi, 0x8000_0000_0000_0000);
        }
      }
    }

    /** BinaryReader.ReadBytes: at most `count` bytes, fewer at the end of the
        stream; a negative count fails. */
    method ReadBytes(count: int) returns (ok: bool, bytes: seq<byte>)
      modifies this
      ensures ok <==> count >= 0
      ensures ok ==> var from := Min(old(position), |data|);
                     bytes == data[from..Min(old(position) + count, |data|)]
                     && position == old(position) + |bytes|
    {
      ok := count >= 0;
      bytes := [];
      if ok {
        var from := Min(position, |data|);
        bytes := data[from..Min(position + count, |data|)];
        position := position + |bytes|;
      }
    }

    /** Stream.Seek(offset, SeekOrigin.Current). */
    method Seek(offset: int) returns (ok: bool)
      modifies this
      ensures ok <==> old(position) + offset >= 0
      ensures ok ==> position == old(position) + offset
    {
      ok := position + offset >= 0;
      if ok {
        position := position + offset;
      }
    }
  }

  /** A BinaryWriter over a MemoryStream that starts empty, kept as the
      sequence of the 32-bit writes made through it, each at the position the
      stream had when it was made.  Its bytes are those writes painted, in
      order, over the empty stream. */
  class MemoryStream {
    var writes: seq<Write>
    var position: nat

    constructor ()
      ensures writes == [] && position == 0
    {
      writes := [];
      position := 0;
    }

    /** MemoryStream.ToArray(). */
    function Contents(): seq<byte>
      reads this
    {
      Paint([], writes)
    }

    /** The position is just past the last pixel written. */
    predicate AfterLastWrite()
      reads this
    {
      writes != [] && position == writes[|writes| - 1].pos + 4
    }

    /** Setting Stream.Position; the contents are not touched. */
    method SetPosition(p: nat)
      modifies this
      ensures position == p && writes == old(writes)
    {
      position := p;
    }

    /** BinaryWriter.Write(uint): the four bytes of `v` at the current
        position, after which the position has moved past them. */
    method WriteUInt32(v: uint32)
      modifies this
      ensures writes == old(writes) + [Write(old(position), v)]
      ensures position == old(position) + 4
      ensures AfterLastWrite()
    {
      writes := writes + [Write(position, v)];
      position := position + 4;
    }
  }
}
