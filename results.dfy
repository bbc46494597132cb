/** Outcomes of the operations of the texture pack dumper.  Every exception the
    program can raise on its way through a file becomes a `Failure` carrying one
    of the error kinds below, so that no operation needs a precondition that
    excludes a malformed file. */
module Results {

  datatype Error =
    | UnknownChunkType(tag: nat)    // a chunk tag outside the eight known ones
    | UnknownPixelFormat(code: int) // a Texture chunk's format code outside 0..13
    | TruncatedStream               // a fixed-size read ran past the end of its stream
    | NegativeByteCount             // ReadBytes asked for a negative number of bytes
    | SeekBeforeBeginning           // a relative seek ended before byte 0
    | OutOfFuel                     // the parse read its bound of chunks and bytes remain
    | PairingCountMismatch          // fewer TextureData chunks than Texture chunks
    | PixelRangeOutOfBounds         // a copy of pixel bytes fell outside its source
    | NegativeArraySize             // a byte array of negative length was allocated

  datatype Result<T> = Success(value: T) | Failure(error: Error) {

    predicate IsFailure() {
      Failure?
    }

    function PropagateFailure<U>(): Result<U>
      requires Failure?
    {
      Failure(error)
    }

    function Extract(): T
      requires Success?
    {
      value
    }
  }

  datatype Option<T> = None | Some(value: T)

  /** `xs` in front of the list `rest` holds, or the failure. */
  function Prepend<T>(xs: seq<T>, rest: Result<seq<T>>): Result<seq<T>> {
    match rest
    case Success(tail) => Success(xs + tail)
    case Failure(e) => Failure(e)
  }

  /** Prepending nothing leaves the list or failure as it is. */
  lemma PrependNothing<T>(rest: Result<seq<T>>)
    ensures Prepend([], rest) == rest
  {
    if rest.Success? {
      assert [] + rest.value == rest.value;
    }
  }

  /** Two prepends are one prepend of the joined prefix. */
  lemma PrependTwice<T>(xs: seq<T>, ys: seq<T>, rest: Result<seq<T>>)
    ensures Prepend(xs, Prepend(ys, rest)) == Prepend(xs + ys, rest)
  {
    if rest.Success? {
      assert xs + (ys + rest.value) == (xs + ys) + rest.value;
    }
  }
}

/** Little-endian decoding of the fixed-width integers that BinaryReader reads,
    as the unsigned numbers their bytes spell and their two's complement values. */
module LittleEndian {

  /** An unsigned 8-bit value, as the program's byte arrays hold them. */
  newtype byte = b: int | 0 <= b < 0x100

  /** An unsigned 32-bit value. */
  newtype uint32 = v: int | 0 <= v < 0x1_0000_0000

  function U16At(s: seq<byte>, i: int): (r: nat)
    requires 0 <= i && i + 2 <= |s|
    ensures r < 0x1_0000
  {
    s[i] as int + 0x100 * s[i + 1] as int
  }

  function U32At(s: seq<byte>, i: int): (r: nat)
    requires 0 <= i && i + 4 <= |s|
    ensures r < 0x1_0000_0000
  {
    U16At(s, i) + 0x1_0000 * U16At(s, i + 2)
  }

  function U64At(s: seq<byte>, i: int): (r: nat)
    requires 0 <= i && i + 8 <= |s|
    ensures r < 0x1_0000_0000_0000_0000
  {
    U32At(s, i) + 0x1_0000_0000 * U32At(s, i + 4)
  }

  /** Two's complement reading of an unsigned `width`-bit number. */
  function Signed(u: nat, half: nat): (r: int)
    requires u < 2 * half
    ensures -(half as int) <= r < half
    ensures r == u || r == u - 2 * half
    ensures r >= 0 <==> u < half
  {
    if u < half then u else u - 2 * half
  }

  function I16At(s: seq<byte>, i: int): (r: int)
    requires 0 <= i && i + 2 <= |s|
    ensures -0x8000 <= r < 0x8000
  {
    Signed(U16At(s, i), 0x8000)
  }

  function I32At(s: seq<byte>, i: int): (r: int)
    requires 0 <= i && i + 4 <= |s|
    ensures -0x8000_0000 <= r < 0x8000_0000
  {
    Signed(U32At(s, i), 0x8000_0000)
  }

  function I64At(s: seq<byte>, i: int): (r: int)
    requires 0 <= i && i + 8 <= |s|
    ensures -0x8000_0000_0000_0000 <= r < 0x8000_0000_0000_0000
  {
    Signed(U64At(s, i), 0x8000_0000_0000_0000)
  }

  /** The value of an unchecked C# `int` computation whose exact result is `x`. */
  function WrapInt32(x: int): (r: int)
    ensures -0x8000_0000 <= r < 0x8000_0000
    ensures (r - x) % 0x1_0000_0000 == 0
    ensures -0x8000_0000 <= x < 0x8000_0000 ==> r == x
  {
    (x + 0x8000_0000) % 0x1_0000_0000 - 0x8000_0000
  }
}
