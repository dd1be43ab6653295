/**
 * The part of the Borsh binary format that the hello-world program uses:
 * an unsigned 32-bit integer is written as exactly four bytes, least
 * significant byte first, and `try_from_slice` decodes a value from a slice
 * only if decoding consumes the whole slice.
 */
module Borsh {
  import opened Wrappers

  newtype u8 = x: int | 0 <= x < 0x100
  newtype u32 = x: int | 0 <= x < 0x1_0000_0000

  /** Number of bytes Borsh uses for a `u32`. */
  const U32Size: nat := 4

  /** The two ways a Borsh read from a byte slice fails. */
  datatype BorshError =
    | UnexpectedLength   // the slice ran out before the value was complete
    | NotAllBytesRead    // `try_from_slice` found bytes left over after the value

  /** The value of four bytes read least significant first. */
  function LittleEndian(b0: u8, b1: u8, b2: u8, b3: u8): (v: u32)
    ensures v as int % 0x100 == b0 as int
    ensures v as int / 0x100_0000 == b3 as int
  {
    (b0 as int + 0x100 * b1 as int + 0x1_0000 * b2 as int + 0x100_0000 * b3 as int) as u32
  }

  /**
   * `u32::deserialize` on a slice: reads four bytes from the front and
   * returns the value together with the rest of the slice.
   */
  function ReadU32(s: seq<u8>): (r: Result<(u32, seq<u8>), BorshError>)
    ensures r.Success? <==> |s| >= U32Size
    ensures r.Failure? ==> r.error == UnexpectedLength
    ensures r.Success? ==> r.value.1 == s[U32Size..]
  {
    if |s| < U32Size then Failure(UnexpectedLength)
    else Success((LittleEndian(s[0], s[1], s[2], s[3]), s[U32Size..]))
  }

  /** `u32::try_from_slice`: decode a `u32` that must occupy the whole slice. */
  function U32FromSlice(s: seq<u8>): (r: Result<u32, BorshError>)
    ensures r.Success? <==> |s| == U32Size
    ensures r.Failure? ==> r.error == (if |s| < U32Size then UnexpectedLength else NotAllBytesRead)
  {
    var (v, rest) :- ReadU32(s);
    if rest != [] then Failure(NotAllBytesRead) else Success(v)
  }

  /** `u32::serialize`: the four little-endian bytes of `v`. */
  function EncodeU32(v: u32): (s: seq<u8>)
    ensures |s| == U32Size
  {
    var x0 := v as int;
    var x1 := x0 / 0x100;
    var x2 := x1 / 0x100;
    [(x0 % 0x100) as u8, (x1 % 0x100) as u8, (x2 % 0x100) as u8, (x2 / 0x100) as u8]
  }

  /** Reading back the bytes written for `v` gives `v`. */
  lemma DecodeEncodeU32(v: u32)
    ensures var s := EncodeU32(v); LittleEndian(s[0], s[1], s[2], s[3]) == v
  {
    var x0 := v as int;
    var x1 := x0 / 0x100;
    var x2 := x1 / 0x100;
    assert x0 == x0 % 0x100 + 0x100 * x1;
    assert x1 == x1 % 0x100 + 0x100 * x2;
    assert x2 == x2 % 0x100 + 0x100 * (x2 / 0x100);
  }

  /** Writing the value of four bytes gives back those bytes. */
  lemma EncodeDecodeU32(s: seq<u8>)
    requires |s| == U32Size
    ensures EncodeU32(LittleEndian(s[0], s[1], s[2], s[3])) == s
  {
    var b0, b1, b2, b3 := s[0] as int, s[1] as int, s[2] as int, s[3] as int;
    DivModByte(b0, b1 + 0x100 * b2 + 0x1_0000 * b3);
    DivModByte(b1, b2 + 0x100 * b3);
    DivModByte(b2, b3);
  }

  /** Dividing `r + 256 * q` by 256, for a byte `r`, splits it back into `q` and `r`. */
  lemma DivModByte(r: int, q: int)
    requires 0 <= r < 0x100
    ensures (r + 0x100 * q) / 0x100 == q && (r + 0x100 * q) % 0x100 == r
  {
  }

  /** Round trip for `u32`: `try_from_slice` of the serialization gives the value back. */
  lemma U32RoundTrip(v: u32)
    ensures U32FromSlice(EncodeU32(v)) == Success(v)
  {
    DecodeEncodeU32(v);
  }

  /** The other direction: a slice that decodes as a `u32` is the serialization of that value. */
  lemma U32FromSliceInverse(s: seq<u8>)
    requires U32FromSlice(s).Success?
    ensures EncodeU32(U32FromSlice(s).value) == s
  {
    EncodeDecodeU32(s);
  }
}
