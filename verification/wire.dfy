/**
 * Shared vocabulary of the wire-format modules: bytes, the failure-carrying
 * wrappers, the errors the codecs and channels report, and the byte-slice
 * relations that stand in for Rust's borrowed sub-slices.
 */
module Wire {

  /** One octet of a datagram. */
  type byte = x: int | 0 <= x < 0x100

  datatype Option<+T> = None | Some(value: T)

  datatype Result<+T, +E> = Success(value: T) | Failure(error: E)

  /** The error values the core produces or passes through. */
  datatype Error =
    | InvalidSlice        // an ICMP message shorter than its 8-byte header
    | InvalidEcho         // an Echo body shorter than identifier + sequence
    | InvalidIpv4Header   // an IPv4 header that does not parse
    | EncodeFailed        // the probe could not be encoded

  /** `part` is what a borrowed tail `&whole[k..]` would be, for some k. */
  predicate IsSuffix(part: seq<byte>, whole: seq<byte>) {
    |part| <= |whole| && whole[|whole| - |part|..] == part
  }

  /** The big-endian 16-bit value of two consecutive bytes. */
  function BeU16(hi: byte, lo: byte): (v: nat)
    ensures v < 0x10000
  {
    hi * 0x100 + lo
  }

  /** `u16::to_be_bytes`: the two bytes of a 16-bit value, most significant first. */
  function U16Bytes(v: nat): (b: seq<byte>)
    requires v < 0x10000
    ensures |b| == 2
    ensures BeU16(b[0], b[1]) == v
  {
    [v / 0x100, v % 0x100]
  }

  lemma BeU16Bytes(hi: byte, lo: byte)
    ensures U16Bytes(BeU16(hi, lo)) == [hi, lo]
  {
  }
}
