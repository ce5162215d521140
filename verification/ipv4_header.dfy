/**
 * The part of an IPv4 header (RFC 791 section 3.1) the Apple receive loop
 * reads: `Ipv4Header::from_slice` splits a datagram into its header and the
 * tail after it. The etherparse crate is not part of this model; this
 * reference parser checks the version, the header length field and that the
 * slice holds the whole header, and records the protocol field.
 */
module Ipv4Header {
  import opened Wire

  /** The minimum header: 5 words of 32 bits. */
  const MinHeaderSize := 20

  /** IANA protocol number of ICMP. */
  const ProtocolIcmp: byte := 1

  datatype Ipv4Header = Ipv4Header(ihl: nat, protocol: byte)

  datatype Split = Split(header: Ipv4Header, tail: seq<byte>)

  function FromSlice(slice: seq<byte>): (r: Result<Split, Error>)
    ensures |slice| < MinHeaderSize ==> r == Failure(InvalidIpv4Header)
    ensures r.Failure? ==> r.error == InvalidIpv4Header
    ensures r.Success? ==>
      && |slice| >= MinHeaderSize
      && r.value.header.protocol == slice[9]
      && IsSuffix(r.value.tail, slice)
      && |r.value.tail| == |slice| - 4 * r.value.header.ihl
      && 4 * r.value.header.ihl >= MinHeaderSize
    ensures |slice| >= MinHeaderSize && slice[0] == 0x45 ==>
      r == Success(Split(Ipv4Header(5, slice[9]), slice[MinHeaderSize..]))
  {
    if |slice| < MinHeaderSize then Failure(InvalidIpv4Header)
    else
      var version, ihl := slice[0] / 16, slice[0] % 16;
      if version != 4 || ihl < 5 || |slice| < 4 * ihl then Failure(InvalidIpv4Header)
      else Success(Split(Ipv4Header(ihl, slice[9]), slice[4 * ihl..]))
  }
}
