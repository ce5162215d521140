/**
 * The ICMPv4 decoder the IPv4 receive loop calls (`IcmpV4Packet::try_from`).
 * src/icmp/icmp4.rs is not part of this model; this reference decoder follows
 * the RFC 792 header (type, code, checksum, four type-specific bytes) and the
 * table Echo Reply 0 / Echo Request 8 (code 0), Destination Unreachable 3
 * (code 1 host, 3 port, otherwise the raw code), Time Exceeded 11 (code 0
 * time to live, 1 reassembly). The receive loop only distinguishes a failed
 * decode, an Echo Reply, and anything else.
 */
module Icmp4 {
  import opened Wire
  import Echo

  const HeaderSize := 8

  const KindEchoReply: byte := 0
  const KindUnreachable: byte := 3
  const KindEchoRequest: byte := 8
  const KindTimeExceeded: byte := 11

  datatype UnreachableKind =
    | Host(data: seq<byte>)
    | Port(data: seq<byte>)
    | OtherCode(code: byte, data: seq<byte>)

  datatype Packet =
    | EchoReply(echo: Echo.Echo)
    | EchoRequest(echo: Echo.Echo)
    | Unreachable(reason: UnreachableKind)
    | TimeToLiveExceeded(data: seq<byte>)
    | ReassemblyTimeExceeded(data: seq<byte>)
    | Other(kind: byte, code: byte, rest: seq<byte>)

  function UnreachableFrom(code: byte, data: seq<byte>): (u: UnreachableKind)
    ensures u.data == data
    ensures u.Host? <==> code == 1
    ensures u.Port? <==> code == 3
  {
    if code == 1 then Host(data)
    else if code == 3 then Port(data)
    else OtherCode(code, data)
  }

  function Decode(slice: seq<byte>): (r: Result<Packet, Error>)
    ensures |slice| < HeaderSize ==> r == Failure(InvalidSlice)
    ensures r.Failure? <==>
      || |slice| < HeaderSize
      || ((slice[0] == KindEchoReply || slice[0] == KindEchoRequest) && slice[1] == 0
          && Echo.Parse(slice[4..]).Failure?)
    ensures r.Success? && r.value.EchoReply? <==>
      && |slice| >= HeaderSize && slice[0] == KindEchoReply && slice[1] == 0
      && Echo.Parse(slice[4..]).Success?
    ensures r.Success? && r.value.EchoReply? ==> r.value.echo == Echo.Parse(slice[4..]).value
  {
    if |slice| < HeaderSize then Failure(InvalidSlice)
    else
      var kind, code, rest := slice[0], slice[1], slice[4..];
      if (kind == KindEchoReply || kind == KindEchoRequest) && code == 0 then
        match Echo.Parse(rest)
        case Success(e) => Success(if kind == KindEchoReply then EchoReply(e) else EchoRequest(e))
        case Failure(err) => Failure(err)
      else if kind == KindUnreachable then
        Success(Unreachable(UnreachableFrom(code, rest[4..])))
      else if kind == KindTimeExceeded && code == 0 then
        Success(TimeToLiveExceeded(rest[4..]))
      else if kind == KindTimeExceeded && code == 1 then
        Success(ReassemblyTimeExceeded(rest[4..]))
      else
        Success(Other(kind, code, rest))
  }
}
