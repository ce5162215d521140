/**
 * The IPv4 channel (src/ping/sock4.rs): `send` patches the RFC 792 checksum
 * into the encoding, and the receive loop comes in two platform variants.
 * On most platforms the kernel strips the IPv4 header from raw ICMP
 * datagrams; on Apple platforms it does not, and the loop parses and skips
 * it first. The socket, the task and the clock are not modelled.
 */
module Sock4 {
  import opened Wire
  import opened Net
  import opened State
  import Icmp4
  import Checksum
  import Ipv4Header
  import Sock6

  /** `let mut pkt = [0u8; 128]` in both receive loops. */
  const RecvBufferSize := 128

  /** Offset of the checksum field in the ICMP header. */
  const ChecksumOffset := 2

  /**
   * `send`: bytes 2 and 3 of the encoding are overwritten with its RFC 1071
   * checksum, most significant byte first; every other byte and the length
   * stay as encoded. The destination is port 0 of the probe's address, and a
   * failed encoding is returned before anything is transmitted.
   */
  function Send(probe: Probe, encoded: Result<seq<byte>, Error>): (r: Result<Outgoing, Error>)
    requires encoded.Success? ==> |encoded.value| >= ChecksumOffset + 2
    ensures r.Failure? <==> encoded.Failure?
    ensures r.Failure? ==> r.error == encoded.error
    ensures r.Success? ==> r.value.dest == SocketAddr(probe.addr, RawPort)
    ensures r.Success? ==>
      var pkt, out := encoded.value, r.value.bytes;
      && |out| == |pkt|
      && (forall i :: 0 <= i < |pkt| && i != 2 && i != 3 ==> out[i] == pkt[i])
      && BeU16(out[2], out[3]) == Checksum.Checksum(pkt)
  {
    match encoded
    case Failure(e) => Failure(e)
    case Success(pkt) =>
      var cksum := U16Bytes(Checksum.Checksum(pkt));
      Success(Outgoing(SocketAddr(probe.addr, RawPort), pkt[2 := cksum[0]][3 := cksum[1]]))
  }

  /** What leaves the IPv4 channel passes the receiver's checksum test when the encoder left the field zero. */
  lemma SentChecksumVerifies(probe: Probe, pkt: seq<byte>)
    requires |pkt| >= ChecksumOffset + 2 && pkt[2] == 0 && pkt[3] == 0
    ensures Send(probe, Success(pkt)).Success?
    ensures Checksum.Checksum(Send(probe, Success(pkt)).value.bytes) == 0
  {
    Checksum.PatchedVerifies(pkt);
  }

  /**
   * The two channels send the same encoding to the same place; they differ
   * only in the checksum bytes, which IPv4 fills in and IPv6 leaves to the kernel.
   */
  lemma ChannelsDifferOnlyInChecksum(probe: Probe, encoded: Result<seq<byte>, Error>)
    requires encoded.Success? ==> |encoded.value| >= ChecksumOffset + 2
    ensures Send(probe, encoded).Success? <==> Sock6.Send(probe, encoded).Success?
    ensures Send(probe, encoded).Success? ==>
      var a, b := Send(probe, encoded).value, Sock6.Send(probe, encoded).value;
      && a.dest == b.dest
      && a.bytes[..2] == b.bytes[..2]
      && a.bytes[4..] == b.bytes[4..]
  {
  }

  /**
   * The token an inbound packet answers for, if it is an Echo Reply with one;
   * the IPv4 counterpart of `Sock6.Echoed`, over the ICMPv4 packet type.
   */
  function Echoed(p: Icmp4.Packet): (t: Option<Token>)
    ensures t.Some? ==> p.EchoReply? && t == TokenFrom(p.echo.data)
  {
    if p.EchoReply? then TokenFrom(p.echo.data) else None
  }

  /**
   * The part both platform variants share: decode one ICMPv4 message; a
   * failure ends the loop, an Echo Reply with a registered token resolves it,
   * anything else is ignored.
   */
  function Handle<W, I>(table: map<Token, W>, pkt: seq<byte>, now: I): (r: Result<State.Step<W, I>, Error>)
    ensures r.Failure? <==> Icmp4.Decode(pkt).Failure?
    ensures r.Failure? ==> r.error == Icmp4.Decode(pkt).error
    ensures r.Success? ==> Conserves(table, now, r.value)
    ensures r.Success? ==>
      var echoed := Echoed(Icmp4.Decode(pkt).value);
      && (r.value.delivery.Some? <==> echoed.Some? && echoed.value in table)
      && (r.value.delivery.Some? ==> r.value.delivery.value.token == echoed.value)
  {
    match Icmp4.Decode(pkt)
    case Failure(e) => Failure(e)
    case Success(p) =>
      if p.EchoReply? then Success(OnEchoReply(table, p.echo.data, now))
      else Success(Ignore(table))
  }

  /** One iteration of the non-Apple `recv`: the datagram starts at the ICMP header. */
  function Step<W, I>(table: map<Token, W>, arrival: Arrival<I>): (r: Result<State.Step<W, I>, Error>)
    ensures r.Failure? <==> Icmp4.Decode(Receive(arrival.datagram, RecvBufferSize)).Failure?
    ensures r.Success? ==> Conserves(table, arrival.at, r.value)
    ensures r.Success? ==>
      var echoed := Echoed(Icmp4.Decode(Receive(arrival.datagram, RecvBufferSize)).value);
      && (r.value.delivery.Some? <==> echoed.Some? && echoed.value in table)
      && (r.value.delivery.Some? ==> r.value.delivery.value.token == echoed.value)
  {
    Handle(table, Receive(arrival.datagram, RecvBufferSize), arrival.at)
  }

  /**
   * One iteration of the Apple `recv`: the datagram starts with an IPv4
   * header. A header that does not parse ends the loop; a protocol other than
   * ICMP is skipped; otherwise the tail after the header is handled exactly as
   * the other platforms handle a whole datagram.
   */
  function StepApple<W, I>(table: map<Token, W>, arrival: Arrival<I>): (r: Result<State.Step<W, I>, Error>)
    ensures var split := Ipv4Header.FromSlice(Receive(arrival.datagram, RecvBufferSize));
      && (split.Failure? ==> r == Failure(InvalidIpv4Header))
      && (split.Success? && split.value.header.protocol != Ipv4Header.ProtocolIcmp ==>
            r == Success(Ignore(table)))
      && (split.Success? && split.value.header.protocol == Ipv4Header.ProtocolIcmp ==>
            r == Step(table, Arrival(split.value.tail, arrival.at)))
    ensures r.Success? ==> Conserves(table, arrival.at, r.value)
  {
    match Ipv4Header.FromSlice(Receive(arrival.datagram, RecvBufferSize))
    case Failure(e) => Failure(e)
    case Success(split) =>
      if split.header.protocol != Ipv4Header.ProtocolIcmp then Success(Ignore(table))
      else Handle(table, split.tail, arrival.at)
  }

  /**
   * Platform framing: a minimal 20-byte IPv4 header announcing ICMP, followed
   * by an ICMP message, is handled on Apple platforms exactly as the bare
   * message is handled elsewhere.
   */
  lemma HeaderStrippedOnApple<W, I>(table: map<Token, W>, header: seq<byte>, msg: seq<byte>, at: I)
    requires |header| == Ipv4Header.MinHeaderSize && header[0] == 0x45
    requires header[9] == Ipv4Header.ProtocolIcmp
    requires |header| + |msg| <= RecvBufferSize
    ensures StepApple(table, Arrival(header + msg, at)) == Step(table, Arrival(msg, at))
  {
    assert (header + msg)[Ipv4Header.MinHeaderSize..] == msg;
    assert (header + msg)[9] == header[9];
  }

  /** Once a reply has resolved its entry, the same reply arriving again is a no-op. */
  lemma DuplicateReplyIgnored<W, I>(table: map<Token, W>, arrival: Arrival<I>, later: I)
    requires Step(table, arrival).Success? && Step(table, arrival).value.delivery.Some?
    ensures var t := Step(table, arrival).value.table;
      Step(t, Arrival(arrival.datagram, later)) == Success(Ignore(t))
  {
  }
}
