/**
 * The IPv6 channel (src/ping/sock6.rs): what `send` hands to the socket, and
 * one iteration of the receive loop as a pure step over the correlation
 * table. The socket itself, the task around the loop and the clock are not
 * modelled; the arrival instant is an input.
 */
module Sock6 {
  import opened Wire
  import opened Net
  import opened State
  import Icmp6
  import Echo

  /** `let mut pkt = [0u8; 64]` in the receive loop. */
  const RecvBufferSize := 64

  /**
   * `send`: the encoding goes out untouched (the kernel fills in the ICMPv6
   * checksum) to port 0 of the probe's address; a failed encoding is returned
   * before anything is transmitted. `encoded` is what `probe.encode` returned.
   */
  function Send(probe: Probe, encoded: Result<seq<byte>, Error>): (r: Result<Outgoing, Error>)
    ensures r.Failure? <==> encoded.Failure?
    ensures r.Failure? ==> r.error == encoded.error
    ensures r.Success? ==> r.value.dest == SocketAddr(probe.addr, RawPort)
    ensures r.Success? ==> r.value.bytes == encoded.value
  {
    match encoded
    case Failure(e) => Failure(e)
    case Success(pkt) => Success(Outgoing(SocketAddr(probe.addr, RawPort), pkt))
  }

  /** What the loop decodes from one arriving datagram. */
  function Inbound(datagram: seq<byte>): Result<Icmp6.Packet, Error> {
    Icmp6.Decode(Receive(datagram, RecvBufferSize))
  }

  /**
   * The token an inbound packet answers for, if it is an Echo Reply with one.
   * `Sock4.Echoed` is the same selection over `Icmp4.Packet`: the two
   * decoders have distinct packet types, as the two channels match on
   * `IcmpV6Packet` and `IcmpV4Packet`, and both defer to `State.TokenFrom`.
   */
  function Echoed(p: Icmp6.Packet): (t: Option<Token>)
    ensures t.Some? ==> p.EchoReply? && t == TokenFrom(p.echo.data)
  {
    if p.EchoReply? then TokenFrom(p.echo.data) else None
  }

  /**
   * One iteration of `recv`: a decode failure ends the loop; an Echo Reply
   * whose token is registered resolves that entry with the arrival instant;
   * anything else leaves the table as it was.
   */
  function Step<W, I>(table: map<Token, W>, arrival: Arrival<I>): (r: Result<State.Step<W, I>, Error>)
    ensures r.Failure? <==> Inbound(arrival.datagram).Failure?
    ensures r.Failure? ==> r.error == Inbound(arrival.datagram).error
    ensures r.Success? ==> Conserves(table, arrival.at, r.value)
    ensures r.Success? ==>
      var echoed := Echoed(Inbound(arrival.datagram).value);
      && (r.value.delivery.Some? <==> echoed.Some? && echoed.value in table)
      && (r.value.delivery.Some? ==> r.value.delivery.value.token == echoed.value)
  {
    match Inbound(arrival.datagram)
    case Failure(e) => Failure(e)
    case Success(pkt) =>
      if pkt.EchoReply? then Success(OnEchoReply(table, pkt.echo.data, arrival.at))
      else Success(Ignore(table))
  }

  /** Traffic other than Echo Replies never touches the table. */
  lemma NonReplyIgnored<W, I>(table: map<Token, W>, arrival: Arrival<I>)
    requires Inbound(arrival.datagram).Success? && !Inbound(arrival.datagram).value.EchoReply?
    ensures Step(table, arrival) == Success(Ignore(table))
  {
  }

  /** A reply delivers to the waiter registered under its token, and to no other. */
  lemma ReplyResolvesExactly<W, I>(table: map<Token, W>, arrival: Arrival<I>, token: Token)
    requires Inbound(arrival.datagram).Success?
    requires Echoed(Inbound(arrival.datagram).value) == Some(token)
    ensures token in table ==>
      Step(table, arrival) == Success(State.Step(table - {token}, Some(Delivery(token, table[token], arrival.at))))
    ensures token !in table ==> Step(table, arrival) == Success(Ignore(table))
  {
  }

  /** Once a reply has resolved its entry, the same reply arriving again is a no-op. */
  lemma DuplicateReplyIgnored<W, I>(table: map<Token, W>, arrival: Arrival<I>, later: I)
    requires Step(table, arrival).Success? && Step(table, arrival).value.delivery.Some?
    ensures var t := Step(table, arrival).value.table;
      Step(t, Arrival(arrival.datagram, later)) == Success(Ignore(t))
  {
  }

  /** Bytes beyond the 64-byte receive buffer never influence a step. */
  lemma OnlyBufferMatters<W, I>(table: map<Token, W>, datagram: seq<byte>, more: seq<byte>, at: I)
    requires |datagram| >= RecvBufferSize
    ensures Step(table, Arrival(datagram + more, at)) == Step(table, Arrival(datagram, at))
  {
    ReceivePrefix(datagram, RecvBufferSize, more);
  }

  /**
   * Encoding round trip through the channel: an Echo Request carrying a
   * token at the front of its data is sent as bytes that decode to an Echo
   * Request whose data converts back to that token.
   */
  lemma SentRequestCarriesToken(probe: Probe, e: Echo.Echo, checksum: seq<byte>, tail: seq<byte>)
    requires Echo.Valid(e) && |checksum| == 2 && ValidToken(probe.token)
    requires e.data == probe.token.bytes + tail
    ensures var sent := Send(probe, Success(Icmp6.Frame(Icmp6.EchoRequest(e), checksum, [0, 0, 0, 0])));
      && sent.Success?
      && Icmp6.Decode(sent.value.bytes) == Success(Icmp6.EchoRequest(e))
      && TokenFrom(e.data) == Some(probe.token)
  {
    Icmp6.DecodeFrame(Icmp6.EchoRequest(e), checksum, [0, 0, 0, 0]);
    TokenFromPrefix(probe.token, tail);
  }
}
