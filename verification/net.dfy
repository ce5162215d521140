/**
 * Addresses, probes and datagrams as the socket channels see them.
 *
 * The Probe type (src/ping/probe.rs) is not part of this model: a channel
 * reads only its destination address, and the outcome of `probe.encode` is
 * handed to the send functions as a parameter.
 */
module Net {
  import opened Wire
  import State

  datatype IpAddr = V4(octets: seq<byte>) | V6(octets: seq<byte>)

  datatype SocketAddr = SocketAddr(ip: IpAddr, port: nat)

  datatype Probe = Probe(addr: IpAddr, token: State.Token)

  /** What one `send_to` call puts on the wire. */
  datatype Outgoing = Outgoing(dest: SocketAddr, bytes: seq<byte>)

  /** Raw sockets carry no port; the channels send to port 0. */
  const RawPort := 0

  /**
   * `recv_from` into a buffer of `capacity` bytes: a longer datagram is cut
   * to the buffer, and `pkt[..n]` is what was written.
   */
  function Receive(datagram: seq<byte>, capacity: nat): (pkt: seq<byte>)
    ensures |pkt| <= capacity
    ensures |pkt| == if |datagram| < capacity then |datagram| else capacity
    ensures pkt <= datagram
  {
    if |datagram| <= capacity then datagram else datagram[..capacity]
  }

  /** Only the first `capacity` bytes of a datagram ever reach the decoder. */
  lemma ReceivePrefix(datagram: seq<byte>, capacity: nat, more: seq<byte>)
    requires |datagram| >= capacity
    ensures Receive(datagram + more, capacity) == Receive(datagram, capacity)
  {
    assert (datagram + more)[..capacity] == datagram[..capacity];
  }

  /** An arriving datagram together with the instant taken right after `recv_from`. */
  datatype Arrival<I> = Arrival(datagram: seq<byte>, at: I)
}
