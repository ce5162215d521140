/**
 * The Echo message body shared by ICMPv4 and ICMPv6 (section 4.1 of RFC 4443,
 * and the Echo message of RFC 792): a 16-bit identifier, a 16-bit sequence
 * number, then the application data, in which the correlation token sits.
 *
 * The repository's own Echo parser (src/icmp/echo.rs) is not part of this
 * model; this is a reference definition of that layout, which the decoders
 * call where the source calls `Echo::try_from`.
 */
module Echo {
  import opened Wire

  /** Identifier plus sequence number. */
  const EchoHeaderSize := 4

  datatype Echo = Echo(ident: nat, sequence: nat, data: seq<byte>)

  predicate Valid(e: Echo) {
    e.ident < 0x10000 && e.sequence < 0x10000
  }

  /** Splits an Echo body; fails only when identifier and sequence do not fit. */
  function Parse(body: seq<byte>): (r: Result<Echo, Error>)
    ensures r.Failure? <==> |body| < EchoHeaderSize
    ensures r.Failure? ==> r.error == InvalidEcho
    ensures r.Success? ==> Valid(r.value)
    ensures r.Success? ==> IsSuffix(r.value.data, body) && |r.value.data| == |body| - EchoHeaderSize
  {
    if |body| < EchoHeaderSize then Failure(InvalidEcho)
    else Success(Echo(BeU16(body[0], body[1]), BeU16(body[2], body[3]), body[EchoHeaderSize..]))
  }

  /** The wire form of an Echo body: the inverse of Parse. */
  function Bytes(e: Echo): (s: seq<byte>)
    requires Valid(e)
    ensures |s| == EchoHeaderSize + |e.data|
  {
    U16Bytes(e.ident) + U16Bytes(e.sequence) + e.data
  }

  lemma ParseBytes(e: Echo)
    requires Valid(e)
    ensures Parse(Bytes(e)) == Success(e)
  {
    var s := Bytes(e);
    assert s[EchoHeaderSize..] == e.data;
  }

  lemma BytesParse(body: seq<byte>)
    requires Parse(body).Success?
    ensures Bytes(Parse(body).value) == body
  {
    var e := Parse(body).value;
    BeU16Bytes(body[0], body[1]);
    BeU16Bytes(body[2], body[3]);
    assert Bytes(e) == body[0..2] + body[2..4] + body[4..];
  }
}
