/**
 * The ICMPv6 message decoder (src/icmp/icmp6.rs), following the message
 * layout of RFC 4443: section 2.1 (type, code, checksum, four type-specific
 * bytes), section 3.1 (Destination Unreachable), section 3.3 (Time Exceeded)
 * and sections 4.1 and 4.2 (Echo Request and Echo Reply).
 *
 * Rust's borrowed sub-slices become sequences; that every carried sequence
 * is a tail of the input is stated by `Decode`'s contract.
 */
module Icmp6 {
  import opened Wire
  import Echo

  const HeaderSize := 8

  const KindUnreachable: byte := 1
  const KindTimeExceeded: byte := 3
  const KindEchoRequest: byte := 128
  const KindEchoReply: byte := 129

  /** Destination Unreachable codes the decoder names (section 3.1 of RFC 4443). */
  const CodeAddressUnreachable: byte := 3
  const CodePortUnreachable: byte := 4

  /** Time Exceeded codes (section 3.3 of RFC 4443). */
  const CodeHopLimit: byte := 0
  const CodeReassembly: byte := 1

  datatype UnreachableKind =
    | Address(data: seq<byte>)
    | Port(data: seq<byte>)
    | OtherCode(code: byte, data: seq<byte>)

  datatype Packet =
    | Unreachable(reason: UnreachableKind)
    | EchoRequest(echo: Echo.Echo)
    | EchoReply(echo: Echo.Echo)
    | HopLimitExceeded(data: seq<byte>)
    | ReassemblyTimeExceeded(data: seq<byte>)
    | Other(kind: byte, code: byte, rest: seq<byte>)

  /** The byte sequence a decoded packet borrows from the input. */
  function Carried(p: Packet): seq<byte> {
    match p
    case Unreachable(u) => u.data
    case EchoRequest(e) => e.data
    case EchoReply(e) => e.data
    case HopLimitExceeded(d) => d
    case ReassemblyTimeExceeded(d) => d
    case Other(_, _, rest) => rest
  }

  /** The (kind, code) pairs whose body is an Echo body. */
  predicate IsEcho(kind: byte, code: byte) {
    (kind == KindEchoRequest || kind == KindEchoReply) && code == 0
  }

  /** `Unreachable::try_from`: classifies the code; the data follows the 4 unused bytes. */
  function UnreachableFrom(code: byte, slice: seq<byte>): (u: UnreachableKind)
    requires |slice| >= 4
    ensures u.data == slice[4..]
    ensures u.Address? <==> code == CodeAddressUnreachable
    ensures u.Port? <==> code == CodePortUnreachable
    ensures u.OtherCode? ==> u.code == code
  {
    var data := slice[4..];
    if code == CodeAddressUnreachable then Address(data)
    else if code == CodePortUnreachable then Port(data)
    else OtherCode(code, data)
  }

  /** `IcmpV6Packet::try_from`. */
  function Decode(slice: seq<byte>): (r: Result<Packet, Error>)
    ensures |slice| < HeaderSize ==> r == Failure(InvalidSlice)
    ensures r.Failure? <==>
      |slice| < HeaderSize || (IsEcho(slice[0], slice[1]) && Echo.Parse(slice[4..]).Failure?)
    ensures r.Success? ==> IsSuffix(Carried(r.value), slice) && |Carried(r.value)| <= |slice| - 4
  {
    if |slice| < HeaderSize then Failure(InvalidSlice)
    else
      var kind, code, rest := slice[0], slice[1], slice[4..];
      if kind == KindUnreachable then
        Success(Unreachable(UnreachableFrom(code, rest)))
      else if kind == KindTimeExceeded && code == CodeHopLimit then
        Success(HopLimitExceeded(rest[4..]))
      else if kind == KindTimeExceeded && code == CodeReassembly then
        Success(ReassemblyTimeExceeded(rest[4..]))
      else if kind == KindEchoRequest && code == 0 then
        match Echo.Parse(rest)
        case Success(e) => Success(EchoRequest(e))
        case Failure(err) => Failure(err)
      else if kind == KindEchoReply && code == 0 then
        match Echo.Parse(rest)
        case Success(e) => Success(EchoReply(e))
        case Failure(err) => Failure(err)
      else
        Success(Other(kind, code, rest))
  }

  // ---------------------------------------------------------------------
  // The decoding table, one lemma per row.

  /** Kind 1 is Destination Unreachable whatever the code, and never fails. */
  lemma UnreachableAnyCode(slice: seq<byte>)
    requires |slice| >= HeaderSize && slice[0] == KindUnreachable
    ensures Decode(slice).Success? && Decode(slice).value.Unreachable?
    ensures Decode(slice).value.reason.data == slice[8..]
    ensures slice[1] == 3 ==> Decode(slice).value.reason == Address(slice[8..])
    ensures slice[1] == 4 ==> Decode(slice).value.reason == Port(slice[8..])
    ensures slice[1] != 3 && slice[1] != 4 ==>
      Decode(slice).value.reason == OtherCode(slice[1], slice[8..])
  {
    assert slice[4..][4..] == slice[8..];
  }

  /** Kind 3 with code 0 or 1 skips the 4 reserved bytes. */
  lemma TimeExceededSkipsReserved(slice: seq<byte>)
    requires |slice| >= HeaderSize && slice[0] == KindTimeExceeded
    ensures slice[1] == 0 ==> Decode(slice) == Success(HopLimitExceeded(slice[8..]))
    ensures slice[1] == 1 ==> Decode(slice) == Success(ReassemblyTimeExceeded(slice[8..]))
    ensures slice[1] > 1 ==> Decode(slice) == Success(Other(KindTimeExceeded, slice[1], slice[4..]))
  {
    assert slice[4..][4..] == slice[8..];
  }

  /** Echo kinds decode as Echo only with code 0; otherwise they fall through to Other. */
  lemma EchoNeedsCodeZero(slice: seq<byte>)
    requires |slice| >= HeaderSize
    requires slice[0] == KindEchoRequest || slice[0] == KindEchoReply
    ensures slice[1] != 0 ==> Decode(slice) == Success(Other(slice[0], slice[1], slice[4..]))
    ensures slice[1] == 0 && Echo.Parse(slice[4..]).Success? ==>
      Decode(slice) == Success(
        if slice[0] == KindEchoRequest then EchoRequest(Echo.Parse(slice[4..]).value)
        else EchoReply(Echo.Parse(slice[4..]).value))
  {
  }

  /** Every unlisted (kind, code) of a long-enough slice is Other with the bytes after the checksum. */
  lemma UnlistedIsOther(slice: seq<byte>)
    requires |slice| >= HeaderSize
    requires slice[0] != KindUnreachable && !(slice[0] == KindTimeExceeded && slice[1] <= 1)
    requires !IsEcho(slice[0], slice[1])
    ensures Decode(slice) == Success(Other(slice[0], slice[1], slice[4..]))
  {
  }

  /** Bytes 2 and 3 (the checksum) never influence the result. */
  lemma IgnoresChecksum(slice: seq<byte>, hi: byte, lo: byte)
    requires |slice| >= 4
    ensures Decode(slice[2 := hi][3 := lo]) == Decode(slice)
  {
    assert slice[2 := hi][3 := lo][4..] == slice[4..];
  }

  // ---------------------------------------------------------------------
  // The inverse: building the wire bytes of a packet.

  /**
   * The packets Decode can produce: those whose (kind, code) would not be
   * claimed by an earlier row of the table.
   */
  predicate Canonical(p: Packet) {
    match p
    case Unreachable(u) => u.OtherCode? ==> u.code != 3 && u.code != 4
    case EchoRequest(e) => Echo.Valid(e)
    case EchoReply(e) => Echo.Valid(e)
    case HopLimitExceeded(_) => true
    case ReassemblyTimeExceeded(_) => true
    case Other(k, c, rest) =>
      |rest| >= 4 && k != KindUnreachable && !(k == KindTimeExceeded && c <= 1) && !IsEcho(k, c)
  }

  /**
   * The wire bytes of `p` with the given checksum bytes; `word` fills the four
   * type-specific bytes of the messages whose variant does not carry them.
   */
  function Frame(p: Packet, checksum: seq<byte>, word: seq<byte>): (s: seq<byte>)
    requires Canonical(p) && |checksum| == 2 && |word| == 4
    ensures |s| >= HeaderSize
  {
    match p
    case Unreachable(u) =>
      var code: byte := match u
        case Address(_) => CodeAddressUnreachable
        case Port(_) => CodePortUnreachable
        case OtherCode(c, _) => c;
      [KindUnreachable, code] + checksum + word + u.data
    case HopLimitExceeded(d) => [KindTimeExceeded, CodeHopLimit] + checksum + word + d
    case ReassemblyTimeExceeded(d) => [KindTimeExceeded, CodeReassembly] + checksum + word + d
    case EchoRequest(e) => [KindEchoRequest, 0] + checksum + Echo.Bytes(e)
    case EchoReply(e) => [KindEchoReply, 0] + checksum + Echo.Bytes(e)
    case Other(k, c, rest) => [k, c] + checksum + rest
  }

  /** Decoding the wire form of a canonical packet gives the packet back. */
  lemma DecodeFrame(p: Packet, checksum: seq<byte>, word: seq<byte>)
    requires Canonical(p) && |checksum| == 2 && |word| == 4
    ensures Decode(Frame(p, checksum, word)) == Success(p)
  {
    var s := Frame(p, checksum, word);
    match p
    case Unreachable(u) =>
      assert s[4..][4..] == u.data;
    case HopLimitExceeded(d) =>
      assert s[4..][4..] == d;
    case ReassemblyTimeExceeded(d) =>
      assert s[4..][4..] == d;
    case EchoRequest(e) =>
      assert s[4..] == Echo.Bytes(e);
      Echo.ParseBytes(e);
    case EchoReply(e) =>
      assert s[4..] == Echo.Bytes(e);
      Echo.ParseBytes(e);
    case Other(k, c, rest) =>
      assert s[4..] == rest;
  }

  /** Rows that drop the four type-specific bytes: Destination Unreachable and Time Exceeded. */
  lemma FrameDecodeSkipping(slice: seq<byte>)
    requires |slice| >= HeaderSize
    requires slice[0] == KindUnreachable || (slice[0] == KindTimeExceeded && slice[1] <= 1)
    ensures Decode(slice).Success? && Canonical(Decode(slice).value)
    ensures Frame(Decode(slice).value, slice[2..4], slice[4..8]) == slice
  {
    var kind, code := slice[0], slice[1];
    var p: Packet;
    if kind == KindUnreachable {
      UnreachableAnyCode(slice);
      p := Unreachable(UnreachableFrom(code, slice[4..]));
    } else {
      TimeExceededSkipsReserved(slice);
      p := if code == 0 then HopLimitExceeded(slice[8..]) else ReassemblyTimeExceeded(slice[8..]);
    }
    assert Decode(slice) == Success(p);
    assert slice == [kind, code] + slice[2..4] + slice[4..8] + slice[8..];
  }

  /** The Echo rows keep everything after the checksum. */
  lemma FrameDecodeEcho(slice: seq<byte>)
    requires Decode(slice).Success? && IsEcho(slice[0], slice[1])
    ensures Canonical(Decode(slice).value)
    ensures Frame(Decode(slice).value, slice[2..4], slice[4..8]) == slice
  {
    var kind, code := slice[0], slice[1];
    var e := Echo.Parse(slice[4..]).value;
    Echo.BytesParse(slice[4..]);
    assert Decode(slice).value == if kind == KindEchoRequest then EchoRequest(e) else EchoReply(e);
    assert slice == [kind, code] + slice[2..4] + Echo.Bytes(e);
  }

  /** Other keeps everything after the checksum. */
  lemma FrameDecodeOther(slice: seq<byte>)
    requires |slice| >= HeaderSize
    requires slice[0] != KindUnreachable && !(slice[0] == KindTimeExceeded && slice[1] <= 1)
    requires !IsEcho(slice[0], slice[1])
    ensures Decode(slice).Success? && Canonical(Decode(slice).value)
    ensures Frame(Decode(slice).value, slice[2..4], slice[4..8]) == slice
  {
    UnlistedIsOther(slice);
    assert slice == [slice[0], slice[1]] + slice[2..4] + slice[4..];
  }

  /**
   * Every successful decode is canonical and loses nothing but the checksum
   * and, for the variants that skip them, the four type-specific bytes.
   */
  lemma FrameDecode(slice: seq<byte>)
    requires Decode(slice).Success?
    ensures Canonical(Decode(slice).value)
    ensures Frame(Decode(slice).value, slice[2..4], slice[4..8]) == slice
  {
    if slice[0] == KindUnreachable || (slice[0] == KindTimeExceeded && slice[1] <= 1) {
      FrameDecodeSkipping(slice);
    } else if IsEcho(slice[0], slice[1]) {
      FrameDecodeEcho(slice);
    } else {
      FrameDecodeOther(slice);
    }
  }
}
