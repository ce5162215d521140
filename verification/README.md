# netdiag ICMP probe core, modelled in Dafny

This project models the probe-transmission and reply-correlation core of
netdiag's ping machinery:

- the ICMPv6 message decoder `IcmpV6Packet::try_from` and `Unreachable::try_from`
  (module `Icmp6`), following the message layout of RFC 4443 (section 2.1
  header, section 3.1 Destination Unreachable, section 3.3 Time Exceeded,
  sections 4.1 and 4.2 Echo Request and Echo Reply);
- the `send` functions of the IPv4 and IPv6 socket channels (`Sock4.Send`,
  `Sock6.Send`): what is handed to the socket and where it is sent, including
  the RFC 1071 checksum patch of the IPv4 channel;
- one iteration of each receive loop as a pure step over the correlation
  table: the IPv6 loop (`Sock6.Step`), the IPv4 loop on platforms whose kernel
  strips the IP header (`Sock4.Step`), and the Apple IPv4 loop that parses and
  skips the IPv4 header first (`Sock4.StepApple`);
- the loop itself as the repetition of those steps over a sequence of arrivals
  (`ReceiveLoop.Run`), ending at the first failing step.

The correlation table is a `map<Token, W>` from tokens to waiters; waiters `W`
and arrival instants `I` are opaque type parameters. A step returns either an
error (the loop ends) or the new table and at most one `Delivery` of the
arrival instant to a waiter. Every step satisfies `State.Conserves`: either
nothing changes, or exactly the entry of the echoed token is removed and its
own waiter receives the instant of this datagram.

Collaborators whose source is not part of this model get reference
definitions, and the core's properties are stated in terms of their results:

- src/icmp/echo.rs is not part of this model. `Echo.Parse` follows the Echo
  body of RFC 4443 section 4.1: 16-bit identifier, 16-bit sequence number, data.
  It fails only when fewer than 4 bytes remain.
- src/icmp/icmp4.rs is not part of this model. `Icmp4.Decode` follows the
  RFC 792 header and type table. `Checksum.Checksum` is the Internet checksum
  of RFC 1071 section 4.1.
- The etherparse crate is not part of this model. `Ipv4Header.FromSlice`
  checks the version, the header-length field and that the whole header is
  present (RFC 791 section 3.1). It records the protocol field.
- src/ping/state.rs is not part of this model. The table is an immutable map,
  and `State.Remove` takes an entry out and returns its old value.
- The token type is not part of this model. `State.TokenFrom` takes the first
  8 bytes of the Echo data as the token. It yields nothing when the data is
  shorter, and such a reply is then treated as unrelated.
- src/ping/probe.rs is not part of this model. The outcome of `probe.encode`
  is a parameter `encoded` of the send functions.

## Model

| member | source | states |
|---|---|---|
| Icmp6.Decode | src/icmp/icmp6.rs:32-49 | A slice shorter than 8 bytes is rejected. For longer slices, decoding fails only for Echo Request or Echo Reply with code 0 whose Echo body does not parse. Every carried byte sequence is a suffix of the input that starts at or after byte 4. |
| Icmp6.UnreachableFrom | src/icmp/icmp6.rs:55-62 | Code 3 is Address and code 4 is Port, in both directions of the if-and-only-if. Any other code is kept as it is. The data is always the slice after its first 4 bytes. |
| Icmp6.UnreachableAnyCode | src/icmp/icmp6.rs:42 | Kind 1 always decodes as Unreachable, whatever the code, and never fails. The data is bytes 8 onwards. Code 3 gives Address, code 4 gives Port, and any other code c gives Other(c). |
| Icmp6.TimeExceededSkipsReserved | src/icmp/icmp6.rs:43-44 | Kind 3 with code 0 is HopLimitExceeded and with code 1 is ReassemblyTimeExceeded. Both carry bytes 8 onwards, so the 4 reserved bytes are skipped. Kind 3 with any other code falls through to Other. |
| Icmp6.EchoNeedsCodeZero | src/icmp/icmp6.rs:45-47 | Kinds 128 and 129 decode as Echo Request or Echo Reply only with code 0. With any other code they are Other carrying bytes 4 onwards. |
| Icmp6.UnlistedIsOther | src/icmp/icmp6.rs:47 | Every (kind, code) not named in the table, on a slice of at least 8 bytes, decodes successfully as Other(kind, code, bytes 4 onwards). |
| Icmp6.IgnoresChecksum | src/icmp/icmp6.rs:37-39 | Overwriting bytes 2 and 3 (the checksum) never changes the decoded result. |
| Icmp6.DecodeFrame | src/icmp/icmp6.rs:32-49 | Decoding the wire bytes of any canonical packet returns that packet, whatever the checksum and the four type-specific bytes are. |
| Icmp6.FrameDecode | src/icmp/icmp6.rs:32-49 | Every successful decode is canonical. The input can be rebuilt from the result plus bytes 2..4, and plus bytes 4..8 for the variants that skip them. So the decoder neither loses nor reorders anything else. |
| Icmp6.FrameDecodeSkipping | src/icmp/icmp6.rs:42-44 | The rebuild property of FrameDecode for the Unreachable and Time Exceeded rows. |
| Icmp6.FrameDecodeEcho | src/icmp/icmp6.rs:45-46 | The rebuild property of FrameDecode for the Echo rows. |
| Icmp6.FrameDecodeOther | src/icmp/icmp6.rs:47 | The rebuild property of FrameDecode for the fall-through row. |
| Echo.Parse | src/icmp/icmp6.rs:45-46 | An Echo body parses exactly when it holds at least identifier and sequence. The data is its suffix after those 4 bytes. |
| Echo.ParseBytes | src/icmp/icmp6.rs:45-46 | Parsing the wire form of a valid Echo body returns that body. |
| Echo.BytesParse | src/icmp/icmp6.rs:45-46 | Serialising a parsed Echo body returns the original bytes. |
| Icmp4.Decode | src/ping/sock4.rs:65 | A slice shorter than 8 bytes fails. The result is an Echo Reply exactly when the kind is 0, the code is 0 and the Echo body parses, and it then carries the parsed body. |
| Checksum.Fold | src/ping/sock4.rs:48 | The end-around-carry fold returns at most 0xFFFF and stays congruent to its input modulo 0xFFFF. It is zero only for zero input. |
| Checksum.Checksum | src/ping/sock4.rs:48 | The checksum is a 16-bit value. It is zero exactly when the word sum is a nonzero multiple of 0xFFFF. |
| Checksum.WordSumPatched | src/ping/sock4.rs:49 | Writing a 16-bit value big-endian into zeroed bytes 2..4 adds exactly that value to the word sum. |
| Checksum.PatchedVerifies | src/ping/sock4.rs:47-49 | After the checksum of a message with a zero checksum field is written into that field, the checksum of the whole message is zero. This is the receiver's check in RFC 1071. |
| Wire.U16Bytes | src/ping/sock4.rs:48 | `to_be_bytes` yields two bytes whose big-endian value is the input. |
| Ipv4Header.FromSlice | src/ping/sock4.rs:83 | Fewer than 20 bytes fail with an IPv4 header error. On success, the protocol is byte 9 and the tail is the suffix after the 4*IHL header bytes. A minimal header (0x45) gives the tail after 20 bytes. |
| State.TokenFrom | src/ping/sock6.rs:64 | A token exists exactly when the data holds at least 8 bytes, and then it is a valid 8-byte token. |
| State.TokenFromPrefix | src/ping/sock6.rs:64 | Data that starts with a token converts back to that token. |
| State.Remove | src/ping/sock6.rs:65 | Remove returns the old value exactly when the key was present. The key is then gone, every other entry is kept, and no key is added. |
| State.OnEchoReply | src/ping/sock6.rs:64-68 | Handling a reply conserves the table. It delivers exactly when the data converts to a registered token, and then delivers to that token. |
| State.OnEchoReplyTwice | src/ping/sock6.rs:65-66 | After a reply resolves its entry, the same reply changes nothing and delivers nothing. |
| Net.Receive | src/ping/sock6.rs:56-58 | The bytes a step sees are a prefix of the datagram and are cut to the receive buffer's size. |
| Net.ReceivePrefix | src/ping/sock6.rs:56-58 | Bytes past the buffer's capacity never reach the decoder. |
| Sock6.Send | src/ping/sock6.rs:43-51 | Send fails exactly when encoding fails, and with the same error. Otherwise it sends the encoded bytes untouched to port 0 of the probe's address. |
| Sock6.SentRequestCarriesToken | src/ping/sock6.rs:46-49 | The bytes sent for an Echo Request whose data starts with the probe's token decode to that request. Its data converts back to the token. |
| Sock6.Step | src/ping/sock6.rs:58-69 | A step fails exactly when the datagram, cut to 64 bytes, does not decode, and it then fails with the decoder's error. Otherwise it conserves the table. It delivers exactly when the packet is an Echo Reply whose token is registered, and then delivers to that token. |
| Sock6.NonReplyIgnored | src/ping/sock6.rs:63 | A decoded packet that is not an Echo Reply leaves the table unchanged and delivers nothing. |
| Sock6.ReplyResolvesExactly | src/ping/sock6.rs:64-68 | If the echoed token is registered, only that entry is removed, and its waiter receives this arrival's instant. If it is absent, nothing changes. |
| Sock6.DuplicateReplyIgnored | src/ping/sock6.rs:65-66 | A reply that has just resolved its entry is a no-op when it arrives again, at any instant. |
| Sock6.OnlyBufferMatters | src/ping/sock6.rs:56-58 | Bytes after the first 64 of a datagram never change a step. |
| Sock4.Send | src/ping/sock4.rs:44-55 | Send fails exactly when encoding fails, and with the same error. Otherwise it keeps the length and every byte except 2 and 3. Bytes 2 and 3 hold the RFC 1071 checksum of the encoding, big-endian. The destination is port 0 of the probe's address. |
| Sock4.SentChecksumVerifies | src/ping/sock4.rs:47-49 | If the encoder left the checksum field zero, the bytes sent pass the receiver's checksum test. |
| Sock4.ChannelsDifferOnlyInChecksum | src/ping/sock4.rs:47-51 | For the same encoding, the two channels succeed together and send to the same destination. Their bytes agree everywhere except bytes 2 and 3. |
| Sock4.Handle | src/ping/sock4.rs:65-70 | This is the decode-and-dispatch part shared by both IPv4 variants. It fails exactly when ICMPv4 decoding fails, and otherwise conserves the table. It delivers exactly when the packet is an Echo Reply with a registered token. |
| Sock4.Step | src/ping/sock4.rs:63-71 | A non-Apple step fails exactly when the datagram, cut to 128 bytes, does not decode, and otherwise conserves the table. It delivers exactly when the packet is an Echo Reply whose token is registered, and then delivers to that token. |
| Sock4.StepApple | src/ping/sock4.rs:81-98 | An IPv4 header that does not parse ends the loop with an error. A protocol other than ICMP leaves the table unchanged. For ICMP, the result equals the non-Apple step on the tail after the header. |
| Sock4.HeaderStrippedOnApple | src/ping/sock4.rs:83-96 | A 20-byte header announcing ICMP, followed by a message of at most 108 bytes (so that both fit the 128-byte receive buffer), gets the same result on Apple platforms as the bare message gets elsewhere. |
| Sock4.DuplicateReplyIgnored | src/ping/sock4.rs:67-68 | A reply that has just resolved its entry is a no-op when it arrives again. |
| ReceiveLoop.StepOn | src/ping/sock6.rs:57-70 | Every channel's step conserves the table whenever it succeeds. |
| ReceiveLoop.ChannelsSound | src/ping/sock4.rs:62-72 | The step of each channel (IPv6, IPv4, Apple IPv4) is sound for every table and arrival. |
| ReceiveLoop.Run | src/ping/sock6.rs:57-70 | A run over some arrivals delivers at most once per arrival. |
| ReceiveLoop.RunDeliversRegistered | src/ping/sock6.rs:60-66 | Over a whole run in which the loop is the only writer of the table, every delivery goes to the waiter registered under its token at the start. The final table is the initial table minus exactly the delivered tokens. |
| ReceiveLoop.RunResolvesOnce | src/ping/sock4.rs:67-68 | No token is delivered twice in one run in which the loop is the only writer of the table. |
| ReceiveLoop.RunDeliversArrivalInstants | src/ping/sock6.rs:60-66 | Every delivered instant is the arrival instant of one of the handled datagrams. |
| ReceiveLoop.FailureIsFinal | src/ping/sock6.rs:61 | Once a step has failed, later datagrams are never looked at, so a decode error ends the loop rather than skipping the packet. |
| ReceiveLoop.RunAppend | src/ping/sock6.rs:57-70 | A run without failure continues from the table it leaves: running over a + b is running over a, then over b. |

## Left out

- Socket creation, `bind`, `send_to`, `recv_from` and their I/O errors are not modelled. Neither are the `Mutex` around the send path, `tokio::spawn`, and `Drop`/`abort` (sock4.rs:23-42, 102-106; sock6.rs:22-41, 73-77). These are asynchronous I/O and task plumbing. The loop is modelled as repeated pure steps, and a datagram is its bytes.
- `Instant::now()` is not modelled: an arrival instant is an opaque input, and `send` returns the outgoing datagram instead of a timestamp.
- Whether a waiter still listens when `tx.send(now)` runs is not modelled, because the result is discarded (`let _ =`). A delivery records the attempt.
- The bodies of the Echo parser, the ICMPv4 decoder and checksum, `Probe::encode`, `State`, the token conversion and etherparse's `Ipv4Header` are not shown. They are the reference definitions described above. Among them, `Ipv4Header.FromSlice` does not check the total-length field or the header checksum.
- ReceiveLoop.Run: treats the loop as the only writer of the correlation table during a run. In the program the table is shared (`Arc<State>`): callers register tokens and may remove them on timeout while the loop runs, and both IPv4 and IPv6 loops may share it. Those interleaved updates are not modelled. So `RunDeliversRegistered` and `RunResolvesOnce` speak about the table at the start of an uninterrupted run. Each single step (`State.Conserves`) holds whatever the table is when the datagram arrives.
- Sock4.Send: requires an encoding of at least 4 bytes. For a shorter one the source panics when it copies the checksum into bytes 2..4 (sock4.rs:49). The probe encoder always writes the 8-byte ICMP header, so that case does not arise, and the panic is not modelled.
- Sock6.Send: takes the encoder's outcome as a parameter. So the bound of 64 bytes from the send buffer is not stated, and neither is which bytes the encoder writes.
- Logging (`debug!`, `error!`) is not modelled.
- src/knock/reply.rs is not modelled: it is a constructor that copies fields of an external TCP header, with no logic.
- src/trace/mod.rs is not modelled: it holds only module declarations and re-exports.
