/**
 * The correlation table shared by the channels and their callers: tokens of
 * in-flight probes mapped to the one-shot waiters that expect the arrival
 * instant of the matching Echo Reply.
 *
 * The table type `State` (src/ping/state.rs) is not part of this model: it is
 * modelled as an immutable `map<Token, W>` whose `remove` returns the old
 * value. Waiters (W) and instants (I) are opaque type parameters: the core
 * only moves them around.
 */
module State {
  import opened Wire

  /** Token length: the token occupies this many leading bytes of the Echo data. */
  const TokenSize := 8

  datatype Token = Token(bytes: seq<byte>)

  predicate ValidToken(t: Token) {
    |t.bytes| == TokenSize
  }

  /**
   * The token conversion `echo.data.try_into()`: the token-sized prefix of the
   * data, or nothing when the data is too short. Failure is not an error; the
   * reply is then simply unrelated.
   */
  function TokenFrom(data: seq<byte>): (t: Option<Token>)
    ensures t.Some? <==> |data| >= TokenSize
    ensures t.Some? ==> ValidToken(t.value)
  {
    if |data| < TokenSize then None else Some(Token(data[..TokenSize]))
  }

  /** A probe's payload starting with its token converts back to that token. */
  lemma TokenFromPrefix(t: Token, tail: seq<byte>)
    requires ValidToken(t)
    ensures TokenFrom(t.bytes + tail) == Some(t)
  {
    assert (t.bytes + tail)[..TokenSize] == t.bytes;
  }

  /** The waiter registered under `token` receives the instant `at`. */
  datatype Delivery<W, I> = Delivery(token: Token, waiter: W, at: I)

  /** The outcome of handling one datagram: the new table and at most one delivery. */
  datatype Step<W, I> = Step(table: map<Token, W>, delivery: Option<Delivery<W, I>>)

  /** `State::remove`: takes the entry out, returning what it held. */
  function Remove<W>(table: map<Token, W>, token: Token): (r: (Option<W>, map<Token, W>))
    ensures r.0.Some? <==> token in table
    ensures r.0.Some? ==> r.0.value == table[token]
    ensures token !in r.1
    ensures forall k :: k in table && k != token ==> k in r.1 && r.1[k] == table[k]
    ensures r.1.Keys <= table.Keys
  {
    if token in table then (Some(table[token]), table - {token}) else (None, table)
  }

  /** Handling one datagram changes nothing. */
  function Ignore<W, I>(table: map<Token, W>): Step<W, I> {
    Step(table, None)
  }

  /**
   * What every step promises: either nothing happens, or exactly one
   * registered entry is removed and its own waiter gets `now`.
   */
  ghost predicate Conserves<W, I>(table: map<Token, W>, now: I, s: Step<W, I>) {
    match s.delivery
    case None => s.table == table
    case Some(d) =>
      && d.token in table && d.waiter == table[d.token] && d.at == now
      && s.table == table - {d.token}
  }

  /**
   * The body shared by every receive loop once an Echo Reply has been decoded:
   * convert its data to a token, remove that token, and deliver `now` to the
   * waiter found, if any.
   */
  function OnEchoReply<W, I>(table: map<Token, W>, data: seq<byte>, now: I): (s: Step<W, I>)
    ensures Conserves(table, now, s)
    ensures s.delivery.Some? <==> TokenFrom(data).Some? && TokenFrom(data).value in table
    ensures s.delivery.Some? ==> s.delivery.value.token == TokenFrom(data).value
  {
    match TokenFrom(data)
    case None => Ignore(table)
    case Some(token) =>
      match Remove(table, token).0
      case None => Ignore(table)
      case Some(tx) => Step(Remove(table, token).1, Some(Delivery(token, tx, now)))
  }

  /** A reply whose token was just resolved is a no-op the second time. */
  lemma OnEchoReplyTwice<W, I>(table: map<Token, W>, data: seq<byte>, now: I, later: I)
    ensures var s := OnEchoReply(table, data, now);
      s.delivery.Some? ==> OnEchoReply(s.table, data, later) == Ignore(s.table)
  {
  }
}
