/**
 * The receive loop of a channel as a sequence of steps. Each channel runs
 * one such loop for its whole life: it handles datagrams in arrival order
 * and ends at the first step that fails, never skipping a bad datagram.
 * Which IPv4 variant runs is fixed per platform at build time; here it is a
 * value of `Channel`.
 */
module ReceiveLoop {
  import opened Wire
  import opened Net
  import opened State
  import Sock4
  import Sock6

  datatype Channel = V6 | V4 | V4Apple

  function StepOn<W, I>(ch: Channel, table: map<Token, W>, arrival: Arrival<I>): (r: Result<State.Step<W, I>, Error>)
    ensures r.Success? ==> Conserves(table, arrival.at, r.value)
  {
    match ch
    case V6 => Sock6.Step(table, arrival)
    case V4 => Sock4.Step(table, arrival)
    case V4Apple => Sock4.StepApple(table, arrival)
  }

  /** One iteration of some receive loop. */
  type Stepper<!W, !I> = (map<Token, W>, Arrival<I>) -> Result<State.Step<W, I>, Error>

  /** A step that, whenever it succeeds, resolves at most one registered entry with the arrival instant. */
  ghost predicate Sound<W(!new), I(!new)>(step: Stepper<W, I>) {
    forall table, arrival :: step(table, arrival).Success? ==>
      Conserves(table, arrival.at, step(table, arrival).value)
  }

  function Loop<W, I>(ch: Channel): Stepper<W, I> {
    (table, arrival) => StepOn(ch, table, arrival)
  }

  /** Every channel's step keeps the correlation table honest. */
  lemma ChannelsSound<W(!new), I(!new)>(ch: Channel)
    ensures Sound(Loop<W, I>(ch))
  {
    forall table: map<Token, W>, arrival: Arrival<I>
      ensures Loop<W, I>(ch)(table, arrival).Success? ==>
        Conserves(table, arrival.at, Loop<W, I>(ch)(table, arrival).value)
    {
      var r := StepOn(ch, table, arrival);
    }
  }

  /**
   * The loop's history over some arrivals: the table it leaves, the deliveries
   * in order, and the error that ended it, if one did.
   */
  datatype Trace<W, I> = Trace(table: map<Token, W>, deliveries: seq<Delivery<W, I>>, failure: Option<Error>)

  function Delivered<W, I>(s: State.Step<W, I>): seq<Delivery<W, I>> {
    if s.delivery.Some? then [s.delivery.value] else []
  }

  /**
   * The loop over `arrivals`: at most one delivery per datagram, stopping at
   * the first failure. The loop is taken to be the table's only writer for
   * the length of the run; registrations and removals by other tasks between
   * two datagrams are not part of a run.
   */
  function Run<W, I>(step: Stepper<W, I>, table: map<Token, W>, arrivals: seq<Arrival<I>>): (t: Trace<W, I>)
    ensures |t.deliveries| <= |arrivals|
    decreases |arrivals|
  {
    if |arrivals| == 0 then Trace(table, [], None)
    else
      match step(table, arrivals[0])
      case Failure(e) => Trace(table, [], Some(e))
      case Success(s) =>
        var rest := Run(step, s.table, arrivals[1..]);
        Trace(rest.table, Delivered(s) + rest.deliveries, rest.failure)
  }

  function Tokens<W, I>(ds: seq<Delivery<W, I>>): set<Token> {
    set i | 0 <= i < |ds| :: ds[i].token
  }

  lemma TokensAppend<W, I>(a: seq<Delivery<W, I>>, b: seq<Delivery<W, I>>)
    ensures Tokens(a + b) == Tokens(a) + Tokens(b)
  {
    forall k | k in Tokens(a + b) ensures k in Tokens(a) + Tokens(b) {
      var i :| 0 <= i < |a + b| && (a + b)[i].token == k;
      if i >= |a| {
        assert b[i - |a|].token == k;
      }
    }
    forall k | k in Tokens(a) ensures k in Tokens(a + b) {
      var i :| 0 <= i < |a| && a[i].token == k;
      assert (a + b)[i].token == k;
    }
    forall k | k in Tokens(b) ensures k in Tokens(a + b) {
      var i :| 0 <= i < |b| && b[i].token == k;
      assert (a + b)[i + |a|].token == k;
    }
  }

  /**
   * Every delivery of a run goes to the waiter that was registered under its
   * token when the run started, and what remains in the table is exactly what
   * was not resolved.
   */
  lemma {:induction false} RunDeliversRegistered<W(!new), I(!new)>(step: Stepper<W, I>, table: map<Token, W>, arrivals: seq<Arrival<I>>)
    requires Sound(step)
    ensures var t := Run(step, table, arrivals);
      && (forall i :: 0 <= i < |t.deliveries| ==>
            t.deliveries[i].token in table && t.deliveries[i].waiter == table[t.deliveries[i].token])
      && t.table == table - Tokens(t.deliveries)
    decreases |arrivals|
  {
    var t := Run(step, table, arrivals);
    if |arrivals| == 0 {
      assert Tokens(t.deliveries) == {};
    } else {
      match step(table, arrivals[0])
      case Failure(e) =>
        assert Tokens(t.deliveries) == {};
      case Success(s) =>
        var rest := Run(step, s.table, arrivals[1..]);
        RunDeliversRegistered(step, s.table, arrivals[1..]);
        var head := Delivered(s);
        assert t.deliveries == head + rest.deliveries;
        TokensAppend(head, rest.deliveries);
        assert Conserves(table, arrivals[0].at, s);
        if s.delivery.Some? {
          assert head == [s.delivery.value];
          assert head[0].token in Tokens(head);
          assert Tokens(head) == {s.delivery.value.token};
        } else {
          assert Tokens(head) == {};
        }
        forall i | 0 <= i < |t.deliveries|
          ensures t.deliveries[i].token in table && t.deliveries[i].waiter == table[t.deliveries[i].token]
        {
          if i >= |head| {
            assert t.deliveries[i] == rest.deliveries[i - |head|];
          }
        }
    }
  }

  /** No token is resolved twice in one run: removal on resolve makes a repeated reply a no-op. */
  lemma {:induction false} RunResolvesOnce<W(!new), I(!new)>(step: Stepper<W, I>, table: map<Token, W>, arrivals: seq<Arrival<I>>)
    requires Sound(step)
    ensures var t := Run(step, table, arrivals);
      forall i, j :: 0 <= i < j < |t.deliveries| ==> t.deliveries[i].token != t.deliveries[j].token
    decreases |arrivals|
  {
    var t := Run(step, table, arrivals);
    if |arrivals| > 0 {
      match step(table, arrivals[0])
      case Failure(e) =>
      case Success(s) =>
        var rest := Run(step, s.table, arrivals[1..]);
        RunResolvesOnce(step, s.table, arrivals[1..]);
        RunDeliversRegistered(step, s.table, arrivals[1..]);
        var head := Delivered(s);
        assert t.deliveries == head + rest.deliveries;
        forall i, j | 0 <= i < j < |t.deliveries|
          ensures t.deliveries[i].token != t.deliveries[j].token
        {
          assert t.deliveries[j] == rest.deliveries[j - |head|];
          if i >= |head| {
            assert t.deliveries[i] == rest.deliveries[i - |head|];
          }
        }
    }
  }

  /** The arrival instants of some datagrams, in order. */
  function Instants<I>(arrivals: seq<Arrival<I>>): (r: seq<I>)
    ensures |r| == |arrivals|
  {
    seq(|arrivals|, j requires 0 <= j < |arrivals| => arrivals[j].at)
  }

  /** Every delivered instant is the arrival instant of one of the datagrams handled. */
  lemma {:induction false} RunDeliversArrivalInstants<W(!new), I(!new)>(step: Stepper<W, I>, table: map<Token, W>, arrivals: seq<Arrival<I>>)
    requires Sound(step)
    ensures forall d :: d in Run(step, table, arrivals).deliveries ==> d.at in Instants(arrivals)
    decreases |arrivals|
  {
    var t := Run(step, table, arrivals);
    if |arrivals| > 0 {
      match step(table, arrivals[0])
      case Failure(e) =>
      case Success(s) =>
        var rest := Run(step, s.table, arrivals[1..]);
        RunDeliversArrivalInstants(step, s.table, arrivals[1..]);
        var head := Delivered(s);
        assert t.deliveries == head + rest.deliveries;
        assert Instants(arrivals) == [arrivals[0].at] + Instants(arrivals[1..]);
        assert Conserves(table, arrivals[0].at, s);
        forall d | d in t.deliveries
          ensures d.at in Instants(arrivals)
        {
          if d in rest.deliveries {
            assert d.at in Instants(arrivals[1..]);
          } else {
            assert d.at == arrivals[0].at;
          }
        }
    }
  }

  /**
   * A failing step ends the loop for good: datagrams that would have arrived
   * after it are never looked at.
   */
  lemma {:induction false} FailureIsFinal<W, I>(step: Stepper<W, I>, table: map<Token, W>, arrivals: seq<Arrival<I>>, later: seq<Arrival<I>>)
    requires Run(step, table, arrivals).failure.Some?
    ensures Run(step, table, arrivals + later) == Run(step, table, arrivals)
    decreases |arrivals|
  {
    assert (arrivals + later)[0] == arrivals[0];
    match step(table, arrivals[0])
    case Failure(e) =>
    case Success(s) =>
      assert (arrivals + later)[1..] == arrivals[1..] + later;
      FailureIsFinal(step, s.table, arrivals[1..], later);
  }

  /** A run without failure handles every arrival; running on continues from the table it leaves. */
  lemma {:induction false} RunAppend<W, I>(step: Stepper<W, I>, table: map<Token, W>, arrivals: seq<Arrival<I>>, later: seq<Arrival<I>>)
    requires Run(step, table, arrivals).failure.None?
    ensures var t := Run(step, table, arrivals);
      var u := Run(step, t.table, later);
      Run(step, table, arrivals + later) == Trace(u.table, t.deliveries + u.deliveries, u.failure)
    decreases |arrivals|
  {
    if |arrivals| == 0 {
      assert arrivals + later == later;
    } else {
      var all := arrivals + later;
      assert all[0] == arrivals[0];
      assert all[1..] == arrivals[1..] + later;
      var r := step(table, arrivals[0]);
      assert r.Success?;
      var s := r.value;
      RunAppend(step, s.table, arrivals[1..], later);
      var t := Run(step, s.table, arrivals[1..]);
      var u := Run(step, t.table, later);
      calc {
        Run(step, table, all);
        Trace(Run(step, s.table, all[1..]).table, Delivered(s) + Run(step, s.table, all[1..]).deliveries,
              Run(step, s.table, all[1..]).failure);
        Trace(u.table, Delivered(s) + (t.deliveries + u.deliveries), u.failure);
        { assert Delivered(s) + (t.deliveries + u.deliveries) == (Delivered(s) + t.deliveries) + u.deliveries; }
        Trace(u.table, (Delivered(s) + t.deliveries) + u.deliveries, u.failure);
      }
    }
  }
}
