/** The ping/pong heartbeat of one connection (server.js:120-121, 210-216):
    `isAlive` is set on connect and on every pong; every 30 s tick either
    terminates a connection whose flag is still clear or clears the flag
    and pings. */
module Heartbeat {
  /** The part of a `ws` object the heartbeat reads and writes; `open` is
      false once the connection has been terminated. */
  datatype Socket = Socket(open: bool, isAlive: bool)

  datatype Event = Tick | Pong

  /** A fresh connection (server.js:120). */
  const Connected: Socket := Socket(true, true)

  /** One tick for one connection; the flag says whether a ping went out. */
  function AfterTick(s: Socket): (r: (Socket, bool))
    ensures r.0.open == (s.open && s.isAlive)
    ensures !r.0.isAlive
    ensures r.1 <==> s.isAlive
  {
    if !s.isAlive then (s.(open := false), false)
    else (s.(isAlive := false), true)
  }

  /** The `pong` handler. */
  function AfterPong(s: Socket): (r: Socket)
    ensures r.isAlive && r.open == s.open
  {
    s.(isAlive := true)
  }

  function Step(s: Socket, e: Event): Socket {
    match e
    case Tick => AfterTick(s).0
    case Pong => AfterPong(s)
  }

  /** The connection after a run of events, oldest first. */
  function Run(s: Socket, es: seq<Event>): Socket {
    if es == [] then s else Step(Run(s, es[..|es| - 1]), es[|es| - 1])
  }

  /** Some tick has had no pong after it. */
  predicate Unanswered(es: seq<Event>) {
    exists i :: 0 <= i < |es| && es[i] == Tick && Pong !in es[i + 1..]
  }

  /** Two ticks with no pong between them. */
  predicate Missed(es: seq<Event>) {
    exists i, j :: 0 <= i < j < |es| && es[i] == Tick && es[j] == Tick && Pong !in es[i + 1..j]
  }

  /** Only a connection that let two ticks pass with no pong in between is
      terminated, and every such connection is; `isAlive` is clear exactly
      when the last tick has had no pong yet. */
  lemma {:induction false} HeartbeatVerdict(es: seq<Event>)
    ensures Run(Connected, es).isAlive <==> !Unanswered(es)
    ensures Run(Connected, es).open <==> !Missed(es)
  {
    if es != [] {
      var init := es[..|es| - 1];
      var e := es[|es| - 1];
      HeartbeatVerdict(init);
      UnansweredStep(init, e);
      MissedStep(init, e);
      assert es == init + [e];
    }
  }

  lemma UnansweredStep(init: seq<Event>, e: Event)
    ensures Unanswered(init + [e]) <==> e == Tick
  {
    var es := init + [e];
    if e == Tick {
      assert es[|init| + 1..] == [];
      assert es[|init|] == Tick;
    } else {
      forall i | 0 <= i < |es| && es[i] == Tick ensures Pong in es[i + 1..] {
        assert es[i + 1..][|es| - 1 - (i + 1)] == Pong;
      }
    }
  }

  lemma MissedStep(init: seq<Event>, e: Event)
    ensures Missed(init + [e]) <==> Missed(init) || (e == Tick && Unanswered(init))
  {
    if Missed(init + [e]) {
      MissedStepBack(init, e);
    }
    if Missed(init) {
      MissedStays(init, e);
    }
    if e == Tick && Unanswered(init) {
      MissedNew(init);
    }
  }

  lemma MissedStays(init: seq<Event>, e: Event)
    requires Missed(init)
    ensures Missed(init + [e])
  {
    var es := init + [e];
    var i, j :| 0 <= i < j < |init| && init[i] == Tick && init[j] == Tick && Pong !in init[i + 1..j];
    assert es[i + 1..j] == init[i + 1..j];
    assert es[i] == Tick && es[j] == Tick;
  }

  lemma MissedNew(init: seq<Event>)
    requires Unanswered(init)
    ensures Missed(init + [Tick])
  {
    var es := init + [Tick];
    var i :| 0 <= i < |init| && init[i] == Tick && Pong !in init[i + 1..];
    assert es[i + 1..|init|] == init[i + 1..];
    assert es[i] == Tick && es[|init|] == Tick;
  }

  lemma MissedStepBack(init: seq<Event>, e: Event)
    requires Missed(init + [e])
    ensures Missed(init) || (e == Tick && Unanswered(init))
  {
    var es := init + [e];
    var i, j :| 0 <= i < j < |es| && es[i] == Tick && es[j] == Tick && Pong !in es[i + 1..j];
    assert es[i] == init[i];
    if j < |init| {
      assert es[i + 1..j] == init[i + 1..j];
      assert es[j] == init[j];
    } else {
      assert es[i + 1..j] == init[i + 1..];
    }
  }
}
