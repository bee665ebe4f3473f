/**
  The closing handshake comes to its end: from every state that two endpoints reach, three calls of `poll_close`
  complete it on both sides, once the transports no longer stall.
 */
module Progress {
  import opened Bytes
  import opened Types
  import opened Wire
  import opened Queue
  import opened Receive
  import opened Exchange
  import opened Delivery
  import opened Connection
  import opened Discipline
  import opened Answers
  import opened Handshake
  import opened Runs
  import opened Outcomes
  import opened System

  // ---------------------------------------------------------------- one endpoint

  /** A poll waits only once everything queued is written and everything that has arrived is read. */
  predicate Idle(c: Conn) { IsReading(c) && c.incoming == [] && Pending(c.queue) == [] }

  lemma ReadAndReactWaits(env: Env, c: Conn)
    requires Prompt(env) && IsReading(c) && Pending(c.queue) == []
    ensures var (r, p) := ReadAndReact(env, c); p.Waiting? ==> Idle(r)
  {
    hide ReadFrame, React, ReactError, Pending, Prompt;
    ReadFindsAll(env, c);
  }

  lemma PollNextFrameWaits(env: Env, c: Conn, w: Waker)
    requires Prompt(env)
    ensures var (r, p) := PollNextFrame(env, c, w); p.Waiting? ==> Idle(r)
  {
    hide ReadAndReact, Flush, Pending, Prompt;
    FlushIsDone(env, c, w);
    FlushIsDone(env, c, FlushWaker(c, w));
    if IsReading(c) {
      ReadAndReactWaits(env, if Pending(c.queue) != [] then Flush(env, c, FlushWaker(c, w)).0 else c);
    }
  }

  lemma {:induction false} PollNextWaits(env: Env, c: Conn, w: Waker)
    requires Prompt(env)
    ensures var (r, p) := PollNext(env, c, w); p.Waiting? ==> Idle(r)
    decreases Unread(c)
  {
    hide PollNextFrame, Assemble, Prompt, Pending;
    PollNextFrameWaits(env, c, w);
    var (c1, p) := PollNextFrame(env, c, w);
    if p.Item? && Assemble(env.cfg.maxLen, c1.rx, p.value).events == [] {
      PollNextWaits(env, Assembling(env, c1, p.value), w);
    }
  }

  lemma {:induction false} DrainWaits(env: Env, c: Conn, w: Waker)
    requires Prompt(env) && !c.eof && Inv(env, c)
    ensures var (r, ended) := Drain(env, c, w);
            if ended then r.state.CloseAcknowledged? else Hungry(env, r) && Pending(r.queue) == []
    decreases Rank(c.state), Unread(c)
  {
    hide PollNext, Inv, Prompt, Pending, ParseFrame;
    PollNextMeans(env, c, w);
    PollNextWaits(env, c, w);
    PollNextConsumes(env, c, w);
    var (c1, p) := PollNext(env, c, w);
    if p.Ended? {
      EndedMeans(env, c, w);
    } else if !p.Waiting? {
      DrainWaits(env, c1, w);
    }
  }

  /** After `poll_close` all is written, and the connection is over or waits for the peer's close. */
  lemma CloseDrains(env: Env, c: Conn, w: Waker)
    requires Prompt(env) && !c.eof && Inv(env, c)
    ensures var r := PollClose(env, c, w).0;
            Pending(r.queue) == [] && !r.state.Active? && (r.state.CloseAcknowledged? || Hungry(env, r))
  {
    hide Drain, Flush, Inv, Prompt, Pending, ParseFrame, Pushed, Encoded;
    var c0 := Closing(env, c);
    ClosingKeeps(env, c);
    DrainWaits(env, c0, w);
    PollCloseAnswers(env, c, w);
    FlushIsDone(env, Drain(env, c0, w).0, w);
  }

  // ---------------------------------------------------------------- against a peer that has closed

  /** A delivered close is the end of the stream. */
  lemma {:induction false} ClosedAtEnd(cfg: Config, rx: Rx, w: seq<byte>)
    requires Bounded(cfg, rx) && ClosedEvents(Drive(cfg, rx, w).events)
    ensures Drive(cfg, rx, w).end.Closed?
    decreases |w|
  {
    hide ParseFrame, Consume, Bounded, Acceptable, CarryAfter, ClosedEvents;
    var p := ParseFrame(cfg, rx, w);
    if p.Got? && !p.frame.opcode.Close? {
      ParsedIsPrinted(cfg, rx, w);
      ConsumeBounded(cfg, rx, p.frame);
      var a := Consume(cfg, rx, p.frame, p.carry);
      var t := Drive(cfg, a.rx, w[p.used..]);
      DataIsNoClose(cfg, rx, p.frame);
      LastOfTwo(a.events, t.events);
      ClosedAtEnd(cfg, a.rx, w[p.used..]);
    } else if !p.Got? {
      NothingIsNoClose();
    }
  }

  lemma NothingIsNoClose()
    ensures !ClosedEvents([])
  {
  }

  lemma DataIsNoClose(cfg: Config, rx: Rx, f: Frame)
    requires Bounded(cfg, rx) && Acceptable(cfg, rx, f) && !f.opcode.Close?
    ensures !ClosedEvents(Consume(cfg, rx, f, CarryAfter(rx, f)).events)
  {
  }

  lemma LastOfTwo(a: seq<Event>, b: seq<Event>)
    requires ClosedEvents(a + b) && !ClosedEvents(a)
    ensures ClosedEvents(b)
  {
    assert a + [] == a;
  }

  /** Closing against a peer that has closed, and whose bytes have all arrived, comes to the end. */
  lemma CloseReachesEnd(env: Env, c: Conn, peerEnv: Env, peer: Conn, w: Waker)
    requires Prompt(env) && Inv(env, c) && Inv(peerEnv, peer) && env.cfg.role == peerEnv.cfg.role.Opposite()
    requires !c.eof && Channel(c, peer) && AllDeliverable(env.cfg, peer.outbox)
    requires EndsWithClose(peer.outbox) && Pending(peer.queue) == []
    ensures var (r, f) := PollClose(env, c, w); r.state.CloseAcknowledged? && f.FlushDone? && r.shut
  {
    hide Inv, PollClose, Deliverable, Drive, Pending, ParseFrame, EndsWithClose, Prompt;
    var r := PollClose(env, c, w).0;
    CloseDrains(env, c, w);
    CloseKeeps(env, c, w);
    CloseIsDone(env, c, w);
    PollCloseAnswers(env, c, w);
    DoConsumes(env, c, CloseOp(w));
    assert Do(env, c, CloseOp(w)).0 == r;
    if !r.state.CloseAcknowledged? {
      assert r.received + [] == r.received;
      PeerReceives(env, r, peerEnv, peer);
      DeliveriesEnd(peer.outbox);
      StillHungry(env, r);
    }
  }

  lemma DeliveriesEnd(outbox: seq<Message>)
    requires EndsWithClose(outbox)
    ensures ClosedEvents(Deliveries(outbox))
  {
    DeliveriesAreDelivered(outbox, |outbox| - 1);
  }

  /** A connection that needs more bytes has not delivered a close. */
  lemma StillHungry(env: Env, c: Conn)
    requires Inv(env, c) && Hungry(env, c)
    ensures !ClosedEvents(c.events)
  {
    hide SendInv, CloseInv, ParseFrame, ClosedEvents, Pending;
    IdleIsBounded(env.cfg);
    assert Drive(env.cfg, c.rx, c.wire) == Trace([], Starved(c.rx, c.wire));
    assert c.events + [] == c.events;
    if ClosedEvents(c.events) {
      ClosedAtEnd(env.cfg, IDLE, c.received);
    }
  }

  // ---------------------------------------------------------------- two endpoints

  /** An endpoint that has closed and written all. */
  predicate HasClosed(c: Conn) { EndsWithClose(c.outbox) && Pending(c.queue) == [] }

  /** What `poll_close` brings an endpoint to: to its end, if the peer has closed before. */
  lemma CloseOnce(env: Env, c: Conn, peerEnv: Env, peer: Conn, w: Waker)
    requires Prompt(env) && Inv(env, c) && Shaken(env, c) && Inv(peerEnv, peer) && !c.eof && Channel(c, peer)
    requires env.cfg.role == peerEnv.cfg.role.Opposite() && DataDeliverable(env.cfg, peer.outbox)
    requires DataDeliverable(peerEnv.cfg, c.outbox)
    ensures var r := PollClose(env, c, w).0;
            && HasClosed(r) && DataDeliverable(peerEnv.cfg, r.outbox)
            && (HasClosed(peer) ==> r.state.CloseAcknowledged? && r.shut)
  {
    hide PollClose, Deliverable, Drive, Pending, ReadInv, SendInv, Prompt;
    var r := PollClose(env, c, w).0;
    CloseDrains(env, c, w);
    CloseKeeps(env, c, w);
    PollCloseAnswers(env, c, w);
    ShakenByClose(env, c, w);
    AllIsDeliverable(peerEnv, peer, env.cfg);
    if HasClosed(peer) {
      CloseReachesEnd(env, c, peerEnv, peer, w);
    }
  }

  lemma ShakenByClose(env: Env, c: Conn, w: Waker)
    requires Prompt(env) && Inv(env, c) && Shaken(env, c) && !c.eof
    ensures Shaken(env, PollClose(env, c, w).0)
  {
    hide PollClose, Inv, Shaken, NoFaults, NeverStalls;
    DoShaken(env, c, CloseOp(w));
    assert Do(env, c, CloseOp(w)).0 == PollClose(env, c, w).0;
  }

  /** A system whose channels are open, in which each endpoint can take what the other sends. */
  predicate Sound(es: Envs, s: Sys) { SysInv(es, s) && SysShaken(es, s) && Compatible(es, s) }

  lemma LeftCloses(es: Envs, s: Sys, w: Waker)
    requires Prompt(es.left) && Prompt(es.right) && Sound(es, s)
    ensures var t := Moved(es, s, Left(CloseOp(w)));
            && Sound(es, t) && HasClosed(t.left) && t.right == s.right.(incoming := t.right.incoming)
            && (HasClosed(s.right) ==> t.left.state.CloseAcknowledged? && t.left.shut)
  {
    hide Inv, Shaken, PollClose, DataDeliverable, HasClosed, NoFaults, NeverStalls;
    MoveKeeps(es, s, Left(CloseOp(w)));
    MoveShaken(es, s, Left(CloseOp(w)));
    CloseOnce(es.left, s.left, es.right, s.right, w);
  }

  lemma RightCloses(es: Envs, s: Sys, w: Waker)
    requires Prompt(es.left) && Prompt(es.right) && Sound(es, s)
    ensures var t := Moved(es, s, Right(CloseOp(w)));
            && Sound(es, t) && HasClosed(t.right) && t.left == s.left.(incoming := t.left.incoming)
            && (HasClosed(s.left) ==> t.right.state.CloseAcknowledged? && t.right.shut)
  {
    hide Inv, Shaken, PollClose, DataDeliverable, HasClosed, NoFaults, NeverStalls;
    MoveKeeps(es, s, Right(CloseOp(w)));
    MoveShaken(es, s, Right(CloseOp(w)));
    CloseOnce(es.right, s.right, es.left, s.left, w);
  }

  /** The connection is over and shut down, all is written, and everything the peer has queued is delivered. */
  predicate Over(c: Conn, peer: Conn) {
    && c.state.CloseAcknowledged? && Pending(c.queue) == [] && c.shut
    && HandshakeDone(c) && c.events == Deliveries(peer.outbox)
  }

  /** Three calls of `poll_close`, by turns. */
  function Closes(v: Waker, w: Waker): (moves: seq<Move>)
    ensures MovesOk(moves)
  {
    [Left(CloseOp(v)), Right(CloseOp(w)), Left(CloseOp(v))]
  }

  lemma ThreeCloses(es: Envs, s: Sys, v: Waker, w: Waker)
    requires Prompt(es.left) && Prompt(es.right) && Sound(es, s)
    ensures var t := RunSys(es, s, Closes(v, w));
            Over(t.left, t.right) && Over(t.right, t.left)
  {
    hide Prompt, Moved, SysInv, SysShaken, Compatible, Pending, EndsWithClose, HandshakeDone, Deliveries;
    var a, b := Left(CloseOp(v)), Right(CloseOp(w));
    var s1 := Moved(es, s, a);
    var s2 := Moved(es, s1, b);
    var s3 := Moved(es, s2, a);
    LeftCloses(es, s, v);
    RightCloses(es, s1, w);
    LeftCloses(es, s2, v);
    ShakenConcludes(es, s3);
    assert [a, b, a][1..] == [b, a] && [b, a][1..] == [a] && [a][1..] == [];
    assert RunSys(es, s2, [a]) == RunSys(es, s3, []) == s3;
    assert RunSys(es, s1, [b, a]) == RunSys(es, s2, [a]);
    assert RunSys(es, s, [a, b, a]) == RunSys(es, s1, [b, a]);
  }

  /** The same endpoints, once their transports no longer stall. */
  ghost predicate Unstalled(es: Envs, later: Envs) {
    && SameEndpoint(es.left, later.left) && Prompt(later.left)
    && SameEndpoint(es.right, later.right) && Prompt(later.right)
  }

  ghost predicate SameEndpoint(env: Env, later: Env) { later == env.(io := later.io) }

  lemma SameKeeps(env: Env, later: Env, c: Conn)
    requires SameEndpoint(env, later)
    ensures Inv(env, c) ==> Inv(later, c)
    ensures Shaken(env, c) ==> Shaken(later, c)
  {
    hide Drive, Bounded;
  }

  /**
    Progress.  Whatever state two endpoints have reached without a fault of a transport, stalls included: once the
    transports no longer stall, three calls of `poll_close`, by turns, bring both to the end of the handshake, with
    everything written and everything delivered.
   */
  lemma HandshakeFinishes(es: Envs, moves: seq<Move>, later: Envs, v: Waker, w: Waker)
    requires MovesOk(moves) && NoCuts(moves) && NoFaults(es.left) && NoFaults(es.right)
    requires Compatible(es, RunSys(es, BEGIN, moves)) && Unstalled(es, later)
    ensures var s := RunSys(es, BEGIN, moves);
            var t := RunSys(later, s, Closes(v, w));
            Over(t.left, t.right) && Over(t.right, t.left)
  {
    hide RunSys, Inv, Shaken, NoFaults, Over, Prompt, DataDeliverable;
    RunKeepsShaken(es, moves);
    var s := RunSys(es, BEGIN, moves);
    SameKeeps(es.left, later.left, s.left);
    SameKeeps(es.right, later.right, s.right);
    ThreeCloses(later, s, v, w);
  }
}
