/**
  The closing handshake: while the transport does not fail, a connection is over only once it has queued a close
  and has received one, or the peer broke the protocol.
 */
module Handshake {
  import opened Bytes
  import opened Types
  import opened Wire
  import opened Queue
  import opened Receive
  import opened Connection
  import opened Discipline
  import opened Finality
  import opened Answers

  /** The transport stalls, but does not break and takes a byte whenever it takes any. */
  ghost predicate NoFaults(env: Env) {
    forall n :: env.io(n).Stall? || (env.io(n).Grant? && env.io(n).n >= 1)
  }

  predicate ClosedEvents(events: seq<Event>) {
    events != [] && var e := events[|events| - 1]; e.Delivered? && e.message.opcode.Close?
  }

  predicate Shaken(env: Env, c: Conn) {
    IsReading(c) ||
    (EndsWithClose(c.outbox) && (ClosedEvents(c.events) || Drive(env.cfg, IDLE, c.received).end.Broken?))
  }

  lemma {:induction false} FlushDoesNotFail(env: Env, c: Conn, w: Waker)
    requires NoFaults(env)
    ensures !Flush(env, c, w).1.FlushFailed?
    decreases |Pending(c.queue)|
  {
    hide Pending, Advanced, Offered;
    match env.io(c.clock) {
      case Grant(n) =>
        if Pending(c.queue) != [] {
          var offer := Offered(env, c.queue);
          var k := Min(n, |offer|);
          assert k != 0;
          var c1 := c.(clock := c.clock + 1, queue := Advanced(c.queue, k), sent := c.sent + offer[..k]);
          FlushDoesNotFail(env, c1, w);
        }
      case _ =>
    }
  }

  lemma {:induction false} ReadDoesNotFail(env: Env, c: Conn)
    requires NoFaults(env) && !c.eof
    ensures var (r, p) := ReadFrame(env, c); p.Raised? ==> !p.error.Io?
    decreases |c.incoming|
  {
    hide ParseFrame;
    ParsedIsGood(env.cfg, c.rx, c.wire);
    if ParseFrame(env.cfg, c.rx, c.wire).More? {
      match env.io(c.clock) {
        case Grant(n) =>
          var k := Min(n, |c.incoming|);
          if k != 0 {
            ReadDoesNotFail(env, Read(c.(clock := c.clock + 1), k));
          }
        case _ =>
      }
    }
  }

  /** The state between decoding a close and delivering it. */
  predicate ShakenFrame(env: Env, r: Conn, p: Poll<Frame>) {
    && (IsReading(r) || EndsWithClose(r.outbox))
    && (p.Item? || Shaken(env, r))
  }

  lemma ReadAndReactShaken(env: Env, c: Conn)
    requires NoFaults(env) && !c.eof && Inv(env, c) && IsReading(c)
    ensures var (r, p) := ReadAndReact(env, c); ShakenFrame(env, r, p)
  {
    hide Drive, ParseFrame, SendInv, ReadInv, CloseEcho, ErrorClose, ReadFrame, MidInv;
    ReadAndReactMeans(env, c);
    ReadDoesNotFail(env, c);
    var (c1, p) := ReadFrame(env, c);
    assert c.state.ClosedByUs? ==> EndsWithClose(c1.outbox);
    match p {
      case Item(f) =>
      case Raised(e) => assert EndsWithClose(ReactError(env, c1, e).outbox);
      case _ =>
    }
  }

  lemma PollNextFrameShaken(env: Env, c: Conn, w: Waker)
    requires NoFaults(env) && !c.eof && Inv(env, c) && Shaken(env, c)
    ensures var (r, p) := PollNextFrame(env, c, w); ShakenFrame(env, r, p)
  {
    hide Drive, ParseFrame, Inv, Flush, ReadAndReact;
    FlushDoesNotFail(env, c, w);
    FlushDoesNotFail(env, c, FlushWaker(c, w));
    if IsReading(c) {
      if Pending(c.queue) != [] {
        FlushKeeps(env, c, FlushWaker(c, w));
        ReadAndReactShaken(env, Flush(env, c, FlushWaker(c, w)).0);
      } else {
        ReadAndReactShaken(env, c);
      }
    }
  }

  lemma CloseIsDelivered(maxLen: nat, rx: Rx, f: Frame)
    requires f.opcode.Close? && f.fin
    ensures ClosedEvents(Assemble(maxLen, rx, f).events)
  {
  }

  lemma ClosedAppend(a: seq<Event>, b: seq<Event>)
    requires ClosedEvents(b)
    ensures ClosedEvents(a + b)
  {
  }

  lemma {:induction false} PollNextShaken(env: Env, c: Conn, w: Waker)
    requires NoFaults(env) && !c.eof && Inv(env, c) && Shaken(env, c)
    ensures Shaken(env, PollNext(env, c, w).0) && !PollNext(env, c, w).0.eof
    decreases Unread(c)
  {
    hide Drive, ParseFrame, Assemble, SendInv, CloseInv, ReadInv, MidInv, PollNextFrame, ClosedEvents;
    PollNextFrameShaken(env, c, w);
    PollNextFrameMeans(env, c, w);
    KeepsEof(env, c, w);
    var (c1, p) := PollNextFrame(env, c, w);
    if p.Item? {
      var f := p.value;
      AssemblingInv(env, c1, f);
      var c2 := Assembling(env, c1, f);
      if f.opcode.Close? {
        CloseIsDelivered(env.cfg.maxLen, c1.rx, f);
        ClosedAppend(c1.events, Assemble(env.cfg.maxLen, c1.rx, f).events);
      }
      if Assemble(env.cfg.maxLen, c1.rx, f).events == [] {
        PollNextShaken(env, c2, w);
      }
    }
  }

  lemma KeepsEof(env: Env, c: Conn, w: Waker)
    ensures PollNextFrame(env, c, w).0.eof == c.eof
  {
    hide ReadFrame, Flush, CloseEcho, ErrorClose;
  }

  lemma {:induction false} DrainShaken(env: Env, c: Conn, w: Waker)
    requires NoFaults(env) && !c.eof && Inv(env, c) && Shaken(env, c)
    ensures Shaken(env, Drain(env, c, w).0) && !Drain(env, c, w).0.eof
    decreases Rank(c.state), Unread(c)
  {
    hide Inv, PollNext, Shaken;
    PollNextMeans(env, c, w);
    PollNextShaken(env, c, w);
    var (c1, p) := PollNext(env, c, w);
    if p.Item? || p.Raised? {
      DrainShaken(env, c1, w);
    }
  }

  /** While the transport does not fail, every operation keeps the handshake. */
  lemma DoShaken(env: Env, c: Conn, op: Op)
    requires NoFaults(env) && !c.eof && Inv(env, c) && Shaken(env, c) && OpOk(op) && !op.HangUp?
    ensures Shaken(env, Do(env, c, op).0) && !Do(env, c, op).0.eof
  {
    hide Flush, Shutdown, PollNext, Drain, Inv, Drive;
    match op {
      case Send(m) =>
        InvParts(env, c);
        SendStep(env, c, m);
      case FlushOp(w) => FlushDoesNotFail(env, c, w);
      case ReadyOp(w) => FlushDoesNotFail(env, c, w);
      case NextOp(w) => PollNextShaken(env, c, w);
      case CloseOp(w) =>
        var c0 := Closing(env, c);
        ClosingKeeps(env, c);
        DrainShaken(env, c0, w);
        FlushDoesNotFail(env, Drain(env, c0, w).0, w);
      case Arrive(_) =>
      case HangUp =>
    }
  }

  /** While the transport does not fail or end, the end is answered only when the handshake is over. */
  lemma EndedIsShaken(env: Env, c: Conn, w: Waker)
    requires NoFaults(env) && !c.eof && Inv(env, c) && Shaken(env, c) && PollNext(env, c, w).1.Ended?
    ensures var r := PollNext(env, c, w).0;
            EndsWithClose(r.outbox) && (ClosedEvents(r.events) || Drive(env.cfg, IDLE, r.received).end.Broken?)
  {
    hide PollNext, Drive, Inv, EndsWithClose, ClosedEvents;
    PollNextShaken(env, c, w);
    EndedMeans(env, c, w);
  }

  /** A transport that breaks ends the stream without any close. */
  lemma EndedByFailure(env: Env, v: Waker, w: Waker)
    requires env.io(0).Break?
    ensures var c := Run(env, START, [FlushOp(v)]);
            var (r, p) := PollNext(env, c, w);
            p.Ended? && !r.eof && r.outbox == [] && r.events == []
  {
    var (c, f) := Flush(env, START, v);
    assert Run(env, START, [FlushOp(v)]) == Run(env, c, []) by {
      assert [FlushOp(v)][1..] == [];
    }
    assert c.state.CloseAcknowledged?;
  }
}
