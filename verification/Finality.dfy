/**
  Closing: the state of a connection only moves forward, nothing is queued after a close, and nothing is delivered
  once a close or an error of the decoder has been surfaced.
 */
module Finality {
  import opened Bytes
  import opened Types
  import opened Wire
  import opened Queue
  import opened Receive
  import opened Exchange
  import opened Connection
  import opened Discipline

  // ---------------------------------------------------------------- the state only moves forward

  predicate Forward(s: StreamState, t: StreamState) {
    s == t || s.Active? || t.CloseAcknowledged?
  }

  /** What an operation keeps of a connection: its state moves forward, and what was queued stays queued. */
  predicate Onward(c: Conn, r: Conn) {
    && Forward(c.state, r.state)
    && c.outbox <= r.outbox && c.log <= r.log && c.events <= r.events && c.sent <= r.sent
    && (!c.state.Active? ==> r.outbox == c.outbox && r.log == c.log)
    && (!IsReading(c) ==> r.rx == c.rx && r.wire == c.wire && r.received == c.received && r.events == c.events)
  }

  lemma OnwardTwice(a: Conn, b: Conn, c: Conn)
    requires Onward(a, b) && Onward(b, c)
    ensures Onward(a, c)
  {
  }

  lemma FlushOnward(env: Env, c: Conn, w: Waker)
    ensures Onward(c, Flush(env, c, w).0)
  {
    FlushBytes(env, c, w);
  }

  lemma QueueSingleOnward(env: Env, c: Conn, d: Conn, m: Message)
    requires |m.payload| < USIZE_END && c.state.Active? && d == c.(state := d.state)
    ensures Onward(c, QueueSingle(env, d, m))
  {
  }

  lemma PollNextFrameOnward(env: Env, c: Conn, w: Waker)
    ensures Onward(c, PollNextFrame(env, c, w).0)
  {
    hide ParseFrame, ReadFrame, Flush, React, ReactError;
    if c.state.ClosedByPeer? {
      FlushOnward(env, c, w);
    } else if !c.state.CloseAcknowledged? {
      var c1 := if Pending(c.queue) != [] then Flush(env, c, FlushWaker(c, w)).0 else c;
      FlushOnward(env, c, FlushWaker(c, w));
      if IsReading(c1) {
        ReadAndReactOnward(env, c1);
      }
    }
  }

  lemma ReadAndReactOnward(env: Env, c: Conn)
    requires IsReading(c)
    ensures Onward(c, ReadAndReact(env, c).0)
  {
    hide ParseFrame, ReadFrame, CloseEcho, ErrorClose;
    var (c1, p) := ReadFrame(env, c);
    match p {
      case Item(f) =>
        if c1.state.Active? && (f.opcode.Close? || f.opcode.Ping?) {
          QueueSingleOnward(env, c1, if f.opcode.Close? then c1.(state := ClosedByPeer) else c1,
                            if f.opcode.Close? then CloseEcho(f.payload) else Message(Pong, f.payload));
        }
      case Raised(e) =>
        if c1.state.Active? && !e.Io? {
          QueueSingleOnward(env, c1, c1.(state := ClosedByPeer), ErrorClose(e));
        }
      case _ =>
    }
  }

  lemma {:induction false} PollNextOnward(env: Env, c: Conn, w: Waker)
    ensures Onward(c, PollNext(env, c, w).0)
    decreases Unread(c)
  {
    hide PollNextFrame, Assemble;
    PollNextFrameOnward(env, c, w);
    var (c1, p) := PollNextFrame(env, c, w);
    if p.Item? {
      assert IsReading(c) by { ItemWhileReading(env, c, w); }
      var f := p.value;
      var c2 := Assembling(env, c1, f);
      assert Onward(c, c2);
      if Assemble(env.cfg.maxLen, c1.rx, f).events == [] {
        PollNextOnward(env, c2, w);
        OnwardTwice(c, c2, PollNext(env, c2, w).0);
      }
    }
  }

  lemma ItemWhileReading(env: Env, c: Conn, w: Waker)
    requires PollNextFrame(env, c, w).1.Item?
    ensures IsReading(c)
  {
  }

  lemma {:induction false} DrainOnward(env: Env, c: Conn, w: Waker)
    ensures Onward(c, Drain(env, c, w).0)
    decreases Rank(c.state), Unread(c)
  {
    hide PollNext;
    PollNextOnward(env, c, w);
    var (c1, p) := PollNext(env, c, w);
    if p.Item? || p.Raised? {
      DrainOnward(env, c1, w);
      OnwardTwice(c, c1, Drain(env, c1, w).0);
    }
  }

  lemma CloseOnward(env: Env, c: Conn, w: Waker)
    ensures Onward(c, PollClose(env, c, w).0)
  {
    hide Drain, Flush, Shutdown;
    var c0 := Closing(env, c);
    if c.state.Active? {
      QueueSingleOnward(env, c, c, DefaultClose());
    }
    DrainOnward(env, c0, w);
    var c1 := Drain(env, c0, w).0;
    FlushOnward(env, c1, w);
    OnwardTwice(c, c0, c1);
    OnwardTwice(c, c1, Flush(env, c1, w).0);
  }

  /** No operation moves the state back, unsends anything, or queues anything after the close. */
  lemma DoOnward(env: Env, c: Conn, op: Op)
    requires Inv(env, c) && OpOk(op)
    ensures Onward(c, Do(env, c, op).0)
  {
    hide Flush, PollNext, PollClose, StartSend, Inv, SendInv, CloseInv, ReadInv;
    match op {
      case Send(m) =>
        InvParts(env, c);
        SendStep(env, c, m);
        LogGrows(env, c, m);
        if !c.state.Active? {
          NotSent(env, c, m);
        }
      case FlushOp(w) => FlushOnward(env, c, w);
      case ReadyOp(w) => FlushOnward(env, c, w);
      case NextOp(w) => PollNextOnward(env, c, w);
      case CloseOp(w) => CloseOnward(env, c, w);
      case _ =>
    }
  }

  lemma LogGrows(env: Env, c: Conn, m: Message)
    requires |m.payload| < USIZE_END
    ensures c.log <= StartSend(env, c, m).0.log
  {
    if c.state.Active? {
      UnitSized(m, env.frameSize);
      FramesGrow(env, c, UnitFrames(m, env.frameSize));
    }
  }

  lemma {:induction false} FramesGrow(env: Env, c: Conn, fs: seq<Frame>)
    requires AllSized(fs)
    ensures c.log <= QueueFrames(env, c, fs).log
    decreases fs
  {
    if fs != [] {
      FramesGrow(env, QueueFrame(env, c, fs[0]), fs[1..]);
    }
  }

  lemma InvParts(env: Env, c: Conn)
    requires Inv(env, c)
    ensures SendInv(env, c) && CloseInv(c) && ReadInv(env, c)
  {
  }

  lemma NotSent(env: Env, c: Conn, m: Message)
    requires |m.payload| < USIZE_END && !c.state.Active?
    ensures StartSend(env, c, m).0 == c
  {
  }

  /** Over a whole run. */
  lemma {:induction false} RunOnward(env: Env, c: Conn, ops: seq<Op>)
    requires Inv(env, c) && OpsOk(ops)
    ensures Onward(c, Run(env, c, ops))
    decreases ops
  {
    hide Inv, Do;
    if ops != [] {
      DoOnward(env, c, ops[0]);
      DoKeeps(env, c, ops[0]);
      var c1 := Do(env, c, ops[0]).0;
      RunOnward(env, c1, ops[1..]);
      OnwardTwice(c, c1, Run(env, c1, ops[1..]));
    }
  }

  // ---------------------------------------------------------------- finality

  function Results(env: Env, c: Conn, ops: seq<Op>): seq<Result>
    requires OpsOk(ops)
    decreases ops
  {
    if ops == [] then [] else [Do(env, c, ops[0]).1] + Results(env, Do(env, c, ops[0]).0, ops[1..])
  }

  /** The answers of `poll_next` once the end was surfaced: pending, then one error at most, then the end forever. */
  predicate Final(ended: bool, results: seq<Result>)
    decreases results
  {
    if results == [] then true
    else match results[0]
      case Polled(p) =>
        (match p
         case Waiting => !ended && Final(ended, results[1..])
         case Ended => Final(true, results[1..])
         case Raised(e) => !ended && e.Io? && Final(true, results[1..])
         case Item(_) => false)
      case _ => Final(ended, results[1..])
  }

  /** `poll_next` after the end was surfaced does not touch the decoder. */
  lemma NextWhenOver(env: Env, c: Conn, w: Waker)
    requires !IsReading(c)
    ensures var (r, p) := PollNext(env, c, w);
            && r == c.(state := r.state, queue := r.queue, waker := r.waker, sent := r.sent, clock := r.clock)
            && !IsReading(r)
            && (c.state.CloseAcknowledged? ==> p.Ended? && r == c)
            && (p.Waiting? || ((p.Ended? || (p.Raised? && p.error.Io?)) && r.state.CloseAcknowledged?))
  {
    hide Flush;
  }

  lemma {:induction false} ResultsAreFinal(env: Env, c: Conn, ops: seq<Op>, ended: bool)
    requires OpsOk(ops) && !IsReading(c) && Inv(env, c) && (ended ==> c.state.CloseAcknowledged?)
    ensures Final(ended, Results(env, c, ops))
    decreases ops
  {
    hide Inv, Do;
    if ops != [] {
      var (c1, r) := Do(env, c, ops[0]);
      DoKeeps(env, c, ops[0]);
      DoOnward(env, c, ops[0]);
      DoWhenOver(env, c, ops[0]);
      assert Results(env, c, ops)[1..] == Results(env, c1, ops[1..]);
      ResultsAreFinal(env, c1, ops[1..], ended || (r.Polled? && !r.p.Waiting?));
    }
  }

  lemma DoWhenOver(env: Env, c: Conn, op: Op)
    requires OpOk(op) && !IsReading(c)
    ensures var (r, res) := Do(env, c, op);
            res.Polled? ==>
              && (c.state.CloseAcknowledged? ==> res.p.Ended?)
              && (res.p.Waiting? ||
                  ((res.p.Ended? || (res.p.Raised? && res.p.error.Io?)) && r.state.CloseAcknowledged?))
  {
    hide Flush, PollNext, PollClose, StartSend;
    if op.NextOp? {
      NextWhenOver(env, c, op.w);
    }
  }

  /**
    Once `poll_next` has delivered a close, or raised an error that does not report an assembled message as too
    long, then over every continuation of the run the decoder and the delivered messages stay as they are, and
    `poll_next` answers with at most one more error, of the transport, and then with the end for ever.
   */
  lemma SurfacedIsFinal(env: Env, c: Conn, w: Waker, ops: seq<Op>)
    requires Inv(env, c) && OpsOk(ops)
    requires var (r, p) := PollNext(env, c, w);
             (p.Item? && p.value.opcode.Close?) || (p.Raised? && r.events == c.events)
    ensures var r := PollNext(env, c, w).0;
            var z := Run(env, r, ops);
            && z.rx == r.rx && z.wire == r.wire && z.received == r.received && z.events == r.events
            && Final(false, Results(env, r, ops))
  {
    hide Inv, Run, Results, PollNext, Drive, ParseFrame;
    PollNextMeans(env, c, w);
    var (r, p) := PollNext(env, c, w);
    if p.Item? {
      CloseStops(env, c, w);
    }
    RunOnward(env, r, ops);
    ResultsAreFinal(env, r, ops, false);
  }

  lemma {:induction false} CloseStops(env: Env, c: Conn, w: Waker)
    requires Inv(env, c)
    requires var p := PollNext(env, c, w).1; p.Item? && p.value.opcode.Close?
    ensures !IsReading(PollNext(env, c, w).0)
    decreases Unread(c)
  {
    hide Drive, ParseFrame, Assemble, SendInv, CloseInv, ReadInv, PollNextFrame;
    PollNextFrameMeans(env, c, w);
    var (c1, p) := PollNextFrame(env, c, w);
    var f := p.value;
    AssemblingInv(env, c1, f);
    var a := Assemble(env.cfg.maxLen, c1.rx, f);
    if a.events == [] {
      CloseStops(env, Assembling(env, c1, f), w);
    } else if !f.opcode.Close? {
      NoCloseAssembled(env, c1, f);
    }
  }

  lemma NoCloseAssembled(env: Env, c: Conn, f: Frame)
    requires MidInv(env, c, f) && !f.opcode.Close?
    ensures var a := Assemble(env.cfg.maxLen, c.rx, f);
            a.events != [] && a.events[0].Delivered? ==> !a.events[0].message.opcode.Close?
  {
  }
}
