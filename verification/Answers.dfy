/**
  What a connection answers of its own accord (src/proto/stream.rs:307-356): a pong to a ping, the code of a close
  to a close, and a close that names the fault to a fault, each exactly once and only while the connection is
  active.
 */
module Answers {
  import opened Bytes
  import opened Types
  import opened Wire
  import opened Queue
  import opened Receive
  import opened Connection
  import opened Discipline
  import opened Finality

  /** Queued messages and state are as they were. */
  predicate Unanswered(c: Conn, r: Conn) { r.outbox == c.outbox && r.state == c.state }

  /** One more message is queued, a close from which the peer reads this code and this reason. */
  predicate Closes(c: Conn, r: Conn, read: (CloseCode, seq<byte>)) {
    && r.outbox != [] && r.outbox[..|r.outbox| - 1] == c.outbox && r.state.ClosedByPeer?
    && var m := r.outbox[|r.outbox| - 1];
       m.opcode.Close? && CloseOk(m.payload) && AsClose(m) == Some(read)
  }

  /** A close is answered with the code the peer gave and no reason, a ping with a pong of the same payload. */
  predicate FrameAnswered(c: Conn, r: Conn, f: Frame)
    requires GoodFrame(f)
  {
    if f.opcode.Close? then
      if c.state.Active? then Closes(c, r, (AsClose(Message(Close, f.payload)).value.0, []))
      else r.outbox == c.outbox && r.state.CloseAcknowledged?
    else if f.opcode.Ping? && c.state.Active? then
      r.outbox == c.outbox + [Message(Pong, f.payload)] && r.state == c.state
    else Unanswered(c, r)
  }

  /** A fault is answered with a close that names it. */
  predicate ErrorAnswered(c: Conn, r: Conn, e: Error) {
    if c.state.Active? && !e.Io? && ReadError(e) then Closes(c, r, (ErrorCode(e), ErrorReason(e)))
    else r.outbox == c.outbox && r.state.CloseAcknowledged?
  }

  lemma ReactAnswers(env: Env, c: Conn, f: Frame)
    requires IsReading(c) && GoodFrame(f)
    ensures FrameAnswered(c, React(env, c, f), f)
  {
    hide Pushed, Encoded, CloseEcho;
    if f.opcode.Close? {
      EchoKeepsCode(f.payload);
    }
  }

  lemma ReactErrorAnswers(env: Env, c: Conn, e: Error)
    requires IsReading(c) && ReadError(e)
    ensures ErrorAnswered(c, ReactError(env, c, e), e)
  {
    hide Pushed, Encoded, ErrorClose;
    if !e.Io? {
      ErrorCloseNames(e);
    }
  }

  lemma SameBefore(b: Conn, c: Conn, r: Conn)
    requires Unanswered(b, c)
    ensures forall f | GoodFrame(f) :: FrameAnswered(c, r, f) <==> FrameAnswered(b, r, f)
    ensures forall e :: ErrorAnswered(c, r, e) <==> ErrorAnswered(b, r, e)
  {
  }

  predicate PollAnswered(c: Conn, r: Conn, p: Poll<Frame>) {
    match p
    case Item(f) => GoodFrame(f) && FrameAnswered(c, r, f)
    case Raised(e) => ErrorAnswered(c, r, e)
    case Waiting => Unanswered(c, r)
    case Ended => r.outbox == c.outbox && (r.state == c.state || r.state.CloseAcknowledged?)
  }

  lemma ReadAndReactAnswers(env: Env, c: Conn)
    requires IsReading(c)
    ensures var (r, p) := ReadAndReact(env, c); PollAnswered(c, r, p)
  {
    hide ReadFrame, React, ReactError, FrameAnswered, ErrorAnswered;
    var (c1, p) := ReadFrame(env, c);
    SameBefore(c, c1, ReadAndReact(env, c).0);
    match p {
      case Item(f) => ReactAnswers(env, c1, f);
      case Raised(e) => ReactErrorAnswers(env, c1, e);
      case _ =>
    }
  }

  lemma PollNextFrameAnswers(env: Env, c: Conn, w: Waker)
    ensures var (r, p) := PollNextFrame(env, c, w); PollAnswered(c, r, p)
  {
    hide ReadAndReact, Flush, FrameAnswered, Pending, Closes;
    if IsReading(c) {
      var c1 := if Pending(c.queue) != [] then Flush(env, c, FlushWaker(c, w)).0 else c;
      if IsReading(c1) {
        ReadAndReactAnswers(env, c1);
        SameBefore(c, c1, ReadAndReact(env, c1).0);
      }
    }
  }

  lemma WholeFrame(maxLen: nat, rx: Rx, f: Frame)
    requires !rx.frag.IsControl() && GoodFrame(f)
    ensures var a := Assemble(maxLen, rx, f);
            && (f.opcode.IsControl() ==> a.events == [Delivered(Message(f.opcode, f.payload))])
            && (!f.opcode.IsControl() && a.events != [] && a.events[0].Delivered? ==>
                  !a.events[0].message.opcode.IsControl())
  {
  }

  /** What has been answered when `poll_next` has answered. */
  predicate Answered(c: Conn, r: Conn, p: Poll<Message>) {
    match p
    case Item(m) =>
      if m.opcode.IsControl() then GoodFrame(m.IntoFrame()) && FrameAnswered(c, r, m.IntoFrame()) else Unanswered(c, r)
    case Raised(e) => if r.events == c.events then ErrorAnswered(c, r, e) else Unanswered(c, r)
    case Waiting => Unanswered(c, r)
    case Ended => r.outbox == c.outbox && (r.state == c.state || r.state.CloseAcknowledged?)
  }

  lemma {:induction false} PollNextAnswers(env: Env, c: Conn, w: Waker)
    requires Inv(env, c)
    ensures var (r, p) := PollNext(env, c, w); Answered(c, r, p)
    decreases Unread(c)
  {
    hide Drive, ParseFrame, Assemble, SendInv, CloseInv, ReadInv, PollNextFrame, FrameAnswered, ErrorAnswered;
    PollNextFrameMeans(env, c, w);
    PollNextFrameAnswers(env, c, w);
    var (c1, p) := PollNextFrame(env, c, w);
    if p.Item? {
      var f := p.value;
      AssemblingInv(env, c1, f);
      AssembleOnce(env.cfg.maxLen, c1.rx, f);
      WholeFrame(env.cfg.maxLen, c1.rx, f);
      var a := Assemble(env.cfg.maxLen, c1.rx, f);
      var c2 := Assembling(env, c1, f);
      if f.opcode.IsControl() {
        assert Message(f.opcode, f.payload).IntoFrame() == f;
        SameAnswer(c, c1, c2, f);
      } else {
        DataUnanswered(c, c1, f);
        if a.events == [] {
          PollNextAnswers(env, c2, w);
          var (r, q) := PollNext(env, c2, w);
          AnsweredLater(c, c2, r, q);
        }
      }
    }
  }

  lemma SameAnswer(c: Conn, r: Conn, s: Conn, f: Frame)
    requires GoodFrame(f) && r.outbox == s.outbox && r.state == s.state
    ensures FrameAnswered(c, r, f) == FrameAnswered(c, s, f)
  {
  }

  lemma DataUnanswered(c: Conn, r: Conn, f: Frame)
    requires GoodFrame(f) && !f.opcode.IsControl() && FrameAnswered(c, r, f)
    ensures Unanswered(c, r)
  {
  }

  lemma AnsweredLater(c: Conn, d: Conn, r: Conn, p: Poll<Message>)
    requires Unanswered(c, d) && d.events == c.events && Answered(d, r, p)
    ensures Answered(c, r, p)
  {
  }

  /**
    `poll_close` queues the default close if the connection is active, and nothing else; when done all is written
    and the transport is shut down.
   */
  lemma PollCloseAnswers(env: Env, c: Conn, w: Waker)
    ensures var (r, f) := PollClose(env, c, w);
            && r.outbox == (if c.state.Active? then c.outbox + [DefaultClose()] else c.outbox)
            && !r.state.Active?
            && (f.FlushDone? ==> Pending(r.queue) == [] && r.shut)
  {
    hide Drain, Flush, Shutdown, Pushed, Encoded;
    DrainOnward(env, Closing(env, c), w);
  }

  /**
    The end of the stream is answered only when the connection is over, whether by the handshake or by a failure, or
    when the transport ended between two frames.
   */
  lemma {:induction false} EndedMeans(env: Env, c: Conn, w: Waker)
    requires PollNext(env, c, w).1.Ended?
    ensures var r := PollNext(env, c, w).0;
            r.state.CloseAcknowledged? || (r.eof && r.wire == [] && r.incoming == [])
    decreases Unread(c)
  {
    hide ReadFrame, Flush, Assemble, CloseEcho, ErrorClose;
    ReadEndedMeans(env, c);
    ReadEndedMeans(env, Flush(env, c, FlushWaker(c, w)).0);
    var (c1, p) := PollNextFrame(env, c, w);
    if p.Item? {
      EndedMeans(env, Assembling(env, c1, p.value), w);
    }
  }

  lemma {:induction false} ReadEndedMeans(env: Env, c: Conn)
    ensures var (r, p) := ReadFrame(env, c);
            p.Ended? ==> r.eof && r.wire == [] && r.incoming == []
    decreases |c.incoming|
  {
    hide ParseFrame;
    if ParseFrame(env.cfg, c.rx, c.wire).More? {
      match env.io(c.clock) {
        case Grant(n) =>
          var k := Min(n, |c.incoming|);
          if k != 0 {
            ReadEndedMeans(env, Read(c.(clock := c.clock + 1), k));
          }
        case _ =>
      }
    }
  }
}
