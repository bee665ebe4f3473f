/**
  What every operation of a connection keeps, and what holds over every run: the written bytes are the printed
  frames of the messages queued, the delivered messages are those of the bytes read, and at most one close is
  queued, after everything else.
 */
module Discipline {
  import opened Bytes
  import opened Types
  import opened Wire
  import opened Queue
  import opened Receive
  import opened Exchange
  import opened Delivery
  import opened Connection

  // ---------------------------------------------------------------- the outgoing side

  predicate NoCloseIn(outbox: seq<Message>) {
    forall i :: 0 <= i < |outbox| ==> !outbox[i].opcode.Close?
  }

  predicate EndsWithClose(outbox: seq<Message>) {
    outbox != [] && outbox[|outbox| - 1].opcode.Close?
  }

  predicate AllConstructible(outbox: seq<Message>) {
    forall i :: 0 <= i < |outbox| ==> Constructible(outbox[i])
  }

  /** A client masks every frame with the next key of its generator, a server none (section 5.3 of RFC 6455). */
  predicate KeysDrawn(env: Env, log: seq<Sent>) {
    forall i :: 0 <= i < |log| ==> log[i].mask == if env.cfg.role.Client? then Some(env.key(i)) else None
  }

  lemma {:induction false} DrawnFit(env: Env, log: seq<Sent>)
    requires KeysDrawn(env, log)
    ensures MasksFit(env.cfg.role.Opposite(), log)
  {
  }

  /** First in, first out: written and pending bytes together are the frames of the messages queued. */
  predicate SendInv(env: Env, c: Conn) {
    && c.sent + Pending(c.queue) == EncodeAll(c.log)
    && FramesOf(c.log) == Flat(c.outbox, env.frameSize)
    && KeysDrawn(env, c.log)
  }

  /** At most one close is queued, after everything else. */
  predicate CloseInv(c: Conn) {
    && AllConstructible(c.outbox) && ClosesLast(c.outbox)
    && (c.state.Active? ==> NoCloseIn(c.outbox))
    && (c.state.ClosedByUs? || c.state.ClosedByPeer? ==> EndsWithClose(c.outbox))
  }

  lemma {:induction false} ClosesLastAppend(outbox: seq<Message>, m: Message)
    requires NoCloseIn(outbox)
    ensures ClosesLast(outbox + [m])
    decreases outbox
  {
    if outbox != [] {
      assert (outbox + [m])[1..] == outbox[1..] + [m] && (outbox + [m])[0] == outbox[0];
      ClosesLastAppend(outbox[1..], m);
    } else {
      assert (outbox + [m])[1..] == [];
    }
  }

  lemma {:induction false} NoCloseIsLast(outbox: seq<Message>)
    requires NoCloseIn(outbox)
    ensures ClosesLast(outbox)
    decreases outbox
  {
    if outbox != [] {
      NoCloseIsLast(outbox[1..]);
    }
  }

  /** Flushing moves bytes from the queue to the transport, and neither loses nor reorders any. */
  lemma {:induction false} FlushBytes(env: Env, c: Conn, w: Waker)
    ensures var r := Flush(env, c, w).0;
            r.sent + Pending(r.queue) == c.sent + Pending(c.queue) && c.sent <= r.sent
    decreases |Pending(c.queue)|
  {
    hide Pending, Advanced, Offered;
    match env.io(c.clock) {
      case Grant(n) =>
        if Pending(c.queue) != [] {
          var offer := Offered(env, c.queue);
          var k := Min(n, |offer|);
          if k != 0 {
            var c1 := c.(clock := c.clock + 1, queue := Advanced(c.queue, k), sent := c.sent + offer[..k]);
            FlushBytes(env, c1, w);
            assert offer[..k] == Pending(c.queue)[..k];
            TakeDrop(Pending(c.queue), k);
            Regroup(c.sent, offer[..k], Pending(c.queue)[k..]);
          }
        }
      case _ =>
    }
  }

  lemma FlushInv(env: Env, c: Conn, w: Waker)
    ensures SendInv(env, c) ==> SendInv(env, Flush(env, c, w).0)
    ensures CloseInv(c) ==> CloseInv(Flush(env, c, w).0)
  {
    FlushBytes(env, c, w);
  }

  lemma {:induction false} QueueFrameBytes(env: Env, c: Conn, f: Frame)
    requires |f.payload| < USIZE_END
    requires c.sent + Pending(c.queue) == EncodeAll(c.log) && KeysDrawn(env, c.log)
    ensures var r := QueueFrame(env, c, f);
            && r.sent + Pending(r.queue) == EncodeAll(r.log)
            && KeysDrawn(env, r.log)
            && FramesOf(r.log) == FramesOf(c.log) + [f]
  {
    hide Pending, Pushed, Encoded, EncodeFrame;
    var r := QueueFrame(env, c, f);
    var item: Sent := r.log[|c.log|];
    PushedAppends(c.queue, Encoded(f, item.mask));
    EncodedBytes(f, item.mask);
    EncodeAllAppend(c.log, [item]);
    assert EncodeAll([item]) == EncodeFrame(f, item.mask) + EncodeAll([item][1..]) == EncodeFrame(f, item.mask);
    assert FramesOf([item]) == [f] + FramesOf([item][1..]) == [f];
    Regroup(c.sent, Pending(c.queue), EncodeFrame(f, item.mask));
  }

  lemma {:induction false} QueueFramesBytes(env: Env, c: Conn, fs: seq<Frame>)
    requires AllSized(fs)
    requires c.sent + Pending(c.queue) == EncodeAll(c.log) && KeysDrawn(env, c.log)
    ensures var r := QueueFrames(env, c, fs);
            && r.sent + Pending(r.queue) == EncodeAll(r.log)
            && KeysDrawn(env, r.log)
            && FramesOf(r.log) == FramesOf(c.log) + fs
            && r == c.(state := r.state, queue := r.queue, log := r.log)
            && (NoClose(fs) ==> r.state == c.state)
    decreases fs
  {
    if fs == [] {
      assert FramesOf(c.log) + [] == FramesOf(c.log);
    } else {
      QueueFrameBytes(env, c, fs[0]);
      var c1 := QueueFrame(env, c, fs[0]);
      QueueFramesBytes(env, c1, fs[1..]);
      assert fs == [fs[0]] + fs[1..];
      Regroup(FramesOf(c.log), [fs[0]], fs[1..]);
    }
  }

  lemma {:induction false} OutboxGrows(env: Env, log: seq<Sent>, more: seq<Frame>, all: seq<Sent>,
                                       outbox: seq<Message>, m: Message)
    requires FramesOf(log) == Flat(outbox, env.frameSize) && FramesOf(all) == FramesOf(log) + more
    requires more == UnitFrames(m, env.frameSize)
    ensures FramesOf(all) == Flat(outbox + [m], env.frameSize)
  {
    FlatAppend(outbox, [m], env.frameSize);
    assert Flat([m], env.frameSize) == more + Flat([m][1..], env.frameSize) == more;
  }

  lemma {:induction false} QueueSingleInv(env: Env, c: Conn, m: Message)
    requires SendInv(env, c) && |m.payload| < USIZE_END && (m.opcode.IsControl() || |m.payload| <= env.frameSize)
    ensures SendInv(env, QueueSingle(env, c, m))
  {
    QueueFrameBytes(env, c, m.IntoFrame());
    var r := QueueFrame(env, c, m.IntoFrame());
    OutboxGrows(env, c.log, [m.IntoFrame()], r.log, c.outbox, m);
  }

  lemma CloseInvQueue(c: Conn, r: Conn, m: Message)
    requires NoCloseIn(c.outbox) && AllConstructible(c.outbox) && Constructible(m)
    requires r.outbox == c.outbox + [m]
    requires r.state.Active? ==> !m.opcode.Close?
    requires r.state.ClosedByUs? || r.state.ClosedByPeer? ==> m.opcode.Close?
    ensures CloseInv(r)
  {
    ClosesLastAppend(c.outbox, m);
  }

  lemma SendStep(env: Env, c: Conn, m: Message)
    requires SendInv(env, c) && CloseInv(c) && Constructible(m)
    ensures var r := StartSend(env, c, m).0;
            && SendInv(env, r) && CloseInv(r)
            && r == c.(state := r.state, queue := r.queue, log := r.log, outbox := r.outbox)
            && (r.state == c.state || (c.state.Active? && r.state.ClosedByUs?))
            && (StartSend(env, c, m).1 <==> c.state.Active?)
            && r.outbox == if c.state.Active? then c.outbox + [m] else c.outbox
  {
    if c.state.Active? {
      var fs := UnitFrames(m, env.frameSize);
      UnitSized(m, env.frameSize);
      UnitCloses(m, env.frameSize);
      QueueFramesBytes(env, c, fs);
      var r := QueueFrames(env, c, fs);
      OutboxGrows(env, c.log, fs, r.log, c.outbox, m);
      if m.opcode.Close? {
        assert fs[1..] == [];
        assert r == QueueFrame(env, c, fs[0]);
      }
      CloseInvQueue(c, StartSend(env, c, m).0, m);
    }
  }

  /**
    What a message taken is sent in: a control message in one frame; a data message in frames of the frame size, the
    last of which may be shorter.
   */
  lemma {:induction false} SentInFrames(env: Env, c: Conn, m: Message)
    requires SendInv(env, c) && Constructible(m) && c.state.Active?
    ensures exists fs :: Cuts(fs, m, env.frameSize) && FramesOf(StartSend(env, c, m).0.log) == FramesOf(c.log) + fs
  {
    var fs := UnitFrames(m, env.frameSize);
    UnitSized(m, env.frameSize);
    UnitCuts(m, env.frameSize);
    QueueFramesBytes(env, c, fs);
    assert FramesOf(StartSend(env, c, m).0.log) == FramesOf(c.log) + fs;
  }

  lemma ReactInv(env: Env, c: Conn, f: Frame)
    requires SendInv(env, c) && CloseInv(c) && GoodFrame(f)
    ensures var r := React(env, c, f);
            && SendInv(env, r) && CloseInv(r)
            && r == c.(state := r.state, queue := r.queue, log := r.log, outbox := r.outbox)
            && (f.opcode.Close? && IsReading(c) ==> !IsReading(r)) && (!f.opcode.Close? ==> r.state == c.state)
  {
    hide Pushed, Encoded, Pending, EncodeAll, Flat, FramesOf;
    if f.opcode.Close? {
      if c.state.Active? {
        var m := CloseEcho(f.payload);
        QueueSingleInv(env, c.(state := ClosedByPeer), m);
        CloseInvQueue(c, React(env, c, f), m);
      }
    } else if f.opcode.Ping? && c.state.Active? {
      var m := Message(Pong, f.payload);
      QueueSingleInv(env, c, m);
      CloseInvQueue(c, React(env, c, f), m);
    }
  }

  lemma ReactErrorInv(env: Env, c: Conn, e: Error)
    requires SendInv(env, c) && CloseInv(c) && ReadError(e) && IsReading(c)
    ensures var r := ReactError(env, c, e);
            && SendInv(env, r) && CloseInv(r) && !IsReading(r)
            && r == c.(state := r.state, queue := r.queue, log := r.log, outbox := r.outbox)
  {
    if !e.Io? && !c.state.ClosedByUs? {
      var m := ErrorClose(e);
      QueueSingleInv(env, c.(state := ClosedByPeer), m);
      CloseInvQueue(c, ReactError(env, c, e), m);
    }
  }

  // ---------------------------------------------------------------- the incoming side

  /** The events so far, and those still to come of the bytes read, are what the whole stream read makes. */
  predicate ReadInv(env: Env, c: Conn) {
    && Bounded(env.cfg, c.rx)
    && if IsReading(c) then Drive(env.cfg, IDLE, c.received) == Then(c.events, Drive(env.cfg, c.rx, c.wire))
       else c.events <= Drive(env.cfg, IDLE, c.received).events
  }

  /** The same between decoding a frame and assembling its message. */
  predicate MidInv(env: Env, c: Conn, f: Frame) {
    var a := Assemble(env.cfg.maxLen, c.rx, f);
    && Bounded(env.cfg, a.rx) && !c.rx.frag.IsControl()
    && Drive(env.cfg, IDLE, c.received) ==
       Then(c.events, if f.opcode.Close? then Trace(a.events, Closed) else Then(a.events, Drive(env.cfg, a.rx, c.wire)))
  }

  predicate Follows(env: Env, c: Conn) {
    Drive(env.cfg, IDLE, c.received) == Then(c.events, Drive(env.cfg, c.rx, c.wire))
  }

  lemma ReadKeepsFollowing(env: Env, c: Conn, k: nat)
    requires Follows(env, c) && ParseFrame(env.cfg, c.rx, c.wire).More? && k <= |c.incoming|
    ensures Follows(env, Read(c.(clock := c.clock + 1), k))
  {
    hide ParseFrame;
    var x := c.incoming[..k];
    assert Drive(env.cfg, c.rx, c.wire) == Trace([], Starved(c.rx, c.wire));
    assert c.events + [] == c.events;
    DriveExtends(env.cfg, IDLE, c.received, x);
  }

  lemma FrameIsFound(env: Env, c: Conn)
    requires Follows(env, c) && Bounded(env.cfg, c.rx) && ParseFrame(env.cfg, c.rx, c.wire).Got?
    ensures var p := ParseFrame(env.cfg, c.rx, c.wire);
            MidInv(env, c.(rx := AfterDecode(c.rx, p.frame, p.carry), wire := c.wire[p.used..]), p.frame)
  {
    hide ParseFrame, Consume, CarryAfter, Acceptable, Bounded;
    var p := ParseFrame(env.cfg, c.rx, c.wire);
    ParsedIsPrinted(env.cfg, c.rx, c.wire);
    ConsumeBounded(env.cfg, c.rx, p.frame);
    ConsumeIsAssemble(env.cfg, c.rx, p.frame, p.carry);
    DecodedFrag(env.cfg, c.rx, p.frame, p.carry);
  }

  lemma FaultIsFound(env: Env, c: Conn)
    requires Follows(env, c) && ParseFrame(env.cfg, c.rx, c.wire).Bad?
    ensures Drive(env.cfg, IDLE, c.received) == Trace(c.events, Broken(ParseFrame(env.cfg, c.rx, c.wire).error))
  {
    hide ParseFrame;
    assert c.events + [] == c.events;
  }

  lemma StillFollows(env: Env, c: Conn, r: Conn)
    requires Follows(env, c) && r == c.(clock := r.clock)
    ensures Follows(env, r)
  {
    hide Drive;
  }

  /** What reading a frame means for the whole stream read. */
  lemma {:induction false} ReadFrameMeans(env: Env, c: Conn)
    requires Follows(env, c) && Bounded(env.cfg, c.rx)
    ensures var (r, p) := ReadFrame(env, c);
            match p
            case Item(f) => MidInv(env, r, f)
            case Raised(e) =>
              && Bounded(env.cfg, r.rx) && Follows(env, r)
              && (!e.Io? ==> Drive(env.cfg, IDLE, r.received) == Trace(r.events, Broken(e)))
            case _ => Bounded(env.cfg, r.rx) && Follows(env, r) && ParseFrame(env.cfg, r.rx, r.wire).More?
    decreases |c.incoming|
  {
    hide ParseFrame, MidInv, Bounded, Drive, Follows;
    match ParseFrame(env.cfg, c.rx, c.wire) {
      case Got(_, _, _) => FrameIsFound(env, c);
      case Bad(_) => FaultIsFound(env, c);
      case More =>
        StillFollows(env, c, c.(clock := c.clock + 1));
        match env.io(c.clock) {
          case Grant(n) =>
            var k := Min(n, |c.incoming|);
            if k != 0 {
              ReadKeepsFollowing(env, c, k);
              ReadFrameMeans(env, Read(c.(clock := c.clock + 1), k));
            }
          case _ =>
        }
    }
  }

  lemma DecodedFrag(cfg: Config, rx: Rx, f: Frame, carry: Utf8.Unfinished)
    requires Bounded(cfg, rx) && Acceptable(cfg, rx, f)
    ensures !AfterDecode(rx, f, carry).frag.IsControl()
  {
  }

  lemma ConsumeIsAssemble(cfg: Config, rx: Rx, f: Frame, carry: Utf8.Unfinished)
    ensures Consume(cfg, rx, f, carry) == Assemble(cfg.maxLen, AfterDecode(rx, f, carry), f)
  {
  }

  /** A connection that follows its stream may stop reading at any time. */
  lemma StopReading(env: Env, c: Conn)
    requires Follows(env, c)
    ensures c.events <= Drive(env.cfg, IDLE, c.received).events
  {
    hide Drive;
  }

  lemma ReadInvAfter(env: Env, c: Conn, r: Conn)
    requires ReadInv(env, c) && r.rx == c.rx && r.wire == c.wire && r.received == c.received && r.events == c.events
    requires r.state == c.state || !IsReading(r)
    ensures ReadInv(env, r)
  {
    hide Drive, Bounded;
    if IsReading(c) {
      StopReading(env, c);
    }
  }

  // ---------------------------------------------------------------- every operation keeps the invariant

  predicate Inv(env: Env, c: Conn) {
    SendInv(env, c) && CloseInv(c) && ReadInv(env, c)
  }

  lemma StartInv(env: Env)
    ensures Inv(env, START)
  {
    NoCloseIsLast([]);
    ThenNothing(Drive(env.cfg, IDLE, []));
  }

  predicate FrameMeans(env: Env, c: Conn, r: Conn, p: Poll<Frame>) {
    && SendInv(env, r) && CloseInv(r) && r.events == c.events
    && match p
       case Item(f) => MidInv(env, r, f) && GoodFrame(f) && IsReading(r) == !f.opcode.Close?
       case Raised(e) =>
         && ReadInv(env, r) && !IsReading(r)
         && (e.Io? || Drive(env.cfg, IDLE, r.received).end == Broken(e))
       case _ => ReadInv(env, r) && (p.Waiting? && IsReading(r) ==> ParseFrame(env.cfg, r.rx, r.wire).More?)
  }

  lemma ReadAndReactMeans(env: Env, c: Conn)
    requires Inv(env, c) && IsReading(c)
    ensures var (r, p) := ReadAndReact(env, c); FrameMeans(env, c, r, p)
  {
    hide Drive, ParseFrame, Bounded, React, ReactError, Assemble, SendInv, CloseInv;
    ReadFrameMeans(env, c);
    var (c1, p) := ReadFrame(env, c);
    assert SendInv(env, c1) && CloseInv(c1) by { SameOutgoing(env, c, c1); }
    match p {
      case Item(f) => ReactInv(env, c1, f);
      case Raised(e) =>
        ReactErrorInv(env, c1, e);
        StopReading(env, c1);
      case _ =>
    }
  }

  lemma SameOutgoing(env: Env, c: Conn, r: Conn)
    requires SendInv(env, c) && CloseInv(c)
    requires r.state == c.state && r.queue == c.queue && r.sent == c.sent && r.log == c.log && r.outbox == c.outbox
    ensures SendInv(env, r) && CloseInv(r)
  {
  }

  lemma PollNextFrameMeans(env: Env, c: Conn, w: Waker)
    requires Inv(env, c)
    ensures var (r, p) := PollNextFrame(env, c, w); FrameMeans(env, c, r, p)
  {
    hide Drive, ParseFrame, Bounded, SendInv, CloseInv, Flush, ReadAndReact, ReadInv, MidInv;
    if c.state.ClosedByPeer? {
      var (c1, f) := Flush(env, c, w);
      FlushInv(env, c, w);
      ReadInvAfter(env, c, c1);
      if f.FlushDone? {
        var c2 := c1.(state := CloseAcknowledged);
        ReadInvAfter(env, c1, c2);
        assert SendInv(env, c2) && CloseInv(c2) by { Acknowledged(env, c1); }
      }
    } else if !c.state.CloseAcknowledged? {
      if Pending(c.queue) != [] {
        var (c1, f) := Flush(env, c, FlushWaker(c, w));
        FlushInv(env, c, FlushWaker(c, w));
        ReadInvAfter(env, c, c1);
        if !f.FlushFailed? {
          ReadAndReactMeans(env, c1);
        }
      } else {
        ReadAndReactMeans(env, c);
      }
    }
  }

  lemma Acknowledged(env: Env, c: Conn)
    requires SendInv(env, c) && CloseInv(c)
    ensures SendInv(env, c.(state := CloseAcknowledged)) && CloseInv(c.(state := CloseAcknowledged))
  {
  }

  lemma AssemblingInv(env: Env, c: Conn, f: Frame)
    requires SendInv(env, c) && CloseInv(c) && MidInv(env, c, f) && IsReading(c) == !f.opcode.Close?
    ensures Inv(env, Assembling(env, c, f))
  {
    hide Drive, Bounded, Assemble;
    var a := Assemble(env.cfg.maxLen, c.rx, f);
    var r := Assembling(env, c, f);
    if IsReading(c) {
      ThenThen(c.events, a.events, Drive(env.cfg, a.rx, c.wire));
    }
    assert SendInv(env, r) && CloseInv(r) by { SameOutgoing(env, c, r); }
  }

  /** What an answer of `poll_next` means. */
  predicate NextMeans(env: Env, c: Conn, r: Conn, p: Poll<Message>) {
    && Inv(env, r)
    && match p
       case Item(m) => r.events == c.events + [Delivered(m)]
       case Raised(e) =>
         || (r.events == c.events && !IsReading(r) && (e.Io? || Drive(env.cfg, IDLE, r.received).end == Broken(e)))
         || (e.PayloadTooLong? && e.maxLen == env.cfg.maxLen && r.events == c.events + [TooLong(e.len)])
       case _ => r.events == c.events && (p.Waiting? && IsReading(r) ==> ParseFrame(env.cfg, r.rx, r.wire).More?)
  }

  lemma AssembleOnce(maxLen: nat, rx: Rx, f: Frame)
    ensures |Assemble(maxLen, rx, f).events| <= 1
  {
  }

  lemma {:induction false} PollNextMeans(env: Env, c: Conn, w: Waker)
    requires Inv(env, c)
    ensures var (r, p) := PollNext(env, c, w); NextMeans(env, c, r, p)
    decreases Unread(c)
  {
    hide Drive, ParseFrame, Assemble, SendInv, CloseInv, ReadInv, MidInv, PollNextFrame;
    PollNextFrameMeans(env, c, w);
    var (c1, p) := PollNextFrame(env, c, w);
    if p.Item? {
      var f := p.value;
      AssemblingInv(env, c1, f);
      AssembleOnce(env.cfg.maxLen, c1.rx, f);
      var a := Assemble(env.cfg.maxLen, c1.rx, f);
      if a.events == [] {
        PollNextMeans(env, Assembling(env, c1, f), w);
      } else {
        assert a.events == [a.events[0]];
      }
    }
  }

  lemma {:induction false} DrainInv(env: Env, c: Conn, w: Waker)
    requires Inv(env, c)
    ensures Inv(env, Drain(env, c, w).0)
    decreases Rank(c.state), Unread(c)
  {
    hide Inv, PollNext;
    PollNextMeans(env, c, w);
    var (c1, p) := PollNext(env, c, w);
    if p.Item? || p.Raised? {
      DrainInv(env, c1, w);
    }
  }

  lemma FlushKeeps(env: Env, c: Conn, w: Waker)
    requires Inv(env, c)
    ensures Inv(env, Flush(env, c, w).0)
  {
    hide SendInv, CloseInv, ReadInv, Flush;
    FlushInv(env, c, w);
    ReadInvAfter(env, c, Flush(env, c, w).0);
  }

  lemma ClosingKeeps(env: Env, c: Conn)
    requires Inv(env, c)
    ensures Inv(env, Closing(env, c))
  {
    hide ReadInv;
    if c.state.Active? {
      var m := DefaultClose();
      QueueSingleInv(env, c, m);
      CloseInvQueue(c, Closing(env, c), m);
      KeepsReading(env, c, Closing(env, c));
    }
  }

  lemma ShutdownKeeps(env: Env, c: Conn)
    requires Inv(env, c)
    ensures Inv(env, Shutdown(env, c).0)
  {
    hide SendInv, CloseInv, ReadInv;
    SameOutgoing(env, c, Shutdown(env, c).0);
    KeepsReading(env, c, Shutdown(env, c).0);
  }

  lemma CloseKeeps(env: Env, c: Conn, w: Waker)
    requires Inv(env, c)
    ensures Inv(env, PollClose(env, c, w).0)
  {
    hide Inv, Drain, Flush, Closing, Shutdown;
    ClosingKeeps(env, c);
    DrainInv(env, Closing(env, c), w);
    var c1 := Drain(env, Closing(env, c), w).0;
    FlushKeeps(env, c1, w);
    ShutdownKeeps(env, Flush(env, c1, w).0);
  }

  lemma KeepsReading(env: Env, c: Conn, r: Conn)
    requires ReadInv(env, c) && r.rx == c.rx && r.wire == c.wire && r.received == c.received && r.events == c.events
    requires IsReading(r) == IsReading(c)
    ensures ReadInv(env, r)
  {
    hide Drive, Bounded;
  }

  /** Every operation keeps the invariant. */
  lemma DoKeeps(env: Env, c: Conn, op: Op)
    requires Inv(env, c) && OpOk(op)
    ensures Inv(env, Do(env, c, op).0)
  {
    hide Flush, PollNext, PollClose, StartSend, ReadInv, SendInv, CloseInv;
    var r := Do(env, c, op).0;
    match op {
      case Send(m) =>
        SendStep(env, c, m);
        KeepsReading(env, c, r);
      case FlushOp(w) => FlushKeeps(env, c, w);
      case ReadyOp(w) => FlushKeeps(env, c, w);
      case NextOp(w) => PollNextMeans(env, c, w);
      case CloseOp(w) => CloseKeeps(env, c, w);
      case Arrive(_) =>
        SameOutgoing(env, c, r);
        KeepsReading(env, c, r);
      case HangUp =>
        SameOutgoing(env, c, r);
        KeepsReading(env, c, r);
    }
  }

  // ---------------------------------------------------------------- runs

  predicate OpsOk(ops: seq<Op>) { forall i :: 0 <= i < |ops| ==> OpOk(ops[i]) }

  function Run(env: Env, c: Conn, ops: seq<Op>): Conn
    requires OpsOk(ops)
    decreases ops
  {
    if ops == [] then c else Run(env, Do(env, c, ops[0]).0, ops[1..])
  }

  lemma {:induction false} RunKeeps(env: Env, c: Conn, ops: seq<Op>)
    requires Inv(env, c) && OpsOk(ops)
    ensures Inv(env, Run(env, c, ops))
    decreases ops
  {
    hide Inv, Do;
    if ops != [] {
      DoKeeps(env, c, ops[0]);
      RunKeeps(env, Do(env, c, ops[0]).0, ops[1..]);
    }
  }
}
