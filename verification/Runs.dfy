/**
  What holds of one connection after every run from its start, whatever arrives and however the transport behaves.
 */
module Runs {
  import opened Bytes
  import opened Types
  import opened Wire
  import opened Queue
  import opened Receive
  import opened Exchange
  import opened Delivery
  import opened Texts
  import opened Connection
  import opened Discipline

  /** The outgoing queue is first in, first out: what is written and what is pending is all that was queued. */
  lemma BytesAreConserved(env: Env, ops: seq<Op>)
    requires OpsOk(ops)
    ensures var c := Run(env, START, ops);
            && c.sent + Pending(c.queue) == EncodeAll(c.log)
            && FramesOf(c.log) == Flat(c.outbox, env.frameSize)
  {
    hide Run, CloseInv, ReadInv;
    StartInv(env);
    RunKeeps(env, START, ops);
  }

  lemma {:induction false} FlatFits(outbox: seq<Message>, size: FrameSize, i: nat)
    requires i < |Flat(outbox, size)| && !Flat(outbox, size)[i].opcode.IsControl()
    ensures |Flat(outbox, size)[i].payload| <= size
    decreases outbox
  {
    hide UnitFrames;
    var fs := UnitFrames(outbox[0], size);
    UnitCuts(outbox[0], size);
    if i >= |fs| {
      FlatFits(outbox[1..], size, i - |fs|);
    }
  }

  lemma {:induction false} FrameAt(log: seq<Sent>, i: nat)
    requires i < |log|
    ensures FramesOf(log)[i] == log[i].frame
    decreases log
  {
    if i > 0 {
      FrameAt(log[1..], i - 1);
    }
  }

  /** No data frame a run queues is larger than the frame size, and each frame of a client has a key of its own. */
  lemma FramesFit(env: Env, ops: seq<Op>, i: nat)
    requires OpsOk(ops) && i < |Run(env, START, ops).log|
    ensures var item: SentFrame := Run(env, START, ops).log[i];
            && (item.frame.opcode.IsControl() || |item.frame.payload| <= env.frameSize)
            && item.mask == if env.cfg.role.Client? then Some(env.key(i)) else None
  {
    hide Run, CloseInv, ReadInv, EncodeAll;
    StartInv(env);
    RunKeeps(env, START, ops);
    var c := Run(env, START, ops);
    FrameAt(c.log, i);
    if !c.log[i].frame.opcode.IsControl() {
      FlatFits(c.outbox, env.frameSize, i);
    }
  }

  /** What a run queues are its messages, each cut at the frame size. */
  lemma FramesAreCut(env: Env, ops: seq<Op>)
    requires OpsOk(ops)
    ensures var c := Run(env, START, ops);
            exists parts :: AllCut(parts, c.outbox, env.frameSize) && FramesOf(c.log) == Joined(parts)
  {
    hide Run;
    BytesAreConserved(env, ops);
    FlatIsJoined(Run(env, START, ops).outbox, env.frameSize);
  }

  lemma EventsSoFar(env: Env, c: Conn)
    requires Inv(env, c)
    ensures c.events <= Drive(env.cfg, IDLE, c.received).events
    ensures IsReading(c) && ParseFrame(env.cfg, c.rx, c.wire).More?
            ==> c.events == Drive(env.cfg, IDLE, c.received).events
  {
    hide ParseFrame, SendInv, CloseInv, Bounded;
    if IsReading(c) {
      StopReading(env, c);
      if ParseFrame(env.cfg, c.rx, c.wire).More? {
        assert Drive(env.cfg, c.rx, c.wire).events == [];
        assert c.events + [] == c.events;
      }
    }
  }

  /** The events of a run are those of the bytes it has read, in order. */
  lemma EventsFollowBytes(env: Env, ops: seq<Op>)
    requires OpsOk(ops)
    ensures var c := Run(env, START, ops);
            c.events <= Drive(env.cfg, IDLE, c.received).events
  {
    hide Run, Inv, Drive;
    StartInv(env);
    RunKeeps(env, START, ops);
    EventsSoFar(env, Run(env, START, ops));
  }

  lemma {:induction false} TextsPrefix(a: seq<Event>, b: seq<Event>)
    requires a <= b && TextsOk(b)
    ensures TextsOk(a)
    decreases a
  {
    if a != [] && a[0].Delivered? {
      TextsPrefix(a[1..], b[1..]);
    }
  }

  lemma IdleIsBounded(cfg: Config)
    ensures Bounded(cfg, IDLE)
  {
  }

  /** Every message a run delivers is well formed and within the limit. */
  lemma DeliveredIsGood(env: Env, ops: seq<Op>, i: nat)
    requires OpsOk(ops) && i < |Run(env, START, ops).events|
    ensures GoodEvent(env.cfg, Run(env, START, ops).events[i])
  {
    hide Run, GoodEvent, Drive;
    EventsFollowBytes(env, ops);
    var c := Run(env, START, ops);
    IdleIsBounded(env.cfg);
    DriveGood(env.cfg, IDLE, c.received);
    assert c.events[i] == Drive(env.cfg, IDLE, c.received).events[i];
  }

  /**
    As long as no text message is ended by an empty frame with a code point open, all text a run delivers before a
    message that is too long is valid UTF-8; if there is no such message, all text it delivers.
   */
  lemma DeliveredTextIsValid(env: Env, ops: seq<Op>)
    requires OpsOk(ops) && NothingLeftOpen(env.cfg, IDLE, Run(env, START, ops).received)
    ensures var events := Run(env, START, ops).events;
            TextsOk(events) && (NoTooLong(events) ==> AllTextOk(events))
  {
    hide Run, Drive, TextOk, NothingLeftOpen;
    EventsFollowBytes(env, ops);
    var c := Run(env, START, ops);
    IdleIsClean(env.cfg);
    TextValidIff(env.cfg, IDLE, c.received);
    TextsPrefix(c.events, Drive(env.cfg, IDLE, c.received).events);
    if NoTooLong(c.events) {
      AllTexts(c.events);
    }
  }

  /** A connection that has decoded all it has read, nothing of which left a code point open or was too long. */
  predicate Undisturbed(env: Env, c: Conn) {
    && IsReading(c) && ParseFrame(env.cfg, c.rx, c.wire).More?
    && NothingLeftOpen(env.cfg, IDLE, c.received) && NoTooLong(c.events)
  }

  lemma UndisturbedStream(env: Env, c: Conn)
    requires Inv(env, c) && Undisturbed(env, c)
    ensures Drive(env.cfg, IDLE, c.received) == Trace(c.events, Starved(c.rx, c.wire))
  {
    hide ParseFrame, SendInv, CloseInv, Bounded, NothingLeftOpen, NoTooLong;
    assert Drive(env.cfg, c.rx, c.wire) == Trace([], Starved(c.rx, c.wire));
    assert c.events + [] == c.events;
  }

  /** The validator of an undisturbed connection knows just the text of the message under way. */
  lemma ValidatorInStep(env: Env, ops: seq<Op>)
    requires OpsOk(ops) && Undisturbed(env, Run(env, START, ops))
    ensures Clean(env.cfg, Run(env, START, ops).rx)
  {
    hide Run, Inv, Drive, ParseFrame, NothingLeftOpen, Clean;
    StartInv(env);
    RunKeeps(env, START, ops);
    var c := Run(env, START, ops);
    UndisturbedStream(env, c);
    StaysClean(env.cfg, c.received);
  }

  /** Whatever bytes arrive at it next, text is refused exactly when it can no longer become valid. */
  lemma RunFailsFast(env: Env, ops: seq<Op>, x: seq<byte>)
    requires OpsOk(ops) && Undisturbed(env, Run(env, START, ops))
    requires var c := Run(env, START, ops); InText(env.cfg, c.rx, c.wire + x)
    ensures var c := Run(env, START, ops);
            ParseFrame(env.cfg, c.rx, c.wire + x) == Bad(Protocol(InvalidUtf8))
            <==> TextIsLost(env.cfg, c.rx, c.wire + x)
  {
    hide Run, Inv, Drive, ParseFrame, NothingLeftOpen, InText, TextIsLost;
    StartInv(env);
    RunKeeps(env, START, ops);
    var c := Run(env, START, ops);
    UndisturbedStream(env, c);
    StreamFailsFast(env.cfg, c.received, x);
  }

  /** Over every run at most one close is queued, and it is queued last. */
  lemma AtMostOneClose(env: Env, ops: seq<Op>, i: nat)
    requires OpsOk(ops)
    requires var outbox := Run(env, START, ops).outbox; i < |outbox| && outbox[i].opcode.Close?
    ensures i == |Run(env, START, ops).outbox| - 1
  {
    hide Run, SendInv, ReadInv;
    StartInv(env);
    RunKeeps(env, START, ops);
    CloseAt(Run(env, START, ops).outbox, i);
  }

  lemma {:induction false} CloseAt(outbox: seq<Message>, i: nat)
    requires ClosesLast(outbox) && i < |outbox| && outbox[i].opcode.Close?
    ensures i == |outbox| - 1
    decreases outbox
  {
    if i > 0 {
      CloseAt(outbox[1..], i - 1);
    }
  }

  /** Everything a run queues is a message its peer's decoder accepts if it fits and its text is valid. */
  lemma QueuedIsConstructible(env: Env, ops: seq<Op>, i: nat)
    requires OpsOk(ops) && i < |Run(env, START, ops).outbox|
    ensures Constructible(Run(env, START, ops).outbox[i])
  {
    hide Run, SendInv, ReadInv, Constructible;
    StartInv(env);
    RunKeeps(env, START, ops);
  }

  // ---------------------------------------------------------------- closing comes to an end

  /** The transport never stalls: each call is granted at least a byte, or breaks. */
  ghost predicate NeverStalls(env: Env) {
    forall n :: env.io(n).Break? || (env.io(n).Grant? && env.io(n).n >= 1)
  }

  lemma {:induction false} FlushAnswers(env: Env, c: Conn, w: Waker)
    requires NeverStalls(env)
    ensures !Flush(env, c, w).1.FlushPending?
    decreases |Pending(c.queue)|
  {
    hide Pending, Advanced, Offered;
    match env.io(c.clock) {
      case Grant(n) =>
        if Pending(c.queue) != [] {
          var offer := Offered(env, c.queue);
          var k := Min(n, |offer|);
          assert k != 0;
          FlushAnswers(env, c.(clock := c.clock + 1, queue := Advanced(c.queue, k), sent := c.sent + offer[..k]), w);
        }
      case Break =>
    }
  }

  lemma {:induction false} ReadAnswers(env: Env, c: Conn)
    requires NeverStalls(env) && c.eof
    ensures !ReadFrame(env, c).1.Waiting?
    decreases |c.incoming|
  {
    hide ParseFrame;
    if ParseFrame(env.cfg, c.rx, c.wire).More? {
      match env.io(c.clock) {
        case Grant(n) =>
          var k := Min(n, |c.incoming|);
          if k != 0 {
            ReadAnswers(env, Read(c.(clock := c.clock + 1), k));
          }
        case Break =>
      }
    }
  }

  lemma {:induction false} NextAnswers(env: Env, c: Conn, w: Waker)
    requires NeverStalls(env) && c.eof
    ensures !PollNext(env, c, w).1.Waiting? && PollNext(env, c, w).0.eof
    decreases Unread(c)
  {
    hide ReadFrame, Flush, Assemble, CloseEcho, ErrorClose;
    FlushAnswers(env, c, w);
    FlushAnswers(env, c, FlushWaker(c, w));
    ReadAnswers(env, c);
    ReadAnswers(env, Flush(env, c, FlushWaker(c, w)).0);
    var (c1, p) := PollNextFrame(env, c, w);
    if p.Item? && Assemble(env.cfg.maxLen, c1.rx, p.value).events == [] {
      NextAnswers(env, Assembling(env, c1, p.value), w);
    }
  }

  lemma {:induction false} DrainAnswers(env: Env, c: Conn, w: Waker)
    requires NeverStalls(env) && c.eof
    ensures Drain(env, c, w).1
    decreases Rank(c.state), Unread(c)
  {
    hide PollNext, NeverStalls;
    NextAnswers(env, c, w);
    var (c1, p) := PollNext(env, c, w);
    if p.Item? || p.Raised? {
      DrainAnswers(env, c1, w);
    }
  }

  /**
    Once the peer has hung up, whatever it sent before, `poll_close` comes to an end in one call on a transport
    that does not stall, even if every write breaks (tests/pr102_regression.rs).
   */
  lemma CloseComesToAnEnd(env: Env, c: Conn, w: Waker)
    requires NeverStalls(env) && c.eof
    ensures !PollClose(env, c, w).1.FlushPending?
  {
    hide Drain, Flush;
    DrainAnswers(env, Closing(env, c), w);
    FlushAnswers(env, Drain(env, Closing(env, c), w).0, w);
  }
}
