/**
  The connection (src/proto/stream.rs, `WebSocketStream`) as functions on its state.

  The transport is an oracle: the n-th I/O call of an endpoint is granted up to some number of bytes, stalls, or
  breaks, as `Env.io(n)` says, so what holds for every `Env` holds for every behaviour of the transport.  The
  bytes to be read are `incoming`.  The decoder appears as `Wire.ParseFrame` on the bytes as they arrived, which
  is what the resumable decoder amounts to (`Codec.DecodeRefinesParse`).

  `received`, `events`, `log` and `outbox` are histories: what was read, delivered, queued as frames, and queued
  as messages.  They decide nothing.
 */
module Connection {
  import opened Bytes
  import opened Mask
  import opened Types
  import opened Wire
  import opened Queue
  import opened Receive
  import opened Exchange

  datatype StreamState = Active | ClosedByPeer | ClosedByUs | CloseAcknowledged

  /** A waker is known by the task it wakes. */
  type Waker = nat

  datatype IoStep = Grant(n: nat) | Stall | Break

  type FrameSize = n: nat | n >= 1 witness 1

  datatype Env = Env(cfg: Config, frameSize: FrameSize, flushThreshold: nat, vectored: bool,
                     io: nat -> IoStep, key: nat -> Key)

  datatype Conn = Conn(
    state: StreamState,
    rx: Rx,
    wire: seq<byte>,
    queue: Queue,
    waker: Option<Waker>,
    incoming: seq<byte>,
    eof: bool,
    sent: seq<byte>,
    shut: bool,
    clock: nat,
    received: seq<byte>,
    events: seq<Event>,
    log: seq<Sent>,
    outbox: seq<Message>)

  const START := Conn(Active, IDLE, [], EMPTY, None, [], false, [], false, 0, [], [], [], [])

  datatype Poll<+T> = Waiting | Ended | Raised(error: Error) | Item(value: T)

  // ---------------------------------------------------------------- flushing

  datatype Flushed = FlushPending | FlushDone | FlushFailed

  /** What `poll_write_buf` offers to the transport: up to 64 slices if it writes vectored, else one chunk. */
  function Offered(env: Env, q: Queue): (s: seq<byte>)
    ensures s <= Pending(q)
    ensures Pending(q) != [] ==> s != []
  {
    VectoredIsPrefix(q, 64);
    if env.vectored then Concat(Vectored(q, 64)) else Chunk(q)
  }

  /** A transport that writes vectored is offered all that is pending in up to 32 frames; another the first slice. */
  lemma OfferedIs(env: Env, q: Queue)
    requires q.frames != []
    ensures Slices(q) != []
    ensures if env.vectored then |q.frames| <= 32 ==> Offered(env, q) == Pending(q) else Offered(env, q) == Slices(q)[0]
  {
    ChunkIsFirst(q);
    SlicesCount(q);
    VectoredIsPrefix(q, 64);
  }

  function Stalled(c: Conn, w: Waker): (Conn, Flushed) { (c.(waker := Some(w)), FlushPending) }

  function Broke(c: Conn): (Conn, Flushed) { (c.(waker := None, state := CloseAcknowledged), FlushFailed) }

  /** `poll_flush` */
  function Flush(env: Env, c: Conn, w: Waker): (r: (Conn, Flushed))
    ensures r.0 == c.(state := r.0.state, queue := r.0.queue, waker := r.0.waker, sent := r.0.sent, clock := r.0.clock)
    ensures r.0.state == if r.1.FlushFailed? then CloseAcknowledged else c.state
    ensures r.0.waker == if r.1.FlushPending? then Some(w) else None
    ensures r.1.FlushDone? ==> Pending(r.0.queue) == []
    decreases |Pending(c.queue)|
  {
    var c1 := c.(clock := c.clock + 1);
    match env.io(c.clock)
    case Stall => Stalled(c1, w)
    case Break => Broke(c1)
    case Grant(n) =>
      if Pending(c.queue) == [] then (c1.(waker := None), FlushDone)
      else
        var offer := Offered(env, c.queue);
        var k := Min(n, |offer|);
        if k == 0 then Broke(c1)
        else Flush(env, c1.(queue := Advanced(c.queue, k), sent := c.sent + offer[..k]), w)
  }

  // ---------------------------------------------------------------- queueing

  /** `queue_frame` */
  function QueueFrame(env: Env, c: Conn, f: Frame): Conn
    requires |f.payload| < USIZE_END
  {
    var mask := if env.cfg.role.Client? then Some(env.key(|c.log|)) else None;
    c.(state := if f.opcode.Close? && !c.state.ClosedByPeer? then ClosedByUs else c.state,
       queue := Pushed(c.queue, Encoded(f, mask)),
       log := c.log + [SentFrame(f, mask)])
  }

  predicate AllSized(fs: seq<Frame>) { forall i :: 0 <= i < |fs| ==> |fs[i].payload| < USIZE_END }

  function QueueFrames(env: Env, c: Conn, fs: seq<Frame>): Conn
    requires AllSized(fs)
    decreases fs
  {
    if fs == [] then c else QueueFrames(env, QueueFrame(env, c, fs[0]), fs[1..])
  }

  /** A message that fits into one frame. */
  function QueueSingle(env: Env, c: Conn, m: Message): Conn
    requires |m.payload| < USIZE_END
  {
    QueueFrame(env, c, m.IntoFrame()).(outbox := c.outbox + [m])
  }

  lemma UnitSized(m: Message, size: FrameSize)
    requires |m.payload| < USIZE_END
    ensures AllSized(UnitFrames(m, size))
  {
    SizedFrames(m.opcode, m.payload, size);
  }

  lemma {:induction false} SizedFrames(opcode: OpCode, payload: seq<byte>, size: FrameSize)
    requires |payload| < USIZE_END
    ensures AllSized(Fragment.Frames(opcode, payload, size))
    decreases payload
  {
    if |payload| > size {
      SizedFrames(Continuation, payload[size..], size);
    }
  }

  /** `start_send`; the flag tells whether the message was taken. */
  function StartSend(env: Env, c: Conn, m: Message): (Conn, bool)
    requires |m.payload| < USIZE_END
  {
    if !c.state.Active? then (c, false)
    else
      UnitSized(m, env.frameSize);
      (QueueFrames(env, c, UnitFrames(m, env.frameSize)).(outbox := c.outbox + [m]), true)
  }

  // ---------------------------------------------------------------- reading

  /** A frame the decoder lets through. */
  predicate GoodFrame(f: Frame) {
    && |f.payload| < USIZE_END
    && (f.opcode.IsControl() ==> f.fin && |f.payload| <= 125)
    && (f.opcode.Close? ==> CloseOk(f.payload))
  }

  /** The errors of reading. */
  predicate ReadError(e: Error) { e.Protocol? || e.Io? || (e.PayloadTooLong? && e.maxLen < USIZE_END) }

  /** Bytes that have not been decoded yet. */
  function Unread(c: Conn): nat { |c.wire| + |c.incoming| }

  lemma ParsedIsGood(cfg: Config, rx: Rx, w: seq<byte>)
    ensures match ParseFrame(cfg, rx, w)
            case More => true
            case Bad(e) => ReadError(e) && !e.Io?
            case Got(f, _, _) => GoodFrame(f)
  {
    if ParseFrame(cfg, rx, w).Got? {
      ParsedIsPrinted(cfg, rx, w);
    }
  }

  /** `FramedRead::poll_next`: decode what is buffered, or else read and try again. */
  function ReadFrame(env: Env, c: Conn): (r: (Conn, Poll<Frame>))
    ensures r.0 == c.(rx := r.0.rx, wire := r.0.wire, incoming := r.0.incoming, clock := r.0.clock,
                      received := r.0.received)
    ensures Unread(r.0) <= Unread(c) && (r.1.Item? ==> Unread(r.0) < Unread(c))
    ensures r.1.Item? ==> GoodFrame(r.1.value)
    ensures r.1.Raised? ==> ReadError(r.1.error)
    decreases |c.incoming|
  {
    ParsedIsGood(env.cfg, c.rx, c.wire);
    match ParseFrame(env.cfg, c.rx, c.wire)
    case Got(f, used, carry) => (c.(rx := AfterDecode(c.rx, f, carry), wire := c.wire[used..]), Item(f))
    case Bad(e) => (c, Raised(e))
    case More =>
      var c1 := c.(clock := c.clock + 1);
      match env.io(c.clock)
      case Stall => (c1, Waiting)
      case Break => (c1, Raised(Io))
      case Grant(n) =>
        if c.incoming == [] then
          if !c.eof then (c1, Waiting) else if c.wire == [] then (c1, Ended) else (c1, Raised(Io))
        else
          var k := Min(n, |c.incoming|);
          if k == 0 then (c1, Waiting)
          else ReadFrame(env, Read(c1, k))
  }

  /** `k` bytes move from the transport into the receive buffer. */
  function Read(c: Conn, k: nat): Conn
    requires k <= |c.incoming|
  {
    c.(wire := c.wire + c.incoming[..k], received := c.received + c.incoming[..k], incoming := c.incoming[k..])
  }

  /** What a decoded frame does to the connection. */
  function React(env: Env, c: Conn, f: Frame): Conn
    requires GoodFrame(f)
  {
    if f.opcode.Close? then
      match c.state
      case Active => QueueSingle(env, c.(state := ClosedByPeer), CloseEcho(f.payload))
      case ClosedByUs => c.(state := CloseAcknowledged)
      case _ => c
    else if f.opcode.Ping? && c.state.Active? then QueueSingle(env, c, Message(Pong, f.payload))
    else c
  }

  /** What an error of reading does to it. */
  function ReactError(env: Env, c: Conn, e: Error): Conn
    requires ReadError(e)
  {
    if e.Io? || c.state.ClosedByUs? then c.(state := CloseAcknowledged)
    else QueueSingle(env, c.(state := ClosedByPeer), ErrorClose(e))
  }

  predicate IsReading(c: Conn) { c.state.Active? || c.state.ClosedByUs? }

  function Rank(s: StreamState): nat {
    match s
    case Active => 2
    case ClosedByPeer => 1
    case ClosedByUs => 1
    case CloseAcknowledged => 0
  }

  function ReadAndReact(env: Env, c: Conn): (r: (Conn, Poll<Frame>))
    requires IsReading(c)
    ensures Unread(r.0) <= Unread(c) && (r.1.Item? ==> Unread(r.0) < Unread(c))
    ensures Rank(r.0.state) <= Rank(c.state) && (r.1.Raised? ==> Rank(r.0.state) < Rank(c.state))
    ensures r.1.Item? ==> GoodFrame(r.1.value)
  {
    hide ParseFrame;
    var (c1, p) := ReadFrame(env, c);
    match p
    case Item(f) => (React(env, c1, f), p)
    case Raised(e) => (ReactError(env, c1, e), p)
    case _ => (c1, p)
  }

  /** The waker a flush on behalf of a reader registers: that of the task that is flushing, if there is one. */
  function FlushWaker(c: Conn, w: Waker): Waker {
    match c.waker
    case Some(v) => v
    case None => w
  }

  /** `poll_next_frame` */
  function PollNextFrame(env: Env, c: Conn, w: Waker): (r: (Conn, Poll<Frame>))
    ensures Unread(r.0) <= Unread(c) && (r.1.Item? ==> Unread(r.0) < Unread(c))
    ensures Rank(r.0.state) <= Rank(c.state) && (r.1.Raised? ==> Rank(r.0.state) < Rank(c.state))
    ensures r.1.Item? ==> GoodFrame(r.1.value)
  {
    if c.state.CloseAcknowledged? then (c, Ended)
    else if c.state.ClosedByPeer? then
      var (c1, f) := Flush(env, c, w);
      match f
      case FlushPending => (c1, Waiting)
      case FlushFailed => (c1, Raised(Io))
      case FlushDone => (c1.(state := CloseAcknowledged), Ended)
    else if Pending(c.queue) != [] then
      var (c1, f) := Flush(env, c, FlushWaker(c, w));
      if f.FlushFailed? then (c1, Raised(Io)) else ReadAndReact(env, c1)
    else ReadAndReact(env, c)
  }

  /** The message part of a round of `poll_next`. */
  function Assembling(env: Env, c: Conn, f: Frame): Conn {
    var a := Assemble(env.cfg.maxLen, c.rx, f);
    c.(rx := a.rx, events := c.events + a.events)
  }

  function Outcome(maxLen: nat, e: Event): Poll<Message> {
    match e
    case Delivered(m) => Item(m)
    case TooLong(len) => Raised(PayloadTooLong(len, maxLen))
  }

  /** `poll_next` */
  function PollNext(env: Env, c: Conn, w: Waker): (r: (Conn, Poll<Message>))
    ensures Unread(r.0) <= Unread(c) && Rank(r.0.state) <= Rank(c.state)
    ensures r.1.Item? || r.1.Raised? ==> Rank(r.0.state) < Rank(c.state) || Unread(r.0) < Unread(c)
    decreases Unread(c)
  {
    var (c1, p) := PollNextFrame(env, c, w);
    match p
    case Waiting => (c1, Waiting)
    case Ended => (c1, Ended)
    case Raised(e) => (c1, Raised(e))
    case Item(f) =>
      var a := Assemble(env.cfg.maxLen, c1.rx, f);
      var c2 := Assembling(env, c1, f);
      if a.events != [] then (c2, Outcome(env.cfg.maxLen, a.events[0]))
      else PollNext(env, c2, w)
  }

  // ---------------------------------------------------------------- the sink

  /** `poll_ready` */
  function PollReady(env: Env, c: Conn, w: Waker): (r: (Conn, Flushed))
    ensures r.1.FlushDone? ==> Pending(r.0.queue) == [] || |Pending(r.0.queue)| < env.flushThreshold
    ensures |Pending(c.queue)| < env.flushThreshold ==> r == (c, FlushDone)
  {
    if |Pending(c.queue)| >= env.flushThreshold then Flush(env, c, w) else (c, FlushDone)
  }

  /** The drain loop of `poll_close`; the flag tells that it came to the end of the stream. */
  function Drain(env: Env, c: Conn, w: Waker): (Conn, bool)
    decreases Rank(c.state), Unread(c)
  {
    var (c1, p) := PollNext(env, c, w);
    match p
    case Waiting => (c1, false)
    case Ended => (c1, true)
    case _ => Drain(env, c1, w)
  }

  /** `poll_shutdown` of the transport, whose failure does not change the state. */
  function Shutdown(env: Env, c: Conn): (r: (Conn, Flushed))
    ensures r.0 == c.(clock := c.clock + 1, shut := c.shut || r.1.FlushDone?)
  {
    var c1 := c.(clock := c.clock + 1);
    match env.io(c.clock)
    case Stall => (c1, FlushPending)
    case Break => (c1, FlushFailed)
    case Grant(_) => (c1.(shut := true), FlushDone)
  }

  /** `poll_close` */
  function PollClose(env: Env, c: Conn, w: Waker): (Conn, Flushed) {
    var (c1, ended) := Drain(env, Closing(env, c), w);
    if !ended then (c1, FlushPending)
    else
      var (c2, f) := Flush(env, c1, w);
      if f.FlushDone? then Shutdown(env, c2) else (c2, f)
  }

  /** An active connection closes by queueing the default close. */
  function Closing(env: Env, c: Conn): Conn {
    if c.state.Active? then QueueSingle(env, c, DefaultClose()) else c
  }

  // ---------------------------------------------------------------- runs

  datatype Op =
    | Send(m: Message)
    | FlushOp(w: Waker)
    | ReadyOp(w: Waker)
    | NextOp(w: Waker)
    | CloseOp(w: Waker)
    | Arrive(bytes: seq<byte>)
    | HangUp

  datatype Result = Quiet | Sending(taken: bool) | Flushing(f: Flushed) | Polled(p: Poll<Message>)

  /** Applications send messages they can construct. */
  predicate OpOk(op: Op) { op.Send? ==> Constructible(op.m) }

  function Do(env: Env, c: Conn, op: Op): (Conn, Result)
    requires OpOk(op)
  {
    match op
    case Send(m) => var (c1, b) := StartSend(env, c, m); (c1, Sending(b))
    case FlushOp(w) => var (c1, f) := Flush(env, c, w); (c1, Flushing(f))
    case ReadyOp(w) => var (c1, f) := PollReady(env, c, w); (c1, Flushing(f))
    case NextOp(w) => var (c1, p) := PollNext(env, c, w); (c1, Polled(p))
    case CloseOp(w) => var (c1, f) := PollClose(env, c, w); (c1, Flushing(f))
    case Arrive(bytes) => (if c.eof then c else c.(incoming := c.incoming + bytes), Quiet)
    case HangUp => (c.(eof := true), Quiet)
  }
}
