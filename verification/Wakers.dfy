/**
  The waker of a pending flush (tests/issue106.rs): a poll of the reader that finds another task flushing uses
  that task's waker, so the writer is not forgotten.
 */
module Wakers {
  import opened Bytes
  import opened Types
  import opened Wire
  import opened Queue
  import opened Receive
  import opened Exchange
  import opened Connection
  import opened Discipline
  import opened Finality

  /** All that was pending has been written, or the connection is broken. */
  predicate FlushedSince(c: Conn, r: Conn) {
    c.sent + Pending(c.queue) <= r.sent || r.state.CloseAcknowledged?
  }

  lemma FlushSettles(env: Env, c: Conn, w: Waker)
    ensures var (r, f) := Flush(env, c, w);
            if f.FlushPending? then r.waker == Some(w) else r.waker == None && FlushedSince(c, r)
  {
    hide Flush;
    FlushBytes(env, c, w);
    var r := Flush(env, c, w).0;
    assert r.sent + [] == r.sent;
  }

  /** A frame that completes nothing is a data frame, and makes the connection queue nothing. */
  lemma QuietFrame(env: Env, c: Conn, f: Frame)
    requires GoodFrame(f) && Assemble(env.cfg.maxLen, c.rx, f).events == []
    ensures !f.opcode.IsControl()
  {
  }

  lemma QuietRead(env: Env, c: Conn)
    requires IsReading(c)
    ensures var (r, p) := ReadAndReact(env, c);
            && r.waker == c.waker && r.sent == c.sent
            && ((p.Item? && !p.value.opcode.IsControl()) || p.Waiting? ==> r.queue == c.queue && r.state == c.state)
  {
    hide ReadFrame, ErrorClose, CloseEcho;
  }

  /** With nothing pending the reader does not flush. */
  lemma {:induction false} NothingPending(env: Env, c: Conn, w: Waker)
    requires IsReading(c) && Pending(c.queue) == []
    ensures PollNext(env, c, w).0.waker == c.waker
    decreases Unread(c)
  {
    hide ReadAndReact, Assemble, Flush, Pending;
    QuietRead(env, c);
    var (c1, p) := PollNextFrame(env, c, w);
    if p.Item? && Assemble(env.cfg.maxLen, c1.rx, p.value).events == [] {
      QuietFrame(env, c1, p.value);
      NothingPending(env, Assembling(env, c1, p.value), w);
    }
  }

  /** A poll of the reader keeps the registered waker, or the flush it stood for is over. */
  lemma {:induction false} NextKeepsWaker(env: Env, c: Conn, w: Waker)
    requires IsReading(c) && c.waker.Some?
    ensures var r := PollNext(env, c, w).0;
            r.waker == c.waker || (r.waker == None && FlushedSince(c, r))
    decreases Unread(c)
  {
    hide ReadAndReact, Assemble, Flush, FlushedSince;
    if Pending(c.queue) == [] {
      NothingPending(env, c, w);
    } else {
      var (c0, f) := Flush(env, c, FlushWaker(c, w));
      FlushSettles(env, c, FlushWaker(c, w));
      if !f.FlushFailed? {
        QuietRead(env, c0);
        var (c1, p) := ReadAndReact(env, c0);
        Later(c, c0, c1);
        if p.Item? && Assemble(env.cfg.maxLen, c1.rx, p.value).events == [] {
          QuietFrame(env, c1, p.value);
          var c2 := Assembling(env, c1, p.value);
          var r := PollNext(env, c2, w).0;
          PollNextOnward(env, c2, w);
          Later(c, c1, r);
          if f.FlushPending? {
            NextKeepsWaker(env, c2, w);
            FlushBytes(env, c, FlushWaker(c, w));
            SettledTogether(c, c2, r);
          } else {
            NothingPending(env, c2, w);
          }
        } else {
          Later(c, c1, PollNext(env, c, w).0);
        }
      }
    }
  }

  lemma {:induction false} NothingToWrite(env: Env, c: Conn, w: Waker)
    requires IsReading(c) && Pending(c.queue) == [] && PollNext(env, c, w).1.Waiting?
    ensures PollNext(env, c, w).0.queue == c.queue
    decreases Unread(c)
  {
    hide ReadAndReact, Assemble, Flush, Pending;
    QuietRead(env, c);
    var (c1, p) := PollNextFrame(env, c, w);
    if p.Item? {
      QuietFrame(env, c1, p.value);
      NothingToWrite(env, Assembling(env, c1, p.value), w);
    }
  }

  /**
    A poll of the reader that has to wait with bytes still to write leaves a waker for them: that of the task that
    was flushing, or its own if there was none, or if the peer has closed.
   */
  lemma {:induction false} NextRegisters(env: Env, c: Conn, w: Waker)
    requires PollNext(env, c, w).1.Waiting? && Pending(PollNext(env, c, w).0.queue) != []
    ensures PollNext(env, c, w).0.waker == if IsReading(c) && c.waker.Some? then c.waker else Some(w)
    decreases Unread(c)
  {
    hide ReadAndReact, Assemble, Flush, Pending;
    if IsReading(c) {
      if Pending(c.queue) == [] {
        NothingToWrite(env, c, w);
      } else {
        var (c0, f) := Flush(env, c, FlushWaker(c, w));
        QuietRead(env, c0);
        var (c1, p) := ReadAndReact(env, c0);
        if p.Item? {
          QuietFrame(env, c1, p.value);
          var c2 := Assembling(env, c1, p.value);
          if f.FlushPending? {
            NextRegisters(env, c2, w);
          } else {
            NothingToWrite(env, c2, w);
          }
        }
      }
    }
  }

  lemma Later(c: Conn, d: Conn, r: Conn)
    requires d.sent <= r.sent && (d.state.CloseAcknowledged? ==> r.state.CloseAcknowledged?)
    ensures FlushedSince(c, d) ==> FlushedSince(c, r)
  {
  }

  lemma SettledTogether(c: Conn, d: Conn, r: Conn)
    requires c.sent + Pending(c.queue) <= d.sent + Pending(d.queue)
    ensures FlushedSince(d, r) ==> FlushedSince(c, r)
  {
  }

  lemma {:induction false} EncodeAllPrefix(a: seq<Sent>, b: seq<Sent>)
    requires a <= b
    ensures EncodeAll(a) <= EncodeAll(b)
  {
    EncodeAllAppend(a, b[|a|..]);
    assert b == a + b[|a|..];
  }

  // ---------------------------------------------------------------- over whole runs

  /** A task whose flush was told to wait, and all that had to be written then. */
  datatype Promise = Promise(w: Waker, due: seq<byte>)

  /** The task is still registered, or what had to be written has been written. */
  predicate Kept(c: Conn, promise: Option<Promise>) {
    promise.Some? ==>
      && promise.value.due <= c.sent + Pending(c.queue)
      && (c.waker == Some(promise.value.w) || promise.value.due <= c.sent)
  }

  /** The promise a flush makes, which takes the place of the one before. */
  function FlushPromise(env: Env, c: Conn, w: Waker, promise: Option<Promise>): Option<Promise> {
    if Flush(env, c, w).1.FlushPending? then Some(Promise(w, c.sent + Pending(c.queue))) else promise
  }

  /** The promise of the last writer poll whose flush answered pending, after one more operation. */
  function Promised(env: Env, c: Conn, op: Op, promise: Option<Promise>): Option<Promise> {
    match op
    case FlushOp(w) => FlushPromise(env, c, w, promise)
    case ReadyOp(w) => if |Pending(c.queue)| >= env.flushThreshold then FlushPromise(env, c, w, promise) else promise
    case CloseOp(w) =>
      var (c1, ended) := Drain(env, Closing(env, c), w);
      if ended then FlushPromise(env, c1, w, promise) else promise
    case _ => promise
  }

  function LastPromise(env: Env, c: Conn, ops: seq<Op>, promise: Option<Promise>): Option<Promise>
    requires OpsOk(ops)
    decreases ops
  {
    if ops == [] then promise
    else LastPromise(env, Do(env, c, ops[0]).0, ops[1..], Promised(env, c, ops[0], promise))
  }

  lemma FlushKept(env: Env, c: Conn, w: Waker, promise: Option<Promise>)
    requires Kept(c, promise) && IsReading(Flush(env, c, w).0)
    ensures Kept(Flush(env, c, w).0, FlushPromise(env, c, w, promise))
  {
    hide Flush, Pending;
    FlushBytes(env, c, w);
    FlushSettles(env, c, w);
  }

  /** Bytes are only added behind what is pending. */
  lemma PendingGrows(env: Env, c: Conn, r: Conn)
    requires SendInv(env, c) && SendInv(env, r) && c.log <= r.log
    ensures c.sent + Pending(c.queue) <= r.sent + Pending(r.queue)
  {
    hide Pending, EncodeAll;
    EncodeAllPrefix(c.log, r.log);
  }

  lemma NextKept(env: Env, c: Conn, w: Waker, promise: Option<Promise>)
    requires Inv(env, c) && Kept(c, promise) && IsReading(PollNext(env, c, w).0)
    ensures Kept(PollNext(env, c, w).0, promise)
  {
    hide PollNext, Pending, Drive, ParseFrame, SendInv, CloseInv, ReadInv;
    PollNextMeans(env, c, w);
    PollNextOnward(env, c, w);
    var r := PollNext(env, c, w).0;
    PendingGrows(env, c, r);
    if c.waker.Some? {
      NextKeepsWaker(env, c, w);
    }
  }

  lemma {:induction false} DrainKept(env: Env, c: Conn, w: Waker, promise: Option<Promise>)
    requires Inv(env, c) && Kept(c, promise) && IsReading(Drain(env, c, w).0)
    ensures Kept(Drain(env, c, w).0, promise)
    decreases Rank(c.state), Unread(c)
  {
    hide PollNext, Kept, Inv;
    PollNextMeans(env, c, w);
    var (c1, p) := PollNext(env, c, w);
    DrainOnward(env, c1, w);
    NextKept(env, c, w, promise);
    if p.Item? || p.Raised? {
      DrainKept(env, c1, w, promise);
    }
  }

  lemma ClosingKept(env: Env, c: Conn, promise: Option<Promise>)
    requires Inv(env, c) && Kept(c, promise)
    ensures Kept(Closing(env, c), promise)
  {
    hide Pending, SendInv, CloseInv, ReadInv;
    ClosingKeeps(env, c);
    PendingGrows(env, c, Closing(env, c));
  }

  lemma CloseKept(env: Env, c: Conn, w: Waker, promise: Option<Promise>)
    requires Inv(env, c) && Kept(c, promise) && IsReading(PollClose(env, c, w).0)
    ensures Kept(PollClose(env, c, w).0, Promised(env, c, CloseOp(w), promise))
  {
    hide Inv, Kept, Drain, Flush, Closing, FlushPromise;
    var c0 := Closing(env, c);
    var (c1, ended) := Drain(env, c0, w);
    ClosingKept(env, c, promise);
    ClosingKeeps(env, c);
    DrainKept(env, c0, w, promise);
    if ended {
      FlushKept(env, c1, w, promise);
      var c2 := Flush(env, c1, w).0;
      SameKept(c2, Shutdown(env, c2).0, FlushPromise(env, c1, w, promise));
    }
  }

  lemma SameKept(c: Conn, r: Conn, promise: Option<Promise>)
    requires Kept(c, promise) && r.sent == c.sent && r.queue == c.queue && r.waker == c.waker
    ensures Kept(r, promise)
  {
  }

  lemma SendKept(env: Env, c: Conn, m: Message, promise: Option<Promise>)
    requires Inv(env, c) && Kept(c, promise) && Constructible(m)
    ensures Kept(StartSend(env, c, m).0, promise)
  {
    hide Pending, SendInv, CloseInv, ReadInv, StartSend;
    SendStep(env, c, m);
    LogGrows(env, c, m);
    PendingGrows(env, c, StartSend(env, c, m).0);
  }

  lemma DoKept(env: Env, c: Conn, op: Op, promise: Option<Promise>)
    requires Inv(env, c) && OpOk(op) && Kept(c, promise) && IsReading(Do(env, c, op).0)
    ensures Kept(Do(env, c, op).0, Promised(env, c, op, promise))
  {
    hide Inv, Kept, Flush, PollNext, PollClose, StartSend, FlushPromise;
    match op {
      case Send(m) => SendKept(env, c, m, promise);
      case FlushOp(w) => FlushKept(env, c, w, promise);
      case ReadyOp(w) =>
        if |Pending(c.queue)| >= env.flushThreshold {
          FlushKept(env, c, w, promise);
        }
      case NextOp(w) => NextKept(env, c, w, promise);
      case CloseOp(w) => CloseKept(env, c, w, promise);
      case _ => SameKept(c, Do(env, c, op).0, promise);
    }
  }

  /**
    No stolen waker: after every run that leaves the connection being read, whatever writers and readers polled in
    between, the task whose flush was the last to answer pending is still registered, or all that was pending then
    has been written.
   */
  lemma {:induction false} WakerIsNotStolen(env: Env, c: Conn, ops: seq<Op>, promise: Option<Promise>)
    requires Inv(env, c) && OpsOk(ops) && Kept(c, promise) && IsReading(Run(env, c, ops))
    ensures Kept(Run(env, c, ops), LastPromise(env, c, ops, promise))
    decreases ops
  {
    hide Inv, Do, Kept, Promised;
    if ops != [] {
      var c1 := Do(env, c, ops[0]).0;
      DoKeeps(env, c, ops[0]);
      RunOnward(env, c1, ops[1..]);
      DoKept(env, c, ops[0], promise);
      WakerIsNotStolen(env, c1, ops[1..], Promised(env, c, ops[0], promise));
    }
  }

  /**
    The reader replaces another task's waker exactly when it flushes the answer to the peer's close and the
    transport stalls.
   */
  lemma StolenIff(env: Env, c: Conn, w: Waker)
    requires c.waker.Some? && c.waker != Some(w)
    ensures PollNext(env, c, w).0.waker == Some(w)
            <==> c.state.ClosedByPeer? && Flush(env, c, w).1.FlushPending?
  {
    hide Flush;
    if IsReading(c) {
      NextKeepsWaker(env, c, w);
    }
  }

  // ---------------------------------------------------------------- the exception is reached

  /** A connection with a ping pending. */
  lemma PingPending(env: Env)
    ensures var c := StartSend(env, START, Message(Ping, [])).0;
            c == START.(queue := c.queue, log := c.log, outbox := c.outbox) && Pending(c.queue) != []
  {
    hide Pushed, Encoded, Pending, EncodeFrame;
    var f := Message(Ping, []).IntoFrame();
    var mask := if env.cfg.role.Client? then Some(env.key(0)) else None;
    PushedAppends(EMPTY, Encoded(f, mask));
    EncodedBytes(f, mask);
    var q := QueueFrame(env, START, f);
    assert QueueFrames(env, START, [f]) == QueueFrames(env, q, [f][1..]) == q;
  }

  lemma CloseParses(cfg: Config)
    requires cfg == Config(Client, 125)
    ensures ParseFrame(cfg, IDLE, []).More?
    ensures ParseFrame(cfg, IDLE, [0x88, 0]) == Got(Frame(Close, [], true), 2, [])
  {
    hide ParseFrame;
    NothingIsShort(cfg, IDLE);
    var f := Frame(Close, [], true);
    assert EncodeFrame(f, None) == [0x88, 0];
    ParsePrinted(cfg, IDLE, f, None, []);
    assert [0x88, 0] + [] == [0x88, 0];
  }

  /** The close is read and its echo queued. */
  lemma CloseIsRead(env: Env, c: Conn)
    requires env.cfg == Config(Client, 125) && env.io(c.clock) == Grant(2)
    requires c.state.Active? && c.rx == IDLE && c.wire == [] && c.incoming == [0x88, 0]
    ensures var (r, p) := ReadAndReact(env, c);
            && p == Poll.Item(Frame(Close, [], true))
            && r.state.ClosedByPeer? && r.waker == c.waker && r.clock == c.clock + 1
  {
    hide ParseFrame;
    CloseParses(env.cfg);
    var c1 := Read(c.(clock := c.clock + 1), 2);
    assert c1.wire == [0x88, 0];
    assert ReadFrame(env, c) == ReadFrame(env, c1);
  }

  /** A reader that finds another task flushing uses its waker to flush, and after the close its own. */
  lemma CloseSteals(env: Env, c: Conn, w: Waker)
    requires env.cfg == Config(Client, 125)
    requires env.io(c.clock).Stall? && env.io(c.clock + 1) == Grant(2) && env.io(c.clock + 2).Stall?
    requires c.state.Active? && c.rx == IDLE && c.wire == [] && c.incoming == [0x88, 0]
    requires c.waker.Some? && Pending(c.queue) != []
    ensures var r := PollNext(env, c, w).0;
            r.state.ClosedByPeer? && r.waker == c.waker && PollNext(env, r, w).0.waker == Some(w)
  {
    hide ReadAndReact, Pending, Offered;
    CloseIsRead(env, c.(clock := c.clock + 1));
  }

  /**
    A task flushes a ping and is told to wait, a close arrives and is read, and the reader's next poll takes the
    place of that task.
   */
  lemma StolenWakerIsReached(env: Env)
    requires env.cfg == Config(Client, 125)
    requires env.io(0).Stall? && env.io(1).Stall? && env.io(2) == Grant(2) && env.io(3).Stall?
    ensures var c := Run(env, START, [Send(Message(Ping, [])), FlushOp(1), Arrive([0x88, 0]), NextOp(2)]);
            c.state.ClosedByPeer? && c.waker == Some(1) && PollNext(env, c, 2).0.waker == Some(2)
  {
    hide StartSend, PollNext, Pending, Offered;
    var c1 := StartSend(env, START, Message(Ping, [])).0;
    PingPending(env);
    var c3 := c1.(waker := Some(1), clock := 1, incoming := [0x88, 0]);
    assert Do(env, Do(env, c1, FlushOp(1)).0, Arrive([0x88, 0])).0 == c3;
    CloseSteals(env, c3, 2);
    FourSteps(env, START, Send(Message(Ping, [])), FlushOp(1), Arrive([0x88, 0]), NextOp(2));
  }

  lemma FourSteps(env: Env, c: Conn, a: Op, b: Op, d: Op, e: Op)
    requires OpOk(a) && OpOk(b) && OpOk(d) && OpOk(e)
    ensures Run(env, c, [a, b, d, e]) == Do(env, Do(env, Do(env, Do(env, c, a).0, b).0, d).0, e).0
  {
    hide Do;
    var c1 := Do(env, c, a).0;
    var c2 := Do(env, c1, b).0;
    var c3 := Do(env, c2, d).0;
    assert [a, b, d, e][1..] == [b, d, e] && [b, d, e][1..] == [d, e] && [d, e][1..] == [e] && [e][1..] == [];
    assert Run(env, c3, [e]) == Do(env, c3, e).0;
    assert Run(env, c2, [d, e]) == Run(env, c3, [e]);
    assert Run(env, c1, [b, d, e]) == Run(env, c2, [d, e]);
  }
}
