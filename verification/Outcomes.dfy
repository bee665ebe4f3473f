/**
  Which answer a call gives: what the last call to the transport decides, whom a failure or a delay is to be blamed
  on, and what `poll_next` and `poll_close` answer on a transport that does its part.
 */
module Outcomes {
  import opened Bytes
  import opened Types
  import opened Wire
  import opened Refusals
  import opened Queue
  import opened Receive
  import opened Delivery
  import opened Connection
  import opened Discipline
  import opened Answers
  import opened Handshake
  import opened Runs

  // ---------------------------------------------------------------- calls to the transport

  ghost predicate Breaks(env: Env, from: nat, to: nat) { exists n :: from <= n < to && env.io(n).Break? }

  ghost predicate Stalls(env: Env, from: nat, to: nat) { exists n :: from <= n < to && env.io(n).Stall? }

  /** A call that is granted, but no byte. */
  ghost predicate GrantsNothing(env: Env, from: nat, to: nat) { exists n :: from <= n < to && env.io(n) == Grant(0) }

  /** Every call is granted at least a byte. */
  ghost predicate Serves(env: Env, from: nat, to: nat) {
    forall n :: from <= n < to ==> env.io(n).Grant? && env.io(n).n >= 1
  }

  /** All that these calls were granted. */
  function Granted(env: Env, from: nat, to: nat): nat
    decreases to - from
  {
    if from >= to then 0 else (match env.io(from) case Grant(n) => n case _ => 0) + Granted(env, from + 1, to)
  }

  // ---------------------------------------------------------------- flushing

  /**
    The calls of a flush but the last write all that is written, and the last decides: it stalls, or breaks, or is
    the transport's own flush after all is written, or writes nothing of what is left.
   */
  ghost predicate FlushIsDecided(env: Env, c: Conn, r: Conn, f: Flushed) {
    && c.clock < r.clock && Serves(env, c.clock, r.clock - 1)
    && |c.sent| + (r.clock - 1 - c.clock) <= |r.sent| <= |c.sent| + Granted(env, c.clock, r.clock - 1)
    && match env.io(r.clock - 1)
       case Stall => f.FlushPending?
       case Break => f.FlushFailed?
       case Grant(n) => if Pending(r.queue) == [] then f.FlushDone? else n == 0 && f.FlushFailed?
  }

  lemma FlushGoesOn(env: Env, c: Conn, d: Conn, r: Conn, f: Flushed)
    requires env.io(c.clock).Grant? && env.io(c.clock).n >= 1 && d.clock == c.clock + 1
    requires |c.sent| + 1 <= |d.sent| <= |c.sent| + env.io(c.clock).n && FlushIsDecided(env, d, r, f)
    ensures FlushIsDecided(env, c, r, f)
  {
    hide Pending;
  }

  lemma {:induction false} FlushDecides(env: Env, c: Conn, w: Waker)
    ensures var (r, f) := Flush(env, c, w); FlushIsDecided(env, c, r, f)
    decreases |Pending(c.queue)|
  {
    hide Pending, Advanced, Offered, FlushIsDecided;
    var c1 := c.(clock := c.clock + 1);
    if env.io(c.clock).Grant? && Pending(c.queue) != [] {
      var offer := Offered(env, c.queue);
      var k := Min(env.io(c.clock).n, |offer|);
      if k == 0 {
        FlushEnds(env, c, Broke(c1).0, FlushFailed);
      } else {
        var d := c1.(queue := Advanced(c.queue, k), sent := c.sent + offer[..k]);
        FlushDecides(env, d, w);
        FlushGoesOn(env, c, d, Flush(env, d, w).0, Flush(env, d, w).1);
      }
    } else {
      FlushEnds(env, c, Flush(env, c, w).0, Flush(env, c, w).1);
    }
  }

  lemma FlushEnds(env: Env, c: Conn, r: Conn, f: Flushed)
    requires r.clock == c.clock + 1 && r.sent == c.sent && r.queue == c.queue
    requires match env.io(c.clock)
             case Stall => f.FlushPending?
             case Break => f.FlushFailed?
             case Grant(n) => if Pending(c.queue) == [] then f.FlushDone? else n == 0 && f.FlushFailed?
    ensures FlushIsDecided(env, c, r, f)
  {
    hide Pending;
  }

  /** `poll_ready` at the threshold answers as the flush does. */
  lemma ReadyDecides(env: Env, c: Conn, w: Waker)
    requires |Pending(c.queue)| >= env.flushThreshold
    ensures var (r, f) := PollReady(env, c, w);
            FlushIsDecided(env, c, r, f) && (f.FlushPending? ==> r.waker == Some(w))
  {
    hide Flush, Pending;
    FlushDecides(env, c, w);
  }

  // ---------------------------------------------------------------- reading a frame

  /** When reading ends without a frame or a fault in the bytes, the last call to the transport decides. */
  predicate ReadIsDecided(env: Env, r: Conn, p: Poll<Frame>)
    requires r.clock > 0
  {
    match env.io(r.clock - 1)
    case Stall => p.Waiting?
    case Break => p == Raised(Io)
    case Grant(n) =>
      if r.incoming != [] then n == 0 && p.Waiting?
      else if !r.eof then p.Waiting?
      else if r.wire == [] then p.Ended?
      else p == Raised(Io)
  }

  ghost predicate ReadDecided(env: Env, c: Conn, r: Conn, p: Poll<Frame>) {
    if p.Item? || (p.Raised? && !p.error.Io?) then c.clock <= r.clock && Serves(env, c.clock, r.clock)
    else
      && c.clock < r.clock && Serves(env, c.clock, r.clock - 1)
      && ParseFrame(env.cfg, r.rx, r.wire).More? && ReadIsDecided(env, r, p)
  }

  lemma ReadGoesOn(env: Env, c: Conn, d: Conn, r: Conn, p: Poll<Frame>)
    requires env.io(c.clock).Grant? && env.io(c.clock).n >= 1 && d.clock == c.clock + 1 && ReadDecided(env, d, r, p)
    ensures ReadDecided(env, c, r, p)
  {
    hide ParseFrame;
  }

  lemma {:induction false} ReadDecides(env: Env, c: Conn)
    ensures var (r, p) := ReadFrame(env, c); ReadDecided(env, c, r, p)
    decreases |c.incoming|
  {
    hide ParseFrame, ReadDecided;
    var k := if env.io(c.clock).Grant? then Min(env.io(c.clock).n, |c.incoming|) else 0;
    if !ParseFrame(env.cfg, c.rx, c.wire).More? {
      ReadAtOnce(env, c);
    } else if k == 0 {
      ReadEnds(env, c);
    } else {
      var d := Read(c.(clock := c.clock + 1), k);
      ReadDecides(env, d);
      ReadGoesOn(env, c, d, ReadFrame(env, d).0, ReadFrame(env, d).1);
    }
  }

  lemma ReadAtOnce(env: Env, c: Conn)
    requires !ParseFrame(env.cfg, c.rx, c.wire).More?
    ensures var (r, p) := ReadFrame(env, c); ReadDecided(env, c, r, p)
  {
    hide ParseFrame;
    ParsedIsGood(env.cfg, c.rx, c.wire);
  }

  lemma ReadEnds(env: Env, c: Conn)
    requires ParseFrame(env.cfg, c.rx, c.wire).More?
    requires env.io(c.clock).Grant? ==> env.io(c.clock).n == 0 || c.incoming == []
    ensures var (r, p) := ReadFrame(env, c); ReadDecided(env, c, r, p)
  {
    hide ParseFrame;
  }

  // ---------------------------------------------------------------- polling for a message

  /** Whom an answer is to be blamed on. */
  ghost predicate Blamed<T>(env: Env, c: Conn, r: Conn, p: Poll<T>) {
    && c.clock <= r.clock
    && (Breaks(env, c.clock, r.clock) ==> p == Raised(Io) && r.state.CloseAcknowledged?)
    && (p == Raised(Io) ==>
          || Breaks(env, c.clock, r.clock) || GrantsNothing(env, c.clock, r.clock)
          || (r.eof && r.incoming == [] && r.wire != []))
    && (p.Waiting? ==>
          || Stalls(env, c.clock, r.clock) || GrantsNothing(env, c.clock, r.clock)
          || (!r.eof && r.incoming == []))
  }

  lemma ReadAndReactBlamed(env: Env, c: Conn)
    requires IsReading(c)
    ensures var (r, p) := ReadAndReact(env, c); Blamed(env, c, r, p)
  {
    hide ReadFrame, ParseFrame, CloseEcho, ErrorClose, Pushed, Encoded;
    ReadDecides(env, c);
  }

  lemma FlushBlamed(env: Env, c: Conn, w: Waker)
    ensures var (r, f) := Flush(env, c, w);
            && c.clock < r.clock
            && (Breaks(env, c.clock, r.clock) ==> f.FlushFailed?)
            && (f.FlushFailed? ==> Breaks(env, c.clock, r.clock) || GrantsNothing(env, c.clock, r.clock))
            && (f.FlushPending? ==> Stalls(env, c.clock, r.clock))
  {
    hide Flush, Pending, Granted;
    FlushDecides(env, c, w);
  }

  /** Calls before and calls after. */
  lemma BlamedLater<T>(env: Env, c: Conn, d: Conn, r: Conn, p: Poll<T>)
    requires c.clock <= d.clock && !Breaks(env, c.clock, d.clock) && Blamed(env, d, r, p)
    ensures Blamed(env, c, r, p)
  {
    if Breaks(env, c.clock, r.clock) {
      var n :| c.clock <= n < r.clock && env.io(n).Break?;
      assert n >= d.clock;
    }
  }

  lemma PollNextFrameBlamed(env: Env, c: Conn, w: Waker)
    ensures var (r, p) := PollNextFrame(env, c, w); Blamed(env, c, r, p)
  {
    hide ReadAndReact, Flush, Pending, Breaks, Stalls, GrantsNothing;
    if c.state.CloseAcknowledged? {
      NoCalls(env, c.clock);
    } else if c.state.ClosedByPeer? {
      FlushBlamed(env, c, w);
    } else if Pending(c.queue) != [] {
      FlushBlamed(env, c, FlushWaker(c, w));
      var (c1, f) := Flush(env, c, FlushWaker(c, w));
      if !f.FlushFailed? {
        ReadAndReactBlamed(env, c1);
        var (r, p) := ReadAndReact(env, c1);
        BlamedLater(env, c, c1, r, p);
      }
    } else {
      ReadAndReactBlamed(env, c);
    }
  }

  lemma NoCalls(env: Env, n: nat)
    ensures !Breaks(env, n, n)
  {
  }

  /** A failure of the transport is never swallowed, and no failure or delay is made up. */
  lemma {:induction false} PollNextBlamed(env: Env, c: Conn, w: Waker)
    ensures var (r, p) := PollNext(env, c, w); Blamed(env, c, r, p)
    decreases Unread(c)
  {
    hide PollNextFrame, Assemble, Breaks, Stalls, GrantsNothing;
    PollNextFrameBlamed(env, c, w);
    var (c1, p) := PollNextFrame(env, c, w);
    if p.Item? {
      var a := Assemble(env.cfg.maxLen, c1.rx, p.value);
      var c2 := Assembling(env, c1, p.value);
      if a.events == [] {
        PollNextBlamed(env, c2, w);
        var (r, q) := PollNext(env, c2, w);
        BlamedLater(env, c, c2, r, q);
      }
    }
  }

  // ---------------------------------------------------------------- a transport that does its part

  /** The transport takes or gives at least a byte at every call. */
  ghost predicate Prompt(env: Env) { NoFaults(env) && NeverStalls(env) }

  lemma FlushIsDone(env: Env, c: Conn, w: Waker)
    requires Prompt(env)
    ensures Flush(env, c, w).1.FlushDone?
  {
    FlushAnswers(env, c, w);
    FlushDoesNotFail(env, c, w);
  }

  /** What is found in all the bytes that have arrived. */
  predicate ReadFinds(cfg: Config, c: Conn, r: Conn, p: Poll<Frame>) {
    var w := c.wire + c.incoming;
    r.eof == c.eof
    && match ParseFrame(cfg, c.rx, w)
       case Got(f, used, carry) =>
         p == Poll.Item(f) && r.rx == AfterDecode(c.rx, f, carry) && r.wire + r.incoming == w[used..]
       case Bad(e) => p == Raised(e)
       case More => r.incoming == [] && if !c.eof then p.Waiting? else if w == [] then p.Ended? else p == Raised(Io)
  }

  lemma FindsAtOnce(env: Env, c: Conn)
    requires !ParseFrame(env.cfg, c.rx, c.wire).More?
    ensures var (r, p) := ReadFrame(env, c); ReadFinds(env.cfg, c, r, p)
  {
    hide ParseFrame, AfterDecode;
    ParseExtends(env.cfg, c.rx, c.wire, c.incoming);
    var p := ParseFrame(env.cfg, c.rx, c.wire);
    if p.Got? {
      assert (c.wire + c.incoming)[p.used..] == c.wire[p.used..] + c.incoming;
    }
  }

  lemma FindsNothing(env: Env, c: Conn)
    requires Prompt(env) && ParseFrame(env.cfg, c.rx, c.wire).More? && c.incoming == []
    ensures var (r, p) := ReadFrame(env, c); ReadFinds(env.cfg, c, r, p)
  {
    hide ParseFrame;
    assert c.wire + [] == c.wire;
    assert env.io(c.clock).Grant?;
  }

  lemma {:induction false} ReadFindsAll(env: Env, c: Conn)
    requires Prompt(env)
    ensures var (r, p) := ReadFrame(env, c); ReadFinds(env.cfg, c, r, p)
    decreases |c.incoming|
  {
    hide ParseFrame, AfterDecode;
    if !ParseFrame(env.cfg, c.rx, c.wire).More? {
      FindsAtOnce(env, c);
    } else if c.incoming == [] {
      FindsNothing(env, c);
    } else {
      assert env.io(c.clock).Grant? && env.io(c.clock).n >= 1;
      var k := Min(env.io(c.clock).n, |c.incoming|);
      var d := Read(c.(clock := c.clock + 1), k);
      TakeDrop(c.incoming, k);
      Regroup(c.wire, c.incoming[..k], c.incoming[k..]);
      ReadFindsAll(env, d);
    }
  }

  /** The same, once the connection has reacted; what completes nothing leaves the state as it was. */
  predicate Finds(cfg: Config, c: Conn, r: Conn, p: Poll<Frame>) {
    && ReadFinds(cfg, c, r, p)
    && (p.Waiting? || p.Ended? ==> r.state == c.state)
    && (p.Item? && !p.value.opcode.IsControl() ==> r.state == c.state)
  }

  lemma ReadAndReactFinds(env: Env, c: Conn)
    requires Prompt(env) && IsReading(c)
    ensures var (r, p) := ReadAndReact(env, c); Finds(env.cfg, c, r, p)
  {
    hide ReadFrame, ParseFrame, AfterDecode, Prompt, CloseEcho, ErrorClose, Pushed, Encoded;
    ReadFindsAll(env, c);
  }

  lemma PollNextFrameFinds(env: Env, c: Conn, w: Waker)
    requires Prompt(env) && IsReading(c)
    ensures var (r, p) := PollNextFrame(env, c, w); Finds(env.cfg, c, r, p)
  {
    hide ReadAndReact, Flush, Pending, ParseFrame, AfterDecode, Prompt;
    FlushIsDone(env, c, FlushWaker(c, w));
    ReadAndReactFinds(env, if Pending(c.queue) != [] then Flush(env, c, FlushWaker(c, w)).0 else c);
  }

  /**
    What `poll_next` must answer, told by the bytes that have arrived and not been decoded: the first event in them,
    or the fault; or if there is neither, to wait, unless the peer has hung up: then the end, with the state as it
    was, or an error if a frame is cut short.
   */
  predicate NextIs(cfg: Config, c: Conn, r: Conn, p: Poll<Message>) {
    var t := Drive(cfg, c.rx, c.wire + c.incoming);
    if t.events != [] then p == Outcome(cfg.maxLen, t.events[0])
    else match t.end
      case Broken(e) => p == Raised(e)
      case Starved(_, rest) =>
        if !c.eof then p.Waiting? && r.state == c.state
        else if rest == [] then p.Ended? && r.state == c.state
        else p == Raised(Io)
      case Closed => false
  }

  lemma CloseIsAnEvent(maxLen: nat, rx: Rx, f: Frame)
    requires Assemble(maxLen, rx, f).events == [] && GoodFrame(f)
    ensures !f.opcode.IsControl()
  {
  }

  lemma {:induction false} PollNextIs(env: Env, c: Conn, w: Waker)
    requires Prompt(env) && IsReading(c)
    ensures var (r, p) := PollNext(env, c, w); NextIs(env.cfg, c, r, p)
    decreases Unread(c)
  {
    hide PollNextFrame, Assemble, ParseFrame, AfterDecode, Prompt;
    PollNextFrameFinds(env, c, w);
    var (c1, p) := PollNextFrame(env, c, w);
    if p.Item? {
      var a := Assemble(env.cfg.maxLen, c1.rx, p.value);
      if a.events == [] {
        CloseIsAnEvent(env.cfg.maxLen, c1.rx, p.value);
        var c2 := Assembling(env, c1, p.value);
        assert c2.wire + c2.incoming == c1.wire + c1.incoming;
        var t := Drive(env.cfg, c2.rx, c2.wire + c2.incoming);
        assert a.events + t.events == t.events;
        PollNextIs(env, c2, w);
      }
    }
  }

  /** The end answers itself for a connection that is over, or that has only to flush its answer to a close. */
  lemma NextIsTheEnd(env: Env, c: Conn, w: Waker)
    requires Prompt(env) && !IsReading(c)
    ensures var (r, p) := PollNext(env, c, w);
            p.Ended? && r.state.CloseAcknowledged? && (c.state.ClosedByPeer? ==> Pending(r.queue) == [])
  {
    hide Flush, Pending;
    FlushIsDone(env, c, w);
  }

  /** A frame that breaks a rule is refused by the next poll, and answered with a close that names the fault. */
  lemma PollRefuses(env: Env, c: Conn, w: Waker, e: Error)
    requires Prompt(env) && IsReading(c) && FirstViolated(env.cfg, c.rx, c.wire + c.incoming, e)
    ensures var (r, p) := PollNext(env, c, w); p == Raised(e) && ErrorAnswered(c, r, e)
  {
    hide PollNextFrame, ParseFrame, AfterDecode, Prompt, FirstViolated, Closes;
    RefusedIff(env.cfg, c.rx, c.wire + c.incoming, e);
    PollNextFrameFinds(env, c, w);
    PollNextFrameAnswers(env, c, w);
  }

  lemma {:induction false} StreamAhead(env: Env, c: Conn)
    requires Inv(env, c) && IsReading(c)
    ensures Drive(env.cfg, IDLE, c.received + c.incoming) ==
            Then(c.events, Drive(env.cfg, c.rx, c.wire + c.incoming))
  {
    hide SendInv, CloseInv, Bounded, Drive;
    DriveExtends(env.cfg, IDLE, c.received, c.incoming);
    DriveExtends(env.cfg, c.rx, c.wire, c.incoming);
    var t := Drive(env.cfg, c.rx, c.wire);
    if t.end.Starved? {
      ThenThen(c.events, t.events, Drive(env.cfg, t.end.rx, t.end.rest + c.incoming));
    }
  }

  /** Once everything that has arrived is delivered, a stream that ends between two frames is answered with the end. */
  lemma CleanEnd(env: Env, c: Conn, w: Waker, rx: Rx, rest: seq<byte>)
    requires Prompt(env) && Inv(env, c) && IsReading(c) && c.eof
    requires Drive(env.cfg, IDLE, c.received + c.incoming) == Trace(c.events, Starved(rx, rest))
    ensures var (r, p) := PollNext(env, c, w);
            if rest == [] then p.Ended? && r.state == c.state else p == Raised(Io)
  {
    hide PollNext, Drive, Inv, Prompt;
    StreamAhead(env, c);
    PollNextIs(env, c, w);
    var t := Drive(env.cfg, c.rx, c.wire + c.incoming);
    assert |c.events + t.events| == |c.events|;
  }

  // ---------------------------------------------------------------- closing

  /** What has arrived is decoded, and there is no close in it. */
  predicate Hungry(env: Env, c: Conn) {
    IsReading(c) && !c.eof && c.incoming == [] && ParseFrame(env.cfg, c.rx, c.wire).More?
  }

  /** Draining comes to the end of the stream, or has to wait for the transport or for the peer. */
  ghost predicate DrainIsDecided(env: Env, c: Conn, r: Conn, ended: bool) {
    && c.clock <= r.clock
    && if ended then r.state.CloseAcknowledged? || (r.eof && r.wire == [] && r.incoming == [])
       else Stalls(env, c.clock, r.clock) || GrantsNothing(env, c.clock, r.clock) || Hungry(env, r)
  }

  lemma DrainGoesOn(env: Env, c: Conn, d: Conn, r: Conn, ended: bool)
    requires c.clock <= d.clock && DrainIsDecided(env, d, r, ended)
    ensures DrainIsDecided(env, c, r, ended)
  {
    hide Hungry;
  }

  lemma {:induction false} DrainDecides(env: Env, c: Conn, w: Waker)
    requires Inv(env, c)
    ensures var (r, ended) := Drain(env, c, w); DrainIsDecided(env, c, r, ended)
    decreases Rank(c.state), Unread(c)
  {
    hide PollNext, Inv, ParseFrame, Stalls, GrantsNothing, Breaks;
    PollNextBlamed(env, c, w);
    PollNextMeans(env, c, w);
    var (c1, p) := PollNext(env, c, w);
    match p {
      case Ended => EndedMeans(env, c, w);
      case Waiting => WaitsWhileReading(env, c, w);
      case _ =>
        DrainDecides(env, c1, w);
        DrainGoesOn(env, c, c1, Drain(env, c1, w).0, Drain(env, c1, w).1);
    }
  }

  /** A connection that is over for reading waits only for a flush. */
  lemma {:induction false} WaitsWhileReading(env: Env, c: Conn, w: Waker)
    requires PollNext(env, c, w).1.Waiting?
    ensures var r := PollNext(env, c, w).0; IsReading(r) || Stalls(env, c.clock, r.clock)
    decreases Unread(c)
  {
    hide PollNextFrame, Assemble, Stalls;
    FrameWaits(env, c, w);
    var (c1, p) := PollNextFrame(env, c, w);
    if p.Item? {
      var c2 := Assembling(env, c1, p.value);
      WaitsWhileReading(env, c2, w);
      StallsLater(env, c.clock, c2.clock, PollNext(env, c2, w).0.clock);
    }
  }

  lemma StallsLater(env: Env, from: nat, later: nat, to: nat)
    requires from <= later
    ensures Stalls(env, later, to) ==> Stalls(env, from, to)
  {
  }

  lemma FrameWaits(env: Env, c: Conn, w: Waker)
    ensures var (r, p) := PollNextFrame(env, c, w);
            c.clock <= r.clock && (p.Waiting? ==> IsReading(r) || Stalls(env, c.clock, r.clock))
  {
    hide ReadAndReact, Flush, Pending, Stalls, Breaks;
    PollNextFrameBlamed(env, c, w);
    FlushBlamed(env, c, w);
    if IsReading(c) {
      var c1 := if Pending(c.queue) != [] then Flush(env, c, FlushWaker(c, w)).0 else c;
      if IsReading(c1) {
        ReadKeepsState(env, c1);
      }
    }
  }

  lemma ReadKeepsState(env: Env, c: Conn)
    requires IsReading(c)
    ensures var (r, p) := ReadAndReact(env, c); p.Waiting? ==> IsReading(r)
  {
    hide ReadFrame, CloseEcho, ErrorClose;
  }

  /**
    What `poll_close` answers.  It has failed only if the transport did; it waits only for the transport, or for the
    peer to close or hang up; and it is done only when all is written and the transport has taken the shutdown.
   */
  ghost predicate CloseIsDecided(env: Env, c: Conn, r: Conn, f: Flushed) {
    && c.clock <= r.clock
    && (f.FlushFailed? ==> Breaks(env, c.clock, r.clock) || GrantsNothing(env, c.clock, r.clock))
    && (f.FlushPending? ==>
          Stalls(env, c.clock, r.clock) || GrantsNothing(env, c.clock, r.clock) || Hungry(env, r))
    && (f.FlushDone? ==> Pending(r.queue) == [] && r.shut)
    && (r.shut && !c.shut ==> f.FlushDone?)
  }

  lemma CloseDecides(env: Env, c: Conn, w: Waker)
    requires Inv(env, c)
    ensures var (r, f) := PollClose(env, c, w); CloseIsDecided(env, c, r, f)
  {
    hide Drain, Flush, Inv, Pending, Hungry, Pushed, Encoded;
    ClosingKeeps(env, c);
    DrainDecides(env, Closing(env, c), w);
    DrainShut(env, Closing(env, c), w);
    FlushBlamed(env, Drain(env, Closing(env, c), w).0, w);
  }

  lemma ReadShut(env: Env, c: Conn, w: Waker)
    ensures PollNextFrame(env, c, w).0.shut == c.shut
  {
    hide ReadFrame, Flush, CloseEcho, ErrorClose;
  }

  lemma {:induction false} PollNextShut(env: Env, c: Conn, w: Waker)
    ensures PollNext(env, c, w).0.shut == c.shut
    decreases Unread(c)
  {
    hide PollNextFrame, Assemble;
    ReadShut(env, c, w);
    var (c1, p) := PollNextFrame(env, c, w);
    if p.Item? && Assemble(env.cfg.maxLen, c1.rx, p.value).events == [] {
      PollNextShut(env, Assembling(env, c1, p.value), w);
    }
  }

  lemma {:induction false} DrainShut(env: Env, c: Conn, w: Waker)
    ensures Drain(env, c, w).0.shut == c.shut
    decreases Rank(c.state), Unread(c)
  {
    hide PollNext;
    PollNextShut(env, c, w);
    var (c1, p) := PollNext(env, c, w);
    if p.Item? || p.Raised? {
      DrainShut(env, c1, w);
    }
  }

  lemma PromptServes(env: Env, from: nat, to: nat)
    requires Prompt(env)
    ensures !Breaks(env, from, to) && !Stalls(env, from, to) && !GrantsNothing(env, from, to)
  {
  }

  /** On a transport that does its part, closing is done, or the peer has neither closed nor hung up. */
  lemma CloseIsDone(env: Env, c: Conn, w: Waker)
    requires Prompt(env) && Inv(env, c)
    ensures var (r, f) := PollClose(env, c, w); f.FlushDone? || (f.FlushPending? && Hungry(env, r))
  {
    hide PollClose, Inv, Pending, Hungry;
    CloseDecides(env, c, w);
    PromptServes(env, c.clock, PollClose(env, c, w).0.clock);
  }
}
