/**
  Two endpoints of opposite roles, joined by two first-in first-out byte channels.

  In any order the endpoints send, read, flush and close; what one has written, the other can read, until a
  channel is cut and the bytes still in it are lost from some point on (tests/pr102_regression.rs).  Each has its
  own transport oracle, so every behaviour of the channels that keeps the order of bytes is covered.
 */
module System {
  import opened Bytes
  import opened Types
  import opened Wire
  import opened Queue
  import opened Receive
  import opened Exchange
  import opened Connection
  import opened Discipline
  import opened Finality
  import opened Handshake
  import opened Runs

  datatype Envs = Envs(left: Env, right: Env)

  datatype Sys = Sys(left: Conn, right: Conn)

  predicate Opposed(es: Envs) { es.right.cfg.role == es.left.cfg.role.Opposite() }

  /** A cut ends what an endpoint can read, and loses all but the first bytes it has not read yet. */
  datatype Move = Left(op: Op) | Right(op: Op) | CutLeft(keep: nat) | CutRight(keep: nat)

  /** The operations of an endpoint; arrival of bytes is the doing of the other one. */
  predicate EndpointOp(op: Op) { OpOk(op) && !op.Arrive? && !op.HangUp? }

  predicate MoveOk(m: Move) { m.Left? || m.Right? ==> EndpointOp(m.op) }

  /** Appends what was newly written to what the peer can read. */
  function Carried(before: Conn, after: Conn, peer: Conn): Conn {
    if peer.eof || !(before.sent <= after.sent) then peer
    else peer.(incoming := peer.incoming + after.sent[|before.sent|..])
  }

  function Cut(c: Conn, keep: nat): Conn { c.(incoming := c.incoming[..Min(keep, |c.incoming|)], eof := true) }

  /** What has arrived at `c` is a part of what its peer has written, and all of it unless the channel is cut. */
  predicate Channel(c: Conn, peer: Conn) {
    && c.received + c.incoming <= peer.sent
    && (!c.eof ==> c.received + c.incoming == peer.sent)
  }

  predicate SysInv(es: Envs, s: Sys) {
    Inv(es.left, s.left) && Inv(es.right, s.right) && Channel(s.left, s.right) && Channel(s.right, s.left)
  }

  function Moved(es: Envs, s: Sys, m: Move): Sys
    requires MoveOk(m)
  {
    match m
    case Left(op) => var r := Do(es.left, s.left, op).0; Sys(r, Carried(s.left, r, s.right))
    case Right(op) => var r := Do(es.right, s.right, op).0; Sys(Carried(s.right, r, s.left), r)
    case CutLeft(keep) => s.(left := Cut(s.left, keep))
    case CutRight(keep) => s.(right := Cut(s.right, keep))
  }

  // ---------------------------------------------------------------- one endpoint's part

  /** An operation takes from the channel only what it reads. */
  predicate Consumes(c: Conn, r: Conn) {
    c.received + c.incoming == r.received + r.incoming && r.eof == c.eof
  }

  lemma {:induction false} ReadFrameConsumes(env: Env, c: Conn)
    ensures Consumes(c, ReadFrame(env, c).0)
    decreases |c.incoming|
  {
    hide ParseFrame;
    if ParseFrame(env.cfg, c.rx, c.wire).More? {
      match env.io(c.clock) {
        case Grant(n) =>
          var k := Min(n, |c.incoming|);
          if k != 0 {
            var c1 := Read(c.(clock := c.clock + 1), k);
            TakeDrop(c.incoming, k);
            Regroup(c.received, c.incoming[..k], c.incoming[k..]);
            ReadFrameConsumes(env, c1);
          }
        case _ =>
      }
    }
  }

  lemma ReadAndReactConsumes(env: Env, c: Conn)
    requires IsReading(c)
    ensures Consumes(c, ReadAndReact(env, c).0)
  {
    hide ReadFrame, CloseEcho, ErrorClose, Pushed, Encoded;
    ReadFrameConsumes(env, c);
  }

  lemma PollNextFrameConsumes(env: Env, c: Conn, w: Waker)
    ensures Consumes(c, PollNextFrame(env, c, w).0)
  {
    hide ReadAndReact, Flush, Pending;
    if IsReading(c) {
      var c1 := if Pending(c.queue) != [] then Flush(env, c, FlushWaker(c, w)).0 else c;
      if IsReading(c1) {
        ReadAndReactConsumes(env, c1);
      }
    }
  }

  lemma {:induction false} PollNextConsumes(env: Env, c: Conn, w: Waker)
    ensures Consumes(c, PollNext(env, c, w).0)
    decreases Unread(c)
  {
    hide PollNextFrame, Assemble;
    PollNextFrameConsumes(env, c, w);
    var (c1, p) := PollNextFrame(env, c, w);
    if p.Item? && Assemble(env.cfg.maxLen, c1.rx, p.value).events == [] {
      PollNextConsumes(env, Assembling(env, c1, p.value), w);
    }
  }

  lemma {:induction false} DrainConsumes(env: Env, c: Conn, w: Waker)
    ensures Consumes(c, Drain(env, c, w).0)
    decreases Rank(c.state), Unread(c)
  {
    hide PollNext;
    PollNextConsumes(env, c, w);
    var (c1, p) := PollNext(env, c, w);
    if p.Item? || p.Raised? {
      DrainConsumes(env, c1, w);
    }
  }

  lemma DoConsumes(env: Env, c: Conn, op: Op)
    requires EndpointOp(op) && Inv(env, c)
    ensures Consumes(c, Do(env, c, op).0)
  {
    hide Flush, Shutdown, PollNext, Drain, Inv;
    match op {
      case Send(m) =>
        InvParts(env, c);
        SendStep(env, c, m);
      case NextOp(w) => PollNextConsumes(env, c, w);
      case CloseOp(w) => DrainConsumes(env, Closing(env, c), w);
      case _ =>
    }
  }

  // ---------------------------------------------------------------- the system

  /** One endpoint has moved from `c` to `r`, and what it has written is carried to its peer. */
  lemma CarriedKeeps(env: Env, c: Conn, r: Conn, peer: Conn)
    requires Inv(env, peer) && c.sent <= r.sent && Consumes(c, r) && Channel(c, peer) && Channel(peer, c)
    ensures var p := Carried(c, r, peer); Inv(env, p) && Channel(r, p) && Channel(p, r)
  {
    hide SendInv, CloseInv, ReadInv;
    SameOutgoing(env, peer, Carried(c, r, peer));
    KeepsReading(env, peer, Carried(c, r, peer));
    TakeDrop(r.sent, |c.sent|);
    Regroup(peer.received, peer.incoming, r.sent[|c.sent|..]);
  }

  lemma CutKeeps(env: Env, c: Conn, peer: Conn, keep: nat)
    requires Inv(env, c) && Channel(c, peer) && Channel(peer, c)
    ensures var r := Cut(c, keep); Inv(env, r) && Channel(r, peer) && Channel(peer, r)
  {
    hide SendInv, CloseInv, ReadInv;
    SameOutgoing(env, c, Cut(c, keep));
    KeepsReading(env, c, Cut(c, keep));
    assert Cut(c, keep).incoming <= c.incoming;
  }

  lemma MoveKeeps(es: Envs, s: Sys, m: Move)
    requires SysInv(es, s) && MoveOk(m)
    ensures SysInv(es, Moved(es, s, m))
  {
    hide Inv, Do, Channel, Carried, Consumes, Cut;
    match m {
      case Left(op) =>
        DoKeeps(es.left, s.left, op);
        DoOnward(es.left, s.left, op);
        DoConsumes(es.left, s.left, op);
        CarriedKeeps(es.right, s.left, Do(es.left, s.left, op).0, s.right);
      case Right(op) =>
        DoKeeps(es.right, s.right, op);
        DoOnward(es.right, s.right, op);
        DoConsumes(es.right, s.right, op);
        CarriedKeeps(es.left, s.right, Do(es.right, s.right, op).0, s.left);
      case CutLeft(keep) => CutKeeps(es.left, s.left, s.right, keep);
      case CutRight(keep) => CutKeeps(es.right, s.right, s.left, keep);
    }
  }

  predicate MovesOk(moves: seq<Move>) { forall i :: 0 <= i < |moves| ==> MoveOk(moves[i]) }

  function RunSys(es: Envs, s: Sys, moves: seq<Move>): Sys
    requires MovesOk(moves)
    decreases moves
  {
    if moves == [] then s else RunSys(es, Moved(es, s, moves[0]), moves[1..])
  }

  lemma {:induction false} RunSysKeeps(es: Envs, s: Sys, moves: seq<Move>)
    requires SysInv(es, s) && MovesOk(moves)
    ensures SysInv(es, RunSys(es, s, moves))
    decreases moves
  {
    hide SysInv, Moved;
    if moves != [] {
      MoveKeeps(es, s, moves[0]);
      RunSysKeeps(es, Moved(es, s, moves[0]), moves[1..]);
    }
  }

  const BEGIN := Sys(START, START)

  lemma BeginInv(es: Envs)
    ensures SysInv(es, BEGIN)
  {
    StartInv(es.left);
    StartInv(es.right);
  }

  // ---------------------------------------------------------------- what one endpoint receives of the other

  /**
    Whatever has arrived of what a connection wrote, a peer that can take its messages receives a prefix of
    them, and finds no fault with the bytes; if all has arrived, it receives all of them.
   */
  lemma ReceivedFromPeer(env: Env, c: Conn, peer: Config, k: nat)
    requires Inv(env, c) && peer.role == env.cfg.role.Opposite()
    requires AllDeliverable(peer, c.outbox) && k <= |c.sent|
    ensures var t := Drive(peer, IDLE, c.sent[..k]);
            && !t.end.Broken? && t.events <= Deliveries(c.outbox)
            && (k == |c.sent| && Pending(c.queue) == [] ==> t.events == Deliveries(c.outbox))
  {
    hide Drive, ReadInv, Deliverable;
    var all := EncodeAll(c.log);
    assert all[..k] == c.sent[..k];
    if Pending(c.queue) == [] {
      assert c.sent + [] == c.sent;
    }
    DrawnFit(env, c.log);
    FlatRoundTrip(peer, c.outbox, env.frameSize, c.log, k);
  }

  /** All that the peer has queued was written, has arrived, and has been read and decoded. */
  predicate Settled(env: Env, c: Conn, peer: Conn) {
    && IsReading(c) && ParseFrame(env.cfg, c.rx, c.wire).More?
    && c.received == peer.sent && Pending(peer.queue) == []
  }

  /**
    What an endpoint has delivered of what its peer has queued: a prefix, and everything once all is written and
    read, or once it has delivered a close.
   */
  predicate Delivers(env: Env, c: Conn, peer: Conn) {
    && c.events <= Deliveries(peer.outbox)
    && (Settled(env, c, peer) || ClosedEvents(c.events) ==> c.events == Deliveries(peer.outbox))
  }

  /** The receiving side: what `c` made of the part of the peer's bytes it has read. */
  lemma PeerReceives(env: Env, c: Conn, peerEnv: Env, peer: Conn)
    requires Inv(env, c) && Inv(peerEnv, peer) && env.cfg.role == peerEnv.cfg.role.Opposite()
    requires c.received <= peer.sent && AllDeliverable(env.cfg, peer.outbox)
    ensures Delivers(env, c, peer) && !Drive(env.cfg, IDLE, c.received).end.Broken?
  {
    hide Deliverable, SendInv, ParseFrame, ClosedEvents;
    assert peer.sent[..|c.received|] == c.received;
    ReceivedFromPeer(peerEnv, peer, env.cfg, |c.received|);
    EventsSoFar(env, c);
    if ClosedEvents(c.events) {
      CloseIsLast(c.events, peer.outbox);
    }
  }

  /** Nothing is missing behind a close. */
  lemma CloseIsLast(events: seq<Event>, outbox: seq<Message>)
    requires events <= Deliveries(outbox) && ClosedEvents(events) && ClosesLast(outbox)
    ensures events == Deliveries(outbox)
  {
    var i := |events| - 1;
    DeliveriesAreDelivered(outbox, i);
    assert Deliveries(outbox)[i] == events[i];
    CloseAt(outbox, i);
  }

  /** The peer's limit admits control frames and the application's messages, whose text is valid. */
  predicate DataDeliverable(peer: Config, outbox: seq<Message>) {
    && peer.maxLen >= 125
    && forall i :: 0 <= i < |outbox| ==> !outbox[i].opcode.IsControl() ==> Deliverable(peer, outbox[i])
  }

  lemma AllIsDeliverable(env: Env, c: Conn, peer: Config)
    requires Inv(env, c) && DataDeliverable(peer, c.outbox)
    ensures AllDeliverable(peer, c.outbox)
  {
    hide SendInv, ReadInv;
  }

  /** Both endpoints can take what the other sends. */
  predicate Compatible(es: Envs, s: Sys) {
    Opposed(es) && DataDeliverable(es.right.cfg, s.left.outbox) && DataDeliverable(es.left.cfg, s.right.outbox)
  }

  /**
    End to end.  After any run, each endpoint has delivered a prefix of the messages the other has queued, in order,
    without loss or duplication; and all of them once everything is written and read, and once it has delivered
    a close.
   */
  lemma EndToEnd(es: Envs, moves: seq<Move>)
    requires MovesOk(moves) && Compatible(es, RunSys(es, BEGIN, moves))
    ensures var s := RunSys(es, BEGIN, moves);
            Delivers(es.left, s.left, s.right) && Delivers(es.right, s.right, s.left)
  {
    hide Inv, RunSys, Deliverable, Drive, Settled, ClosedEvents;
    BeginInv(es);
    RunSysKeeps(es, BEGIN, moves);
    var s := RunSys(es, BEGIN, moves);
    AllIsDeliverable(es.left, s.left, es.right.cfg);
    AllIsDeliverable(es.right, s.right, es.left.cfg);
    HasRead(s.left, s.right);
    HasRead(s.right, s.left);
    PeerReceives(es.left, s.left, es.right, s.right);
    PeerReceives(es.right, s.right, es.left, s.left);
  }

  lemma HasRead(c: Conn, peer: Conn)
    requires c.received + c.incoming <= peer.sent
    ensures c.received <= peer.sent
  {
    assert c.received <= c.received + c.incoming;
  }

  /** A poll of an endpoint finds no fault with the bytes of a peer whose messages it can take. */
  lemma NextFindsNoFault(env: Env, c: Conn, peerEnv: Env, peer: Conn, w: Waker)
    requires Inv(env, c) && Inv(peerEnv, peer) && env.cfg.role == peerEnv.cfg.role.Opposite()
    requires c.received + c.incoming <= peer.sent && AllDeliverable(env.cfg, peer.outbox)
    ensures var p := PollNext(env, c, w).1; p.Raised? ==> p.error.Io?
  {
    hide Deliverable, Drive, PollNext, ParseFrame;
    PollNextMeans(env, c, w);
    PollNextConsumes(env, c, w);
    var (r, p) := PollNext(env, c, w);
    HasRead(r, peer);
    PeerReceives(env, r, peerEnv, peer);
    if p.Raised? && !p.error.Io? {
      if r.events == c.events + [TooLong(p.error.len)] {
        DeliveriesAreDelivered(peer.outbox, |c.events|);
      }
    }
  }

  /**
    Safety.  In no run, cut or not, does the decoder of either endpoint find a fault in the bytes it has read, so an
    error answered by `poll_next` is one of the transport.
   */
  lemma NoProtocolErrors(es: Envs, moves: seq<Move>, w: Waker)
    requires MovesOk(moves) && Compatible(es, RunSys(es, BEGIN, moves))
    ensures var s := RunSys(es, BEGIN, moves);
            && !Drive(es.left.cfg, IDLE, s.left.received).end.Broken?
            && !Drive(es.right.cfg, IDLE, s.right.received).end.Broken?
    ensures var s := RunSys(es, BEGIN, moves);
            var p, q := PollNext(es.left, s.left, w).1, PollNext(es.right, s.right, w).1;
            (p.Raised? ==> p.error.Io?) && (q.Raised? ==> q.error.Io?)
  {
    hide RunSys, Deliverable, PollNext, Inv, Drive, Delivers;
    BeginInv(es);
    RunSysKeeps(es, BEGIN, moves);
    var s := RunSys(es, BEGIN, moves);
    AllIsDeliverable(es.left, s.left, es.right.cfg);
    AllIsDeliverable(es.right, s.right, es.left.cfg);
    HasRead(s.left, s.right);
    HasRead(s.right, s.left);
    PeerReceives(es.left, s.left, es.right, s.right);
    PeerReceives(es.right, s.right, es.left, s.left);
    NextFindsNoFault(es.left, s.left, es.right, s.right, w);
    NextFindsNoFault(es.right, s.right, es.left, s.left, w);
  }

  lemma {:induction false} DeliveriesAreDelivered(outbox: seq<Message>, i: nat)
    requires i < |Deliveries(outbox)|
    ensures |Deliveries(outbox)| == |outbox| && Deliveries(outbox)[i] == Delivered(outbox[i])
    decreases outbox
  {
    if i > 0 {
      DeliveriesAreDelivered(outbox[1..], i - 1);
    }
  }

  // ---------------------------------------------------------------- the handshake

  predicate NoCuts(moves: seq<Move>) { forall i :: 0 <= i < |moves| ==> moves[i].Left? || moves[i].Right? }

  /** Both channels are open, and the handshake is kept on both sides. */
  predicate SysShaken(es: Envs, s: Sys) {
    !s.left.eof && !s.right.eof && Shaken(es.left, s.left) && Shaken(es.right, s.right)
  }

  lemma MoveShaken(es: Envs, s: Sys, m: Move)
    requires SysInv(es, s) && MoveOk(m) && (m.Left? || m.Right?) && NoFaults(es.left) && NoFaults(es.right)
    requires SysShaken(es, s)
    ensures SysShaken(es, Moved(es, s, m))
  {
    hide Do, Shaken, NoFaults, Inv, Channel;
    match m {
      case Left(op) =>
        DoShaken(es.left, s.left, op);
        PeerShaken(es.right, s.right, Moved(es, s, m).right);
      case Right(op) =>
        DoShaken(es.right, s.right, op);
        PeerShaken(es.left, s.left, Moved(es, s, m).left);
    }
  }

  lemma {:induction false} RunSysShaken(es: Envs, s: Sys, moves: seq<Move>)
    requires SysInv(es, s) && MovesOk(moves) && NoCuts(moves) && NoFaults(es.left) && NoFaults(es.right)
    requires SysShaken(es, s)
    ensures SysShaken(es, RunSys(es, s, moves))
    decreases moves
  {
    hide SysInv, Moved, SysShaken, NoFaults;
    if moves != [] {
      MoveKeeps(es, s, moves[0]);
      MoveShaken(es, s, moves[0]);
      RunSysShaken(es, Moved(es, s, moves[0]), moves[1..]);
    }
  }

  lemma PeerShaken(env: Env, c: Conn, r: Conn)
    requires Shaken(env, c) && r == c.(incoming := r.incoming)
    ensures Shaken(env, r)
  {
  }

  /** The end of the handshake, as an endpoint sees it. */
  predicate HandshakeDone(c: Conn) {
    EndsWithClose(c.outbox) && ClosesLast(c.outbox) && ClosedEvents(c.events)
  }

  /** An endpoint that has stopped reading has completed the handshake, and has delivered everything. */
  predicate Concluded(c: Conn, peer: Conn) {
    !IsReading(c) ==> HandshakeDone(c) && c.events == Deliveries(peer.outbox)
  }

  lemma ShakenConcludes(es: Envs, s: Sys)
    requires SysInv(es, s) && SysShaken(es, s) && Compatible(es, s)
    ensures Concluded(s.left, s.right) && Concluded(s.right, s.left)
  {
    hide Deliverable, Drive, ReadInv, SendInv, ClosedEvents, Settled;
    AllIsDeliverable(es.left, s.left, es.right.cfg);
    AllIsDeliverable(es.right, s.right, es.left.cfg);
    HasRead(s.left, s.right);
    HasRead(s.right, s.left);
    PeerReceives(es.left, s.left, es.right, s.right);
    PeerReceives(es.right, s.right, es.left, s.left);
  }

  /** No fault of a transport, and no cut: what a run keeps. */
  lemma RunKeepsShaken(es: Envs, moves: seq<Move>)
    requires MovesOk(moves) && NoCuts(moves) && NoFaults(es.left) && NoFaults(es.right)
    ensures SysInv(es, RunSys(es, BEGIN, moves)) && SysShaken(es, RunSys(es, BEGIN, moves))
  {
    hide RunSys, Inv, NoFaults;
    BeginInv(es);
    RunSysKeeps(es, BEGIN, moves);
    RunSysShaken(es, BEGIN, moves);
  }

  /**
    In a run whose transports do not fail, an endpoint reaches the end of the closing handshake only after it has
    queued exactly one close, as its last message, and has delivered everything the other has queued, with a close
    as its last message.
   */
  lemma HandshakeComplete(es: Envs, moves: seq<Move>)
    requires MovesOk(moves) && NoCuts(moves) && NoFaults(es.left) && NoFaults(es.right)
    requires Compatible(es, RunSys(es, BEGIN, moves))
    ensures var s := RunSys(es, BEGIN, moves); Concluded(s.left, s.right) && Concluded(s.right, s.left)
  {
    hide RunSys, SysInv, SysShaken, Compatible, Concluded, NoFaults;
    RunKeepsShaken(es, moves);
    ShakenConcludes(es, RunSys(es, BEGIN, moves));
  }

  // ---------------------------------------------------------------- one endpoint against anything

  /**
    Whatever bytes arrive, valid or not, and however the transport behaves, what a connection has written is at
    all times the beginning of a stream its peer accepts: pongs, the echo of a close and the close that answers
    an error included.
   */
  lemma OutputIsAlwaysValid(env: Env, ops: seq<Op>, peer: Config, k: nat)
    requires OpsOk(ops) && peer.role == env.cfg.role.Opposite()
    requires DataDeliverable(peer, Run(env, START, ops).outbox) && k <= |Run(env, START, ops).sent|
    ensures var c := Run(env, START, ops);
            var t := Drive(peer, IDLE, c.sent[..k]);
            !t.end.Broken? && t.events <= Deliveries(c.outbox)
  {
    hide Run, Drive, Inv, Deliverable;
    StartInv(env);
    RunKeeps(env, START, ops);
    var c := Run(env, START, ops);
    AllIsDeliverable(env, c, peer);
    ReceivedFromPeer(env, c, peer, k);
  }
}
