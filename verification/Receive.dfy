/**
  From bytes to messages: what a receiver that decodes frames and reassembles messages
  (src/proto/stream.rs, `poll_next`) makes of a byte stream, told on the whole stream at once.

  The receiver delivers every whole message and control message, reports an assembled message that
  grows too long and goes on, and stops at a close frame or at a protocol error.
 */
module Receive {
  import opened Bytes
  import opened Utf8
  import opened Types
  import opened Wire
  import opened Codec

  datatype Event = Delivered(message: Message) | TooLong(len: nat)

  datatype End =
    | Starved(rx: Rx, rest: seq<byte>)   // the rest is the beginning of a frame
    | Broken(error: Error)
    | Closed

  datatype Trace = Trace(events: seq<Event>, end: End)

  function Then(events: seq<Event>, t: Trace): Trace { Trace(events + t.events, t.end) }

  datatype Assembled = Assembled(rx: Rx, events: seq<Event>)

  /** The state once a frame is decoded and before the message is assembled. */
  function AfterDecode(rx: Rx, f: Frame, carry: Unfinished): Rx {
    rx.(frag := NextFrag(rx.frag, f), carry := carry)
  }

  /** One round of the loop of `poll_next`. */
  function Assemble(maxLen: nat, rx: Rx, f: Frame): Assembled {
    if !f.opcode.Continuation? then
      if f.fin then Assembled(rx, [Delivered(Message(f.opcode, f.payload))])
      else Assembled(rx.(partial := f.payload), [])
    else
      var len := |rx.partial| + |f.payload|;
      if len > maxLen then Assembled(rx, [TooLong(len)])
      else if f.fin then
        Assembled(Rx(Continuation, rx.carry, []), [Delivered(Message(rx.frag, rx.partial + f.payload))])
      else Assembled(rx.(partial := rx.partial + f.payload), [])
  }

  /** A decoded frame's effect on the receiver. */
  function Consume(cfg: Config, rx: Rx, f: Frame, carry: Unfinished): Assembled {
    Assemble(cfg.maxLen, AfterDecode(rx, f, carry), f)
  }

  /** What becomes of all the bytes of a stream. */
  function Drive(cfg: Config, rx: Rx, w: seq<byte>): Trace
    decreases |w|
  {
    match ParseFrame(cfg, rx, w)
    case More => Trace([], Starved(rx, w))
    case Bad(e) => Trace([], Broken(e))
    case Got(f, used, carry) =>
      var a := Consume(cfg, rx, f, carry);
      if f.opcode.Close? then Trace(a.events, Closed)
      else Then(a.events, Drive(cfg, a.rx, w[used..]))
  }

  /** The frames a stream is received as. */
  function Accepted(cfg: Config, rx: Rx, w: seq<byte>): seq<Frame>
    decreases |w|
  {
    match ParseFrame(cfg, rx, w)
    case Got(f, used, carry) =>
      if f.opcode.Close? then [f]
      else [f] + Accepted(cfg, Consume(cfg, rx, f, carry).rx, w[used..])
    case _ => []
  }

  lemma ThenThen(a: seq<Event>, b: seq<Event>, t: Trace)
    ensures Then(a, Then(b, t)) == Then(a + b, t)
  {
  }

  lemma ThenNothing(t: Trace)
    ensures Then([], t) == t
  {
  }

  /** Bytes that arrive later continue where the stream was starved, and change nothing that happened. */
  lemma {:induction false} DriveExtends(cfg: Config, rx: Rx, w: seq<byte>, x: seq<byte>)
    ensures var t := Drive(cfg, rx, w);
            Drive(cfg, rx, w + x) ==
            if t.end.Starved? then Then(t.events, Drive(cfg, t.end.rx, t.end.rest + x)) else t
    ensures var t := Drive(cfg, rx, w);
            Accepted(cfg, rx, w + x) ==
            Accepted(cfg, rx, w) + if t.end.Starved? then Accepted(cfg, t.end.rx, t.end.rest + x) else []
    decreases |w|
  {
    hide ParseFrame, Consume;
    var p := ParseFrame(cfg, rx, w);
    if p.More? {
      ThenNothing(Drive(cfg, rx, w + x));
      assert [] + Accepted(cfg, rx, w + x) == Accepted(cfg, rx, w + x);
    } else {
      ParseExtends(cfg, rx, w, x);
      if p.Got? && !p.frame.opcode.Close? {
        var a := Consume(cfg, rx, p.frame, p.carry);
        assert (w + x)[p.used..] == w[p.used..] + x;
        DriveExtends(cfg, a.rx, w[p.used..], x);
        var t := Drive(cfg, a.rx, w[p.used..]);
        if t.end.Starved? {
          ThenThen(a.events, t.events, Drive(cfg, t.end.rx, t.end.rest + x));
        }
        Regroup([p.frame], Accepted(cfg, a.rx, w[p.used..]),
                if t.end.Starved? then Accepted(cfg, t.end.rx, t.end.rest + x) else []);
      }
    }
  }

  // ---------------------------------------------------------------- the resumable decoder, driven by reads

  /** The decoder, its receive buffer and the message being assembled. */
  datatype Machine = Machine(st: State, src: seq<byte>, partial: seq<byte>)

  datatype Status = Reading | Failed(error: Error) | Finished

  datatype Pumped = Pumped(m: Machine, frames: seq<Frame>, events: seq<Event>, status: Status)

  predicate Ready(cfg: Config, m: Machine) { Resumable(cfg, m.st, m.src) }

  /** Decodes frame after frame until more bytes are needed. */
  function Pump(cfg: Config, m: Machine): Pumped
    requires Ready(cfg, m)
    decreases |m.src|
  {
    match Decode(cfg, m.st, m.src)
    case NeedMore(st, src) => Pumped(m.(st := st, src := src), [], [], Reading)
    case Fault(e, _, _) => Pumped(m, [], [], Failed(e))
    case Item(f, st, src) =>
      var a := Assemble(cfg.maxLen, Rx(st.frag, st.carry, m.partial), f);
      var next := Machine(st.(frag := a.rx.frag), src, a.rx.partial);
      if f.opcode.Close? then Pumped(next, [f], a.events, Finished)
      else
        ItemShrinks(cfg, m.st, m.src);
        var p := Pump(cfg, next);
        p.(frames := [f] + p.frames, events := a.events + p.events)
  }

  lemma ItemShrinks(cfg: Config, st: State, src: seq<byte>)
    requires Resumable(cfg, st, src) && Decode(cfg, st, src).Item?
    ensures var r := Decode(cfg, st, src); |r.src| < |src| && r.st.processed == 0
  {
  }

  predicate MachineCoupled(cfg: Config, rx: Rx, wire: seq<byte>, m: Machine) {
    Coupled(cfg, rx, wire, m.st, m.src) && m.partial == rx.partial
  }

  /** What pumping the decoder must amount to. */
  predicate PumpMatches(cfg: Config, t: Trace, p: Pumped) {
    && p.events == t.events
    && match t.end
       case Starved(rx, rest) => p.status.Reading? && MachineCoupled(cfg, rx, rest, p.m)
       case Broken(e) => p.status == Failed(e)
       case Closed => p.status.Finished?
  }

  lemma {:induction false} PumpRefinesDrive(cfg: Config, rx: Rx, wire: seq<byte>, m: Machine)
    requires MachineCoupled(cfg, rx, wire, m)
    ensures Ready(cfg, m) && PumpMatches(cfg, Drive(cfg, rx, wire), Pump(cfg, m))
    ensures Pump(cfg, m).frames == Accepted(cfg, rx, wire)
    decreases |wire|
  {
    DecodeRefinesParse(cfg, rx, wire, m.st, m.src);
    var p := ParseFrame(cfg, rx, wire);
    if p.Got? {
      var r := Decode(cfg, m.st, m.src);
      var a := Consume(cfg, rx, p.frame, p.carry);
      assert AfterDecode(rx, p.frame, p.carry) == Rx(r.st.frag, r.st.carry, m.partial);
      if !p.frame.opcode.Close? {
        ItemShrinks(cfg, m.st, m.src);
        CoupledStart(cfg, a.rx, wire[p.used..]);
        PumpRefinesDrive(cfg, a.rx, wire[p.used..], Machine(r.st.(frag := a.rx.frag), r.src, a.rx.partial));
      }
    }
  }

  lemma {:induction false} PumpStaysReady(cfg: Config, m: Machine, x: seq<byte>)
    requires Ready(cfg, m) && Pump(cfg, m).status.Reading?
    ensures var p := Pump(cfg, m); Ready(cfg, p.m.(src := p.m.src + x))
    decreases |m.src|
  {
    var r := Decode(cfg, m.st, m.src);
    match r {
      case NeedMore(st, src) => DecodeKeepsResumable(cfg, m.st, m.src, x);
      case Fault(_, _, _) =>
      case Item(f, st, src) =>
        ItemShrinks(cfg, m.st, m.src);
        var a := Assemble(cfg.maxLen, Rx(st.frag, st.carry, m.partial), f);
        if !f.opcode.Close? {
          PumpStaysReady(cfg, Machine(st.(frag := a.rx.frag), src, a.rx.partial), x);
        }
    }
  }

  /** A whole run: each read is appended to the buffer, which is then decoded as far as possible. */
  function PumpAll(cfg: Config, m: Machine, pieces: seq<seq<byte>>): Pumped
    requires Ready(cfg, m)
    decreases pieces
  {
    var p := Pump(cfg, m);
    if pieces == [] || !p.status.Reading? then p
    else
      PumpStaysReady(cfg, m, pieces[0]);
      var q := PumpAll(cfg, p.m.(src := p.m.src + pieces[0]), pieces[1..]);
      q.(frames := p.frames + q.frames, events := p.events + q.events)
  }

  /** A read between two rounds of pumping keeps decoder and stream together. */
  lemma PumpThenRead(cfg: Config, rx: Rx, wire: seq<byte>, m: Machine, x: seq<byte>)
    requires MachineCoupled(cfg, rx, wire, m)
    ensures Ready(cfg, m)
    ensures var p, t := Pump(cfg, m), Drive(cfg, rx, wire);
            && PumpMatches(cfg, t, p) && p.frames == Accepted(cfg, rx, wire)
            && p.status.Reading? == t.end.Starved?
            && (t.end.Starved? ==> MachineCoupled(cfg, t.end.rx, t.end.rest + x, p.m.(src := p.m.src + x)))
  {
    PumpRefinesDrive(cfg, rx, wire, m);
    var p, t := Pump(cfg, m), Drive(cfg, rx, wire);
    if t.end.Starved? {
      CoupledAppend(cfg, t.end.rx, t.end.rest, p.m.st, p.m.src, x);
    }
  }

  lemma PumpMatchesThen(cfg: Config, events: seq<Event>, t: Trace, p: Pumped)
    requires PumpMatches(cfg, t, p)
    ensures forall frames :: PumpMatches(cfg, Then(events, t), p.(frames := frames, events := events + p.events))
  {
  }

  lemma {:induction false} PumpAllRefinesDrive(cfg: Config, rx: Rx, wire: seq<byte>, m: Machine, pieces: seq<seq<byte>>)
    requires MachineCoupled(cfg, rx, wire, m)
    ensures Ready(cfg, m)
    ensures PumpMatches(cfg, Drive(cfg, rx, wire + Concat(pieces)), PumpAll(cfg, m, pieces))
    ensures PumpAll(cfg, m, pieces).frames == Accepted(cfg, rx, wire + Concat(pieces))
    decreases pieces
  {
    hide ParseFrame, Decode, Drive, Pump, MachineCoupled, Ready, Accepted;
    if pieces == [] {
      PumpRefinesDrive(cfg, rx, wire, m);
      assert wire + [] == wire;
    } else {
      PumpThenRead(cfg, rx, wire, m, pieces[0]);
      DriveExtends(cfg, rx, wire, Concat(pieces));
      var p, t := Pump(cfg, m), Drive(cfg, rx, wire);
      if t.end.Starved? {
        var next := p.m.(src := p.m.src + pieces[0]);
        PumpAllRefinesDrive(cfg, t.end.rx, t.end.rest + pieces[0], next, pieces[1..]);
        Regroup(t.end.rest, pieces[0], Concat(pieces[1..]));
        var u := Drive(cfg, t.end.rx, t.end.rest + Concat(pieces));
        PumpMatchesThen(cfg, t.events, u, PumpAll(cfg, next, pieces[1..]));
      }
    }
  }

  const FRESH := Machine(State(Continuation, 0, []), [], [])

  /** However a byte stream is cut into reads, the resumable decoder makes of it what `Drive` makes of the whole. */
  lemma RunsAreDrives(cfg: Config, pieces: seq<seq<byte>>)
    ensures Ready(cfg, FRESH)
    ensures PumpMatches(cfg, Drive(cfg, IDLE, Concat(pieces)), PumpAll(cfg, FRESH, pieces))
    ensures PumpAll(cfg, FRESH, pieces).frames == Accepted(cfg, IDLE, Concat(pieces))
  {
    CoupledStart(cfg, IDLE, []);
    PumpAllRefinesDrive(cfg, IDLE, [], FRESH, pieces);
    assert [] + Concat(pieces) == Concat(pieces);
  }

  /** Any two ways of cutting a byte stream into reads give the same frames and events and end the same way. */
  lemma SplittingDoesNotMatter(cfg: Config, one: seq<seq<byte>>, two: seq<seq<byte>>)
    requires Concat(one) == Concat(two)
    ensures PumpAll(cfg, FRESH, one).frames == PumpAll(cfg, FRESH, two).frames
    ensures PumpAll(cfg, FRESH, one).events == PumpAll(cfg, FRESH, two).events
    ensures PumpAll(cfg, FRESH, one).status == PumpAll(cfg, FRESH, two).status
  {
    RunsAreDrives(cfg, one);
    RunsAreDrives(cfg, two);
  }
}
