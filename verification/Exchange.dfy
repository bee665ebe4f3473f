/**
  What a receiver makes of the frames a sender prints.

  `Absorb` is reception frame by frame.  The main results: a stream of printed frames is received as just
  these frames, whatever part of it has arrived; and the frames of a list of messages, however they are
  fragmented and masked, are received as these messages.
 */
module Exchange {
  import opened Bytes
  import opened Mask
  import opened Utf8
  import opened Types
  import opened Wire
  import opened Fragment
  import opened Receive

  datatype SentFrame = SentFrame(frame: Frame, mask: Option<Key>)

  /** A queued frame and the key it is masked with. */
  type Sent = s: SentFrame | |s.frame.payload| < USIZE_END witness SentFrame(Frame(Ping, [], true), None)

  function EncodeAll(log: seq<Sent>): seq<byte> {
    if log == [] then [] else EncodeFrame(log[0].frame, log[0].mask) + EncodeAll(log[1..])
  }

  function FramesOf(log: seq<Sent>): (fs: seq<Frame>)
    ensures |fs| == |log|
  {
    if log == [] then [] else [log[0].frame] + FramesOf(log[1..])
  }

  predicate MasksFit(role: Role, log: seq<Sent>) {
    forall i :: 0 <= i < |log| ==> MaskFits(role, log[i].mask)
  }

  lemma {:induction false} EncodeAllAppend(a: seq<Sent>, b: seq<Sent>)
    ensures EncodeAll(a + b) == EncodeAll(a) + EncodeAll(b)
    ensures FramesOf(a + b) == FramesOf(a) + FramesOf(b)
    decreases a
  {
    hide EncodeFrame;
    if a == [] {
      assert a + b == b;
    } else {
      assert (a + b)[1..] == a[1..] + b && (a + b)[0] == a[0];
      EncodeAllAppend(a[1..], b);
      Regroup(EncodeFrame(a[0].frame, a[0].mask), EncodeAll(a[1..]), EncodeAll(b));
      Regroup([a[0].frame], FramesOf(a[1..]), FramesOf(b));
    }
  }

  // ---------------------------------------------------------------- reception, frame by frame

  function Absorb(cfg: Config, rx: Rx, frames: seq<Frame>): Option<Assembled>
    decreases frames
  {
    if frames == [] then Some(Assembled(rx, []))
    else if !Acceptable(cfg, rx, frames[0]) then None
    else
      var a := Consume(cfg, rx, frames[0], CarryAfter(rx, frames[0]));
      match Absorb(cfg, a.rx, frames[1..])
      case None => None
      case Some(r) => Some(Assembled(r.rx, a.events + r.events))
  }

  lemma {:induction false} AbsorbAppend(cfg: Config, rx: Rx, a: seq<Frame>, b: seq<Frame>)
    ensures Absorb(cfg, rx, a + b) ==
            match Absorb(cfg, rx, a)
            case None => None
            case Some(r) =>
              match Absorb(cfg, r.rx, b)
              case None => None
              case Some(s) => Some(Assembled(s.rx, r.events + s.events))
    decreases a
  {
    hide Acceptable, Consume, CarryAfter;
    if a == [] {
      assert a + b == b;
      match Absorb(cfg, rx, b) {
        case None =>
        case Some(s) => assert [] + s.events == s.events;
      }
    } else {
      assert (a + b)[1..] == a[1..] + b;
      if Acceptable(cfg, rx, a[0]) {
        CarryDefined(cfg, rx, a[0]);
        var c := Consume(cfg, rx, a[0], CarryAfter(rx, a[0]));
        AbsorbAppend(cfg, c.rx, a[1..], b);
        var r := Absorb(cfg, c.rx, a[1..]);
        if r.Some? && Absorb(cfg, r.value.rx, b).Some? {
          Regroup(c.events, r.value.events, Absorb(cfg, r.value.rx, b).value.events);
        }
      }
    }
  }

  lemma AbsorbOne(cfg: Config, rx: Rx, f: Frame, next: Assembled)
    requires Acceptable(cfg, rx, f) && Consume(cfg, rx, f, CarryAfter(rx, f)) == next
    ensures Absorb(cfg, rx, [f]) == Some(next)
  {
    hide Acceptable, Consume, CarryAfter;
    assert [f][1..] == [];
    assert next.events + [] == next.events;
  }

  /** A frame that completes nothing. */
  lemma AbsorbQuietly(cfg: Config, rx: Rx, fs: seq<Frame>, next: Rx)
    requires fs != [] && Acceptable(cfg, rx, fs[0])
    requires Consume(cfg, rx, fs[0], CarryAfter(rx, fs[0])) == Assembled(next, [])
    ensures Absorb(cfg, rx, fs) == Absorb(cfg, next, fs[1..])
  {
    hide Acceptable, Consume, CarryAfter;
    var r := Absorb(cfg, next, fs[1..]);
    if r.Some? {
      assert [] + r.value.events == r.value.events;
    }
  }

  lemma CarryDefined(cfg: Config, rx: Rx, f: Frame)
    requires Acceptable(cfg, rx, f)
    ensures IsText(f.opcode, rx.frag) ==> Run(rx.carry, f.payload).Some?
  {
  }

  /** No frame follows a close frame. */
  predicate CloseLast(fs: seq<Frame>) {
    fs != [] ==> (fs[0].opcode.Close? ==> |fs| == 1) && CloseLast(fs[1..])
  }

  predicate NoClose(fs: seq<Frame>) {
    forall i :: 0 <= i < |fs| ==> !fs[i].opcode.Close?
  }

  lemma {:induction false} CloseLastAppend(a: seq<Frame>, b: seq<Frame>)
    requires NoClose(a) && CloseLast(b)
    ensures CloseLast(a + b)
    decreases a
  {
    if a == [] {
      assert a + b == b;
    } else {
      assert (a + b)[1..] == a[1..] + b && (a + b)[0] == a[0];
      CloseLastAppend(a[1..], b);
    }
  }

  /** Any part of a printed stream that has arrived is received as the frames printed there, and never refused. */
  lemma {:induction false} DriveEncoded(cfg: Config, rx: Rx, log: seq<Sent>, k: nat)
    requires Absorb(cfg, rx, FramesOf(log)).Some?
    requires MasksFit(cfg.role, log) && CloseLast(FramesOf(log)) && k <= |EncodeAll(log)|
    ensures var t := Drive(cfg, rx, EncodeAll(log)[..k]);
            var r := Absorb(cfg, rx, FramesOf(log)).value;
            && !t.end.Broken? && t.events <= r.events
            && (k == |EncodeAll(log)| ==> t.events == r.events)
            && (k == |EncodeAll(log)| ==>
                  t.end == if log != [] && log[|log| - 1].frame.opcode.Close? then Closed else Starved(r.rx, []))
    decreases log
  {
    hide Acceptable, Consume, CarryAfter, ParseFrame, EncodeFrame;
    if log == [] {
      assert EncodeAll(log)[..k] == [];
      assert ParseFrame(cfg, rx, []).More? by { NothingIsShort(cfg, rx); }
    } else {
      var fs, w := FramesOf(log), EncodeAll(log)[..k];
      var f, s := log[0].frame, EncodeFrame(log[0].frame, log[0].mask);
      assert fs[0] == f && fs[1..] == FramesOf(log[1..]);
      if k < |s| {
        assert w == s[..k];
        ParsePrintedPrefix(cfg, rx, f, log[0].mask, k);
      } else {
        assert CloseLast(fs[1..]) && MasksFit(cfg.role, log[1..]);
        var rest := EncodeAll(log[1..])[..k - |s|];
        assert w == s + rest;
        ParsePrinted(cfg, rx, f, log[0].mask, rest);
        assert w[|s|..] == rest;
        CarryDefined(cfg, rx, f);
        var a := Consume(cfg, rx, f, CarryAfter(rx, f));
        if f.opcode.Close? {
          CloseIsLast(log);
          assert a.events + [] == a.events;
        } else {
          DriveEncoded(cfg, a.rx, log[1..], k - |s|);
          ThenPrefix(a.events, Drive(cfg, a.rx, rest).events, Absorb(cfg, a.rx, fs[1..]).value.events);
        }
      }
    }
  }

  lemma NothingIsShort(cfg: Config, rx: Rx)
    ensures ParseFrame(cfg, rx, []).More?
  {
  }

  lemma ThenPrefix(a: seq<Event>, b: seq<Event>, c: seq<Event>)
    requires b <= c
    ensures a + b <= a + c
  {
  }

  lemma {:induction false} CloseIsLast(log: seq<Sent>)
    requires log != [] && CloseLast(FramesOf(log)) && log[0].frame.opcode.Close?
    ensures log[1..] == []
  {
    var fs := FramesOf(log);
    assert fs[0] == log[0].frame;
    assert |fs| == 1;
    assert |log| == 1;
  }

  // ---------------------------------------------------------------- messages

  /** A message the peer can take: within its limit, and valid if it is text. */
  predicate Deliverable(cfg: Config, m: Message) {
    && Constructible(m) && |m.payload| <= cfg.maxLen
    && (m.opcode.Text? ==> BasicOk(m.payload))
  }

  /** The frames `start_send` queues for a message. */
  function UnitFrames(m: Message, size: nat): seq<Frame>
    requires size >= 1
  {
    if m.opcode.IsControl() || |m.payload| <= size then [m.IntoFrame()]
    else Frames(m.opcode, m.payload, size)
  }

  /** The continuation frames of a message, of any sizes, complete what has been received of it. */
  lemma {:induction false} AbsorbContinuations(cfg: Config, rx: Rx, fs: seq<Frame>)
    requires (rx.frag.Text? || rx.frag.Binary?) && Fragments(fs, Continuation)
    requires |rx.partial| + |Payloads(fs)| <= cfg.maxLen
    requires rx.frag.Text? ==> Run(rx.carry, Payloads(fs)) == Some([])
    ensures Absorb(cfg, rx, fs) ==
            Some(Assembled(Rx(Continuation, if rx.frag.Text? then [] else rx.carry, []),
                           [Delivered(Message(rx.frag, rx.partial + Payloads(fs)))]))
    decreases fs
  {
    hide Run, Absorb, Acceptable, Consume, CarryAfter;
    var head, rest := fs[0].payload, fs[1..];
    assert fs[0] == Frame(Continuation, head, |fs| == 1);
    if |fs| == 1 {
      assert fs == [fs[0]] && Payloads(rest) == [] && head + [] == head;
      LastStep(cfg, rx, head);
      AbsorbOne(cfg, rx, fs[0], Assembled(Rx(Continuation, if rx.frag.Text? then [] else rx.carry, []),
                                          [Delivered(Message(rx.frag, rx.partial + head))]));
    } else {
      RunSplit(rx.carry, head, Payloads(rest));
      var next := Rx(rx.frag, if rx.frag.Text? then Run(rx.carry, head).value else rx.carry, rx.partial + head);
      ContinuationStep(cfg, rx, head, next);
      AbsorbContinuations(cfg, next, rest);
      AbsorbQuietly(cfg, rx, fs, next);
      Regroup(rx.partial, head, Payloads(rest));
    }
  }

  lemma ContinuationStep(cfg: Config, rx: Rx, head: seq<byte>, next: Rx)
    requires (rx.frag.Text? || rx.frag.Binary?) && |rx.partial| + |head| <= cfg.maxLen
    requires rx.frag.Text? ==> Run(rx.carry, head).Some?
    requires next == Rx(rx.frag, if rx.frag.Text? then Run(rx.carry, head).value else rx.carry, rx.partial + head)
    ensures var f := Frame(Continuation, head, false);
            Acceptable(cfg, rx, f) && Consume(cfg, rx, f, CarryAfter(rx, f)) == Assembled(next, [])
  {
  }

  lemma LastStep(cfg: Config, rx: Rx, rest: seq<byte>)
    requires (rx.frag.Text? || rx.frag.Binary?) && |rx.partial| + |rest| <= cfg.maxLen
    requires rx.frag.Text? ==> Run(rx.carry, rest) == Some([])
    ensures var f := Frame(Continuation, rest, true);
            && Acceptable(cfg, rx, f)
            && Consume(cfg, rx, f, CarryAfter(rx, f)) ==
               Assembled(Rx(Continuation, if rx.frag.Text? then [] else rx.carry, []),
                         [Delivered(Message(rx.frag, rx.partial + rest))])
  {
  }

  lemma AbsorbSingle(cfg: Config, m: Message)
    requires Deliverable(cfg, m)
    ensures Absorb(cfg, IDLE, [m.IntoFrame()]) == Some(Assembled(IDLE, [Delivered(m)]))
  {
    var f := m.IntoFrame();
    if m.payload == [] {
      assert Run([], m.payload) == Some([]);
    }
    AbsorbOne(cfg, IDLE, f, Assembled(IDLE, [Delivered(m)]));
  }

  /** The frames a peer may send a message in: a control message in one, a data message in any fragments. */
  predicate Spells(fs: seq<Frame>, m: Message) {
    if m.opcode.IsControl() then fs == [m.IntoFrame()]
    else Fragments(fs, m.opcode) && Payloads(fs) == m.payload
  }

  /** The frames of one message, sent to an idle receiver, deliver that message and leave the receiver idle. */
  lemma AbsorbMessage(cfg: Config, m: Message, fs: seq<Frame>)
    requires Deliverable(cfg, m) && Spells(fs, m)
    ensures Absorb(cfg, IDLE, fs) == Some(Assembled(IDLE, [Delivered(m)]))
  {
    hide Run, Absorb, Acceptable, Consume, CarryAfter;
    if |fs| == 1 {
      if !m.opcode.IsControl() {
        assert Payloads(fs[1..]) == [] && fs[0].payload + [] == fs[0].payload;
        assert fs[0] == m.IntoFrame() && fs == [fs[0]];
      }
      AbsorbSingle(cfg, m);
    } else {
      var head, rest := fs[0].payload, fs[1..];
      assert fs[0] == Frame(m.opcode, head, false) && m.payload == head + Payloads(rest);
      RunSplit([], head, Payloads(rest));
      var next := Rx(m.opcode, if m.opcode.Text? then Run([], head).value else [], head);
      FirstStep(cfg, m.opcode, head, next);
      AbsorbContinuations(cfg, next, rest);
      AbsorbQuietly(cfg, IDLE, fs, next);
    }
  }

  /** The frames an endpoint must send a message in: a control message in one, a data message cut at the frame size. */
  predicate Cuts(fs: seq<Frame>, m: Message, size: nat) {
    if m.opcode.IsControl() then fs == [m.IntoFrame()] else Fragmentation(fs, m.opcode, m.payload, size)
  }

  lemma CutsSpell(fs: seq<Frame>, m: Message, size: nat)
    requires Cuts(fs, m, size)
    ensures Spells(fs, m)
  {
  }

  lemma UnitCuts(m: Message, size: nat)
    requires size >= 1
    ensures Cuts(UnitFrames(m, size), m, size)
  {
    if !m.opcode.IsControl() {
      FramesFragment(m.opcode, m.payload, size);
      if |m.payload| <= size {
        assert UnitFrames(m, size) == Frames(m.opcode, m.payload, size);
      }
    }
  }

  lemma FirstStep(cfg: Config, opcode: OpCode, head: seq<byte>, next: Rx)
    requires (opcode.Text? || opcode.Binary?) && |head| <= cfg.maxLen
    requires opcode.Text? ==> Run([], head).Some?
    requires next == Rx(opcode, if opcode.Text? then Run([], head).value else [], head)
    ensures var f := Frame(opcode, head, false);
            Acceptable(cfg, IDLE, f) && Consume(cfg, IDLE, f, CarryAfter(IDLE, f)) == Assembled(next, [])
  {
  }

  function Flat(outbox: seq<Message>, size: nat): seq<Frame>
    requires size >= 1
  {
    if outbox == [] then [] else UnitFrames(outbox[0], size) + Flat(outbox[1..], size)
  }

  function Deliveries(outbox: seq<Message>): (r: seq<Event>)
    ensures |r| == |outbox|
  {
    if outbox == [] then [] else [Delivered(outbox[0])] + Deliveries(outbox[1..])
  }

  lemma {:induction false} FlatAppend(a: seq<Message>, b: seq<Message>, size: nat)
    requires size >= 1
    ensures Flat(a + b, size) == Flat(a, size) + Flat(b, size)
    ensures Deliveries(a + b) == Deliveries(a) + Deliveries(b)
    decreases a
  {
    hide UnitFrames;
    if a == [] {
      assert a + b == b;
    } else {
      assert (a + b)[1..] == a[1..] + b;
      FlatAppend(a[1..], b, size);
    }
  }

  predicate AllDeliverable(cfg: Config, outbox: seq<Message>) {
    forall i :: 0 <= i < |outbox| ==> Deliverable(cfg, outbox[i])
  }

  function Joined(parts: seq<seq<Frame>>): seq<Frame> { if parts == [] then [] else parts[0] + Joined(parts[1..]) }

  predicate AllSpell(parts: seq<seq<Frame>>, outbox: seq<Message>) {
    |parts| == |outbox| && forall i :: 0 <= i < |outbox| ==> Spells(parts[i], outbox[i])
  }

  lemma {:induction false} AbsorbOutbox(cfg: Config, outbox: seq<Message>, parts: seq<seq<Frame>>)
    requires AllDeliverable(cfg, outbox) && AllSpell(parts, outbox)
    ensures Absorb(cfg, IDLE, Joined(parts)) == Some(Assembled(IDLE, Deliveries(outbox)))
    decreases outbox
  {
    hide Spells, Deliverable, Consume, Acceptable, CarryAfter;
    if outbox != [] {
      AbsorbMessage(cfg, outbox[0], parts[0]);
      AbsorbOutbox(cfg, outbox[1..], parts[1..]);
      AbsorbAppend(cfg, IDLE, parts[0], Joined(parts[1..]));
    }
  }

  function Units(outbox: seq<Message>, size: nat): seq<seq<Frame>>
    requires size >= 1
  {
    if outbox == [] then [] else [UnitFrames(outbox[0], size)] + Units(outbox[1..], size)
  }

  predicate AllCut(parts: seq<seq<Frame>>, outbox: seq<Message>, size: nat) {
    |parts| == |outbox| && forall i :: 0 <= i < |outbox| ==> Cuts(parts[i], outbox[i], size)
  }

  lemma {:induction false} FlatIsJoined(outbox: seq<Message>, size: nat)
    requires size >= 1
    ensures Joined(Units(outbox, size)) == Flat(outbox, size) && AllCut(Units(outbox, size), outbox, size)
    decreases outbox
  {
    hide UnitFrames, Cuts;
    if outbox != [] {
      UnitCuts(outbox[0], size);
      FlatIsJoined(outbox[1..], size);
      assert Units(outbox, size)[1..] == Units(outbox[1..], size);
    }
  }

  lemma AllCutSpell(parts: seq<seq<Frame>>, outbox: seq<Message>, size: nat)
    requires AllCut(parts, outbox, size)
    ensures AllSpell(parts, outbox)
  {
    hide Cuts, Spells;
    forall i | 0 <= i < |outbox| ensures Spells(parts[i], outbox[i]) {
      CutsSpell(parts[i], outbox[i], size);
    }
  }

  /** No message follows a close message. */
  predicate ClosesLast(outbox: seq<Message>) {
    outbox != [] ==> (outbox[0].opcode.Close? ==> |outbox| == 1) && ClosesLast(outbox[1..])
  }

  lemma SpellsCloses(fs: seq<Frame>, m: Message)
    requires Spells(fs, m)
    ensures fs != []
    ensures if m.opcode.Close? then |fs| == 1 && fs[0].opcode.Close? else NoClose(fs)
  {
  }

  lemma UnitCloses(m: Message, size: nat)
    requires size >= 1
    ensures var fs := UnitFrames(m, size);
            fs != [] && if m.opcode.Close? then |fs| == 1 && fs[0].opcode.Close? else NoClose(fs)
  {
    UnitCuts(m, size);
    CutsSpell(UnitFrames(m, size), m, size);
    SpellsCloses(UnitFrames(m, size), m);
  }

  lemma {:induction false} JoinedCloses(outbox: seq<Message>, parts: seq<seq<Frame>>)
    requires AllSpell(parts, outbox) && ClosesLast(outbox)
    ensures CloseLast(Joined(parts))
    decreases outbox
  {
    hide Spells;
    if outbox != [] {
      SpellsCloses(parts[0], outbox[0]);
      JoinedCloses(outbox[1..], parts[1..]);
      if outbox[0].opcode.Close? {
        assert parts[1..] == [] && parts[0] + [] == parts[0] && parts[0][1..] == [];
      } else {
        CloseLastAppend(parts[0], Joined(parts[1..]));
      }
    }
  }

  /**
    The round trip.  The frames of any messages the peer can take, in any fragments and masked with any keys, are
    received as exactly these messages; a part of the bytes as a prefix of them; and never refused.
   */
  lemma {:induction false} RoundTrip(cfg: Config, outbox: seq<Message>, parts: seq<seq<Frame>>, log: seq<Sent>, k: nat)
    requires AllDeliverable(cfg, outbox) && ClosesLast(outbox) && AllSpell(parts, outbox)
    requires FramesOf(log) == Joined(parts) && MasksFit(cfg.role, log) && k <= |EncodeAll(log)|
    ensures var t := Drive(cfg, IDLE, EncodeAll(log)[..k]);
            && !t.end.Broken? && t.events <= Deliveries(outbox)
            && (k == |EncodeAll(log)| ==> t.events == Deliveries(outbox))
  {
    hide Spells, Deliverable, Drive;
    AbsorbOutbox(cfg, outbox, parts);
    JoinedCloses(outbox, parts);
    DriveEncoded(cfg, IDLE, log, k);
  }

  /** What `start_send` makes of the messages, with any frame size. */
  lemma {:induction false} FlatRoundTrip(cfg: Config, outbox: seq<Message>, size: nat, log: seq<Sent>, k: nat)
    requires size >= 1 && AllDeliverable(cfg, outbox) && ClosesLast(outbox)
    requires FramesOf(log) == Flat(outbox, size) && MasksFit(cfg.role, log) && k <= |EncodeAll(log)|
    ensures var t := Drive(cfg, IDLE, EncodeAll(log)[..k]);
            && !t.end.Broken? && t.events <= Deliveries(outbox)
            && (k == |EncodeAll(log)| ==> t.events == Deliveries(outbox))
  {
    hide Deliverable, Drive;
    FlatIsJoined(outbox, size);
    AllCutSpell(Units(outbox, size), outbox, size);
    RoundTrip(cfg, outbox, Units(outbox, size), log, k);
  }

  /** The same through the resumable decoder, with the bytes cut into reads in any way. */
  lemma {:induction false} RoundTripInReads(cfg: Config, outbox: seq<Message>, parts: seq<seq<Frame>>, log: seq<Sent>,
                                            pieces: seq<seq<byte>>)
    requires AllDeliverable(cfg, outbox) && ClosesLast(outbox) && AllSpell(parts, outbox)
    requires FramesOf(log) == Joined(parts) && MasksFit(cfg.role, log)
    requires Concat(pieces) == EncodeAll(log)
    ensures Ready(cfg, FRESH)
    ensures PumpAll(cfg, FRESH, pieces).events == Deliveries(outbox)
  {
    hide Deliverable, Drive;
    var w := EncodeAll(log);
    RoundTrip(cfg, outbox, parts, log, |w|);
    assert w[..|w|] == w;
    RunsAreDrives(cfg, pieces);
  }
}
