/**
  What can be said of the messages a receiver delivers, whatever bytes arrive.

  Delivered text is valid UTF-8 exactly as long as no text message is ended by an empty frame while a
  code point is open: the validator is not consulted for an empty payload (src/proto/codec.rs:170), so it is
  not told that the message is complete.  `NothingLeftOpen` is that condition, and `TextValidIff` the theorem.
 */
module Delivery {
  import opened Bytes
  import opened Utf8
  import opened Types
  import opened Wire
  import opened Receive
  import opened Exchange

  // ---------------------------------------------------------------- size and form

  /** States the receiver can be in. */
  predicate Bounded(cfg: Config, rx: Rx) {
    && |rx.partial| <= cfg.maxLen
    && !rx.frag.IsControl()
    && (rx.frag.Continuation? ==> rx.partial == [])
  }

  predicate GoodEvent(cfg: Config, e: Event) {
    match e
    case Delivered(m) => Constructible(m) && |m.payload| <= cfg.maxLen
    case TooLong(len) => len > cfg.maxLen
  }

  predicate GoodEvents(cfg: Config, events: seq<Event>) {
    forall i :: 0 <= i < |events| ==> GoodEvent(cfg, events[i])
  }

  lemma ConsumeBounded(cfg: Config, rx: Rx, f: Frame)
    requires Bounded(cfg, rx) && Acceptable(cfg, rx, f)
    ensures var a := Consume(cfg, rx, f, CarryAfter(rx, f));
            Bounded(cfg, a.rx) && GoodEvents(cfg, a.events)
  {
  }

  lemma GoodThen(cfg: Config, a: seq<Event>, b: seq<Event>)
    requires GoodEvents(cfg, a) && GoodEvents(cfg, b)
    ensures GoodEvents(cfg, a + b)
  {
    hide GoodEvent;
  }

  /**
    Every delivered message, and what is held of an unfinished one, is within the limit; a message reported
    as too long is not; control messages are well formed, so `as_close` may read every delivered close.
   */
  lemma {:induction false} DriveGood(cfg: Config, rx: Rx, w: seq<byte>)
    requires Bounded(cfg, rx)
    ensures var t := Drive(cfg, rx, w);
            GoodEvents(cfg, t.events) && (t.end.Starved? ==> Bounded(cfg, t.end.rx))
    decreases |w|
  {
    hide GoodEvents, Consume, CarryAfter, Acceptable, ParseFrame, Bounded;
    var p := ParseFrame(cfg, rx, w);
    if p.Got? {
      ParsedIsPrinted(cfg, rx, w);
      ConsumeBounded(cfg, rx, p.frame);
      var a := Consume(cfg, rx, p.frame, p.carry);
      if !p.frame.opcode.Close? {
        DriveGood(cfg, a.rx, w[p.used..]);
        GoodThen(cfg, a.events, Drive(cfg, a.rx, w[p.used..]).events);
      }
    } else {
      assert GoodEvents(cfg, []) by { EmptyIsGood(cfg); }
    }
  }

  lemma EmptyIsGood(cfg: Config)
    ensures GoodEvents(cfg, [])
  {
  }

  // ---------------------------------------------------------------- the frames behind the events

  lemma {:induction false} AcceptedIsAbsorbed(cfg: Config, rx: Rx, w: seq<byte>)
    ensures var r := Absorb(cfg, rx, Accepted(cfg, rx, w));
            r.Some? && r.value.events == Drive(cfg, rx, w).events
    decreases |w|
  {
    hide Acceptable, ParseFrame, Consume, CarryAfter;
    var p := ParseFrame(cfg, rx, w);
    if p.Got? {
      var f := p.frame;
      ParsedIsPrinted(cfg, rx, w);
      CarryDefined(cfg, rx, f);
      assert Acceptable(cfg, rx, f) && p.carry == CarryAfter(rx, f);
      var a := Consume(cfg, rx, f, p.carry);
      if f.opcode.Close? {
        AbsorbOne(cfg, rx, f, a);
      } else {
        AcceptedIsAbsorbed(cfg, a.rx, w[p.used..]);
        assert Accepted(cfg, rx, w)[1..] == Accepted(cfg, a.rx, w[p.used..]);
      }
    }
  }

  predicate NoTooLong(events: seq<Event>) {
    forall i :: 0 <= i < |events| ==> events[i].Delivered?
  }

  /** The grammar of section 5.4 of RFC 6455; `open` tells whether a fragmented message is under way. */
  predicate Grammar(open: bool, fs: seq<Frame>)
    decreases fs
  {
    fs != [] ==>
      if fs[0].opcode.IsControl() then fs[0].fin && Grammar(open, fs[1..])
      else fs[0].opcode.Continuation? == open && Grammar(!fs[0].fin, fs[1..])
  }

  lemma ConsumeFrag(cfg: Config, rx: Rx, f: Frame)
    requires Acceptable(cfg, rx, f)
    ensures var a := Consume(cfg, rx, f, CarryAfter(rx, f));
            if f.opcode.IsControl() then f.fin && a == Assembled(rx, [Delivered(Message(f.opcode, f.payload))])
            else
              && f.opcode.Continuation? == !rx.frag.Continuation?
              && (NoTooLong(a.events) ==> a.rx.frag.Continuation? == f.fin)
  {
    var a := Consume(cfg, rx, f, CarryAfter(rx, f));
    if |rx.partial| + |f.payload| > cfg.maxLen && f.opcode.Continuation? {
      assert a.events[0].TooLong?;
    }
  }

  /** Until the first message that is too long, the accepted frames follow the grammar. */
  lemma {:induction false} AbsorbedFollowGrammar(cfg: Config, rx: Rx, fs: seq<Frame>)
    requires Absorb(cfg, rx, fs).Some? && NoTooLong(Absorb(cfg, rx, fs).value.events)
    ensures Grammar(!rx.frag.Continuation?, fs)
    decreases fs
  {
    hide Acceptable, Consume, CarryAfter;
    if fs != [] {
      CarryDefined(cfg, rx, fs[0]);
      ConsumeFrag(cfg, rx, fs[0]);
      var a := Consume(cfg, rx, fs[0], CarryAfter(rx, fs[0]));
      SplitNoTooLong(a.events, Absorb(cfg, a.rx, fs[1..]).value.events);
      AbsorbedFollowGrammar(cfg, a.rx, fs[1..]);
    }
  }

  lemma SplitNoTooLong(a: seq<Event>, b: seq<Event>)
    requires NoTooLong(a + b)
    ensures NoTooLong(a) && NoTooLong(b)
  {
    forall i | 0 <= i < |a| ensures a[i].Delivered? { assert (a + b)[i] == a[i]; }
    forall i | 0 <= i < |b| ensures b[i].Delivered? { assert (a + b)[|a| + i] == b[i]; }
  }

  // ---------------------------------------------------------------- delivered text

  /** A receiver whose validator knows the text of the message being assembled, and nothing else. */
  predicate Clean(cfg: Config, rx: Rx) {
    && Bounded(cfg, rx)
    && if rx.frag.Text? then Run([], rx.partial) == Some(rx.carry) else rx.carry == []
  }

  /** The final frame of a text message is empty although a code point is open. */
  predicate LeavesOpen(rx: Rx, f: Frame) {
    f.opcode.Continuation? && rx.frag.Text? && f.fin && f.payload == [] && rx.carry != []
  }

  predicate TextOk(e: Event) { e.Delivered? && e.message.opcode.Text? ==> BasicOk(e.message.payload) }

  /** Of the events before the first message that is too long, all text is valid. */
  predicate TextsOk(events: seq<Event>) {
    events != [] && events[0].Delivered? ==> TextOk(events[0]) && TextsOk(events[1..])
  }

  /** No frame before the first message that is too long leaves a code point open. */
  predicate NothingLeftOpen(cfg: Config, rx: Rx, w: seq<byte>)
    decreases |w|
  {
    match ParseFrame(cfg, rx, w)
    case Got(f, used, carry) =>
      var a := Consume(cfg, rx, f, carry);
      && !LeavesOpen(rx, f)
      && (f.opcode.Close? || !NoTooLong(a.events) || NothingLeftOpen(cfg, a.rx, w[used..]))
    case _ => true
  }

  lemma FirstTextStep(cfg: Config, rx: Rx, f: Frame)
    requires Clean(cfg, rx) && Acceptable(cfg, rx, f) && !f.opcode.Continuation?
    ensures var a := Consume(cfg, rx, f, CarryAfter(rx, f));
            Clean(cfg, a.rx) && TextsOk(a.events) && NoTooLong(a.events)
  {
    if f.payload == [] {
      assert Run([], f.payload) == Some([]);
    }
  }

  lemma ContinueTextStep(cfg: Config, rx: Rx, f: Frame)
    requires Clean(cfg, rx) && Acceptable(cfg, rx, f) && f.opcode.Continuation?
    ensures var a := Consume(cfg, rx, f, CarryAfter(rx, f));
            if LeavesOpen(rx, f) then
              a.events == [Delivered(Message(Text, rx.partial))] && !BasicOk(rx.partial)
            else if |rx.partial| + |f.payload| > cfg.maxLen then !NoTooLong(a.events) && TextsOk(a.events)
            else NoTooLong(a.events) && Clean(cfg, a.rx) && TextsOk(a.events)
  {
    RunSplit([], rx.partial, f.payload);
    assert rx.partial + [] == rx.partial;
    if f.payload == [] {
      assert Run(rx.carry, f.payload) == Some(rx.carry);
    }
    var a := Consume(cfg, rx, f, CarryAfter(rx, f));
    if |rx.partial| + |f.payload| > cfg.maxLen {
      assert a.events[0].TooLong?;
    }
  }

  lemma TextStep(cfg: Config, rx: Rx, f: Frame)
    requires Clean(cfg, rx) && Acceptable(cfg, rx, f)
    ensures var a := Consume(cfg, rx, f, CarryAfter(rx, f));
            && |a.events| <= 1
            && (LeavesOpen(rx, f) ==> |a.events| == 1 && a.events[0].Delivered? && !TextOk(a.events[0]))
            && (!LeavesOpen(rx, f) && NoTooLong(a.events) ==> Clean(cfg, a.rx) && TextsOk(a.events))
  {
    if f.opcode.Continuation? {
      ContinueTextStep(cfg, rx, f);
    } else {
      FirstTextStep(cfg, rx, f);
    }
  }

  lemma TextsThen(a: seq<Event>, b: seq<Event>)
    requires |a| <= 1
    ensures NoTooLong(a) ==> (TextsOk(a + b) <==> TextsOk(a) && TextsOk(b))
    ensures !NoTooLong(a) ==> TextsOk(a + b)
  {
    if a == [] {
      assert a + b == b;
    } else {
      assert (a + b)[1..] == b && a[1..] == [];
    }
  }

  /**
    Whatever arrives at a fresh receiver: all text delivered before the first message that is too long is
    valid UTF-8 if and only if no text message is ended by an empty frame with a code point open.
   */
  lemma {:induction false} TextValidIff(cfg: Config, rx: Rx, w: seq<byte>)
    requires Clean(cfg, rx)
    ensures TextsOk(Drive(cfg, rx, w).events) <==> NothingLeftOpen(cfg, rx, w)
    decreases |w|
  {
    hide Acceptable, ParseFrame, Consume, CarryAfter, Clean, LeavesOpen, TextOk, NoTooLong;
    var p := ParseFrame(cfg, rx, w);
    if p.Got? {
      ParsedIsPrinted(cfg, rx, w);
      CarryDefined(cfg, rx, p.frame);
      assert Acceptable(cfg, rx, p.frame) && p.carry == CarryAfter(rx, p.frame);
      TextStep(cfg, rx, p.frame);
      var a := Consume(cfg, rx, p.frame, p.carry);
      var rest := if p.frame.opcode.Close? then [] else Drive(cfg, a.rx, w[p.used..]).events;
      TextsThen(a.events, rest);
      assert a.events + [] == a.events;
      if !LeavesOpen(rx, p.frame) && NoTooLong(a.events) && !p.frame.opcode.Close? {
        TextValidIff(cfg, a.rx, w[p.used..]);
      }
    }
  }

  predicate AllTextOk(events: seq<Event>) { forall i :: 0 <= i < |events| ==> TextOk(events[i]) }

  lemma {:induction false} AllTexts(events: seq<Event>)
    requires NoTooLong(events)
    ensures TextsOk(events) <==> AllTextOk(events)
    decreases events
  {
    hide TextOk;
    if events != [] {
      AllTexts(events[1..]);
      assert AllTextOk(events) ==> AllTextOk(events[1..]);
      assert events == [events[0]] + events[1..];
      assert events[0].TooLong? ==> !NoTooLong(events);
    }
  }

  /** If no message is too long, the condition is exact for all delivered text. */
  lemma AllTextValidIff(cfg: Config, w: seq<byte>)
    requires NoTooLong(Drive(cfg, IDLE, w).events)
    ensures AllTextOk(Drive(cfg, IDLE, w).events) <==> NothingLeftOpen(cfg, IDLE, w)
  {
    hide Drive, TextsOk, AllTextOk, NothingLeftOpen;
    IdleIsClean(cfg);
    TextValidIff(cfg, IDLE, w);
    AllTexts(Drive(cfg, IDLE, w).events);
  }

  /** The text of the message under way, as far as it has arrived. */
  function TextSoFar(rx: Rx, h: Head, w: seq<byte>): seq<byte>
    requires h.Head? && h.offset <= |w| && (h.masked ==> 4 <= h.offset)
  {
    (if h.opcode.Continuation? then rx.partial else []) + Plain(h, w, Available(h, w))
  }

  /**
    Text is refused at once: a non-empty text frame of which some bytes have arrived is refused exactly when the
    text so far cannot be continued to valid UTF-8, or is complete and not valid (tests/utf8_validation.rs).
   */
  lemma TextFailsFast(cfg: Config, rx: Rx, w: seq<byte>)
    requires Clean(cfg, rx)
    requires var h := ParseHead(cfg, rx.frag, w); h.Head? && h.length != 0 && IsText(h.opcode, rx.frag)
    ensures var h := ParseHead(cfg, rx.frag, w);
            var text := TextSoFar(rx, h, w);
            var complete := h.fin && Available(h, w) == h.length;
            ParseFrame(cfg, rx, w) == Bad(Protocol(InvalidUtf8))
            <==> !Extendable(text) || (complete && !Valid(text))
  {
    hide ParseHead, Valid, Extendable;
    var h := ParseHead(cfg, rx.frag, w);
    var plain := Plain(h, w, Available(h, w));
    var before := if h.opcode.Continuation? then rx.partial else [];
    assert h.opcode.Text? ==> rx.frag.Continuation? by { TextStarts(cfg, rx.frag, w); }
    assert Run([], before) == Some(rx.carry);
    RunSplit([], before, plain);
    ExtendableIffAlive(TextSoFar(rx, h, w));
    ValidIffAccepted(TextSoFar(rx, h, w));
  }

  lemma TextStarts(cfg: Config, frag: OpCode, w: seq<byte>)
    requires ParseHead(cfg, frag, w).Head?
    ensures ParseHead(cfg, frag, w).opcode.Text? ==> frag.Continuation?
  {
  }

  lemma IdleIsClean(cfg: Config)
    ensures Clean(cfg, IDLE)
  {
  }

  // ---------------------------------------------------------------- the condition is needed

  /** One step of `Drive` over a printed frame. */
  lemma DrivePrinted(cfg: Config, rx: Rx, f: Frame, rest: seq<byte>)
    requires cfg.role.Client? && Acceptable(cfg, rx, f) && !f.opcode.Close?
    ensures CarryDefinedFor(rx, f)
    ensures var a := Consume(cfg, rx, f, CarryAfter(rx, f));
            Drive(cfg, rx, EncodeFrame(f, None) + rest) == Then(a.events, Drive(cfg, a.rx, rest))
  {
    hide ParseFrame, Consume, CarryAfter, EncodeFrame;
    CarryDefined(cfg, rx, f);
    ParsePrinted(cfg, rx, f, None, rest);
    var s := EncodeFrame(f, None);
    assert (s + rest)[|s|..] == rest;
  }

  predicate CarryDefinedFor(rx: Rx, f: Frame) {
    IsText(f.opcode, rx.frag) ==> Run(rx.carry, f.payload).Some?
  }

  /**
    A text message of one open code point, ended by an empty frame, is delivered although it is not valid, and the
    open code point then makes the next, valid, text message be refused.
   */
  lemma LeftOpenIsDelivered(cfg: Config)
    requires cfg.role.Client? && cfg.maxLen >= 1
    ensures var first, last := Frame(Text, [0xC3], false), Frame(Continuation, [], true);
            var next := Frame(Text, [0x41], true);
            var w := EncodeFrame(first, None) + (EncodeFrame(last, None) + (EncodeFrame(next, None) + []));
            && !Valid([0xC3]) && Valid(next.payload)
            && Drive(cfg, IDLE, w) ==
               Trace([Delivered(Message(Text, [0xC3]))], Broken(Protocol(InvalidUtf8)))
  {
    hide Drive, ParseFrame, EncodeFrame;
    var c3: seq<byte> := [0xC3];
    var first, last, next := Frame(Text, c3, false), Frame(Continuation, [], true), Frame(Text, [0x41], true);
    RunOne([], 0xC3);
    RunOne([], 0x41);
    RunOne(c3, 0x41);
    ValidIffAccepted(c3);
    ValidIffAccepted([0x41]);
    assert Run(c3, []) == Some(c3);
    var rx1, rx2 := Rx(Text, c3, c3), Rx(Continuation, c3, []);
    var w3 := EncodeFrame(next, None) + [];
    var w2 := EncodeFrame(last, None) + w3;
    assert c3 + [] == c3;
    DrivePrinted(cfg, IDLE, first, w2);
    assert Consume(cfg, IDLE, first, CarryAfter(IDLE, first)) == Assembled(rx1, []);
    DrivePrinted(cfg, rx1, last, w3);
    assert Consume(cfg, rx1, last, CarryAfter(rx1, last)) == Assembled(rx2, [Delivered(Message(Text, c3))]);
    RefusedText(cfg, rx2, 0x41);
  }

  lemma RefusedText(cfg: Config, rx: Rx, b: byte)
    requires cfg.role.Client? && cfg.maxLen >= 1 && rx.frag.Continuation? && Run(rx.carry, [b]).None?
    ensures Drive(cfg, rx, EncodeFrame(Frame(Text, [b], true), None) + []) == Trace([], Broken(Protocol(InvalidUtf8)))
  {
    var f := Frame(Text, [b], true);
    var w := EncodeFrame(f, None) + [];
    assert w == [129, 1, b];
    assert 129 / 16 % 8 == 0 && 129 % 16 == 1;
    assert OpCodeOf(1) == Some(Text);
    assert Preamble(cfg.role, rx.frag, 129, 1).None?;
    var h := ParseHead(cfg, rx.frag, w);
    assert h == Head(true, Text, false, 1, 2);
    assert Plain(h, w, 1) == [b];
  }

  /**
    After a message that is too long the validator has seen bytes the message does not hold, so text delivered
    later need not be valid: the theorem goes up to the first such message.
   */
  lemma TooLongIsNotForgotten(cfg: Config)
    requires cfg.role.Client? && cfg.maxLen == 2
    ensures var f1, f2, f3 := Frame(Text, [0x41], false), Frame(Continuation, [0x41, 0xC3], false),
                              Frame(Continuation, [0xA9], true);
            var w := EncodeFrame(f1, None) + (EncodeFrame(f2, None) + (EncodeFrame(f3, None) + []));
            && !Valid([0x41, 0xA9])
            && Drive(cfg, IDLE, w).events == [TooLong(3), Delivered(Message(Text, [0x41, 0xA9]))]
  {
    hide Drive, ParseFrame, EncodeFrame;
    var a: seq<byte>, ac: seq<byte>, c: seq<byte>, t: seq<byte> := [0x41], [0x41, 0xC3], [0xC3], [0xA9];
    RunOne([], 0x41);
    RunOne([], 0xC3);
    RunOne([], 0xA9);
    RunOne(c, 0xA9);
    assert ac == a + c && [0x41, 0xA9] == a + t;
    RunSplit([], a, c);
    RunSplit([], a, t);
    ValidIffAccepted([0x41, 0xA9]);
    var f1, f2, f3 := Frame(Text, a, false), Frame(Continuation, ac, false), Frame(Continuation, t, true);
    var rx1, rx2, rx3 := Rx(Text, [], a), Rx(Text, c, a), Rx(Continuation, [], []);
    var w3 := EncodeFrame(f3, None) + [];
    DrivePrinted(cfg, IDLE, f1, EncodeFrame(f2, None) + w3);
    assert Consume(cfg, IDLE, f1, CarryAfter(IDLE, f1)) == Assembled(rx1, []);
    DrivePrinted(cfg, rx1, f2, w3);
    assert Consume(cfg, rx1, f2, CarryAfter(rx1, f2)) == Assembled(rx2, [TooLong(3)]);
    DrivePrinted(cfg, rx2, f3, []);
    assert Consume(cfg, rx2, f3, CarryAfter(rx2, f3)) == Assembled(rx3, [Delivered(Message(Text, a + t))]);
    DriveNothing(cfg, rx3);
  }

  lemma DriveNothing(cfg: Config, rx: Rx)
    ensures Drive(cfg, rx, []) == Trace([], Starved(rx, []))
  {
    NothingIsShort(cfg, rx);
  }
}
