/**
  The validator over a whole stream: when it is in step with the message being assembled, when text is refused,
  and what follows the two cases in which it is not reset (src/proto/codec.rs:170, src/proto/stream.rs:432-433).
 */
module Texts {
  import opened Bytes
  import opened Utf8
  import opened Types
  import opened Wire
  import opened Receive
  import opened Delivery

  // ---------------------------------------------------------------- every prefix of a stream

  /** Nothing is decided before the first frame of a stream is whole. */
  lemma ShortPrefix(cfg: Config, rx: Rx, w: seq<byte>, k: nat)
    requires k <= |w|
    requires var p := ParseFrame(cfg, rx, w); p.Got? ==> k < p.used
    ensures !ParseFrame(cfg, rx, w[..k]).Got?
  {
    hide ParseFrame, EncodeFrame, Acceptable;
    TakeDrop(w, k);
    if !ParseFrame(cfg, rx, w[..k]).More? {
      ParseExtends(cfg, rx, w[..k], w[k..]);
    }
  }

  /** The receiver of a prefix that holds the first frame. */
  lemma LongPrefix(cfg: Config, rx: Rx, w: seq<byte>, k: nat)
    requires var p := ParseFrame(cfg, rx, w); p.Got? && p.used <= k <= |w| && !p.frame.opcode.Close?
    ensures var p := ParseFrame(cfg, rx, w);
            var a := Consume(cfg, rx, p.frame, p.carry);
            Drive(cfg, rx, w[..k]) == Then(a.events, Drive(cfg, a.rx, w[p.used..][..k - p.used]))
  {
    hide ParseFrame, Consume;
    FirstFrame(cfg, rx, w, k);
    var used := ParseFrame(cfg, rx, w).used;
    assert w[..k][used..] == w[used..][..k - used];
  }

  lemma FirstFrame(cfg: Config, rx: Rx, w: seq<byte>, k: nat)
    requires var p := ParseFrame(cfg, rx, w); p.Got? && p.used <= k <= |w|
    ensures ParseFrame(cfg, rx, w[..k]) == ParseFrame(cfg, rx, w)
  {
    hide ParseFrame, EncodeFrame, Acceptable;
    var p := ParseFrame(cfg, rx, w);
    ParsedIsPrinted(cfg, rx, w);
    ParsePrinted(cfg, rx, p.frame, MaskOf(cfg, rx, w), w[p.used..k]);
    assert w[..k] == w[..p.used] + w[p.used..k];
  }

  // ---------------------------------------------------------------- the validator keeps step

  /** Wherever the stream stops between two frames or inside one, the validator knows just the message under way. */
  ghost predicate CleanThroughout(cfg: Config, rx: Rx, w: seq<byte>) {
    forall k: nat | k <= |w| :: CleanAt(cfg, Drive(cfg, rx, w[..k]))
  }

  predicate CleanAt(cfg: Config, t: Trace) { t.end.Starved? ==> Clean(cfg, t.end.rx) }

  lemma CleanStep(cfg: Config, rx: Rx, w: seq<byte>)
    requires Clean(cfg, rx) && ParseFrame(cfg, rx, w).Got?
    requires var p := ParseFrame(cfg, rx, w); NoTooLong(Consume(cfg, rx, p.frame, p.carry).events)
    ensures var p := ParseFrame(cfg, rx, w);
            Clean(cfg, Consume(cfg, rx, p.frame, p.carry).rx) <==> !LeavesOpen(rx, p.frame)
  {
    hide ParseFrame, Acceptable, CarryAfter;
    ParsedIsPrinted(cfg, rx, w);
    var f := ParseFrame(cfg, rx, w).frame;
    TextStep(cfg, rx, f);
    if LeavesOpen(rx, f) {
      StaysOpen(cfg, rx, f);
    }
  }

  lemma StaysOpen(cfg: Config, rx: Rx, f: Frame)
    requires Clean(cfg, rx) && Acceptable(cfg, rx, f) && LeavesOpen(rx, f)
    ensures Consume(cfg, rx, f, CarryAfter(rx, f)).rx == Rx(Continuation, rx.carry, [])
  {
    assert Run(rx.carry, f.payload) == Some(rx.carry);
  }

  lemma CleanAtOnce(cfg: Config, rx: Rx, w: seq<byte>)
    requires CleanThroughout(cfg, rx, w)
    ensures Clean(cfg, rx)
  {
    DriveNothing(cfg, rx);
    assert w[..0] == [];
    assert CleanAt(cfg, Drive(cfg, rx, w[..0]));
  }

  lemma CleanOnwards(cfg: Config, rx: Rx, w: seq<byte>)
    requires Clean(cfg, rx)
    requires var p := ParseFrame(cfg, rx, w); p.Got? && !p.frame.opcode.Close?
    ensures var p := ParseFrame(cfg, rx, w);
            CleanThroughout(cfg, rx, w) <==>
            CleanThroughout(cfg, Consume(cfg, rx, p.frame, p.carry).rx, w[p.used..])
  {
    hide Drive, ParseFrame, Consume, Clean;
    var p := ParseFrame(cfg, rx, w);
    var a := Consume(cfg, rx, p.frame, p.carry);
    var rest := w[p.used..];
    if CleanThroughout(cfg, rx, w) {
      forall j: nat | j <= |rest| ensures CleanAt(cfg, Drive(cfg, a.rx, rest[..j])) {
        LongPrefix(cfg, rx, w, p.used + j);
        assert CleanAt(cfg, Drive(cfg, rx, w[..p.used + j]));
      }
    }
    if CleanThroughout(cfg, a.rx, rest) {
      forall k: nat | k <= |w| ensures CleanAt(cfg, Drive(cfg, rx, w[..k])) {
        if k < p.used {
          CleanBefore(cfg, rx, w, k);
        } else {
          LongPrefix(cfg, rx, w, k);
          assert CleanAt(cfg, Drive(cfg, a.rx, rest[..k - p.used]));
        }
      }
    }
  }

  lemma CleanBefore(cfg: Config, rx: Rx, w: seq<byte>, k: nat)
    requires Clean(cfg, rx) && k <= |w|
    requires var p := ParseFrame(cfg, rx, w); p.Got? ==> k < p.used || p.frame.opcode.Close?
    ensures CleanAt(cfg, Drive(cfg, rx, w[..k]))
  {
    hide ParseFrame, Clean;
    var p := ParseFrame(cfg, rx, w);
    if p.Got? && p.used <= k {
      FirstFrame(cfg, rx, w, k);
    } else {
      ShortPrefix(cfg, rx, w, k);
    }
  }

  /**
    While no message is too long, the validator is in step with the message under way wherever the stream is cut,
    and so is reset between two messages, if and only if no text message is ended by an empty frame with a code
    point open.
   */
  lemma {:induction false} CleanIffNothingLeftOpen(cfg: Config, rx: Rx, w: seq<byte>)
    requires Clean(cfg, rx) && NoTooLong(Drive(cfg, rx, w).events)
    ensures CleanThroughout(cfg, rx, w) <==> NothingLeftOpen(cfg, rx, w)
    decreases |w|
  {
    hide ParseFrame, Consume, Clean, NoTooLong, CleanThroughout;
    var p := ParseFrame(cfg, rx, w);
    if p.Got? && !p.frame.opcode.Close? {
      var a := Consume(cfg, rx, p.frame, p.carry);
      SplitNoTooLong(a.events, Drive(cfg, a.rx, w[p.used..]).events);
      CleanStep(cfg, rx, w);
      CleanOnwards(cfg, rx, w);
      if LeavesOpen(rx, p.frame) {
        if CleanThroughout(cfg, a.rx, w[p.used..]) {
          CleanAtOnce(cfg, a.rx, w[p.used..]);
        }
      } else {
        CleanIffNothingLeftOpen(cfg, a.rx, w[p.used..]);
      }
    } else {
      AllBefore(cfg, rx, w);
    }
  }

  lemma AllBefore(cfg: Config, rx: Rx, w: seq<byte>)
    requires Clean(cfg, rx)
    requires var p := ParseFrame(cfg, rx, w); p.Got? ==> p.frame.opcode.Close?
    ensures CleanThroughout(cfg, rx, w)
  {
    hide ParseFrame, Clean, Drive;
    forall k: nat | k <= |w| ensures CleanAt(cfg, Drive(cfg, rx, w[..k])) {
      CleanBefore(cfg, rx, w, k);
    }
  }

  lemma StaysClean(cfg: Config, w: seq<byte>)
    requires NoTooLong(Drive(cfg, IDLE, w).events) && NothingLeftOpen(cfg, IDLE, w)
    ensures CleanAt(cfg, Drive(cfg, IDLE, w))
  {
    hide Drive, NothingLeftOpen, Clean;
    IdleIsClean(cfg);
    CleanIffNothingLeftOpen(cfg, IDLE, w);
    assert w[..|w|] == w;
    assert CleanAt(cfg, Drive(cfg, IDLE, w[..|w|]));
  }

  // ---------------------------------------------------------------- text is refused at once

  /** A text frame with a payload has begun to arrive. */
  predicate InText(cfg: Config, rx: Rx, w: seq<byte>) {
    var h := ParseHead(cfg, rx.frag, w); h.Head? && h.length != 0 && IsText(h.opcode, rx.frag)
  }

  /** The text of its message can no longer become valid, or is complete and not valid. */
  ghost predicate TextIsLost(cfg: Config, rx: Rx, w: seq<byte>)
    requires InText(cfg, rx, w)
  {
    var h := ParseHead(cfg, rx.frag, w);
    var text := TextSoFar(rx, h, w);
    !Extendable(text) || (h.fin && Available(h, w) == h.length && !Valid(text))
  }

  /**
    In the middle of any stream that left nothing open: with the next bytes, a text frame is refused exactly when
    the text of its message is lost, and the stream then ends with that error.
   */
  lemma StreamFailsFast(cfg: Config, w: seq<byte>, x: seq<byte>)
    requires NoTooLong(Drive(cfg, IDLE, w).events) && NothingLeftOpen(cfg, IDLE, w)
    requires var t := Drive(cfg, IDLE, w); t.end.Starved? && InText(cfg, t.end.rx, t.end.rest + x)
    ensures var t := Drive(cfg, IDLE, w);
            var refused := ParseFrame(cfg, t.end.rx, t.end.rest + x) == Bad(Protocol(InvalidUtf8));
            && (refused <==> TextIsLost(cfg, t.end.rx, t.end.rest + x))
            && (refused ==> Drive(cfg, IDLE, w + x) == Trace(t.events, Broken(Protocol(InvalidUtf8))))
  {
    hide ParseHead, ParseFrame, NothingLeftOpen, Clean, Valid, Extendable;
    var t := Drive(cfg, IDLE, w);
    StaysClean(cfg, w);
    TextFailsFast(cfg, t.end.rx, t.end.rest + x);
    DriveExtends(cfg, IDLE, w, x);
    if ParseFrame(cfg, t.end.rx, t.end.rest + x).Bad? {
      var e := ParseFrame(cfg, t.end.rx, t.end.rest + x).error;
      assert Drive(cfg, t.end.rx, t.end.rest + x) == Trace([], Broken(e));
      assert t.events + [] == t.events;
    }
  }

  // ---------------------------------------------------------------- after a code point was left open

  /**
    Between two messages with a code point left open: a text message in one frame is taken exactly when it completes
    that code point to valid text, and then is not valid itself; a first fragment exactly when it can be continued
    so, and then is not the beginning of valid text.
   */
  lemma AfterLeftOpen(cfg: Config, rx: Rx, p: seq<byte>, fin: bool)
    requires rx.frag.Continuation? && rx.carry != [] && p != [] && |p| <= cfg.maxLen
    ensures var f := Frame(Text, p, fin);
            && (Acceptable(cfg, rx, f) <==> if fin then Valid(rx.carry + p) else Extendable(rx.carry + p))
            && (Acceptable(cfg, rx, f) ==> !Valid(p) && !Extendable(p))
            && (Acceptable(cfg, rx, f) && fin ==>
                  Consume(cfg, rx, f, CarryAfter(rx, f)).events == [Delivered(Message(Text, p))])
  {
    hide Valid, Extendable;
    RunPartial(rx.carry);
    RunSplit([], rx.carry, p);
    ValidIffAccepted(rx.carry + p);
    ExtendableIffAlive(rx.carry + p);
    ValidIffAccepted(p);
    ExtendableIffAlive(p);
    if Run([], p).Some? {
      OpenRefusesText(rx.carry, p);
    }
  }

  /** A stream in which the next text message is not valid either, completes the open code point, and is delivered. */
  lemma InvalidTextFollows(cfg: Config)
    requires cfg.role.Client? && cfg.maxLen >= 1
    ensures var first, last := Frame(Text, [0xC3], false), Frame(Continuation, [], true);
            var next := Frame(Text, [0xA9], true);
            var w := EncodeFrame(first, None) + (EncodeFrame(last, None) + (EncodeFrame(next, None) + []));
            && !Valid([0xC3]) && !Valid([0xA9])
            && Drive(cfg, IDLE, w).events ==
               [Delivered(Message(Text, [0xC3])), Delivered(Message(Text, [0xA9]))]
  {
    hide Drive, ParseFrame, EncodeFrame;
    var c3: seq<byte>, a9: seq<byte> := [0xC3], [0xA9];
    var first, last, next := Frame(Text, c3, false), Frame(Continuation, [], true), Frame(Text, a9, true);
    RunOne([], 0xC3);
    RunOne([], 0xA9);
    RunOne(c3, 0xA9);
    ValidIffAccepted(c3);
    ValidIffAccepted(a9);
    assert Run(c3, []) == Some(c3);
    var rx1, rx2, rx3 := Rx(Text, c3, c3), Rx(Continuation, c3, []), IDLE;
    var w3 := EncodeFrame(next, None) + [];
    assert c3 + [] == c3;
    DrivePrinted(cfg, IDLE, first, EncodeFrame(last, None) + w3);
    assert Consume(cfg, IDLE, first, CarryAfter(IDLE, first)) == Assembled(rx1, []);
    DrivePrinted(cfg, rx1, last, w3);
    assert Consume(cfg, rx1, last, CarryAfter(rx1, last)) == Assembled(rx2, [Delivered(Message(Text, c3))]);
    DrivePrinted(cfg, rx2, next, []);
    assert Consume(cfg, rx2, next, CarryAfter(rx2, next)) == Assembled(rx3, [Delivered(Message(Text, a9))]);
    DriveNothing(cfg, rx3);
  }

  // ---------------------------------------------------------------- after a message that is too long

  /**
    A message reported as too long is still under way, with what was held of it before, even if the frame was its
    last: the peer cannot begin the next data message.
   */
  lemma TooLongStaysOpen(cfg: Config, rx: Rx, f: Frame, next: Frame)
    requires Bounded(cfg, rx) && Acceptable(cfg, rx, f)
    requires !NoTooLong(Consume(cfg, rx, f, CarryAfter(rx, f)).events)
    ensures var r := Consume(cfg, rx, f, CarryAfter(rx, f)).rx;
            && r.frag == rx.frag && !r.frag.Continuation? && r.partial == rx.partial
            && (next.opcode.Text? || next.opcode.Binary? ==> !Acceptable(cfg, r, next))
  {
  }

  /** Once that message is ended at a code point boundary, the validator is in step again. */
  lemma CleanAgain(cfg: Config, rx: Rx, f: Frame)
    requires Bounded(cfg, rx) && Acceptable(cfg, rx, f) && f.opcode.Continuation? && f.fin
    requires |rx.partial| + |f.payload| <= cfg.maxLen
    ensures var r := Consume(cfg, rx, f, CarryAfter(rx, f)).rx;
            && r.frag.Continuation? && r.partial == []
            && (Clean(cfg, r) <==> CarryAfter(rx, f) == [])
            && (rx.frag.Text? && f.payload != [] ==> Clean(cfg, r))
  {
  }

  /** From there on, the condition is exact again for the text that follows. */
  lemma TextResumes(cfg: Config, rx: Rx, w: seq<byte>)
    requires Bounded(cfg, rx)
    requires var p := ParseFrame(cfg, rx, w);
             p.Got? && p.frame.opcode.Continuation? && p.frame.fin && p.carry == []
             && |rx.partial| + |p.frame.payload| <= cfg.maxLen
    ensures var p := ParseFrame(cfg, rx, w);
            var ended := [Delivered(Message(rx.frag, rx.partial + p.frame.payload))];
            var after := Drive(cfg, IDLE, w[p.used..]);
            && Drive(cfg, rx, w) == Then(ended, after)
            && (TextsOk(after.events) <==> NothingLeftOpen(cfg, IDLE, w[p.used..]))
  {
    hide ParseFrame, Acceptable, CarryAfter;
    ParsedIsPrinted(cfg, rx, w);
    var p := ParseFrame(cfg, rx, w);
    IdleIsClean(cfg);
    TextValidIff(cfg, IDLE, w[p.used..]);
  }
}
