/**
  Control frames between the fragments of data messages (section 5.4 of RFC 6455): deleting them changes no data
  message, and they may come anywhere.
 */
module Interleaving {
  import opened Bytes
  import opened Types
  import opened Wire
  import opened Receive
  import opened Exchange
  import opened Delivery

  function DataFrames(fs: seq<Frame>): seq<Frame> {
    if fs == [] then []
    else (if fs[0].opcode.IsControl() then [] else [fs[0]]) + DataFrames(fs[1..])
  }

  predicate IsData(e: Event) { e.Delivered? ==> !e.message.opcode.IsControl() }

  function DataEvents(es: seq<Event>): seq<Event> {
    if es == [] then []
    else (if IsData(es[0]) then [es[0]] else []) + DataEvents(es[1..])
  }

  lemma {:induction false} DataEventsAppend(a: seq<Event>, b: seq<Event>)
    ensures DataEvents(a + b) == DataEvents(a) + DataEvents(b)
    decreases a
  {
    if a == [] {
      assert a + b == b;
    } else {
      assert (a + b)[1..] == a[1..] + b && (a + b)[0] == a[0];
      DataEventsAppend(a[1..], b);
      var first := if IsData(a[0]) then [a[0]] else [];
      Regroup(first, DataEvents(a[1..]), DataEvents(b));
    }
  }

  /** What a data frame does is data. */
  lemma ConsumeData(cfg: Config, rx: Rx, f: Frame)
    requires Acceptable(cfg, rx, f) && !rx.frag.IsControl()
    ensures var a := Consume(cfg, rx, f, CarryAfter(rx, f));
            && !a.rx.frag.IsControl()
            && DataEvents(a.events) == if f.opcode.IsControl() then [] else a.events
  {
    var a := Consume(cfg, rx, f, CarryAfter(rx, f));
    if a.events != [] {
      assert a.events[1..] == [] && DataEvents([]) == [];
      assert [a.events[0]] == a.events;
    }
  }

  /** Deleting the control frames changes neither the data messages delivered nor the final state. */
  lemma {:induction false} ControlsAreTransparent(cfg: Config, rx: Rx, fs: seq<Frame>)
    requires Absorb(cfg, rx, fs).Some? && !rx.frag.IsControl()
    ensures var r := Absorb(cfg, rx, fs).value;
            Absorb(cfg, rx, DataFrames(fs)) == Some(Assembled(r.rx, DataEvents(r.events)))
    decreases fs
  {
    hide Acceptable, Consume, CarryAfter;
    if fs != [] {
      var f := fs[0];
      CarryDefined(cfg, rx, f);
      ConsumeFrag(cfg, rx, f);
      ConsumeData(cfg, rx, f);
      var a := Consume(cfg, rx, f, CarryAfter(rx, f));
      var r := Absorb(cfg, a.rx, fs[1..]).value;
      ControlsAreTransparent(cfg, a.rx, fs[1..]);
      DataEventsAppend(a.events, r.events);
      if f.opcode.IsControl() {
        assert [] + DataFrames(fs[1..]) == DataFrames(fs[1..]);
        assert [] + DataEvents(r.events) == DataEvents(r.events);
      } else {
        assert DataFrames(fs)[0] == f && DataFrames(fs)[1..] == DataFrames(fs[1..]);
      }
    }
  }

  /** A control frame that is taken wherever it comes. */
  predicate GoodControls(cfg: Config, fs: seq<Frame>) {
    forall i :: 0 <= i < |fs| && fs[i].opcode.IsControl() ==> Acceptable(cfg, IDLE, fs[i])
  }

  function ControlEvents(es: seq<Event>): seq<Event> {
    if es == [] then []
    else (if IsData(es[0]) then [] else [es[0]]) + ControlEvents(es[1..])
  }

  /** What the control frames deliver. */
  function Controls(fs: seq<Frame>): seq<Event> {
    if fs == [] then []
    else
      var f := fs[0];
      (if f.opcode.IsControl() then [Delivered(Message(f.opcode, f.payload))] else []) + Controls(fs[1..])
  }

  lemma {:induction false} ControlEventsAppend(a: seq<Event>, b: seq<Event>)
    ensures ControlEvents(a + b) == ControlEvents(a) + ControlEvents(b)
    decreases a
  {
    if a == [] {
      assert a + b == b;
    } else {
      assert (a + b)[1..] == a[1..] + b && (a + b)[0] == a[0];
      ControlEventsAppend(a[1..], b);
      var first := if IsData(a[0]) then [] else [a[0]];
      Regroup(first, ControlEvents(a[1..]), ControlEvents(b));
    }
  }

  lemma ConsumeControl(cfg: Config, rx: Rx, f: Frame)
    requires !rx.frag.IsControl() && Acceptable(cfg, if f.opcode.IsControl() then IDLE else rx, f)
    ensures Acceptable(cfg, rx, f)
    ensures var a := Consume(cfg, rx, f, CarryAfter(rx, f));
            && !a.rx.frag.IsControl()
            && ControlEvents(a.events) == Controls([f])
  {
    var a := Consume(cfg, rx, f, CarryAfter(rx, f));
    assert Controls([f][1..]) == [];
    if a.events != [] {
      assert a.events[1..] == [] && ControlEvents([]) == [];
      assert [a.events[0]] == a.events;
    }
  }

  /** Control frames may come anywhere between data frames that are taken: they are delivered in their order. */
  lemma {:induction false} ControlsInBetween(cfg: Config, rx: Rx, fs: seq<Frame>)
    requires !rx.frag.IsControl() && GoodControls(cfg, fs) && Absorb(cfg, rx, DataFrames(fs)).Some?
    ensures Absorb(cfg, rx, fs).Some?
    ensures ControlEvents(Absorb(cfg, rx, fs).value.events) == Controls(fs)
    decreases fs
  {
    hide Acceptable, Consume, CarryAfter, ControlEvents;
    if fs == [] {
      NoControlEvents();
    } else {
      var f := fs[0];
      if f.opcode.IsControl() {
        assert [] + DataFrames(fs[1..]) == DataFrames(fs[1..]);
      } else {
        assert DataFrames(fs)[0] == f && DataFrames(fs)[1..] == DataFrames(fs[1..]);
      }
      ConsumeControl(cfg, rx, f);
      CarryDefined(cfg, rx, f);
      var a := Consume(cfg, rx, f, CarryAfter(rx, f));
      if f.opcode.IsControl() {
        ConsumeFrag(cfg, rx, f);
      }
      ControlsInBetween(cfg, a.rx, fs[1..]);
      ControlEventsAppend(a.events, Absorb(cfg, a.rx, fs[1..]).value.events);
      ControlsFirst(fs);
    }
  }

  lemma NoControlEvents()
    ensures ControlEvents([]) == []
  {
  }

  lemma ControlsFirst(fs: seq<Frame>)
    requires fs != []
    ensures Controls(fs) == Controls([fs[0]]) + Controls(fs[1..])
  {
    assert [fs[0]][1..] == [];
  }

  /**
    What any peer may send: data messages in any fragments, one after the other, and well-formed control frames
    anywhere in between.  The data messages and the control messages are delivered, each in their order.
   */
  lemma {:induction false} InterleavedRoundTrip(cfg: Config, outbox: seq<Message>, parts: seq<seq<Frame>>,
                                                log: seq<Sent>)
    requires AllDeliverable(cfg, outbox) && AllSpell(parts, outbox)
    requires DataFrames(FramesOf(log)) == Joined(parts) && GoodControls(cfg, FramesOf(log))
    requires CloseLast(FramesOf(log)) && MasksFit(cfg.role, log)
    ensures var t := Drive(cfg, IDLE, EncodeAll(log));
            && !t.end.Broken?
            && DataEvents(t.events) == Deliveries(outbox) && ControlEvents(t.events) == Controls(FramesOf(log))
  {
    hide Drive, Deliverable, Spells, Acceptable, Absorb;
    var fs, w := FramesOf(log), EncodeAll(log);
    AbsorbOutbox(cfg, outbox, parts);
    ControlsInBetween(cfg, IDLE, fs);
    ControlsAreTransparent(cfg, IDLE, fs);
    DriveEncoded(cfg, IDLE, log, |w|);
    assert w[..|w|] == w;
  }
}
