/**
  `WebSocketStream` (src/proto/stream.rs): the object whose methods poll the transport, with the resumable decoder,
  its buffer and the frame queue as parts.  Each method does what the function of the same name in `Connection`
  says, for which the runs are studied.
 */
module Streams {
  import opened Bytes
  import opened Utf8
  import opened Types
  import opened Fragment
  import opened Wire
  import opened Codec
  import opened Protocol
  import opened Queue
  import opened FrameQueues
  import opened Receive
  import opened Exchange
  import opened Connection

  class WebSocketStream {
    const env: Env
    const decoder: WebSocketProtocol
    const buffer: Buffer
    const frameQueue: FrameQueue
    var state: StreamState
    var partialPayload: seq<byte>
    var flushingWaker: Option<Waker>
    var framesQueued: nat

    // The transport.
    var incoming: seq<byte>
    var eof: bool
    var sent: seq<byte>
    var shut: bool
    var clock: nat

    // What the buffer held before it was unmasked in place, and the validator before the current frame.
    ghost var wire: seq<byte>
    ghost var carry: Unfinished

    // Histories.
    ghost var received: seq<byte>
    ghost var events: seq<Event>
    ghost var log: seq<Sent>
    ghost var outbox: seq<Message>

    ghost function Repr(): set<object> {
      {this, decoder, decoder.validator, decoder.validator.partial, buffer, frameQueue}
    }

    /** What holds even after the decoder has failed. */
    ghost predicate Base()
      reads Repr()
    {
      decoder.Valid() && frameQueue.Valid() && decoder.cfg == env.cfg && framesQueued == |log|
    }

    /** While the connection is read, the decoder and its buffer belong to the bytes that arrived. */
    ghost predicate Valid()
      reads Repr()
    {
      Base() && (IsReading(View()) ==> Coupled(env.cfg, View().rx, wire, decoder.View(), buffer.data))
    }

    /** Between two frames nothing has been unmasked or validated yet. */
    ghost predicate Rested()
      requires decoder.Valid()
      reads this, decoder, decoder.validator, decoder.validator.partial, buffer
    {
      decoder.View() == State(decoder.fragmentedMessageOpcode, 0, carry) && buffer.data == wire
    }

    ghost function View(): Conn
      requires frameQueue.Valid()
      reads this, decoder, frameQueue
    {
      Conn(state, Rx(decoder.fragmentedMessageOpcode, carry, partialPayload), wire, frameQueue.View(), flushingWaker,
           incoming, eof, sent, shut, clock, received, events, log, outbox)
    }

    constructor (env: Env)
      ensures Valid() && View() == START && this.env == env && fresh(Repr())
    {
      this.env := env;
      decoder := new WebSocketProtocol(env.cfg);
      buffer := new Buffer();
      frameQueue := new FrameQueue();
      state, partialPayload, flushingWaker, framesQueued := Active, [], None, 0;
      incoming, eof, sent, shut, clock := [], false, [], false, 0;
      wire, carry, received, events, log, outbox := [], [], [], [], [], [];
      new;
      CoupledStart(env.cfg, IDLE, []);
    }

    /** Does nothing if the waker is the one that is set. */
    method SetFlushingWaker(w: Waker)
      requires Base()
      modifies this`flushingWaker
      ensures Base() && View() == old(View()).(waker := Some(w))
    {
      if flushingWaker != Some(w) {
        flushingWaker := Some(w);
      }
    }

    /** `poll_write_buf`: offers pending bytes to the transport and advances past what it took. */
    method WriteSome(n: nat) returns (k: nat)
      requires Base()
      modifies this`sent, frameQueue
      ensures Base()
      ensures var q := old(frameQueue.View());
              && k == Min(n, |Offered(env, q)|)
              && View() == old(View()).(queue := Advanced(q, k), sent := old(sent) + Offered(env, q)[..k])
      ensures k == 0 ==> View() == old(View())
    {
      hide Pending, Coupled;
      ghost var q := frameQueue.View();
      var offer;
      if env.vectored {
        var slices := frameQueue.ChunksVectored(64);
        offer := Concat(slices);
      } else {
        offer := frameQueue.FirstChunk();
      }
      assert offer == Offered(env, frameQueue.View());
      k := Min(n, |offer|);
      frameQueue.Advance(k);
      sent := sent + offer[..k];
      if k == 0 {
        AdvancedNothing(q);
        assert sent == old(sent);
      }
    }

    /** The two ways a call to the transport ends a flush early. */
    method Fail() returns (f: Flushed)
      requires Base()
      modifies this`state, this`flushingWaker
      ensures Base() && (View(), f) == Broke(old(View()))
    {
      hide Coupled;
      flushingWaker, state := None, CloseAcknowledged;
      f := FlushFailed;
    }

    method Stay(w: Waker) returns (f: Flushed)
      requires Base()
      modifies this`flushingWaker
      ensures Base() && (View(), f) == Stalled(old(View()), w)
    {
      SetFlushingWaker(w);
      f := FlushPending;
    }

    method NextStep() returns (step: IoStep)
      requires Base()
      modifies this`clock
      ensures Base() && step == env.io(old(clock)) && View() == old(View()).(clock := old(clock) + 1)
    {
      hide Coupled;
      step := env.io(clock);
      clock := clock + 1;
    }

    method PollFlush(w: Waker) returns (f: Flushed)
      requires Base()
      modifies this`state, this`flushingWaker, this`sent, this`clock, frameQueue
      ensures Base() && (View(), f) == Flush(env, old(View()), w)
    {
      hide Coupled, Pending, Offered, Advanced, Pushed;
      ghost var target := Flush(env, View(), w);
      while frameQueue.Remaining() > 0
        invariant Base() && Flush(env, View(), w) == target
        decreases frameQueue.Remaining()
      {
        hide Base, View;
        var step := NextStep();
        match step {
          case Stall =>
            f := Stay(w);
            return;
          case Break =>
            f := Fail();
            return;
          case Grant(n) =>
            var k := WriteSome(n);
            if k == 0 {
              f := Fail();
              return;
            }
        }
      }
      f := FlushTransport(w);
    }

    /** All is written: the transport is flushed. */
    method FlushTransport(w: Waker) returns (f: Flushed)
      requires Base() && frameQueue.Remaining() == 0
      modifies this`state, this`flushingWaker, this`clock
      ensures Base() && (View(), f) == Flush(env, old(View()), w)
    {
      hide Coupled, Offered, Advanced, Pushed;
      var step := NextStep();
      match step {
        case Grant(_) =>
          flushingWaker := None;
          f := FlushDone;
        case Break => f := Fail();
        case Stall => f := Stay(w);
      }
    }

    method QueueFrame(f: Frame)
      requires Base() && |f.payload| < USIZE_END
      modifies this`state, this`framesQueued, this`log, frameQueue
      ensures Base() && View() == Connection.QueueFrame(env, old(View()), f)
    {
      hide Coupled, Pushed, Encoded, Pending, HeadBytes;
      if f.opcode == Close && state != ClosedByPeer {
        state := ClosedByUs;
      }
      var mask := if env.cfg.role == Client then Some(env.key(framesQueued)) else None;
      var item := EncodeItem(f, mask);
      Append(item, SentFrame(f, mask));
    }

    method Append(item: EncodedFrame, ghost queued: Sent)
      requires Base()
      modifies this`framesQueued, this`log, frameQueue
      ensures Base()
      ensures var c := old(View()); View() == c.(queue := Pushed(c.queue, item), log := c.log + [queued])
    {
      hide Coupled, Pushed, Pending;
      frameQueue.Push(item);
      framesQueued := framesQueued + 1;
      log := log + [queued];
    }

    method QueueSingle(m: Message)
      requires Base() && |m.payload| < USIZE_END
      modifies this`state, this`framesQueued, this`log, this`outbox, frameQueue
      ensures Base() && View() == Connection.QueueSingle(env, old(View()), m)
      ensures old(state) == ClosedByPeer ==> state == ClosedByPeer
    {
      hide Pushed, Encoded;
      QueueFrame(m.IntoFrame());
      outbox := outbox + [m];
    }

    // -------------------------------------------------------------- the stream

    /** One attempt to decode what is buffered. */
    method DecodeBuffered() returns (d: Decoded)
      requires Valid() && IsReading(View())
      modifies decoder, decoder.validator, decoder.validator.partial, buffer, this`wire, this`carry
      ensures Base()
      ensures match ParseFrame(env.cfg, old(View()).rx, old(wire))
              case More => d.Nothing? && Valid() && View() == old(View())
              case Bad(e) => d == Decoded.Failed(e) && View() == old(View())
              case Got(f, used, c) =>
                && d == Decoded.Decoded(f) && Rested()
                && View() == old(View()).(rx := AfterDecode(old(View()).rx, f, c), wire := old(wire)[used..])
    {
      hide Coupled, Resumable, ParseFrame, Decode;
      DecodeRefinesParse(env.cfg, View().rx, wire, decoder.View(), buffer.data);
      ghost var p := ParseFrame(env.cfg, View().rx, wire);
      if !Decode(env.cfg, decoder.View(), buffer.data).Item? {
        DecodeKeepsFrag(env.cfg, decoder.View(), buffer.data);
      }
      d := decoder.Decode(buffer);
      if d.Decoded? {
        wire := wire[p.used..];
        carry := p.carry;
      }
    }

    /** `FramedRead::poll_next` */
    method ReadFrame() returns (p: Poll<Frame>)
      requires Valid() && IsReading(View())
      modifies decoder, decoder.validator, decoder.validator.partial, buffer
      modifies this`wire, this`carry, this`incoming, this`received, this`clock
      ensures Base() && (View(), p) == Connection.ReadFrame(env, old(View()))
      ensures p.Waiting? || p.Ended? ==> Valid()
      ensures p.Item? ==> Rested()
    {
      hide Coupled, ParseFrame, Pending, AfterDecode;
      ghost var target := Connection.ReadFrame(env, View());
      while true
        invariant Valid() && IsReading(View()) && Connection.ReadFrame(env, View()) == target
        decreases |incoming|
      {
        var d := DecodeBuffered();
        match d {
          case Decoded(f) => return Poll.Item(f);
          case Failed(e) => return Raised(e);
          case Nothing =>
        }
        var step := NextStep();
        match step {
          case Stall => return Waiting;
          case Break => return Raised(Io);
          case Grant(n) =>
            if incoming == [] {
              if !eof {
                return Waiting;
              }
              BufferIsWire();
              return if |buffer.data| == 0 then Ended else Raised(Io);
            }
            var k := Min(n, |incoming|);
            if k == 0 {
              return Waiting;
            }
            Receive(k);
        }
      }
    }

    lemma BufferIsWire()
      requires Valid() && IsReading(View())
      ensures |buffer.data| == |wire|
    {
      CoupledHead(env.cfg, View().rx, wire, decoder.View(), buffer.data);
    }

    /** `k` bytes arrive behind what is buffered. */
    method Receive(k: nat)
      requires Valid() && IsReading(View()) && k <= |incoming|
      modifies buffer, this`wire, this`incoming, this`received
      ensures Valid() && View() == Read(old(View()), k)
    {
      hide Coupled;
      var x := incoming[..k];
      CoupledAppend(env.cfg, View().rx, wire, decoder.View(), buffer.data, x);
      buffer.data := buffer.data + x;
      incoming := incoming[k..];
      wire := wire + x;
      received := received + x;
    }

    /** The effect of a frame on the state; in the states that are not read no frame is decoded. */
    method React(f: Frame)
      requires Base() && IsReading(View()) && GoodFrame(f)
      modifies this`state, this`framesQueued, this`log, this`outbox, frameQueue
      ensures Base() && View() == Connection.React(env, old(View()), f)
    {
      hide Connection.QueueSingle;
      if f.opcode == Close {
        match state {
          case Active =>
            state := ClosedByPeer;
            QueueSingle(CloseEcho(f.payload));
          case ClosedByUs =>
            state := CloseAcknowledged;
          case _ =>
            assert false;
        }
      } else if f.opcode == Ping && state == Active {
        QueueSingle(Message(Pong, f.payload));
      }
    }

    method ReactError(e: Error)
      requires Base() && IsReading(View()) && ReadError(e)
      modifies this`state, this`framesQueued, this`log, this`outbox, frameQueue
      ensures Base() && View() == Connection.ReactError(env, old(View()), e) && !IsReading(View())
    {
      hide Connection.QueueSingle;
      if e == Io || state == ClosedByUs {
        state := CloseAcknowledged;
      } else {
        state := ClosedByPeer;
        QueueSingle(ErrorClose(e));
      }
    }

    method ReadAndReact() returns (p: Poll<Frame>)
      requires Valid() && IsReading(View())
      modifies Repr()
      ensures Valid() && (View(), p) == Connection.ReadAndReact(env, old(View()))
      ensures p.Item? ==> Rested()
    {
      hide Coupled, ParseFrame, Connection.React, Connection.ReactError, Connection.ReadFrame;
      p := ReadFrame();
      match p {
        case Item(f) =>
          React(f);
          if IsReading(View()) {
            CoupledStart(env.cfg, View().rx, wire);
          }
        case Raised(e) => ReactError(e);
        case _ =>
      }
    }

    method PollNextFrame(w: Waker) returns (p: Poll<Frame>)
      requires Valid()
      modifies Repr()
      ensures Valid() && (View(), p) == Connection.PollNextFrame(env, old(View()), w)
      ensures p.Item? ==> Rested()
    {
      hide Coupled, Pending, Flush, Connection.ReadAndReact;
      if state == CloseAcknowledged {
        return Ended;
      } else if state == ClosedByPeer {
        var f := PollFlush(w);
        match f {
          case FlushPending => return Waiting;
          case FlushFailed => return Raised(Io);
          case FlushDone =>
            state := CloseAcknowledged;
            return Ended;
        }
      }
      if frameQueue.Remaining() > 0 {
        var v := if flushingWaker.Some? then flushingWaker.value else w;
        var f := PollFlush(v);
        if f == FlushFailed {
          return Raised(Io);
        }
      }
      p := ReadAndReact();
    }

    /** One round of the loop of `poll_next`; the opcode of an assembled message is taken from the decoder. */
    method AssembleFrame(f: Frame) returns (out: Option<Poll<Message>>)
      requires Valid() && Rested()
      modifies decoder, this`partialPayload, this`events
      ensures Valid() && View() == Assembling(env, old(View()), f)
      ensures var a := Assemble(env.cfg.maxLen, old(View()).rx, f);
              out == if a.events == [] then None else Some(Outcome(env.cfg.maxLen, a.events[0]))
    {
      hide Coupled;
      var len := |partialPayload| + |f.payload|;
      out := None;
      if f.opcode != Continuation {
        if f.fin {
          var m := Message(f.opcode, f.payload);
          events := events + [Delivered(m)];
          out := Some(Poll.Item(m));
        } else {
          partialPayload := f.payload;
        }
      } else if len > env.cfg.maxLen {
        events := events + [TooLong(len)];
        out := Some(Raised(PayloadTooLong(len, env.cfg.maxLen)));
      } else {
        partialPayload := partialPayload + f.payload;
        if f.fin {
          var opcode := decoder.TakeMessageOpcode();
          var m := Message(opcode, partialPayload);
          partialPayload := [];
          events := events + [Delivered(m)];
          out := Some(Poll.Item(m));
        }
      }
      assert events + [] == events;
      CoupledStart(env.cfg, View().rx, wire);
    }

    method PollNext(w: Waker) returns (p: Poll<Message>)
      requires Valid()
      modifies Repr()
      ensures Valid() && (View(), p) == Connection.PollNext(env, old(View()), w)
    {
      hide Coupled, Assemble, Connection.PollNextFrame;
      ghost var target := Connection.PollNext(env, View(), w);
      while true
        invariant Valid() && Connection.PollNext(env, View(), w) == target
        decreases Unread(View())
      {
        var q := PollNextFrame(w);
        match q {
          case Waiting => return Waiting;
          case Ended => return Ended;
          case Raised(e) => return Raised(e);
          case Item(f) =>
            var out := AssembleFrame(f);
            if out.Some? {
              return out.value;
            }
        }
      }
    }

    // -------------------------------------------------------------- the sink

    method PollReady(w: Waker) returns (f: Flushed)
      requires Valid()
      modifies Repr()
      ensures Valid() && (View(), f) == Connection.PollReady(env, old(View()), w)
    {
      hide Coupled, Pending, Flush;
      if frameQueue.Remaining() >= env.flushThreshold {
        f := PollFlush(w);
      } else {
        f := FlushDone;
      }
    }

    /** Queues the frames of a message that is split; `fold` visits the same frames as repeated `next`. */
    method QueueFragments(m: Message)
      requires Base() && |m.payload| < USIZE_END && !m.opcode.IsControl() && !m.opcode.Continuation?
      modifies this`state, this`framesQueued, this`log, frameQueue
      ensures AllSized(Frames(m.opcode, m.payload, env.frameSize))
      ensures Base() && View() == QueueFrames(env, old(View()), Frames(m.opcode, m.payload, env.frameSize))
    {
      hide Connection.QueueFrame, Frames;
      SizedFrames(m.opcode, m.payload, env.frameSize);
      var it := new MessageFrames(m, env.frameSize);
      ghost var target := QueueFrames(env, View(), it.Rest());
      while true
        invariant fresh(it) && it.Valid() && Base()
        invariant AllSized(it.Rest()) && QueueFrames(env, View(), it.Rest()) == target
        decreases |it.Rest()|
      {
        ghost var all := it.Rest();
        var next := it.Next();
        if next.None? {
          break;
        }
        assert all[0] == next.value && all[1..] == it.Rest();
        QueueFrame(next.value);
      }
    }

    method StartSend(m: Message) returns (taken: bool)
      requires Valid() && Constructible(m)
      modifies Repr()
      ensures Valid() && (View(), taken) == Connection.StartSend(env, old(View()), m)
    {
      hide Coupled, QueueFrames, UnitFrames;
      if state != Active {
        return false;
      }
      QueueMessage(m);
      outbox := outbox + [m];
      taken := true;
    }

    /** A message goes into one frame, or is split. */
    method QueueMessage(m: Message)
      requires Base() && Constructible(m)
      modifies this`state, this`framesQueued, this`log, frameQueue
      ensures AllSized(UnitFrames(m, env.frameSize))
      ensures Base() && View() == QueueFrames(env, old(View()), UnitFrames(m, env.frameSize))
    {
      hide Coupled, Connection.QueueFrame, QueueFrames, Frames;
      ghost var c := View();
      UnitSized(m, env.frameSize);
      if m.opcode.IsControl() || |m.payload| <= env.frameSize {
        QueueFrame(m.IntoFrame());
        OneFrame(c, m.IntoFrame());
      } else {
        QueueFragments(m);
      }
    }

    lemma OneFrame(c: Conn, f: Frame)
      requires |f.payload| < USIZE_END
      ensures QueueFrames(env, c, [f]) == Connection.QueueFrame(env, c, f)
    {
    }

    /** Polls until the stream ends; false if it has to wait. */
    method DrainStream(w: Waker) returns (ended: bool)
      requires Valid()
      modifies Repr()
      ensures Valid() && (View(), ended) == Drain(env, old(View()), w)
    {
      hide Coupled, Connection.PollNext;
      ghost var target := Drain(env, View(), w);
      while true
        invariant Valid() && Drain(env, View(), w) == target
        decreases Rank(state), Unread(View())
      {
        var p := PollNext(w);
        if p == Waiting {
          return false;
        } else if p == Ended {
          return true;
        }
      }
    }

    method PollClose(w: Waker) returns (f: Flushed)
      requires Valid()
      modifies Repr()
      ensures Valid() && (View(), f) == Connection.PollClose(env, old(View()), w)
    {
      hide Coupled, Flush, Drain, Connection.QueueSingle;
      if state == Active {
        QueueSingle(DefaultClose());
      }
      var ended := DrainStream(w);
      if !ended {
        return FlushPending;
      }
      f := PollFlush(w);
      if f == FlushDone {
        f := PollShutdown();
      }
    }

    method PollShutdown() returns (f: Flushed)
      requires Valid()
      modifies this`clock, this`shut
      ensures Valid() && (View(), f) == Shutdown(env, old(View()))
    {
      hide Coupled;
      var step := NextStep();
      match step {
        case Stall => f := FlushPending;
        case Break => f := FlushFailed;
        case Grant(_) =>
          shut := true;
          f := FlushDone;
      }
    }
  }
}
