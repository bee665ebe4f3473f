/**
  Splitting a message into frames (src/proto/types.rs, `MessageFrames`; section 5.4 of RFC 6455).
 */
module Fragment {
  import opened Bytes
  import opened Types

  /** The frames of a message, `size` payload bytes each. */
  function Frames(opcode: OpCode, payload: seq<byte>, size: nat): (fs: seq<Frame>)
    requires size >= 1
    ensures fs != []
    decreases payload
  {
    if |payload| <= size then [Frame(opcode, payload, true)]
    else [Frame(opcode, payload[..size], false)] + Frames(Continuation, payload[size..], size)
  }

  function Payloads(fs: seq<Frame>): seq<byte> {
    if fs == [] then [] else fs[0].payload + Payloads(fs[1..])
  }

  /** The frames of one data message, of any sizes (section 5.4 of RFC 6455). */
  predicate Fragments(fs: seq<Frame>, opcode: OpCode) {
    && fs != []
    && fs[0].opcode == opcode
    && (forall i :: 0 < i < |fs| ==> fs[i].opcode == Continuation)
    && (forall i :: 0 <= i < |fs| ==> fs[i].fin == (i == |fs| - 1))
  }

  /** What a fragmentation must be, said without an algorithm. */
  predicate Fragmentation(fs: seq<Frame>, opcode: OpCode, payload: seq<byte>, size: nat) {
    && Fragments(fs, opcode) && Payloads(fs) == payload
    && (forall i :: 0 <= i < |fs| - 1 ==> |fs[i].payload| == size)
    && |fs[|fs| - 1].payload| <= size
    && (|fs| > 1 ==> fs[|fs| - 1].payload != [])
  }

  lemma {:induction false} FramesFragment(opcode: OpCode, payload: seq<byte>, size: nat)
    requires size >= 1
    ensures Fragmentation(Frames(opcode, payload, size), opcode, payload, size)
    decreases payload
  {
    var fs := Frames(opcode, payload, size);
    if |payload| <= size {
      assert Payloads(fs[1..]) == [];
    } else {
      var rest := Frames(Continuation, payload[size..], size);
      FramesFragment(Continuation, payload[size..], size);
      assert fs[1..] == rest;
      assert payload == payload[..size] + payload[size..];
      assert forall i :: 0 < i < |fs| ==> fs[i] == rest[i - 1];
    }
  }

  lemma FragmentationTail(fs: seq<Frame>, opcode: OpCode, payload: seq<byte>, size: nat)
    requires size >= 1 && Fragmentation(fs, opcode, payload, size) && |fs| > 1
    ensures |payload| > size && fs[0] == Frame(opcode, payload[..size], false)
    ensures Fragmentation(fs[1..], Continuation, payload[size..], size)
  {
    var rest := fs[1..];
    assert payload == fs[0].payload + Payloads(rest);
    assert payload[size..] == Payloads(rest) && payload[..size] == fs[0].payload;
    assert rest[|rest| - 1] == fs[|fs| - 1];
    NonEmptyTail(rest);
  }

  /** There is only one fragmentation, so the law says everything about `Frames`. */
  lemma {:induction false} FragmentationIsUnique(fs: seq<Frame>, opcode: OpCode, payload: seq<byte>, size: nat)
    requires size >= 1 && Fragmentation(fs, opcode, payload, size)
    ensures fs == Frames(opcode, payload, size)
    decreases fs
  {
    if |fs| == 1 {
      assert Payloads(fs[1..]) == [];
      assert payload == fs[0].payload;
      assert fs[0] == Frame(opcode, payload, true);
    } else {
      FragmentationTail(fs, opcode, payload, size);
      FragmentationIsUnique(fs[1..], Continuation, payload[size..], size);
      assert fs == [fs[0]] + fs[1..];
    }
  }

  lemma {:induction false} NonEmptyTail(fs: seq<Frame>)
    requires fs != [] && fs[|fs| - 1].payload != []
    ensures Payloads(fs) != []
    decreases fs
  {
    if |fs| > 1 {
      NonEmptyTail(fs[1..]);
    }
  }

  function FoldLeft<B>(f: (B, Frame) -> B, acc: B, fs: seq<Frame>): B
    decreases fs
  {
    if fs == [] then acc else FoldLeft(f, f(acc, fs[0]), fs[1..])
  }

  class MessageFrames {
    const frameSize: nat
    var payload: seq<byte>
    var opcode: OpCode

    ghost predicate Valid() { frameSize >= 1 }

    /** The frames `next` has still to yield. */
    ghost function Rest(): seq<Frame>
      requires Valid()
      reads this
    {
      if payload == [] && opcode.Continuation? then [] else Frames(opcode, payload, frameSize)
    }

    /** `Message::into_frames`; a frame size of zero is refused by `Config::frame_size`. */
    constructor (m: Message, frameSize: nat)
      requires frameSize >= 1
      ensures Valid() && payload == m.payload && opcode == m.opcode && this.frameSize == frameSize
    {
      this.frameSize := frameSize;
      payload := m.payload;
      opcode := m.opcode;
    }

    /** Takes the next chunk off the payload. */
    method Take() returns (f: Frame)
      requires Valid()
      modifies this
      ensures [f] + Rest() == Frames(old(opcode), old(payload), frameSize)
      ensures opcode == Continuation
      ensures payload == [] || |payload| < |old(payload)|
    {
      var n := Min(frameSize, |payload|);
      var chunk := payload[..n];
      payload := payload[n..];
      f := Frame(opcode, chunk, payload == []);
      opcode := Continuation;
      assert old(payload)[..|old(payload)|] == old(payload);
    }

    method Next() returns (f: Option<Frame>)
      requires Valid()
      modifies this
      ensures f.None? ==> old(Rest()) == [] && Rest() == []
      ensures f.Some? ==> [f.value] + Rest() == old(Rest())
      ensures f.Some? ==> opcode == Continuation
    {
      if payload == [] && opcode == Continuation {
        f := None;
      } else {
        var g := Take();
        f := Some(g);
      }
    }

    method Fold<B>(init: B, f: (B, Frame) -> B) returns (acc: B)
      requires Valid()
      modifies this
      ensures acc == FoldLeft(f, init, Frames(old(opcode), old(payload), frameSize))
    {
      ghost var want := FoldLeft(f, init, Frames(opcode, payload, frameSize));
      var frame := Take();
      ghost var all := [frame] + Rest();
      assert all[1..] == Rest();
      acc := f(init, frame);
      while payload != []
        invariant opcode == Continuation
        invariant FoldLeft(f, acc, Rest()) == want
        decreases |payload|
      {
        frame := Take();
        all := [frame] + Rest();
        assert all[1..] == Rest();
        acc := f(acc, frame);
      }
    }

    /** Folding over repeated calls of `next`, which is what `fold` stands in for. */
    method FoldByNext<B>(init: B, f: (B, Frame) -> B) returns (acc: B)
      requires Valid()
      modifies this
      ensures acc == FoldLeft(f, init, old(Rest()))
    {
      ghost var want := FoldLeft(f, init, Rest());
      acc := init;
      while true
        invariant FoldLeft(f, acc, Rest()) == want
        decreases |Rest()|
      {
        ghost var before := Rest();
        var frame := Next();
        match frame {
          case None => return;
          case Some(g) =>
            assert before[1..] == Rest();
            acc := f(acc, g);
        }
      }
    }
  }
}
