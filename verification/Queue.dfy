/**
  The outgoing frame queue of src/proto/stream.rs: encoded frames, the first of which may have been
  written in part.  To its reader it is a first-in first-out queue of bytes.
 */
module Queue {
  import opened Bytes
  import opened Mask
  import opened Types
  import opened Wire

  type Header = h: seq<byte> | |h| == 14 witness seq(14, i => 0)

  datatype EncodedFrame = EncodedFrame(header: Header, payload: seq<byte>)
  {
    predicate IsMasked() { header[1] / 128 != 0 }

    function HeaderLen(): (n: nat)
      ensures 2 <= n <= 14
    {
      var maskBytes := if IsMasked() then 4 else 0;
      match header[1] % 128
      case 127 => 10 + maskBytes
      case 126 => 4 + maskBytes
      case _ => 2 + maskBytes
    }

    function Len(): nat { HeaderLen() + |payload| }

    function Bytes(): (s: seq<byte>)
      ensures |s| == Len() >= 2
    {
      header[..HeaderLen()] + payload
    }
  }

  function Flatten(frames: seq<EncodedFrame>): seq<byte> {
    if frames == [] then [] else frames[0].Bytes() + Flatten(frames[1..])
  }

  lemma {:induction false} FlattenAppend(a: seq<EncodedFrame>, b: seq<EncodedFrame>)
    ensures Flatten(a + b) == Flatten(a) + Flatten(b)
    decreases a
  {
    if a == [] {
      assert a + b == b;
    } else {
      assert (a + b)[1..] == a[1..] + b;
      FlattenAppend(a[1..], b);
    }
  }

  datatype Raw = Raw(frames: seq<EncodedFrame>, written: nat)

  /** The queue as a value: some of its first frame, but not all, has been written. */
  type Queue = q: Raw | if q.frames == [] then q.written == 0 else q.written < q.frames[0].Len()
    witness Raw([], 0)

  const EMPTY: Queue := Raw([], 0)

  /** The bytes that are still to be written. */
  function Pending(q: Queue): seq<byte> {
    if q.frames == [] then [] else (q.frames[0].Bytes())[q.written..] + Flatten(q.frames[1..])
  }

  function Pushed(q: Queue, f: EncodedFrame): Queue {
    Raw(q.frames + [f], q.written)
  }

  lemma PushedAppends(q: Queue, f: EncodedFrame)
    ensures Pending(Pushed(q, f)) == Pending(q) + f.Bytes()
  {
    assert Flatten([f]) == f.Bytes() + Flatten([f][1..]) == f.Bytes();
    if q.frames != [] {
      assert (q.frames + [f])[1..] == q.frames[1..] + [f];
      FlattenAppend(q.frames[1..], [f]);
    }
  }

  // ---------------------------------------------------------------- advance

  /** Frames that `cnt` bytes cover are dropped; the rest of `cnt` lies in the next frame. */
  function Skip(frames: seq<EncodedFrame>, cnt: nat): (q: Queue)
    requires cnt <= |Flatten(frames)|
    ensures Pending(q) == Flatten(frames)[cnt..]
    decreases frames
  {
    if frames == [] then Raw([], 0)
    else if cnt < frames[0].Len() then Raw(frames, cnt)
    else Skip(frames[1..], cnt - frames[0].Len())
  }

  lemma PendingOfFlatten(q: Queue)
    ensures q.written <= |Flatten(q.frames)| && Pending(q) == Flatten(q.frames)[q.written..]
  {
  }

  function Advanced(q: Queue, n: nat): (r: Queue)
    requires n <= |Pending(q)|
    ensures Pending(r) == Pending(q)[n..]
  {
    PendingOfFlatten(q);
    Skip(q.frames, q.written + n)
  }

  lemma AdvancedNothing(q: Queue)
    ensures Advanced(q, 0) == q
  {
  }

  // ---------------------------------------------------------------- what is offered for writing

  function Chunk(q: Queue): (s: seq<byte>)
    ensures s <= Pending(q)
    ensures Pending(q) != [] ==> s != []
  {
    if q.frames == [] then []
    else
      var f := q.frames[0];
      var n := f.HeaderLen();
      ChunkOfBytes(f, q.written);
      if q.written >= n then f.payload[q.written - n..] else f.header[q.written..n]
  }

  lemma ChunkOfBytes(f: EncodedFrame, written: nat)
    requires written < f.Len()
    ensures var n := f.HeaderLen();
            (f.Bytes())[written..] ==
            if written >= n then f.payload[written - n..] else f.header[written..n] + f.payload
  {
  }

  /** The slices of one frame from byte `written` on: what is left of its header, then of its payload. */
  function FrameSlices(f: EncodedFrame, written: nat): (s: seq<seq<byte>>)
    requires written < f.Len()
  {
    var n := f.HeaderLen();
    (if n > written then [f.header[written..n]] else [])
    + (if f.payload != [] then [f.payload[if written > n then written - n else 0..]] else [])
  }

  lemma FrameSlicesBytes(f: EncodedFrame, written: nat)
    requires written < f.Len()
    ensures Concat(FrameSlices(f, written)) == (f.Bytes())[written..]
    ensures forall s :: s in FrameSlices(f, written) ==> s != []
    ensures FrameSlices(f, written) != []
  {
    var n := f.HeaderLen();
    ChunkOfBytes(f, written);
    var p := f.payload[if written > n then written - n else 0..];
    assert Concat([p]) == p + Concat([p][1..]) == p;
    if n > written {
      var h := f.header[written..n];
      assert Concat([h]) == h + Concat([h][1..]) == h;
      assert [h] + [p] == [h, p] && [h, p][1..] == [p];
      assert [h] + [] == [h];
      assert Concat([h, p]) == h + Concat([p]);
    } else {
      assert [] + [p] == [p];
    }
  }

  function AllSlices(frames: seq<EncodedFrame>): seq<seq<byte>> {
    if frames == [] then [] else FrameSlices(frames[0], 0) + AllSlices(frames[1..])
  }

  /** All slices of the queue in order; `chunks_vectored` presents as many as there are slots. */
  function Slices(q: Queue): seq<seq<byte>> {
    if q.frames == [] then [] else FrameSlices(q.frames[0], q.written) + AllSlices(q.frames[1..])
  }

  lemma {:induction false} AllSlicesBytes(frames: seq<EncodedFrame>)
    ensures Concat(AllSlices(frames)) == Flatten(frames)
    decreases frames
  {
    if frames != [] {
      FrameSlicesBytes(frames[0], 0);
      AllSlicesBytes(frames[1..]);
      ConcatAppend(FrameSlices(frames[0], 0), AllSlices(frames[1..]));
    }
  }

  lemma SlicesBytes(q: Queue)
    ensures Concat(Slices(q)) == Pending(q)
    ensures q.frames != [] ==> Slices(q) != [] && Slices(q)[0] != []
  {
    if q.frames != [] {
      FrameSlicesBytes(q.frames[0], q.written);
      AllSlicesBytes(q.frames[1..]);
      ConcatAppend(FrameSlices(q.frames[0], q.written), AllSlices(q.frames[1..]));
      assert Slices(q)[0] in FrameSlices(q.frames[0], q.written);
    }
  }

  /** As many of the slices as there are slots. */
  function Fit(slices: seq<seq<byte>>, slots: nat): (s: seq<seq<byte>>)
    ensures |s| <= slots
  {
    slices[..Min(slots, |slices|)]
  }

  lemma FitAppend(a: seq<seq<byte>>, b: seq<seq<byte>>, slots: nat)
    ensures |a| >= slots ==> Fit(a + b, slots) == Fit(a, slots)
    ensures |a| < slots ==> Fit(a, slots) == a && Fit(a + b, slots) == a + Fit(b, slots - |a|)
  {
  }

  function Vectored(q: Queue, slots: nat): seq<seq<byte>> { Fit(Slices(q), slots) }

  /** A frame has at most two slices, so twice as many slots as frames are enough for all. */
  lemma {:induction false} AllSlicesCount(frames: seq<EncodedFrame>)
    ensures |AllSlices(frames)| <= 2 * |frames|
    decreases frames
  {
    if frames != [] {
      AllSlicesCount(frames[1..]);
    }
  }

  lemma SlicesCount(q: Queue)
    ensures |Slices(q)| <= 2 * |q.frames|
  {
    if q.frames != [] {
      AllSlicesCount(q.frames[1..]);
    }
  }

  /** The chunk is the first of the slices. */
  lemma ChunkIsFirst(q: Queue)
    requires q.frames != []
    ensures Slices(q) != [] && Chunk(q) == Slices(q)[0]
  {
    FrameSlicesBytes(q.frames[0], q.written);
  }

  /** What fits into the slots is a prefix of the pending bytes, and not empty if there are any. */
  lemma VectoredIsPrefix(q: Queue, slots: nat)
    ensures Concat(Vectored(q, slots)) <= Pending(q)
    ensures Pending(q) != [] && slots > 0 ==> Concat(Vectored(q, slots)) != []
    ensures slots >= |Slices(q)| ==> Concat(Vectored(q, slots)) == Pending(q)
    ensures |Vectored(q, slots)| == Min(slots, |Slices(q)|)
  {
    var all, k := Slices(q), Min(slots, |Slices(q)|);
    SlicesBytes(q);
    ConcatAppend(all[..k], all[k..]);
    assert all == all[..k] + all[k..];
    if k > 0 {
      assert all[..k][0] == all[0];
      assert Concat(all[..k]) == all[0] + Concat(all[..k][1..]);
    }
  }

  // ---------------------------------------------------------------- the encoder

  /** `Frame::encode` and the masking in `queue_frame`, as the header array they fill. */
  function EncodedHeader(f: Frame, mask: Option<Key>): (h: Header)
    requires |f.payload| < USIZE_END
  {
    var s := HeadBytes(f, mask.Some?) + if mask.Some? then mask.value else [];
    s + seq(14 - |s|, i => 0)
  }

  function Encoded(f: Frame, mask: Option<Key>): EncodedFrame
    requires |f.payload| < USIZE_END
  {
    EncodedFrame(EncodedHeader(f, mask), if mask.Some? then Masked(mask.value, f.payload) else f.payload)
  }

  /** `header_len` finds the end of what `encode` wrote: the queued bytes are the printed frame. */
  lemma EncodedBytes(f: Frame, mask: Option<Key>)
    requires |f.payload| < USIZE_END
    ensures (Encoded(f, mask).Bytes()) == EncodeFrame(f, mask)
  {
    var head := HeadBytes(f, mask.Some?);
    var s := head + if mask.Some? then mask.value else [];
    var h := EncodedHeader(f, mask);
    assert h[1] == head[1];
    assert head[1] == (if |f.payload| > 0xFFFF then 127 else if |f.payload| > 125 then 126 else |f.payload|)
                      + (if mask.Some? then 128 else 0);
    assert Encoded(f, mask).HeaderLen() == |s|;
    assert h[..|s|] == s;
  }
}
