/**
  `FrameQueue` and `Frame::encode` as the source has them: fields updated by loops, and a header array that is
  filled in place (src/proto/stream.rs, src/proto/types.rs).
 */
module FrameQueues {
  import opened Bytes
  import opened Mask
  import opened Types
  import opened Wire
  import opened Queue

  method CopyInto(out: array<byte>, at: nat, data: seq<byte>)
    requires at + |data| <= out.Length
    modifies out
    ensures out[..] == old(out[..at]) + data + old(out[at + |data|..])
  {
    for i := 0 to |data|
      invariant forall j :: 0 <= j < out.Length ==>
        out[j] == if at <= j < at + i then data[j - at] else old(out[j])
    {
      out[at + i] := data[i];
    }
  }

  /** Fills the head of the frame into `out` and says where the mask belongs. */
  method EncodeHead(f: Frame, out: array<byte>) returns (maskAt: nat)
    requires out.Length == 14 && |f.payload| < USIZE_END
    modifies out
    ensures maskAt == |HeadBytes(f, false)| && maskAt + 4 <= 14
    ensures out[..] == HeadBytes(f, false) + old(out[maskAt..])
  {
    out[0] := (if f.fin then 128 else 0) + f.opcode.ToByte();
    if |f.payload| > 0xFFFF {
      out[1] := 127;
      CopyInto(out, 2, U64(|f.payload|));
      maskAt := 10;
    } else if |f.payload| > 125 {
      out[1] := 126;
      CopyInto(out, 2, U16(|f.payload|));
      maskAt := 4;
    } else {
      out[1] := |f.payload|;
      maskAt := 2;
    }
  }

  /** The encoding part of `queue_frame`: the client masks, and sends the key as it was before masking. */
  method EncodeItem(f: Frame, mask: Option<Key>) returns (item: EncodedFrame)
    requires |f.payload| < USIZE_END
    ensures item == Encoded(f, mask)
  {
    hide HeadBytes;
    var header := new byte[14](i => 0);
    var maskAt := EncodeHead(f, header);
    ghost var head := HeadBytes(f, false);
    assert header[..] == head + seq(14 - maskAt, i => 0);
    var payload := f.payload;
    if mask.Some? {
      CopyInto(header, maskAt, mask.value);
      assert header[..] == head + mask.value + seq(14 - (maskAt + 4), i => 0);
      var rest, masked := FrameBytes(mask.value, payload);
      payload := masked;
      MaskBit(f);
      header[1] := header[1] + 128;
      assert header[..] == HeadBytes(f, true) + mask.value + seq(14 - (maskAt + 4), i => 0);
    } else {
      assert head + [] == head;
    }
    item := EncodedFrame(header[..], payload);
  }

  lemma MaskBit(f: Frame)
    requires |f.payload| < USIZE_END
    ensures var s := HeadBytes(f, false); s[1] < 128 && HeadBytes(f, true) == s[1 := s[1] + 128]
  {
  }

  class FrameQueue {
    var queue: seq<EncodedFrame>
    var bytesWritten: nat
    var pendingBytes: nat

    ghost predicate Valid()
      reads this
    {
      && (if queue == [] then bytesWritten == 0 else bytesWritten < queue[0].Len())
      && pendingBytes == |Pending(Raw(queue, bytesWritten))|
    }

    ghost function View(): Queue
      requires Valid()
      reads this
    {
      Raw(queue, bytesWritten)
    }

    constructor ()
      ensures Valid() && View() == EMPTY
    {
      queue, bytesWritten, pendingBytes := [], 0, 0;
    }

    method Push(item: EncodedFrame)
      requires Valid()
      modifies this
      ensures Valid() && View() == Pushed(old(View()), item)
    {
      PushedAppends(View(), item);
      pendingBytes := pendingBytes + item.Len();
      queue := queue + [item];
    }

    /** `remaining` counts what is pending. */
    function Remaining(): (n: nat)
      requires Valid()
      reads this
      ensures n == |Pending(View())|
    {
      pendingBytes
    }

    method FirstChunk() returns (s: seq<byte>)
      requires Valid()
      ensures s == Chunk(View())
    {
      if queue == [] {
        s := [];
      } else {
        var frame := queue[0];
        if bytesWritten >= frame.HeaderLen() {
          s := frame.payload[bytesWritten - frame.HeaderLen()..];
        } else {
          s := frame.header[bytesWritten..frame.HeaderLen()];
        }
      }
    }

    /** Terminates without running out of frames, and drops exactly `n` bytes. */
    method Advance(n: nat)
      requires Valid() && n <= |Pending(View())|
      modifies this
      ensures Valid() && View() == Advanced(old(View()), n)
    {
      ghost var q := View();
      PendingOfFlatten(q);
      pendingBytes := pendingBytes - n;
      ghost var target := Advanced(q, n);
      var cnt: nat := n + bytesWritten;
      while cnt > 0
        invariant pendingBytes == |Pending(target)| && target == Skip(q.frames, q.written + n)
        invariant cnt <= |Flatten(queue)| && Skip(queue, cnt) == Skip(q.frames, q.written + n)
        invariant cnt == 0 ==> bytesWritten == 0
        decreases cnt
      {
        var itemLen := queue[0].Len();
        if cnt >= itemLen {
          queue := queue[1..];
          bytesWritten := 0;
          cnt := cnt - itemLen;
        } else {
          bytesWritten := cnt;
          return;
        }
      }
    }

    /** The slices of one frame, as far as there are slots. */
    method PutFrame(dst: seq<seq<byte>>, slots: nat, frame: EncodedFrame, written: nat) returns (r: seq<seq<byte>>)
      requires |dst| < slots && written < frame.Len()
      ensures r == dst + Fit(FrameSlices(frame, written), slots - |dst|)
    {
      r := dst;
      var n := frame.HeaderLen();
      if n > written {
        r := r + [frame.header[written..n]];
      }
      if frame.payload != [] && |r| < slots {
        r := r + [frame.payload[if written > n then written - n else 0..]];
      }
    }

    method ChunksVectored(slots: nat) returns (dst: seq<seq<byte>>)
      requires Valid()
      ensures dst == Vectored(View(), slots)
    {
      dst := [];
      ghost var q, done: seq<seq<byte>> := View(), [];
      var idx := 0;
      PresentedStart(q, slots);
      while idx < |queue| && |dst| < slots
        invariant idx <= |queue| && Presented(q, idx, done, dst, slots)
      {
        var frame, written := queue[idx], if idx == 0 then bytesWritten else 0;
        var next := PutFrame(dst, slots, frame, written);
        PresentedNext(q, idx, done, dst, slots);
        done := done + FrameSlices(frame, written);
        dst := next;
        idx := idx + 1;
      }
      PresentedEnd(q, idx, done, dst, slots);
    }

    /** The slices `done` of the frames before `idx` are presented, as far as they fit. */
    static ghost predicate Presented(q: Queue, idx: nat, done: seq<seq<byte>>, dst: seq<seq<byte>>, slots: nat)
      requires idx <= |q.frames|
    {
      && dst == Fit(done, slots)
      && done + (if idx == 0 then Slices(q) else AllSlices(q.frames[idx..])) == Slices(q)
    }

    static lemma PresentedStart(q: Queue, slots: nat)
      ensures Presented(q, 0, [], [], slots)
    {
      assert [] + Slices(q) == Slices(q);
    }

    static lemma PresentedNext(q: Queue, idx: nat, done: seq<seq<byte>>, dst: seq<seq<byte>>, slots: nat)
      requires idx < |q.frames| && Presented(q, idx, done, dst, slots) && |dst| < slots
      ensures var more := FrameSlices(q.frames[idx], if idx == 0 then q.written else 0);
              Presented(q, idx + 1, done + more, dst + Fit(more, slots - |dst|), slots)
    {
      var rest := q.frames[idx..];
      var more := FrameSlices(q.frames[idx], if idx == 0 then q.written else 0);
      assert rest[0] == q.frames[idx] && rest[1..] == q.frames[idx + 1..];
      FitAppend(done, more, slots);
      Regroup(done, more, AllSlices(rest[1..]));
    }

    static lemma PresentedEnd(q: Queue, idx: nat, done: seq<seq<byte>>, dst: seq<seq<byte>>, slots: nat)
      requires idx <= |q.frames| && Presented(q, idx, done, dst, slots) && (idx == |q.frames| || |dst| >= slots)
      ensures dst == Vectored(q, slots)
    {
      FitAppend(done, if idx == 0 then Slices(q) else AllSlices(q.frames[idx..]), slots);
      assert done + [] == done;
    }
  }
}
