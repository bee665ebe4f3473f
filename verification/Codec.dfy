/**
  The resumable decoder of src/proto/codec.rs.

  `Decode` is one call of `decode` as a function of the decoder's state and of the receive buffer:
  it parses the header anew, unmasks text in place as far as it has arrived, leaving the key in the
  buffer rotated, and validates what is new.  `Coupled` says what the buffer then holds compared with
  the bytes that really arrived, and `DecodeRefinesParse` that the calls together do what
  `Wire.ParseFrame` does on those bytes at once.
 */
module Codec {
  import opened Bytes
  import opened Mask
  import opened Utf8
  import opened Types
  import opened Wire
  import opened Validation

  datatype State = State(frag: OpCode, processed: nat, carry: Unfinished)

  datatype Step =
    | NeedMore(st: State, src: seq<byte>)
    | Item(frame: Frame, st: State, src: seq<byte>)
    | Fault(error: Error, st: State, src: seq<byte>)

  // ---------------------------------------------------------------- one call of decode

  /** What the unchecked slicing of the source relies on. */
  predicate Resumable(cfg: Config, st: State, src: seq<byte>) {
    var h := ParseHead(cfg, st.frag, src);
    if h.Head? then st.processed <= Available(h, src) else st.processed == 0
  }

  /** `mask::frame` on payload bytes m..n of a frame whose payload starts at `o`, with the key that lies before it. */
  function InPlace(o: nat, src: seq<byte>, m: nat, n: nat): (r: seq<byte>)
    requires 4 <= o && m <= n && o + n <= |src|
    ensures |r| == |src|
  {
    var key: Key := src[o - 4..o];
    src[..o - 4] + Rotated(key, n - m) + (src[o..o + m] + Masked(key, src[o + m..o + n])) + src[o + n..]
  }

  function NextFrag(frag: OpCode, f: Frame): OpCode {
    if !f.fin && !f.opcode.Continuation? then f.opcode else frag
  }

  function Finish(st: State, h: Head, src: seq<byte>): Step
    requires h.Head? && h.offset + h.length <= |src|
  {
    var f := Frame(h.opcode, src[h.offset..h.offset + h.length], h.fin);
    Item(f, st.(frag := NextFrag(st.frag, f), processed := 0), src[h.offset + h.length..])
  }

  function DecodeBody(st: State, h: Head, src: seq<byte>): Step
    requires h.Head? && h.offset <= |src| && (h.masked ==> 4 <= h.offset)
    requires st.processed <= Available(h, src)
  {
    if h.length == 0 then Finish(st, h, src)
    else
      var text := IsText(h.opcode, st.frag);
      var seen := Available(h, src);
      var complete := seen == h.length;
      var src1 := if h.masked && (complete || text) then InPlace(h.offset, src, st.processed, seen) else src;
      DecodeUnmasked(st, h, src1, seen)
  }

  /** The rest of the call, once the payload is unmasked as far as it will be. */
  function DecodeUnmasked(st: State, h: Head, src: seq<byte>, seen: nat): Step
    requires h.Head? && st.processed <= seen <= h.length && h.offset + seen <= |src|
  {
    var text := IsText(h.opcode, st.frag);
    var complete := seen == h.length;
    var unread := src[h.offset + st.processed..h.offset + seen];
    if text && !FeedOk(st.carry, unread, complete && h.fin) then
      Fault(Protocol(InvalidUtf8), st.(carry := FailedCarry(st.carry, unread)), src)
    else
      var st1 := if text then st.(carry := Run(st.carry, unread).value, processed := seen) else st;
      if !complete then NeedMore(st1, src)
      else if h.opcode.Close? && CloseFault(src[h.offset..h.offset + h.length]).Some? then
        Fault(Protocol(CloseFault(src[h.offset..h.offset + h.length]).value), st1, src)
      else Finish(st1, h, src)
  }

  function Decode(cfg: Config, st: State, src: seq<byte>): Step
    requires Resumable(cfg, st, src)
  {
    match ParseHead(cfg, st.frag, src)
    case Short => NeedMore(st, src)
    case Refused(e) => Fault(e, st, src)
    case Head(_, _, _, _, _) => DecodeBody(st, ParseHead(cfg, st.frag, src), src)
  }

  // ---------------------------------------------------------------- in-place unmasking

  lemma InPlaceParts(o: nat, src: seq<byte>, m: nat, n: nat)
    requires 4 <= o && m <= n && o + n <= |src|
    ensures var r := InPlace(o, src, m, n);
            var key: Key := src[o - 4..o];
            && r[..o - 4] == src[..o - 4]
            && r[o - 4..o] == Rotated(key, n - m)
            && r[o..o + n] == src[o..o + m] + Masked(key, src[o + m..o + n])
            && r[o + n..] == src[o + n..]
  {
  }

  lemma InPlaceNothing(o: nat, src: seq<byte>)
    requires 4 <= o <= |src|
    ensures InPlace(o, src, 0, 0) == src
  {
    assert src == src[..o - 4] + src[o - 4..o] + ([] + []) + src[o..];
    assert Masked(src[o - 4..o], src[o..o]) == [];
  }

  /** Going on where an earlier call stopped, with the key it left behind, is doing all in one call. */
  lemma InPlaceTwice(o: nat, w: seq<byte>, m: nat, n: nat)
    requires 4 <= o && m <= n && o + n <= |w|
    ensures InPlace(o, InPlace(o, w, 0, m), m, n) == InPlace(o, w, 0, n)
  {
    hide Masked, Rotated;
    var s := InPlace(o, w, 0, m);
    var key: Key := w[o - 4..o];
    InPlaceParts(o, w, 0, m);
    TailOf(s, w, o + m, o + n);
    RotatedSum(key, m, n - m);
    var a, b := w[o..o + m], w[o + m..o + n];
    BodyTwice(key, w[o..o], a, b, w[o..o + n]);
  }

  lemma BodyTwice(key: Key, none: seq<byte>, a: seq<byte>, b: seq<byte>, ab: seq<byte>)
    requires ab == a + b && none == []
    ensures (none + Masked(key, a)) + Masked(Rotated(key, |a|), b) == none + Masked(key, ab)
  {
    MaskedSplit(key, a, b);
    assert none + Masked(key, a) == Masked(key, a);
    assert none + Masked(key, ab) == Masked(key, ab);
  }

  lemma TailOf(s: seq<byte>, w: seq<byte>, i: nat, j: nat)
    requires i <= j <= |w| == |s| && s[i..] == w[i..]
    ensures s[i..j] == w[i..j] && s[j..] == w[j..]
  {
    assert s[i..j] == s[i..][..j - i] && w[i..j] == w[i..][..j - i];
    assert s[j..] == s[i..][j - i..] && w[j..] == w[i..][j - i..];
  }

  lemma InPlaceExtends(o: nat, w: seq<byte>, n: nat, x: seq<byte>)
    requires 4 <= o && o + n <= |w|
    ensures InPlace(o, w + x, 0, n) == InPlace(o, w, 0, n) + x
  {
    var v := w + x;
    assert v[..o - 4] == w[..o - 4] && v[o - 4..o] == w[o - 4..o] && v[o..o] == w[o..o];
    assert v[o + 0..o + n] == w[o + 0..o + n] && v[o + n..] == w[o + n..] + x;
  }

  // ---------------------------------------------------------------- the coupling invariant

  /** The buffer after the first `n` payload bytes have been processed. */
  function Progress(h: Head, wire: seq<byte>, n: nat): (r: seq<byte>)
    requires h.Head? && h.offset + n <= |wire| && (h.masked ==> 4 <= h.offset)
    ensures |r| == |wire|
  {
    if h.masked then InPlace(h.offset, wire, 0, n) else wire
  }

  /**
    How the decoder stands when the bytes `wire` of a frame have arrived and it was in state `rx` before:
    the buffered key is the original one rotated, processed payload bytes are plain and validated, all else is
    as it arrived, and only text is processed before it is complete.
   */
  predicate Coupled(cfg: Config, rx: Rx, wire: seq<byte>, st: State, src: seq<byte>) {
    && st.frag == rx.frag
    && var h := ParseHead(cfg, rx.frag, wire);
       if h.Head? then CoupledBody(rx, h, wire, st, src)
       else st.processed == 0 && src == wire && st.carry == rx.carry
  }

  predicate CoupledBody(rx: Rx, h: Head, wire: seq<byte>, st: State, src: seq<byte>)
    requires h.Head? && h.offset <= |wire| && (h.masked ==> 4 <= h.offset)
  {
    && st.processed <= Available(h, wire)
    && src == Progress(h, wire, st.processed)
    && (st.processed > 0 ==> IsText(h.opcode, rx.frag))
    && Run(rx.carry, Plain(h, wire, st.processed)) == Some(st.carry)
  }

  lemma CoupledStart(cfg: Config, rx: Rx, wire: seq<byte>)
    ensures Coupled(cfg, rx, wire, State(rx.frag, 0, rx.carry), wire)
  {
    var h := ParseHead(cfg, rx.frag, wire);
    if h.Head? && h.masked {
      InPlaceNothing(h.offset, wire);
    }
  }

  lemma CoupledHead(cfg: Config, rx: Rx, wire: seq<byte>, st: State, src: seq<byte>)
    requires Coupled(cfg, rx, wire, st, src)
    ensures |src| == |wire|
    ensures ParseHead(cfg, st.frag, src) == ParseHead(cfg, rx.frag, wire)
    ensures Resumable(cfg, st, src)
  {
    var h := ParseHead(cfg, rx.frag, wire);
    if h.Head? && h.masked {
      InPlaceParts(h.offset, wire, 0, st.processed);
      HeadLocal(cfg, rx.frag, wire, src);
    }
  }

  lemma CoupledAppend(cfg: Config, rx: Rx, wire: seq<byte>, st: State, src: seq<byte>, x: seq<byte>)
    requires Coupled(cfg, rx, wire, st, src)
    ensures Coupled(cfg, rx, wire + x, st, src + x)
  {
    var h := ParseHead(cfg, rx.frag, wire);
    match h {
      case Short => CoupledStart(cfg, rx, wire + x);
      case Refused(_) => HeadExtends(cfg, rx.frag, wire, x);
      case Head(_, _, _, _, _) =>
        HeadExtends(cfg, rx.frag, wire, x);
        PlainExtends(h, wire, x, st.processed);
        if h.masked {
          InPlaceExtends(h.offset, wire, st.processed, x);
        }
    }
  }

  /** What `DecodeBody` finds in the buffer once it has unmasked up to `n`. */
  lemma ProgressPlain(h: Head, wire: seq<byte>, m: nat, n: nat)
    requires h.Head? && m <= n && h.offset + n <= |wire| && (h.masked ==> 4 <= h.offset)
    ensures var src1 := if h.masked then InPlace(h.offset, Progress(h, wire, m), m, n) else Progress(h, wire, m);
            && src1 == Progress(h, wire, n)
            && src1[h.offset..h.offset + n] == Plain(h, wire, n)
            && src1[h.offset + m..h.offset + n] == Plain(h, wire, n)[m..]
            && src1[h.offset + n..] == wire[h.offset + n..]
  {
    var o := h.offset;
    if h.masked {
      InPlaceTwice(o, wire, m, n);
      InPlaceParts(o, wire, 0, n);
      assert wire[o..o] == [];
    }
    var src1 := Progress(h, wire, n);
    assert src1[o + m..o + n] == src1[o..o + n][m..];
  }

  /** What one call of `decode` must do, told by the reference parser. */
  predicate Matches(cfg: Config, rx: Rx, wire: seq<byte>, r: Step) {
    match ParseFrame(cfg, rx, wire)
    case More => r.NeedMore? && Coupled(cfg, rx, wire, r.st, r.src)
    case Bad(e) => r.Fault? && r.error == e
    case Got(f, used, carry) => r == Item(f, State(NextFrag(rx.frag, f), 0, carry), wire[used..])
  }

  predicate MatchesBody(rx: Rx, h: Head, wire: seq<byte>, r: Step)
    requires h.Head? && h.offset <= |wire| && (h.masked ==> 4 <= h.offset)
  {
    match ParseBody(rx, h, wire)
    case More => r.NeedMore? && r.st.frag == rx.frag && CoupledBody(rx, h, wire, r.st, r.src)
    case Bad(e) => r.Fault? && r.error == e
    case Got(f, used, carry) =>
      used <= |wire| && r == Item(f, State(NextFrag(rx.frag, f), 0, carry), wire[used..])
  }

  /** What one call makes of text: the new bytes are unmasked, and continue the code point left open. */
  lemma TextSeen(rx: Rx, h: Head, wire: seq<byte>, st: State, src: seq<byte>, n: nat)
    requires h.Head? && (h.masked ==> 4 <= h.offset) && st.processed <= n && h.offset + n <= |wire|
    requires src == Progress(h, wire, st.processed)
    requires Run(rx.carry, Plain(h, wire, st.processed)) == Some(st.carry)
    ensures |src| == |wire|
    ensures var src1 := if h.masked then InPlace(h.offset, src, st.processed, n) else src;
            && src1 == Progress(h, wire, n)
            && src1[h.offset..h.offset + n] == Plain(h, wire, n)
            && src1[h.offset + n..] == wire[h.offset + n..]
            && Run(st.carry, src1[h.offset + st.processed..h.offset + n]) == Run(rx.carry, Plain(h, wire, n))
  {
    var m := st.processed;
    ProgressPlain(h, wire, m, n);
    PlainSplit(h, wire, m, n);
    RunSplit(rx.carry, Plain(h, wire, m), Plain(h, wire, n)[m..]);
  }

  lemma DecodeTextUnmasked(rx: Rx, h: Head, wire: seq<byte>, st: State, src1: seq<byte>, n: nat)
    requires h.Head? && h.length != 0 && h.offset <= |wire| && (h.masked ==> 4 <= h.offset)
    requires n == Available(h, wire) && st.processed <= n && st.frag == rx.frag && IsText(h.opcode, rx.frag)
    requires |src1| == |wire|
    requires src1[h.offset..h.offset + n] == Plain(h, wire, n) && src1[h.offset + n..] == wire[h.offset + n..]
    requires Run(st.carry, src1[h.offset + st.processed..h.offset + n]) == Run(rx.carry, Plain(h, wire, n))
    ensures match ParseBody(rx, h, wire)
            case More =>
              var r := Run(rx.carry, Plain(h, wire, n));
              r.Some? && DecodeUnmasked(st, h, src1, n) == NeedMore(State(rx.frag, n, r.value), src1)
            case Bad(e) => var r := DecodeUnmasked(st, h, src1, n); r.Fault? && r.error == e
            case Got(f, used, carry) =>
              DecodeUnmasked(st, h, src1, n) == Item(f, State(NextFrag(rx.frag, f), 0, carry), wire[used..])
  {
    hide Run, Plain, CloseFault;
  }

  lemma DecodeText(rx: Rx, h: Head, wire: seq<byte>, st: State, src: seq<byte>)
    requires h.Head? && h.offset <= |wire| == |src| && (h.masked ==> 4 <= h.offset) && st.frag == rx.frag
    requires CoupledBody(rx, h, wire, st, src) && h.length != 0 && IsText(h.opcode, rx.frag)
    ensures MatchesBody(rx, h, wire, DecodeBody(st, h, src))
  {
    var n := Available(h, wire);
    TextSeen(rx, h, wire, st, src, n);
    var src1 := if h.masked then InPlace(h.offset, src, st.processed, n) else src;
    DecodeTextUnmasked(rx, h, wire, st, src1, n);
  }

  lemma NothingRead(rx: Rx, h: Head, wire: seq<byte>, st: State)
    requires h.Head? && h.offset <= |wire| && (h.masked ==> 4 <= h.offset)
    requires Run(rx.carry, Plain(h, wire, 0)) == Some(st.carry)
    ensures st.carry == rx.carry
  {
    assert Plain(h, wire, 0) == [];
  }

  lemma DecodeOther(rx: Rx, h: Head, wire: seq<byte>, st: State, src: seq<byte>)
    requires h.Head? && h.offset <= |wire| == |src| && (h.masked ==> 4 <= h.offset) && st.frag == rx.frag
    requires CoupledBody(rx, h, wire, st, src) && (h.length == 0 || !IsText(h.opcode, rx.frag))
    ensures MatchesBody(rx, h, wire, DecodeBody(st, h, src))
  {
    hide Run, InPlace;
    var n := Available(h, wire);
    assert st.processed == 0;
    assert st.carry == rx.carry by { NothingRead(rx, h, wire, st); }
    assert Plain(h, wire, 0) == [];
    if h.masked {
      InPlaceNothing(h.offset, wire);
    }
    assert src == wire;
    ProgressPlain(h, wire, 0, n);
    if h.length == 0 {
      assert wire[h.offset..h.offset] == [];
    }
  }

  /** A call of `decode` does what the reference parser does on the bytes as they arrived. */
  lemma DecodeRefinesParse(cfg: Config, rx: Rx, wire: seq<byte>, st: State, src: seq<byte>)
    requires Coupled(cfg, rx, wire, st, src)
    ensures Resumable(cfg, st, src)
    ensures Matches(cfg, rx, wire, Decode(cfg, st, src))
  {
    CoupledHead(cfg, rx, wire, st, src);
    var h := ParseHead(cfg, rx.frag, wire);
    if h.Head? {
      if h.length != 0 && IsText(h.opcode, rx.frag) {
        DecodeText(rx, h, wire, st, src);
      } else {
        DecodeOther(rx, h, wire, st, src);
      }
    }
  }

  /** The opcode of the message being assembled changes with accepted frames only. */
  lemma DecodeKeepsFrag(cfg: Config, st: State, src: seq<byte>)
    requires Resumable(cfg, st, src) && !Decode(cfg, st, src).Item?
    ensures Decode(cfg, st, src).st.frag == st.frag
  {
    hide ParseHead, Run, CloseFault, InPlace, FailedCarry;
  }

  /** Whatever is appended after a call that needs more, the next call can go on. */
  lemma DecodeKeepsResumable(cfg: Config, st: State, src: seq<byte>, x: seq<byte>)
    requires Resumable(cfg, st, src) && Decode(cfg, st, src).NeedMore?
    ensures var r := Decode(cfg, st, src); Resumable(cfg, r.st, r.src + x)
  {
    var h := ParseHead(cfg, st.frag, src);
    if h.Head? {
      var r := DecodeBody(st, h, src);
      NeedMoreShape(st, h, src);
      assert (r.src + x)[..KeyAt(h)] == r.src[..KeyAt(h)];
      HeadLocal(cfg, st.frag, src, r.src + x);
    }
  }

  lemma NeedMoreShape(st: State, h: Head, src: seq<byte>)
    requires h.Head? && h.offset <= |src| && (h.masked ==> 4 <= h.offset) && st.processed <= Available(h, src)
    requires DecodeBody(st, h, src).NeedMore?
    ensures var r := DecodeBody(st, h, src);
            && |r.src| == |src| && r.st.frag == st.frag
            && r.src[..KeyAt(h)] == src[..KeyAt(h)] && r.st.processed <= Available(h, src)
  {
    if h.masked {
      InPlaceParts(h.offset, src, st.processed, Available(h, src));
    }
  }
}
