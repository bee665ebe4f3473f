/**
  The frame format (section 5.2 of RFC 6455): a printer and a parser of unmodified bytes.

  `ParseFrame` looks at all bytes of a frame that have arrived, from its start, and keeps nothing
  between calls.  It is the reference for the resumable decoder of src/proto/codec.rs.
 */
module Wire {
  import opened Bytes
  import opened Mask
  import opened Utf8
  import opened Types

  datatype Config = Config(role: Role, maxLen: usize)

  /** What the receiver remembers between frames. */
  datatype Rx = Rx(frag: OpCode, carry: Unfinished, partial: seq<byte>)

  const IDLE := Rx(Continuation, [], [])

  // ---------------------------------------------------------------- header

  datatype Head =
    | Short
    | Refused(error: Error)
    | Head(fin: bool, opcode: OpCode, masked: bool, length: nat, offset: nat)

  /** The checks that need only the first two bytes. */
  function Preamble(role: Role, frag: OpCode, b0: byte, b1: byte): Option<ProtocolError> {
    if b0 / 16 % 8 != 0 then Some(InvalidRsv)
    else match OpCodeOf(b0 % 16)
      case None => Some(InvalidOpcode)
      case Some(opcode) =>
        if opcode.IsControl() && b0 < 128 then Some(FragmentedControlFrame)
        else if !opcode.IsControl() && opcode.Continuation? == frag.Continuation? then Some(InvalidOpcode)
        else if b1 >= 128 && role.Client? then Some(UnexpectedMaskedFrame)
        else if b1 < 128 && role.Server? then Some(UnexpectedUnmaskedFrame)
        else if opcode.Close? && b1 % 128 == 1 then Some(InvalidPayloadLength)
        else if opcode.IsControl() && b1 % 128 > 125 then Some(InvalidPayloadLength)
        else None
  }

  /** The checks once the payload length is known; `at` is where the mask would start. */
  function Sized(maxLen: usize, fin: bool, opcode: OpCode, masked: bool, length: nat, at: nat, seen: nat): Head {
    if length > maxLen then Refused(PayloadTooLong(length, maxLen))
    else if masked && seen < at + 4 then Short
    else Head(fin, opcode, masked, length, if masked then at + 4 else at)
  }

  function ParseHead(cfg: Config, frag: OpCode, w: seq<byte>): (h: Head)
    ensures h.Head? ==> 2 <= h.offset <= |w| && (h.masked ==> 6 <= h.offset)
  {
    if |w| < 2 then Short
    else match Preamble(cfg.role, frag, w[0], w[1])
      case Some(e) => Refused(Protocol(e))
      case None =>
        var fin, opcode, masked, n := w[0] >= 128, OpCodeOf(w[0] % 16).value, w[1] >= 128, w[1] % 128;
        if n == 126 then
          if |w| < 4 then Short
          else if FromU16(w[2..4]) <= 125 then Refused(Protocol(InvalidPayloadLength))
          else Sized(cfg.maxLen, fin, opcode, masked, FromU16(w[2..4]), 4, |w|)
        else if n == 127 then
          if |w| < 10 then Short
          else if FromU64(w[2..10]) <= 0xFFFF then Refused(Protocol(InvalidPayloadLength))
          else Sized(cfg.maxLen, fin, opcode, masked, FromU64(w[2..10]), 10, |w|)
        else Sized(cfg.maxLen, fin, opcode, masked, n, 2, |w|)
  }

  /** Where the mask starts, or the payload if there is none. */
  function KeyAt(h: Head): nat
    requires h.Head? && (h.masked ==> 4 <= h.offset)
  {
    if h.masked then h.offset - 4 else h.offset
  }

  /** The header is read from the bytes before the mask only. */
  lemma HeadLocal(cfg: Config, frag: OpCode, w: seq<byte>, v: seq<byte>)
    requires ParseHead(cfg, frag, w).Head?
    requires var h := ParseHead(cfg, frag, w); |v| >= h.offset && v[..KeyAt(h)] == w[..KeyAt(h)]
    ensures ParseHead(cfg, frag, v) == ParseHead(cfg, frag, w)
  {
    var h := ParseHead(cfg, frag, w);
    var n := KeyAt(h);
    assert v[0] == v[..n][0] == w[0] && v[1] == v[..n][1] == w[1];
    if w[1] % 128 == 126 {
      assert v[2..4] == v[..n][2..4] == w[2..4];
    } else if w[1] % 128 == 127 {
      assert v[2..10] == v[..n][2..10] == w[2..10];
    }
  }

  /** Once the header is read or refused, more bytes do not change it. */
  lemma HeadExtends(cfg: Config, frag: OpCode, w: seq<byte>, x: seq<byte>)
    requires !ParseHead(cfg, frag, w).Short?
    ensures ParseHead(cfg, frag, w + x) == ParseHead(cfg, frag, w)
  {
    var v := w + x;
    assert v[0] == w[0] && v[1] == w[1];
    if |w| >= 4 { assert v[2..4] == w[2..4]; }
    if |w| >= 10 { assert v[2..10] == w[2..10]; }
  }

  // ---------------------------------------------------------------- frame

  predicate IsText(opcode: OpCode, frag: OpCode) { opcode.Text? || (opcode.Continuation? && frag.Text?) }

  datatype Parsed = More | Bad(error: Error) | Got(frame: Frame, used: nat, carry: Unfinished)

  function KeyOf(h: Head, w: seq<byte>): Key
    requires h.Head? && h.masked && 4 <= h.offset <= |w|
  {
    w[h.offset - 4..h.offset]
  }

  /** The first `n` payload bytes as the sender meant them. */
  function Plain(h: Head, w: seq<byte>, n: nat): (p: seq<byte>)
    requires h.Head? && h.offset + n <= |w| && (h.masked ==> 4 <= h.offset)
    ensures |p| == n
  {
    if h.masked then Masked(KeyOf(h, w), w[h.offset..h.offset + n])
    else w[h.offset..h.offset + n]
  }

  function Available(h: Head, w: seq<byte>): nat
    requires h.Head? && h.offset <= |w|
  {
    Min(|w| - h.offset, h.length)
  }

  function ParseBody(rx: Rx, h: Head, w: seq<byte>): Parsed
    requires h.Head? && h.offset <= |w| && (h.masked ==> 4 <= h.offset)
  {
    var seen := Available(h, w);
    var plain := Plain(h, w, seen);
    var frame := Frame(h.opcode, plain, h.fin);
    if h.length != 0 && IsText(h.opcode, rx.frag) then
      match Run(rx.carry, plain)
      case None => Bad(Protocol(InvalidUtf8))
      case Some(c) =>
        if seen < h.length then More
        else if h.fin && c != [] then Bad(Protocol(InvalidUtf8))
        else Got(frame, h.offset + h.length, c)
    else if seen < h.length then More
    else if h.opcode.Close? && CloseFault(plain).Some? then Bad(Protocol(CloseFault(plain).value))
    else Got(frame, h.offset + h.length, rx.carry)
  }

  function ParseFrame(cfg: Config, rx: Rx, w: seq<byte>): (p: Parsed)
    ensures p.Got? ==> 2 <= p.used <= |w|
  {
    match ParseHead(cfg, rx.frag, w)
    case Short => More
    case Refused(e) => Bad(e)
    case Head(_, _, _, _, _) => ParseBody(rx, ParseHead(cfg, rx.frag, w), w)
  }

  lemma PlainSplit(h: Head, w: seq<byte>, m: nat, n: nat)
    requires h.Head? && (h.masked ==> 4 <= h.offset) && m <= n && h.offset + n <= |w|
    ensures Plain(h, w, m) == Plain(h, w, n)[..m]
    ensures Plain(h, w, n) == Plain(h, w, m) + Plain(h, w, n)[m..]
  {
    var o := h.offset;
    assert w[o..o + m] == w[o..o + n][..m];
    if h.masked {
      MaskedPrefix(KeyOf(h, w), w[o..o + n], m);
    }
  }

  lemma PlainExtends(h: Head, w: seq<byte>, x: seq<byte>, n: nat)
    requires h.Head? && (h.masked ==> 4 <= h.offset) && h.offset + n <= |w|
    ensures Plain(h, w + x, n) == Plain(h, w, n)
  {
    var o := h.offset;
    assert (w + x)[o..o + n] == w[o..o + n];
    if h.masked {
      assert KeyOf(h, w + x) == KeyOf(h, w);
    }
  }

  /** A frame that is accepted or refused stays so, whatever arrives after. */
  lemma ParseExtends(cfg: Config, rx: Rx, w: seq<byte>, x: seq<byte>)
    requires !ParseFrame(cfg, rx, w).More?
    ensures ParseFrame(cfg, rx, w + x) == ParseFrame(cfg, rx, w)
  {
    HeadExtends(cfg, rx.frag, w, x);
    var h := ParseHead(cfg, rx.frag, w);
    if h.Head? {
      var m, n := Available(h, w), Available(h, w + x);
      PlainExtends(h, w, x, m);
      PlainSplit(h, w + x, m, n);
      var p := Plain(h, w + x, n);
      RunSplit(rx.carry, p[..m], p[m..]);
    }
  }

  // ---------------------------------------------------------------- printing

  function HeadBytes(f: Frame, masked: bool): (s: seq<byte>)
    requires |f.payload| < USIZE_END
    ensures |s| == if |f.payload| > 0xFFFF then 10 else if |f.payload| > 125 then 4 else 2
  {
    var b0 := (if f.fin then 128 else 0) + f.opcode.ToByte();
    var m := if masked then 128 else 0;
    var n := |f.payload|;
    if n > 0xFFFF then [b0, 127 + m] + U64(n)
    else if n > 125 then [b0, 126 + m] + U16(n)
    else [b0, n + m]
  }

  function EncodeFrame(f: Frame, mask: Option<Key>): (s: seq<byte>)
    requires |f.payload| < USIZE_END
    ensures |s| >= 2
  {
    match mask
    case None => HeadBytes(f, false) + f.payload
    case Some(k) => HeadBytes(f, true) + k + Masked(k, f.payload)
  }

  /** The frames a receiver in state `rx` accepts. */
  predicate Acceptable(cfg: Config, rx: Rx, f: Frame) {
    && |f.payload| <= cfg.maxLen
    && (if f.opcode.IsControl() then f.fin && |f.payload| <= 125
        else f.opcode.Continuation? != rx.frag.Continuation?)
    && (f.opcode.Close? ==> CloseOk(f.payload))
    && (IsText(f.opcode, rx.frag) && f.payload != [] ==>
          Run(rx.carry, f.payload).Some? && (f.fin ==> Run(rx.carry, f.payload).value == []))
  }

  function CarryAfter(rx: Rx, f: Frame): Unfinished
    requires IsText(f.opcode, rx.frag) ==> Run(rx.carry, f.payload).Some?
  {
    if IsText(f.opcode, rx.frag) then Run(rx.carry, f.payload).value else rx.carry
  }

  /** The server reads masked frames, the client unmasked ones (section 5.1 of RFC 6455). */
  predicate MaskFits(role: Role, mask: Option<Key>) { mask.Some? == role.Server? }

  lemma PreambleOfHead(cfg: Config, rx: Rx, f: Frame, masked: bool)
    requires Acceptable(cfg, rx, f) && masked == cfg.role.Server?
    ensures var s := HeadBytes(f, masked);
            && Preamble(cfg.role, rx.frag, s[0], s[1]).None?
            && (s[0] >= 128) == f.fin && OpCodeOf(s[0] % 16) == Some(f.opcode)
            && (s[1] >= 128) == masked
            && s[1] % 128 == if |f.payload| > 0xFFFF then 127 else if |f.payload| > 125 then 126 else |f.payload|
  {
    var s := HeadBytes(f, masked);
    FirstByteBits(f.fin, f.opcode);
    assert s[1] % 128 == if |f.payload| > 0xFFFF then 127 else if |f.payload| > 125 then 126 else |f.payload|;
    assert f.opcode.Close? ==> |f.payload| != 1;
  }

  lemma FirstByteBits(fin: bool, opcode: OpCode)
    ensures var b := (if fin then 128 else 0) + opcode.ToByte();
            b / 16 % 8 == 0 && b % 16 == opcode.ToByte() && (b >= 128) == fin && OpCodeOf(b % 16) == Some(opcode)
  {
    var b := (if fin then 128 else 0) + opcode.ToByte();
    var k: int := opcode.ToByte();
    assert b == k + (if fin then 128 else 0) && k < 16;
    assert b % 16 == k;
  }

  /** The header of a printed frame is read back. */
  lemma ParsePrintedHead(cfg: Config, rx: Rx, f: Frame, masked: bool, rest: seq<byte>)
    requires Acceptable(cfg, rx, f) && masked == cfg.role.Server? && (masked ==> |rest| >= 4)
    ensures var s := HeadBytes(f, masked);
            ParseHead(cfg, rx.frag, s + rest) ==
            Head(f.fin, f.opcode, masked, |f.payload|, if masked then |s| + 4 else |s|)
  {
    var s := HeadBytes(f, masked);
    var w := s + rest;
    var n := |f.payload|;
    PreambleOfHead(cfg, rx, f, masked);
    assert w[0] == s[0] && w[1] == s[1];
    if n > 0xFFFF {
      assert w[2..10] == U64(n);
      U64RoundTrip(n, []);
    } else if n > 125 {
      assert w[2..4] == U16(n);
      U16RoundTrip(n, []);
    }
  }

  /** A printed frame, whatever follows it, is parsed back to itself. */
  lemma ParsePrinted(cfg: Config, rx: Rx, f: Frame, mask: Option<Key>, rest: seq<byte>)
    requires Acceptable(cfg, rx, f) && MaskFits(cfg.role, mask)
    ensures ParseFrame(cfg, rx, EncodeFrame(f, mask) + rest) ==
            Got(f, |EncodeFrame(f, mask)|, CarryAfter(rx, f))
  {
    var s := HeadBytes(f, mask.Some?);
    var w := EncodeFrame(f, mask) + rest;
    var body := if mask.Some? then mask.value + Masked(mask.value, f.payload) + rest else f.payload + rest;
    assert w == s + body;
    ParsePrintedHead(cfg, rx, f, mask.Some?, body);
    var h := ParseHead(cfg, rx.frag, w);
    PlainOfPrinted(h, f, mask, rest);
    if f.payload == [] {
      assert Run(rx.carry, f.payload) == Some(rx.carry);
    }
  }

  lemma PlainOfPrinted(h: Head, f: Frame, mask: Option<Key>, rest: seq<byte>)
    requires |f.payload| < USIZE_END && h.Head? && h.masked == mask.Some? && h.length == |f.payload|
    requires h.offset == |HeadBytes(f, mask.Some?)| + if h.masked then 4 else 0
    ensures var w := EncodeFrame(f, mask) + rest;
            && h.offset + h.length == |EncodeFrame(f, mask)|
            && Available(h, w) == h.length && Plain(h, w, h.length) == f.payload
  {
    var w := EncodeFrame(f, mask) + rest;
    var o, n := h.offset, |f.payload|;
    if mask.Some? {
      MaskedTwice(mask.value, f.payload);
      assert KeyOf(h, w) == mask.value;
      assert w[o..o + n] == Masked(mask.value, f.payload);
    } else {
      assert w[o..o + n] == f.payload;
    }
  }

  /** A proper prefix of a printed frame is neither accepted nor refused. */
  lemma ParsePrintedPrefix(cfg: Config, rx: Rx, f: Frame, mask: Option<Key>, k: nat)
    requires Acceptable(cfg, rx, f) && MaskFits(cfg.role, mask) && k < |EncodeFrame(f, mask)|
    ensures ParseFrame(cfg, rx, EncodeFrame(f, mask)[..k]).More?
  {
    var s := EncodeFrame(f, mask);
    ParsePrinted(cfg, rx, f, mask, []);
    assert s + [] == s == s[..k] + s[k..];
    if !ParseFrame(cfg, rx, s[..k]).More? {
      ParseExtends(cfg, rx, s[..k], s[k..]);
    }
  }

  // ---------------------------------------------------------------- the parser accepts only printed frames

  /** The mask a parsed frame was sent with. */
  function MaskOf(cfg: Config, rx: Rx, w: seq<byte>): (mask: Option<Key>)
    requires ParseFrame(cfg, rx, w).Got?
  {
    var h := ParseHead(cfg, rx.frag, w);
    if h.masked then Some(KeyOf(h, w)) else None
  }

  lemma LowBits(b: byte, fin: bool, opcode: OpCode)
    requires b / 16 % 8 == 0 && OpCodeOf(b % 16) == Some(opcode) && fin == (b >= 128)
    ensures b == (if fin then 128 else 0) + opcode.ToByte()
  {
    assert b % 16 == opcode.ToByte();
    assert b / 16 == 0 || b / 16 == 8;
  }

  lemma ParsedLength(cfg: Config, frag: OpCode, w: seq<byte>)
    requires ParseHead(cfg, frag, w).Head?
    ensures var h := ParseHead(cfg, frag, w);
            var n := w[1] % 128;
            && h.length <= cfg.maxLen && h.masked == (w[1] >= 128) == cfg.role.Server?
            && h.fin == (w[0] >= 128) && OpCodeOf(w[0] % 16) == Some(h.opcode) && w[0] / 16 % 8 == 0
            && if n == 126 then KeyAt(h) == 4 && h.length == FromU16(w[2..4]) && 125 < h.length
               else if n == 127 then KeyAt(h) == 10 && h.length == FromU64(w[2..10]) && 0xFFFF < h.length
               else KeyAt(h) == 2 && h.length == n
  {
  }

  lemma ParsedHeadIsPrinted(cfg: Config, frag: OpCode, w: seq<byte>, f: Frame)
    requires var h := ParseHead(cfg, frag, w);
             h.Head? && h.length == |f.payload| && h.opcode == f.opcode && h.fin == f.fin
    ensures |f.payload| <= cfg.maxLen
    ensures var h := ParseHead(cfg, frag, w);
            h.masked == cfg.role.Server? && HeadBytes(f, h.masked) == w[..KeyAt(h)]
  {
    hide ParseHead;
    var h := ParseHead(cfg, frag, w);
    ParsedLength(cfg, frag, w);
    LowBits(w[0], h.fin, h.opcode);
    var n := w[1] % 128;
    if n == 126 {
      U16RoundTrip(0, w[2..4]);
      assert w[..4] == [w[0], w[1]] + w[2..4];
    } else if n == 127 {
      U64RoundTrip(0, w[2..10]);
      assert w[..10] == [w[0], w[1]] + w[2..10];
    } else {
      assert w[..2] == [w[0], w[1]];
    }
  }

  lemma ParsedIsAcceptable(cfg: Config, rx: Rx, w: seq<byte>)
    requires ParseFrame(cfg, rx, w).Got?
    ensures var p := ParseFrame(cfg, rx, w);
            var h := ParseHead(cfg, rx.frag, w);
            && h.Head? && h.length == |p.frame.payload| && h.opcode == p.frame.opcode && h.fin == p.frame.fin
            && p.used == h.offset + h.length && p.frame.payload == Plain(h, w, h.length)
            && Acceptable(cfg, rx, p.frame) && p.carry == CarryAfter(rx, p.frame)
  {
    var p := ParseFrame(cfg, rx, w);
    var h := ParseHead(cfg, rx.frag, w);
    assert Available(h, w) == h.length;
    if h.length == 0 {
      assert p.frame.payload == [];
      assert Run(rx.carry, p.frame.payload) == Some(rx.carry);
    }
  }

  /**
    What is consumed for a parsed frame is exactly the printed form of that frame, with the mask bit of
    the sender's role: in particular only the shortest length form is accepted.
   */
  lemma ParsedIsPrinted(cfg: Config, rx: Rx, w: seq<byte>)
    requires ParseFrame(cfg, rx, w).Got?
    ensures var p := ParseFrame(cfg, rx, w);
            var mask := MaskOf(cfg, rx, w);
            && MaskFits(cfg.role, mask)
            && Acceptable(cfg, rx, p.frame)
            && p.carry == CarryAfter(rx, p.frame)
            && w[..p.used] == EncodeFrame(p.frame, mask)
  {
    ParsedIsAcceptable(cfg, rx, w);
    var f := ParseFrame(cfg, rx, w).frame;
    var h := ParseHead(cfg, rx.frag, w);
    ParsedHeadIsPrinted(cfg, rx.frag, w, f);
    BodyIsPrinted(h, w, f);
  }

  lemma BodyIsPrinted(h: Head, w: seq<byte>, f: Frame)
    requires h.Head? && (h.masked ==> 4 <= h.offset) && h.offset + h.length <= |w|
    requires |f.payload| < USIZE_END && f.payload == Plain(h, w, h.length)
    requires HeadBytes(f, h.masked) == w[..KeyAt(h)]
    ensures EncodeFrame(f, if h.masked then Some(KeyOf(h, w)) else None) == w[..h.offset + h.length]
  {
    var o, n := h.offset, h.length;
    if h.masked {
      MaskedTwice(KeyOf(h, w), w[o..o + n]);
      assert w[..o + n] == w[..o - 4] + KeyOf(h, w) + w[o..o + n];
    } else {
      assert w[..o + n] == w[..o] + w[o..o + n];
    }
  }

  /** Parser and printer are inverse: a frame is accepted if and only if it is acceptable and printed there. */
  lemma ParseIffPrinted(cfg: Config, rx: Rx, w: seq<byte>, f: Frame, used: nat)
    ensures (ParseFrame(cfg, rx, w).Got? && ParseFrame(cfg, rx, w).frame == f && ParseFrame(cfg, rx, w).used == used)
            <==> (Acceptable(cfg, rx, f) && used <= |w| &&
                  exists mask: Option<Key> :: MaskFits(cfg.role, mask) && w[..used] == EncodeFrame(f, mask))
  {
    if ParseFrame(cfg, rx, w).Got? {
      ParsedIsPrinted(cfg, rx, w);
    }
    if Acceptable(cfg, rx, f) && used <= |w| {
      forall mask: Option<Key> | MaskFits(cfg.role, mask) && w[..used] == EncodeFrame(f, mask)
        ensures ParseFrame(cfg, rx, w) == Got(f, used, CarryAfter(rx, f))
      {
        assert w == w[..used] + w[used..];
        ParsePrinted(cfg, rx, f, mask, w[used..]);
      }
    }
  }
}
