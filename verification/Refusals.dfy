/**
  What the decoder refuses, with which error, and when it asks for more: the rules of sections 5.2 to 5.5 of RFC 6455
  on the bytes of a frame, each said for itself.  Of several broken rules the first in rank is answered.
 */
module Refusals {
  import opened Bytes
  import opened Mask
  import opened Utf8
  import opened Types
  import opened Wire

  // ---------------------------------------------------------------- the fields of a frame

  predicate Fin(w: seq<byte>)
    requires |w| >= 2
  {
    w[0] / 128 == 1
  }

  predicate MaskBit(w: seq<byte>)
    requires |w| >= 2
  {
    w[1] / 128 == 1
  }

  /** The size of the extended payload length. */
  function Extension(w: seq<byte>): nat
    requires |w| >= 2
  {
    if w[1] % 128 == 126 then 2 else if w[1] % 128 == 127 then 8 else 0
  }

  function PayloadAt(w: seq<byte>): nat
    requires |w| >= 2
  {
    2 + Extension(w) + if MaskBit(w) then 4 else 0
  }

  predicate LengthKnown(w: seq<byte>) { |w| >= 2 && |w| >= 2 + Extension(w) }

  /** The payload length the frame announces. */
  function Announced(w: seq<byte>): nat
    requires LengthKnown(w)
  {
    if Extension(w) == 0 then w[1] % 128 else BigEndian(w[2..2 + Extension(w)])
  }

  predicate Complete(w: seq<byte>) { LengthKnown(w) && |w| >= PayloadAt(w) + Announced(w) }

  /** The payload as far as it has arrived, unmasked. */
  function Arrived(w: seq<byte>): seq<byte>
    requires LengthKnown(w)
  {
    var at := PayloadAt(w);
    if |w| <= at then []
    else
      var body := w[at..Min(|w|, at + Announced(w))];
      if MaskBit(w) then Masked(w[at - 4..at], body) else body
  }

  // ---------------------------------------------------------------- the rules

  predicate KnownCode(code: int) { code <= 2 || 8 <= code <= 10 }

  /** The codes a close frame may carry (section 7.4 of RFC 6455). */
  predicate CodeAllowed(n: int) { 1000 <= n <= 1003 || 1007 <= n <= 1014 || 3000 <= n <= 4999 }

  /** A continuation without a message to continue, or a new data message inside another one. */
  predicate OutOfSequence(rx: Rx, code: int) {
    if rx.frag.Continuation? then code == 0 else 1 <= code <= 2
  }

  /** A length that would fit into a shorter field. */
  predicate Overlong(w: seq<byte>)
    requires LengthKnown(w)
  {
    (Extension(w) == 2 && Announced(w) <= 125) || (Extension(w) == 8 && Announced(w) <= 0xFFFF)
  }

  predicate BadLength(w: seq<byte>)
    requires |w| >= 2
  {
    if w[0] % 16 >= 8 then w[1] % 128 > 125 || (w[0] % 16 == 8 && w[1] % 128 == 1)
    else LengthKnown(w) && Overlong(w)
  }

  /** A close frame that has arrived with a code. */
  predicate WholeClose(w: seq<byte>) {
    Complete(w) && w[0] % 16 == 8 && Announced(w) >= 2
  }

  function CodeOf(w: seq<byte>): nat
    requires WholeClose(w)
  {
    BigEndian(Arrived(w)[..2])
  }

  /** The text of a message is lost: it cannot become valid, or is complete and not valid. */
  ghost predicate LosesText(rx: Rx, w: seq<byte>)
    requires LengthKnown(w)
  {
    var text := rx.carry + Arrived(w);
    && Announced(w) != 0 && (w[0] % 16 == 1 || (w[0] % 16 == 0 && rx.frag.Text?))
    && (!Extendable(text) || (Fin(w) && Complete(w) && !Valid(text)))
  }

  /** The frame that begins with these bytes breaks the rule behind an error. */
  ghost predicate Violates(cfg: Config, rx: Rx, w: seq<byte>, e: Error) {
    && |w| >= 2
    && match e
       case Protocol(p) =>
         (match p
          case InvalidRsv => w[0] / 16 % 8 != 0
          case InvalidOpcode => !KnownCode(w[0] % 16) || OutOfSequence(rx, w[0] % 16)
          case FragmentedControlFrame => 8 <= w[0] % 16 <= 10 && !Fin(w)
          case UnexpectedMaskedFrame => MaskBit(w) && cfg.role.Client?
          case UnexpectedUnmaskedFrame => !MaskBit(w) && cfg.role.Server?
          case InvalidPayloadLength => BadLength(w)
          case InvalidCloseCode => WholeClose(w) && !CodeAllowed(CodeOf(w))
          case InvalidUtf8 =>
            || (LengthKnown(w) && LosesText(rx, w))
            || (WholeClose(w) && CodeAllowed(CodeOf(w)) && !Valid(Arrived(w)[2..])))
       case PayloadTooLong(len, maxLen) =>
         LengthKnown(w) && len == Announced(w) && maxLen == cfg.maxLen && len > maxLen
       case _ => false
  }

  function Order(e: Error): nat {
    match e
    case Protocol(InvalidRsv) => 0
    case Protocol(InvalidOpcode) => 1
    case Protocol(FragmentedControlFrame) => 1
    case Protocol(UnexpectedMaskedFrame) => 2
    case Protocol(UnexpectedUnmaskedFrame) => 2
    case Protocol(InvalidPayloadLength) => 3
    case PayloadTooLong(_, _) => 4
    case _ => 5
  }

  /** The first of the broken rules. */
  ghost predicate FirstViolated(cfg: Config, rx: Rx, w: seq<byte>, e: Error) {
    Violates(cfg, rx, w, e) && forall d :: Violates(cfg, rx, w, d) ==> Order(e) <= Order(d)
  }

  ghost predicate Flawless(cfg: Config, rx: Rx, w: seq<byte>) { forall e :: !Violates(cfg, rx, w, e) }

  // ---------------------------------------------------------------- the header

  lemma AnnouncedIs(w: seq<byte>)
    requires LengthKnown(w)
    ensures Announced(w) == if Extension(w) == 2 then FromU16(w[2..4])
                            else if Extension(w) == 8 then FromU64(w[2..10]) else w[1] % 128
  {
    hide BigEndian;
    if Extension(w) == 2 {
      U16IsBigEndian(w[2..4]);
    } else if Extension(w) == 8 {
      U64IsBigEndian(w[2..10]);
    }
  }

  /** What the header's fields are for the parser. */
  lemma HeadFields(cfg: Config, frag: OpCode, w: seq<byte>)
    requires ParseHead(cfg, frag, w).Head?
    ensures var h := ParseHead(cfg, frag, w);
            && LengthKnown(w) && h.length == Announced(w) && h.offset == PayloadAt(w) <= |w|
            && h.masked == MaskBit(w) && h.fin == Fin(w) && h.opcode.ToByte() == w[0] % 16
            && (h.masked ==> 4 <= h.offset)
  {
    hide ParseHead, FromU16, FromU64;
    ParsedLength(cfg, frag, w);
    AnnouncedIs(w);
  }

  lemma HeadArrived(cfg: Config, frag: OpCode, w: seq<byte>)
    requires ParseHead(cfg, frag, w).Head?
    ensures var h := ParseHead(cfg, frag, w);
            LengthKnown(w) && (h.masked ==> 4 <= h.offset) && Plain(h, w, Available(h, w)) == Arrived(w)
  {
    hide ParseHead, Announced;
    HeadFields(cfg, frag, w);
    var h := ParseHead(cfg, frag, w);
    if |w| == PayloadAt(w) {
      assert Plain(h, w, Available(h, w)) == [];
    }
  }

  // ---------------------------------------------------------------- the first two bytes

  lemma PreambleBreaks(cfg: Config, rx: Rx, w: seq<byte>)
    requires |w| >= 2
    ensures var p := Preamble(cfg.role, rx.frag, w[0], w[1]);
            p.Some? ==> Violates(cfg, rx, w, Protocol(p.value)) && Order(Protocol(p.value)) <= 3
  {
  }

  predicate Before(e: Error, d: Error) { e == d || Order(e) < Order(d) }

  lemma PreambleFirst(cfg: Config, rx: Rx, w: seq<byte>, d: Error)
    requires |w| >= 2 && Violates(cfg, rx, w, d)
    ensures var p := Preamble(cfg.role, rx.frag, w[0], w[1]);
            if p.Some? then Before(Protocol(p.value), d)
            else Order(d) >= 3 && (Order(d) == 3 ==> LengthKnown(w) && Overlong(w) && w[0] % 16 < 8)
  {
    hide LosesText, WholeClose, CodeOf, Arrived, Announced;
  }

  // ---------------------------------------------------------------- the length

  predicate PreambleOk(cfg: Config, rx: Rx, w: seq<byte>) {
    |w| >= 2 && Preamble(cfg.role, rx.frag, w[0], w[1]).None?
  }

  /** The header after its first two bytes, told by the fields. */
  lemma HeadIs(cfg: Config, rx: Rx, w: seq<byte>)
    requires PreambleOk(cfg, rx, w)
    ensures var h := ParseHead(cfg, rx.frag, w);
            if !LengthKnown(w) then h.Short?
            else if Overlong(w) then h == Refused(Protocol(InvalidPayloadLength))
            else if Announced(w) > cfg.maxLen then h == Refused(PayloadTooLong(Announced(w), cfg.maxLen))
            else if |w| < PayloadAt(w) then h.Short?
            else h.Head?
  {
    hide Preamble, FromU16, FromU64, BigEndian;
    if LengthKnown(w) {
      AnnouncedIs(w);
    }
  }

  lemma DataIsOverlong(cfg: Config, rx: Rx, w: seq<byte>)
    requires PreambleOk(cfg, rx, w) && LengthKnown(w) && Overlong(w)
    ensures w[0] % 16 < 8
  {
    hide Announced;
  }

  // ---------------------------------------------------------------- the payload

  lemma CarryAlive(rx: Rx, p: seq<byte>)
    ensures Run(rx.carry, p).None? <==> !Extendable(rx.carry + p)
    ensures Run(rx.carry, p) == Some([]) <==> Valid(rx.carry + p)
  {
    RunPartial(rx.carry);
    RunSplit([], rx.carry, p);
    ExtendableIffAlive(rx.carry + p);
    ValidIffAccepted(rx.carry + p);
  }

  /** Before the payload begins no text is lost. */
  lemma NothingArrived(rx: Rx, w: seq<byte>)
    requires LengthKnown(w) && |w| < PayloadAt(w)
    ensures !LosesText(rx, w) && !WholeClose(w)
  {
    hide Announced, Run, Extendable, Valid;
    assert Run(rx.carry, []) == Some(rx.carry) by { RunNothing(rx.carry); }
    CarryAlive(rx, []);
  }

  lemma RunNothing(c: seq<byte>)
    requires Carry(c)
    ensures Run(c, []) == Some(c)
  {
  }

  lemma CloseFaultIs(p: seq<byte>)
    requires |p| != 1
    ensures CloseFault(p) == if p == [] then None
                             else if !CodeAllowed(BigEndian(p[..2])) then Some(InvalidCloseCode)
                             else if !BasicOk(p[2..]) then Some(InvalidUtf8) else None
  {
    if p != [] {
      U16IsBigEndian(p[..2]);
    }
  }

  lemma CloseLength(cfg: Config, rx: Rx, w: seq<byte>)
    requires ParseHead(cfg, rx.frag, w).Head? && w[0] % 16 == 8
    ensures Announced(w) != 1
  {
    hide BigEndian;
  }

  /** The payload's faults, told by the fields. */
  lemma BodyIs(cfg: Config, rx: Rx, w: seq<byte>)
    requires ParseHead(cfg, rx.frag, w).Head?
    ensures LengthKnown(w)
    ensures var p := ParseFrame(cfg, rx, w);
            if LosesText(rx, w) then p == Bad(Protocol(InvalidUtf8))
            else if WholeClose(w) && !CodeAllowed(CodeOf(w)) then p == Bad(Protocol(InvalidCloseCode))
            else if WholeClose(w) && !Valid(Arrived(w)[2..]) then p == Bad(Protocol(InvalidUtf8))
            else if Complete(w) then p.Got? else p.More?
  {
    hide ParseHead, Announced, BigEndian, Run, Extendable, Valid, CloseFault, Plain;
    HeadFields(cfg, rx.frag, w);
    HeadArrived(cfg, rx.frag, w);
    var h := ParseHead(cfg, rx.frag, w);
    var p := Arrived(w);
    CarryAlive(rx, p);
    if w[0] % 16 == 8 && Complete(w) {
      CloseLength(cfg, rx, w);
      CloseFaultIs(p);
      if p != [] {
        ValidIffAccepted(p[2..]);
      }
    }
  }

  // ---------------------------------------------------------------- what is answered

  lemma BadBreaks(cfg: Config, rx: Rx, w: seq<byte>)
    requires ParseFrame(cfg, rx, w).Bad?
    ensures Violates(cfg, rx, w, ParseFrame(cfg, rx, w).error)
  {
    hide Preamble, ParseBody, Announced, LosesText, WholeClose, Arrived, CodeOf, Valid;
    PreambleBreaks(cfg, rx, w);
    if PreambleOk(cfg, rx, w) {
      HeadIs(cfg, rx, w);
      var h := ParseHead(cfg, rx.frag, w);
      if h.Head? {
        BodyIs(cfg, rx, w);
      } else if Overlong(w) {
        DataIsOverlong(cfg, rx, w);
      }
    }
  }

  lemma TextIsNoClose(rx: Rx, w: seq<byte>)
    requires LengthKnown(w) && LosesText(rx, w)
    ensures !WholeClose(w)
  {
    hide Announced, Arrived;
  }

  lemma BreakIsBad(cfg: Config, rx: Rx, w: seq<byte>, d: Error)
    requires Violates(cfg, rx, w, d)
    ensures ParseFrame(cfg, rx, w).Bad? && Before(ParseFrame(cfg, rx, w).error, d)
  {
    hide Preamble, ParseBody, Announced, LosesText, Arrived, CodeOf, Valid;
    PreambleFirst(cfg, rx, w, d);
    if PreambleOk(cfg, rx, w) {
      HeadIs(cfg, rx, w);
      if ParseHead(cfg, rx.frag, w).Head? {
        BodyIs(cfg, rx, w);
        if LosesText(rx, w) {
          TextIsNoClose(rx, w);
        }
      } else if LengthKnown(w) && |w| < PayloadAt(w) {
        NothingArrived(rx, w);
      }
    }
  }

  /** A frame is refused with an error exactly when that is the first of the rules its bytes break. */
  lemma RefusedIff(cfg: Config, rx: Rx, w: seq<byte>, e: Error)
    ensures ParseFrame(cfg, rx, w) == Bad(e) <==> FirstViolated(cfg, rx, w, e)
  {
    hide ParseFrame, Violates;
    if ParseFrame(cfg, rx, w) == Bad(e) {
      BadBreaks(cfg, rx, w);
      forall d | Violates(cfg, rx, w, d) ensures Order(e) <= Order(d) {
        BreakIsBad(cfg, rx, w, d);
      }
    }
    if FirstViolated(cfg, rx, w, e) {
      BreakIsBad(cfg, rx, w, e);
      BadBreaks(cfg, rx, w);
    }
  }

  /** More is asked for exactly while the bytes break no rule and are not the whole frame. */
  lemma WaitsIff(cfg: Config, rx: Rx, w: seq<byte>)
    ensures ParseFrame(cfg, rx, w).More? <==> Flawless(cfg, rx, w) && !Complete(w)
    ensures ParseFrame(cfg, rx, w).Got? <==> Flawless(cfg, rx, w) && Complete(w)
  {
    hide ParseFrame, Violates, Complete;
    if ParseFrame(cfg, rx, w).Bad? {
      BadBreaks(cfg, rx, w);
    } else {
      forall d ensures !Violates(cfg, rx, w, d) {
        if Violates(cfg, rx, w, d) {
          BreakIsBad(cfg, rx, w, d);
        }
      }
      NotBad(cfg, rx, w);
    }
  }

  lemma NotBad(cfg: Config, rx: Rx, w: seq<byte>)
    requires !ParseFrame(cfg, rx, w).Bad?
    ensures ParseFrame(cfg, rx, w).Got? <==> Complete(w)
  {
    hide Preamble, ParseBody, Announced, LosesText, Arrived, CodeOf, Valid;
    if PreambleOk(cfg, rx, w) {
      HeadIs(cfg, rx, w);
      if ParseHead(cfg, rx.frag, w).Head? {
        BodyIs(cfg, rx, w);
      }
    }
  }

  // ---------------------------------------------------------------- printed headers

  /** The fields of a printed header; the length is in the shortest form. */
  lemma PrintedFields(f: Frame, masked: bool, w: seq<byte>)
    requires |f.payload| < USIZE_END && HeadBytes(f, masked) <= w
    ensures LengthKnown(w) && Announced(w) == |f.payload| && !Overlong(w)
    ensures Fin(w) == f.fin && MaskBit(w) == masked && w[0] / 16 % 8 == 0 && w[0] % 16 == f.opcode.ToByte()
    ensures |f.payload| <= 125 ==> w[1] % 128 == |f.payload|
  {
    hide BigEndian, FromU16, FromU64, U16, U64;
    var s, n := HeadBytes(f, masked), |f.payload|;
    FirstByteBits(f.fin, f.opcode);
    assert w[0] == s[0] && w[1] == s[1];
    if n > 0xFFFF {
      assert w[2..10] == s[2..10] == U64(n);
      U64RoundTrip(n, []);
    } else if n > 125 {
      assert w[2..4] == s[2..4] == U16(n);
      U16RoundTrip(n, []);
    }
    AnnouncedIs(w);
  }

  /** A frame that could come next, but for the size of its payload. */
  predicate WellPlaced(rx: Rx, f: Frame) {
    && |f.payload| < USIZE_END
    && (f.opcode.Close? ==> |f.payload| != 1)
    && if f.opcode.IsControl() then f.fin && |f.payload| <= 125 else f.opcode.Continuation? != rx.frag.Continuation?
  }

  /** It is refused as soon as its header has arrived, if the payload exceeds the limit. */
  lemma PrintedTooLong(cfg: Config, rx: Rx, f: Frame, w: seq<byte>)
    requires WellPlaced(rx, f) && |f.payload| > cfg.maxLen && HeadBytes(f, cfg.role.Server?) <= w
    ensures ParseFrame(cfg, rx, w) == Bad(PayloadTooLong(|f.payload|, cfg.maxLen))
  {
    hide ParseFrame, HeadBytes, Announced, Overlong, LosesText, WholeClose, CodeOf, Arrived, Valid;
    PrintedFields(f, cfg.role.Server?, w);
    var e := PayloadTooLong(|f.payload|, cfg.maxLen);
    assert Violates(cfg, rx, w, e);
    forall d | Violates(cfg, rx, w, d) ensures Order(e) <= Order(d) {
    }
    RefusedIff(cfg, rx, w, e);
  }
}
