/**
  Opcodes, close codes, messages, frames and errors (src/proto/types.rs, src/proto/error.rs).
 */
module Types {
  import opened Bytes
  import Utf8

  datatype OpCode = Continuation | Text | Binary | Close | Ping | Pong
  {
    predicate IsControl() { Close? || Ping? || Pong? }

    function ToByte(): byte {
      match this
      case Continuation => 0
      case Text => 1
      case Binary => 2
      case Close => 8
      case Ping => 9
      case Pong => 10
    }
  }

  function OpCodeOf(b: int): (r: Option<OpCode>)
    ensures forall op: OpCode :: r == Some(op) <==> b == op.ToByte()
  {
    match b
    case 0 => Some(Continuation)
    case 1 => Some(Text)
    case 2 => Some(Binary)
    case 8 => Some(Close)
    case 9 => Some(Ping)
    case 10 => Some(Pong)
    case _ => None
  }

  /** The codes of control frames have the top bit set (section 5.5 of RFC 6455). */
  lemma ControlBit(op: OpCode)
    ensures op.IsControl() <==> op.ToByte() / 8 == 1
  {
  }

  datatype Role = Client | Server
  {
    function Opposite(): Role { if Client? then Server else Client }
  }

  datatype ProtocolError =
    | FragmentedControlFrame
    | InvalidCloseCode
    | InvalidOpcode
    | InvalidPayloadLength
    | InvalidRsv
    | InvalidUtf8
    | UnexpectedMaskedFrame
    | UnexpectedUnmaskedFrame

  datatype Error = Protocol(error: ProtocolError) | PayloadTooLong(len: nat, maxLen: nat) | Io | AlreadyClosed

  // ---------------------------------------------------------------- close codes

  predicate IsCloseCode(n: int) { 1000 <= n <= 1015 || 3000 <= n <= 4999 }

  type CloseCode = n: int | IsCloseCode(n) witness 1000

  predicate IsReserved(c: CloseCode) { c == 1004 || c == 1005 || c == 1006 || c == 1015 }

  const NORMAL_CLOSURE: CloseCode := 1000
  const PROTOCOL_ERROR: CloseCode := 1002
  const NO_STATUS_RECEIVED: CloseCode := 1005
  const INVALID_FRAME_PAYLOAD_DATA: CloseCode := 1007
  const MESSAGE_TOO_BIG: CloseCode := 1009

  // ---------------------------------------------------------------- frames and messages

  datatype Frame = Frame(opcode: OpCode, payload: seq<byte>, fin: bool)

  datatype Message = Message(opcode: OpCode, payload: seq<byte>)
  {
    function IntoFrame(): Frame { Frame(opcode, payload, true) }
  }

  /** Why a close payload is refused, if it is (section 5.5.1 of RFC 6455). */
  function CloseFault(p: seq<byte>): Option<ProtocolError> {
    if p == [] then None
    else if |p| == 1 then Some(InvalidPayloadLength)
    else
      var code := FromU16(p[..2]);
      if !IsCloseCode(code) || IsReserved(code) then Some(InvalidCloseCode)
      else if !Utf8.BasicOk(p[2..]) then Some(InvalidUtf8)
      else None
  }

  predicate CloseOk(p: seq<byte>) { CloseFault(p).None? }

  /** What the constructors of `Message` let through (text need not be valid UTF-8). */
  predicate Constructible(m: Message) {
    && |m.payload| < USIZE_END
    && !m.opcode.Continuation?
    && (m.opcode.IsControl() ==> |m.payload| <= 125)
    && (m.opcode.Close? ==> CloseOk(m.payload))
  }

  /** `Message::close`; the preconditions are its documented panics and the type of `reason`. */
  function CloseMessage(code: Option<CloseCode>, reason: seq<byte>): (m: Message)
    requires code.Some? ==> !IsReserved(code.value) && |reason| <= 123
    requires Utf8.BasicOk(reason)
    ensures Constructible(m) && m.opcode.Close?
  {
    match code
    case None => Message(Close, [])
    case Some(c) =>
      var p := U16(c) + reason;
      U16RoundTrip(c, []);
      assert p[..2] == U16(c) && p[2..] == reason;
      Message(Close, p)
  }

  /** `Message::as_close`: reads unchecked, so the payload has to be a good one. */
  function AsClose(m: Message): Option<(CloseCode, seq<byte>)>
    requires m.opcode.Close? ==> CloseOk(m.payload)
  {
    if !m.opcode.Close? then None
    else if m.payload == [] then Some((NO_STATUS_RECEIVED, []))
    else Some((FromU16(m.payload[..2]), m.payload[2..]))
  }

  /** Reading a close message gives back what it was made from; without a code the reason is not sent. */
  lemma AsCloseRoundTrip(code: Option<CloseCode>, reason: seq<byte>)
    requires code.Some? ==> !IsReserved(code.value) && |reason| <= 123
    requires Utf8.BasicOk(reason)
    ensures AsClose(CloseMessage(code, reason)) ==
            Some(if code.Some? then (code.value, reason) else (NO_STATUS_RECEIVED, []))
  {
    if code.Some? {
      var p := U16(code.value) + reason;
      U16RoundTrip(code.value, []);
      assert p[..2] == U16(code.value) && p[2..] == reason;
    }
  }

  // ---------------------------------------------------------------- close messages the endpoint makes itself

  /** The bytes of a string literal; all literals used here are ASCII. */
  function Ascii(s: string): (r: seq<byte>)
    ensures |r| == |s| && Utf8.BasicOk(r)
  {
    var r: seq<byte> := seq(|s|, i requires 0 <= i < |s| => if s[i] < 128 as char then s[i] as int else 63);
    Utf8.AsciiIsValid(r);
    r
  }

  function ErrorText(e: ProtocolError): (s: string)
    ensures |s| <= 25
  {
    match e
    case FragmentedControlFrame => "fragmented control frame"
    case InvalidCloseCode => "invalid close code"
    case InvalidOpcode => "invalid opcode"
    case InvalidPayloadLength => "invalid payload length"
    case InvalidRsv => "invalid extension"
    case InvalidUtf8 => "invalid utf-8"
    case UnexpectedMaskedFrame => "unexpected masked frame"
    case UnexpectedUnmaskedFrame => "unexpected unmasked frame"
  }

  function Digit(d: nat): char
    requires d < 10
  {
    "0123456789"[d]
  }

  function Decimal(n: nat): string {
    if n < 10 then [Digit(n)] else Decimal(n / 10) + [Digit(n % 10)]
  }

  function Pow10(k: nat): nat { if k == 0 then 1 else 10 * Pow10(k - 1) }

  /** The number a string of digits stands for. */
  function Value(s: string): int {
    if s == "" then 0 else 10 * Value(s[..|s| - 1]) + (s[|s| - 1] as int - '0' as int)
  }

  lemma {:induction false} DecimalValue(n: nat)
    ensures Value(Decimal(n)) == n
  {
    var d := Decimal(n);
    if n < 10 {
      assert d[..0] == "";
    } else {
      DecimalValue(n / 10);
      assert d[..|d| - 1] == Decimal(n / 10);
    }
  }

  lemma {:induction false} DecimalFits(n: nat, k: nat)
    requires k >= 1 && n < Pow10(k)
    ensures |Decimal(n)| <= k
  {
    if n >= 10 {
      assert Pow10(1) == 10;
      DecimalFits(n / 10, k - 1);
    }
  }

  lemma UsizeFits(n: nat)
    requires n < USIZE_END
    ensures |Decimal(n)| <= 20
  {
    assert Pow10(5) == 100_000;
    assert Pow10(10) == 10_000_000_000;
    assert Pow10(15) == 1_000_000_000_000_000;
    assert Pow10(20) == 100_000_000_000_000_000_000;
    DecimalFits(n, 20);
  }

  function TooLongText(maxLen: nat): (s: string)
    requires maxLen < USIZE_END
    ensures |s| <= 32
  {
    UsizeFits(maxLen);
    "max length: " + Decimal(maxLen)
  }

  /** The close message that answers an error of the decoder. */
  function ErrorClose(e: Error): (m: Message)
    requires e.Protocol? || (e.PayloadTooLong? && e.maxLen < USIZE_END)
    ensures Constructible(m) && m.opcode.Close?
  {
    match e
    case Protocol(InvalidUtf8) => CloseMessage(Some(INVALID_FRAME_PAYLOAD_DATA), Ascii("invalid utf8"))
    case Protocol(p) => CloseMessage(Some(PROTOCOL_ERROR), Ascii(ErrorText(p)))
    case PayloadTooLong(_, maxLen) => CloseMessage(Some(MESSAGE_TOO_BIG), Ascii(TooLongText(maxLen)))
  }

  /** `Frame::DEFAULT_CLOSE` */
  function DefaultClose(): (m: Message)
    ensures Constructible(m) && m.opcode.Close?
  {
    CloseMessage(Some(NORMAL_CLOSURE), [])
  }

  /** The echo of a received close: its payload cut to the code. */
  function CloseEcho(p: seq<byte>): (m: Message)
    requires CloseOk(p)
    ensures Constructible(m) && m.opcode.Close?
  {
    var q := p[..Min(2, |p|)];
    if q != [] then
      assert q[..2] == p[..2] && q[2..] == [];
      Message(Close, q)
    else Message(Close, q)
  }

  /** What a peer reads from the close messages an endpoint makes itself: a code and a reason. */
  function ErrorCode(e: Error): CloseCode {
    match e
    case Protocol(InvalidUtf8) => 1007
    case PayloadTooLong(_, _) => 1009
    case _ => 1002
  }

  function ErrorReason(e: Error): seq<byte>
    requires e.Protocol? || (e.PayloadTooLong? && e.maxLen < USIZE_END)
  {
    match e
    case Protocol(InvalidUtf8) => Ascii("invalid utf8")
    case Protocol(p) => Ascii(ErrorText(p))
    case PayloadTooLong(_, maxLen) => Ascii(TooLongText(maxLen))
  }

  lemma ErrorCloseNames(e: Error)
    requires e.Protocol? || (e.PayloadTooLong? && e.maxLen < USIZE_END)
    ensures AsClose(ErrorClose(e)) == Some((ErrorCode(e), ErrorReason(e)))
    ensures ErrorReason(e) != [] && Utf8.Valid(ErrorReason(e))
    ensures AsClose(DefaultClose()) == Some((1000, []))
  {
    AsCloseRoundTrip(Some(ErrorCode(e)), ErrorReason(e));
    AsCloseRoundTrip(Some(NORMAL_CLOSURE), []);
    Utf8.ValidIffAccepted(ErrorReason(e));
  }

  /** The echo names the code that was received, and gives no reason. */
  lemma EchoKeepsCode(p: seq<byte>)
    requires CloseOk(p)
    ensures AsClose(CloseEcho(p)) == Some((AsClose(Message(Close, p)).value.0, []))
  {
    if p != [] {
      assert p[..2][..2] == p[..2] && p[..2][2..] == [];
    }
  }
}
