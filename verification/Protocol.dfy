/**
  `WebSocketProtocol` (src/proto/codec.rs), the object whose `decode` works in place on the receive buffer.
 */
module Protocol {
  import opened Bytes
  import opened Mask
  import opened Types
  import opened Wire
  import opened Codec
  import opened Validation

  /** `BytesMut` */
  class Buffer {
    var data: seq<byte>

    constructor ()
      ensures data == []
    {
      data := [];
    }
  }

  datatype Decoded = Nothing | Decoded(frame: Frame) | Failed(error: Error)

  class WebSocketProtocol {
    const cfg: Config
    const validator: Validator
    var fragmentedMessageOpcode: OpCode
    var payloadProcessed: nat

    ghost predicate Valid()
      reads this, validator, validator.partial
    {
      validator.Valid()
    }

    ghost function View(): State
      requires Valid()
      reads this, validator, validator.partial
    {
      State(fragmentedMessageOpcode, payloadProcessed, validator.Carried())
    }

    constructor (cfg: Config)
      ensures Valid() && this.cfg == cfg && View() == State(Continuation, 0, [])
      ensures fresh(validator) && fresh(validator.partial)
    {
      this.cfg := cfg;
      validator := new Validator();
      fragmentedMessageOpcode := Continuation;
      payloadProcessed := 0;
    }

    method TakeMessageOpcode() returns (opcode: OpCode)
      requires Valid()
      modifies this
      ensures Valid() && opcode == old(View()).frag && View() == old(View()).(frag := Continuation)
    {
      opcode := fragmentedMessageOpcode;
      fragmentedMessageOpcode := Continuation;
    }

    /** The header part of `decode`, with its early returns. */
    method ReadHead(src: seq<byte>) returns (h: Head)
      ensures h == ParseHead(cfg, fragmentedMessageOpcode, src)
    {
      if |src| < 2 {
        return Short;
      }
      var fin := src[0] / 128 != 0;
      if src[0] / 16 % 8 != 0 {
        return Refused(Protocol(InvalidRsv));
      }
      var code := OpCodeOf(src[0] % 16);
      if code.None? {
        return Refused(Protocol(InvalidOpcode));
      }
      var opcode := code.value;
      if opcode.IsControl() {
        if !fin {
          return Refused(Protocol(FragmentedControlFrame));
        }
      } else if fragmentedMessageOpcode == Continuation {
        if opcode == Continuation {
          return Refused(Protocol(InvalidOpcode));
        }
      } else if opcode != Continuation {
        return Refused(Protocol(InvalidOpcode));
      }
      var masked := src[1] / 128 != 0;
      if masked && cfg.role == Client {
        return Refused(Protocol(UnexpectedMaskedFrame));
      } else if !masked && cfg.role == Server {
        return Refused(Protocol(UnexpectedUnmaskedFrame));
      }
      var length := src[1] % 128;
      var offset := 2;
      if opcode == Close && length == 1 {
        return Refused(Protocol(InvalidPayloadLength));
      } else if length > 125 {
        if opcode.IsControl() {
          return Refused(Protocol(InvalidPayloadLength));
        }
        if length == 126 {
          if |src| < 4 {
            return Short;
          }
          length := FromU16(src[2..4]);
          if length <= 125 {
            return Refused(Protocol(InvalidPayloadLength));
          }
          offset := 4;
        } else {
          if |src| < 10 {
            return Short;
          }
          length := FromU64(src[2..10]);
          if length <= 0xFFFF {
            return Refused(Protocol(InvalidPayloadLength));
          }
          offset := 10;
        }
      }
      if length > cfg.maxLen {
        return Refused(PayloadTooLong(length, cfg.maxLen));
      }
      if masked {
        offset := offset + 4;
        if |src| < offset {
          return Short;
        }
      }
      h := Head(fin, opcode, masked, length, offset);
    }

    /** The masking step of `decode`: key and payload lie next to each other in the buffer. */
    method UnmaskInPlace(src: Buffer, offset: nat, seen: nat)
      requires 4 <= offset && payloadProcessed <= seen && offset + seen <= |src.data|
      modifies src
      ensures src.data == InPlace(offset, old(src.data), payloadProcessed, seen)
    {
      var d, m := src.data, payloadProcessed;
      var key, plain := FrameBytes(d[offset - 4..offset], d[offset + m..offset + seen]);
      src.data := d[..offset - 4] + key + (d[offset..offset + m] + plain) + d[offset + seen..];
    }

    method Decode(src: Buffer) returns (r: Decoded)
      requires Valid() && Resumable(cfg, View(), src.data)
      modifies this, validator, validator.partial, src
      ensures Valid()
      ensures match Codec.Decode(cfg, old(View()), old(src.data))
              case NeedMore(st, rest) => r == Nothing && View() == st && src.data == rest
              case Item(frame, st, rest) => r == Decoded(frame) && View() == st && src.data == rest
              case Fault(e, st, rest) => r == Failed(e) && View() == st && src.data == rest
    {
      ghost var st, d := View(), src.data;
      var h := ReadHead(src.data);
      match h {
        case Short => r := Nothing;
        case Refused(e) => r := Failed(e);
        case Head(fin, opcode, masked, length, offset) =>
          if length == 0 {
            r := Take(src, h);
          } else {
            var isText := opcode == Text || (opcode == Continuation && fragmentedMessageOpcode == Text);
            var available := Min(|src.data| - offset, length);
            var isComplete := available == length;
            if masked && (isComplete || isText) {
              UnmaskInPlace(src, offset, available);
            }
            assert Codec.Decode(cfg, st, d) == DecodeUnmasked(st, h, src.data, available);
            r := DecodePayload(src, h, isText, available);
          }
      }
    }

    /** Validation, completeness and the close payload. */
    method DecodePayload(src: Buffer, h: Head, isText: bool, available: nat) returns (r: Decoded)
      requires Valid() && h.Head? && payloadProcessed <= available <= h.length && h.offset + available <= |src.data|
      requires isText == IsText(h.opcode, fragmentedMessageOpcode)
      modifies this, validator, validator.partial, src
      ensures Valid()
      ensures match DecodeUnmasked(old(View()), h, old(src.data), available)
              case NeedMore(st, rest) => r == Nothing && View() == st && src.data == rest
              case Item(frame, st, rest) => r == Decoded(frame) && View() == st && src.data == rest
              case Fault(e, st, rest) => r == Failed(e) && View() == st && src.data == rest
    {
      var isComplete := available == h.length;
      if isText {
        var ok := validator.Feed(src.data[h.offset + payloadProcessed..h.offset + available], isComplete && h.fin);
        if !ok {
          return Failed(Protocol(InvalidUtf8));
        }
        payloadProcessed := available;
      }
      if !isComplete {
        return Nothing;
      }
      if h.opcode == Close {
        var fault := CloseFault(src.data[h.offset..h.offset + h.length]);
        if fault.Some? {
          return Failed(Protocol(fault.value));
        }
      }
      r := Take(src, h);
    }

    /** Consumes the frame. */
    method Take(src: Buffer, h: Head) returns (r: Decoded)
      requires Valid() && h.Head? && h.offset + h.length <= |src.data|
      modifies this, src
      ensures Valid()
      ensures var s := Finish(old(View()), h, old(src.data));
              r == Decoded(s.frame) && View() == s.st && src.data == s.src
    {
      src.data := src.data[h.offset..];
      var payload := src.data[..h.length];
      src.data := src.data[h.length..];
      assert payload == old(src.data)[h.offset..h.offset + h.length];
      assert src.data == old(src.data)[h.offset + h.length..];
      if !h.fin && h.opcode != Continuation {
        fragmentedMessageOpcode := h.opcode;
      }
      payloadProcessed := 0;
      r := Decoded(Frame(h.opcode, payload, h.fin));
    }
  }
}
