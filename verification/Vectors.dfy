/**
  Examples of section 5.7 of RFC 6455 and code points of section 7 of RFC 3629: the printer and the encoder give the
  bytes the standards print.
 */
module Vectors {
  import opened Bytes
  import opened Mask
  import opened Types
  import opened Wire

  const HELLO: seq<byte> := [0x48, 0x65, 0x6C, 0x6C, 0x6F]

  const EXAMPLE_KEY: Key := [0x37, 0xFA, 0x21, 0x3D]

  function MaskedHello(): seq<byte> { EXAMPLE_KEY + Masked(EXAMPLE_KEY, HELLO) }

  /** Text in one frame, unmasked and masked. */
  lemma TextExamples()
    ensures EncodeFrame(Frame(Text, HELLO, true), None) == [0x81, 0x05] + HELLO
    ensures EncodeFrame(Frame(Text, HELLO, true), Some(EXAMPLE_KEY)) == [0x81, 0x85] + MaskedHello()
  {
    hide Masked;
  }

  /** Text in two fragments. */
  lemma FragmentExamples()
    ensures EncodeFrame(Frame(Text, HELLO[..3], false), None) == [0x01, 0x03, 0x48, 0x65, 0x6C]
    ensures EncodeFrame(Frame(Continuation, HELLO[3..], true), None) == [0x80, 0x02, 0x6C, 0x6F]
  {
  }

  /** A ping, and the pong of a client that answers it; a close without a payload. */
  lemma ControlExamples()
    ensures EncodeFrame(Frame(Ping, HELLO, true), None) == [0x89, 0x05] + HELLO
    ensures EncodeFrame(Frame(Pong, HELLO, true), Some(EXAMPLE_KEY)) == [0x8A, 0x85] + MaskedHello()
    ensures EncodeFrame(Frame(Close, [], true), None) == [0x88, 0x00]
  {
    hide Masked;
  }

  /** 256 bytes and 64 KiB of binary data. */
  lemma BinaryExamples(data: seq<byte>)
    ensures |data| == 256 ==> EncodeFrame(Frame(Binary, data, true), None) == [0x82, 0x7E, 0x01, 0x00] + data
    ensures |data| == 65536 ==>
              EncodeFrame(Frame(Binary, data, true), None) == [0x82, 0x7F, 0, 0, 0, 0, 0, 1, 0, 0] + data
  {
  }

  /** U+2262, U+0391, U+D55C, U+233B4, U+FEFF. */
  lemma EncodingExamples()
    ensures Utf8.EncodeScalar(0x41) == [0x41]
    ensures Utf8.EncodeScalar(0x2262) == [0xE2, 0x89, 0xA2]
    ensures Utf8.EncodeScalar(0x0391) == [0xCE, 0x91]
    ensures Utf8.EncodeScalar(0xD55C) == [0xED, 0x95, 0x9C]
    ensures Utf8.EncodeScalar(0x233B4) == [0xF0, 0xA3, 0x8E, 0xB4]
    ensures Utf8.EncodeScalar(0xFEFF) == [0xEF, 0xBB, 0xBF]
  {
  }
}
