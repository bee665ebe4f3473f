/**
  UTF-8: what it is (RFC 3629), an automaton that recognises it, and the two library scans
  that src/utf8.rs builds on.
 */
module Utf8 {
  import opened Bytes

  // ---------------------------------------------------------------- the encoding (section 3 of RFC 3629)

  type Scalar = c: int | 0 <= c <= 0x10FFFF && !(0xD800 <= c <= 0xDFFF)

  function EncodeScalar(c: Scalar): seq<byte> {
    if c < 0x80 then [c]
    else if c < 0x800 then [0xC0 + c / 64, 0x80 + c % 64]
    else if c < 0x10000 then [0xE0 + c / 4096, 0x80 + c / 64 % 64, 0x80 + c % 64]
    else [0xF0 + c / 262144, 0x80 + c / 4096 % 64, 0x80 + c / 64 % 64, 0x80 + c % 64]
  }

  function EncodeAll(cs: seq<Scalar>): seq<byte> {
    if cs == [] then [] else EncodeScalar(cs[0]) + EncodeAll(cs[1..])
  }

  /** Valid UTF-8: the encoding of some sequence of scalar values. */
  ghost predicate Valid(s: seq<byte>) {
    exists cs: seq<Scalar> :: EncodeAll(cs) == s
  }

  // ---------------------------------------------------------------- the byte ranges (section 4 of RFC 3629)

  predicate Tail(b: int) { 0x80 <= b <= 0xBF }

  /** Which second bytes may follow a lead byte of a code point of three or four bytes. */
  predicate Second(lead: int, b: int) {
    && Tail(b)
    && (lead == 0xE0 ==> 0xA0 <= b)
    && (lead == 0xED ==> b <= 0x9F)
    && (lead == 0xF0 ==> 0x90 <= b)
    && (lead == 0xF4 ==> b <= 0x8F)
  }

  /** One complete code point. */
  predicate CodePoint(s: seq<byte>) {
    || (|s| == 1 && s[0] <= 0x7F)
    || (|s| == 2 && 0xC2 <= s[0] <= 0xDF && Tail(s[1]))
    || (|s| == 3 && 0xE0 <= s[0] <= 0xEF && Second(s[0], s[1]) && Tail(s[2]))
    || (|s| == 4 && 0xF0 <= s[0] <= 0xF4 && Second(s[0], s[1]) && Tail(s[2]) && Tail(s[3]))
  }

  /** A non-empty proper prefix of a code point. */
  predicate Partial(s: seq<byte>) {
    || (|s| == 1 && 0xC2 <= s[0] <= 0xF4)
    || (|s| == 2 && 0xE0 <= s[0] <= 0xF4 && Second(s[0], s[1]))
    || (|s| == 3 && 0xF0 <= s[0] <= 0xF4 && Second(s[0], s[1]) && Tail(s[2]))
  }

  predicate Carry(s: seq<byte>) { s == [] || Partial(s) }

  /** The bytes of a code point that has been read only in part. */
  type Unfinished = s: seq<byte> | Carry(s) witness []

  // ---------------------------------------------------------------- the automaton

  /** Its states are the unfinished code points; `None` is the dead state. */
  function Step(carry: seq<byte>, b: byte): (r: Option<seq<byte>>)
    ensures r.Some? ==> Carry(r.value)
  {
    var s := carry + [b];
    if CodePoint(s) then Some([]) else if Partial(s) then Some(s) else None
  }

  function Run(carry: seq<byte>, s: seq<byte>): (r: Option<seq<byte>>)
    requires Carry(carry)
    ensures r.Some? ==> Carry(r.value)
    decreases s
  {
    if s == [] then Some(carry)
    else match Step(carry, s[0])
      case None => None
      case Some(c) => Run(c, s[1..])
  }

  /** Reading in two pieces is reading in one. */
  lemma {:induction false} RunSplit(carry: seq<byte>, a: seq<byte>, b: seq<byte>)
    requires Carry(carry)
    ensures Run(carry, a + b) ==
            match Run(carry, a) case None => None case Some(c) => Run(c, b)
    decreases a
  {
    if a == [] {
      assert a + b == b;
    } else {
      assert (a + b)[1..] == a[1..] + b;
      match Step(carry, a[0]) {
        case None =>
        case Some(c) => RunSplit(c, a[1..], b);
      }
    }
  }

  lemma RunSplitAt(carry: seq<byte>, s: seq<byte>, n: nat)
    requires Carry(carry) && n <= |s|
    ensures Run(carry, s) ==
            match Run(carry, s[..n]) case None => None case Some(c) => Run(c, s[n..])
  {
    TakeDrop(s, n);
    RunSplit(carry, s[..n], s[n..]);
  }

  lemma RunOne(carry: seq<byte>, b: byte)
    requires Carry(carry)
    ensures Run(carry, [b]) == Step(carry, b)
  {
    var r := Step(carry, b);
    if r.Some? {
      assert Run(r.value, [b][1..]) == r;
    }
  }

  /** The automaton reaches an unfinished code point by reading it. */
  lemma RunPartial(c: seq<byte>)
    requires Carry(c)
    ensures Run([], c) == Some(c)
  {
    if |c| > 0 {
      var p := c[..|c| - 1];
      assert c == p + [c[|c| - 1]];
      RunPartial(p);
      RunSplit([], p, [c[|c| - 1]]);
      RunOne(p, c[|c| - 1]);
    }
  }

  lemma RunCodePoint(s: seq<byte>)
    requires CodePoint(s)
    ensures Run([], s) == Some([])
  {
    var p := s[..|s| - 1];
    assert s == p + [s[|s| - 1]];
    RunPartial(p);
    RunSplit([], p, [s[|s| - 1]]);
    RunOne(p, s[|s| - 1]);
  }

  // ---------------------------------------------------------------- the automaton accepts exactly Valid

  lemma EncodeIsCodePoint(c: Scalar)
    ensures CodePoint(EncodeScalar(c))
  {
  }

  function DecodeScalar(s: seq<byte>): (c: Scalar)
    requires CodePoint(s)
  {
    if |s| == 1 then s[0]
    else if |s| == 2 then Bits2(s[0], s[1])
    else if |s| == 3 then Bits3(s[0], s[1], s[2])
    else Bits4(s[0], s[1], s[2], s[3])
  }

  function Bits2(a: int, b: int): int { (a - 0xC0) * 64 + (b - 0x80) }

  function Bits3(a: int, b: int, c: int): int { (a - 0xE0) * 4096 + (b - 0x80) * 64 + (c - 0x80) }

  function Bits4(a: int, b: int, c: int, d: int): int {
    (a - 0xF0) * 262144 + (b - 0x80) * 4096 + (c - 0x80) * 64 + (d - 0x80)
  }

  lemma EncodeDecode(s: seq<byte>)
    requires CodePoint(s)
    ensures EncodeScalar(DecodeScalar(s)) == s
  {
    if |s| == 2 {
      SplitBy64(s[0] - 0xC0, s[1] - 0x80);
    } else if |s| == 3 {
      Digits3(s[0] - 0xE0, s[1] - 0x80, s[2] - 0x80);
    } else if |s| == 4 {
      Digits4(s[0] - 0xF0, s[1] - 0x80, s[2] - 0x80, s[3] - 0x80);
    }
  }

  lemma Digits3(a: int, b: int, d: int)
    requires 0 <= a && 0 <= b < 64 && 0 <= d < 64
    ensures var c := a * 4096 + b * 64 + d; c / 4096 == a && c / 64 % 64 == b && c % 64 == d
  {
    SplitBy64(a * 64 + b, d);
    SplitBy64(a, b);
  }

  lemma Digits4(a: int, b: int, d: int, e: int)
    requires 0 <= a && 0 <= b < 64 && 0 <= d < 64 && 0 <= e < 64
    ensures var c := a * 262144 + b * 4096 + d * 64 + e;
            c / 262144 == a && c / 4096 % 64 == b && c / 64 % 64 == d && c % 64 == e
  {
    Digits3(a * 64 + b, d, e);
    SplitBy64(a, b);
  }

  lemma SplitBy64(hi: int, lo: int)
    requires 0 <= hi && 0 <= lo < 64
    ensures (hi * 64 + lo) / 64 == hi && (hi * 64 + lo) % 64 == lo
  {
  }

  lemma {:induction false} ValidIsAccepted(cs: seq<Scalar>)
    ensures Run([], EncodeAll(cs)) == Some([])
  {
    if cs != [] {
      EncodeIsCodePoint(cs[0]);
      RunCodePoint(EncodeScalar(cs[0]));
      ValidIsAccepted(cs[1..]);
      RunSplit([], EncodeScalar(cs[0]), EncodeAll(cs[1..]));
    }
  }

  /** What is read from an unfinished code point onwards first finishes that code point. */
  lemma {:induction false} FirstCodePoint(carry: seq<byte>, s: seq<byte>) returns (n: nat)
    requires Carry(carry) && s != []
    requires Run(carry, s) == Some([])
    ensures 0 < n <= |s|
    ensures CodePoint(carry + s[..n])
    ensures Run([], s[n..]) == Some([])
    decreases s
  {
    var c := carry + [s[0]];
    assert s[..1] == [s[0]];
    if CodePoint(c) {
      n := 1;
    } else {
      n := FirstCodePoint(c, s[1..]);
      assert c + s[1..][..n] == carry + s[..n + 1];
      assert s[1..][n..] == s[n + 1..];
      n := n + 1;
    }
  }

  lemma {:induction false} AcceptedIsValid(s: seq<byte>)
    requires Run([], s) == Some([])
    ensures Valid(s)
    decreases s
  {
    if s == [] {
      assert EncodeAll([]) == s;
    } else {
      var n := FirstCodePoint([], s);
      AcceptedIsValid(s[n..]);
      assert [] + s[..n] == s[..n];
      PrependValid(s[..n], s[n..]);
      assert s == s[..n] + s[n..];
    }
  }

  lemma PrependValid(p: seq<byte>, rest: seq<byte>)
    requires CodePoint(p) && Valid(rest)
    ensures Valid(p + rest)
  {
    var cs: seq<Scalar> :| EncodeAll(cs) == rest;
    EncodeDecode(p);
    var all := [DecodeScalar(p)] + cs;
    assert all[1..] == cs;
    assert EncodeAll(all) == p + rest;
  }

  /** The automaton accepts exactly the valid strings. */
  lemma ValidIffAccepted(s: seq<byte>)
    ensures Valid(s) <==> Run([], s) == Some([])
  {
    if Valid(s) {
      var cs: seq<Scalar> :| EncodeAll(cs) == s;
      ValidIsAccepted(cs);
    } else if Run([], s) == Some([]) {
      AcceptedIsValid(s);
    }
  }

  // ---------------------------------------------------------------- it dies exactly when no continuation is valid

  /** Some bytes that finish an unfinished code point. */
  function Completion(c: seq<byte>): (t: seq<byte>)
    requires Carry(c)
    ensures c != [] ==> CodePoint(c + t)
  {
    if c == [] then []
    else
      var second := if c[0] == 0xE0 then 0xA0 else if c[0] == 0xF0 then 0x90 else 0x80;
      if c[0] <= 0xDF then [0x80]
      else if c[0] <= 0xEF then (if |c| == 1 then [second, 0x80] else [0x80])
      else if |c| == 1 then [second, 0x80, 0x80]
      else if |c| == 2 then [0x80, 0x80]
      else [0x80]
  }

  ghost predicate Extendable(s: seq<byte>) {
    exists t: seq<byte> :: Valid(s + t)
  }

  lemma ExtendableIffAlive(s: seq<byte>)
    ensures Extendable(s) <==> Run([], s).Some?
  {
    if Run([], s).Some? {
      var c := Run([], s).value;
      var t := Completion(c);
      RunSplit([], s, t);
      if c != [] {
        RunCodePoint(c + t);
        RunPartial(c);
        RunSplit([], c, t);
      }
      ValidIffAccepted(s + t);
    }
    if Extendable(s) {
      var t :| Valid(s + t);
      ValidIffAccepted(s + t);
      RunSplit([], s, t);
    }
  }

  /** What can begin a text cannot continue an unfinished code point. */
  lemma OpenRefusesText(c: seq<byte>, p: seq<byte>)
    requires Partial(c) && p != [] && Run([], p).Some?
    ensures Run(c, p).None?
  {
    assert Step([], p[0]).Some?;
    assert [] + [p[0]] == [p[0]];
    assert Step(c, p[0]).None?;
  }

  predicate EndsWith(s: seq<byte>, c: seq<byte>) {
    |c| <= |s| && s[|s| - |c|..] == c
  }

  lemma EndsWithMore(a: seq<byte>, b: seq<byte>, c: seq<byte>)
    requires EndsWith(b, c)
    ensures EndsWith(a + b, c)
  {
    var n := |b| - |c|;
    assert (a + b)[|a| + n..] == b[n..];
  }

  lemma {:induction false} CarryIsSuffix(carry: seq<byte>, s: seq<byte>)
    requires Carry(carry) && Run(carry, s).Some?
    ensures EndsWith(carry + s, Run(carry, s).value)
    decreases s
  {
    if s == [] {
      assert carry + s == carry;
    } else {
      var c := Step(carry, s[0]).value;
      CarryIsSuffix(c, s[1..]);
      HeadTail(carry, s);
      if c == [] {
        assert [] + s[1..] == s[1..];
        EndsWithMore(carry + [s[0]], s[1..], Run(carry, s).value);
      }
    }
  }

  lemma HeadTail(a: seq<byte>, s: seq<byte>)
    requires s != []
    ensures a + s == (a + [s[0]]) + s[1..]
  {
  }

  /** What is left over is the unfinished code point at the end: everything before it is valid. */
  lemma CarryIsRest(s: seq<byte>)
    requires Run([], s).Some?
    ensures var c := Run([], s).value; EndsWith(s, c) && Valid(s[..|s| - |c|])
  {
    hide Valid, Run, Step;
    CarryIsSuffix([], s);
    var c := Run([], s).value;
    assert [] + s == s;
    var v := s[..|s| - |c|];
    RunSplitAt([], s, |v|);
    if Run([], v).value != [] {
      RunBack(v, c);
    }
    ValidIffAccepted(v);
  }

  /** An unfinished code point does not leave another one open: its own bytes are all of the carry. */
  lemma {:induction false} RunBack(v: seq<byte>, c: seq<byte>)
    requires Run([], v).Some? && Carry(c) && Run(Run([], v).value, c) == Some(c)
    ensures Run([], v) == Some([])
  {
    var d := Run([], v).value;
    if d != [] {
      if c == [] {
        assert false;
      } else {
        RunOneAtATime(d, c);
      }
    }
  }

  lemma RunOneAtATime(d: seq<byte>, c: seq<byte>)
    requires Partial(d) && Partial(c)
    ensures Run(d, c) != Some(c)
  {
    // A lead byte never continues an unfinished code point.
    assert Step(d, c[0]) == None;
  }

  // ---------------------------------------------------------------- the library scans

  /** `simdutf8::basic::from_utf8(s).is_ok()` */
  predicate BasicOk(s: seq<byte>) { Run([], s) == Some([]) }

  /**
    `simdutf8::compat::from_utf8`: the input is valid, or wrong whatever may follow (`error_len` is
    some number), or valid up to an unfinished code point at its end (`error_len` is none).
   */
  datatype Scan = ScanOk | ScanInvalid | ScanIncomplete(validUpTo: nat)

  function CompatScan(s: seq<byte>): Scan {
    match Run([], s)
    case None => ScanInvalid
    case Some(c) => if c == [] then ScanOk else ScanIncomplete(if |c| <= |s| then |s| - |c| else 0)
  }

  /** The scans mean what the library documents them to mean. */
  lemma ScansAreFaithful(s: seq<byte>)
    ensures BasicOk(s) <==> Valid(s)
    ensures CompatScan(s).ScanOk? <==> Valid(s)
    ensures CompatScan(s).ScanInvalid? <==> !Extendable(s)
    ensures CompatScan(s).ScanIncomplete? ==>
              var n := CompatScan(s).validUpTo;
              n < |s| && Valid(s[..n]) && Partial(s[n..]) && s[n..] == Run([], s).value
  {
    ValidIffAccepted(s);
    ExtendableIffAlive(s);
    if CompatScan(s).ScanIncomplete? {
      CarryIsRest(s);
    }
  }

  lemma {:induction false} AsciiIsValid(s: seq<byte>)
    requires forall i :: 0 <= i < |s| ==> s[i] < 0x80
    ensures Run([], s) == Some([])
    decreases s
  {
    if s != [] {
      AsciiIsValid(s[1..]);
      assert CodePoint([] + [s[0]]);
    }
  }
}
