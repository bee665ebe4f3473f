/**
  Bytes, bytewise exclusive or, and big-endian numbers.

  A byte is an integer in 0..255, so that lengths and byte values live in one arithmetic.
  Bit operations of the source are written as the division and remainder they stand for.
 */
module Bytes {

  type byte = b: int | 0 <= b < 256

  /** `usize` is taken to be 64 bits wide. */
  const USIZE_END: nat := 0x1_0000_0000_0000_0000

  type usize = n: int | 0 <= n < USIZE_END

  datatype Option<+T> = None | Some(value: T)

  function Min(a: nat, b: nat): nat { if a <= b then a else b }

  lemma TakeDrop<T>(s: seq<T>, n: nat)
    requires n <= |s|
    ensures s[..n] + s[n..] == s
  {
  }

  /** The bytes of a list of slices, one after the other. */
  function Concat(slices: seq<seq<byte>>): seq<byte> {
    if slices == [] then [] else slices[0] + Concat(slices[1..])
  }

  lemma {:induction false} ConcatAppend(a: seq<seq<byte>>, b: seq<seq<byte>>)
    ensures Concat(a + b) == Concat(a) + Concat(b)
    decreases a
  {
    if a == [] {
      assert a + b == b;
    } else {
      assert (a + b)[1..] == a[1..] + b && (a + b)[0] == a[0];
      ConcatAppend(a[1..], b);
      Regroup(a[0], Concat(a[1..]), Concat(b));
    }
  }

  lemma Regroup<T>(a: seq<T>, b: seq<T>, c: seq<T>)
    ensures a + (b + c) == (a + b) + c
  {
  }

  // ---------------------------------------------------------------- exclusive or

  function Pow2(n: nat): nat { if n == 0 then 1 else 2 * Pow2(n - 1) }

  /** Exclusive or of the `n` low bits of `a` and `b`. */
  function XorBits(a: nat, b: nat, n: nat): (r: nat)
    ensures r < Pow2(n)
  {
    if n == 0 then 0 else 2 * XorBits(a / 2, b / 2, n - 1) + (a % 2 + b % 2) % 2
  }

  function Xor(a: byte, b: byte): byte {
    assert Pow2(8) == 256;
    XorBits(a, b, 8)
  }

  lemma {:induction false} XorBitsTwice(a: nat, k: nat, n: nat)
    requires a < Pow2(n)
    ensures XorBits(XorBits(a, k, n), k, n) == a
  {
    if n != 0 {
      var rest := XorBits(a / 2, k / 2, n - 1);
      var x := XorBits(a, k, n);
      XorBitsTwice(a / 2, k / 2, n - 1);
      BitTwice(a, k);
      assert x / 2 == rest && x % 2 == (a % 2 + k % 2) % 2;
      assert XorBits(x, k, n) == 2 * XorBits(rest, k / 2, n - 1) + (x % 2 + k % 2) % 2;
    }
  }

  lemma BitTwice(a: nat, k: nat)
    ensures ((a % 2 + k % 2) % 2 + k % 2) % 2 == a % 2
  {
    if a % 2 == 0 {} else {}
  }

  lemma XorTwice(a: byte, k: byte)
    ensures Xor(Xor(a, k), k) == a
  {
    assert Pow2(8) == 256;
    XorBitsTwice(a, k, 8);
  }

  /** The number without its `i` lowest bits. */
  function Shifted(a: nat, i: nat): nat { if i == 0 then a else Shifted(a / 2, i - 1) }

  lemma {:induction false} XorBitsAt(a: nat, k: nat, n: nat, i: nat)
    requires i < n
    ensures Shifted(XorBits(a, k, n), i) % 2 == 1 <==> Shifted(a, i) % 2 != Shifted(k, i) % 2
    decreases n
  {
    var x := XorBits(a, k, n);
    assert x / 2 == XorBits(a / 2, k / 2, n - 1);
    if i == 0 {
      assert x % 2 == (a % 2 + k % 2) % 2;
    } else {
      XorBitsAt(a / 2, k / 2, n - 1, i - 1);
    }
  }

  /** Bit `i` of a byte. */
  function Bit(a: byte, i: nat): nat
    requires i < 8
  {
    a / [1, 2, 4, 8, 16, 32, 64, 128][i] % 2
  }

  lemma {:induction false} ShiftedNext(a: nat, i: nat)
    ensures Shifted(a, i + 1) == Shifted(a, i) / 2
  {
    if i != 0 {
      ShiftedNext(a / 2, i - 1);
    }
  }

  lemma BitIsShifted(a: byte, i: nat)
    requires i < 8
    ensures Bit(a, i) == Shifted(a, i) % 2
  {
    hide Shifted;
    ShiftedByte(a, i);
  }

  lemma ShiftedByte(a: byte, i: nat)
    requires i < 8
    ensures Shifted(a, i) == a / [1, 2, 4, 8, 16, 32, 64, 128][i]
  {
    hide Shifted;
    if i == 0 {
      ShiftedNone(a);
    } else {
      ShiftedByte(a, i - 1);
      ShiftedNext(a, i - 1);
    }
  }

  lemma ShiftedNone(a: nat)
    ensures Shifted(a, 0) == a
  {
  }

  /** Exclusive or, bit by bit. */
  lemma XorAt(a: byte, k: byte, i: nat)
    requires i < 8
    ensures Bit(Xor(a, k), i) == 1 <==> Bit(a, i) != Bit(k, i)
  {
    assert Pow2(8) == 256;
    XorBitsAt(a, k, 8, i);
    BitIsShifted(Xor(a, k), i);
    BitIsShifted(a, i);
    BitIsShifted(k, i);
  }

  lemma {:induction false} XorBitsNothing(a: nat, n: nat)
    requires a < Pow2(n)
    ensures XorBits(a, 0, n) == a
  {
    if n != 0 {
      XorBitsNothing(a / 2, n - 1);
    }
  }

  lemma XorNothing(a: byte)
    ensures Xor(a, 0) == a
  {
    assert Pow2(8) == 256;
    XorBitsNothing(a, 8);
  }

  // ---------------------------------------------------------------- big-endian numbers

  /** The number a list of bytes stands for, the most significant byte first. */
  function BigEndian(s: seq<byte>): nat {
    if s == [] then 0 else 256 * BigEndian(s[..|s| - 1]) + s[|s| - 1]
  }

  // Two, four and eight bytes: each size is two of the next smaller one.

  function U16(n: nat): (s: seq<byte>)
    requires n < 0x1_0000
    ensures |s| == 2
  {
    [n / 0x100, n % 0x100]
  }

  function U32(n: nat): (s: seq<byte>)
    requires n < 0x1_0000_0000
    ensures |s| == 4
  {
    U16(n / 0x1_0000) + U16(n % 0x1_0000)
  }

  function U64(n: usize): (s: seq<byte>)
    ensures |s| == 8
  {
    U32(n / 0x1_0000_0000) + U32(n % 0x1_0000_0000)
  }

  function FromU16(s: seq<byte>): (n: nat)
    requires |s| == 2
    ensures n < 0x1_0000
  {
    var a: int, b: int := s[0], s[1];
    a * 0x100 + b
  }

  function FromU32(s: seq<byte>): (n: nat)
    requires |s| == 4
    ensures n < 0x1_0000_0000
  {
    FromU16(s[..2]) * 0x1_0000 + FromU16(s[2..])
  }

  function FromU64(s: seq<byte>): (n: usize)
    requires |s| == 8
  {
    FromU32(s[..4]) * 0x1_0000_0000 + FromU32(s[4..])
  }

  lemma U16IsBigEndian(s: seq<byte>)
    requires |s| == 2
    ensures FromU16(s) == BigEndian(s)
  {
    assert s[..1][..0] == [];
    assert BigEndian(s[..1]) == s[0];
  }

  lemma U32IsBigEndian(s: seq<byte>)
    requires |s| == 4
    ensures FromU32(s) == BigEndian(s)
  {
    TwoMore(s[..2], s[2], s[3]);
    assert s == s[..2] + [s[2], s[3]] && s[2..] == [s[2], s[3]];
    U16IsBigEndian(s[..2]);
  }

  lemma U64IsBigEndian(s: seq<byte>)
    requires |s| == 8
    ensures FromU64(s) == BigEndian(s)
  {
    U32IsBigEndian(s[..4]);
    TwoMore(s[..4], s[4], s[5]);
    TwoMore(s[..6], s[6], s[7]);
    assert s[..6] == s[..4] + [s[4], s[5]] && s == s[..6] + [s[6], s[7]];
    assert s[4..][..2] == [s[4], s[5]] && s[4..][2..] == [s[6], s[7]];
  }

  lemma TwoMore(s: seq<byte>, a: byte, b: byte)
    ensures BigEndian(s + [a, b]) == BigEndian(s) * 0x1_0000 + FromU16([a, b])
  {
    var t := s + [a, b];
    assert t[..|t| - 1] == s + [a] && (s + [a])[..|s|] == s;
  }

  lemma U16RoundTrip(n: nat, s: seq<byte>)
    ensures n < 0x1_0000 ==> FromU16(U16(n)) == n
    ensures |s| == 2 ==> U16(FromU16(s)) == s
  {
  }

  lemma U32RoundTrip(n: nat, s: seq<byte>)
    ensures n < 0x1_0000_0000 ==> FromU32(U32(n)) == n
    ensures |s| == 4 ==> U32(FromU32(s)) == s
  {
    if n < 0x1_0000_0000 {
      var hi, lo := U16(n / 0x1_0000), U16(n % 0x1_0000);
      assert U32(n)[..2] == hi && U32(n)[2..] == lo;
      U16RoundTrip(n / 0x1_0000, hi);
      U16RoundTrip(n % 0x1_0000, lo);
    }
    if |s| == 4 {
      var hi, lo := FromU16(s[..2]), FromU16(s[2..]);
      assert FromU32(s) / 0x1_0000 == hi && FromU32(s) % 0x1_0000 == lo;
      U16RoundTrip(0, s[..2]);
      U16RoundTrip(0, s[2..]);
      assert s == s[..2] + s[2..];
    }
  }

  lemma U64RoundTrip(n: usize, s: seq<byte>)
    ensures FromU64(U64(n)) == n
    ensures |s| == 8 ==> U64(FromU64(s)) == s
  {
    var h, l := U32(n / 0x1_0000_0000), U32(n % 0x1_0000_0000);
    assert U64(n)[..4] == h && U64(n)[4..] == l;
    U32RoundTrip(n / 0x1_0000_0000, h);
    U32RoundTrip(n % 0x1_0000_0000, l);
    if |s| == 8 {
      var hi, lo := FromU32(s[..4]), FromU32(s[4..]);
      assert FromU64(s) / 0x1_0000_0000 == hi && FromU64(s) % 0x1_0000_0000 == lo;
      U32RoundTrip(0, s[..4]);
      U32RoundTrip(0, s[4..]);
      assert s == s[..4] + s[4..];
    }
  }
}
