/**
  Frame masking (src/mask.rs; section 5.3 of RFC 6455).

  `Masked` is the byte-at-a-time definition of the standard.  The methods are the in-place forms:
  one byte at once, 8-byte blocks between an unaligned prefix and suffix, and wider SIMD blocks
  over that fallback.  Where a slice is aligned is up to the allocator, so `AlignTo` may return
  any split whose middle is a whole number of blocks.
 */
module Mask {
  import opened Bytes

  type Key = k: seq<byte> | |k| == 4 witness [0, 0, 0, 0]

  function Turned(key: Key): Key { [key[1], key[2], key[3], key[0]] }

  /** The key as it must be used `n` bytes further on. */
  function Rotated(key: Key, n: nat): Key
    decreases n
  {
    if n == 0 then key else Rotated(Turned(key), n - 1)
  }

  /** Each byte is combined with the next byte of the key, which is used cyclically. */
  function Masked(key: Key, data: seq<byte>): (r: seq<byte>)
    ensures |r| == |data|
    decreases data
  {
    if data == [] then [] else [Xor(data[0], key[0])] + Masked(Turned(key), data[1..])
  }

  // ---------------------------------------------------------------- laws of masking

  lemma {:induction false} RotatedSum(key: Key, m: nat, n: nat)
    ensures Rotated(Rotated(key, m), n) == Rotated(key, m + n)
    decreases m
  {
    if m != 0 {
      RotatedSum(Turned(key), m - 1, n);
    }
  }

  lemma {:induction false} RotatedMultiple(key: Key, n: nat)
    requires n % 4 == 0
    ensures Rotated(key, n) == key
  {
    if n != 0 {
      RotatedMultiple(key, n - 4);
      RotatedSum(key, n - 4, 4);
      var k1 := Turned(key);
      var k2 := Turned(k1);
      var k3 := Turned(k2);
      assert Turned(k3) == key;
      assert Rotated(key, 4) == Rotated(k1, 3) == Rotated(k2, 2) == Rotated(k3, 1) == Rotated(key, 0);
    }
  }

  lemma {:induction false} RotatedAt(key: Key, n: nat)
    ensures Rotated(key, n)[0] == key[n % 4]
    ensures Rotated(key, n) == Rotated(key, n % 4)
  {
    var m := n - n % 4;
    RotatedMultiple(key, m);
    RotatedSum(key, m, n % 4);
    var k1 := Turned(key);
    var k2 := Turned(k1);
    var k3 := Turned(k2);
    assert Rotated(key, 1) == Rotated(k1, 0);
    assert Rotated(key, 2) == Rotated(k1, 1) == Rotated(k2, 0);
    assert Rotated(key, 3) == Rotated(k1, 2) == Rotated(k2, 1) == Rotated(k3, 0);
  }

  /** The formula of section 5.3 of RFC 6455: octet i is combined with key octet i modulo 4. */
  lemma {:induction false} MaskedAt(key: Key, data: seq<byte>, i: nat)
    requires i < |data|
    ensures Masked(key, data)[i] == Xor(data[i], key[i % 4])
    ensures forall n | 0 <= n < 8 :: Bit(Masked(key, data)[i], n) == 1 <==> Bit(data[i], n) != Bit(key[i % 4], n)
  {
    MaskedAtRotated(key, data, i);
    RotatedAt(key, i);
    forall n | 0 <= n < 8
      ensures Bit(Masked(key, data)[i], n) == 1 <==> Bit(data[i], n) != Bit(key[i % 4], n)
    {
      XorAt(data[i], key[i % 4], n);
    }
  }

  /** The key of zeros masks nothing. */
  lemma {:induction false} MaskedByZeros(data: seq<byte>)
    ensures Masked([0, 0, 0, 0], data) == data
    decreases data
  {
    if data != [] {
      XorNothing(data[0]);
      assert Turned([0, 0, 0, 0]) == [0, 0, 0, 0];
      MaskedByZeros(data[1..]);
    }
  }

  lemma {:induction false} MaskedAtRotated(key: Key, data: seq<byte>, i: nat)
    requires i < |data|
    ensures Masked(key, data)[i] == Xor(data[i], Rotated(key, i)[0])
    decreases i
  {
    if i != 0 {
      MaskedAtRotated(Turned(key), data[1..], i - 1);
    }
  }

  /** Masking in two pieces, the second with the rotated key, is masking in one piece. */
  lemma {:induction false} MaskedSplit(key: Key, a: seq<byte>, b: seq<byte>)
    ensures Masked(key, a + b) == Masked(key, a) + Masked(Rotated(key, |a|), b)
    decreases a
  {
    if a == [] {
      assert a + b == b;
    } else {
      assert (a + b)[1..] == a[1..] + b;
      MaskedSplit(Turned(key), a[1..], b);
    }
  }

  /** Masking twice from the same key is the identity. */
  lemma {:induction false} MaskedTwice(key: Key, data: seq<byte>)
    ensures Masked(key, Masked(key, data)) == data
    decreases data
  {
    if data != [] {
      XorTwice(data[0], key[0]);
      MaskedTwice(Turned(key), data[1..]);
      assert Masked(key, data)[1..] == Masked(Turned(key), data[1..]);
    }
  }

  lemma MaskedPrefix(key: Key, data: seq<byte>, n: nat)
    requires n <= |data|
    ensures Masked(key, data[..n]) == Masked(key, data)[..n]
  {
    assert data == data[..n] + data[n..];
    MaskedSplit(key, data[..n], data[n..]);
  }

  // ---------------------------------------------------------------- rotate_mask

  /** `u32::rotate_left(8)`. */
  function RotateLeft8(w: nat): (r: nat)
    requires w < 0x1_0000_0000
    ensures r < 0x1_0000_0000
  {
    (w % 0x100_0000) * 256 + w / 0x100_0000
  }

  /** `u32::rotate_left(8 * r)`. */
  function RotateLeftBytes(w: nat, r: nat): (x: nat)
    requires w < 0x1_0000_0000
    ensures x < 0x1_0000_0000
    decreases r
  {
    if r == 0 then w else RotateLeftBytes(RotateLeft8(w), r - 1)
  }

  lemma WordValue(key: Key, a: int, b: int, c: int, d: int)
    requires key == [a, b, c, d]
    ensures FromU32(key) == a * 0x100_0000 + b * 0x1_0000 + c * 0x100 + d
  {
    assert key[..2] == [a, b] && key[2..] == [c, d];
  }

  lemma TopByte(a: nat, low: nat)
    requires low < 0x100_0000
    ensures (a * 0x100_0000 + low) / 0x100_0000 == a && (a * 0x100_0000 + low) % 0x100_0000 == low
  {
  }

  lemma RotateLeft8IsRotated(key: Key)
    ensures RotateLeft8(FromU32(key)) == FromU32(Rotated(key, 1))
  {
    var a: int, b: int, c: int, d: int := key[0], key[1], key[2], key[3];
    WordValue(key, a, b, c, d);
    WordValue(Turned(key), b, c, d, a);
    assert Rotated(key, 1) == Rotated(Turned(key), 0);
    var low := b * 0x1_0000 + c * 0x100 + d;
    TopByte(a, low);
  }

  lemma {:induction false} RotateLeftBytesIsRotated(key: Key, r: nat)
    ensures RotateLeftBytes(FromU32(key), r) == FromU32(Rotated(key, r))
    decreases r
  {
    if r == 0 {
      RotatedMultiple(key, 0);
    } else {
      RotateLeft8IsRotated(key);
      RotateLeftBytesIsRotated(Rotated(key, 1), r - 1);
      RotatedSum(key, 1, r - 1);
    }
  }

  method RotateMask(key: array<byte>, offset: nat)
    requires key.Length == 4
    modifies key
    ensures key[..] == Rotated(old(key[..]), offset)
  {
    ghost var k: Key := key[..];
    var rotated := U32(RotateLeftBytes(FromU32(key[..]), offset % 4));
    assert rotated == Rotated(k, offset) by {
      RotateLeftBytesIsRotated(k, offset % 4);
      RotatedAt(k, offset);
      U32RoundTrip(0, Rotated(k, offset));
    }
    for i := 0 to 4
      invariant forall j :: 0 <= j < i ==> key[j] == rotated[j]
    {
      key[i] := rotated[i];
    }
  }

  // ---------------------------------------------------------------- in-place masking of input[lo..hi]

  /** `input[lo..hi]` has been masked with `key`, and nothing else of `before` has changed. */
  ghost predicate MaskedIn(key: Key, before: seq<byte>, after: seq<byte>, lo: nat, hi: nat)
    requires lo <= hi <= |before|
  {
    after == before[..lo] + Masked(key, before[lo..hi]) + before[hi..]
  }

  lemma MaskedInJoin(key: Key, s0: seq<byte>, s1: seq<byte>, s2: seq<byte>, lo: nat, mid: nat, hi: nat)
    requires lo <= mid <= hi <= |s0|
    requires MaskedIn(key, s0, s1, lo, mid)
    requires MaskedIn(Rotated(key, mid - lo), s1, s2, mid, hi)
    ensures MaskedIn(key, s0, s2, lo, hi)
  {
    var p, a, b, q := s0[..lo], s0[lo..mid], s0[mid..hi], s0[hi..];
    var a', b' := Masked(key, a), Masked(Rotated(key, mid - lo), b);
    SliceJoin(s0, lo, mid, hi);
    SliceJoin(s0, mid, hi, |s0|);
    MaskedSplit(key, a, b);
    assert s2 == p + a' + b' + q by { Pieces(s1, p + a', b, q); }
    Regroup(p, a', b');
  }

  lemma SliceJoin(s: seq<byte>, i: nat, j: nat, k: nat)
    requires i <= j <= k <= |s|
    ensures s[i..j] + s[j..k] == s[i..k]
    ensures s[..|s|] == s && s[i..|s|] == s[i..]
  {
  }

  lemma Pieces(s: seq<byte>, a: seq<byte>, b: seq<byte>, c: seq<byte>)
    requires s == a + (b + c)
    ensures s[..|a|] == a && s[|a|..|a| + |b|] == b && s[|a| + |b|..] == c
  {
  }

  lemma MaskedInPointwise(key: Key, before: seq<byte>, after: seq<byte>, lo: nat, hi: nat)
    requires lo <= hi <= |before| == |after|
    requires forall j :: 0 <= j < lo || hi <= j < |before| ==> after[j] == before[j]
    requires forall j :: lo <= j < hi ==> after[j] == Xor(before[j], key[(j - lo) % 4])
    ensures MaskedIn(key, before, after, lo, hi)
  {
    var m := Masked(key, before[lo..hi]);
    forall j | lo <= j < hi ensures after[j] == m[j - lo] {
      MaskedAt(key, before[lo..hi], j - lo);
    }
  }

  method OneByteAtOnce(key: array<byte>, input: array<byte>, lo: nat, hi: nat)
    requires key.Length == 4 && key != input && lo <= hi <= input.Length
    modifies key, input
    ensures MaskedIn(old(key[..]), old(input[..]), input[..], lo, hi)
    ensures key[..] == Rotated(old(key[..]), hi - lo)
  {
    for i := 0 to hi - lo
      invariant key[..] == old(key[..])
      invariant forall j :: 0 <= j < input.Length ==>
        input[j] == if lo <= j < lo + i then Xor(old(input[j]), old(key[(j - lo) % 4])) else old(input[j])
    {
      input[lo + i] := Xor(input[lo + i], key[i % 4]);
    }
    MaskedInPointwise(old(key[..]), old(input[..]), input[..], lo, hi);
    RotateMask(key, hi - lo);
  }

  /** The length of `count` blocks. */
  function Span(count: nat, block: nat): nat {
    if count == 0 then 0 else Span(count - 1, block) + block
  }

  lemma {:induction false} SpanGrows(i: nat, count: nat, block: nat)
    requires i <= count
    ensures Span(i, block) <= Span(count, block)
    ensures block % 4 == 0 ==> Span(i, block) % 4 == 0
    decreases count
  {
    if i < count {
      SpanGrows(i, count - 1, block);
    } else if count > 0 {
      SpanGrows(count - 1, count - 1, block);
    }
  }

  /** `align_to_mut`: any split of lo..hi into a prefix, a number of whole blocks and a suffix. */
  method AlignTo(lo: nat, hi: nat, block: nat) returns (first: nat, count: nat)
    requires lo <= hi
    ensures lo <= first && first + Span(count, block) <= hi
  {
    first := *;
    count := *;
    if !(lo <= first && first + Span(count, block) <= hi) {
      first, count := lo, 0;
    }
  }

  /** Exclusive or of one block, `at - first` bytes after the first one, with the key repeated to its width. */
  method XorBlock(key: array<byte>, input: array<byte>, first: nat, at: nat, block: nat)
    requires key.Length == 4 && key != input && first <= at && at + block <= input.Length
    requires (at - first) % 4 == 0
    modifies input
    ensures forall j :: 0 <= j < input.Length ==>
      input[j] == if at <= j < at + block then Xor(old(input[j]), key[(j - first) % 4]) else old(input[j])
  {
    for n := 0 to block
      invariant forall j :: 0 <= j < input.Length ==>
        input[j] == if at <= j < at + n then Xor(old(input[j]), key[(j - first) % 4]) else old(input[j])
    {
      input[at + n] := Xor(input[at + n], key[n % 4]);
    }
  }

  method XorBlocks(key: array<byte>, input: array<byte>, first: nat, count: nat, block: nat)
    requires key.Length == 4 && key != input && first + Span(count, block) <= input.Length
    requires block % 4 == 0
    modifies input
    ensures MaskedIn(key[..], old(input[..]), input[..], first, first + Span(count, block))
  {
    var at := first;
    for i := 0 to count
      invariant at == first + Span(i, block) <= input.Length
      invariant forall j :: first <= j < at ==> input[j] == Xor(old(input[j]), key[(j - first) % 4])
      invariant forall j :: 0 <= j < first || at <= j < input.Length ==> input[j] == old(input[j])
    {
      SpanGrows(i, i, block);
      SpanGrows(i + 1, count, block);
      XorBlock(key, input, first, at, block);
      at := at + block;
    }
    MaskedInPointwise(key[..], old(input[..]), input[..], first, at);
  }

  /** The 8-byte fallback. */
  method FallbackFrame(key: array<byte>, input: array<byte>, lo: nat, hi: nat)
    requires key.Length == 4 && key != input && lo <= hi <= input.Length
    modifies key, input
    ensures MaskedIn(old(key[..]), old(input[..]), input[..], lo, hi)
    ensures key[..] == Rotated(old(key[..]), hi - lo)
  {
    var first, count := AlignTo(lo, hi, 8);
    var last := first + Span(count, 8);
    ghost var k: Key, s0 := key[..], input[..];
    OneByteAtOnce(key, input, lo, first);
    ghost var s1 := input[..];
    XorBlocks(key, input, first, count, 8);
    ghost var s2 := input[..];
    OneByteAtOnce(key, input, last, hi);
    SpanGrows(count, count, 8);
    ThreePieces(k, s0, s1, s2, input[..], lo, first, last, hi);
  }

  /** The common shape of the SIMD forms, whose blocks are 16, 32 or 64 bytes. */
  method Frame(key: array<byte>, input: array<byte>, lo: nat, hi: nat, block: nat)
    requires key.Length == 4 && key != input && lo <= hi <= input.Length && block % 4 == 0
    modifies key, input
    ensures MaskedIn(old(key[..]), old(input[..]), input[..], lo, hi)
    ensures key[..] == Rotated(old(key[..]), hi - lo)
  {
    var first, count := AlignTo(lo, hi, block);
    var last := first + Span(count, block);
    ghost var k: Key, s0 := key[..], input[..];
    FallbackFrame(key, input, lo, first);
    ghost var s1 := input[..];
    XorBlocks(key, input, first, count, block);
    ghost var s2 := input[..];
    FallbackFrame(key, input, last, hi);
    SpanGrows(count, count, block);
    ThreePieces(k, s0, s1, s2, input[..], lo, first, last, hi);
  }

  lemma ThreePieces(key: Key, s0: seq<byte>, s1: seq<byte>, s2: seq<byte>, s3: seq<byte>,
                    lo: nat, first: nat, last: nat, hi: nat)
    requires lo <= first <= last <= hi <= |s0| && (last - first) % 4 == 0
    requires MaskedIn(key, s0, s1, lo, first)
    requires MaskedIn(Rotated(key, first - lo), s1, s2, first, last)
    requires MaskedIn(Rotated(key, first - lo), s2, s3, last, hi)
    ensures MaskedIn(key, s0, s3, lo, hi)
    ensures Rotated(Rotated(key, first - lo), hi - last) == Rotated(key, hi - lo)
  {
    var turned := Rotated(key, first - lo);
    assert Rotated(key, last - lo) == turned by {
      RotatedSum(key, first - lo, last - first);
      RotatedMultiple(turned, last - first);
    }
    RotatedSum(key, last - lo, hi - last);
    MaskedInJoin(key, s0, s1, s2, lo, first, last);
    MaskedInJoin(key, s0, s2, s3, lo, last, hi);
  }

  /** `frame` on a slice of a receive buffer or of an outgoing payload. */
  method FrameBytes(key: Key, data: seq<byte>) returns (rest: Key, out: seq<byte>)
    ensures out == Masked(key, data)
    ensures rest == Rotated(key, |data|)
  {
    var k := new byte[4](i requires 0 <= i < 4 => key[i]);
    var a := new byte[|data|](i requires 0 <= i < |data| => data[i]);
    assert k[..] == key && a[..] == data;
    Frame(k, a, 0, |data|, 16);
    rest, out := k[..], a[..];
    assert a[0..|data|] == a[..] && data[0..|data|] == data;
  }
}
