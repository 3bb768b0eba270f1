/** Bytes, bitmaps kept in bytes, and the little-endian encodings the image uses. */
module Bytes {

  type byte = bv8

  // ---------------------------------------------------------------- bitmaps

  /** `1 << k`, the mask the bitmap code builds from `id % BYTE_SIZE`. */
  function Mask(k: nat): byte
    requires k < 8
  {
    1 << k
  }

  predicate TestBit(m: seq<byte>, id: int)
    requires 0 <= id < 8 * |m|
  {
    m[id / 8] & Mask(id % 8) != 0
  }

  function SetBit(m: seq<byte>, id: int): seq<byte>
    requires 0 <= id < 8 * |m|
  {
    m[id / 8 := m[id / 8] | Mask(id % 8)]
  }

  function ClearBit(m: seq<byte>, id: int): seq<byte>
    requires 0 <= id < 8 * |m|
  {
    m[id / 8 := m[id / 8] & !Mask(id % 8)]
  }

  /** The set of ids a bitmap stands for. */
  function Bits(m: seq<byte>): set<int> {
    set id | 0 <= id < 8 * |m| && TestBit(m, id)
  }

  lemma MaskBits(b: byte, j: nat, k: nat)
    requires j < 8 && k < 8
    ensures (b | Mask(k)) & Mask(j) != 0 <==> j == k || b & Mask(j) != 0
    ensures (b & !Mask(k)) & Mask(j) != 0 <==> j != k && b & Mask(j) != 0
  {}

  /** Or-ing a mask into a byte inserts exactly one id into the set. */
  lemma SetBitInserts(m: seq<byte>, id: int)
    requires 0 <= id < 8 * |m|
    ensures |SetBit(m, id)| == |m|
    ensures Bits(SetBit(m, id)) == Bits(m) + {id}
  {
    forall x | 0 <= x < 8 * |m|
      ensures TestBit(SetBit(m, id), x) <==> x == id || TestBit(m, x)
    {
      MaskBits(m[id / 8], x % 8, id % 8);
    }
  }

  /** And-ing with the complement of a mask removes exactly one id from the set. */
  lemma ClearBitRemoves(m: seq<byte>, id: int)
    requires 0 <= id < 8 * |m|
    ensures |ClearBit(m, id)| == |m|
    ensures Bits(ClearBit(m, id)) == Bits(m) - {id}
  {
    forall x | 0 <= x < 8 * |m|
      ensures TestBit(ClearBit(m, id), x) <==> x != id && TestBit(m, x)
    {
      MaskBits(m[id / 8], x % 8, id % 8);
    }
  }

  /** Shifting the byte down and taking its parity is the same test. */
  lemma ShiftTest(b: byte, k: nat)
    requires k < 8
    ensures (b >> k) % 2 == 1 <==> b & Mask(k) != 0
  {}

  /** So shifting and parity test membership in the set. */
  lemma ShiftTestsBits(m: seq<byte>, id: int)
    requires 0 <= id < 8 * |m|
    ensures (m[id / 8] >> (id % 8)) % 2 == 1 <==> id in Bits(m)
  {
    hide Mask;
    ShiftTest(m[id / 8], id % 8);
  }

  // ---------------------------------------------------- 32-bit integers

  predicate Int32(x: int) {
    -0x8000_0000 <= x < 0x8000_0000
  }

  /** Counting up to n reaches the byte of value n. */
  function CountUp(n: int): (b: byte)
    requires 0 <= n < 256
    ensures b as int == n
  {
    if n == 0 then 0 else CountUp(n - 1) + 1
  }

  lemma IntOfByte(b: byte)
    ensures (b as int) as byte == b
  {}

  function ByteOf(n: int): (b: byte)
    requires 0 <= n < 256
    ensures b as int == n
  {
    IntOfByte(CountUp(n));
    n as byte
  }

  function Unsigned32(b0: int, b1: int, b2: int, b3: int): int {
    b0 + 256 * b1 + 65536 * b2 + 16777216 * b3
  }

  function ToSigned32(u: int): int {
    if u >= 0x8000_0000 then u - 0x1_0000_0000 else u
  }

  /** Two's complement, least significant byte first. */
  function EncodeInt(x: int): (s: seq<byte>)
    requires Int32(x)
    ensures |s| == 4
  {
    var u := if x < 0 then x + 0x1_0000_0000 else x;
    [ByteOf(u % 256), ByteOf(u / 256 % 256), ByteOf(u / 65536 % 256), ByteOf(u / 16777216)]
  }

  function DecodeInt(s: seq<byte>): int
    requires |s| == 4
  {
    ToSigned32(Unsigned32(s[0] as int, s[1] as int, s[2] as int, s[3] as int))
  }

  lemma Digits(u: int)
    requires 0 <= u < 0x1_0000_0000
    ensures Unsigned32(u % 256, u / 256 % 256, u / 65536 % 256, u / 16777216) == u
  {}

  lemma IntRoundTrip(x: int)
    requires Int32(x)
    ensures DecodeInt(EncodeInt(x)) == x
  {
    var u := if x < 0 then x + 0x1_0000_0000 else x;
    Digits(u);
    var s := EncodeInt(x);
    assert s[0] as int == u % 256 && s[1] as int == u / 256 % 256;
    assert s[2] as int == u / 65536 % 256 && s[3] as int == u / 16777216;
  }

  function EncodeInts(xs: seq<int>): (s: seq<byte>)
    requires forall x :: x in xs ==> Int32(x)
    ensures |s| == 4 * |xs|
  {
    if xs == [] then [] else EncodeInts(xs[..|xs| - 1]) + EncodeInt(xs[|xs| - 1])
  }

  function DecodeInts(s: seq<byte>, n: nat): (xs: seq<int>)
    requires |s| == 4 * n
    ensures |xs| == n
  {
    if n == 0 then [] else DecodeInts(s[..4 * (n - 1)], n - 1) + [DecodeInt(s[4 * (n - 1)..])]
  }

  lemma {:induction false} IntsRoundTrip(xs: seq<int>)
    requires forall x :: x in xs ==> Int32(x)
    ensures DecodeInts(EncodeInts(xs), |xs|) == xs
  {
    hide DecodeInt, EncodeInt, Int32, DecodeInts;
    if xs == [] {
      DecodeNone();
    } else {
      var k := |xs| - 1;
      IntsRoundTrip(xs[..k]);
      IntRoundTrip(xs[k]);
      DecodeAppend(EncodeInts(xs[..k]), EncodeInt(xs[k]), k);
    }
  }

  lemma DecodeNone()
    ensures DecodeInts([], 0) == []
  {}

  lemma DecodeAppend(s: seq<byte>, last: seq<byte>, n: nat)
    requires |s| == 4 * n && |last| == 4
    ensures DecodeInts(s + last, n + 1) == DecodeInts(s, n) + [DecodeInt(last)]
  {
    hide DecodeInt;
    assert (s + last)[..4 * n] == s && (s + last)[4 * n..] == last;
  }

  /** The four bytes from `at` on hold x: least significant first, modulo 2^32. */
  predicate IntAt(bs: seq<byte>, at: nat, x: int) {
    && at + 4 <= |bs| && Int32(x)
    && (bs[at] as int + 0x100 * bs[at + 1] as int + 0x1_0000 * bs[at + 2] as int + 0x100_0000 * bs[at + 3] as int - x)
         % 0x1_0000_0000 == 0
  }

  lemma DecodeIntIs(bs: seq<byte>, at: nat)
    requires at + 4 <= |bs|
    ensures IntAt(bs, at, DecodeInt(bs[at..at + 4]))
  {
    hide ToSigned32, Unsigned32, Int32;
    SignedDigits(bs[at] as int, bs[at + 1] as int, bs[at + 2] as int, bs[at + 3] as int);
  }

  lemma SignedDigits(a: int, b: int, c: int, d: int)
    requires 0 <= a < 256 && 0 <= b < 256 && 0 <= c < 256 && 0 <= d < 256
    ensures var x := ToSigned32(Unsigned32(a, b, c, d));
      Int32(x) && (a + 0x100 * b + 0x1_0000 * c + 0x100_0000 * d - x) % 0x1_0000_0000 == 0
  {}

  lemma {:induction false} DecodeIntsIs(bs: seq<byte>, at: nat, n: nat, k: nat)
    requires at + 4 * n <= |bs| && k < n
    ensures IntAt(bs, at + 4 * k, DecodeInts(bs[at..at + 4 * n], n)[k])
  {
    hide IntAt, DecodeInt;
    var s := bs[at..at + 4 * n];
    assert s[..4 * (n - 1)] == bs[at..at + 4 * (n - 1)];
    assert s[4 * (n - 1)..] == bs[at + 4 * (n - 1)..at + 4 * (n - 1) + 4];
    if k == n - 1 {
      DecodeIntIs(bs, at + 4 * k);
    } else {
      DecodeIntsIs(bs, at, n - 1, k);
    }
  }

  // ------------------------------------------------ 16-bit integers

  predicate Short(x: int) {
    0 <= x < 0x8000
  }

  /** The entries of an indirect block are C shorts; block ids are never negative. */
  function EncodeShorts(xs: seq<int>): (s: seq<byte>)
    requires forall x :: x in xs ==> Short(x)
    ensures |s| == 2 * |xs|
  {
    if xs == [] then []
    else
      var x := xs[|xs| - 1];
      assert Short(x);
      EncodeShorts(xs[..|xs| - 1]) + [ByteOf(x % 256), ByteOf(x / 256)]
  }

  function DecodeShorts(s: seq<byte>, n: nat): (xs: seq<int>)
    requires |s| == 2 * n
    ensures |xs| == n
  {
    if n == 0 then []
    else
      DecodeShorts(s[..2 * (n - 1)], n - 1) + [s[2 * n - 2] as int + 256 * (s[2 * n - 1] as int)]
  }

  lemma {:induction false} ShortsRoundTrip(xs: seq<int>)
    requires forall x :: x in xs ==> Short(x)
    ensures DecodeShorts(EncodeShorts(xs), |xs|) == xs
  {
    hide DecodeShorts;
    if xs == [] {
      DecodeNoShorts();
    } else {
      var k := |xs| - 1;
      ShortsRoundTrip(xs[..k]);
      assert Short(xs[k]);
      ShortAppend(EncodeShorts(xs[..k]), xs[k], k);
    }
  }

  lemma DecodeNoShorts()
    ensures DecodeShorts([], 0) == []
  {}

  lemma ShortAppend(s: seq<byte>, x: int, n: nat)
    requires |s| == 2 * n && Short(x)
    ensures DecodeShorts(s + [ByteOf(x % 256), ByteOf(x / 256)], n + 1) == DecodeShorts(s, n) + [x]
  {
    hide ByteOf;
    assert (s + [ByteOf(x % 256), ByteOf(x / 256)])[..2 * n] == s;
  }

  // ------------------------------------------------------- C strings

  /** The contents of a C string: every character is one nonzero byte. */
  predicate IsCString(s: string) {
    forall i :: 0 <= i < |s| ==> 0 < s[i] as int < 256
  }

  function Zeros(n: nat): (s: seq<byte>)
    ensures |s| == n
    ensures forall i :: 0 <= i < n ==> s[i] == 0
  {
    seq(n, _ => 0)
  }

  function CharByte(c: char): byte
    requires c as int < 256
  {
    ByteOf(c as int)
  }

  function ByteChar(b: byte): char {
    (b as int) as char
  }

  lemma CharRoundTrip(c: char)
    requires 0 < c as int < 256
    ensures ByteChar(CharByte(c)) == c && CharByte(c) != 0
  {
    hide ByteOf;
  }

  /** A string in a zero-filled field of `width` bytes. */
  function EncodeString(s: string, width: nat): (bs: seq<byte>)
    requires IsCString(s) && |s| < width
    ensures |bs| == width
    decreases |s|
  {
    if s == "" then Zeros(width) else [CharByte(s[0])] + EncodeString(s[1..], width - 1)
  }

  /** What `strlen` and `strcmp` see of a field: the characters before the first NUL. */
  function DecodeString(bs: seq<byte>): (s: string)
    ensures |s| <= |bs|
  {
    if bs == [] || bs[0] == 0 then "" else [ByteChar(bs[0])] + DecodeString(bs[1..])
  }

  lemma {:induction false} StringRoundTrip(s: string, width: nat)
    requires IsCString(s) && |s| < width
    ensures DecodeString(EncodeString(s, width)) == s
    decreases |s|
  {
    if s != "" {
      CharRoundTrip(s[0]);
      StringRoundTrip(s[1..], width - 1);
    }
  }

  /** The field from `at` on holds s: its characters, each one byte, and a NUL unless it is full. */
  predicate NameAt(bs: seq<byte>, at: nat, width: nat, s: string) {
    && at + width <= |bs| && |s| <= width
    && (forall i :: 0 <= i < |s| ==> IsChar(bs, at + i, s[i]))
    && (|s| < width ==> bs[at + |s|] == 0)
  }

  predicate IsChar(bs: seq<byte>, at: int, c: char) {
    0 <= at < |bs| && bs[at] != 0 && bs[at] as int == c as int
  }

  lemma {:induction false} DecodeStringIs(bs: seq<byte>)
    ensures NameAt(bs, 0, |bs|, DecodeString(bs))
  {
    if bs != [] && bs[0] != 0 {
      DecodeStringIs(bs[1..]);
      var rest, s := bs[1..], DecodeString(bs[1..]);
      var all := [ByteChar(bs[0])] + s;
      forall i | 0 <= i < |all|
        ensures IsChar(bs, 0 + i, all[i])
      {
        if i > 0 {
          assert IsChar(rest, 0 + (i - 1), s[i - 1]);
        }
      }
      assert DecodeString(bs) == all;
    }
  }

  /** `strncpy(dst, src, n)`: the bytes before the first NUL of src, at most n, padded with NULs. */
  function StrNCpy(src: seq<byte>, n: nat): (dst: seq<byte>)
    ensures |dst| == n
    decreases n
  {
    if n == 0 then []
    else if src == [] || src[0] == 0 then Zeros(n)
    else [src[0]] + StrNCpy(src[1..], n - 1)
  }

  lemma {:induction false} StrNCpyWithoutNul(src: seq<byte>, n: nat)
    requires n <= |src| && 0 !in src[..n]
    ensures StrNCpy(src, n) == src[..n]
    decreases n
  {
    if n > 0 {
      assert src[..n][0] == src[0];
      assert src[1..][..n - 1] == src[..n][1..];
      StrNCpyWithoutNul(src[1..], n - 1);
    }
  }

  /** strncpy byte by byte: src up to its first NUL, zeros from there on. */
  lemma {:induction false} StrNCpyAt(src: seq<byte>, n: nat, i: nat)
    requires i < n
    ensures StrNCpy(src, n)[i] == if i < |src| && 0 !in src[..i + 1] then src[i] else 0
    decreases n
  {
    if src != [] && src[0] != 0 && i > 0 {
      StrNCpyAt(src[1..], n - 1, i - 1);
      if i < |src| {
        assert src[..i + 1] == [src[0]] + src[1..][..i];
      }
    } else if src != [] && i < |src| {
      assert src[..i + 1][0] == src[0];
    }
  }
}
