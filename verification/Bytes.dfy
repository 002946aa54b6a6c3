/**
 Fixed-width integers, the bitwise operators the wire formats use (as arithmetic on
 naturals), and big-endian byte order.
 */
module Bytes {

  const TWO_16: nat := 0x1_0000
  const TWO_31: int := 0x8000_0000
  const TWO_32: nat := 0x1_0000_0000
  const TWO_64: nat := 0x1_0000_0000_0000_0000

  type byte = b: int | 0 <= b < 256
  type uint16 = n: int | 0 <= n < TWO_16
  type uint32 = n: int | 0 <= n < TWO_32
  type uint64 = n: int | 0 <= n < TWO_64
  type int32 = n: int | -TWO_31 <= n < TWO_31

  /** Two's-complement reading of a 32-bit word. */
  function Signed(u: uint32): int32 {
    if u < TWO_31 then u else u - TWO_32
  }

  /** The 32-bit word holding a two's-complement value. */
  function Unsigned(v: int32): uint32 {
    if v < 0 then v + TWO_32 else v
  }

  function Pow2(k: nat): (p: nat)
    ensures p >= 1
  {
    if k == 0 then 1 else 2 * Pow2(k - 1)
  }

  /** Bitwise OR, bit by bit from the least significant end. */
  function BitOr(a: nat, b: nat): nat
    decreases a + b
  {
    if a == 0 && b == 0 then 0
    else (if a % 2 == 1 || b % 2 == 1 then 1 else 0) + 2 * BitOr(a / 2, b / 2)
  }

  lemma {:induction false} OrWithZero(b: nat)
    ensures BitOr(0, b) == b
  {
    if b != 0 {
      OrWithZero(b / 2);
    }
  }

  /** OR of two words whose set bits do not overlap is their sum. */
  lemma {:induction false} OrDisjoint(a: nat, k: nat, v: nat)
    requires a < Pow2(k)
    ensures BitOr(a, v * Pow2(k)) == a + v * Pow2(k)
  {
    if k == 0 {
      OrWithZero(v);
    } else {
      var w := v * Pow2(k - 1);
      assert v * Pow2(k) == 2 * w;
      OrDisjoint(a / 2, k - 1, v);
    }
  }

  /** The powers of two at which a VarInt places its 7-bit groups. */
  lemma GroupPowers()
    ensures Pow2(0) == 1 && Pow2(7) == 128 && Pow2(14) == 16384
    ensures Pow2(21) == 2097152 && Pow2(28) == 268435456
  {
    assert Pow2(4) == 16;
    assert Pow2(7) == 8 * Pow2(4);
    assert Pow2(10) == 8 * Pow2(7);
    assert Pow2(14) == 16 * Pow2(10);
    assert Pow2(18) == 16 * Pow2(14);
    assert Pow2(21) == 8 * Pow2(18);
    assert Pow2(25) == 16 * Pow2(21);
    assert Pow2(28) == 8 * Pow2(25);
  }

  function Pow256(width: nat): (p: nat)
    ensures p >= 1
  {
    if width == 0 then 1 else 256 * Pow256(width - 1)
  }

  lemma WordWidths()
    ensures Pow256(2) == TWO_16 && Pow256(8) == TWO_64
  {
    assert Pow256(2) == 256 * Pow256(1);
    assert Pow256(4) == 256 * (256 * Pow256(2));
    assert Pow256(6) == 256 * (256 * Pow256(4));
    assert Pow256(8) == 256 * (256 * Pow256(6));
  }

  /** The low `width` bytes of n, most significant first. */
  function PutBigEndian(n: nat, width: nat): (s: seq<byte>)
    ensures |s| == width
  {
    if width == 0 then [] else PutBigEndian(n / 256, width - 1) + [n % 256]
  }

  function BigEndian(s: seq<byte>): nat {
    if s == [] then 0 else 256 * BigEndian(s[..|s| - 1]) + s[|s| - 1]
  }

  /** Byte k holds the digit to base 256 that has width - 1 - k digits behind it. */
  lemma {:induction false} BigEndianBytes(n: nat, width: nat, k: nat)
    requires k < width
    ensures PutBigEndian(n, width)[k] == n / Pow256(width - 1 - k) % 256
  {
    if k < width - 1 {
      BigEndianBytes(n / 256, width - 1, k);
      DivideTwice(n, Pow256(width - 2 - k));
    }
  }

  lemma DivideTwice(n: nat, b: nat)
    requires b > 0
    ensures n / 256 / b == n / (256 * b)
  {
    var x, y := n / 256 / b, n / 256 % b;
    var d, part := 256 * b, b * x;
    assert n / 256 == part + y;
    assert d * x == 256 * part;
    UniqueQuotient(n, d, x, 256 * y + n % 256);
  }

  lemma UniqueQuotient(n: nat, d: nat, x: nat, r: nat)
    requires n == d * x + r && r < d
    ensures n / d == x
  {
    var e := n / d - x;
    assert d * e == r - n % d;
    assert e >= 1 ==> d * e >= d;
    assert e <= -1 ==> d * e + d <= 0;
  }

  lemma {:induction false} BigEndianBound(s: seq<byte>)
    ensures BigEndian(s) < Pow256(|s|)
  {
    if s != [] {
      BigEndianBound(s[..|s| - 1]);
    }
  }

  lemma {:induction false} BigEndianRoundTrip(n: nat, width: nat)
    requires n < Pow256(width)
    ensures BigEndian(PutBigEndian(n, width)) == n
  {
    if width != 0 {
      BigEndianRoundTrip(n / 256, width - 1);
      assert PutBigEndian(n, width)[..width - 1] == PutBigEndian(n / 256, width - 1);
    }
  }

  lemma {:induction false} BigEndianInjective(s: seq<byte>, t: seq<byte>)
    requires |s| == |t| && BigEndian(s) == BigEndian(t)
    ensures s == t
  {
    if s != [] {
      BigEndianInjective(s[..|s| - 1], t[..|t| - 1]);
      assert s == s[..|s| - 1] + [s[|s| - 1]];
      assert t == t[..|t| - 1] + [t[|t| - 1]];
    }
  }

  /** Reading back a 64-bit word, and only that word's bytes read back as it. */
  lemma Uint64RoundTrip(n: uint64)
    ensures BigEndian(PutBigEndian(n, 8)) == n
    ensures forall s: seq<byte> | |s| == 8 && BigEndian(s) == n :: s == PutBigEndian(n, 8)
  {
    WordWidths();
    BigEndianRoundTrip(n, 8);
    forall s: seq<byte> | |s| == 8 && BigEndian(s) == n
      ensures s == PutBigEndian(n, 8)
    {
      BigEndianInjective(s, PutBigEndian(n, 8));
    }
  }

  /** Two bytes, most significant first. */
  function PutUint16(n: uint16): (s: seq<byte>)
    ensures |s| == 2
  {
    [n / 256, n % 256]
  }

  function Uint16(s: seq<byte>): uint16
    requires |s| == 2
  {
    var high: int, low: int := s[0], s[1];
    256 * high + low
  }

  lemma Uint16RoundTrip(n: uint16)
    ensures Uint16(PutUint16(n)) == n
  {
  }

  lemma Uint16Bytes(s: seq<byte>)
    requires |s| == 2
    ensures PutUint16(Uint16(s)) == s
  {
  }
}
