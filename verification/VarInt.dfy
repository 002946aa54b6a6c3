/**
 VarInt meaning: what a variable-length integer denotes, independently of the loops
 that read and write it.
 */
module VarInt {
  import opened Bytes

  const MAX_VARINT_BYTES: nat := 5

  /** Outcome of reading a VarInt from the front of some bytes. */
  datatype Reading = Value(value: int32, consumed: nat) | TooLong | Truncated

  /** The low seven bits of a byte. */
  function Group(b: byte): nat {
    if b < 128 then b else b - 128
  }

  /** Little-endian value of the low seven bits of each byte. */
  function Base128(s: seq<byte>): nat {
    if s == [] then 0 else Group(s[0]) + 128 * Base128(s[1..])
  }

  /** n modulo 2^32. */
  function Low32(n: nat): uint32 {
    if n < TWO_32 then n else Low32(n - TWO_32)
  }

  lemma {:induction false} Low32IsModulo(n: nat)
    ensures Low32(n) == n % TWO_32
  {
    if n >= TWO_32 {
      Low32IsModulo(n - TWO_32);
      assert n % TWO_32 == (n - TWO_32) % TWO_32;
    }
  }

  /** n is the sum of h's groups. */
  ghost predicate GroupSum(h: seq<byte>, n: nat) {
    n == Base128(h)
  }

  /** v is the two's-complement reading of the sum of h's groups modulo 2^32. The one-point
      quantifier keeps the sum out of proofs that do not ask for it; DenotesExactly is the plain
      form. */
  ghost predicate Denotes(h: seq<byte>, v: int32) {
    forall n: nat :: GroupSum(h, n) ==> v == Signed(Low32(n))
  }

  /** h is one complete VarInt, of any accepted length, denoting v. */
  ghost predicate IsEncoding(h: seq<byte>, v: int32) {
    && 1 <= |h| <= MAX_VARINT_BYTES
    && (forall i | 0 <= i < |h| - 1 :: h[i] >= 128)
    && h[|h| - 1] < 128
    && Denotes(h, v)
  }

  ghost predicate StartsWith(s: seq<byte>, n: nat, v: int32) {
    n <= |s| && IsEncoding(s[..n], v)
  }

  /** Reading a VarInt off the front of s: the encoding s starts with, or why there is none. */
  ghost function Decode(s: seq<byte>): (r: Reading)
    ensures r.Value? ==> 1 <= r.consumed <= |s|
  {
    if exists n: nat, v: int32 :: StartsWith(s, n, v) then
      var n: nat, v: int32 :| StartsWith(s, n, v);
      Value(v, n)
    else if |s| >= MAX_VARINT_BYTES then TooLong
    else Truncated
  }

  lemma DenotesExactly(h: seq<byte>, v: int32)
    ensures Denotes(h, v) <==> v == Signed(Low32(Base128(h)))
  {
    assert GroupSum(h, Base128(h));
  }

  /** The meaning of a VarInt, in one formula. */
  lemma EncodingMeaning(h: seq<byte>, v: int32)
    requires IsEncoding(h, v)
    ensures v == Signed(Base128(h) % TWO_32)
  {
    DenotesExactly(h, v);
    Low32IsModulo(Base128(h));
  }

  lemma EncodingUnique(s: seq<byte>, m: nat, u: int32, n: nat, v: int32)
    requires StartsWith(s, m, u) && StartsWith(s, n, v)
    ensures m == n && u == v
  {
    DenotesExactly(s[..m], u);
    DenotesExactly(s[..n], v);
  }

  /** Reading succeeds exactly on the prefixes that are encodings. */
  lemma DecodeExact(s: seq<byte>, v: int32, n: nat)
    ensures Decode(s) == Value(v, n) <==> n <= |s| && IsEncoding(s[..n], v)
  {
    if StartsWith(s, n, v) {
      var r := Decode(s);
      EncodingUnique(s, n, v, r.consumed, r.value);
    }
  }

  lemma DecodePrefix(h: seq<byte>, rest: seq<byte>, v: int32)
    requires IsEncoding(h, v)
    ensures Decode(h + rest) == Value(v, |h|)
  {
    assert (h + rest)[..|h|] == h;
    DecodeExact(h + rest, v, |h|);
  }

  lemma {:induction false} FirstEnd(s: seq<byte>, k: nat)
    requires k < |s| && k < MAX_VARINT_BYTES && s[k] < 128
    ensures Decode(s).Value?
  {
    if j: nat :| j < k && s[j] < 128 {
      FirstEnd(s, j);
    } else {
      var v := Signed(Low32(Base128(s[..k + 1])));
      DenotesExactly(s[..k + 1], v);
      assert StartsWith(s, k + 1, v);
    }
  }

  /** The failing reads: five continued bytes, or all bytes continued and fewer than five. */
  lemma DecodeFailure(s: seq<byte>)
    ensures Decode(s).TooLong? <==> |s| >= 5 && forall i | 0 <= i < 5 :: s[i] >= 128
    ensures Decode(s).Truncated? <==> |s| < 5 && forall i | 0 <= i < |s| :: s[i] >= 128
  {
    if Decode(s).Value? {
      var n := Decode(s).consumed;
      assert s[n - 1] == s[..n][n - 1] < 128;
    } else if k: nat :| k < |s| && k < 5 && s[k] < 128 {
      FirstEnd(s, k);
    }
  }

  /** A proper prefix of an encoding is read as truncated: the format is prefix-free. */
  lemma ProperPrefixTruncated(h: seq<byte>, n: nat, v: int32)
    requires IsEncoding(h, v) && n < |h|
    ensures Decode(h[..n]).Truncated?
  {
    DecodeFailure(h[..n]);
  }

  lemma {:induction false} Base128Snoc(s: seq<byte>, b: byte)
    ensures Base128(s + [b]) == Base128(s) + Group(b) * Pow2(7 * |s|)
  {
    if s == [] {
      assert s + [b] == [b] && [b][1..] == [];
      assert Pow2(7 * |s|) == 1;
    } else {
      Base128Snoc(s[1..], b);
      assert (s + [b])[1..] == s[1..] + [b];
      Pow2By7(|s| - 1);
      Regroup(Base128(s[1..]), Group(b), Pow2(7 * (|s| - 1)), Pow2(7 * |s|));
    }
  }

  lemma Regroup(n: nat, g: nat, p: nat, p': nat)
    requires p' == 128 * p
    ensures 128 * (n + g * p) == 128 * n + g * p'
  {
    assert 128 * (g * p) == g * (128 * p);
  }

  lemma Pow2By7(n: nat)
    ensures Pow2(7 * n + 7) == 128 * Pow2(7 * n)
  {
    assert Pow2(7 * n + 2) == 2 * Pow2(7 * n + 1) == 4 * Pow2(7 * n);
    assert Pow2(7 * n + 4) == 2 * Pow2(7 * n + 3) == 4 * Pow2(7 * n + 2);
    assert Pow2(7 * n + 6) == 2 * Pow2(7 * n + 5) == 4 * Pow2(7 * n + 4);
  }

  lemma {:induction false} Base128Bound(s: seq<byte>)
    ensures Base128(s) < Pow2(7 * |s|)
  {
    if s != [] {
      Base128Bound(s[1..]);
      Pow2By7(|s| - 1);
    }
  }

  lemma GroupFits(acc: nat, v: nat, n: nat)
    requires n < 4 && v < 128 && acc < Pow2(7 * n)
    ensures acc + v * Pow2(7 * n) < Pow2(28)
  {
    GroupPowers();
    if n == 0 {
    } else if n == 1 {
    } else if n == 2 {
    } else {
      assert n == 3;
    }
  }

  lemma TopGroupWraps(acc: nat, v: nat)
    requires v < 128 && acc < 268435456
    ensures (v * 268435456) % TWO_32 == (v % 16) * 268435456
    ensures (acc + v * 268435456) % TWO_32 == acc + (v % 16) * 268435456
  {
    assert v * 268435456 == (v / 16) * TWO_32 + (v % 16) * 268435456;
  }

  lemma GroupWraps(acc: nat, v: nat, n: nat)
    requires n < MAX_VARINT_BYTES && v < 128 && acc < Pow2(7 * n)
    ensures var w := if n < 4 then v else v % 16;
            && (v * Pow2(7 * n)) % TWO_32 == w * Pow2(7 * n)
            && (acc + v * Pow2(7 * n)) % TWO_32 == acc + w * Pow2(7 * n)
  {
    GroupPowers();
    if n < 4 {
      GroupFits(acc, v, n);
    } else {
      TopGroupWraps(acc, v);
    }
  }

  /** Shifting into place modulo 2^32 and OR-ing is addition modulo 2^32. */
  lemma OrAddsGroup(acc: nat, v: nat, n: nat)
    requires n < MAX_VARINT_BYTES && v < 128 && acc < Pow2(7 * n)
    ensures BitOr(acc, (v * Pow2(7 * n)) % TWO_32) == (acc + v * Pow2(7 * n)) % TWO_32
  {
    var w := if n < 4 then v else v % 16;
    GroupWraps(acc, v, n);
    OrDisjoint(acc, 7 * n, w);
  }

  /** The shortest encoding: what both writers emit. */
  function Encode(u: uint32): (s: seq<byte>)
    ensures s != []
  {
    if u < 128 then [u] else [u % 128 + 128] + Encode(u / 128)
  }

  lemma {:induction false} EncodeShape(u: uint32, k: nat)
    requires 1 <= k && u < Pow2(7 * k)
    ensures |Encode(u)| <= k
    ensures Base128(Encode(u)) == u
    ensures Encode(u)[|Encode(u)| - 1] < 128
    ensures forall i | 0 <= i < |Encode(u)| - 1 :: Encode(u)[i] >= 128
    decreases k
  {
    if u < 128 {
      assert Base128([u]) == Group(u) + 128 * Base128([]);
    } else {
      GroupPowers();
      assert k > 1;
      Pow2By7(k - 1);
      EncodeShape(u / 128, k - 1);
    }
  }

  /** Both writers' output denotes the value written, in at most five bytes. */
  lemma EncodeIsEncoding(v: int32)
    ensures IsEncoding(Encode(Unsigned(v)), v)
  {
    GroupPowers();
    Pow2By7(4);
    EncodeShape(Unsigned(v), 5);
    DenotesExactly(Encode(Unsigned(v)), v);
  }

  /** Write then read: every int32 comes back and the bytes behind it stay unread. */
  lemma EncodeDecode(v: int32, rest: seq<byte>)
    ensures Decode(Encode(Unsigned(v)) + rest) == Value(v, |Encode(Unsigned(v))|)
    ensures |Encode(Unsigned(v))| <= MAX_VARINT_BYTES
  {
    EncodeIsEncoding(v);
    DecodePrefix(Encode(Unsigned(v)), rest, v);
  }

  /** No accepted encoding of a value is shorter than the one the writers emit. */
  lemma EncodeShortest(s: seq<byte>, v: int32, n: nat)
    requires Decode(s) == Value(v, n)
    ensures |Encode(Unsigned(v))| <= n
  {
    DecodeExact(s, v, n);
    if n < 5 {
      Base128Bound(s[..n]);
      FourGroupsFit(n);
      DenotesExactly(s[..n], v);
      assert Unsigned(v) == Base128(s[..n]);
      EncodeShape(Unsigned(v), n);
    } else {
      EncodeIsEncoding(v);
    }
  }

  lemma FourGroupsFit(n: nat)
    requires n < 5
    ensures Pow2(7 * n) <= TWO_32
  {
    GroupPowers();
  }
}
