/**
 The VarInt loops of the client and of the staging server, each proved against the meaning
 in VarInt.
 */
module VarIntCodec {
  import opened Results
  import opened Bytes
  import opened Streams
  import opened VarInt

  /** `result |= value << (7 * numRead)` on a 32-bit word. */
  function PlaceGroup(result: uint32, b: byte, numRead: nat): nat {
    BitOr(result, (Group(b) * Pow2(7 * numRead)) % TWO_32)
  }

  /** One loop iteration extends the value read so far by one byte. */
  lemma PlaceGroupExtends(s: seq<byte>, numRead: nat)
    requires numRead < MAX_VARINT_BYTES && numRead < |s|
    requires Base128(s[..numRead]) < TWO_32
    ensures PlaceGroup(Base128(s[..numRead]), s[numRead], numRead) == Low32(Base128(s[..numRead + 1]))
    ensures numRead < 4 ==> Base128(s[..numRead + 1]) < TWO_32
  {
    Base128Bound(s[..numRead]);
    Base128Snoc(s[..numRead], s[numRead]);
    assert s[..numRead + 1] == s[..numRead] + [s[numRead]];
    OrAddsGroup(Base128(s[..numRead]), Group(s[numRead]), numRead);
    Low32IsModulo(Base128(s[..numRead + 1]));
    if numRead < 4 {
      GroupFits(Base128(s[..numRead]), Group(s[numRead]), numRead);
      GroupPowers();
    }
  }

  lemma ReadingDone(s: seq<byte>, n: nat)
    requires 1 <= n <= |s| && n <= MAX_VARINT_BYTES
    requires (forall i | 0 <= i < n - 1 :: s[i] >= 128) && s[n - 1] < 128
    ensures Decode(s) == Value(Signed(Low32(Base128(s[..n]))), n)
  {
    DenotesExactly(s[..n], Signed(Low32(Base128(s[..n]))));
    DecodeExact(s, Signed(Low32(Base128(s[..n]))), n);
  }

  /** What a stream holds after a VarInt read: a failed read has used up what it looked at. */
  ghost predicate Advanced(before: seq<byte>, after: seq<byte>, reading: Reading) {
    match reading
    case Value(_, n) => n <= |before| && after == before[n..]
    case TooLong => |before| >= 5 && after == before[5..]
    case Truncated => after == []
  }

  /** The stream reader that both sides share the text of. */
  method ReadVarInt(r: Reader) returns (reading: Reading)
    requires r.Valid()
    modifies r
    ensures r.Valid()
    ensures reading == Decode(old(r.Rest()))
    ensures Advanced(old(r.Rest()), r.Rest(), reading)
  {
    ghost var s := r.Rest();
    var numRead: nat, result: uint32 := 0, 0;
    while true
      invariant r.Valid()
      invariant numRead <= MAX_VARINT_BYTES && numRead <= |s|
      invariant r.Rest() == s[numRead..]
      invariant forall i | 0 <= i < numRead :: s[i] >= 128
      invariant numRead < MAX_VARINT_BYTES ==> result == Base128(s[..numRead])
      decreases MAX_VARINT_BYTES - numRead
    {
      if numRead >= MAX_VARINT_BYTES {
        DecodeFailure(s);
        return TooLong;
      }
      var one := r.ReadFull(1);
      if one.None? {
        DecodeFailure(s);
        return Truncated;
      }
      var b := one.value[0];
      assert b == s[numRead];
      PlaceGroupExtends(s, numRead);
      result := PlaceGroup(result, b, numRead);
      numRead := numRead + 1;
      if b < 128 {
        ReadingDone(s, numRead);
        return Value(Signed(result), numRead);
      }
    }
  }

  /** The client's slice reader: a stream reader over the slice. */
  method ClientReadVarIntFromBytes(data: seq<byte>) returns (reading: Reading)
    ensures reading == Decode(data)
  {
    var reader := new Reader(data);
    reading := ReadVarInt(reader);
    if reading.Value? {
      reading := Value(reading.value, |data| - |reader.Rest()|);
    }
  }

  /** The staging server's slice reader: an indexed loop with its own bounds check. */
  method StagingReadVarIntFromBytes(payload: seq<byte>) returns (reading: Reading)
    ensures reading == Decode(payload)
  {
    var numRead: nat, result: uint32 := 0, 0;
    while true
      invariant numRead <= MAX_VARINT_BYTES && numRead <= |payload|
      invariant forall i | 0 <= i < numRead :: payload[i] >= 128
      invariant numRead < MAX_VARINT_BYTES ==> result == Base128(payload[..numRead])
      decreases MAX_VARINT_BYTES - numRead
    {
      if numRead >= MAX_VARINT_BYTES {
        DecodeFailure(payload);
        return TooLong;
      }
      if numRead >= |payload| {
        DecodeFailure(payload);
        return Truncated;
      }
      var b := payload[numRead];
      PlaceGroupExtends(payload, numRead);
      result := PlaceGroup(result, b, numRead);
      numRead := numRead + 1;
      if b < 128 {
        ReadingDone(payload, numRead);
        return Value(Signed(result), numRead);
      }
    }
  }

  /** The client's writer appends one byte per iteration. */
  method ClientWriteVarInt(buf: Buffer, value: int32)
    modifies buf
    ensures buf.bytes == old(buf.bytes) + Encode(Unsigned(value))
  {
    var unsigned: uint32 := Unsigned(value);
    while true
      invariant old(buf.bytes) + Encode(Unsigned(value)) == buf.bytes + Encode(unsigned)
      decreases unsigned
    {
      if unsigned < 128 {
        buf.Write([unsigned]);
        return;
      }
      buf.Write([unsigned % 128 + 128]);
      unsigned := unsigned / 128;
    }
  }

  /** The staging server's writer fills a five-byte array in place and writes its front once. */
  method StagingWriteVarInt(w: Buffer, value: int32)
    modifies w
    ensures w.bytes == old(w.bytes) + Encode(Unsigned(value))
  {
    ghost var target := Encode(Unsigned(value));
    assert |target| <= MAX_VARINT_BYTES by { EncodeIsEncoding(value); }
    var buf := new byte[MAX_VARINT_BYTES];
    var n := 0;
    var v: uint32 := Unsigned(value);
    while true
      modifies buf
      invariant n < |target| && target[n..] == Encode(v)
      invariant buf[..n] == target[..n]
      decreases v
    {
      StagingByte(target, n, v);
      var temp: byte := v % 128;
      v := v / 128;
      if v != 0 {
        temp := temp + 128;
      }
      buf[n] := temp;
      n := n + 1;
      assert buf[..n] == target[..n];
      if v == 0 {
        break;
      }
    }
    assert buf[..n] == target;
    w.Write(buf[..n]);
  }

  /** The byte computed after the shift is the next byte of the encoding. */
  lemma StagingByte(target: seq<byte>, n: nat, v: uint32)
    requires n < |target| && target[n..] == Encode(v)
    ensures target[n] == v % 128 + if v / 128 != 0 then 128 else 0
    ensures v / 128 == 0 ==> n + 1 == |target|
    ensures v / 128 != 0 ==> n + 1 < |target| && target[n + 1..] == Encode(v / 128)
  {
    assert target[n] == Encode(v)[0];
    assert target[n + 1..] == Encode(v)[1..];
  }
}
