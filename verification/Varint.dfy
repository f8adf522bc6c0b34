/**
 Base 128 varints as the generated codec writes and reads them
 (x/oracle/types/oracle.pb.go:627-637, 739-741, 1144-1157), following "Base 128 Varints" of the
 Protocol Buffers Encoding specification. Go's uint64 arithmetic is written out.
 */
module Varint {
  import opened Wrappers

  type byte = b: int | 0 <= b < 256
  type Bytes = seq<byte>

  const TWO63: int := 0x8000_0000_0000_0000
  const TWO64: int := 0x1_0000_0000_0000_0000

  type uint64 = x: int | 0 <= x < 0x1_0000_0000_0000_0000

  datatype Error =
    | IntOverflow | UnexpectedEOF | InvalidLength | EndGroupForNonGroup | IllegalTag
    | WrongWireType | UnexpectedEndOfGroup | IllegalWireType

  // ---------- writing

  /** What a varint means: groups of seven bits, the least significant first. */
  function ValueOf(bytes: Bytes): nat {
    if bytes == [] then 0 else bytes[0] % 128 + 128 * ValueOf(bytes[1..])
  }

  /** All bytes but the last have their high bit set, and no varint ends in a superfluous zero. */
  predicate IsVarint(bytes: Bytes) {
    && bytes != [] && bytes[|bytes| - 1] < 128
    && (forall i :: 0 <= i < |bytes| - 1 ==> bytes[i] >= 128)
    && (|bytes| > 1 ==> bytes[|bytes| - 1] > 0)
  }

  lemma {:induction false} EncodeMeaning(v: nat)
    ensures IsVarint(Encode(v)) && ValueOf(Encode(v)) == v
  {
    if v < 128 {
      assert Encode(v)[1..] == [];
    } else {
      EncodeMeaning(v / 128);
      VarintGrown(v, Encode(v / 128));
    }
  }

  lemma VarintGrown(v: nat, rest: Bytes)
    requires v >= 128 && IsVarint(rest) && ValueOf(rest) == v / 128
    ensures IsVarint([v % 128 + 128] + rest) && ValueOf([v % 128 + 128] + rest) == v
  {
    var bytes := [v % 128 + 128] + rest;
    assert bytes[1..] == rest;
    assert forall i :: 1 <= i < |bytes| ==> bytes[i] == rest[i - 1];
    if |rest| == 1 {
      assert rest[1..] == [];
    }
  }

  function Encode(v: nat): Bytes {
    if v < 128 then [v] else [v % 128 + 128] + Encode(v / 128)
  }

  /** bits.Len64. */
  function BitLen(v: nat): nat {
    if v == 0 then 0 else 1 + BitLen(v / 2)
  }

  /** v | 1. */
  function OrOne(v: nat): nat {
    if v % 2 == 1 then v else v + 1
  }

  /** sovOracle (oracle.pb.go:739-741). */
  function Sov(v: nat): nat {
    (BitLen(OrOne(v)) + 6) / 7
  }

  lemma BitLenOrOne(v: nat)
    requires v > 0
    ensures BitLen(OrOne(v)) == BitLen(v)
  {
  }

  lemma BitLenSeven(v: nat)
    requires v >= 128
    ensures BitLen(v) == 7 + BitLen(v / 128)
  {
    hide BitLen;
    BitLenHalf(v);
    BitLenHalf(v / 2);
    BitLenHalf(v / 4);
    BitLenHalf(v / 8);
    BitLenHalf(v / 16);
    BitLenHalf(v / 32);
    BitLenHalf(v / 64);
    assert v / 2 / 2 == v / 4 && v / 4 / 2 == v / 8 && v / 8 / 2 == v / 16;
    assert v / 16 / 2 == v / 32 && v / 32 / 2 == v / 64 && v / 64 / 2 == v / 128;
  }

  lemma BitLenHalf(v: nat)
    requires v > 0
    ensures BitLen(v) == 1 + BitLen(v / 2)
  {
  }

  lemma BitLenSmall(v: nat)
    requires 0 < v < 128
    ensures 1 <= BitLen(v) <= 7
  {
    BitLenBound(v, 7, 128);
  }

  lemma {:induction false} BitLenBound(v: nat, k: nat, limit: nat)
    requires v < limit && limit == Power2(k)
    ensures BitLen(v) <= k
  {
    if v > 0 && k > 0 {
      BitLenBound(v / 2, k - 1, limit / 2);
    }
  }

  function Power2(k: nat): nat {
    if k == 0 then 1 else 2 * Power2(k - 1)
  }

  /** The size computed from the bit length is the number of bytes written. */
  lemma {:induction false} SovIsLength(v: nat)
    ensures Sov(v) == |Encode(v)|
  {
    if v == 0 {
      assert BitLen(1) == 1 + BitLen(0);
    } else {
      BitLenOrOne(v);
      if v < 128 {
        BitLenSmall(v);
      } else {
        SovIsLength(v / 128);
        BitLenOrOne(v / 128);
        BitLenSeven(v);
      }
    }
  }

  /** encodeVarintOracle (oracle.pb.go:627-637): writes just below the offset and returns where the bytes start. */
  method EncodeVarint(buffer: array<byte>, offset: nat, v: uint64) returns (base: nat)
    requires Sov(v) <= offset <= buffer.Length
    modifies buffer
    ensures base == offset - Sov(v)
    ensures buffer[base..offset] == Encode(v)
    ensures buffer[..base] == old(buffer[..base]) && buffer[offset..] == old(buffer[offset..])
  {
    SovIsLength(v);
    base := offset - Sov(v);
    ghost var pre, written: Bytes := buffer[..], [];
    var i, rest := base, v;
    assert buffer[..] == pre[..base] + written + pre[i..];
    while rest >= 128
      invariant base <= i && i + |Encode(rest)| == offset && |written| == i - base
      invariant written + Encode(rest) == Encode(v)
      invariant buffer[..] == pre[..base] + written + pre[i..]
      decreases rest
    {
      SplicePut(pre, base, written, i, rest % 128 + 128);
      assert written + Encode(rest) == (written + [rest % 128 + 128]) + Encode(rest / 128);
      buffer[i] := rest % 128 + 128;
      written := written + [rest % 128 + 128];
      rest := rest / 128;
      i := i + 1;
    }
    SplicePut(pre, base, written, i, rest);
    buffer[i] := rest;
    SpliceParts(pre, base, written + [rest], offset, buffer[..]);
  }

  /** Storing one byte behind what is already written into a buffer. */
  lemma SplicePut(pre: Bytes, base: nat, written: Bytes, i: nat, b: byte)
    requires base + |written| == i < |pre|
    ensures (pre[..base] + written + pre[i..])[i := b] == pre[..base] + (written + [b]) + pre[i + 1..]
  {
  }

  lemma SpliceParts(pre: Bytes, base: nat, written: Bytes, offset: nat, post: Bytes)
    requires base + |written| == offset <= |pre| && post == pre[..base] + written + pre[offset..]
    ensures |post| == |pre| && post[base..offset] == written
    ensures post[..base] == pre[..base] && post[offset..] == pre[offset..]
  {
  }

  // ---------- reading

  function Pow128(k: nat): nat {
    if k == 0 then 1 else 128 * Pow128(k - 1)
  }

  /** The varint loop (oracle.pb.go:1144-1157) from its k-th byte on, with the bits gathered so far. */
  function DecodeFrom(data: Bytes, i: nat, k: nat, acc: uint64): (r: Result<(uint64, nat), Error>)
    ensures r.Ok? ==> i < r.value.1 <= |data|
    decreases if i <= |data| then |data| - i else 0
  {
    if k >= 10 then Err(IntOverflow)
    else if i >= |data| then Err(UnexpectedEOF)
    else
      var acc' := (acc + data[i] % 128 * Pow128(k)) % TWO64;
      if data[i] < 128 then Ok((acc', i + 1)) else DecodeFrom(data, i + 1, k + 1, acc')
  }

  function Decode(data: Bytes, i: nat): (r: Result<(uint64, nat), Error>)
    ensures r.Ok? ==> i < r.value.1 <= |data|
  {
    DecodeFrom(data, i, 0, 0)
  }

  method DecodeVarint(data: Bytes, start: nat) returns (r: Result<(uint64, nat), Error>)
    requires start <= |data|
    ensures r == Decode(data, start)
  {
    var i, value: uint64, shift: nat, scale: nat := start, 0, 0, 1;
    while true
      invariant start <= i <= |data| && shift == 7 * (i - start) && scale == Pow128(i - start)
      invariant Decode(data, start) == DecodeFrom(data, i, i - start, value)
      decreases |data| - i
    {
      if shift >= 64 {
        return Err(IntOverflow);
      }
      if i >= |data| {
        return Err(UnexpectedEOF);
      }
      var b: int := data[i];
      i := i + 1;
      value := (value + b % 128 * scale) % TWO64;
      if b < 128 {
        return Ok((value, i));
      }
      shift, scale := shift + 7, scale * 128;
    }
  }

  lemma {:induction false} Pow128Grows(j: nat, k: nat)
    requires j <= k
    ensures 1 <= Pow128(j) <= Pow128(k)
  {
    if j < k {
      Pow128Grows(j, k - 1);
    } else if j > 0 {
      Pow128Grows(j - 1, j - 1);
    }
  }

  lemma Pow128Ten()
    ensures Pow128(10) >= TWO64
  {
    assert Pow128(2) == 16384;
    assert Pow128(4) == 16384 * 16384;
    assert Pow128(6) == 16384 * 16384 * 16384;
    assert Pow128(8) == 16384 * 16384 * 16384 * 16384;
    assert Pow128(10) == 16384 * 16384 * 16384 * 16384 * 16384;
  }

  lemma ScaleSplit(v: nat, s: nat)
    ensures v % 128 * s + v / 128 * (128 * s) == v * s
  {
    assert v == v % 128 + 128 * (v / 128);
    assert (v % 128 + 128 * (v / 128)) * s == v % 128 * s + (128 * (v / 128)) * s;
    assert (128 * (v / 128)) * s == v / 128 * (128 * s);
  }

  lemma AtMostTenBytes(k: nat, v: nat)
    requires v > 0 && v * Pow128(k) < TWO64
    ensures k < 10
  {
    if k >= 10 {
      Pow128Grows(10, k);
      Pow128Ten();
      ScaleAtLeast(v, Pow128(k));
      assert false;
    }
  }

  lemma ScaleAtLeast(v: nat, s: nat)
    requires v > 0
    ensures v * s >= s
  {
  }

  /** The bytes of a varint, read from the k-th on, add its value at their scale. */
  lemma {:induction false} DecodeEncoded(data: Bytes, i: nat, k: nat, acc: uint64, v: nat)
    requires i + |Encode(v)| <= |data| && data[i..i + |Encode(v)|] == Encode(v)
    requires acc + v * Pow128(k) < TWO64 && (k == 0 || v > 0)
    ensures DecodeFrom(data, i, k, acc) == Ok((acc + v * Pow128(k), i + |Encode(v)|))
    decreases v
  {
    hide Pow128, DecodeFrom, Encode;
    var s := Pow128(k);
    EncodedHead(data, i, v);
    if v > 0 {
      AtMostTenBytes(k, v);
    }
    if v < 128 {
      DecodeLast(data, i, k, acc);
    } else {
      ScaleSplit(v, s);
      Pow128Next(k);
      ScaleNonNegative(v / 128, 128 * s);
      DecodeMore(data, i, k, acc, v % 128);
      DecodeEncoded(data, i + 1, k + 1, acc + v % 128 * s, v / 128);
    }
  }

  /** A varint in the input is its low bits, and for a larger value the varint of the rest behind them. */
  lemma EncodedHead(data: Bytes, i: nat, v: nat)
    requires i + |Encode(v)| <= |data| && data[i..i + |Encode(v)|] == Encode(v)
    ensures i < |data|
    ensures v < 128 ==> data[i] == v && |Encode(v)| == 1
    ensures v >= 128 ==>
      && data[i] == v % 128 + 128 && |Encode(v)| == 1 + |Encode(v / 128)|
      && i + 1 + |Encode(v / 128)| <= |data| && data[i + 1..i + 1 + |Encode(v / 128)|] == Encode(v / 128)
  {
    var n := |Encode(v)|;
    assert data[i] == data[i..i + n][0];
    if v >= 128 {
      assert Encode(v)[1..] == Encode(v / 128);
      assert data[i + 1..i + n] == data[i..i + n][1..];
    }
  }

  lemma ScaleNonNegative(a: nat, b: nat)
    ensures a * b >= 0
  {
  }

  lemma DecodeLast(data: Bytes, i: nat, k: nat, acc: uint64)
    requires i < |data| && k < 10 && data[i] < 128 && acc + data[i] * Pow128(k) < TWO64
    ensures DecodeFrom(data, i, k, acc) == Ok((acc + data[i] * Pow128(k), i + 1))
  {
    hide Pow128;
    var b: nat := data[i];
    assert b % 128 == b;
    ScaleNonNegative(b, Pow128(k));
    ModSmall(acc + b * Pow128(k));
  }

  lemma ModSmall(x: nat)
    requires x < TWO64
    ensures x % TWO64 == x
  {
  }

  lemma DecodeMore(data: Bytes, i: nat, k: nat, acc: uint64, low: nat)
    requires i < |data| && k < 10 && low < 128 && data[i] == low + 128 && acc + low * Pow128(k) < TWO64
    ensures DecodeFrom(data, i, k, acc) == DecodeFrom(data, i + 1, k + 1, acc + low * Pow128(k))
  {
    hide Pow128;
    assert data[i] % 128 == low;
    ScaleNonNegative(low, Pow128(k));
    ModSmall(acc + low * Pow128(k));
  }

  lemma Pow128Next(k: nat)
    ensures Pow128(k + 1) == 128 * Pow128(k)
  {
  }

  /** Reading a written varint gives it back and stops right behind it. */
  lemma VarintRoundTrip(data: Bytes, i: nat, v: uint64)
    requires i + |Encode(v)| <= |data| && data[i..i + |Encode(v)|] == Encode(v)
    ensures Decode(data, i) == Ok((v, i + |Encode(v)|))
  {
    assert Pow128(0) == 1;
    DecodeEncoded(data, i, 0, 0, v);
  }
}
