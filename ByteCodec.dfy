/**
 * The `int`/`long` byte helpers of the storage tests. They go through
 * `java.nio.ByteBuffer`, whose byte order is big-endian unless changed:
 * `putInt`/`putLong` write the two's-complement value most significant
 * byte first, `getInt`/`getLong` read it back the same way.
 */
module ByteCodec {
  import opened JavaLang

  const TwoTo31: int := 0x8000_0000
  const TwoTo32: int := 0x1_0000_0000
  const TwoTo63: int := 0x8000_0000_0000_0000
  const TwoTo64: int := 0x1_0000_0000_0000_0000

  function Pow256(n: nat): (p: nat)
    ensures p >= 1
  {
    if n == 0 then 1 else 256 * Pow256(n - 1)
  }

  lemma Pow256Values()
    ensures Pow256(3) == 0x100_0000 && Pow256(4) == TwoTo32
    ensures Pow256(7) == 0x100_0000_0000_0000 && Pow256(8) == TwoTo64
  {
  }

  /** A leading digit `d` followed by a value below `p` stays below `256 * p`. */
  lemma LeadingDigitBound(d: uint8, p: nat, rest: nat)
    requires rest < p
    ensures d * p + rest < 256 * p
  {
    assert d * p <= 255 * p;
  }

  /** Quotient and remainder of `d * p + rest` by `p` are `d` and `rest`. */
  lemma DivModOfDigit(d: nat, p: nat, rest: nat)
    requires 0 <= rest < p
    ensures (d * p + rest) / p == d && (d * p + rest) % p == rest
  {
    var v := d * p + rest;
    var q, m := v / p, v % p;
    assert v == q * p + m;
    MulMonotone(d + 1, q, p);
    MulMonotone(q + 1, d, p);
  }

  /** A value below `256 * p` is a digit below 256 times `p` plus a remainder below `p`. */
  lemma SplitLeadingDigit(v: nat, p: nat)
    requires 0 < p && v < 256 * p
    ensures v / p < 256 && v == (v / p) * p + v % p && v % p < p
  {
    MulMonotone(256, v / p, p);
  }

  lemma MulMonotone(a: int, b: int, p: nat)
    ensures a <= b ==> a * p <= b * p
  {
  }

  /** Digits of a value in base 256, read off after cutting it to fewer bytes. */
  lemma ThirdByteDigit(u: nat)
    ensures (u % 0x100_0000) / 0x1_0000 == (u / 0x1_0000) % 256
  {
  }

  lemma ThirdByteRest(u: nat)
    ensures (u % 0x100_0000) % 0x1_0000 == u % 0x1_0000
  {
  }

  lemma SecondByteDigit(u: nat)
    ensures (u % 0x1_0000) / 0x100 == (u / 0x100) % 256
  {
  }

  lemma SecondByteRest(u: nat)
    ensures (u % 0x1_0000) % 0x100 == u % 0x100
  {
  }

  /** The number that a byte sequence spells, most significant byte first. */
  function Unsigned(bs: seq<uint8>): (v: nat)
    ensures v < Pow256(|bs|)
  {
    if |bs| == 0 then 0
    else
      var rest := Unsigned(bs[1..]);
      LeadingDigitBound(bs[0], Pow256(|bs| - 1), rest);
      bs[0] * Pow256(|bs| - 1) + rest
  }

  /** The `n` bytes that spell `v`, most significant byte first. */
  function BigEndian(v: nat, n: nat): (bs: seq<uint8>)
    requires v < Pow256(n)
    ensures |bs| == n && Unsigned(bs) == v
  {
    if n == 0 then []
    else
      var p := Pow256(n - 1);
      var rest := BigEndian(v % p, n - 1);
      SplitLeadingDigit(v, p);
      var bs := [(v / p) as uint8] + rest;
      assert bs[1..] == rest;
      assert Unsigned(bs) == bs[0] * p + Unsigned(rest);
      bs
  }

  lemma {:induction false} BigEndianOfUnsigned(bs: seq<uint8>)
    ensures BigEndian(Unsigned(bs), |bs|) == bs
  {
    if |bs| > 0 {
      var p := Pow256(|bs| - 1);
      var rest := Unsigned(bs[1..]);
      DivModOfDigit(bs[0], p, rest);
      BigEndianOfUnsigned(bs[1..]);
      assert bs == [bs[0]] + bs[1..];
    }
  }

  /** Two's-complement reading of 32 bits. */
  function Signed32(u: nat): (i: int32)
    requires u < TwoTo32
    ensures i as int % TwoTo32 == u
  {
    if u < TwoTo31 then u as int32 else (u - TwoTo32) as int32
  }

  /** Two's-complement reading of 64 bits. */
  function Signed64(u: nat): (l: int64)
    requires u < TwoTo64
    ensures l as int % TwoTo64 == u
  {
    if u < TwoTo63 then u as int64 else (u - TwoTo64) as int64
  }

  /** `intToBytes`: `ByteBuffer.allocate(4).putInt(i).array()`. */
  function IntToBytes(i: int32): (bs: seq<uint8>)
    ensures |bs| == 4
    ensures Unsigned(bs) == i as int % TwoTo32
  {
    Pow256Values();
    BigEndian(i as int % TwoTo32, 4)
  }

  /** `bytesToInt(b)`: `ByteBuffer.wrap(b).getInt()` reads `b[0..4]`. */
  function BytesToInt(b: seq<uint8>): (r: Result<int32>)
    ensures r.Ok? <==> |b| >= 4
    ensures r.Throws? ==> r.error == BufferUnderflow
    ensures r.Ok? ==> r.value as int % TwoTo32 == Unsigned(b[..4])
  {
    if |b| < 4 then Throws(BufferUnderflow)
    else
      Pow256Values();
      Ok(Signed32(Unsigned(b[..4])))
  }

  /**
   * `bytesToInt(b, offset, length)`: `ByteBuffer.wrap(b, offset, length)`
   * rejects a window outside `b`; `getInt` then needs four bytes in it.
   */
  function BytesToIntAt(b: seq<uint8>, offset: int32, length: int32): (r: Result<int32>)
    ensures r.Throws? && r.error == IndexOutOfBounds
            <==> offset < 0 || length < 0 || offset as int + length as int > |b|
    ensures r.Throws? && r.error == BufferUnderflow
            <==> 0 <= offset && 0 <= length < 4 && offset as int + length as int <= |b|
    ensures r.Ok? <==> 0 <= offset && 4 <= length && offset as int + length as int <= |b|
    ensures r.Ok? ==> r == BytesToInt(b[offset..])
    ensures r.Ok? ==> r.value as int % TwoTo32 == Unsigned(b[offset..offset as int + 4])
  {
    if offset < 0 || length < 0 || offset as int + length as int > |b| then
      Throws(IndexOutOfBounds)
    else if length < 4 then
      Throws(BufferUnderflow)
    else
      assert b[offset..][..4] == b[offset..offset as int + 4];
      BytesToInt(b[offset..])
  }

  /** `longToBytes`: `ByteBuffer.allocate(Long.BYTES).putLong(l).array()`. */
  function LongToBytes(l: int64): (bs: seq<uint8>)
    ensures |bs| == 8
    ensures Unsigned(bs) == l as int % TwoTo64
  {
    Pow256Values();
    BigEndian(l as int % TwoTo64, 8)
  }

  /**
   * `bytesToLong`: the input is put into a fresh 8-byte buffer, which is
   * flipped and read with `getLong`. More than eight bytes overflow the
   * buffer; fewer leave `getLong` short of bytes after the flip.
   */
  function BytesToLong(bytes: seq<uint8>): (r: Result<int64>)
    ensures r.Ok? <==> |bytes| == 8
    ensures r.Throws? ==> r.error == (if |bytes| > 8 then BufferOverflow else BufferUnderflow)
    ensures r.Ok? ==> r.value as int % TwoTo64 == Unsigned(bytes)
  {
    if |bytes| > 8 then Throws(BufferOverflow)
    else if |bytes| < 8 then Throws(BufferUnderflow)
    else
      Pow256Values();
      Ok(Signed64(Unsigned(bytes)))
  }

  /** Two values of one width that agree modulo 2^w are the same value. */
  lemma SameInt32(a: int32, b: int32)
    requires a as int % TwoTo32 == b as int % TwoTo32
    ensures a == b
  {
  }

  lemma SameInt64(a: int64, b: int64)
    requires a as int % TwoTo64 == b as int % TwoTo64
    ensures a == b
  {
  }

  lemma IntRoundTrip(i: int32)
    ensures BytesToInt(IntToBytes(i)) == Ok(i)
  {
    var bs := IntToBytes(i);
    assert bs[..4] == bs;
    SameInt32(BytesToInt(bs).value, i);
  }

  /** Every four bytes are the encoding of the `int` that `bytesToInt` reads. */
  lemma IntBytesRoundTrip(b: seq<uint8>)
    requires |b| == 4
    ensures BytesToInt(b).Ok? && IntToBytes(BytesToInt(b).value) == b
  {
    Pow256Values();
    assert b[..4] == b;
    BigEndianOfUnsigned(b);
  }

  lemma LongRoundTrip(l: int64)
    ensures BytesToLong(LongToBytes(l)) == Ok(l)
  {
    SameInt64(BytesToLong(LongToBytes(l)).value, l);
  }

  lemma LongBytesRoundTrip(b: seq<uint8>)
    requires |b| == 8
    ensures BytesToLong(b).Ok? && LongToBytes(BytesToLong(b).value) == b
  {
    Pow256Values();
    BigEndianOfUnsigned(b);
  }

  /** `putInt` writes `i >> 24`, `i >> 16`, `i >> 8` and `i`, each cut to a byte. */
  lemma IntToBytesDigits(i: int32)
    ensures var u := i as int % TwoTo32;
            IntToBytes(i) == [u / 0x100_0000, (u / 0x1_0000) % 256, (u / 0x100) % 256, u % 256]
  {
    var u := i as int % TwoTo32;
    Pow256Values();
    ThirdByteDigit(u);
    ThirdByteRest(u);
    SecondByteDigit(u);
    SecondByteRest(u);
    var b3 := BigEndian(u % 0x1_0000 % 0x100, 1);
    var b2 := BigEndian(u % 0x1_0000, 2);
    var b1 := BigEndian(u % 0x100_0000, 3);
    assert b2 == [(u % 0x1_0000) / 0x100] + b3;
    assert b1 == [(u % 0x100_0000) / 0x1_0000] + b2;
    assert IntToBytes(i) == [u / 0x100_0000] + b1;
  }

  /** The sign bit is the top bit of the first byte. */
  lemma IntToBytesSign(i: int32)
    ensures IntToBytes(i)[0] >= 128 <==> i < 0
  {
    Pow256Values();
    var u := i as int % TwoTo32;
    assert IntToBytes(i) == [(u / 0x100_0000) as uint8] + BigEndian(u % 0x100_0000, 3);
  }
}
