/**
 * How the storage tests lay out index keys: a stream-hash prefix followed
 * by the big-endian sequence number, assembled with `System.arraycopy`, and
 * the 16-byte index record of the design notes (4-byte stream hash, 4-byte
 * sequence number, 8-byte log position). Both embedded stores order keys
 * byte by byte as unsigned numbers, a proper prefix first; big-endian
 * encoding is what makes that order agree with numeric order.
 */
module IndexKeyLayout {
  import opened JavaLang
  import opened ByteCodec

  /** The key order of the embedded stores (unsigned bytewise comparison). */
  predicate KeyLess(a: seq<uint8>, b: seq<uint8>)
    decreases |a|
  {
    |b| > 0 && (|a| == 0 || a[0] < b[0] || (a[0] == b[0] && KeyLess(a[1..], b[1..])))
  }

  predicate KeyLessEq(a: seq<uint8>, b: seq<uint8>)
  {
    a == b || KeyLess(a, b)
  }

  /** On keys of one length, key order is the order of the numbers they spell. */
  lemma {:induction false} KeyOrderIsValueOrder(x: seq<uint8>, y: seq<uint8>)
    requires |x| == |y|
    ensures KeyLess(x, y) <==> Unsigned(x) < Unsigned(y)
  {
    if |x| > 0 {
      var p := Pow256(|x| - 1);
      var ux, uy := Unsigned(x[1..]), Unsigned(y[1..]);
      assert Unsigned(x) == x[0] * p + ux;
      assert Unsigned(y) == y[0] * p + uy;
      if x[0] < y[0] {
        LeadingDigitDominates(x[0], ux, y[0], uy, p);
      } else if x[0] > y[0] {
        LeadingDigitDominates(y[0], uy, x[0], ux, p);
      } else {
        KeyOrderIsValueOrder(x[1..], y[1..]);
      }
    }
  }

  /** A smaller leading digit makes a smaller number, whatever follows it. */
  lemma LeadingDigitDominates(a: uint8, restA: nat, b: uint8, restB: nat, p: nat)
    requires a < b && restA < p
    ensures a * p + restA < b * p + restB
  {
    MulMonotone(a + 1, b, p);
    assert (a + 1) * p == a * p + p;
  }

  /** Keys that share a prefix are ordered by what follows it. */
  lemma {:induction false} CommonPrefixOrder(prefix: seq<uint8>, x: seq<uint8>, y: seq<uint8>)
    ensures KeyLess(prefix + x, prefix + y) <==> KeyLess(x, y)
  {
    if |prefix| > 0 {
      assert (prefix + x)[1..] == prefix[1..] + x;
      assert (prefix + y)[1..] == prefix[1..] + y;
      CommonPrefixOrder(prefix[1..], x, y);
    } else {
      assert prefix + x == x && prefix + y == y;
    }
  }

  /** Concatenated fields of fixed widths compare field by field. */
  lemma {:induction false} FieldwiseOrder(x1: seq<uint8>, y1: seq<uint8>, x2: seq<uint8>, y2: seq<uint8>)
    requires |x1| == |x2|
    ensures KeyLess(x1 + y1, x2 + y2) <==> KeyLess(x1, x2) || (x1 == x2 && KeyLess(y1, y2))
  {
    if |x1| == 0 {
      assert x1 + y1 == y1 && x2 + y2 == y2;
    } else {
      assert (x1 + y1)[1..] == x1[1..] + y1;
      assert (x2 + y2)[1..] == x2[1..] + y2;
      FieldwiseOrder(x1[1..], y1, x2[1..], y2);
      if x1[0] == x2[0] && x1[1..] == x2[1..] {
        assert x1 == [x1[0]] + x1[1..] && x2 == [x2[0]] + x2[1..];
      }
    }
  }

  /** `int` keys sort as their 32-bit patterns read unsigned. */
  lemma IntKeyOrder(a: int32, b: int32)
    ensures KeyLess(IntToBytes(a), IntToBytes(b)) <==> a as int % TwoTo32 < b as int % TwoTo32
  {
    KeyOrderIsValueOrder(IntToBytes(a), IntToBytes(b));
  }

  /** The property the big-endian key comments rely on: for non-negative `int`s, key order is numeric order. */
  lemma NonNegativeIntKeyOrder(a: int32, b: int32)
    requires 0 <= a && 0 <= b
    ensures a < b <==> KeyLess(IntToBytes(a), IntToBytes(b))
    ensures a <= b <==> KeyLessEq(IntToBytes(a), IntToBytes(b))
  {
    IntKeyOrder(a, b);
    if IntToBytes(a) == IntToBytes(b) {
      IntRoundTrip(a);
      IntRoundTrip(b);
    }
  }

  /** A negative `int` key sorts after every non-negative one. */
  lemma NegativeIntKeysSortLast(a: int32, b: int32)
    requires 0 <= a && b < 0
    ensures KeyLess(IntToBytes(a), IntToBytes(b))
  {
    IntKeyOrder(a, b);
  }

  lemma NonNegativeLongKeyOrder(a: int64, b: int64)
    requires 0 <= a && 0 <= b
    ensures a < b <==> KeyLess(LongToBytes(a), LongToBytes(b))
  {
    assert a as int % TwoTo64 == a as int && b as int % TwoTo64 == b as int;
    KeyOrderIsValueOrder(LongToBytes(a), LongToBytes(b));
  }

  /** The key of a stream entry: the stream's hash bytes, then its sequence number. */
  function SequenceKey(prefix: seq<uint8>, sequence: int32): seq<uint8>
  {
    prefix + IntToBytes(sequence)
  }

  /**
   * The key keeps the prefix, is four bytes longer, and the sequence number
   * reads back both with `bytesToInt(key, |prefix|, 4)` and with
   * `bytesToInt(copyOfRange(key, |prefix|, |key|))`.
   */
  lemma SequenceKeyDecodes(prefix: seq<uint8>, sequence: int32)
    requires |prefix| + 4 < TwoTo31
    ensures var key := SequenceKey(prefix, sequence);
            && |key| == |prefix| + 4
            && key[..|prefix|] == prefix
            && BytesToIntAt(key, |prefix| as int32, 4) == Ok(sequence)
            && BytesToInt(key[|prefix|..]) == Ok(sequence)
  {
    var key := SequenceKey(prefix, sequence);
    assert key[|prefix|..] == IntToBytes(sequence);
    IntRoundTrip(sequence);
  }

  /** Entries of one stream sort by sequence number, for non-negative sequence numbers. */
  lemma SequenceKeysOrder(prefix: seq<uint8>, a: int32, b: int32)
    requires 0 <= a && 0 <= b
    ensures a < b <==> KeyLess(SequenceKey(prefix, a), SequenceKey(prefix, b))
  {
    CommonPrefixOrder(prefix, IntToBytes(a), IntToBytes(b));
    NonNegativeIntKeyOrder(a, b);
  }

  /** The 16-byte index record: stream hash, sequence number, log position. */
  function IndexRecord(hash: int32, sequence: int32, position: int64): (r: seq<uint8>)
    ensures |r| == 16
  {
    IntToBytes(hash) + IntToBytes(sequence) + LongToBytes(position)
  }

  /** Each field of the record reads back at offset 0, 4 and 8. */
  lemma IndexRecordLayout(hash: int32, sequence: int32, position: int64)
    ensures var r := IndexRecord(hash, sequence, position);
            && BytesToIntAt(r, 0, 4) == Ok(hash)
            && BytesToIntAt(r, 4, 4) == Ok(sequence)
            && BytesToLong(r[8..16]) == Ok(position)
  {
    var r := IndexRecord(hash, sequence, position);
    assert r[0..][..4] == IntToBytes(hash);
    assert r[4..][..4] == IntToBytes(sequence);
    assert r[8..16] == LongToBytes(position);
    IntRoundTrip(hash);
    IntRoundTrip(sequence);
    LongRoundTrip(position);
  }

  /** Every 16 bytes are the record of the fields read from them. */
  lemma IndexRecordOfFields(r: seq<uint8>)
    requires |r| == 16
    ensures BytesToIntAt(r, 0, 4).Ok? && BytesToIntAt(r, 4, 4).Ok? && BytesToLong(r[8..16]).Ok?
    ensures IndexRecord(BytesToIntAt(r, 0, 4).value, BytesToIntAt(r, 4, 4).value,
                        BytesToLong(r[8..16]).value) == r
  {
    assert r[0..][..4] == r[..4];
    assert r[4..][..4] == r[4..8];
    IntBytesRoundTrip(r[..4]);
    IntBytesRoundTrip(r[4..8]);
    LongBytesRoundTrip(r[8..16]);
    assert r == r[..4] + r[4..8] + r[8..16];
  }

  /** Records of one stream sort by sequence number, then by position. */
  lemma IndexRecordOrder(hash: int32, s1: int32, p1: int64, s2: int32, p2: int64)
    requires 0 <= s1 && 0 <= s2 && 0 <= p1 && 0 <= p2
    ensures KeyLess(IndexRecord(hash, s1, p1), IndexRecord(hash, s2, p2))
            <==> s1 < s2 || (s1 == s2 && p1 < p2)
  {
    var h := IntToBytes(hash);
    assert IndexRecord(hash, s1, p1) == h + (IntToBytes(s1) + LongToBytes(p1));
    assert IndexRecord(hash, s2, p2) == h + (IntToBytes(s2) + LongToBytes(p2));
    CommonPrefixOrder(h, IntToBytes(s1) + LongToBytes(p1), IntToBytes(s2) + LongToBytes(p2));
    FieldwiseOrder(IntToBytes(s1), LongToBytes(p1), IntToBytes(s2), LongToBytes(p2));
    NonNegativeIntKeyOrder(s1, s2);
    NonNegativeLongKeyOrder(p1, p2);
    if IntToBytes(s1) == IntToBytes(s2) {
      IntRoundTrip(s1);
      IntRoundTrip(s2);
    }
  }

  /**
   * `System.arraycopy`: copies `length` elements of `src` from `srcPos` into
   * `dest` from `destPos`, as if through a temporary copy (so `src` and
   * `dest` may be the same array). Everything else in `dest` is unchanged.
   */
  method ArrayCopy<T>(src: array<T>, srcPos: nat, dest: array<T>, destPos: nat, length: nat)
    requires srcPos + length <= src.Length && destPos + length <= dest.Length
    modifies dest
    ensures dest[..] == old(dest[..destPos]) + old(src[srcPos..srcPos + length]) + old(dest[destPos + length..])
  {
    ghost var before := dest[..];
    var copied := src[srcPos..srcPos + length];
    var k := 0;
    while k < length
      invariant 0 <= k <= length
      invariant forall j :: 0 <= j < dest.Length ==>
                  dest[j] == if destPos <= j < destPos + k then copied[j - destPos] else before[j]
    {
      dest[destPos + k] := copied[k];
      k := k + 1;
    }
    assert dest[..] == before[..destPos] + copied + before[destPos + length..];
  }

  /** A fresh array of both lengths, filled by two `arraycopy` calls. */
  method CombineKey(prefix: array<uint8>, suffix: array<uint8>) returns (combined: array<uint8>)
    ensures fresh(combined)
    ensures combined[..] == prefix[..] + suffix[..]
  {
    combined := new uint8[prefix.Length + suffix.Length];
    ArrayCopy(prefix, 0, combined, 0, prefix.Length);
    ArrayCopy(suffix, 0, combined, prefix.Length, suffix.Length);
    assert combined[..] == prefix[..] + suffix[..];
  }

  /** `intToBytes(sequence)` into a fresh array, combined behind the hash bytes. */
  method BuildSequenceKey(hashBytes: array<uint8>, sequence: int32) returns (key: array<uint8>)
    ensures fresh(key)
    ensures key[..] == SequenceKey(hashBytes[..], sequence)
  {
    var sequenceBytes := new uint8[4](k requires 0 <= k < 4 => IntToBytes(sequence)[k]);
    assert sequenceBytes[..] == IntToBytes(sequence);
    key := CombineKey(hashBytes, sequenceBytes);
  }
}
