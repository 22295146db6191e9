/**
 * The inclusive range filter of the LMDB storage test: words are kept when
 * `start <= word <= end`, first with `String.compareTo`, then again on the
 * words' bytes with `ByteBuffer.compareTo`. Java compares strings by UTF-16
 * code unit and byte buffers by SIGNED byte; both return the difference at
 * the first mismatch, or else the difference in length.
 */
module RangeFilter {
  import opened JavaLang
  import opened ByteCodec
  import opened IndexKeyLayout

  /** `String.compareTo`. */
  function CompareTo(a: string, b: string): int
  {
    if |a| == 0 || |b| == 0 then |a| - |b|
    else if a[0] != b[0] then a[0] as int - b[0] as int
    else CompareTo(a[1..], b[1..])
  }

  /** `ByteBuffer.compareTo` on two whole buffers: `Byte.compare` reads bytes as signed. */
  function BufferCompareTo(a: seq<uint8>, b: seq<uint8>): int
  {
    if |a| == 0 || |b| == 0 then |a| - |b|
    else if a[0] != b[0] then Signed8(a[0]) - Signed8(b[0])
    else BufferCompareTo(a[1..], b[1..])
  }

  lemma {:induction false} CompareToZero(a: string, b: string)
    ensures CompareTo(a, b) == 0 <==> a == b
    ensures CompareTo(b, a) == -CompareTo(a, b)
  {
    if |a| > 0 && |b| > 0 && a[0] == b[0] {
      CompareToZero(a[1..], b[1..]);
      if a[1..] == b[1..] {
        assert a == [a[0]] + a[1..] && b == [b[0]] + b[1..];
      }
    }
  }

  predicate IsAscii(s: string)
  {
    forall k :: 0 <= k < |s| ==> s[k] as int < 128
  }

  predicate AllAscii(words: seq<string>)
  {
    forall w :: w in words ==> IsAscii(w)
  }

  /** `getBytes()` on an ASCII string: one byte per character, in any ASCII-compatible default charset. */
  function AsciiBytes(s: string): (bs: seq<uint8>)
    requires IsAscii(s)
    ensures |bs| == |s|
    ensures forall k :: 0 <= k < |s| ==> bs[k] == s[k] as int
  {
    seq(|s|, k requires 0 <= k < |s| => s[k] as int as uint8)
  }

  /** On ASCII text, comparing the bytes agrees exactly with comparing the strings. */
  lemma {:induction false} AsciiCompareAgrees(a: string, b: string)
    requires IsAscii(a) && IsAscii(b)
    ensures BufferCompareTo(AsciiBytes(a), AsciiBytes(b)) == CompareTo(a, b)
  {
    if |a| > 0 && |b| > 0 && a[0] == b[0] {
      assert AsciiBytes(a)[1..] == AsciiBytes(a[1..]);
      assert AsciiBytes(b)[1..] == AsciiBytes(b[1..]);
      AsciiCompareAgrees(a[1..], b[1..]);
    }
  }

  /**
   * `ByteBuffer.compareTo` is not the stores' key order: bytes from 0x80 up
   * count as negative, so the encoding of 128 compares below that of 127.
   */
  lemma BufferOrderIsNotKeyOrder()
    ensures KeyLess(IntToBytes(127), IntToBytes(128))
    ensures BufferCompareTo(IntToBytes(128), IntToBytes(127)) < 0
  {
    NonNegativeIntKeyOrder(127, 128);
    IntToBytesDigits(127);
    IntToBytesDigits(128);
    assert IntToBytes(128)[1..][1..][1..] == [128];
  }

  /** The elements of `xs` that `keep` accepts, in their order in `xs`. */
  function Kept<T>(xs: seq<T>, keep: T -> bool): (r: seq<T>)
    ensures |r| <= |xs|
    ensures forall x :: x in r ==> x in xs && keep(x)
  {
    if |xs| == 0 then []
    else Kept(xs[..|xs| - 1], keep) + (if keep(xs[|xs| - 1]) then [xs[|xs| - 1]] else [])
  }

  /** `a` is `b` with some elements left out. */
  predicate IsSubsequence<T(==)>(a: seq<T>, b: seq<T>)
    decreases |b|
  {
    |a| == 0 ||
    (|b| > 0 &&
     ((a[|a| - 1] == b[|b| - 1] && IsSubsequence(a[..|a| - 1], b[..|b| - 1])) ||
      IsSubsequence(a, b[..|b| - 1])))
  }

  /** The filter keeps exactly the accepted elements. */
  lemma {:induction false} KeptMembers<T>(xs: seq<T>, keep: T -> bool, x: T)
    ensures x in Kept(xs, keep) <==> x in xs && keep(x)
  {
    if |xs| > 0 {
      KeptMembers(xs[..|xs| - 1], keep, x);
      assert xs == xs[..|xs| - 1] + [xs[|xs| - 1]];
    }
  }

  /** The filter does not reorder what it keeps. */
  lemma {:induction false} KeptIsSubsequence<T>(xs: seq<T>, keep: T -> bool)
    ensures IsSubsequence(Kept(xs, keep), xs)
  {
    if |xs| > 0 {
      var init := xs[..|xs| - 1];
      KeptIsSubsequence(init, keep);
      var k := Kept(xs, keep);
      if keep(xs[|xs| - 1]) {
        assert k[..|k| - 1] == Kept(init, keep);
      } else {
        assert k == Kept(init, keep);
        SubsequenceOfLonger(k, init, xs[|xs| - 1]);
      }
    }
  }

  /** Every copy of an accepted element is kept, and no copy of a rejected one. */
  lemma {:induction false} KeptCounts<T>(xs: seq<T>, keep: T -> bool)
    ensures forall x :: multiset(Kept(xs, keep))[x] == if keep(x) then multiset(xs)[x] else 0
  {
    if |xs| > 0 {
      var init, last := xs[..|xs| - 1], xs[|xs| - 1];
      KeptCounts(init, keep);
      assert xs == init + [last];
      assert multiset(xs) == multiset(init) + multiset{last};
      var tail: seq<T> := if keep(last) then [last] else [];
      assert multiset(Kept(xs, keep)) == multiset(Kept(init, keep)) + multiset(tail);
    }
  }

  lemma {:induction false} SubsequenceOfLonger<T>(a: seq<T>, b: seq<T>, x: T)
    requires IsSubsequence(a, b)
    ensures IsSubsequence(a, b + [x])
  {
    assert (b + [x])[..|b|] == b;
  }

  /** Filtering the byte encodings of ASCII words keeps the encodings of the words that string filtering keeps. */
  lemma {:induction false} AsciiFilterAgrees(words: seq<string>, start: string, end: string)
    requires IsAscii(start) && IsAscii(end)
    requires AllAscii(words)
    ensures Kept(EncodeAll(words), b => BufferInRange(b, AsciiBytes(start), AsciiBytes(end)))
            == EncodeAll(Kept(words, w => InRange(w, start, end)))
  {
    if |words| > 0 {
      var last, init := words[|words| - 1], words[..|words| - 1];
      var inBytes := b => BufferInRange(b, AsciiBytes(start), AsciiBytes(end));
      var inWords := w => InRange(w, start, end);
      var encoded := EncodeAll(words);
      assert encoded[..|words| - 1] == EncodeAll(init);
      AsciiFilterAgrees(init, start, end);
      AsciiCompareAgrees(last, start);
      AsciiCompareAgrees(last, end);
      assert inBytes(encoded[|words| - 1]) == inWords(last);
      var tail := if inWords(last) then [last] else [];
      assert Kept(words, inWords) == Kept(init, inWords) + tail;
      EncodeAllAppend(Kept(init, inWords), tail);
    }
  }

  lemma EncodeAllAppend(a: seq<string>, b: seq<string>)
    requires AllAscii(a) && AllAscii(b)
    ensures EncodeAll(a + b) == EncodeAll(a) + EncodeAll(b)
  {
  }

  /** `start.compareTo`-style inclusive range test of the string loop. */
  predicate InRange(word: string, start: string, end: string)
  {
    CompareTo(word, start) >= 0 && CompareTo(word, end) <= 0
  }

  /** The same test on byte buffers. */
  predicate BufferInRange(buffer: seq<uint8>, start: seq<uint8>, end: seq<uint8>)
  {
    BufferCompareTo(buffer, start) >= 0 && BufferCompareTo(buffer, end) <= 0
  }

  /** `ByteBuffer.wrap(word.getBytes())` for each word. */
  function EncodeAll(words: seq<string>): (r: seq<seq<uint8>>)
    requires AllAscii(words)
    ensures |r| == |words|
    ensures forall k :: 0 <= k < |words| ==> r[k] == AsciiBytes(words[k])
  {
    seq(|words|, k requires 0 <= k < |words| => AsciiBytes(words[k]))
  }

  /** The string loop: every word in range is added to the result list, in order. */
  method FilterWords(words: seq<string>, start: string, end: string) returns (found: seq<string>)
    ensures found == Kept(words, w => InRange(w, start, end))
  {
    found := [];
    for k := 0 to |words|
      invariant found == Kept(words[..k], w => InRange(w, start, end))
    {
      var word := words[k];
      if CompareTo(word, start) >= 0 && CompareTo(word, end) <= 0 {
        found := found + [word];
      }
      assert words[..k + 1][..k] == words[..k];
    }
    assert words[..|words|] == words;
  }

  /** The byte-buffer loop over the encoded words. */
  method FilterBuffers(buffers: seq<seq<uint8>>, start: seq<uint8>, end: seq<uint8>)
    returns (found: seq<seq<uint8>>)
    ensures found == Kept(buffers, b => BufferInRange(b, start, end))
  {
    found := [];
    for k := 0 to |buffers|
      invariant found == Kept(buffers[..k], b => BufferInRange(b, start, end))
    {
      var buffer := buffers[k];
      if BufferCompareTo(buffer, start) >= 0 && BufferCompareTo(buffer, end) <= 0 {
        found := found + [buffer];
      }
      assert buffers[..k + 1][..k] == buffers[..k];
    }
    assert buffers[..|buffers|] == buffers;
  }

  /** The test's data: both words lie between "a" and "z". */
  lemma LexicographicScenario()
    ensures Kept(["hello@1", "world@500000"], w => InRange(w, "a", "z")) == ["hello@1", "world@500000"]
  {
    var words := ["hello@1", "world@500000"];
    assert InRange("hello@1", "a", "z") by {
      assert CompareTo("hello@1", "a") == 'h' as int - 'a' as int;
      assert CompareTo("hello@1", "z") == 'h' as int - 'z' as int;
    }
    assert InRange("world@500000", "a", "z") by {
      assert CompareTo("world@500000", "a") == 'w' as int - 'a' as int;
      assert CompareTo("world@500000", "z") == 'w' as int - 'z' as int;
    }
    assert words[..1] == ["hello@1"];
    assert words[..1][..0] == [];
  }

  /** The byte-buffer loop finds the same two entries. */
  lemma LexicographicBufferScenario()
    ensures AllAscii(["hello@1", "world@500000"]) && IsAscii("a") && IsAscii("z")
    ensures |Kept(EncodeAll(["hello@1", "world@500000"]),
                  b => BufferInRange(b, AsciiBytes("a"), AsciiBytes("z")))| == 2
  {
    var words := ["hello@1", "world@500000"];
    assert IsAscii(words[0]) && IsAscii(words[1]);
    LexicographicScenario();
    AsciiFilterAgrees(words, "a", "z");
  }
}
