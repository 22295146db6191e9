# RuscelloDB proof of concept: a Dafny model of its self-contained pieces

RuscelloDB is an early event-store prototype. Streams are named by string
identifiers, and metastreams (`$$name`) carry the metadata of stream `name`.
Events are indexed in an embedded key-value store, RocksDB or LMDB. The
storage experiments build sortable binary keys: the hash of a stream
followed by the big-endian bytes of a sequence number. A design note fixes a
16-byte index record: a 4-byte stream hash, a 4-byte sequence number and an
8-byte log position.

This project models the parts of the repository that compute something:

- **`SystemStreams`** (`SystemStreams.dfy`): the system-stream and metastream classifiers, the `$$` prefixing and unprefixing, and the reserved stream names.
- **`ByteCodec`** (`ByteCodec.dfy`): the big-endian `int`/`long` byte helpers, with Java's `ByteBuffer` exceptions as `Result` errors.
- **`IndexKeyLayout`** (`IndexKeyLayout.dfy`):
  - the stores' unsigned byte-wise key order;
  - keys made of hash bytes followed by a sequence number, built with `System.arraycopy` into arrays;
  - the 16-byte index record.
- **`RangeFilter`** (`RangeFilter.dfy`): the inclusive range filter over words with `String.compareTo`, and over their bytes with `ByteBuffer.compareTo`.
- **`IndexKeys`** (`IndexKey.dfy`): the mutable `IndexKey` class.
- **`ExpectedVersion`** (`ExpectedVersion.dfy`): the expected-version sentinels and a classifier over them.
- **`CamelCase`** (`CamelCase.dfy`): `splitCamelCase`, the regex-based insertion of spaces at word boundaries.
- **`Users`** (`UserData.dfy`): the immutable user record, whose setters return copies.
- **`Security`** (`SecurityHelper.dfy`): the authority check and the administrator check.
- **`JavaLang`** (`JavaLang.dfy`): Java's fixed-width integers, `null` as `Option`, and the exceptions the modelled code can raise.

The byte helpers exist twice, in `SampleRocksdbTest` and `SampleLmdbTest`.
The two copies are textually the same, so they are modelled once, and both
are cited below.

Three behaviours of the code are easy to misread:

- `originalStreamOf` does not check its input is a metastream. It drops the first two characters of any identifier with at least two (`SystemStreams.OriginalOfNonMetastream`).
- `metastreamOf` accepts the empty identifier, and `"$$"` is a metastream (`SystemStreams.MetastreamOfIsMetastream`).
- The "stream must not exist" sentinel is spelled `NO_STRREAM` in the code. It is modelled as `ExpectedVersion.NoStream` with the value -1.

## Model

| member | source | states |
|---|---|---|
| JavaLang.Signed8 | src/test/java/com/ruscello/SampleLmdbTest.java:843-848 | The signed value of a byte, as `ByteBuffer.compareTo` reads it, is in -128..127 and congruent to the byte's bit pattern mod 256 |
| SystemStreams.IsSystemStream | src/main/java/com/ruscello/core/SystemStreams.java:18-20 | A system stream is a non-null, non-empty identifier whose first character is `$` (a predicate; the lemmas below state its properties) |
| SystemStreams.IsMetastream | src/main/java/com/ruscello/core/SystemStreams.java:26-31 | A metastream is a non-null identifier of at least two characters whose first two are `$` (a predicate; the lemmas below state its properties) |
| SystemStreams.MetastreamOf | src/main/java/com/ruscello/core/SystemStreams.java:22-24 | The result is the identifier with `$$` in front: two characters longer, starting with `$$`, and the input after them |
| SystemStreams.OriginalStreamOf | src/main/java/com/ruscello/core/SystemStreams.java:33-35 | Succeeds exactly when the identifier has at least two characters, and then returns it without its first two characters, whatever they are; otherwise `substring(2)` throws |
| SystemStreams.MetastreamOfIsMetastream | src/main/java/com/ruscello/core/SystemStreams.java:22-31 | `metastreamOf` always yields a metastream and a system stream, even for the empty identifier |
| SystemStreams.OriginalOfMetastream | src/main/java/com/ruscello/core/SystemStreams.java:22-35 | `originalStreamOf(metastreamOf(s)) == s` for every `s` |
| SystemStreams.MetastreamOfOriginal | src/main/java/com/ruscello/core/SystemStreams.java:26-35 | On a metastream `m`, `originalStreamOf` succeeds and `metastreamOf(originalStreamOf(m)) == m` |
| SystemStreams.OriginalOfNonMetastream | src/main/java/com/ruscello/core/SystemStreams.java:33-35 | `originalStreamOf` does not check for `$$`: it accepts any identifier of two or more characters, and on a non-metastream the round trip does not give the input back |
| SystemStreams.MetastreamIsSystemStream | src/main/java/com/ruscello/core/SystemStreams.java:18-31 | Every metastream is a system stream |
| SystemStreams.ReservedNamesAreSystemStreams | src/main/java/com/ruscello/core/SystemStreams.java:7-12 | Each of the six reserved names, the constants `$persistentSubscriptionConfig`, `$all`, `$streams`, `$settings`, `$stats` and `$scavenges` collected in `ReservedNames`, is a system stream |
| SystemStreams.MetastreamScenario | src/main/java/com/ruscello/core/SystemStreams.java:22-31 | The metastream of `orders-1` is `$$orders-1`, which is a metastream and a system stream; `orders-1` is not a metastream |
| ByteCodec.Pow256 | src/test/java/com/ruscello/SampleRocksdbTest.java:655-669 | The weight of a byte position is at least 1 |
| ByteCodec.Unsigned | src/test/java/com/ruscello/SampleRocksdbTest.java:655-669 | The number that bytes spell most significant first is below 256 to the power of their count |
| ByteCodec.BigEndian | src/test/java/com/ruscello/SampleRocksdbTest.java:655-657 | Writes a value below 256^n as exactly n bytes whose big-endian reading is that value |
| ByteCodec.BigEndianOfUnsigned | src/test/java/com/ruscello/SampleRocksdbTest.java:655-661 | Reading bytes as a number and writing it back at the same width gives the same bytes |
| ByteCodec.Signed32 | src/test/java/com/ruscello/SampleRocksdbTest.java:659-661 | The `int` whose two's-complement bit pattern is the given 32-bit value |
| ByteCodec.Signed64 | src/test/java/com/ruscello/SampleRocksdbTest.java:671-676 | The `long` whose two's-complement bit pattern is the given 64-bit value |
| ByteCodec.IntToBytes | src/test/java/com/ruscello/SampleRocksdbTest.java:655-657 | `intToBytes(i)` is 4 bytes holding `i`'s two's-complement pattern, big-endian |
| ByteCodec.BytesToInt | src/test/java/com/ruscello/SampleRocksdbTest.java:659-661 | `bytesToInt(b)` succeeds exactly when `b` has at least 4 bytes, and then reads only `b[0..4]` as a two's-complement `int`; otherwise it throws a buffer underflow |
| ByteCodec.BytesToIntAt | src/test/java/com/ruscello/SampleRocksdbTest.java:663-665 | `bytesToInt(b, off, len)` throws index-out-of-bounds exactly when the window lies outside `b`, and a buffer underflow exactly when the window is valid but shorter than 4 bytes. It succeeds exactly when the window is valid and holds at least 4 bytes, and then returns the `int` whose pattern is `b[off..off+4]` |
| ByteCodec.LongToBytes | src/test/java/com/ruscello/SampleRocksdbTest.java:667-669 | `longToBytes(l)` is 8 bytes holding `l`'s two's-complement pattern, big-endian |
| ByteCodec.BytesToLong | src/test/java/com/ruscello/SampleRocksdbTest.java:671-676 | `bytesToLong` succeeds exactly on 8 bytes; more than 8 overflow the buffer, and fewer than 8 make `getLong` underflow after the flip |
| ByteCodec.SameInt32 | src/test/java/com/ruscello/SampleRocksdbTest.java:659-661 | Two `int`s with the same 32-bit pattern are equal |
| ByteCodec.SameInt64 | src/test/java/com/ruscello/SampleRocksdbTest.java:671-676 | Two `long`s with the same 64-bit pattern are equal |
| ByteCodec.IntRoundTrip | src/test/java/com/ruscello/SampleLmdbTest.java:801-807 | `bytesToInt(intToBytes(i)) == i` for every `int` (the RocksDB copy at SampleRocksdbTest.java:655-661 is the same) |
| ByteCodec.IntBytesRoundTrip | src/test/java/com/ruscello/SampleRocksdbTest.java:655-661 | Every 4 bytes are the `intToBytes` of the `int` that `bytesToInt` reads from them |
| ByteCodec.LongRoundTrip | src/test/java/com/ruscello/SampleLmdbTest.java:813-822 | `bytesToLong(longToBytes(l)) == l` for every `long` (the RocksDB copy at SampleRocksdbTest.java:667-676 is the same) |
| ByteCodec.LongBytesRoundTrip | src/test/java/com/ruscello/SampleRocksdbTest.java:667-676 | Every 8 bytes are the `longToBytes` of the `long` that `bytesToLong` reads from them |
| ByteCodec.IntToBytesDigits | src/test/java/com/ruscello/SampleRocksdbTest.java:655-657 | The 4 bytes are, in order, bits 31-24, 23-16, 15-8 and 7-0 of the 32-bit pattern |
| ByteCodec.IntToBytesSign | src/test/java/com/ruscello/SampleRocksdbTest.java:655-657 | The first byte has its top bit set exactly when the `int` is negative |
| IndexKeyLayout.KeyOrderIsValueOrder | src/test/java/com/ruscello/SampleLmdbTest.java:746-748 | On keys of one length, the stores' unsigned byte order is the order of the numbers the keys spell big-endian |
| IndexKeyLayout.LeadingDigitDominates | src/test/java/com/ruscello/SampleLmdbTest.java:746-748 | A smaller leading byte makes a smaller big-endian number, whatever follows it |
| IndexKeyLayout.CommonPrefixOrder | src/test/java/com/ruscello/SampleRocksdbTest.java:470-472 | Keys that share a prefix, such as the hash bytes of one stream, are ordered by what follows the prefix |
| IndexKeyLayout.FieldwiseOrder | src/test/java/com/ruscello/SampleRocksdbTest.java:24-28 | Keys made of a fixed-width field and a rest compare by the field first, then by the rest |
| IndexKeyLayout.IntKeyOrder | src/test/java/com/ruscello/SampleLmdbTest.java:746-748 | `int` keys sort as their 32-bit patterns read unsigned |
| IndexKeyLayout.NonNegativeIntKeyOrder | src/test/java/com/ruscello/SampleLmdbTest.java:746-748 | For non-negative `int`s, `a < b` exactly when `intToBytes(a)` sorts before `intToBytes(b)`, and `a <= b` exactly when it sorts before or equal |
| IndexKeyLayout.NegativeIntKeysSortLast | src/test/java/com/ruscello/SampleLmdbTest.java:746-748 | A negative `int` key sorts after every non-negative one, so the order claim holds only for non-negative values |
| IndexKeyLayout.NonNegativeLongKeyOrder | src/test/java/com/ruscello/SampleLmdbTest.java:746-748 | For non-negative `long`s, key order is numeric order |
| IndexKeyLayout.SequenceKey | src/test/java/com/ruscello/SampleRocksdbTest.java:470-472 | The key of a stream entry: the hash bytes followed by `intToBytes(sequence)` (a definition; `SequenceKeyDecodes` and `SequenceKeysOrder` state its properties) |
| IndexKeyLayout.SequenceKeyDecodes | src/test/java/com/ruscello/SampleRocksdbTest.java:470-472 | The key `prefix ++ intToBytes(seq)` is 4 bytes longer than the prefix and keeps it; `seq` reads back with `bytesToInt(key, |prefix|, 4)` and with `bytesToInt(copyOfRange(key, |prefix|, |key|))` (lines 496 and 514-515) |
| IndexKeyLayout.SequenceKeysOrder | src/test/java/com/ruscello/SampleRocksdbTest.java:465-478 | The keys of one stream with non-negative sequence numbers sort by sequence number |
| IndexKeyLayout.IndexRecord | src/test/java/com/ruscello/SampleRocksdbTest.java:24-28 | The index record of hash, sequence and position is 16 bytes |
| IndexKeyLayout.IndexRecordLayout | src/test/java/com/ruscello/SampleRocksdbTest.java:24-28 | The hash, sequence number and position read back at offsets 0, 4 and 8 |
| IndexKeyLayout.IndexRecordOfFields | src/test/java/com/ruscello/SampleRocksdbTest.java:24-28 | Any 16 bytes are the record of the three fields read from them |
| IndexKeyLayout.IndexRecordOrder | src/test/java/com/ruscello/SampleRocksdbTest.java:24-28 | The records of one stream, with non-negative sequence numbers and positions, sort by sequence number and then by position |
| IndexKeyLayout.ArrayCopy | src/test/java/com/ruscello/SampleRocksdbTest.java:471-472 | `System.arraycopy` overwrites `dest[destPos..destPos+length]` with `src[srcPos..srcPos+length]` as it was before the call, and leaves the rest of `dest` unchanged |
| IndexKeyLayout.CombineKey | src/test/java/com/ruscello/SampleRocksdbTest.java:470-472 | A fresh array of the combined length receives the prefix, then the suffix |
| IndexKeyLayout.BuildSequenceKey | src/test/java/com/ruscello/SampleRocksdbTest.java:465-472 | The assembled fresh array holds the hash bytes followed by `intToBytes(sequence)` |
| RangeFilter.CompareTo | src/test/java/com/ruscello/SampleLmdbTest.java:836 | `String.compareTo`: the difference of the first differing characters, or else the difference in length (a definition; `CompareToZero` states its properties) |
| RangeFilter.BufferCompareTo | src/test/java/com/ruscello/SampleLmdbTest.java:845 | `ByteBuffer.compareTo`: the difference of the first differing bytes read as signed, or else the difference in length (a definition; `AsciiCompareAgrees` and `BufferOrderIsNotKeyOrder` state its properties) |
| RangeFilter.InRange | src/test/java/com/ruscello/SampleLmdbTest.java:836 | The string loop's test `start.compareTo`-wise: `word >= start` and `word <= end`, both inclusive |
| RangeFilter.BufferInRange | src/test/java/com/ruscello/SampleLmdbTest.java:845 | The buffer loop's test: `buffer >= start` and `buffer <= end` under `ByteBuffer.compareTo`, both inclusive |
| RangeFilter.CompareToZero | src/test/java/com/ruscello/SampleLmdbTest.java:834-839 | `String.compareTo` is zero exactly on equal strings, and it is antisymmetric |
| RangeFilter.AsciiBytes | src/test/java/com/ruscello/SampleLmdbTest.java:843-848 | `getBytes` of ASCII text gives one byte per character, holding the character's code |
| RangeFilter.AsciiCompareAgrees | src/test/java/com/ruscello/SampleLmdbTest.java:843-850 | On ASCII text, `ByteBuffer.compareTo` of the encodings returns exactly what `String.compareTo` returns |
| RangeFilter.BufferOrderIsNotKeyOrder | src/test/java/com/ruscello/SampleLmdbTest.java:746-748 | `ByteBuffer.compareTo` reads bytes as signed, so it puts `intToBytes(128)` before `intToBytes(127)`, while the stores' key order puts it after |
| RangeFilter.Kept | src/test/java/com/ruscello/SampleLmdbTest.java:834-839 | The filter returns no more elements than its input, and only input elements that pass the test |
| RangeFilter.KeptMembers | src/test/java/com/ruscello/SampleLmdbTest.java:834-839 | An element is kept exactly when it is in the input and passes the test |
| RangeFilter.KeptIsSubsequence | src/test/java/com/ruscello/SampleLmdbTest.java:834-839 | The kept elements keep their input order |
| RangeFilter.KeptCounts | src/test/java/com/ruscello/SampleLmdbTest.java:834-839 | Every copy of an accepted element is kept, repeated words included, and no copy of a rejected one |
| RangeFilter.SubsequenceOfLonger | src/test/java/com/ruscello/SampleLmdbTest.java:834-839 | A subsequence stays one when the longer sequence grows at its end |
| RangeFilter.EncodeAll | src/test/java/com/ruscello/SampleLmdbTest.java:843-848 | Each word becomes its bytes, in the same positions |
| RangeFilter.EncodeAllAppend | src/test/java/com/ruscello/SampleLmdbTest.java:843-848 | Encoding distributes over concatenation |
| RangeFilter.AsciiFilterAgrees | src/test/java/com/ruscello/SampleLmdbTest.java:834-850 | For ASCII words and bounds, the byte-buffer filter keeps exactly the encodings of the words that the string filter keeps, in the same order |
| RangeFilter.FilterWords | src/test/java/com/ruscello/SampleLmdbTest.java:834-839 | The string loop collects exactly the words with `start <= w <= end`, in input order |
| RangeFilter.FilterBuffers | src/test/java/com/ruscello/SampleLmdbTest.java:843-848 | The buffer loop collects exactly the buffers with `start <= b <= end` under `ByteBuffer.compareTo`, in input order |
| RangeFilter.LexicographicScenario | src/test/java/com/ruscello/SampleLmdbTest.java:828-841 | Between "a" and "z", both `hello@1` and `world@500000` are kept, in order |
| RangeFilter.LexicographicBufferScenario | src/test/java/com/ruscello/SampleLmdbTest.java:843-850 | The byte-buffer loop over the same words also keeps both |
| IndexKeys.IndexKey.constructor | src/main/java/com/ruscello/IndexKey.java:27-29 | The two-argument constructor stores the identifier and the version, and sets the hash to 0 |
| IndexKeys.IndexKey.WithHash | src/main/java/com/ruscello/IndexKey.java:31-35 | The three-argument constructor stores exactly its three values, with no validation |
| IndexKeys.IndexKey.GetStreamId | src/main/java/com/ruscello/IndexKey.java:37-39 | Reads the stored stream identifier (a getter; `LastWriteWins` states what it returns after the setters) |
| IndexKeys.IndexKey.GetVersion | src/main/java/com/ruscello/IndexKey.java:45-47 | Reads the stored version (a getter; see `LastWriteWins`) |
| IndexKeys.IndexKey.GetHash | src/main/java/com/ruscello/IndexKey.java:53-55 | Reads the stored hash, 0 after the two-argument constructor (a getter; see `LastWriteWins`) |
| IndexKeys.IndexKey.SetStreamId | src/main/java/com/ruscello/IndexKey.java:41-43 | Only the stream identifier changes; version and hash are unchanged |
| IndexKeys.IndexKey.SetVersion | src/main/java/com/ruscello/IndexKey.java:49-51 | Only the version changes |
| IndexKeys.IndexKey.SetHash | src/main/java/com/ruscello/IndexKey.java:57-59 | Only the hash changes |
| IndexKeys.LastWriteWins | src/main/java/com/ruscello/IndexKey.java:27-59 | In a scenario that interleaves all three setters, each getter returns what the constructor or the matching setter stored last; any identifier, `null` included, and any version, negative included, is accepted. The general fact is the frame clauses of the three setters |
| ExpectedVersion.Classify | src/main/java/com/ruscello/core/ExpectedVersion.java:3-16 | Every value gets exactly one meaning. `ANY`, `NO_STRREAM` and `STREAM_EXISTS` get the meanings their doc comment gives, and `INVALID` (undocumented) reads as a rejection. A non-negative value is an expected event number. A negative value that is no sentinel is kept apart as `Undocumented`, rather than read as an event number |
| ExpectedVersion.ToValue | src/main/java/com/ruscello/core/ExpectedVersion.java:12-16 | The `long` an expectation stands for: the constant of each sentinel, the number itself otherwise (a definition; the two round-trip lemmas state its properties) |
| ExpectedVersion.ClassifyRoundTrip | src/main/java/com/ruscello/core/ExpectedVersion.java:12-16 | Classifying loses nothing: the value comes back from its meaning |
| ExpectedVersion.ToValueRoundTrip | src/main/java/com/ruscello/core/ExpectedVersion.java:12-16 | Every well-formed meaning is the classification of its value |
| ExpectedVersion.SentinelsPartitionDomain | src/main/java/com/ruscello/core/ExpectedVersion.java:12-16 | The constants are `ANY == -2`, `NO_STRREAM == -1`, `INVALID == -3` and `STREAM_EXISTS == -4`. There are exactly four sentinels, since the documented empty-stream one is commented out. They are pairwise distinct and all negative, so none is an event number, and they are exactly -4..-1 |
| CamelCase.Boundary | src/main/java/com/ruscello/CamelCaseFilter.java:32-38 | A position `0 < i < |s|` matches when one of the three lookaround alternatives holds there, each reading the input: a capital before a capital and a lower-case letter; a capital after a non-capital; a non-letter after a letter (a predicate; the lemmas below state its consequences) |
| CamelCase.SplitCamelCase | src/main/java/com/ruscello/CamelCaseFilter.java:31-40 | The `replaceAll` entry point: the split of the whole input (a definition; `SplitCamelCaseLength` and `SplitCamelCasePositions` fix its output) |
| CamelCase.BoundariesStep | src/main/java/com/ruscello/CamelCaseFilter.java:32-38 | Counting boundaries one position at a time |
| CamelCase.SplitFrom | src/main/java/com/ruscello/CamelCaseFilter.java:31-40 | The output for the input from position `i` on is longer by the number of boundaries there |
| CamelCase.SplitCamelCaseLength | src/main/java/com/ruscello/CamelCaseFilter.java:31-40 | The output length is the input length plus the number of boundary positions |
| CamelCase.SplitFromPositions | src/main/java/com/ruscello/CamelCaseFilter.java:31-40 | Where each input character lands in the output of a suffix, and what precedes it |
| CamelCase.SplitCamelCasePositions | src/main/java/com/ruscello/CamelCaseFilter.java:31-40 | Input character `k` lands at `k` plus the number of boundaries up to it. Just before it stands a single space exactly when `k` is a boundary, and otherwise the previous input character. So the output is the input in order, with one space per boundary and never two |
| CamelCase.SplitCamelCaseEnds | src/main/java/com/ruscello/CamelCaseFilter.java:31-40 | The output neither starts nor ends with an inserted space |
| CamelCase.NoBoundaryUnchanged | src/main/java/com/ruscello/CamelCaseFilter.java:31-40 | Without a boundary the input comes back unchanged |
| CamelCase.NoLettersUnchanged | src/main/java/com/ruscello/CamelCaseFilter.java:33-37 | Text without ASCII letters is returned unchanged |
| CamelCase.LowerCaseUnchanged | src/main/java/com/ruscello/CamelCaseFilter.java:33-37 | All-lower-case ASCII text is returned unchanged |
| CamelCase.CapitalRun | src/main/java/com/ruscello/CamelCaseFilter.java:34 | Inside a run of capitals followed by a lower-case letter, the only boundary is before the run's last capital |
| CamelCase.AccentedLetterSplits | src/main/java/com/ruscello/CamelCaseFilter.java:34-36 | Only `A-Z` and `a-z` are letters: `é` is a non-letter after `a` and a non-capital before `A` |
| CamelCase.SingleBoundary | src/main/java/com/ruscello/CamelCaseFilter.java:31-40 | With exactly one boundary, the output is the input with one space there |
| CamelCase.LowerIsNoBoundary | src/main/java/com/ruscello/CamelCaseFilter.java:34-36 | No alternative matches before a lower-case letter |
| CamelCase.OnlyBoundaryAmongLower | src/main/java/com/ruscello/CamelCaseFilter.java:31-40 | With a boundary at `b` and lower-case letters everywhere else, one space goes in at `b` |
| CamelCase.WordStart | src/main/java/com/ruscello/CamelCaseFilter.java:35 | A lower-case word followed by a capitalised one is split into the two words |
| CamelCase.NonLetterStart | src/main/java/com/ruscello/CamelCaseFilter.java:36 | A lower-case word followed by a non-letter and lower-case letters gets one space before the non-letter |
| CamelCase.CapitalRunThenWord | src/main/java/com/ruscello/CamelCaseFilter.java:34 | A run of capitals followed by a capitalised word is split before the word's capital |
| CamelCase.ExampleWordStart | src/main/java/com/ruscello/CamelCaseFilter.java:35 | "seanCarroll" becomes "sean Carroll" |
| CamelCase.ExampleNonLetter | src/main/java/com/ruscello/CamelCaseFilter.java:36 | "sean-carroll" becomes "sean -carroll" |
| CamelCase.ExampleCapitalRun | src/main/java/com/ruscello/CamelCaseFilter.java:34 | "HTMLParser" becomes "HTML Parser" |
| Users.UserData.SetFullName | src/main/java/com/ruscello/core/transport/http/users/UserData.java:25-27 | A copy that differs only in the full name |
| Users.UserData.SetGroups | src/main/java/com/ruscello/core/transport/http/users/UserData.java:33-35 | A copy that differs only in the groups |
| Users.UserData.SetPassword | src/main/java/com/ruscello/core/transport/http/users/UserData.java:49-51 | A copy with the given hash and salt, hash first; all other fields unchanged |
| Users.UserData.SetEnabled | src/main/java/com/ruscello/core/transport/http/users/UserData.java:57-59 | A copy that is not disabled; all other fields unchanged |
| Users.UserData.SetDisabled | src/main/java/com/ruscello/core/transport/http/users/UserData.java:61-63 | A copy that is disabled; all other fields unchanged |
| Users.NewUserData | src/main/java/com/ruscello/core/transport/http/users/UserData.java:12-19 | The constructor stores each argument in its field, taking them in the order login name, full name, groups, hash, salt, disabled |
| Users.EnableDisableLastWins | src/main/java/com/ruscello/core/transport/http/users/UserData.java:57-63 | Enabling and disabling are each idempotent, and the last one applied decides |
| Users.SettersKeepUnchangedRecord | src/main/java/com/ruscello/core/transport/http/users/UserData.java:25-63 | Setting a field to its current value gives an equal record |
| Users.SettersCommute | src/main/java/com/ruscello/core/transport/http/users/UserData.java:25-63 | Setters of different fields commute, and no setter changes the login name |
| Security.AuthorityNames | src/main/java/com/ruscello/core/SecurityHelper.java:26-31 | The names of the granted authorities, `null` included (a definition; `GrantedByNames` and `GrantedIffNamed` state its properties) |
| Security.HasAuthority | src/main/java/com/ruscello/core/SecurityHelper.java:15-32 | False for a `null` user or a `null` authority collection; otherwise true exactly when some granted authority is named exactly `authority` |
| Security.IsAdmin | src/main/java/com/ruscello/core/SecurityHelper.java:34-36 | True exactly for a non-null user granted the placeholder role `""` |
| Security.GrantedByNames | src/main/java/com/ruscello/core/SecurityHelper.java:26-31 | The answer depends only on the set of granted names, not on their order or repetition |
| Security.GrantedIffNamed | src/main/java/com/ruscello/core/SecurityHelper.java:26-31 | Granted exactly when the name is among the granted names |
| Security.NothingGrantedWithoutAuthorities | src/main/java/com/ruscello/core/SecurityHelper.java:16-27 | A `null` user or a `null` collection grants nothing, and neither do entries with a `null` name |
| Security.GrantIsMonotone | src/main/java/com/ruscello/core/SecurityHelper.java:26-31 | Adding a granted authority never takes a grant away, and grants its own name |
| Security.MatchIsExact | src/main/java/com/ruscello/core/SecurityHelper.java:27 | Matching is exact `equals`: no prefix and no case folding; a `null` entry before a match does not stop the search |

## Left out

- `OriginalStreamOf` and `MetastreamOf` take non-null strings. `metastreamOf(null)` yields `"$$null"` and `originalStreamOf(null)` throws a null-pointer exception; neither is modelled.
- `HasAuthority` does not model a `null` element of the authority collection, on which `getAuthority()` would throw a null-pointer exception: a `seq<GrantedAuthority>` cannot hold one. An element whose name is `null` is modelled.
- `HasAuthority` takes a non-null `authority`. Java would throw a null-pointer exception at the first entry for a `null` authority.
- `OriginalStreamOf` does not model identifiers with a supplementary character (a surrogate pair in UTF-16) among their first two characters. Java's `substring(2)` counts UTF-16 code units, both in its length test and in the prefix it drops, while the model counts characters.
- Java strings are UTF-16 code units; Dafny characters are Unicode scalar values. Text with surrogate pairs is not modelled, by the camel-case split or by `String.compareTo`.
- `getBytes()` of non-ASCII text depends on the platform's default charset. The byte-buffer filter is related to the string filter only for ASCII text.
- `null` arrays are not modelled. `bytesToInt(null)` and `bytesToLong(null)` would throw a null-pointer exception. `UserData` would store a `null` groups array, or `null` group entries, without complaint.
- `ArrayCopy`: the exceptions `System.arraycopy` throws for bad positions or lengths are a precondition, not modelled errors. The assembly code never hits them.
- The murmur3 hashing of stream identifiers (through Guava) is a foreign library. The hash bytes are an arbitrary byte prefix.
- Printing a key prefix back with `new String(bytes, 0, len)` is a charset decode, and is not modelled.
- All storage I/O of the two storage tests is not modelled: opening databases, put, get, iterators, prefix seeks, flushes, transactions and key ranges. The stores' key comparator is stated as the unsigned byte-wise order `KeyLess`.
- Index records store the hash as an `int` bit pattern. The design note's "uint32" reading of the hash does not change the bytes.
- Sharing of the `groups` array between `UserData` copies (aliasing) is not modelled: groups are an immutable sequence. Strings in `UserData` are modelled as non-null; the record only stores and copies them.
- The expected-version values are only declared in the repository. No optimistic-concurrency check uses them, so `Classify` gives their meanings and nothing more.
- `ExpectedVersion.Classify` reads `INVALID` as a rejection, which its doc comment does not state. It also keeps negative values that are no sentinel apart as `Undocumented`, where the doc comment's "any other integer value" would make them expected event numbers.
- The Lucene token-stream plumbing around `splitCamelCase` (`incrementToken`) is not modelled.
- The message buses, HTTP controllers, message records and the application entry point hold no computation beyond stored fields and stubs, and are not modelled.
