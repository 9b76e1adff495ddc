# Parquet PLAIN values reader, modelled in Dafny

This project models Spark's vectorized decoder for pages in the Parquet PLAIN
encoding, the class `VectorizedPlainValuesReader`. The reader holds one byte
page and one forward cursor into it. It moves typed values from the page into
column sinks:

- 4-byte and 8-byte little-endian integers, copied in bulk or read one at a time;
- single bytes, each stored in the page as a 4-byte int32 of which only the
  first (low) byte is kept and sign-extended;
- variable-length binaries, each a 4-byte little-endian length followed by that
  many payload bytes.

It can also skip values without reading them, and it can be rebound to a new
page.

Files:

- `little_endian.dfy` (module `LittleEndian`): the unsigned and two's-complement
  little-endian reading of bytes, its encoder, and the Java narrowing cast to `byte`.
- `plain_encoding.dfy` (module `PlainEncoding`): the PLAIN page layout as pure
  reference functions. `Values` is a run of fixed-width values. `WidenedBytes` is a
  run of bytes stored as int32 groups. `Binaries` is a run of length-prefixed
  binaries, or `None` when the page cannot hold them. `Overwrite` is a column sink
  after a positional bulk write. The file also holds the encoders and the
  round-trip lemmas.
- `plain_values_reader.dfy` (module `PlainValuesReader`): the class
  `VectorizedPlainValuesReader`. Its fields are `buffer` (the page), `offset`
  (the logical cursor) and the constant `byteSize`. Each method is proved
  against the reference functions.
- `reader_properties.dfy` (module `ReaderProperties`): client methods proving
  three facts. Scalar reads repeated `total` times equal the bulk reads. `n`
  single skips equal one `skip(n)`. Rebinding forgets the old page. The file also
  holds two worked pages and the as-written model of the byte loop (see
  Findings).

A column sink is a Dafny `array`. Ints, longs and bytes use `array<int>`;
binaries use `array<seq<byte>>`. A bulk read promises
`c[..] == Overwrite(old(c[..]), rowId, vals)`: slots `rowId .. rowId+total-1`
receive the decoded values in order, and every other slot keeps its value.
`byteSize` is a `const` field, so no method can change it after construction.

## Model

| member | source | states |
|---|---|---|
| PlainValuesReader.VectorizedPlainValuesReader.constructor | sql/core/src/main/java/org/apache/spark/sql/execution/datasources/parquet/VectorizedPlainValuesReader.java:37-39 | the reader keeps the given value width; it is not yet bound to a page (empty page, cursor 0) |
| PlainValuesReader.VectorizedPlainValuesReader.InitFromPage | sql/core/src/main/java/org/apache/spark/sql/execution/datasources/parquet/VectorizedPlainValuesReader.java:42-45 | afterwards the page is the given bytes and the cursor is the given start, whatever page and cursor came before |
| PlainValuesReader.VectorizedPlainValuesReader.Skip | sql/core/src/main/java/org/apache/spark/sql/execution/datasources/parquet/VectorizedPlainValuesReader.java:48-50 | the cursor advances by exactly `byteSize`; nothing else changes (frame `this`offset`) |
| PlainValuesReader.VectorizedPlainValuesReader.SkipN | sql/core/src/main/java/org/apache/spark/sql/execution/datasources/parquet/VectorizedPlainValuesReader.java:53-55 | the cursor advances by exactly `n * byteSize`; nothing else changes |
| PlainValuesReader.VectorizedPlainValuesReader.ReadIntegers | sql/core/src/main/java/org/apache/spark/sql/execution/datasources/parquet/VectorizedPlainValuesReader.java:58-61 | slot `rowId+i` holds the little-endian int32 at byte `offset+4i`, every other slot is unchanged, and the cursor advances by `4*total` |
| PlainValuesReader.VectorizedPlainValuesReader.ReadLongs | sql/core/src/main/java/org/apache/spark/sql/execution/datasources/parquet/VectorizedPlainValuesReader.java:64-67 | slot `rowId+i` holds the little-endian int64 at byte `offset+8i`, every other slot is unchanged, and the cursor advances by `8*total` |
| PlainValuesReader.VectorizedPlainValuesReader.ReadBytes | sql/core/src/main/java/org/apache/spark/sql/execution/datasources/parquet/VectorizedPlainValuesReader.java:70-77 | slot `rowId+i` holds the sign-extended first byte of the i-th 4-byte group, every other slot is unchanged, and the cursor advances by `4*total` (the corrected loop; see Findings) |
| PlainValuesReader.VectorizedPlainValuesReader.ReadInteger | sql/core/src/main/java/org/apache/spark/sql/execution/datasources/parquet/VectorizedPlainValuesReader.java:80-84 | returns the little-endian int32 at the cursor and advances the cursor by 4 |
| PlainValuesReader.VectorizedPlainValuesReader.ReadLong | sql/core/src/main/java/org/apache/spark/sql/execution/datasources/parquet/VectorizedPlainValuesReader.java:87-91 | returns the little-endian int64 at the cursor and advances the cursor by 8 |
| PlainValuesReader.VectorizedPlainValuesReader.ReadByte | sql/core/src/main/java/org/apache/spark/sql/execution/datasources/parquet/VectorizedPlainValuesReader.java:94-96 | returns the int32 at the cursor cast to `byte`, which equals the sign-extended byte at the cursor (what ReadBytes stores for that group); advances the cursor by 4 |
| PlainValuesReader.VectorizedPlainValuesReader.ReadBinary | sql/core/src/main/java/org/apache/spark/sql/execution/datasources/parquet/VectorizedPlainValuesReader.java:99-106 | slot `rowId+i` holds the i-th length-prefixed binary of the page, every other slot is unchanged, and the cursor ends where the `total`-th binary ends |
| LittleEndian.LE32 | sql/core/src/main/java/org/apache/spark/sql/execution/datasources/parquet/VectorizedPlainValuesReader.java:81 | a 4-byte read is a Java `int`: it lies in [-2^31, 2^31) |
| LittleEndian.LE64 | sql/core/src/main/java/org/apache/spark/sql/execution/datasources/parquet/VectorizedPlainValuesReader.java:88 | an 8-byte read is a Java `long`: it lies in [-2^63, 2^63) |
| LittleEndian.Unsigned | sql/core/src/main/java/org/apache/spark/sql/execution/datasources/parquet/VectorizedPlainValuesReader.java:81 | the unsigned little-endian value of the n bytes at i is below 256^n |
| LittleEndian.UnsignedOfWindow | sql/core/src/main/java/org/apache/spark/sql/execution/datasources/parquet/VectorizedPlainValuesReader.java:81 | the unsigned value read depends only on the n bytes it covers, wherever they sit in the page |
| LittleEndian.FromToLE | sql/core/src/main/java/org/apache/spark/sql/execution/datasources/parquet/VectorizedPlainValuesReader.java:81 | reading back the n little-endian bytes of an unsigned value below 256^n gives the value |
| LittleEndian.ToFromLE | sql/core/src/main/java/org/apache/spark/sql/execution/datasources/parquet/VectorizedPlainValuesReader.java:81 | re-encoding the value read from n bytes gives the same bytes |
| LittleEndian.SignedRoundTrip | sql/core/src/main/java/org/apache/spark/sql/execution/datasources/parquet/VectorizedPlainValuesReader.java:81 | decoding the two's-complement little-endian encoding of an in-range integer gives the integer |
| LittleEndian.SignedEncodeDecode | sql/core/src/main/java/org/apache/spark/sql/execution/datasources/parquet/VectorizedPlainValuesReader.java:88 | every n-byte window encodes exactly the signed value read from it |
| LittleEndian.SignedOfSlice | sql/core/src/main/java/org/apache/spark/sql/execution/datasources/parquet/VectorizedPlainValuesReader.java:81 | a read at byte i depends only on the n bytes starting there |
| LittleEndian.SignedByte | sql/core/src/main/java/org/apache/spark/sql/execution/datasources/parquet/VectorizedPlainValuesReader.java:74 | a Java `byte` widened to `int` lies in [-128, 128) and agrees with the unsigned octet modulo 256 |
| LittleEndian.ToInt8 | sql/core/src/main/java/org/apache/spark/sql/execution/datasources/parquet/VectorizedPlainValuesReader.java:95 | the `(byte)` cast yields a value in [-128, 128) congruent to its argument modulo 256 |
| LittleEndian.ToInt8OfInt8 | sql/core/src/main/java/org/apache/spark/sql/execution/datasources/parquet/VectorizedPlainValuesReader.java:95 | the `(byte)` cast leaves a value that already fits in a byte unchanged |
| LittleEndian.LowByteOfInt32 | sql/core/src/main/java/org/apache/spark/sql/execution/datasources/parquet/VectorizedPlainValuesReader.java:94-96 | casting the little-endian int32 at i to `byte` gives the sign-extended byte at i: the first byte of a group is its low byte |
| PlainEncoding.Overwrite | sql/core/src/main/java/org/apache/spark/sql/execution/datasources/parquet/VectorizedPlainValuesReader.java:59 | after a positional bulk write, slot j holds `vals[j-at]` inside the written range and its old value outside it; the length is unchanged |
| PlainEncoding.OverwriteSnoc | sql/core/src/main/java/org/apache/spark/sql/execution/datasources/parquet/VectorizedPlainValuesReader.java:74 | a bulk write followed by a write of the next slot equals a bulk write of one more value |
| PlainEncoding.Values | sql/core/src/main/java/org/apache/spark/sql/execution/datasources/parquet/VectorizedPlainValuesReader.java:59 | a run of `total` values of width w has `total` elements, each fitting in w bytes |
| PlainEncoding.ValuesAt | sql/core/src/main/java/org/apache/spark/sql/execution/datasources/parquet/VectorizedPlainValuesReader.java:58-67 | value i of a fixed-width run is the one stored at byte `off + w*i`, and that read stays inside the page |
| PlainEncoding.ValuesSnoc | sql/core/src/main/java/org/apache/spark/sql/execution/datasources/parquet/VectorizedPlainValuesReader.java:80-84 | reading one more value extends the run already read by the value at the next position |
| PlainEncoding.EncodeValues | sql/core/src/main/java/org/apache/spark/sql/execution/datasources/parquet/VectorizedPlainValuesReader.java:58-67 | the PLAIN encoding of k values of width w takes exactly w*k bytes |
| PlainEncoding.EncodeValuesAt | sql/core/src/main/java/org/apache/spark/sql/execution/datasources/parquet/VectorizedPlainValuesReader.java:58-67 | value i of an encoding occupies bytes `w*i .. w*i + w` |
| PlainEncoding.ValuesRoundTrip | sql/core/src/main/java/org/apache/spark/sql/execution/datasources/parquet/VectorizedPlainValuesReader.java:58-67 | decoding the PLAIN encoding of any in-range values, any count including zero, yields them in order |
| PlainEncoding.WidenedBytes | sql/core/src/main/java/org/apache/spark/sql/execution/datasources/parquet/VectorizedPlainValuesReader.java:70-77 | a run of `total` widened bytes has `total` elements, each in [-128, 128) |
| PlainEncoding.WidenedBytesAreLowBytes | sql/core/src/main/java/org/apache/spark/sql/execution/datasources/parquet/VectorizedPlainValuesReader.java:72-74 | the i-th widened byte is the `(byte)` cast of the i-th int32 of the same region |
| PlainEncoding.WidenedBytesAt | sql/core/src/main/java/org/apache/spark/sql/execution/datasources/parquet/VectorizedPlainValuesReader.java:73-74 | widened byte i is the sign-extended byte at `off + 4i`, the first byte of group i, and that byte lies inside the page |
| PlainEncoding.WidenedBytesRoundTrip | sql/core/src/main/java/org/apache/spark/sql/execution/datasources/parquet/VectorizedPlainValuesReader.java:70-77 | byte values encoded as int32 groups are read back unchanged |
| PlainEncoding.Binaries | sql/core/src/main/java/org/apache/spark/sql/execution/datasources/parquet/VectorizedPlainValuesReader.java:99-106 | when the page holds `total` binaries there are exactly `total` of them and they end within the page, at or after the start |
| PlainEncoding.EncodedSizeSnoc | sql/core/src/main/java/org/apache/spark/sql/execution/datasources/parquet/VectorizedPlainValuesReader.java:103 | the first i+1 binaries take the encoded size of the first i plus a 4-byte prefix and binary i's payload |
| PlainEncoding.BinariesPrefix | sql/core/src/main/java/org/apache/spark/sql/execution/datasources/parquet/VectorizedPlainValuesReader.java:100-105 | a page that holds `total` binaries holds each shorter run, as a prefix that ends no later |
| PlainEncoding.BinariesEnd | sql/core/src/main/java/org/apache/spark/sql/execution/datasources/parquet/VectorizedPlainValuesReader.java:99-106 | reading binaries ends at the start offset plus the sum over all elements of 4 plus their length |
| PlainEncoding.BinariesAt | sql/core/src/main/java/org/apache/spark/sql/execution/datasources/parquet/VectorizedPlainValuesReader.java:101-104 | binary i is exactly the `len_i` bytes after its length prefix, where the prefix holds `len_i` and sits after the encoded size of the binaries before it |
| PlainEncoding.BinariesStep | sql/core/src/main/java/org/apache/spark/sql/execution/datasources/parquet/VectorizedPlainValuesReader.java:101-104 | when the page holds n+1 binaries it holds the first n, and binary n is the length prefix at their end followed by that many bytes |
| PlainEncoding.BinaryAtCursor | sql/core/src/main/java/org/apache/spark/sql/execution/datasources/parquet/VectorizedPlainValuesReader.java:101-104 | with the cursor at binary i's length prefix, the int32 read there is its length and the bytes after it are binary i, all inside the page |
| PlainEncoding.BinariesSnoc | sql/core/src/main/java/org/apache/spark/sql/execution/datasources/parquet/VectorizedPlainValuesReader.java:101-104 | a run of binaries followed by a length and that many bytes reads as one more binary, ending after those bytes |
| PlainEncoding.EncodeBinaries | sql/core/src/main/java/org/apache/spark/sql/execution/datasources/parquet/VectorizedPlainValuesReader.java:99-106 | the PLAIN encoding of binaries takes exactly their encoded size |
| PlainEncoding.BinaryFrame | sql/core/src/main/java/org/apache/spark/sql/execution/datasources/parquet/VectorizedPlainValuesReader.java:101-104 | one encoded binary, wherever it is placed, reads back as its length and its bytes |
| PlainEncoding.BinariesRoundTrip | sql/core/src/main/java/org/apache/spark/sql/execution/datasources/parquet/VectorizedPlainValuesReader.java:99-106 | decoding the encoding of any binaries, whatever follows on the page, yields them and ends exactly at the end of their encoding |
| ReaderProperties.ReadIntegersOneByOne | sql/core/src/main/java/org/apache/spark/sql/execution/datasources/parquet/VectorizedPlainValuesReader.java:80-84 | `total` ReadInteger calls stored at `rowId..` give the sink and cursor of one ReadIntegers (lines 58-61) |
| ReaderProperties.ReadLongsOneByOne | sql/core/src/main/java/org/apache/spark/sql/execution/datasources/parquet/VectorizedPlainValuesReader.java:87-91 | `total` ReadLong calls give the sink and cursor of one ReadLongs (lines 64-67) |
| ReaderProperties.ReadBytesOneByOne | sql/core/src/main/java/org/apache/spark/sql/execution/datasources/parquet/VectorizedPlainValuesReader.java:94-96 | `total` ReadByte calls give the sink and cursor of one corrected ReadBytes (lines 70-77) |
| ReaderProperties.SkipOneByOne | sql/core/src/main/java/org/apache/spark/sql/execution/datasources/parquet/VectorizedPlainValuesReader.java:48-55 | `n` calls of `skip()` advance the cursor as far as one `skip(n)` |
| ReaderProperties.ReadAfterRebind | sql/core/src/main/java/org/apache/spark/sql/execution/datasources/parquet/VectorizedPlainValuesReader.java:42-45 | after a second InitFromPage, reads come from the new page at its start offset, whatever was read before |
| ReaderProperties.ByteWideningExample | sql/core/src/main/java/org/apache/spark/sql/execution/datasources/parquet/VectorizedPlainValuesReader.java:72-74 | the 12-byte page `05 00 00 00 fd ff ff ff ff 00 00 00` holds the int32 values 5, -3 and 255, and read as bytes it gives 5, -3 and -1 |
| ReaderProperties.BinaryExampleLayout | sql/core/src/main/java/org/apache/spark/sql/execution/datasources/parquet/VectorizedPlainValuesReader.java:99-106 | "abc" then "xy" encode as the 13-byte page `03 00 00 00 a b c 02 00 00 00 x y` |
| ReaderProperties.BinaryExample | sql/core/src/main/java/org/apache/spark/sql/execution/datasources/parquet/VectorizedPlainValuesReader.java:99-106 | the page `03 00 00 00 a b c 02 00 00 00 x y` holds "abc" then "xy", ending at byte 13, which is the page's end |
| ReaderProperties.ReadBytesAsWritten | sql/core/src/main/java/org/apache/spark/sql/execution/datasources/parquet/VectorizedPlainValuesReader.java:70-77 | the loop as written, with its physical cursor: slot i receives the sign-extended byte at `off + base + 4i` for every round before the first index past the array; it throws exactly when the last index lies past the array, keeping the slots already stored and leaving the cursor 4 past the last stored group |
| ReaderProperties.ReadBytesAsWrittenWithoutBase | sql/core/src/main/java/org/apache/spark/sql/execution/datasources/parquet/VectorizedPlainValuesReader.java:74 | with a zero base offset, the loop as written stores what the corrected ReadBytes stores |
| ReaderProperties.ReadBytesAsWrittenMisreads | sql/core/src/main/java/org/apache/spark/sql/execution/datasources/parquet/VectorizedPlainValuesReader.java:74 | on the int32 page 0, 0, 0, 0, 5 with base 16, the loop as written stores 5 where the value is 0, without throwing |
| ReaderProperties.ReadBytesAsWrittenOverruns | sql/core/src/main/java/org/apache/spark/sql/execution/datasources/parquet/VectorizedPlainValuesReader.java:74 | on the 4-byte page holding 5 with base 16, the loop as written throws before storing anything, where the value is 5 |
| ReaderProperties.ReadBytesAsWrittenThrowsMidway | sql/core/src/main/java/org/apache/spark/sql/execution/datasources/parquet/VectorizedPlainValuesReader.java:73-74 | on the int32 page 5, 6, 7, 8, 9 with base 16, reading two bytes as written stores 9 in the first slot, moves the cursor by 4, then throws, where the values are 5 and 6 |

## Left out

- `Platform.BYTE_ARRAY_OFFSET`: the Java cursor is the logical index plus the
  JVM's base offset of a `byte[]`. `initFromPage` adds that base, and it cancels
  out in every other read: the bulk copies and `readBinary` subtract it, and
  `Platform.getInt` / `Platform.getLong` expect the physical cursor. The model
  therefore keeps the logical index. The one use
  that does not subtract it is modelled separately (see Findings).
- Host byte order: `Platform.getInt` and `Platform.getLong` read in native
  order. The model assumes a little-endian host, which the PLAIN format
  requires. Big-endian hosts are not modelled.
- `ColumnVector` internals (`putIntsLittleEndian`, `putLongsLittleEndian`,
  `putInt`, `putByteArray`): a sink is an array that the caller allocated with
  room for `rowId + total` slots. A bulk copy is one parallel assignment.
  Whether `putByteArray` copies the payload or references it is not modelled.
- The `valueCount` parameter of `initFromPage`, `IOException`, the
  `ValuesReader` / `VectorizedValuesReader` inheritance and the unused imports:
  none of them has behaviour.
- Bounds: the source never checks them. Every operation therefore requires that
  its reads stay within the page, and `ReadBinary` requires that the page holds
  `total` well-formed binaries (`Binaries(...).Some?`). A negative length is one
  way it can fail. Reads past the end are undefined in the source and are not
  modelled.
- Java `int` arithmetic: counts, row ids, the cursor and the constructor's
  value width `byteSize` are `nat`. Negative counts and widths are not
  modelled: a negative `skip(n)` or a negative `byteSize` would move the cursor
  backwards, and the read loops would do nothing. The preconditions keep `4 * total`,
  `8 * total`, `n * byteSize` and the cursor inside the page, so 32-bit
  wrap-around is not modelled either. Pages within 16 bytes of 2^31 could
  overflow the physical cursor in Java; this is not modelled.
- Before `initFromPage` the Java buffer is `null`. The model uses an empty page
  with the cursor at 0, so no read can be called then.
- No operation checks that it matches the configured width. `skip` uses
  `byteSize` whatever type is being read, and every other operation ignores
  `byteSize`. The model does the same and adds no "unsupported" error.
- Concurrency: a reader is used by one thread and shares no state with other
  readers.

## Findings

| source | as written | input that shows it | evidently intended | confidence | as-written member | corrected member |
|---|---|---|---|---|---|---|
| sql/core/src/main/java/org/apache/spark/sql/execution/datasources/parquet/VectorizedPlainValuesReader.java:74 | `readBytes` indexes the Java array with the physical cursor, which still includes `Platform.BYTE_ARRAY_OFFSET` (16 on a 64-bit HotSpot JVM). Every other read subtracts that base or goes through `Platform.getX`. | Page holding the int32 values 0, 0, 0, 0, 5, start 0, `readBytes(1, c, 0)`: it stores 5 where the value is 0. A 4-byte page holding 5 makes it index byte 16 and throw. On the int32 page 5, 6, 7, 8, 9, `readBytes(2, c, 0)` stores 9 in `c[0]` and then throws. | Store the sign-extended byte at the logical cursor. This is the low byte of the int32 that `readByte` returns. | high; not executed | ReaderProperties.ReadBytesAsWrittenMisreads | PlainValuesReader.VectorizedPlainValuesReader.ReadBytes |

Both halves are in the Dafny. `ReaderProperties.ReadBytesAsWritten` is the loop
as written, with the base as a parameter. Its result `ByteRun` holds the values
stored before any exception, whether the loop threw, and the cursor it stopped
at. `ReadBytesAsWrittenMisreads`, `ReadBytesAsWrittenOverruns` and
`ReadBytesAsWrittenThrowsMidway` exhibit the failures. The corrected
`ReadBytes` is the one the rest of the model uses. `PlainEncoding.WidenedBytesAreLowBytes`
and `ReaderProperties.ReadBytesOneByOne` prove that it agrees with `readByte`.
