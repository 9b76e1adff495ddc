/**
 * Properties of the decoder that relate several of its operations: scalar and
 * bulk reads agree, n single skips are one skip of n, and the worked pages of
 * the PLAIN encoding decode as the format says. The last part models the
 * byte loop as it is written, which indexes the page with the physical cursor.
 */
module ReaderProperties {
  import opened LittleEndian
  import opened PlainEncoding
  import opened PlainValuesReader

  /**
   * Reading `total` int32 values one at a time and storing each at the next
   * slot leaves the sink and the cursor as one bulk ReadIntegers does.
   */
  method ReadIntegersOneByOne(r: VectorizedPlainValuesReader, total: nat, c: array<int>, rowId: nat)
    requires r.Valid() && r.offset + 4 * total <= |r.buffer|
    requires rowId + total <= c.Length
    modifies r`offset, c
    ensures r.Valid()
    ensures r.offset == old(r.offset) + 4 * total
    ensures c[..] == Overwrite(old(c[..]), rowId, Values(r.buffer, old(r.offset), 4, total))
  {
    ghost var page, start, sink := r.buffer, r.offset, c[..];
    var i := 0;
    while i < total
      invariant 0 <= i <= total
      invariant r.Valid() && r.buffer == page
      invariant r.offset == start + 4 * i
      invariant c[..] == Overwrite(sink, rowId, Values(page, start, 4, i))
    {
      ValuesSnoc(page, start, 4, i);
      var x := r.ReadInteger();
      assert Values(page, start, 4, i + 1) == Values(page, start, 4, i) + [x];
      OverwriteSnoc(sink, rowId, Values(page, start, 4, i), x);
      c[rowId + i] := x;
      i := i + 1;
    }
  }

  /**
   * Reading `total` int64 values one at a time gives what one bulk ReadLongs gives.
   */
  method ReadLongsOneByOne(r: VectorizedPlainValuesReader, total: nat, c: array<int>, rowId: nat)
    requires r.Valid() && r.offset + 8 * total <= |r.buffer|
    requires rowId + total <= c.Length
    modifies r`offset, c
    ensures r.Valid()
    ensures r.offset == old(r.offset) + 8 * total
    ensures c[..] == Overwrite(old(c[..]), rowId, Values(r.buffer, old(r.offset), 8, total))
  {
    ghost var page, start, sink := r.buffer, r.offset, c[..];
    var i := 0;
    while i < total
      invariant 0 <= i <= total
      invariant r.Valid() && r.buffer == page
      invariant r.offset == start + 8 * i
      invariant c[..] == Overwrite(sink, rowId, Values(page, start, 8, i))
    {
      ValuesSnoc(page, start, 8, i);
      var x := r.ReadLong();
      assert Values(page, start, 8, i + 1) == Values(page, start, 8, i) + [x];
      OverwriteSnoc(sink, rowId, Values(page, start, 8, i), x);
      c[rowId + i] := x;
      i := i + 1;
    }
  }

  /**
   * Reading `total` bytes one at a time with ReadByte gives what one bulk
   * ReadBytes gives.
   */
  method ReadBytesOneByOne(r: VectorizedPlainValuesReader, total: nat, c: array<int>, rowId: nat)
    requires r.Valid() && r.offset + 4 * total <= |r.buffer|
    requires rowId + total <= c.Length
    modifies r`offset, c
    ensures r.Valid()
    ensures r.offset == old(r.offset) + 4 * total
    ensures c[..] == Overwrite(old(c[..]), rowId, WidenedBytes(r.buffer, old(r.offset), total))
  {
    ghost var page, start, sink := r.buffer, r.offset, c[..];
    var i := 0;
    while i < total
      invariant 0 <= i <= total
      invariant r.Valid() && r.buffer == page
      invariant r.offset == start + 4 * i
      invariant c[..] == Overwrite(sink, rowId, WidenedBytes(page, start, i))
    {
      var x := r.ReadByte();
      assert WidenedBytes(page, start, i + 1) == WidenedBytes(page, start, i) + [x];
      OverwriteSnoc(sink, rowId, WidenedBytes(page, start, i), x);
      c[rowId + i] := x;
      i := i + 1;
    }
  }

  /** `n` single skips move the cursor exactly as far as one skip of `n`. */
  method SkipOneByOne(r: VectorizedPlainValuesReader, n: nat)
    requires r.Valid() && r.offset + n * r.byteSize <= |r.buffer|
    modifies r`offset
    ensures r.Valid()
    ensures r.offset == old(r.offset) + n * r.byteSize
  {
    var i := 0;
    while i < n
      invariant 0 <= i <= n
      invariant r.Valid()
      invariant r.offset == old(r.offset) + i * r.byteSize
    {
      MulStep(r.byteSize, i, n);
      r.Skip();
      i := i + 1;
    }
  }

  /**
   * Rebinding forgets the previous page and cursor: after reading from one
   * page, a second InitFromPage reads the second page from its start offset.
   */
  method ReadAfterRebind(first: seq<byte>, second: seq<byte>, start: nat) returns (a: int, b: int)
    requires 4 <= |first| && start + 4 <= |second|
    ensures a == LE32(first, 0) && b == LE32(second, start)
  {
    var r := new VectorizedPlainValuesReader(4);
    r.InitFromPage(first, 0);
    a := r.ReadInteger();
    r.InitFromPage(second, start);
    b := r.ReadInteger();
  }

  // ---------------------------------------------------------------------------
  // Worked pages

  /**
   * The page holding the int32 values 5, -3 and 255 read back as bytes gives
   * 5, -3 and -1: only the low byte of each value is kept.
   */
  lemma ByteWideningExample()
    ensures var page: seq<byte> := [5, 0, 0, 0, 253, 255, 255, 255, 255, 0, 0, 0];
            Values(page, 0, 4, 3) == [5, -3, 255] && WidenedBytes(page, 0, 3) == [5, -3, -1]
  {
    var page: seq<byte> := [5, 0, 0, 0, 253, 255, 255, 255, 255, 0, 0, 0];
    assert Pow256(4) == 0x1_0000_0000 && Pow256(1) == 256;
    assert LE32(page, 4) == -3 by {
      assert Unsigned(page, 4, 4) == 0xffff_fffd;
    }
  }

  /** "abc" then "xy" encode as the page 03 00 00 00 'a' 'b' 'c' 02 00 00 00 'x' 'y' of 13 bytes. */
  lemma BinaryExampleLayout()
    ensures EncodeBinaries([[97, 98, 99], [120, 121]]) == [3, 0, 0, 0, 97, 98, 99, 2, 0, 0, 0, 120, 121]
    ensures EncodedSize([[97, 98, 99], [120, 121]]) == 13
  {
    var vs: seq<seq<byte>> := [[97, 98, 99], [120, 121]];
    assert vs[..1] == [[97, 98, 99]] && vs[..1][..0] == [];
    assert EncodeSigned(3, 4) == [3, 0, 0, 0] && EncodeSigned(2, 4) == [2, 0, 0, 0];
  }

  /** The page 03 00 00 00 'a' 'b' 'c' 02 00 00 00 'x' 'y' holds "abc" then "xy" and nothing after. */
  lemma BinaryExample()
    ensures Binaries([3, 0, 0, 0, 97, 98, 99, 2, 0, 0, 0, 120, 121], 0, 2)
         == Some(Decoded([[97, 98, 99], [120, 121]], 13))
  {
    var page: seq<byte> := [3, 0, 0, 0, 97, 98, 99, 2, 0, 0, 0, 120, 121];
    BinaryExampleLayout();
    BinariesRoundTrip([[97, 98, 99], [120, 121]], []);
    assert page + [] == page;
  }

  // ---------------------------------------------------------------------------
  // The byte loop as written

  /**
   * Byte offset of the first element of a Java byte[] as seen by the unsafe
   * memory API (`Platform.BYTE_ARRAY_OFFSET`): 16 on a 64-bit HotSpot JVM.
   */
  const ByteArrayBase: nat := 16

  /**
   * What the byte loop as written leaves behind: the values it stored in slots
   * `rowId ..`, in order, whether it then threw, and the logical cursor it
   * stopped at.
   */
  datatype ByteRun = ByteRun(stored: seq<int>, threw: bool, cursor: nat)

  /**
   * The byte loop as written: the reader keeps its cursor as `logical offset +
   * base`, and this loop alone indexes the array with that cursor directly.
   * Each round stores the byte there and then moves the cursor by 4. The first
   * index past the array throws ArrayIndexOutOfBoundsException before that
   * round stores anything, so the slots already stored and the cursor stay.
   */
  function ReadBytesAsWritten(buf: seq<byte>, off: nat, total: nat, base: nat): (r: ByteRun)
    ensures !r.threw <==> total == 0 || off + base + 4 * (total - 1) < |buf|
    ensures r.threw <==> |r.stored| < total
    ensures |r.stored| <= total && r.cursor == off + 4 * |r.stored|
    ensures r.threw ==> |buf| <= off + base + 4 * |r.stored|
    ensures forall i :: 0 <= i < |r.stored| ==>
              off + base + 4 * i < |buf| && r.stored[i] == SignedByte(buf[off + base + 4 * i])
  {
    if total == 0 then ByteRun([], false, off)
    else
      var r := ReadBytesAsWritten(buf, off, total - 1, base);
      var at := off + base + 4 * (total - 1);
      if r.threw then r
      else if at < |buf| then ByteRun(r.stored + [SignedByte(buf[at])], false, r.cursor + 4)
      else ByteRun(r.stored, true, r.cursor)
  }

  /** With no base offset the loop as written stores exactly what the corrected ReadBytes stores. */
  lemma {:induction false} ReadBytesAsWrittenWithoutBase(buf: seq<byte>, off: nat, total: nat)
    requires off + 4 * total <= |buf|
    ensures ReadBytesAsWritten(buf, off, total, 0) == ByteRun(WidenedBytes(buf, off, total), false, off + 4 * total)
  {
    if total > 0 {
      ReadBytesAsWrittenWithoutBase(buf, off, total - 1);
    }
  }

  /**
   * On the page of int32 values 0, 0, 0, 0, 5 the loop as written stores 5 for
   * the first value, which is 0.
   */
  lemma ReadBytesAsWrittenMisreads()
    ensures var page := EncodeValues([0, 0, 0, 0, 5], 4);
            WidenedBytes(page, 0, 1) == [0] && ReadBytesAsWritten(page, 0, 1, ByteArrayBase) == ByteRun([5], false, 4)
  {
    assert Pow256(4) == 0x1_0000_0000;
    var page := EncodeValues([0, 0, 0, 0, 5], 4);
    EncodeValuesAt([0, 0, 0, 0, 5], 4, 0);
    EncodeValuesAt([0, 0, 0, 0, 5], 4, 4);
    assert page[0] == EncodeSigned(0, 4)[0] == 0;
    assert page[16] == EncodeSigned(5, 4)[0] == 5;
    assert Pow256(1) == 256 && |page| == 20;
    assert SignedByte(page[16]) == 5;
    assert ReadBytesAsWritten(page, 0, 1, ByteArrayBase).stored == [] + [SignedByte(page[16])] == [5];
  }

  /**
   * On a page holding the single int32 value 5 the loop as written indexes
   * byte 16 of a 4-byte array and fails, where the value is 5.
   */
  lemma ReadBytesAsWrittenOverruns()
    ensures var page := EncodeValues([5], 4);
            WidenedBytes(page, 0, 1) == [5] && ReadBytesAsWritten(page, 0, 1, ByteArrayBase) == ByteRun([], true, 0)
  {
    assert Pow256(4) == 0x1_0000_0000;
    var page := EncodeValues([5], 4);
    EncodeValuesAt([5], 4, 0);
    assert page[0] == EncodeSigned(5, 4)[0] == 5;
  }

  /** The PLAIN page of the int32 values 5, 6, 7, 8, 9 has 20 bytes; groups 0, 1 and 4 start with 5, 6 and 9. */
  lemma FiveIntsPage()
    ensures var page := EncodeValues([5, 6, 7, 8, 9], 4);
            |page| == 20 && page[0] == 5 && page[4] == 6 && page[16] == 9
  {
    assert Pow256(4) == 0x1_0000_0000;
    var vs := [5, 6, 7, 8, 9];
    EncodeValuesAt(vs, 4, 0);
    EncodeValuesAt(vs, 4, 1);
    EncodeValuesAt(vs, 4, 4);
    assert EncodeSigned(5, 4)[0] == 5 && EncodeSigned(6, 4)[0] == 6 && EncodeSigned(9, 4)[0] == 9;
  }

  /**
   * On the page of int32 values 5, 6, 7, 8, 9, reading two bytes as written
   * stores 9 in the first slot, moves the cursor by 4 and then throws, where
   * the values are 5 and 6.
   */
  lemma ReadBytesAsWrittenThrowsMidway()
    ensures var page := EncodeValues([5, 6, 7, 8, 9], 4);
            WidenedBytes(page, 0, 2) == [5, 6] && ReadBytesAsWritten(page, 0, 2, ByteArrayBase) == ByteRun([9], true, 4)
  {
    var page := EncodeValues([5, 6, 7, 8, 9], 4);
    FiveIntsPage();
    assert Pow256(1) == 256;
    assert ReadBytesAsWritten(page, 0, 1, ByteArrayBase).stored == [9];
  }
}
