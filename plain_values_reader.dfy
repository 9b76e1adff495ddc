/**
 * The vectorized Parquet PLAIN decoder: a byte page, one forward cursor into
 * it, and operations that move typed values from the page into column sinks.
 * The cursor is the logical index into the page; a column sink is an array
 * whose slots the caller has allocated.
 */
module PlainValuesReader {
  import opened LittleEndian
  import opened PlainEncoding

  class VectorizedPlainValuesReader {
    /** The page being decoded; empty until a page is bound. */
    var buffer: seq<byte>
    /** Index of the next unread byte of `buffer`. */
    var offset: nat
    /** Width of one value, used only by the skips; fixed at construction. */
    const byteSize: nat

    /** The cursor stays within the page. */
    ghost predicate Valid()
      reads this
    {
      offset <= |buffer|
    }

    /** A reader for values of `byteSize` bytes, not yet bound to a page. */
    constructor (byteSize: nat)
      ensures Valid()
      ensures this.byteSize == byteSize && buffer == [] && offset == 0
    {
      this.byteSize := byteSize;
      buffer := [];
      offset := 0;
    }

    /** Binds the reader to `bytes` with the cursor at `start`, whatever it was bound to before. */
    method InitFromPage(bytes: seq<byte>, start: nat)
      requires start <= |bytes|
      modifies this
      ensures Valid()
      ensures buffer == bytes && offset == start
    {
      buffer := bytes;
      offset := start;
    }

    /** Steps over one value. */
    method Skip()
      requires Valid() && offset + byteSize <= |buffer|
      modifies this`offset
      ensures Valid()
      ensures offset == old(offset) + byteSize
    {
      offset := offset + byteSize;
    }

    /** Steps over `n` values without reading them. */
    method SkipN(n: nat)
      requires Valid() && offset + n * byteSize <= |buffer|
      modifies this`offset
      ensures Valid()
      ensures offset == old(offset) + n * byteSize
    {
      offset := offset + n * byteSize;
    }

    /** Copies `total` little-endian int32 values into slots `rowId ..` of `c`. */
    method ReadIntegers(total: nat, c: array<int>, rowId: nat)
      requires Valid() && offset + 4 * total <= |buffer|
      requires rowId + total <= c.Length
      modifies this`offset, c
      ensures Valid()
      ensures offset == old(offset) + 4 * total
      ensures c[..] == Overwrite(old(c[..]), rowId, Values(buffer, old(offset), 4, total))
    {
      ghost var vals := Values(buffer, offset, 4, total);
      forall i | 0 <= i < total {
        c[rowId + i] := LE32(buffer, offset + 4 * i);
      }
      forall i | 0 <= i < total ensures c[rowId + i] == vals[i] {
        ValuesAt(buffer, offset, 4, total, i);
      }
      assert c[..] == Overwrite(old(c[..]), rowId, vals);
      offset := offset + 4 * total;
    }

    /** Copies `total` little-endian int64 values into slots `rowId ..` of `c`. */
    method ReadLongs(total: nat, c: array<int>, rowId: nat)
      requires Valid() && offset + 8 * total <= |buffer|
      requires rowId + total <= c.Length
      modifies this`offset, c
      ensures Valid()
      ensures offset == old(offset) + 8 * total
      ensures c[..] == Overwrite(old(c[..]), rowId, Values(buffer, old(offset), 8, total))
    {
      ghost var vals := Values(buffer, offset, 8, total);
      forall i | 0 <= i < total {
        c[rowId + i] := LE64(buffer, offset + 8 * i);
      }
      forall i | 0 <= i < total ensures c[rowId + i] == vals[i] {
        ValuesAt(buffer, offset, 8, total, i);
      }
      assert c[..] == Overwrite(old(c[..]), rowId, vals);
      offset := offset + 8 * total;
    }

    /**
     * Reads `total` byte values, each stored as a four-byte group of which only
     * the first byte is kept, sign-extended into slots `rowId ..` of `c`.
     */
    method ReadBytes(total: nat, c: array<int>, rowId: nat)
      requires Valid() && offset + 4 * total <= |buffer|
      requires rowId + total <= c.Length
      modifies this`offset, c
      ensures Valid()
      ensures offset == old(offset) + 4 * total
      ensures c[..] == Overwrite(old(c[..]), rowId, WidenedBytes(buffer, old(offset), total))
    {
      var i := 0;
      while i < total
        invariant 0 <= i <= total
        invariant offset == old(offset) + 4 * i
        invariant c[..] == Overwrite(old(c[..]), rowId, WidenedBytes(buffer, old(offset), i))
      {
        OverwriteSnoc(old(c[..]), rowId, WidenedBytes(buffer, old(offset), i), SignedByte(buffer[offset]));
        c[rowId + i] := SignedByte(buffer[offset]);
        offset := offset + 4;
        i := i + 1;
      }
    }

    /** Reads the int32 at the cursor. */
    method ReadInteger() returns (v: int)
      requires Valid() && offset + 4 <= |buffer|
      modifies this`offset
      ensures Valid()
      ensures offset == old(offset) + 4
      ensures v == LE32(buffer, old(offset))
    {
      v := LE32(buffer, offset);
      offset := offset + 4;
    }

    /** Reads the int64 at the cursor. */
    method ReadLong() returns (v: int)
      requires Valid() && offset + 8 <= |buffer|
      modifies this`offset
      ensures Valid()
      ensures offset == old(offset) + 8
      ensures v == LE64(buffer, old(offset))
    {
      v := LE64(buffer, offset);
      offset := offset + 8;
    }

    /**
     * Reads the int32 at the cursor and narrows it to a byte: the value the
     * group's first byte holds, the same one ReadBytes stores for it.
     */
    method ReadByte() returns (b: int)
      requires Valid() && offset + 4 <= |buffer|
      modifies this`offset
      ensures Valid()
      ensures offset == old(offset) + 4
      ensures b == ToInt8(LE32(buffer, old(offset)))
      ensures b == SignedByte(buffer[old(offset)])
    {
      var v := ReadInteger();
      b := ToInt8(v);
      LowByteOfInt32(buffer, old(offset));
    }

    /**
     * Reads `total` length-prefixed binaries into slots `rowId ..` of `v`; the
     * page must hold them all (see `Binaries`).
     */
    method ReadBinary(total: nat, v: array<seq<byte>>, rowId: nat)
      requires Valid() && Binaries(buffer, offset, total).Some?
      requires rowId + total <= v.Length
      modifies this`offset, v
      ensures Valid()
      ensures offset == Binaries(buffer, old(offset), total).value.end
      ensures v[..] == Overwrite(old(v[..]), rowId, Binaries(buffer, old(offset), total).value.values)
    {
      ghost var page, start0 := buffer, offset;
      ghost var vs := Binaries(page, start0, total).value.values;
      for i := 0 to total
        invariant offset == start0 + EncodedSize(vs[..i])
        invariant v[..] == Overwrite(old(v[..]), rowId, vs[..i])
      {
        BinariesAt(page, start0, total, i);
        EncodedSizeSnoc(vs, i);
        ghost var p := offset;
        var len := ReadInteger();
        var start := offset;
        BinaryAtCursor(page, start0, total, i, p, start, len);
        offset := offset + len;
        OverwriteSnoc(old(v[..]), rowId, vs[..i], vs[i]);
        v[rowId + i] := buffer[start .. start + len];
      }
      BinariesEnd(page, start0, total);
      assert vs[..total] == vs;
    }
  }
}
