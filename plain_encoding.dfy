/**
 * The Parquet PLAIN page layout, as the reader consumes it: fixed-width values
 * stored back to back, single bytes widened to four-byte int32 groups, and
 * variable-length binaries each preceded by a four-byte little-endian length.
 * These functions are the reference the reader's methods are proved against.
 */
module PlainEncoding {
  import opened LittleEndian

  datatype Option<T> = None | Some(value: T)

  /** The column sink `s` after `vals` is written to slots `at .. at + |vals|`. */
  function Overwrite<T>(s: seq<T>, at: nat, vals: seq<T>): (r: seq<T>)
    requires at + |vals| <= |s|
    ensures |r| == |s|
    ensures forall j :: 0 <= j < |s| ==> r[j] == if at <= j < at + |vals| then vals[j - at] else s[j]
  {
    s[..at] + vals + s[at + |vals|..]
  }

  /** Writing one more value right after a bulk write is the bulk write of one more value. */
  lemma OverwriteSnoc<T>(s: seq<T>, at: nat, vals: seq<T>, x: T)
    requires at + |vals| < |s|
    ensures Overwrite(s, at, vals + [x]) == Overwrite(s, at, vals)[at + |vals| := x]
  {
    var l, r := Overwrite(s, at, vals + [x]), Overwrite(s, at, vals)[at + |vals| := x];
    assert forall j :: 0 <= j < |s| ==> l[j] == r[j];
  }

  // ---------------------------------------------------------------------------
  // Fixed-width values

  /** The `total` signed `width`-byte values stored back to back from byte `off`. */
  function Values(buf: seq<byte>, off: nat, width: nat, total: nat): (vs: seq<int>)
    requires off + width * total <= |buf|
    ensures |vs| == total
    ensures forall i :: 0 <= i < total ==> InRange(vs[i], width)
  {
    if total == 0 then []
    else Values(buf, off, width, total - 1) + [Signed(buf, off + width * (total - 1), width)]
  }

  /** Slot `i` of `t` slots of width `w` ends within the first `w * t` bytes. */
  lemma {:induction false} MulStep(w: nat, i: nat, t: nat)
    requires i < t
    ensures w * i + w <= w * t
  {
    if i < t - 1 {
      MulStep(w, i, t - 1);
    }
    assert w * t == w * (t - 1) + w;
  }

  /** Value `i` of a fixed-width region is the one stored at byte `off + width * i`. */
  lemma {:induction false} ValuesAt(buf: seq<byte>, off: nat, width: nat, total: nat, i: nat)
    requires off + width * total <= |buf|
    requires i < total
    ensures off + width * i + width <= |buf|
    ensures Values(buf, off, width, total)[i] == Signed(buf, off + width * i, width)
  {
    if i < total - 1 {
      MulStep(width, i, total - 1);
      ValuesAt(buf, off, width, total - 1, i);
    } else {
      assert i == total - 1;
    }
  }

  /** Reading one more value extends the values read so far by the next one. */
  lemma ValuesSnoc(buf: seq<byte>, off: nat, width: nat, total: nat)
    requires off + width * (total + 1) <= |buf|
    ensures off + width * total <= |buf|
    ensures Values(buf, off, width, total + 1)
         == Values(buf, off, width, total) + [Signed(buf, off + width * total, width)]
  {
  }

  /** The PLAIN encoding of fixed-width values: each value's `width` bytes, in order. */
  function EncodeValues(vs: seq<int>, width: nat): (s: seq<byte>)
    requires forall i :: 0 <= i < |vs| ==> InRange(vs[i], width)
    ensures |s| == width * |vs|
  {
    if vs == [] then []
    else
      var init := vs[..|vs| - 1];
      assert forall i :: 0 <= i < |init| ==> init[i] == vs[i];
      EncodeValues(init, width) + EncodeSigned(vs[|vs| - 1], width)
  }

  /** Value `i` of an encoding occupies bytes `width * i .. width * i + width`. */
  lemma {:induction false} EncodeValuesAt(vs: seq<int>, width: nat, i: nat)
    requires forall k :: 0 <= k < |vs| ==> InRange(vs[k], width)
    requires i < |vs|
    ensures width * i + width <= width * |vs|
    ensures EncodeValues(vs, width)[width * i .. width * i + width] == EncodeSigned(vs[i], width)
  {
    var init := vs[..|vs| - 1];
    assert forall k :: 0 <= k < |init| ==> init[k] == vs[k];
    var e := EncodeValues(init, width);
    assert EncodeValues(vs, width) == e + EncodeSigned(vs[|vs| - 1], width);
    assert width * |vs| == width * |init| + width;
    if i < |vs| - 1 {
      EncodeValuesAt(init, width, i);
      assert width * i + width <= |e|;
    }
  }

  /**
   * Round trip: decoding a PLAIN region that encodes `vs` yields `vs`, for any
   * count including zero.
   */
  lemma {:induction false} ValuesRoundTrip(vs: seq<int>, width: nat)
    requires forall i :: 0 <= i < |vs| ==> InRange(vs[i], width)
    ensures Values(EncodeValues(vs, width), 0, width, |vs|) == vs
  {
    var page := EncodeValues(vs, width);
    var ds := Values(page, 0, width, |vs|);
    forall i | 0 <= i < |vs| ensures ds[i] == vs[i] {
      ValuesAt(page, 0, width, |vs|, i);
      EncodeValuesAt(vs, width, i);
      SignedRoundTrip(vs[i], width);
      SignedOfSlice(page, width * i, width, EncodeSigned(vs[i], width));
    }
  }

  // ---------------------------------------------------------------------------
  // Single bytes stored as four-byte groups

  /** The sign-extended first byte of each of `total` four-byte groups from `off`. */
  function WidenedBytes(buf: seq<byte>, off: nat, total: nat): (vs: seq<int>)
    requires off + 4 * total <= |buf|
    ensures |vs| == total
    ensures forall i :: 0 <= i < total ==> InRange(vs[i], 1)
  {
    if total == 0 then []
    else WidenedBytes(buf, off, total - 1) + [SignedByte(buf[off + 4 * (total - 1)])]
  }

  /**
   * Each widened byte is the narrowing cast of the int32 its group holds: a
   * byte column read in bulk agrees with reading each int32 and casting it.
   */
  lemma {:induction false} WidenedBytesAreLowBytes(buf: seq<byte>, off: nat, total: nat, i: nat)
    requires off + 4 * total <= |buf|
    requires i < total
    ensures WidenedBytes(buf, off, total)[i] == ToInt8(Values(buf, off, 4, total)[i])
  {
    ValuesAt(buf, off, 4, total, i);
    LowByteOfInt32(buf, off + 4 * i);
    if i < total - 1 {
      WidenedBytesAreLowBytes(buf, off, total - 1, i);
      ValuesAt(buf, off, 4, total - 1, i);
    }
  }

  /** Widened byte `i` is the sign-extended first byte of group `i`, at byte `off + 4 * i`. */
  lemma WidenedBytesAt(buf: seq<byte>, off: nat, total: nat, i: nat)
    requires off + 4 * total <= |buf|
    requires i < total
    ensures off + 4 * i + 4 <= |buf|
    ensures WidenedBytes(buf, off, total)[i] == SignedByte(buf[off + 4 * i])
  {
    WidenedBytesAreLowBytes(buf, off, total, i);
    ValuesAt(buf, off, 4, total, i);
    LowByteOfInt32(buf, off + 4 * i);
  }

  /** Byte values widened to int32 and encoded come back unchanged. */
  lemma WidenedBytesRoundTrip(vs: seq<int>)
    requires forall i :: 0 <= i < |vs| ==> InRange(vs[i], 1)
    ensures forall i :: 0 <= i < |vs| ==> InRange(vs[i], 4)
    ensures WidenedBytes(EncodeValues(vs, 4), 0, |vs|) == vs
  {
    assert Pow256(1) == 256 && Pow256(4) == 0x1_0000_0000;
    var page := EncodeValues(vs, 4);
    var ws := WidenedBytes(page, 0, |vs|);
    ValuesRoundTrip(vs, 4);
    forall i | 0 <= i < |vs| ensures ws[i] == vs[i] {
      WidenedBytesAreLowBytes(page, 0, |vs|, i);
      ToInt8OfInt8(vs[i]);
    }
  }

  // ---------------------------------------------------------------------------
  // Length-prefixed binaries

  /** The binaries read so far and the byte just after the last one. */
  datatype Decoded = Decoded(values: seq<seq<byte>>, end: nat)

  /**
   * The `total` length-prefixed binaries starting at byte `off`, or None when
   * a length prefix or a payload would run past the page or a length is
   * negative: on such a page the reader's behaviour is undefined.
   */
  function Binaries(buf: seq<byte>, off: nat, total: nat): (d: Option<Decoded>)
    ensures d.Some? ==> |d.value.values| == total && off <= d.value.end <= |buf|
  {
    if total == 0 then
      if off <= |buf| then Some(Decoded([], off)) else None
    else
      match Binaries(buf, off, total - 1)
      case None => None
      case Some(prev) =>
        var p := prev.end;
        if p + 4 <= |buf| && 0 <= LE32(buf, p) && p + 4 + LE32(buf, p) <= |buf| then
          var len := LE32(buf, p);
          Some(Decoded(prev.values + [buf[p + 4 .. p + 4 + len]], p + 4 + len))
        else None
  }

  /** Bytes taken by `vs` in the PLAIN layout: a four-byte prefix plus the payload, per value. */
  function EncodedSize(vs: seq<seq<byte>>): nat
  {
    if vs == [] then 0 else EncodedSize(vs[..|vs| - 1]) + 4 + |vs[|vs| - 1]|
  }

  /** The first `i + 1` binaries take the size of the first `i` plus a prefix and payload. */
  lemma EncodedSizeSnoc(vs: seq<seq<byte>>, i: nat)
    requires i < |vs|
    ensures vs[..i + 1] == vs[..i] + [vs[i]]
    ensures EncodedSize(vs[..i + 1]) == EncodedSize(vs[..i]) + 4 + |vs[i]|
  {
    assert vs[..i + 1][..i] == vs[..i];
  }

  /**
   * One more binary: when the page holds `n + 1` binaries, the last one is the
   * length prefix at the end of the first `n` and the bytes that follow it.
   */
  lemma BinariesStep(buf: seq<byte>, off: nat, n: nat)
    requires Binaries(buf, off, n + 1).Some?
    ensures Binaries(buf, off, n).Some?
    ensures var prev, d := Binaries(buf, off, n).value, Binaries(buf, off, n + 1).value;
            prev.end + 4 <= |buf| && LE32(buf, prev.end) == |d.values[n]|
            && d.end == prev.end + 4 + |d.values[n]|
            && d.values == prev.values + [buf[prev.end + 4 .. d.end]]
  {
  }

  /** A page that holds `total` binaries also holds each shorter run of them, as a prefix. */
  lemma {:induction false} BinariesPrefix(buf: seq<byte>, off: nat, i: nat, total: nat)
    requires i <= total
    requires Binaries(buf, off, total).Some?
    ensures Binaries(buf, off, i).Some?
    ensures Binaries(buf, off, i).value.values == Binaries(buf, off, total).value.values[..i]
    ensures Binaries(buf, off, i).value.end <= Binaries(buf, off, total).value.end
  {
    if i < total {
      BinariesStep(buf, off, total - 1);
      BinariesPrefix(buf, off, i, total - 1);
      var a, b := Binaries(buf, off, total - 1).value.values, Binaries(buf, off, total).value.values;
      assert b[..i] == a[..i];
    } else {
      var b := Binaries(buf, off, total).value.values;
      assert b[..i] == b;
    }
  }

  /** Reading `total` binaries ends after every prefix and payload: at `off` plus their encoded size. */
  lemma {:induction false} BinariesEnd(buf: seq<byte>, off: nat, total: nat)
    requires Binaries(buf, off, total).Some?
    ensures Binaries(buf, off, total).value.end == off + EncodedSize(Binaries(buf, off, total).value.values)
  {
    if total > 0 {
      BinariesStep(buf, off, total - 1);
      BinariesEnd(buf, off, total - 1);
      var vs := Binaries(buf, off, total).value.values;
      assert vs[..|vs| - 1] == Binaries(buf, off, total - 1).value.values;
    }
  }

  /**
   * Binary `i` is exactly the bytes that follow its length prefix, which sits
   * after the encoded size of the binaries before it.
   */
  lemma BinariesAt(buf: seq<byte>, off: nat, total: nat, i: nat)
    requires Binaries(buf, off, total).Some?
    requires i < total
    ensures var vs := Binaries(buf, off, total).value.values;
            var p := off + EncodedSize(vs[..i]);
            p + 4 + |vs[i]| <= |buf| && LE32(buf, p) == |vs[i]| && vs[i] == buf[p + 4 .. p + 4 + |vs[i]|]
  {
    var vs := Binaries(buf, off, total).value.values;
    BinariesPrefix(buf, off, i + 1, total);
    BinariesStep(buf, off, i);
    BinariesEnd(buf, off, i);
    var prev, d := Binaries(buf, off, i).value, Binaries(buf, off, i + 1).value;
    assert d.values == vs[..i + 1];
    assert prev.values == vs[..i] by {
      assert vs[..i + 1][..i] == vs[..i];
    }
    assert off + EncodedSize(vs[..i]) == prev.end;
    assert vs[i] == d.values[i] == buf[prev.end + 4 .. d.end];
  }

  /**
   * The reader's view of binary `i`: with the cursor `p` at its length prefix,
   * the length `len` read there and the payload starting at `start`, the
   * payload is binary `i`.
   */
  lemma BinaryAtCursor(buf: seq<byte>, off: nat, total: nat, i: nat, p: nat, start: nat, len: int)
    requires Binaries(buf, off, total).Some? && i < total
    requires p == off + EncodedSize(Binaries(buf, off, total).value.values[..i])
    requires start == p + 4 && start <= |buf| && len == LE32(buf, p)
    ensures var vs := Binaries(buf, off, total).value.values;
            len == |vs[i]| && start + len <= |buf| && buf[start .. start + len] == vs[i]
  {
    BinariesAt(buf, off, total, i);
  }

  /**
   * A well-formed prefix of `n` binaries ending at `p`, followed by one more
   * length and payload `x`, reads as the `m == n + 1` binaries `ws == vs + [x]`
   * ending at `e`.
   */
  lemma BinariesSnoc(buf: seq<byte>, off: nat, n: nat, m: nat, vs: seq<seq<byte>>, ws: seq<seq<byte>>,
                     p: nat, e: nat, x: seq<byte>)
    requires Binaries(buf, off, n) == Some(Decoded(vs, p))
    requires m == n + 1 && ws == vs + [x] && e == p + 4 + |x| && e <= |buf|
    requires LE32(buf, p) == |x| && buf[p + 4 .. e] == x
    ensures Binaries(buf, off, m) == Some(Decoded(ws, e))
  {
    assert m - 1 == n;
    var prev := Binaries(buf, off, m - 1);
    assert prev.Some? && prev.value.end == p && prev.value.values == vs;
    var len := LE32(buf, p);
    assert p + 4 + len == e && buf[p + 4 .. p + 4 + len] == x;
  }

  /** The PLAIN encoding of binaries: each value's length as an int32, then its bytes. */
  function EncodeBinaries(vs: seq<seq<byte>>): (s: seq<byte>)
    requires forall i :: 0 <= i < |vs| ==> |vs[i]| < 0x8000_0000
    ensures |s| == EncodedSize(vs)
  {
    if vs == [] then []
    else
      var init, last := vs[..|vs| - 1], vs[|vs| - 1];
      assert forall i :: 0 <= i < |init| ==> init[i] == vs[i];
      assert Pow256(4) == 0x1_0000_0000;
      EncodeBinaries(init) + EncodeSigned(|last|, 4) + last
  }

  lemma SnocLast<T>(s: seq<T>)
    requires s != []
    ensures s[..|s| - 1] + [s[|s| - 1]] == s
  {
  }

  lemma ConcatAssoc(a: seq<byte>, b: seq<byte>, c: seq<byte>, d: seq<byte>)
    ensures a + b + c + d == a + (b + c + d)
  {
  }

  /** One encoded binary placed after `front` reads back as its length and its bytes. */
  lemma BinaryFrame(front: seq<byte>, x: seq<byte>, rest: seq<byte>)
    requires |x| < 0x8000_0000
    ensures InRange(|x|, 4)
    ensures var buf := front + EncodeSigned(|x|, 4) + x + rest;
            |front| + 4 + |x| <= |buf| && LE32(buf, |front|) == |x|
            && buf[|front| + 4 .. |front| + 4 + |x|] == x
  {
    assert Pow256(4) == 0x1_0000_0000;
    var prefix := EncodeSigned(|x|, 4);
    var buf := front + prefix + x + rest;
    assert buf[|front| .. |front| + 4] == prefix;
    SignedRoundTrip(|x|, 4);
    SignedOfSlice(buf, |front|, 4, prefix);
    assert buf[|front| + 4 .. |front| + 4 + |x|] == x;
  }

  /**
   * Round trip: decoding the encoding of `vs`, whatever follows it on the page,
   * yields `vs` and stops exactly at the end of the encoding.
   */
  lemma {:induction false} BinariesRoundTrip(vs: seq<seq<byte>>, rest: seq<byte>)
    requires forall i :: 0 <= i < |vs| ==> |vs[i]| < 0x8000_0000
    ensures Binaries(EncodeBinaries(vs) + rest, 0, |vs|) == Some(Decoded(vs, EncodedSize(vs)))
  {
    if vs != [] {
      var init, last := vs[..|vs| - 1], vs[|vs| - 1];
      assert forall i :: 0 <= i < |init| ==> |init[i]| < 0x8000_0000 by {
        assert forall i :: 0 <= i < |init| ==> init[i] == vs[i];
      }
      assert Pow256(4) == 0x1_0000_0000;
      var front, prefix := EncodeBinaries(init), EncodeSigned(|last|, 4);
      var buf := EncodeBinaries(vs) + rest;
      assert buf == front + (prefix + last + rest) by {
        assert EncodeBinaries(vs) == front + prefix + last;
        ConcatAssoc(front, prefix, last, rest);
      }
      assert Binaries(buf, 0, |init|) == Some(Decoded(init, |front|)) by {
        BinariesRoundTrip(init, prefix + last + rest);
      }
      assert |front| + 4 + |last| <= |buf| && LE32(buf, |front|) == |last|
          && buf[|front| + 4 .. |front| + 4 + |last|] == last by {
        BinaryFrame(front, last, rest);
      }
      SnocLast(vs);
      assert EncodedSize(vs) == |front| + 4 + |last|;
      BinariesSnoc(buf, 0, |init|, |vs|, init, vs, |front|, EncodedSize(vs), last);
    } else {
      assert EncodeBinaries(vs) + rest == rest;
    }
  }
}
