/**
 * Little-endian two's-complement integers as the Parquet PLAIN encoding stores
 * them: an INT32 is four bytes, an INT64 eight, least significant byte first.
 */
module LittleEndian {

  /** One byte of a page, read as an unsigned octet. */
  type byte = x: int | 0 <= x < 256

  /** 256 to the power n: the number of distinct n-byte values. */
  function Pow256(n: nat): (r: nat)
    ensures r >= 1
  {
    if n == 0 then 1 else 256 * Pow256(n - 1)
  }

  /** The unsigned value of the `n` bytes at `buf[i..i+n]`, least significant byte first. */
  function Unsigned(buf: seq<byte>, i: nat, n: nat): (u: nat)
    requires i + n <= |buf|
    ensures u < Pow256(n)
    decreases n
  {
    if n == 0 then 0 else buf[i] + 256 * Unsigned(buf, i + 1, n - 1)
  }

  /** The `n` low-order bytes of `u`, least significant byte first. */
  function ToLE(u: nat, n: nat): (s: seq<byte>)
    ensures |s| == n
  {
    if n == 0 then [] else [u % 256] + ToLE(u / 256, n - 1)
  }

  /** `v` fits in an n-byte two's-complement integer. */
  predicate InRange(v: int, n: nat)
  {
    var p: int := Pow256(n);
    -p <= 2 * v < p
  }

  /** The two's-complement reading of the n-byte unsigned value `u`. */
  function ToSigned(u: int, n: nat): int
  {
    if 2 * u >= Pow256(n) then u - Pow256(n) else u
  }

  /** The signed little-endian n-byte integer stored at `buf[i..i+n]`. */
  function Signed(buf: seq<byte>, i: nat, n: nat): (v: int)
    requires i + n <= |buf|
    ensures InRange(v, n)
  {
    ToSigned(Unsigned(buf, i, n), n)
  }

  /** A Java `int` read from four bytes at `i` (`Platform.getInt` on a little-endian host). */
  function LE32(buf: seq<byte>, i: nat): (v: int)
    requires i + 4 <= |buf|
    ensures -0x8000_0000 <= v < 0x8000_0000
  {
    Signed(buf, i, 4)
  }

  /** A Java `long` read from eight bytes at `i` (`Platform.getLong` on a little-endian host). */
  function LE64(buf: seq<byte>, i: nat): (v: int)
    requires i + 8 <= |buf|
    ensures -0x8000_0000_0000_0000 <= v < 0x8000_0000_0000_0000
  {
    Signed(buf, i, 8)
  }

  /** The n bytes that store `v` in little-endian two's complement. */
  function EncodeSigned(v: int, n: nat): (s: seq<byte>)
    requires InRange(v, n)
    ensures |s| == n
  {
    ToLE(if v >= 0 then v else v + Pow256(n), n)
  }

  /** A Java `byte` widened to `int`: the sign-extended value of one octet. */
  function SignedByte(b: byte): (v: int)
    ensures InRange(v, 1)
    ensures v % 256 == b
  {
    ToSigned(b, 1)
  }

  /** The Java narrowing cast `(byte) v`: the low eight bits of `v`, sign-extended. */
  function ToInt8(v: int): (r: int)
    ensures InRange(r, 1)
    ensures (r - v) % 256 == 0
  {
    SignedByte(v % 256)
  }

  /** Casting a value that already fits in a byte leaves it unchanged. */
  lemma ToInt8OfInt8(v: int)
    requires InRange(v, 1)
    ensures ToInt8(v) == v
  {
    assert Pow256(1) == 256;
    if v < 0 {
      assert v % 256 == v + 256;
    } else {
      assert v % 256 == v;
    }
  }

  /** Splitting off the low byte of `b + 256 * k`. */
  lemma ByteDivMod(b: byte, k: nat)
    ensures (b + 256 * k) % 256 == b && (b + 256 * k) / 256 == k
  {
  }

  /** A read depends only on the `n` bytes it covers, wherever they sit. */
  lemma {:induction false} UnsignedOfWindow(a: seq<byte>, i: nat, b: seq<byte>, j: nat, n: nat)
    requires i + n <= |a| && j + n <= |b|
    requires a[i..i + n] == b[j..j + n]
    ensures Unsigned(a, i, n) == Unsigned(b, j, n)
    decreases n
  {
    if n > 0 {
      assert a[i] == a[i..i + n][0] == b[j..j + n][0] == b[j];
      assert a[i + 1..i + n] == a[i..i + n][1..] == b[j..j + n][1..] == b[j + 1..j + n];
      UnsignedOfWindow(a, i + 1, b, j + 1, n - 1);
    }
  }

  /** Reading at `i` is reading the window of `n` bytes there from its start. */
  lemma SignedOfSlice(buf: seq<byte>, i: nat, n: nat, window: seq<byte>)
    requires i + n <= |buf|
    requires buf[i..i + n] == window
    ensures Signed(buf, i, n) == Signed(window, 0, n)
  {
    assert window[0..n] == window;
    UnsignedOfWindow(buf, i, window, 0, n);
  }

  lemma {:induction false} FromToLE(u: nat, n: nat)
    requires u < Pow256(n)
    ensures Unsigned(ToLE(u, n), 0, n) == u
  {
    if n > 0 {
      var s := ToLE(u, n);
      var t := ToLE(u / 256, n - 1);
      assert s == [u % 256] + t;
      assert s[1..n] == t[0..n - 1];
      UnsignedOfWindow(s, 1, t, 0, n - 1);
      FromToLE(u / 256, n - 1);
    }
  }

  lemma {:induction false} ToFromLE(buf: seq<byte>, i: nat, n: nat)
    requires i + n <= |buf|
    ensures ToLE(Unsigned(buf, i, n), n) == buf[i..i + n]
    decreases n
  {
    if n > 0 {
      var k := Unsigned(buf, i + 1, n - 1);
      ByteDivMod(buf[i], k);
      ToFromLE(buf, i + 1, n - 1);
      assert [buf[i]] + buf[i + 1..i + n] == buf[i..i + n];
    }
  }

  /** Decoding the encoding of an in-range integer gives it back. */
  lemma SignedRoundTrip(v: int, n: nat)
    requires InRange(v, n)
    ensures Signed(EncodeSigned(v, n), 0, n) == v
  {
    FromToLE(if v >= 0 then v else v + Pow256(n), n);
  }

  /** Encoding the decoded value gives back the bytes: the format has one spelling per value. */
  lemma SignedEncodeDecode(buf: seq<byte>, i: nat, n: nat)
    requires i + n <= |buf|
    ensures EncodeSigned(Signed(buf, i, n), n) == buf[i..i + n]
  {
    var u := Unsigned(buf, i, n);
    ToFromLE(buf, i, n);
    assert (if ToSigned(u, n) >= 0 then ToSigned(u, n) else ToSigned(u, n) + Pow256(n)) == u;
  }

  /**
   * The low byte of a little-endian int32 is its first byte: casting the int
   * read at `i` to `byte` gives the sign-extended `buf[i]`.
   */
  lemma LowByteOfInt32(buf: seq<byte>, i: nat)
    requires i + 4 <= |buf|
    ensures ToInt8(LE32(buf, i)) == SignedByte(buf[i])
  {
    var k: int := Unsigned(buf, i + 1, 3);
    assert Unsigned(buf, i, 4) == buf[i] + 256 * k;
    assert Pow256(4) == 256 * 16777216;
    var v := LE32(buf, i);
    assert v == buf[i] + 256 * k || v == buf[i] + 256 * (k - 16777216);
    assert v % 256 == buf[i];
  }
}
