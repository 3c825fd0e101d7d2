/** Bytes, little-endian integers and the file seen as a byte sequence read
    through a cursor. */
module Bytes {

  /** An unsigned 8-bit value. */
  newtype byte = x: int | 0 <= x < 256

  function Min(a: int, b: int): int {
    if a <= b then a else b
  }

  function Pow256(n: nat): (r: nat)
    ensures r >= 1
  {
    if n == 0 then 1 else 256 * Pow256(n - 1)
  }

  /** The unsigned integer whose little-endian encoding is `s`
      (`struct.unpack('<I', ...)` for four bytes, `'<Q'` for eight). */
  function LittleEndian(s: seq<byte>): nat
  {
    if |s| == 0 then 0 else s[0] as nat + 256 * LittleEndian(s[1..])
  }

  /** The `n`-byte little-endian encoding of `v`. */
  function ToLittleEndian(v: nat, n: nat): (r: seq<byte>)
    requires v < Pow256(n)
    ensures |r| == n
  {
    if n == 0 then [] else [(v % 256) as byte] + ToLittleEndian(v / 256, n - 1)
  }

  /** An `n`-byte little-endian value fits in `n` bytes. */
  lemma {:induction false} LittleEndianBound(s: seq<byte>)
    ensures LittleEndian(s) < Pow256(|s|)
  {
    if |s| > 0 {
      LittleEndianBound(s[1..]);
    }
  }

  /** Decoding an encoding gives the value back. */
  lemma {:induction false} DecodeEncode(v: nat, n: nat)
    requires v < Pow256(n)
    ensures LittleEndian(ToLittleEndian(v, n)) == v
  {
    if n > 0 {
      var r := ToLittleEndian(v, n);
      var q := v / 256;
      DivBound(v, Pow256(n - 1));
      assert r[1..] == ToLittleEndian(q, n - 1);
      DecodeEncode(q, n - 1);
      assert r[0] as nat == v % 256;
      assert LittleEndian(r) == v % 256 + 256 * q;
    }
  }

  lemma DivBound(v: nat, p: nat)
    requires v < 256 * p
    ensures v / 256 < p
  {
  }

  /** Encoding a decoded value gives the bytes back. */
  lemma {:induction false} EncodeDecode(s: seq<byte>)
    ensures LittleEndian(s) < Pow256(|s|)
    ensures ToLittleEndian(LittleEndian(s), |s|) == s
  {
    LittleEndianBound(s);
    if |s| > 0 {
      EncodeDecode(s[1..]);
      assert (s[0] as nat + 256 * LittleEndian(s[1..])) % 256 == s[0] as nat;
      assert (s[0] as nat + 256 * LittleEndian(s[1..])) / 256 == LittleEndian(s[1..]);
    }
  }

  /** `file.read(n)` with the cursor at `pos`: at most `n` bytes, fewer only at
      the end of the file, none once the cursor is at or past the end. */
  function ReadBytes(data: seq<byte>, pos: nat, n: nat): (r: seq<byte>)
    ensures |r| <= n
    ensures pos + n <= |data| ==> r == data[pos..pos + n]
    ensures |r| == n <==> n == 0 || pos + n <= |data|
    ensures pos >= |data| ==> r == []
    ensures pos < |data| ==> r == data[pos..Min(pos + n, |data|)]
  {
    if pos >= |data| then [] else data[pos..Min(pos + n, |data|)]
  }

  /** A slice that holds two parts holds each of them. */
  lemma SplitSlice<T>(s: seq<T>, lo: nat, a: seq<T>, b: seq<T>)
    requires lo + |a| + |b| <= |s| && s[lo..lo + |a| + |b|] == a + b
    ensures s[lo..lo + |a|] == a
    ensures s[lo + |a|..lo + |a| + |b|] == b
  {
    SliceOfSlice(s, lo, lo + |a| + |b|, 0, |a|);
    SliceOfSlice(s, lo, lo + |a| + |b|, |a|, |a| + |b|);
    assert (a + b)[..|a|] == a;
    assert (a + b)[|a|..] == b;
  }

  /** A slice of a slice is a slice. */
  lemma SliceOfSlice<T>(s: seq<T>, lo: nat, hi: nat, i: nat, j: nat)
    requires lo <= hi <= |s| && i <= j <= hi - lo
    ensures s[lo..hi][i..j] == s[lo + i..lo + j]
  {
    var a := s[lo..hi][i..j];
    var b := s[lo + i..lo + j];
    assert |a| == |b|;
    forall k | 0 <= k < |a|
      ensures a[k] == b[k]
    {
      assert a[k] == s[lo..hi][i + k] == s[lo + i + k];
    }
  }
}
