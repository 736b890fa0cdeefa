/** Bytes, fixed-width integer encodings and the append-only output stream. */
module Bytes {

  newtype byte = x: int | 0 <= x < 256
  newtype u16 = x: int | 0 <= x < 0x1_0000
  newtype u32 = x: int | 0 <= x < 0x1_0000_0000

  const TWO_32: nat := 0x1_0000_0000

  datatype Option<T> = None | Some(value: T)

  /** The little-endian bytes of the low 32 bits of `v`, i.e. `(v as u32).to_le_bytes()`. */
  function LE32(v: nat): (r: seq<byte>)
    ensures |r| == 4
  {
    [(v % 256) as byte, (v / 0x100 % 256) as byte,
     (v / 0x1_0000 % 256) as byte, (v / 0x100_0000 % 256) as byte]
  }

  /** The big-endian bytes of the low 32 bits of `v`, i.e. `(v as u32).to_be_bytes()`. */
  function BE32(v: nat): (r: seq<byte>)
    ensures |r| == 4
  {
    [(v / 0x100_0000 % 256) as byte, (v / 0x1_0000 % 256) as byte,
     (v / 0x100 % 256) as byte, (v % 256) as byte]
  }

  /** The little-endian bytes of the low 16 bits of `v`, i.e. `(v as u16).to_le_bytes()`. */
  function LE16(v: nat): (r: seq<byte>)
    ensures |r| == 2
  {
    [(v % 256) as byte, (v / 0x100 % 256) as byte]
  }

  /** `u32::from_le_bytes` */
  function FromLE32(s: seq<byte>): (v: nat)
    requires |s| == 4
    ensures v < TWO_32
  {
    s[0] as nat + 0x100 * s[1] as nat + 0x1_0000 * s[2] as nat + 0x100_0000 * s[3] as nat
  }

  /** `u32::from_be_bytes` */
  function FromBE32(s: seq<byte>): (v: nat)
    requires |s| == 4
    ensures v < TWO_32
  {
    FromLE32([s[3], s[2], s[1], s[0]])
  }

  /** `u16::from_le_bytes` */
  function FromLE16(s: seq<byte>): (v: nat)
    requires |s| == 2
    ensures v < 0x1_0000
  {
    s[0] as nat + 0x100 * s[1] as nat
  }

  /** Splitting a number below 2^32 into base-256 digits and summing them back gives it again. */
  lemma Digits32(v: nat)
    requires v < TWO_32
    ensures v % 256 + 0x100 * (v / 0x100 % 256) + 0x1_0000 * (v / 0x1_0000 % 256)
            + 0x100_0000 * (v / 0x100_0000 % 256) == v
  {
    var q1 := v / 0x100;
    var q2 := q1 / 0x100;
    var q3 := q2 / 0x100;
    assert v == 0x100 * q1 + v % 256;
    assert q1 == 0x100 * q2 + q1 % 256;
    assert q2 == 0x100 * q3 + q2 % 256;
    assert q3 < 256;
    assert v / 0x1_0000 == q2;
    assert v / 0x100_0000 == q3;
  }

  lemma LE32RoundTrip(v: nat)
    requires v < TWO_32
    ensures FromLE32(LE32(v)) == v
  {
    Digits32(v);
  }

  lemma BE32RoundTrip(v: nat)
    requires v < TWO_32
    ensures FromBE32(BE32(v)) == v
  {
    Digits32(v);
  }

  lemma LE16RoundTrip(v: nat)
    requires v < 0x1_0000
    ensures FromLE16(LE16(v)) == v
  {
    assert v == 0x100 * (v / 0x100) + v % 256;
  }

  /** `s` with the bytes from position `at` on replaced by `v`: an in-place patch of a buffer. */
  function Overwrite(s: seq<byte>, at: nat, v: seq<byte>): (r: seq<byte>)
    requires at + |v| <= |s|
    ensures |r| == |s|
  {
    s[..at] + v + s[at + |v|..]
  }

  /** What `Overwrite` leaves at each position. */
  lemma OverwriteAt(s: seq<byte>, at: nat, v: seq<byte>, k: nat)
    requires at + |v| <= |s| && k < |s|
    ensures Overwrite(s, at, v)[k] == if at <= k < at + |v| then v[k - at] else s[k]
  {
  }

  /** The patched range holds the new bytes. */
  lemma OverwriteInside(s: seq<byte>, at: nat, v: seq<byte>)
    requires at + |v| <= |s|
    ensures Overwrite(s, at, v)[at..at + |v|] == v
  {
    assert Overwrite(s, at, v) == s[..at] + v + s[at + |v|..];
  }

  /** A range clear of the patch keeps its bytes. */
  lemma OverwriteOutside(s: seq<byte>, at: nat, v: seq<byte>, i: nat, j: nat)
    requires at + |v| <= |s| && i <= j <= |s|
    requires j <= at || at + |v| <= i
    ensures Overwrite(s, at, v)[i..j] == s[i..j]
  {
    forall k | i <= k < j ensures Overwrite(s, at, v)[k] == s[k] {
      OverwriteAt(s, at, v, k);
    }
  }

  /** A slice of a slice is a slice of the whole. */
  lemma SliceOfSlice<T>(s: seq<T>, p: nat, q: nat, i: nat, j: nat)
    requires p <= q <= |s| && i <= j <= q - p
    ensures s[p..q][i..j] == s[p + i..p + j]
  {
    forall k | 0 <= k < j - i ensures s[p..q][i..j][k] == s[p + i..p + j][k] {
      assert s[p..q][i..j][k] == s[p..q][i + k] == s[p + i + k];
    }
  }

  /** A slice of a part found inside a window of `c` is the matching slice of `c`. */
  lemma Nested<T>(c: seq<T>, p: nat, q: nat, off: nat, d: seq<T>, i: nat, j: nat)
    requires p <= q <= |c| && off + |d| <= q - p && i <= j <= |d|
    requires c[p..q][off..off + |d|] == d
    ensures c[p + off + i..p + off + j] == d[i..j]
  {
    SliceOfSlice(c, p, q, off, off + |d|);
    SliceOfSlice(c, p + off, p + off + |d|, i, j);
  }

  /**
   * When the window `c[p..q]` holds `whole[s..e]` from offset `off`, each part `whole[a..b]`
   * of it appears in `c` shifted by `p + off - s`.
   */
  lemma Carried<T>(c: seq<T>, p: nat, q: nat, off: nat, whole: seq<T>, s: nat, e: nat, a: nat, b: nat)
    requires p <= q <= |c| && s <= a <= b <= e <= |whole| && off + (e - s) <= q - p
    requires c[p..q][off..off + (e - s)] == whole[s..e]
    ensures c[p + off + (a - s)..p + off + (b - s)] == whole[a..b]
  {
    Nested(c, p, q, off, whole[s..e], a - s, b - s);
    SliceOfSlice(whole, s, e, a - s, b - s);
  }

  /** A sequence is the concatenation of its three consecutive slices. */
  lemma Split3<T>(s: seq<T>, a: nat, b: nat)
    requires a <= b <= |s|
    ensures s == s[..a] + s[a..b] + s[b..]
  {
  }

  lemma AppendAssoc<T>(a: seq<T>, b: seq<T>, c: seq<T>)
    ensures a + b + c == a + (b + c)
  {
  }

  /** A slice of the left part of a concatenation. */
  lemma LeftSlice<T>(a: seq<T>, b: seq<T>, i: nat, j: nat)
    requires i <= j <= |a|
    ensures (a + b)[i..j] == a[i..j]
  {
  }

  /** The right part of a concatenation. */
  lemma RightSlice<T>(a: seq<T>, b: seq<T>)
    ensures (a + b)[|a|..|a| + |b|] == b
  {
  }

  /** A sequence is its prefix, a known middle part and its suffix. */
  lemma SplitAround<T>(s: seq<T>, p: nat, q: nat, m: seq<T>)
    requires p <= q <= |s| && s[p..q] == m
    ensures s == s[..p] + m + s[q..]
  {
    Split3(s, p, q);
  }

  /** A slice of the middle part of a concatenation is a slice of that part. */
  lemma MiddleSlice<T>(pre: seq<T>, c: seq<T>, post: seq<T>, i: nat, j: nat)
    requires i <= j <= |c|
    ensures (pre + c + post)[|pre| + i..|pre| + j] == c[i..j]
  {
  }

  /** The output stream the composite file is written to (a `BufWriter` whose writes never fail). */
  class ByteWriter {
    var bytes: seq<byte>

    constructor ()
      ensures bytes == []
    {
      bytes := [];
    }

    /** `write_all`: append `s` to everything written so far. */
    method WriteAll(s: seq<byte>)
      modifies this
      ensures bytes == old(bytes) + s
    {
      bytes := bytes + s;
    }
  }
}
