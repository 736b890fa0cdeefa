/**
 * The PNG side: the signature and end marker, the `tEXt` chunk the embedder wraps every byte
 * range in (section 5.3 of the PNG Specification, Second Edition, for the chunk layout and
 * section 11.3.4.3 for `tEXt`), a decoder's reading of a chunk, and the search for IEND.
 */
module Png {
  import opened Bytes
  import opened Crc

  const PNG_SIGNATURE: seq<byte> := [0x89, 0x50, 0x4E, 0x47, 0x0D, 0x0A, 0x1A, 0x0A]
  /** The complete IEND chunk: zero length, type "IEND", CRC of "IEND" (section 11.2.5 of the PNG Specification). */
  const PNG_END: seq<byte> := [0, 0, 0, 0, 0x49, 0x45, 0x4E, 0x44, 0xAE, 0x42, 0x60, 0x82]
  const IEND: seq<byte> := [0x49, 0x45, 0x4E, 0x44]
  /** "tEXt" */
  const TEXT: seq<byte> := [0x74, 0x45, 0x58, 0x74]
  /** The keyword "Comment" and its NUL separator that start every wrapped payload. */
  const KEYWORD: seq<byte> := [0x43, 0x6F, 0x6D, 0x6D, 0x65, 0x6E, 0x74, 0x00]

  predicate HasPngSignature(img: seq<byte>) {
    |img| >= 8 && img[..8] == PNG_SIGNATURE
  }

  /** End of the first chunk (IHDR): signature, its big-endian length field, type, data and CRC. */
  function HeaderEnd(img: seq<byte>): (r: nat)
    requires |img| >= 12
    ensures r >= 20
  {
    8 + FromBE32(img[8..12]) + 12
  }

  // ----- serialisation -----

  /** The bytes `Chunk::write` emits for a chunk with the given fields. */
  function Serialize(length: u32, chunkType: seq<byte>, data: seq<byte>, crc: bv32): (r: seq<byte>)
    ensures |r| == |chunkType| + |data| + 16
  {
    BE32(length as nat) + chunkType + KEYWORD + data + CrcBytes(crc)
  }

  /** The big-endian bytes of a CRC. */
  function CrcBytes(crc: bv32): (r: seq<byte>)
    ensures |r| == 4
  {
    BE32(crc as nat)
  }

  /** The tEXt chunk the embedder builds around `data`, with the length and CRC it computes. */
  function TextChunk(data: seq<byte>): (r: seq<byte>)
    requires |data| + |KEYWORD| < TWO_32
    ensures |r| == |data| + 20
  {
    Serialize((|data| + |KEYWORD|) as u32, TEXT, data, Crc32(TEXT + KEYWORD + data))
  }

  /** `Chunk`: the fields of one chunk about to be written; `crc` is filled in by `ComputeCrc`. */
  class Chunk {
    var length: u32
    var chunkType: seq<byte>
    var chunkData: seq<byte>
    var crc: bv32

    constructor (length: u32, chunkType: seq<byte>, chunkData: seq<byte>)
      ensures this.length == length && this.chunkType == chunkType && this.chunkData == chunkData
      ensures crc == 0
    {
      this.length := length;
      this.chunkType := chunkType;
      this.chunkData := chunkData;
      crc := 0;
    }

    /** `Chunk::crc`: digests the type, the keyword and the data, in that order; never the length. */
    method ComputeCrc()
      modifies this`crc
      ensures crc == Crc32(chunkType + KEYWORD + chunkData)
    {
      hide Crc32, Step;
      var c := PRESET;
      c := Update(c, chunkType);
      c := Update(c, KEYWORD);
      c := Update(c, chunkData);
      assert c == Update(Update(Update(PRESET, chunkType), KEYWORD), chunkData);
      DigestThree(chunkType, KEYWORD, chunkData);
      crc := Finish(c);
    }

    /**
     * `Chunk::write`: appends length, type, keyword, data and CRC to the writer and returns
     * 12 plus the declared length, which is the number of bytes appended whenever the declared
     * length counts the keyword and the data.
     */
    method Write(w: ByteWriter) returns (n: nat)
      modifies w
      ensures w.bytes == old(w.bytes) + Serialize(length, chunkType, chunkData, crc)
      ensures n == 12 + length as nat
      ensures |chunkType| == 4 && length as nat == |KEYWORD| + |chunkData| ==> n == |w.bytes| - |old(w.bytes)|
    {
      w.WriteAll(BE32(length as nat));
      w.WriteAll(chunkType);
      w.WriteAll(KEYWORD);
      w.WriteAll(chunkData);
      w.WriteAll(BE32(crc as nat));
      n := 4 + 4 + length as nat + 4;
    }
  }

  // ----- a decoder's view -----

  /** What a PNG decoder reads as a chunk at position `p`. */
  datatype ChunkView = ChunkView(length: nat, chunkType: seq<byte>, data: seq<byte>, crc: nat)

  /** Reads the chunk starting at `p`, if its length field, type, data and CRC all lie in `s`. */
  function ReadChunk(s: seq<byte>, p: nat): (r: Option<ChunkView>)
    ensures r.Some? ==> p + 12 + r.value.length <= |s| && |r.value.data| == r.value.length
  {
    if p + 12 > |s| then None
    else
      var n := FromBE32(s[p..p + 4]);
      if p + 12 + n > |s| then None
      else Some(ChunkView(n, s[p + 4..p + 8], s[p + 8..p + 8 + n], FromBE32(s[p + 8 + n..p + 12 + n])))
  }

  /** A chunk whose CRC field matches the CRC of its type and data. */
  predicate ValidChunkAt(s: seq<byte>, p: nat) {
    var r := ReadChunk(s, p);
    r.Some? && r.value.crc == Crc32(r.value.chunkType + r.value.data) as nat
  }

  /** Where a decoder expects the chunk after the one at `p` to start. */
  function NextChunk(s: seq<byte>, p: nat): (q: nat)
    requires ReadChunk(s, p).Some?
    ensures p + 12 <= q <= |s|
  {
    p + 12 + ReadChunk(s, p).value.length
  }

  /** Where the fields of a tEXt chunk sit inside its serialisation. */
  lemma TextChunkFields(data: seq<byte>)
    requires |data| + |KEYWORD| < TWO_32
    ensures var c := TextChunk(data); var n := |data| + 8;
      && c[0..4] == BE32(n) && c[4..8] == TEXT && c[8..8 + n] == KEYWORD + data
      && c[8 + n..12 + n] == BE32(Crc32(TEXT + KEYWORD + data) as nat)
  {
    hide Crc32, BE32;
    var n := |data| + 8;
    assert TextChunk(data) == BE32(n) + TEXT + (KEYWORD + data) + BE32(Crc32(TEXT + KEYWORD + data) as nat);
  }

  /** The chunk carries the wrapped bytes from offset 16, right after length, type and keyword, then the CRC. */
  lemma TextChunkPayload(data: seq<byte>)
    requires |data| + |KEYWORD| < TWO_32
    ensures TextChunk(data)[16..16 + |data|] == data
    ensures TextChunk(data)[16 + |data|..] == BE32(Crc32(TEXT + KEYWORD + data) as nat)
  {
    TextChunkFields(data);
    var c, n := TextChunk(data), |data| + 8;
    assert c[16..16 + |data|] == c[8..8 + n][8..];
  }

  /**
   * Serialising and reading back: wherever a tEXt chunk is written, a decoder reads a valid
   * chunk of type tEXt whose data is the keyword followed by the wrapped bytes, and finds the
   * next chunk right after it.
   */
  lemma TextChunkRead(pre: seq<byte>, data: seq<byte>, post: seq<byte>)
    requires |data| + |KEYWORD| < TWO_32
    ensures var s := pre + TextChunk(data) + post;
      && ReadChunk(s, |pre|) == Some(ChunkView(|data| + 8, TEXT, KEYWORD + data, Crc32(TEXT + KEYWORD + data) as nat))
      && ValidChunkAt(s, |pre|)
      && NextChunk(s, |pre|) == |pre| + |TextChunk(data)|
  {
    hide TextChunk, Crc32, BE32;
    var c := TextChunk(data);
    var s := pre + c + post;
    var n := |data| + 8;
    var crc := Crc32(TEXT + KEYWORD + data);
    TextChunkFields(data);
    MiddleSlice(pre, c, post, 0, 4);
    MiddleSlice(pre, c, post, 4, 8);
    MiddleSlice(pre, c, post, 8, 8 + n);
    MiddleSlice(pre, c, post, 8 + n, 12 + n);
    FieldsRead(s, |pre|, n, TEXT, KEYWORD + data, crc as nat);
    assert TEXT + (KEYWORD + data) == TEXT + KEYWORD + data;
  }

  /** Reading a chunk whose length, type, data and CRC fields hold the given values. */
  lemma FieldsRead(s: seq<byte>, p: nat, n: nat, chunkType: seq<byte>, data: seq<byte>, crc: nat)
    requires n < TWO_32 && crc < TWO_32 && p + 12 + n <= |s|
    requires s[p..p + 4] == BE32(n) && s[p + 4..p + 8] == chunkType
    requires s[p + 8..p + 8 + n] == data && s[p + 8 + n..p + 12 + n] == BE32(crc)
    ensures ReadChunk(s, p) == Some(ChunkView(n, chunkType, data, crc))
  {
    BE32RoundTrip(n);
    BE32RoundTrip(crc);
  }

  /**
   * A chunk read from a window of `s` reads the same from any copy of that window in `t`, and
   * the chunk after it is the same distance further on.
   */
  lemma ReadChunkMoved(s: seq<byte>, t: seq<byte>, p: nat, q: nat, len: nat)
    requires p + len <= |s| && q + len <= |t| && s[p..p + len] == t[q..q + len]
    requires ReadChunk(s, p).Some? && NextChunk(s, p) <= p + len
    ensures ReadChunk(t, q) == ReadChunk(s, p)
    ensures ReadChunk(t, q).Some? && NextChunk(t, q) == NextChunk(s, p) - p + q
  {
    var n := ReadChunk(s, p).value.length;
    WindowSlice(s, t, p, q, len, 0, 4);
    WindowSlice(s, t, p, q, len, 4, 8);
    WindowSlice(s, t, p, q, len, 8, 8 + n);
    WindowSlice(s, t, p, q, len, 8 + n, 12 + n);
  }

  /**
   * A chunk of `s` lying inside the window `s[a..b]` reads the same at the matching offset of a
   * copy of that window placed at `q` in `t`.
   */
  lemma ChunkInWindow(s: seq<byte>, t: seq<byte>, a: nat, b: nat, q: nat, p: nat)
    requires a <= p <= b <= |s| && q + (b - a) <= |t| && t[q..q + (b - a)] == s[a..b]
    requires ReadChunk(s, p).Some? && NextChunk(s, p) <= b
    ensures ReadChunk(t, q + (p - a)) == ReadChunk(s, p)
    ensures NextChunk(t, q + (p - a)) == q + (NextChunk(s, p) - a)
  {
    SliceOfSlice(t, q, q + (b - a), p - a, b - a);
    SliceOfSlice(s, a, b, p - a, b - a);
    ReadChunkMoved(s, t, p, q + (p - a), b - p);
  }

  /** Equal windows have equal slices at equal offsets. */
  lemma WindowSlice(s: seq<byte>, t: seq<byte>, p: nat, q: nat, len: nat, i: nat, j: nat)
    requires p + len <= |s| && q + len <= |t| && s[p..p + len] == t[q..q + len] && i <= j <= len
    ensures s[p + i..p + j] == t[q + i..q + j]
  {
    SliceOfSlice(s, p, p + len, i, j);
    SliceOfSlice(t, q, q + len, i, j);
  }

  // ----- the end marker -----

  lemma StepI()
    ensures Step(0xffffffff, 0x49) == 0x22fde946
  {
    assert 0xffffffff ^ ((0x49 as byte) as bv32) == 0xffffffb6;
    assert Shift(0xffffffb6, 8) == Shift(0x7fffffdb, 7);
    assert Shift(0x7fffffdb, 7) == Shift(0xd2477ccd, 6);
    assert Shift(0xd2477ccd, 6) == Shift(0x849b3d46, 5);
    assert Shift(0x849b3d46, 5) == Shift(0x424d9ea3, 4);
    assert Shift(0x424d9ea3, 4) == Shift(0xcc9e4c71, 3);
    assert Shift(0xcc9e4c71, 3) == Shift(0x8bf7a518, 2);
    assert Shift(0x8bf7a518, 2) == Shift(0x45fbd28c, 1);
    assert Shift(0x45fbd28c, 1) == Shift(0x22fde946, 0);
  }

  lemma StepE()
    ensures Step(0x22fde946, 0x45) == 0x992bac53
  {
    assert 0x22fde946 ^ ((0x45 as byte) as bv32) == 0x22fde903;
    assert Shift(0x22fde903, 8) == Shift(0xfcc677a1, 7);
    assert Shift(0xfcc677a1, 7) == Shift(0x93dbb8f0, 6);
    assert Shift(0x93dbb8f0, 6) == Shift(0x49eddc78, 5);
    assert Shift(0x49eddc78, 5) == Shift(0x24f6ee3c, 4);
    assert Shift(0x24f6ee3c, 4) == Shift(0x127b771e, 3);
    assert Shift(0x127b771e, 3) == Shift(0x093dbb8f, 2);
    assert Shift(0x093dbb8f, 2) == Shift(0xe9265ee7, 1);
    assert Shift(0xe9265ee7, 1) == Shift(0x992bac53, 0);
  }

  lemma StepN()
    ensures Step(0x992bac53, 0x4e) == 0x639f4775
  {
    assert 0x992bac53 ^ ((0x4e as byte) as bv32) == 0x992bac1d;
    assert Shift(0x992bac1d, 8) == Shift(0xa12d552e, 7);
    assert Shift(0xa12d552e, 7) == Shift(0x5096aa97, 6);
    assert Shift(0x5096aa97, 6) == Shift(0xc5f3d66b, 5);
    assert Shift(0xc5f3d66b, 5) == Shift(0x8f416815, 4);
    assert Shift(0x8f416815, 4) == Shift(0xaa18372a, 3);
    assert Shift(0xaa18372a, 3) == Shift(0x550c1b95, 2);
    assert Shift(0x550c1b95, 2) == Shift(0xc73e8eea, 1);
    assert Shift(0xc73e8eea, 1) == Shift(0x639f4775, 0);
  }

  lemma StepD()
    ensures Step(0x639f4775, 0x44) == 0x51bd9f7d
  {
    assert 0x639f4775 ^ ((0x44 as byte) as bv32) == 0x639f4731;
    assert Shift(0x639f4731, 8) == Shift(0xdc7720b8, 7);
    assert Shift(0xdc7720b8, 7) == Shift(0x6e3b905c, 6);
    assert Shift(0x6e3b905c, 6) == Shift(0x371dc82e, 5);
    assert Shift(0x371dc82e, 5) == Shift(0x1b8ee417, 4);
    assert Shift(0x1b8ee417, 4) == Shift(0xe07ff12b, 3);
    assert Shift(0xe07ff12b, 3) == Shift(0x9d877bb5, 2);
    assert Shift(0x9d877bb5, 2) == Shift(0xa37b3efa, 1);
    assert Shift(0xa37b3efa, 1) == Shift(0x51bd9f7d, 0);
  }

  /** The CRC of the chunk type "IEND" is 0xAE426082. */
  lemma IendCrc()
    ensures Crc32(IEND) == 0xAE42_6082
  {
    StepI(); StepE(); StepN(); StepD();
    var s := IEND;
    assert s[1..] == [0x45, 0x4E, 0x44] && s[1..][1..] == [0x4E, 0x44];
    assert s[1..][1..][1..] == [0x44] && s[1..][1..][1..][1..] == [];
    assert Update(PRESET, s) == Update(0x22fde946, s[1..]);
    assert Update(0x22fde946, s[1..]) == Update(0x992bac53, s[1..][1..]);
    assert Update(0x992bac53, s[1..][1..]) == Update(0x639f4775, s[1..][1..][1..]);
    assert Update(0x639f4775, s[1..][1..][1..]) == Update(0x51bd9f7d, []);
  }

  /** The fixed end marker is itself a valid, empty IEND chunk: its last four bytes are the CRC of "IEND". */
  lemma EndMarkerIsValidChunk(pre: seq<byte>)
    ensures ReadChunk(pre + PNG_END, |pre|) == Some(ChunkView(0, IEND, [], 0xAE42_6082))
    ensures ValidChunkAt(pre + PNG_END, |pre|)
    ensures NextChunk(pre + PNG_END, |pre|) == |pre + PNG_END|
  {
    var s := pre + PNG_END;
    var p := |pre|;
    assert s[p..p + 4] == [0, 0, 0, 0];
    assert s[p + 4..p + 8] == IEND;
    assert s[p + 8..p + 8] == [];
    assert s[p + 8..p + 12] == [0xAE, 0x42, 0x60, 0x82];
    assert FromBE32(s[p..p + 4]) == 0;
    assert FromBE32(s[p + 8..p + 12]) == 0xAE42_6082;
    assert ReadChunk(s, p) == Some(ChunkView(0, s[p + 4..p + 8], s[p + 8..p + 8], FromBE32(s[p + 8..p + 12])));
    assert IEND + [] == IEND;
    IendCrc();
  }

  // ----- IEND search -----

  /** The end marker sits at `p`. */
  predicate IendAt(buf: seq<byte>, p: nat) {
    p + 12 <= |buf| && buf[p..p + 12] == PNG_END
  }

  /** The search of `find_iend_loc` from position `p` on. */
  function FirstIendFrom(buf: seq<byte>, p: nat): (r: nat)
    ensures r == 0 || (p <= r && r + 12 <= |buf|)
    decreases |buf| - p
  {
    if p + 12 > |buf| then 0
    else if buf[p..p + 12] == PNG_END then p
    else FirstIendFrom(buf, p + 1)
  }

  /** The position `find_iend_loc` returns; 0 both for a match at 0 and for no match. */
  function FirstIend(buf: seq<byte>): (r: nat)
    ensures r == 0 || r + 12 <= |buf|
  {
    FirstIendFrom(buf, 0)
  }

  lemma {:induction false} FirstIendFromSpec(buf: seq<byte>, p: nat)
    ensures var r := FirstIendFrom(buf, p);
      && ((IendAt(buf, r) && p <= r) || (r == 0 && forall q :: p <= q ==> !IendAt(buf, q)))
      && forall q :: p <= q < r ==> !IendAt(buf, q)
    decreases |buf| - p
  {
    if p + 12 <= |buf| && buf[p..p + 12] != PNG_END {
      FirstIendFromSpec(buf, p + 1);
    }
  }

  /**
   * `FirstIend` is the smallest position of the end marker, or 0 when there is none, so that
   * "not found" and "found at 0" give the same answer.
   */
  lemma FirstIendSpec(buf: seq<byte>)
    ensures IendAt(buf, FirstIend(buf)) || (FirstIend(buf) == 0 && forall q :: !IendAt(buf, q))
    ensures forall q: nat :: q < FirstIend(buf) ==> !IendAt(buf, q)
  {
    FirstIendFromSpec(buf, 0);
  }

  /** `find_iend_loc`: forward linear search for the 12-byte end marker. */
  method FindIendLoc(buf: seq<byte>) returns (pos: nat)
    ensures pos == FirstIend(buf)
    ensures IendAt(buf, pos) || (pos == 0 && forall q :: !IendAt(buf, q))
    ensures forall q: nat :: q < pos ==> !IendAt(buf, q)
  {
    FirstIendSpec(buf);
    pos := 0;
    while pos + 11 < |buf|
      invariant FirstIendFrom(buf, pos) == FirstIend(buf)
      invariant forall q: nat :: q < pos ==> !IendAt(buf, q)
      decreases |buf| - pos
    {
      if PNG_END == buf[pos..pos + 12] {
        return;
      }
      pos := pos + 1;
    }
    pos := 0;
  }
}
