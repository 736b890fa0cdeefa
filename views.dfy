/**
 * What a PNG decoder and a ZIP reader find in the composite `create_archive` writes: the
 * image's own chunks around one tEXt chunk per entry, and the archive's entries, central
 * directory and EOCD at the positions its patched offsets name.
 */
module Views {
  import opened Bytes
  import opened Crc
  import opened Png
  import opened Zip
  import opened Polyglot

  /** Where the end marker starts in the composite. */
  function EndPos(img: seq<byte>, file: seq<byte>, es: seq<Entry>): (r: nat)
    requires Admissible(img, file, es)
    ensures r == CdChunkPos(img, es) + WRAP + |CdData(img, file, es)|
  {
    CdChunkPos(img, es) + |TextChunk(CdData(img, file, es))|
  }

  /** Where byte `k` of the archive lands in the composite, for `k` in the part the last chunk wraps. */
  function CdPlace(img: seq<byte>, file: seq<byte>, es: seq<Entry>, k: nat): nat
    requires Admissible(img, file, es) && StartOfCd(es, LastEocd(file)) <= k
  {
    CdChunkPos(img, es) + PAYLOAD + (k - StartOfCd(es, LastEocd(file)))
  }

  /** Distinct central-directory records do not overlap, as in any well-formed archive. */
  predicate RecordsApart(es: seq<Entry>) {
    forall i, j :: 0 <= i < |es| && 0 <= j < |es| && i != j ==>
      es[i].centralHeaderStart + CENTRAL_RECORD_SIZE <= es[j].centralHeaderStart
      || es[j].centralHeaderStart + CENTRAL_RECORD_SIZE <= es[i].centralHeaderStart
  }

  // ----- layout -----

  /**
   * The composite is, in order: the signature and IHDR of the image, the entry chunks, the rest
   * of the image up to IEND, the chunk wrapping the central directory and the EOCD, and IEND.
   */
  lemma Layout(img: seq<byte>, file: seq<byte>, es: seq<Entry>)
    requires Admissible(img, file, es)
    ensures var c := Composite(img, file, es); var he := HeaderEnd(img); var n := |es|;
      && |c| == EndPos(img, file, es) + |PNG_END| == ComposedSize(img, file, es)
      && he == EntryPos(img, es, 0) <= EntryPos(img, es, n) <= CdChunkPos(img, es) <= EndPos(img, file, es)
      && c[..he] == img[..he]
      && c[he..EntryPos(img, es, n)] == EntryChunks(file, es, n)
      && c[EntryPos(img, es, n)..CdChunkPos(img, es)] == img[he..FirstIend(img)]
      && c[CdChunkPos(img, es)..EndPos(img, file, es)] == TextChunk(CdData(img, file, es))
      && c[EndPos(img, file, es)..] == PNG_END
  {
    hide TextChunk, EntryChunks, CdData, PatchedArchive;
    var he, iend := HeaderEnd(img), FirstIend(img);
    var head, chunks, rest := img[..he], EntryChunks(file, es, |es|), img[he..iend];
    var last := TextChunk(CdData(img, file, es));
    var body := head + chunks + rest;
    var c := Composite(img, file, es);
    assert c == body + last + PNG_END;
    assert c[..|body|] == body;
    MiddleSlice(body, last, PNG_END, 0, |last|);
    assert c[|body| + |last|..] == PNG_END;
    assert body[..he] == head;
    MiddleSlice(head, chunks, rest, 0, |chunks|);
    assert body[he + |chunks|..] == rest;
  }

  // ----- the PNG view -----

  /** The chunk of entry `i` sits among the entry chunks after those of the entries before it. */
  lemma {:induction false} EntryChunkSlice(file: seq<byte>, es: seq<Entry>, i: nat, n: nat)
    requires RangesIn(file, es) && i < n <= |es|
    ensures EntriesSize(es, i) <= EntriesSize(es, i + 1) <= EntriesSize(es, n)
    ensures EntryChunks(file, es, n)[EntriesSize(es, i)..EntriesSize(es, i + 1)]
            == TextChunk(file[es[i].Start()..es[i].End()])
    decreases n
  {
    hide TextChunk;
    var prev := EntryChunks(file, es, n - 1);
    var last := TextChunk(file[es[n - 1].Start()..es[n - 1].End()]);
    assert EntryChunks(file, es, n) == prev + last;
    if n == i + 1 {
      RightSlice(prev, last);
    } else {
      EntryChunkSlice(file, es, i, n - 1);
      EntriesSizeMono(es, n - 1, n);
      LeftSlice(prev, last, EntriesSize(es, i), EntriesSize(es, i + 1));
    }
  }

  /** The entry chunks occupy the composite from `EntryPos(0)` to `EntryPos(|es|)`. */
  lemma EntriesPlaced(img: seq<byte>, file: seq<byte>, es: seq<Entry>)
    requires Admissible(img, file, es)
    ensures EntryPos(img, es, |es|) <= |Composite(img, file, es)|
    ensures Composite(img, file, es)[HeaderEnd(img)..EntryPos(img, es, |es|)] == EntryChunks(file, es, |es|)
  {
    hide TextChunk, Composite, EntryChunks, CdData, PatchedArchive;
    Layout(img, file, es);
  }

  /** The chunk wrapping entry `i` occupies the composite from `EntryPos(i)` to `EntryPos(i + 1)`. */
  lemma EntryChunkPlaced(img: seq<byte>, file: seq<byte>, es: seq<Entry>, i: nat)
    requires Admissible(img, file, es) && i < |es|
    ensures EntryPos(img, es, i + 1) <= |Composite(img, file, es)|
    ensures Composite(img, file, es)[EntryPos(img, es, i)..EntryPos(img, es, i + 1)]
            == TextChunk(file[es[i].Start()..es[i].End()])
  {
    hide TextChunk, Composite, EntryChunks, CdData, PatchedArchive;
    var c := Composite(img, file, es);
    EntriesPlaced(img, file, es);
    EntryChunkSlice(file, es, i, |es|);
    SliceOfSlice(c, HeaderEnd(img), EntryPos(img, es, |es|), EntriesSize(es, i), EntriesSize(es, i + 1));
  }

  /**
   * A decoder reads a valid tEXt chunk at `EntryPos(i)` whose data is the keyword and entry
   * `i`'s local header and compressed data, and finds the next chunk at `EntryPos(i + 1)`.
   */
  lemma EntryChunkValid(img: seq<byte>, file: seq<byte>, es: seq<Entry>, i: nat)
    requires Admissible(img, file, es) && i < |es|
    ensures var c := Composite(img, file, es); var p := EntryPos(img, es, i);
      var data := file[es[i].Start()..es[i].End()];
      && ReadChunk(c, p) == Some(ChunkView(|data| + |KEYWORD|, TEXT, KEYWORD + data, Crc32(TEXT + KEYWORD + data) as nat))
      && ValidChunkAt(c, p)
      && NextChunk(c, p) == EntryPos(img, es, i + 1)
  {
    hide TextChunk, Composite, EntryChunks, CdData, PatchedArchive;
    var c := Composite(img, file, es);
    var p, q := EntryPos(img, es, i), EntryPos(img, es, i + 1);
    var data := file[es[i].Start()..es[i].End()];
    EntryChunkPlaced(img, file, es, i);
    SplitAround(c, p, q, TextChunk(data));
    TextChunkRead(c[..p], data, c[q..]);
  }

  /**
   * A decoder reads a valid tEXt chunk at `CdChunkPos` whose data is the keyword and the
   * patched central directory and EOCD, and finds the next chunk at `EndPos`.
   */
  lemma CdChunkValid(img: seq<byte>, file: seq<byte>, es: seq<Entry>)
    requires Admissible(img, file, es)
    ensures var c := Composite(img, file, es); var p := CdChunkPos(img, es); var d := CdData(img, file, es);
      && ReadChunk(c, p) == Some(ChunkView(|d| + |KEYWORD|, TEXT, KEYWORD + d, Crc32(TEXT + KEYWORD + d) as nat))
      && ValidChunkAt(c, p)
      && NextChunk(c, p) == EndPos(img, file, es)
  {
    hide TextChunk, Composite, EntryChunks, CdData, PatchedArchive;
    var c := Composite(img, file, es);
    var p, q := CdChunkPos(img, es), EndPos(img, file, es);
    CdChunkPlaced(img, file, es);
    SplitAround(c, p, q, TextChunk(CdData(img, file, es)));
    TextChunkRead(c[..p], CdData(img, file, es), c[q..]);
  }

  /** A decoder reads a valid, empty IEND chunk at `EndPos`, and it ends the file. */
  lemma EndChunkValid(img: seq<byte>, file: seq<byte>, es: seq<Entry>)
    requires Admissible(img, file, es)
    ensures var c := Composite(img, file, es); var p := EndPos(img, file, es);
      && ReadChunk(c, p) == Some(ChunkView(0, IEND, [], 0xAE42_6082))
      && ValidChunkAt(c, p)
      && NextChunk(c, p) == |c|
  {
    hide TextChunk, Composite, EntryChunks, CdData, PatchedArchive;
    var c := Composite(img, file, es);
    var p := EndPos(img, file, es);
    Layout(img, file, es);
    assert c == c[..p] + PNG_END;
    EndMarkerIsValidChunk(c[..p]);
  }

  /**
   * The composite starts as the image does: the signature, then IHDR read as in the image, and
   * the first entry chunk (or, without entries, the image's next chunk) right after IHDR.
   */
  lemma IhdrChained(img: seq<byte>, file: seq<byte>, es: seq<Entry>)
    requires Admissible(img, file, es) && HasPngSignature(img)
    ensures var c := Composite(img, file, es);
      && |c| >= 8 && c[..8] == PNG_SIGNATURE
      && ReadChunk(img, 8).Some? && ReadChunk(c, 8) == ReadChunk(img, 8)
      && NextChunk(c, 8) == EntryPos(img, es, 0)
  {
    hide TextChunk, Composite, EntryChunks, CdData, PatchedArchive;
    var c := Composite(img, file, es);
    var he := HeaderEnd(img);
    Layout(img, file, es);
    assert he + 12 <= |img|;
    SliceOfSlice(c, 0, he, 0, 8);
    SliceOfSlice(img, 0, he, 0, 8);
    SliceOfSlice(c, 0, he, 8, he);
    SliceOfSlice(img, 0, he, 8, he);
    assert img[8..12] == img[8..he][0..4];
    assert NextChunk(img, 8) == he;
    ReadChunkMoved(img, c, 8, 8, he - 8);
  }

  /**
   * Every chunk of the image between IHDR and IEND reads the same in the composite at `q`, the
   * same offset past the entry chunks, is valid there exactly when it is valid in the image,
   * and is followed by the image's next chunk, moved the same way; the chunk that ends where
   * IEND began is followed by the last chunk, at `CdChunkPos`. With `p = HeaderEnd`, `q` is
   * where the last entry chunk is followed (`EntryChunkValid`).
   */
  lemma ImageChunkShifted(img: seq<byte>, file: seq<byte>, es: seq<Entry>, p: nat, q: nat)
    requires Admissible(img, file, es) && HeaderEnd(img) <= p
    requires ReadChunk(img, p).Some? && NextChunk(img, p) <= FirstIend(img)
    requires q == EntryPos(img, es, |es|) + (p - HeaderEnd(img))
    ensures var c := Composite(img, file, es);
      && ReadChunk(c, q) == ReadChunk(img, p)
      && ValidChunkAt(c, q) == ValidChunkAt(img, p)
      && NextChunk(c, q) == q + (NextChunk(img, p) - p)
      && (NextChunk(img, p) == FirstIend(img) ==> NextChunk(c, q) == CdChunkPos(img, es))
  {
    hide TextChunk, Composite, EntryChunks, CdData, PatchedArchive, ReadChunk, NextChunk;
    Layout(img, file, es);
    ChunkInWindow(img, Composite(img, file, es), HeaderEnd(img), FirstIend(img), EntryPos(img, es, |es|), p);
  }

  // ----- the ZIP view -----

  /** Entry `i`'s local header and compressed data appear unchanged right after its chunk's keyword. */
  lemma EntryDataPlaced(img: seq<byte>, file: seq<byte>, es: seq<Entry>, i: nat)
    requires Admissible(img, file, es) && i < |es|
    ensures var c := Composite(img, file, es); var q := EntryPos(img, es, i) + PAYLOAD;
      var size := es[i].End() - es[i].Start();
      q + size <= |c| && c[q..q + size] == file[es[i].Start()..es[i].End()]
  {
    hide TextChunk, Composite, EntryChunks, CdData, PatchedArchive;
    var c := Composite(img, file, es);
    var p := EntryPos(img, es, i);
    var data := file[es[i].Start()..es[i].End()];
    EntryChunkPlaced(img, file, es, i);
    TextChunkPayload(data);
    SliceOfSlice(c, p, EntryPos(img, es, i + 1), PAYLOAD, PAYLOAD + |data|);
  }

  /** The chunk wrapping the central directory and the EOCD occupies the composite from `CdChunkPos` to `EndPos`. */
  lemma CdChunkPlaced(img: seq<byte>, file: seq<byte>, es: seq<Entry>)
    requires Admissible(img, file, es)
    ensures EndPos(img, file, es) <= |Composite(img, file, es)|
    ensures Composite(img, file, es)[CdChunkPos(img, es)..EndPos(img, file, es)] == TextChunk(CdData(img, file, es))
  {
    hide TextChunk, Composite, EntryChunks, CdData, PatchedArchive;
    Layout(img, file, es);
  }

  /** The last chunk carries the wrapped part of the patched archive byte for byte, from `CdPlace`. */
  lemma CdPlaced(img: seq<byte>, file: seq<byte>, es: seq<Entry>, a: nat, b: nat)
    requires Admissible(img, file, es)
    requires StartOfCd(es, LastEocd(file)) <= a <= b <= LastEocd(file) + EOCD_SIZE
    ensures CdPlace(img, file, es, b) <= |Composite(img, file, es)|
    ensures Composite(img, file, es)[CdPlace(img, file, es, a)..CdPlace(img, file, es, b)]
            == PatchedArchive(img, file, es)[a..b]
  {
    hide TextChunk, Composite, EntryChunks, PatchedArchive, Crc32, CrcBytes, BE32, FirstIendFrom, EocdScan, MinCentral;
    var c := Composite(img, file, es);
    var p, q := CdChunkPos(img, es), EndPos(img, file, es);
    var s := StartOfCd(es, LastEocd(file));
    var d := CdData(img, file, es);
    CdChunkPlaced(img, file, es);
    TextChunkPayload(d);
    Carried(c, p, q, PAYLOAD, PatchedArchive(img, file, es), s, LastEocd(file) + EOCD_SIZE, a, b);
  }

  /**
   * Once the loop is done, each entry's local-header-offset field holds the position of its
   * first wrapped byte, provided the records are apart, so no later patch overwrites it.
   */
  lemma {:induction false} PatchEntriesField(file: seq<byte>, es: seq<Entry>, n: nat, base: nat, j: nat)
    requires RangesOrdered(es) && FieldsIn(file, es) && RecordsApart(es) && j < n <= |es|
    ensures PatchEntries(file, es, n, base)[es[j].OffsetField()..es[j].OffsetField() + 4]
            == LE32(base + EntriesSize(es, j) + PAYLOAD)
    decreases n
  {
    hide TextChunk, Composite, EntryChunks, CdData, Overwrite, LE32;
    var prev := PatchEntries(file, es, n - 1, base);
    var v := LE32(base + EntriesSize(es, n - 1) + PAYLOAD);
    assert PatchEntries(file, es, n, base) == Overwrite(prev, es[n - 1].OffsetField(), v);
    if n == j + 1 {
      OverwriteInside(prev, es[j].OffsetField(), v);
    } else {
      assert es[n - 1].OffsetField() + 4 <= es[j].OffsetField() || es[j].OffsetField() + 4 <= es[n - 1].OffsetField();
      PatchEntriesField(file, es, n - 1, base, j);
      OverwriteOutside(prev, es[n - 1].OffsetField(), v, es[j].OffsetField(), es[j].OffsetField() + 4);
    }
  }

  /**
   * In the patched archive, each entry's local-header-offset field names where that entry's
   * chunk puts its local header, and the field lies before the EOCD.
   */
  lemma ArchivePatched(img: seq<byte>, file: seq<byte>, es: seq<Entry>, j: nat)
    requires Admissible(img, file, es) && RecordsApart(es) && j < |es|
    ensures var a := PatchedArchive(img, file, es); var f := es[j].OffsetField();
      f + 4 <= LastEocd(file) && a[f..f + 4] == LE32(EntryPos(img, es, j) + PAYLOAD)
  {
    hide TextChunk, Composite, EntryChunks, CdData, Overwrite, LE32, LE16;
    var e := LastEocd(file);
    var f := es[j].OffsetField();
    var t := PatchEntries(file, es, |es|, HeaderEnd(img));
    var cd := LE32(CdChunkPos(img, es) + PAYLOAD);
    PatchEntriesField(file, es, |es|, HeaderEnd(img), j);
    OverwriteOutside(t, e + CENTRAL_DIRECTORY_OFFSET_OFFSET, cd, f, f + 4);
    OverwriteOutside(Overwrite(t, e + CENTRAL_DIRECTORY_OFFSET_OFFSET, cd), e + COMMENT_LENGTH_OFFSET, LE16(|PNG_END|), f, f + 4);
  }

  /** The EOCD patch writes the two fields and leaves the rest of the record as the archive had it. */
  lemma EocdPatched(img: seq<byte>, file: seq<byte>, es: seq<Entry>)
    requires Admissible(img, file, es)
    ensures var a := PatchedArchive(img, file, es); var e := LastEocd(file);
      && a[e..e + CENTRAL_DIRECTORY_OFFSET_OFFSET] == file[e..e + CENTRAL_DIRECTORY_OFFSET_OFFSET]
      && a[e + CENTRAL_DIRECTORY_OFFSET_OFFSET..e + COMMENT_LENGTH_OFFSET] == LE32(CdChunkPos(img, es) + PAYLOAD)
      && a[e + COMMENT_LENGTH_OFFSET..e + EOCD_SIZE] == LE16(|PNG_END|)
  {
    hide TextChunk, Composite, EntryChunks, CdData, Overwrite, LE32, LE16, PatchEocd;
    var e := LastEocd(file);
    var t := PatchEntries(file, es, |es|, HeaderEnd(img));
    var a := PatchedArchive(img, file, es);
    PatchEocdSpec(t, e, CdChunkPos(img, es) + PAYLOAD);
    forall k | e <= k < e + CENTRAL_DIRECTORY_OFFSET_OFFSET ensures a[k] == file[k] {
      PatchEntriesFrame(file, es, |es|, HeaderEnd(img), k);
    }
  }

  /** Every byte that is neither an offset field nor one of the two EOCD fields keeps its value. */
  lemma ArchiveFrame(img: seq<byte>, file: seq<byte>, es: seq<Entry>, k: nat)
    requires Admissible(img, file, es) && k < |file| && OutsideOffsetFields(es, |es|, k)
    requires k < LastEocd(file) + CENTRAL_DIRECTORY_OFFSET_OFFSET || LastEocd(file) + EOCD_SIZE <= k
    ensures PatchedArchive(img, file, es)[k] == file[k]
  {
    hide TextChunk, Composite, EntryChunks, CdData, Overwrite, LE32, LE16, PatchEocd;
    var e := LastEocd(file);
    var t := PatchEntries(file, es, |es|, HeaderEnd(img));
    PatchEocdSpec(t, e, CdChunkPos(img, es) + PAYLOAD);
    PatchEntriesFrame(file, es, |es|, HeaderEnd(img), k);
  }

  /**
   * A ZIP reader that follows the local-header offset in entry `j`'s central-directory record,
   * as it appears in the composite, finds that entry's local header and compressed data.
   */
  lemma LocalHeaderFound(img: seq<byte>, file: seq<byte>, es: seq<Entry>, j: nat)
    requires Admissible(img, file, es) && RecordsApart(es) && j < |es|
    ensures StartOfCd(es, LastEocd(file)) <= es[j].OffsetField()
    ensures var c := Composite(img, file, es); var f := CdPlace(img, file, es, es[j].OffsetField());
      var h := EntryPos(img, es, j) + PAYLOAD; var size := es[j].End() - es[j].Start();
      && f + 4 <= |c| && FromLE32(c[f..f + 4]) == h
      && h + size <= |c| && c[h..h + size] == file[es[j].Start()..es[j].End()]
  {
    hide TextChunk, Composite, EntryChunks, CdData, PatchedArchive, PatchEntries, PatchEocd, Overwrite, LE32, FromLE32;
    var e := LastEocd(file);
    var f := es[j].OffsetField();
    MinCentralSpec(es, |es|, e);
    ArchivePatched(img, file, es, j);
    CdPlaced(img, file, es, f, f + 4);
    assert CdPlace(img, file, es, f + 4) == CdPlace(img, file, es, f) + 4;
    CastsFit(file, es, HeaderEnd(img), j);
    LE32RoundTrip(EntryPos(img, es, j) + PAYLOAD);
    EntryDataPlaced(img, file, es, j);
  }

  /** The last chunk ends with its CRC, and IEND follows it to the end of the composite. */
  lemma CdChunkEnd(img: seq<byte>, file: seq<byte>, es: seq<Entry>)
    requires Admissible(img, file, es)
    ensures var c := Composite(img, file, es); var r := EndPos(img, file, es);
      && |c| == r + |PNG_END|
      && c[r - 4..r] == BE32(Crc32(TEXT + KEYWORD + CdData(img, file, es)) as nat)
      && c[r..] == PNG_END
  {
    hide TextChunk, Composite, EntryChunks, CdData, PatchedArchive;
    var c := Composite(img, file, es);
    var p, r := CdChunkPos(img, es), EndPos(img, file, es);
    var d := CdData(img, file, es);
    Layout(img, file, es);
    TextChunkPayload(d);
    SliceOfSlice(c, p, r, PAYLOAD + |d|, PAYLOAD + |d| + 4);
  }

  /**
   * The EOCD in the composite sits in the last chunk: its first 16 bytes are the archive's,
   * its central-directory offset names where the last chunk puts the central directory, and
   * its comment length is 12.
   */
  lemma EocdFound(img: seq<byte>, file: seq<byte>, es: seq<Entry>)
    requires Admissible(img, file, es)
    ensures var c := Composite(img, file, es); var e := LastEocd(file); var q := CdPlace(img, file, es, e);
      && q + EOCD_SIZE <= |c|
      && c[q..q + CENTRAL_DIRECTORY_OFFSET_OFFSET] == file[e..e + CENTRAL_DIRECTORY_OFFSET_OFFSET]
      && FromLE32(c[q + CENTRAL_DIRECTORY_OFFSET_OFFSET..q + COMMENT_LENGTH_OFFSET])
         == CdPlace(img, file, es, StartOfCd(es, e))
      && FromLE16(c[q + COMMENT_LENGTH_OFFSET..q + EOCD_SIZE]) == |PNG_END|
  {
    hide TextChunk, Composite, EntryChunks, CdData, PatchedArchive;
    var e := LastEocd(file);
    var q := CdPlace(img, file, es, e);
    EocdPatched(img, file, es);
    CdPlaced(img, file, es, e, e + CENTRAL_DIRECTORY_OFFSET_OFFSET);
    CdPlaced(img, file, es, e + CENTRAL_DIRECTORY_OFFSET_OFFSET, e + COMMENT_LENGTH_OFFSET);
    CdPlaced(img, file, es, e + COMMENT_LENGTH_OFFSET, e + EOCD_SIZE);
    LE32RoundTrip(CdChunkPos(img, es) + PAYLOAD);
    LE16RoundTrip(|PNG_END|);
    assert CdPlace(img, file, es, e + CENTRAL_DIRECTORY_OFFSET_OFFSET) == q + CENTRAL_DIRECTORY_OFFSET_OFFSET;
    assert CdPlace(img, file, es, e + COMMENT_LENGTH_OFFSET) == q + COMMENT_LENGTH_OFFSET;
    assert CdPlace(img, file, es, e + EOCD_SIZE) == q + EOCD_SIZE;
    assert CdPlace(img, file, es, StartOfCd(es, e)) == CdChunkPos(img, es) + PAYLOAD;
  }

  /**
   * What follows the EOCD in the composite: the last chunk's CRC and IEND, 16 bytes that a
   * reader of the archive takes as its comment.
   */
  lemma EocdFollowed(img: seq<byte>, file: seq<byte>, es: seq<Entry>)
    requires Admissible(img, file, es)
    ensures var c := Composite(img, file, es); var q := CdPlace(img, file, es, LastEocd(file));
      && q + EOCD_SIZE + 4 + |PNG_END| == |c|
      && c[q + EOCD_SIZE..q + EOCD_SIZE + 4] == BE32(Crc32(TEXT + KEYWORD + CdData(img, file, es)) as nat)
      && c[q + EOCD_SIZE + 4..] == PNG_END
  {
    hide TextChunk, Composite, EntryChunks, CdData, PatchedArchive, Crc32, CrcBytes, BE32, FirstIendFrom, EocdScan, MinCentral;
    var e := LastEocd(file);
    CdChunkEnd(img, file, es);
    assert CdPlace(img, file, es, e) + EOCD_SIZE == EndPos(img, file, es) - 4;
  }

  /** Every other byte of the central directory and EOCD reaches the composite unchanged. */
  lemma CdByteKept(img: seq<byte>, file: seq<byte>, es: seq<Entry>, k: nat)
    requires Admissible(img, file, es)
    requires StartOfCd(es, LastEocd(file)) <= k < LastEocd(file) + CENTRAL_DIRECTORY_OFFSET_OFFSET
    requires OutsideOffsetFields(es, |es|, k)
    ensures CdPlace(img, file, es, k) < |Composite(img, file, es)|
    ensures Composite(img, file, es)[CdPlace(img, file, es, k)] == file[k]
  {
    hide TextChunk, Composite, EntryChunks, CdData, PatchedArchive;
    var x := CdPlace(img, file, es, k);
    CdPlaced(img, file, es, k, k + 1);
    assert CdPlace(img, file, es, k + 1) == x + 1;
    var c, a := Composite(img, file, es), PatchedArchive(img, file, es);
    assert c[x] == c[x..x + 1][0] == a[k..k + 1][0] == a[k];
    ArchiveFrame(img, file, es, k);
  }

  // ----- an archive without entries -----

  /** The archive `zip_files` makes from no files at all: an EOCD on its own. */
  const EMPTY_ZIP: seq<byte> := EOCD_SIGNATURE + seq(18, _ => 0)

  /**
   * As written, `start_of_cd` stays at the archive's length when there are no entries, past the
   * EOCD: without an archive comment the last chunk wraps nothing, and with one the slice is
   * inverted and the source panics. Either way the EOCD never reaches the composite.
   */
  lemma EmptyArchiveAsWritten(img: seq<byte>, file: seq<byte>)
    requires Admissible(img, file, [])
    ensures StartOfCdAsWritten(file, []) == |file| >= LastEocd(file) + EOCD_SIZE
    ensures CdDataAsWritten(img, file, []) == if |file| == LastEocd(file) + EOCD_SIZE then Some([]) else None
  {
    MinCentralSpec([], 0, |file|);
  }

  /** `EMPTY_ZIP` has no comment after its EOCD, so it is the case where the last chunk is empty. */
  lemma EmptyZipEocd()
    ensures LastEocd(EMPTY_ZIP) == 0 && |EMPTY_ZIP| == LastEocd(EMPTY_ZIP) + EOCD_SIZE
  {
    var s := EMPTY_ZIP;
    LastEocdSpec(s);
    assert |s| == EOCD_SIZE;
    forall q | 0 < q <= |s| - 4 ensures !EocdAt(s, q) {
      assert s[q..q + 4][3] == s[q + 3] == seq(18, _ => 0)[q - 1] == 0;
    }
  }

  /** With entries the clamp changes nothing: the last chunk wraps what the source wraps. */
  lemma ClampInert(img: seq<byte>, file: seq<byte>, es: seq<Entry>)
    requires Admissible(img, file, es) && |es| > 0
    ensures StartOfCd(es, LastEocd(file)) == StartOfCdAsWritten(file, es)
    ensures CdDataAsWritten(img, file, es) == Some(CdData(img, file, es))
  {
    MinCentralSpec(es, |es|, |file|);
    MinCentralClamp(es, |es|, |file|, LastEocd(file));
  }

  /** With the clamp, an archive without entries has its whole EOCD wrapped by the last chunk. */
  lemma EmptyArchiveCorrected(img: seq<byte>, file: seq<byte>)
    requires Admissible(img, file, [])
    ensures CdData(img, file, []) == PatchedArchive(img, file, [])[LastEocd(file)..LastEocd(file) + EOCD_SIZE]
  {
    MinCentralSpec([], 0, LastEocd(file));
  }
}
