/**
 * `create_archive`: hides a ZIP archive inside a PNG image. Every entry's local header and
 * compressed data go into a tEXt chunk of their own, right after IHDR; the central directory
 * and the EOCD go into one last tEXt chunk just before IEND; and the offsets the ZIP format
 * stores (each record's local-header offset, the EOCD's central-directory offset and comment
 * length) are patched so that they name positions in the composite file.
 */
module Polyglot {
  import opened Bytes
  import opened Crc
  import opened Png
  import opened Zip

  /** Bytes a tEXt chunk adds around what it wraps: length, type, keyword and CRC. */
  const WRAP: nat := 20
  /** Distance from the start of a tEXt chunk to its first wrapped byte: length, type and keyword. */
  const PAYLOAD: nat := 16

  // ----- layout of the entry chunks -----

  predicate RangesOrdered(es: seq<Entry>) {
    forall j :: 0 <= j < |es| ==> es[j].Start() <= es[j].End()
  }

  /** Every entry's byte range lies in the archive and fits a tEXt chunk's 32-bit length. */
  predicate RangesIn(file: seq<byte>, es: seq<Entry>) {
    forall j :: 0 <= j < |es| ==>
      es[j].Start() <= es[j].End() <= |file| && es[j].End() - es[j].Start() + |KEYWORD| < TWO_32
  }

  /** Every entry's local-header-offset field lies in the archive. */
  predicate FieldsIn(file: seq<byte>, es: seq<Entry>) {
    forall j :: 0 <= j < |es| ==> es[j].OffsetField() + 4 <= |file|
  }

  /** No wrapped byte range overlaps any record's local-header-offset field. */
  predicate Disjoint(es: seq<Entry>) {
    forall i, j :: 0 <= i < |es| && 0 <= j < |es| ==>
      es[i].End() <= es[j].OffsetField() || es[j].OffsetField() + 4 <= es[i].Start()
  }

  /** Total size of the chunks that wrap the first `n` entries. */
  function EntriesSize(es: seq<Entry>, n: nat): nat
    requires RangesOrdered(es) && n <= |es|
    decreases n
  {
    if n == 0 then 0
    else EntriesSize(es, n - 1) + WRAP + (es[n - 1].End() - es[n - 1].Start())
  }

  /** The chunks that wrap the first `n` entries, in entry order. */
  function EntryChunks(file: seq<byte>, es: seq<Entry>, n: nat): (r: seq<byte>)
    requires RangesIn(file, es) && n <= |es|
    ensures |r| == EntriesSize(es, n)
    decreases n
  {
    if n == 0 then []
    else EntryChunks(file, es, n - 1) + TextChunk(file[es[n - 1].Start()..es[n - 1].End()])
  }

  /**
   * The archive after `n` rounds of the loop: each of the first `n` entries' local-header-offset
   * fields holds the position, in the composite, of the first wrapped byte of that entry's
   * chunk (`base` is where the first entry chunk starts).
   */
  function PatchEntries(file: seq<byte>, es: seq<Entry>, n: nat, base: nat): (r: seq<byte>)
    requires RangesOrdered(es) && FieldsIn(file, es) && n <= |es|
    ensures |r| == |file|
    decreases n
  {
    if n == 0 then file
    else Overwrite(PatchEntries(file, es, n - 1, base), es[n - 1].OffsetField(), LE32(base + EntriesSize(es, n - 1) + PAYLOAD))
  }

  /** The EOCD at `e` with its central-directory offset set to `cdOffset` and its comment length to 12. */
  function PatchEocd(buf: seq<byte>, e: nat, cdOffset: nat): (r: seq<byte>)
    requires e + EOCD_SIZE <= |buf|
    ensures |r| == |buf|
  {
    Overwrite(Overwrite(buf, e + CENTRAL_DIRECTORY_OFFSET_OFFSET, LE32(cdOffset)),
              e + COMMENT_LENGTH_OFFSET, LE16(|PNG_END|))
  }

  /** The EOCD patch writes the two fields and changes no other byte. */
  lemma PatchEocdSpec(buf: seq<byte>, e: nat, cdOffset: nat)
    requires e + EOCD_SIZE <= |buf|
    ensures var r := PatchEocd(buf, e, cdOffset);
      && r[e + CENTRAL_DIRECTORY_OFFSET_OFFSET..e + COMMENT_LENGTH_OFFSET] == LE32(cdOffset)
      && r[e + COMMENT_LENGTH_OFFSET..e + EOCD_SIZE] == LE16(|PNG_END|)
      && forall k :: 0 <= k < |buf| && (k < e + CENTRAL_DIRECTORY_OFFSET_OFFSET || e + EOCD_SIZE <= k) ==> r[k] == buf[k]
  {
    var half := Overwrite(buf, e + CENTRAL_DIRECTORY_OFFSET_OFFSET, LE32(cdOffset));
    var v := LE16(|PNG_END|);
    OverwriteInside(buf, e + CENTRAL_DIRECTORY_OFFSET_OFFSET, LE32(cdOffset));
    OverwriteOutside(half, e + COMMENT_LENGTH_OFFSET, v, e + CENTRAL_DIRECTORY_OFFSET_OFFSET, e + COMMENT_LENGTH_OFFSET);
    OverwriteInside(half, e + COMMENT_LENGTH_OFFSET, v);
    forall k | 0 <= k < |buf| && (k < e + CENTRAL_DIRECTORY_OFFSET_OFFSET || e + EOCD_SIZE <= k)
      ensures PatchEocd(buf, e, cdOffset)[k] == buf[k]
    {
      OverwriteAt(buf, e + CENTRAL_DIRECTORY_OFFSET_OFFSET, LE32(cdOffset), k);
      OverwriteAt(half, e + COMMENT_LENGTH_OFFSET, v, k);
    }
  }

  /**
   * The first byte of the last chunk: the least record start, clamped to the EOCD start.
   * (The source clamps to the archive length instead; see `StartOfCdAsWritten`.)
   */
  function StartOfCd(es: seq<Entry>, eocd: nat): (r: nat)
    ensures r <= eocd
  {
    MinCentral(es, |es|, eocd)
  }

  /** `start_of_cd` as the source computes it: the least record start, or the archive length. */
  function StartOfCdAsWritten(file: seq<byte>, es: seq<Entry>): (r: nat)
    ensures r <= |file|
  {
    MinCentral(es, |es|, |file|)
  }

  // ----- the composite -----

  /** Size of everything the embedder writes. */
  function ComposedSize(img: seq<byte>, file: seq<byte>, es: seq<Entry>): nat
    requires |file| >= 4 && RangesOrdered(es)
  {
    var e := LastEocd(file);
    FirstIend(img) + EntriesSize(es, |es|) + WRAP + (e + EOCD_SIZE - StartOfCd(es, e)) + |PNG_END|
  }

  /**
   * What the loop needs of the entries when the first entry chunk starts at `base`: byte ranges
   * and offset fields inside the archive, ranges clear of the offset fields (the chunks are cut
   * from the buffer being patched), and every position it stores below 2^32.
   */
  predicate EntriesFit(file: seq<byte>, es: seq<Entry>, base: nat) {
    && RangesIn(file, es) && FieldsIn(file, es) && Disjoint(es)
    && base + EntriesSize(es, |es|) + PAYLOAD < TWO_32
  }

  /**
   * What `create_archive` needs of its inputs once the PNG signature is there: a whole IHDR
   * before IEND; an archive whose EOCD is complete and comes after every central-directory
   * record; entries that fit the loop; and the two values the tail casts to 32 bits, the
   * central-directory offset and the last chunk's length, below 2^32.
   */
  predicate Admissible(img: seq<byte>, file: seq<byte>, es: seq<Entry>) {
    && |img| >= 12 && HeaderEnd(img) <= FirstIend(img)
    && |file| >= 4 && LastEocd(file) + EOCD_SIZE <= |file|
    && (forall j :: 0 <= j < |es| ==> es[j].centralHeaderStart + CENTRAL_RECORD_SIZE <= LastEocd(file))
    && EntriesFit(file, es, HeaderEnd(img))
    && CdChunkPos(img, es) + PAYLOAD < TWO_32
    && LastEocd(file) + EOCD_SIZE - StartOfCd(es, LastEocd(file)) + |KEYWORD| < TWO_32
  }

  /** Where the chunk wrapping entry `i` starts in the composite. */
  function EntryPos(img: seq<byte>, es: seq<Entry>, i: nat): nat
    requires |img| >= 12 && RangesOrdered(es) && i <= |es|
  {
    HeaderEnd(img) + EntriesSize(es, i)
  }

  /** Where the chunk wrapping the central directory and the EOCD starts in the composite. */
  function CdChunkPos(img: seq<byte>, es: seq<Entry>): nat
    requires RangesOrdered(es)
  {
    FirstIend(img) + EntriesSize(es, |es|)
  }

  /** The working copy of the archive once every field has been patched. */
  function PatchedArchive(img: seq<byte>, file: seq<byte>, es: seq<Entry>): (r: seq<byte>)
    requires Admissible(img, file, es)
    ensures |r| == |file|
  {
    PatchEocd(PatchEntries(file, es, |es|, HeaderEnd(img)), LastEocd(file), CdChunkPos(img, es) + PAYLOAD)
  }

  /** What the last chunk wraps: the patched central directory and EOCD, without the archive's comment. */
  function CdData(img: seq<byte>, file: seq<byte>, es: seq<Entry>): (r: seq<byte>)
    requires Admissible(img, file, es)
    ensures |r| == LastEocd(file) + EOCD_SIZE - StartOfCd(es, LastEocd(file))
  {
    PatchedArchive(img, file, es)[StartOfCd(es, LastEocd(file))..LastEocd(file) + EOCD_SIZE]
  }

  /**
   * What the last chunk wraps as the source computes it, from `StartOfCdAsWritten`; `None` where
   * the slice would be inverted and the source panics.
   */
  function CdDataAsWritten(img: seq<byte>, file: seq<byte>, es: seq<Entry>): (r: Option<seq<byte>>)
    requires Admissible(img, file, es)
    ensures r.Some? <==> StartOfCdAsWritten(file, es) <= LastEocd(file) + EOCD_SIZE
    ensures r.Some? ==> |r.value| == LastEocd(file) + EOCD_SIZE - StartOfCdAsWritten(file, es)
  {
    var s, t := StartOfCdAsWritten(file, es), LastEocd(file) + EOCD_SIZE;
    if s <= t then Some(PatchedArchive(img, file, es)[s..t]) else None
  }

  /** The composite file `create_archive` writes. */
  function Composite(img: seq<byte>, file: seq<byte>, es: seq<Entry>): (r: seq<byte>)
    requires Admissible(img, file, es)
    ensures |r| == ComposedSize(img, file, es)
  {
    img[..HeaderEnd(img)] + EntryChunks(file, es, |es|) + img[HeaderEnd(img)..FirstIend(img)]
      + TextChunk(CdData(img, file, es)) + PNG_END
  }

  // ----- facts the embedding loop relies on -----

  /** The chunks of fewer entries take no more room. */
  lemma {:induction false} EntriesSizeMono(es: seq<Entry>, i: nat, n: nat)
    requires RangesOrdered(es) && i <= n <= |es|
    ensures EntriesSize(es, i) <= EntriesSize(es, n)
    decreases n
  {
    if i < n {
      EntriesSizeMono(es, i, n - 1);
    }
  }

  /** Outside the patched fields, the loop leaves the archive as it was. */
  lemma {:induction false} PatchEntriesFrame(file: seq<byte>, es: seq<Entry>, n: nat, base: nat, k: nat)
    requires RangesOrdered(es) && FieldsIn(file, es) && n <= |es|
    requires k < |file| && OutsideOffsetFields(es, n, k)
    ensures PatchEntries(file, es, n, base)[k] == file[k]
    decreases n
  {
    if n > 0 {
      PatchEntriesFrame(file, es, n - 1, base, k);
      OverwriteAt(PatchEntries(file, es, n - 1, base), es[n - 1].OffsetField(), LE32(base + EntriesSize(es, n - 1) + PAYLOAD), k);
    }
  }

  /** The loop's patches lie before the EOCD, so the backward scan still finds the original one. */
  lemma ScanUnaffected(img: seq<byte>, file: seq<byte>, es: seq<Entry>)
    requires Admissible(img, file, es)
    ensures LastEocd(PatchEntries(file, es, |es|, HeaderEnd(img))) == LastEocd(file)
  {
    var t := PatchEntries(file, es, |es|, HeaderEnd(img));
    forall k | LastEocd(file) <= k < |file| ensures file[k] == t[k] {
      PatchEntriesFrame(file, es, |es|, HeaderEnd(img), k);
    }
    LastEocdStable(file, t);
  }

  /** The bytes a chunk wraps are read from the working copy; they are still the original bytes. */
  lemma EntryBytesUnpatched(file: seq<byte>, es: seq<Entry>, base: nat, i: nat, done: nat)
    requires EntriesFit(file, es, base) && i < |es| && done <= |es|
    ensures PatchEntries(file, es, done, base)[es[i].Start()..es[i].End()] == file[es[i].Start()..es[i].End()]
  {
    var t := PatchEntries(file, es, done, base);
    forall k | es[i].Start() <= k < es[i].End() ensures t[k] == file[k] {
      PatchEntriesFrame(file, es, done, base, k);
    }
  }

  /** Every position the loop stores stays below 2^32. */
  lemma CastsFit(file: seq<byte>, es: seq<Entry>, base: nat, i: nat)
    requires EntriesFit(file, es, base) && i <= |es|
    ensures base + EntriesSize(es, i) + PAYLOAD < TWO_32
  {
    EntriesSizeMono(es, i, |es|);
  }

  /** Four single-byte stores at `at` patch the array as `Overwrite` does. */
  lemma Stored4(before: seq<byte>, after: seq<byte>, at: nat, v: seq<byte>)
    requires |v| == 4 && at + 4 <= |before|
    requires after == before[at := v[0]][at + 1 := v[1]][at + 2 := v[2]][at + 3 := v[3]]
    ensures after == Overwrite(before, at, v)
  {
  }

  /** Two single-byte stores at `at` patch the array as `Overwrite` does. */
  lemma Stored2(before: seq<byte>, after: seq<byte>, at: nat, v: seq<byte>)
    requires |v| == 2 && at + 2 <= |before|
    requires after == before[at := v[0]][at + 1 := v[1]]
    ensures after == Overwrite(before, at, v)
  {
  }

  /** One loop round on the working copy: the field of entry `i` gets the position of its wrapped bytes. */
  lemma EntryFieldStored(file: seq<byte>, es: seq<Entry>, base: nat, i: nat, before: seq<byte>, after: seq<byte>, v: nat)
    requires RangesOrdered(es) && FieldsIn(file, es) && i < |es|
    requires before == PatchEntries(file, es, i, base)
    requires v == base + EntriesSize(es, i) + PAYLOAD
    requires after == Overwrite(before, es[i].OffsetField(), LE32(v))
    ensures after == PatchEntries(file, es, i + 1, base)
  {
    hide Overwrite, LE32;
    assert PatchEntries(file, es, i + 1, base) == Overwrite(PatchEntries(file, es, i, base), es[i].OffsetField(), LE32(v));
  }

  /** The writes after the loop complete the composite. */
  lemma TailWritten(img: seq<byte>, file: seq<byte>, es: seq<Entry>, before: seq<byte>, after: seq<byte>, data: seq<byte>)
    requires Admissible(img, file, es)
    requires before == img[..HeaderEnd(img)] + EntryChunks(file, es, |es|) + img[HeaderEnd(img)..FirstIend(img)]
    requires data == CdData(img, file, es)
    requires after == before + TextChunk(data) + PNG_END
    ensures after == Composite(img, file, es)
  {
    hide TextChunk, EntryChunks, CdData;
  }

  // ----- the embedding -----

  datatype Outcome = Composed(bytes: seq<byte>) | MalformedPng

  /** `to_owned`: the working copy of the archive. */
  method ToOwned(s: seq<byte>) returns (a: array<byte>)
    ensures fresh(a) && a[..] == s
  {
    a := new byte[|s|](k requires 0 <= k < |s| => s[k]);
    assert a[..] == s;
  }

  /**
   * `Chunk::new`, `crc` and `write` on a tEXt chunk wrapping `data`, as `create_archive` uses
   * them; the count returned is the size of the chunk.
   */
  method EmitTextChunk(w: ByteWriter, data: seq<byte>) returns (n: nat)
    requires |data| + |KEYWORD| < TWO_32
    modifies w
    ensures w.bytes == old(w.bytes) + TextChunk(data)
    ensures n == |TextChunk(data)|
  {
    var chunk := new Chunk((|data| + |KEYWORD|) as u32, TEXT, data);
    chunk.ComputeCrc();
    n := chunk.Write(w);
  }

  /** Four single-byte stores of `(v as u32).to_le_bytes()` at `at`. */
  method StoreLE32(a: array<byte>, at: nat, v: nat)
    requires at + 4 <= a.Length
    modifies a
    ensures a[..] == Overwrite(old(a[..]), at, LE32(v))
  {
    ghost var before := a[..];
    var le := LE32(v);
    a[at] := le[0];
    a[at + 1] := le[1];
    a[at + 2] := le[2];
    a[at + 3] := le[3];
    Stored4(before, a[..], at, le);
  }

  /**
   * The state of `create_archive` after `n` rounds of its loop: the working copy holds the
   * first `n` patches, `chunks` is what the loop has written, `pos` is `current_pos` and
   * `least` is `start_of_cd`.
   */
  predicate Embedded(file: seq<byte>, es: seq<Entry>, base: nat, n: nat,
                     patched: seq<byte>, chunks: seq<byte>, pos: nat, least: nat) {
    && EntriesFit(file, es, base) && n <= |es|
    && patched == PatchEntries(file, es, n, base)
    && chunks == EntryChunks(file, es, n)
    && pos == base + EntriesSize(es, n)
    && least == MinCentral(es, n, |file|)
  }

  /** One round of the loop keeps `Embedded`, one entry further on. */
  lemma EmbeddedStep(file: seq<byte>, es: seq<Entry>, base: nat, i: nat, patched: seq<byte>, chunks: seq<byte>,
                     pos: nat, least: nat, data: seq<byte>, v: nat, after: seq<byte>, nextLeast: nat)
    requires i < |es| && Embedded(file, es, base, i, patched, chunks, pos, least)
    requires data == file[es[i].Start()..es[i].End()]
    requires v == pos + PAYLOAD && es[i].OffsetField() + 4 <= |patched|
    requires after == Overwrite(patched, es[i].OffsetField(), LE32(v))
    requires nextLeast == if least > es[i].centralHeaderStart then es[i].centralHeaderStart else least
    ensures Embedded(file, es, base, i + 1, after, chunks + TextChunk(data), pos + |TextChunk(data)|, nextLeast)
  {
    EntryFieldStored(file, es, base, i, patched, after, v);
  }

  /** One round of the loop of `create_archive`, on entry `i`. */
  method EmbedEntry(file: seq<byte>, entries: seq<Entry>, archive: array<byte>, w: ByteWriter, headerEnd: nat,
                    i: nat, currentPos: nat, startOfCd: nat, ghost pre: seq<byte>, ghost chunks: seq<byte>)
    returns (nextPos: nat, nextStart: nat, ghost nextChunks: seq<byte>)
    requires i < |entries| && Embedded(file, entries, headerEnd, i, archive[..], chunks, currentPos, startOfCd)
    requires w.bytes == pre + chunks
    modifies archive, w
    ensures Embedded(file, entries, headerEnd, i + 1, archive[..], nextChunks, nextPos, nextStart)
    ensures w.bytes == pre + nextChunks
  {
    hide TextChunk, Overwrite, LE32;
    ghost var patched := archive[..];
    var entry := entries[i];
    var end := entry.dataStart + entry.compressedSize;
    var start := entry.headerStart;
    CastsFit(file, entries, headerEnd, i);
    var data := archive[start..end];
    assert data == patched[entries[i].Start()..entries[i].End()];
    EntryBytesUnpatched(file, entries, headerEnd, i, i);
    var bytesWritten := EmitTextChunk(w, data);
    nextChunks := chunks + TextChunk(data);
    AppendAssoc(pre, chunks, TextChunk(data));
    nextStart := startOfCd;
    if nextStart > entry.centralHeaderStart {
      nextStart := entry.centralHeaderStart;
    }
    var newOffset := (currentPos + 4 + 4 + |KEYWORD|) as u32;
    var field := entry.centralHeaderStart + LOCAL_HEADER_OFFSET;
    assert field == entries[i].OffsetField() && archive[..] == patched;
    StoreLE32(archive, field, newOffset as nat);
    nextPos := currentPos + bytesWritten;
    EmbeddedStep(file, entries, headerEnd, i, patched, chunks, currentPos, startOfCd, data, newOffset as nat, archive[..], nextStart);
  }

  /** The loop of `create_archive`. */
  method EmbedEntries(file: seq<byte>, entries: seq<Entry>, archive: array<byte>, w: ByteWriter, headerEnd: nat)
    returns (currentPos: nat, startOfCd: nat)
    requires EntriesFit(file, entries, headerEnd)
    requires archive[..] == file && |w.bytes| == headerEnd
    modifies archive, w
    ensures archive[..] == PatchEntries(file, entries, |entries|, headerEnd)
    ensures w.bytes == old(w.bytes) + EntryChunks(file, entries, |entries|)
    ensures currentPos == |w.bytes| == headerEnd + EntriesSize(entries, |entries|)
    ensures startOfCd == MinCentral(entries, |entries|, |file|)
  {
    currentPos := headerEnd;
    startOfCd := |file|;
    ghost var chunks: seq<byte> := [];
    assert w.bytes == old(w.bytes) + chunks;
    var i := 0;
    while i < |entries|
      invariant Embedded(file, entries, headerEnd, i, archive[..], chunks, currentPos, startOfCd)
      invariant w.bytes == old(w.bytes) + chunks
    {
      currentPos, startOfCd, chunks := EmbedEntry(file, entries, archive, w, headerEnd, i, currentPos, startOfCd, old(w.bytes), chunks);
      i := i + 1;
    }
  }

  /** The EOCD patch: the central-directory offset and the comment length (the 12 bytes of IEND). */
  method PatchEocdFields(archive: array<byte>, startOfEocd: nat, cdOffset: u32)
    requires startOfEocd + EOCD_SIZE <= archive.Length
    modifies archive
    ensures archive[..] == PatchEocd(old(archive[..]), startOfEocd, cdOffset as nat)
  {
    StoreLE32(archive, startOfEocd + CENTRAL_DIRECTORY_OFFSET_OFFSET, cdOffset as nat);
    ghost var half := archive[..];
    var iendLength := LE16(|PNG_END| as u16 as nat);
    archive[startOfEocd + COMMENT_LENGTH_OFFSET] := iendLength[0];
    archive[startOfEocd + COMMENT_LENGTH_OFFSET + 1] := iendLength[1];
    Stored2(half, archive[..], startOfEocd + COMMENT_LENGTH_OFFSET, iendLength);
  }

  /**
   * The part of `create_archive` after the loop: the rest of the image up to IEND, the EOCD
   * patch, the chunk wrapping the central directory and the EOCD, and IEND.
   */
  method WriteTail(img: seq<byte>, file: seq<byte>, entries: seq<Entry>, archive: array<byte>, w: ByteWriter,
                   headerEnd: nat, posAfterEntries: nat, leastRecord: nat)
    requires Admissible(img, file, entries) && headerEnd == HeaderEnd(img)
    requires archive[..] == PatchEntries(file, entries, |entries|, headerEnd)
    requires w.bytes == img[..headerEnd] + EntryChunks(file, entries, |entries|)
    requires posAfterEntries == |w.bytes| && leastRecord == MinCentral(entries, |entries|, |file|)
    modifies archive, w
    ensures archive[..] == PatchedArchive(img, file, entries)
    ensures w.bytes == Composite(img, file, entries)
  {
    hide TextChunk, Composite, EntryChunks, PatchEntries, Overwrite, LE32, LE16;
    var iendLoc := FindIendLoc(img);
    w.WriteAll(img[headerEnd..iendLoc]);
    var currentPos := posAfterEntries + (iendLoc - headerEnd);
    assert currentPos == CdChunkPos(img, entries);

    ScanUnaffected(img, file, entries);
    ghost var patched := archive[..];
    var startOfEocd := FindEocd(archive);
    assert startOfEocd == LastEocd(file);
    var cdOffset := currentPos as u32 + 4 + 4 + |KEYWORD| as u32;
    assert cdOffset as nat == CdChunkPos(img, entries) + PAYLOAD;
    PatchEocdFields(archive, startOfEocd, cdOffset);
    ghost var final := archive[..];
    assert final == PatchEocd(patched, LastEocd(file), CdChunkPos(img, entries) + PAYLOAD);
    assert final == PatchedArchive(img, file, entries);

    // Corrected: without entries `start_of_cd` would stay past the EOCD and the last chunk
    // would not contain it.
    var startOfCd := leastRecord;
    MinCentralClamp(entries, |entries|, |file|, startOfEocd);
    if startOfCd > startOfEocd {
      startOfCd := startOfEocd;
    }
    assert startOfCd == StartOfCd(entries, startOfEocd);

    var eocdEnd := startOfEocd + EOCD_SIZE;
    ghost var body := w.bytes;
    var comment := archive[startOfCd..eocdEnd];
    assert comment == final[StartOfCd(entries, LastEocd(file))..LastEocd(file) + EOCD_SIZE];
    assert comment == CdData(img, file, entries);
    var _ := EmitTextChunk(w, comment);
    w.WriteAll(PNG_END);
    TailWritten(img, file, entries, body, w.bytes, comment);
  }

  /**
   * `create_archive`: fails when the image does not start with the PNG signature (the source's
   * assertion), and otherwise writes exactly `Composite(img, file, entries)`.
   */
  method CreateArchive(img: seq<byte>, file: seq<byte>, entries: seq<Entry>) returns (r: Outcome)
    requires |img| >= 8
    requires HasPngSignature(img) ==> Admissible(img, file, entries)
    ensures r.MalformedPng? <==> !HasPngSignature(img)
    ensures r.Composed? ==> r.bytes == Composite(img, file, entries)
  {
    var archive := ToOwned(file);
    if PNG_SIGNATURE != img[0..8] {
      return MalformedPng;
    }
    var w := new ByteWriter();
    var currentPos := 0;
    w.WriteAll(img[0..8]);
    currentPos := currentPos + 8;

    var ihdrLength := FromBE32(img[8..12]) as u32;
    CastsFit(file, entries, HeaderEnd(img), 0);
    var headerEnd := currentPos + (ihdrLength + 4 + 4 + 4) as nat;
    assert headerEnd == HeaderEnd(img);
    w.WriteAll(img[8..headerEnd]);
    assert w.bytes == img[..headerEnd];

    var startOfCd;
    currentPos, startOfCd := EmbedEntries(file, entries, archive, w, headerEnd);
    WriteTail(img, file, entries, archive, w, headerEnd, currentPos, startOfCd);
    return Composed(w.bytes);
  }
}
