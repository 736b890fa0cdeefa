# PNG/ZIP polyglot embedding

This project models `create_archive`. It hides a ZIP archive inside a PNG image, and the result reads as both:

- a valid PNG, in the sense of `Png.ValidChunkAt` (see "## Left out" for the chunk-length cap);
- a ZIP archive whose entries, central directory and end-of-central-directory record (EOCD) sit at the offsets they declare.

What `create_archive` does, in order:

1. It copies the PNG signature and the first chunk (IHDR).
2. It wraps each entry's local header and compressed data in a `tEXt` chunk of its own, with the keyword `Comment`.
3. After each entry, it patches that entry's central-directory record in the working copy of the archive. The "relative offset of local header" field, at +42, gets the entry's position in the output.
4. It copies the rest of the image up to IEND.
5. It finds the EOCD with a backward scan. It patches the EOCD's central-directory offset at +16 and its comment length at +20.
6. It wraps the central directory and the 22-byte EOCD in one last `tEXt` chunk.
7. It appends the fixed 12-byte IEND chunk.

The model covers:

- this routine;
- its helpers `find_iend_loc`, `Chunk::crc` and `Chunk::write`;
- the constants `PNG_SIGNATURE`, `PNG_END`, `CENTRAL_DIRECTORY_OFFSET_OFFSET`, `LOCAL_HEADER_OFFSET` and `COMMENT_LENGTH_OFFSET`.

The model keeps the source's imperative form:

- The output stream is an append-only `ByteWriter` class.
- The working copy of the archive is an `array<byte>` patched one byte at a time.
- `Chunk` is a class whose `ComputeCrc` method fills in its `crc` field.
- The IEND search is a `while` loop over a byte sequence.
- The EOCD search is a decrementing `while` loop over the array.
- The entry loop is a `while` loop.

Each method is proved against a specification function:

- `Serialize` and `TextChunk` specify what a chunk writes.
- `FirstIend` and `LastEocd` specify the two searches.
- `PatchEntries` and `PatchEocd` specify the patched archive.
- `Composite` specifies the whole output.

Lemmas then show two readings of that output:

- What a PNG decoder sees (module `Views`): the signature, then IHDR; then each entry's valid `tEXt` chunk, each followed by the next; then the image's own chunks up to IEND, each read and followed exactly as in the image but moved on by the size of the entry chunks; then the valid last chunk, then IEND.
- What a ZIP reader sees: every patched offset names the bytes it should.

Files:

- `bytes.dfy`: bytes, 16- and 32-bit encodings, in-place overwrite, and the output writer.
- `crc.dfy`: the CRC-32 of section 5.5 of the PNG Specification (Second Edition).
- `png.dfy`: the chunk, its serialisation and decoding, and the IEND search.
- `zip.dfy`: the entry descriptors, the running minimum of record starts, and the EOCD scan.
- `polyglot.dfy`: the patches, the composite, and `create_archive` itself.
- `views.dfy`: what PNG and ZIP readers find in the composite.

The patched comment length is 12, the length of `PNG_END`, as the source writes it. The source's own comment on that line (src/lib.rs:119) reads "crc + iend", but `PNG_END` alone is 12 bytes. `Views.EocdFollowed` shows that 16 bytes follow the EOCD in the composite: the CRC of the last chunk, then IEND. A ZIP reader that checks the comment length against the bytes that remain therefore sees 4 bytes more than declared.

## Model

| member | source | states |
|---|---|---|
| Bytes.ByteWriter.WriteAll | src/lib.rs:52 | `write_all` appends exactly the given bytes to the output |
| Crc.UpdateAppend | src/lib.rs:171-173 | digesting two byte ranges one after the other equals digesting their concatenation once |
| Crc.DigestThree | src/lib.rs:169-175 | three successive digests and the read-out give the CRC-32 of the concatenation |
| Png.HeaderEnd | src/lib.rs:55-57 | IHDR ends 8 + its declared length + 12 bytes into the image, at byte 20 or later |
| Png.Serialize | src/lib.rs:176-186 | the bytes of a chunk are its type and data plus 16: length field, keyword and CRC |
| Png.TextChunk | src/lib.rs:73-78 | a `tEXt` chunk around `data` is 20 bytes longer than `data` |
| Png.Chunk.constructor | src/lib.rs:73-78 | a new chunk holds the given length, type and data, and its CRC is 0 |
| Png.Chunk.ComputeCrc | src/lib.rs:169-175 | the CRC field becomes CRC-32 of type, then `Comment\0`, then data; the length field is not digested |
| Png.Chunk.Write | src/lib.rs:176-186 | appends big-endian length, type, `Comment\0`, data, big-endian CRC, in that order; returns 12 + length, which equals the bytes appended whenever the length counts the keyword and the data |
| Png.TextChunkFields | src/lib.rs:176-186 | in a serialised `tEXt` chunk, the length field is the data length plus 8; the type is `tEXt`; the keyword and data follow; the CRC closes it |
| Png.TextChunkPayload | src/lib.rs:176-186 | the wrapped bytes start at offset 16 of the chunk and only the CRC follows them |
| Png.TextChunkRead | src/lib.rs:176-186 | wherever a `tEXt` chunk is written, a decoder reads a chunk of type `tEXt` with data `Comment\0` + wrapped bytes and a matching CRC, and the next chunk starts right after it |
| Png.IendCrc | src/lib.rs:12 | the CRC-32 of the type `IEND` is 0xAE426082, the last four bytes of `PNG_END` |
| Png.EndMarkerIsValidChunk | src/lib.rs:12 | `PNG_END` reads as a valid empty IEND chunk that ends the file |
| Png.FirstIendFrom | src/lib.rs:151-158 | the search from `p` returns 0 or a position at or after `p` where 12 bytes still fit |
| Png.FirstIendFromSpec | src/lib.rs:151-158 | the search from `p` returns the first match at or after `p`, or 0 when there is none |
| Png.FirstIendSpec | src/lib.rs:150-159 | `FirstIend` is the smallest position of `PNG_END`, or 0 when it does not occur |
| Png.FindIendLoc | src/lib.rs:150-159 | the loop returns that first match, or 0 when there is none |
| Zip.MinCentral | src/lib.rs:83-85 | the running minimum never exceeds its start value |
| Zip.MinCentralSpec | src/lib.rs:62-85 | `start_of_cd` ends at most every entry's record start; it equals one of them or the start value; with no entries it is the start value |
| Zip.MinCentralClamp | src/lib.rs:83-85 | clamping the finished minimum to a lower bound gives the minimum started from that bound |
| Zip.EocdScan | src/lib.rs:105-112 | the scan from `p` never returns a position above `p` |
| Zip.LastEocd | src/lib.rs:105 | the scan starts at `len - 4`, so the EOCD start leaves room for the 4-byte signature |
| Zip.EocdScanSpec | src/lib.rs:105-112 | the scan from `p` returns at most `p`; a non-zero result holds the signature; no position between the result and `p` holds it |
| Zip.LastEocdSpec | src/lib.rs:105-112 | the EOCD start is the last signature position in [1, len-4], or 0 when there is none; position 0 is never examined |
| Zip.EocdScanAgree | src/lib.rs:105-112 | the scan's result depends only on the bytes from that result on |
| Zip.LastEocdStable | src/lib.rs:105-112 | changing bytes before the EOCD does not move the EOCD |
| Zip.FindEocd | src/lib.rs:105-112 | the loop over the working copy returns `LastEocd`, with the same guarantees |
| Polyglot.EntryChunks | src/lib.rs:66-96 | the chunks of the first `n` entries take `EntriesSize(n)` bytes, the sum `current_pos` advances by at src/lib.rs:95 |
| Polyglot.PatchEntries | src/lib.rs:86-93 | the entry patches keep the archive's length |
| Polyglot.PatchEocd | src/lib.rs:113-121 | the EOCD patch keeps the archive's length |
| Polyglot.PatchEocdSpec | src/lib.rs:113-121 | the EOCD patch writes LE32 of the offset at +16 and LE16(12) at +20, and changes no other byte |
| Polyglot.StartOfCd | src/lib.rs:83-85 | the first byte of the last chunk lies at or before the EOCD |
| Polyglot.StartOfCdAsWritten | src/lib.rs:63 | `start_of_cd` as the source computes it lies at or before the end of the archive |
| Polyglot.PatchedArchive | src/lib.rs:86-121 | the fully patched working copy is as long as the archive |
| Polyglot.CdData | src/lib.rs:123-128 | the last chunk wraps `eocd + 22 - start_of_cd` bytes |
| Polyglot.CdDataAsWritten | src/lib.rs:123-128 | from `start_of_cd` as written, the slice exists exactly when `start_of_cd <= eocd + 22`, and then holds `eocd + 22 - start_of_cd` bytes |
| Polyglot.Composite | src/lib.rs:40-138 | the composite is as long as the image up to IEND, plus every chunk, plus IEND (`ComposedSize`) |
| Polyglot.EntriesSizeMono | src/lib.rs:95 | `current_pos` never decreases over the loop |
| Polyglot.PatchEntriesFrame | src/lib.rs:86-93 | the entry patches change no byte outside the offset fields |
| Polyglot.ScanUnaffected | src/lib.rs:105-112 | the backward scan over the patched copy finds the EOCD of the original archive |
| Polyglot.EntryBytesUnpatched | src/lib.rs:76 | the bytes a chunk wraps are cut from the working copy and are still the original bytes |
| Polyglot.CastsFit | src/lib.rs:56-87 | every offset stored in the loop is below 2^32; at the first entry this also bounds IHDR's end, so the u32 sum at src/lib.rs:57 does not overflow |
| Polyglot.Stored4 | src/lib.rs:90-93 | four single-byte stores write the 4-byte value at that position |
| Polyglot.Stored2 | src/lib.rs:120-121 | two single-byte stores write the 2-byte value at that position |
| Polyglot.EntryFieldStored | src/lib.rs:86-93 | one loop round stores `current_pos + 16` in entry `i`'s offset field, extending the patches by one entry |
| Polyglot.TailWritten | src/lib.rs:97-135 | the writes after the loop complete the composite |
| Polyglot.ToOwned | src/lib.rs:45 | the working copy is a fresh array with the archive's bytes |
| Polyglot.EmitTextChunk | src/lib.rs:73-82 | building, digesting and writing a `tEXt` chunk appends `TextChunk(data)` and returns its size |
| Polyglot.StoreLE32 | src/lib.rs:88-93 | the four stores put LE32 of the value at the position and nothing else changes |
| Polyglot.EmbeddedStep | src/lib.rs:66-96 | one loop round keeps the loop state (patches, output, `current_pos`, `start_of_cd`) one entry further on |
| Polyglot.EmbedEntry | src/lib.rs:67-95 | the loop body moves the working copy, the output, `current_pos` and `start_of_cd` one entry on |
| Polyglot.EmbedEntries | src/lib.rs:62-96 | after the loop, the copy holds every entry patch; the output holds every entry chunk; `current_pos` equals the bytes written; `start_of_cd` is the least record start or the archive length |
| Polyglot.PatchEocdFields | src/lib.rs:113-121 | the six stores leave the working copy as `PatchEocd` describes |
| Polyglot.WriteTail | src/lib.rs:97-135 | with the loop done, writing the image body, patching the EOCD and writing the last chunk and IEND reach exactly the composite, and leave the working copy fully patched (`PatchedArchive`) |
| Polyglot.CreateArchive | src/lib.rs:40-138 | fails exactly when the image lacks the PNG signature, and otherwise writes exactly `Composite` |
| Views.EndPos | src/lib.rs:123-135 | IEND starts 20 bytes plus the wrapped length after the last chunk's start |
| Views.Layout | src/lib.rs:40-138 | the composite is, in order: signature and IHDR, the entry chunks, the image up to IEND, the last chunk, and `PNG_END` |
| Views.EntryChunkSlice | src/lib.rs:66-96 | entry `i`'s chunk sits among the entry chunks, after the chunks of the entries before it |
| Views.EntriesPlaced | src/lib.rs:66-96 | the entry chunks follow IHDR in the composite |
| Views.EntryChunkPlaced | src/lib.rs:73-95 | entry `i`'s chunk runs from `EntryPos(i)` to `EntryPos(i + 1)` in the composite |
| Views.IhdrChained | src/lib.rs:51-59 | the composite starts with the PNG signature; IHDR reads there exactly as in the image; the chunk after IHDR is the first entry chunk |
| Views.EntryChunkValid | src/lib.rs:73-82 | a decoder reads a valid `tEXt` chunk at each entry's position, and the next chunk follows it |
| Views.ImageChunkShifted | src/lib.rs:98-100 | every image chunk between IHDR and IEND reads the same, is valid exactly when it is in the image, and is followed by the image's next chunk, all moved on by the entry chunks' size; the chunk that ended at IEND is followed by the last chunk |
| Views.CdChunkValid | src/lib.rs:125-132 | a decoder reads a valid `tEXt` chunk wrapping the central directory and EOCD, with IEND next |
| Views.EndChunkValid | src/lib.rs:134-135 | a decoder reads a valid empty IEND chunk that ends the file |
| Views.EntryDataPlaced | src/lib.rs:87 | entry `i`'s local header and compressed data appear unchanged 16 bytes after its chunk's start |
| Views.CdChunkPlaced | src/lib.rs:125-132 | the last chunk runs from `CdChunkPos` to `EndPos` in the composite |
| Views.CdPlaced | src/lib.rs:104-128 | every range of the patched archive from `start_of_cd` to the EOCD's end appears byte for byte in the last chunk, from `CdPlace` |
| Views.PatchEntriesField | src/lib.rs:86-93 | after the loop, each entry's offset field holds LE32 of its chunk's position plus 16, when the records do not overlap |
| Views.ArchivePatched | src/lib.rs:86-93 | in the patched archive, each entry's offset field names where its local header lands, and lies before the EOCD |
| Views.EocdPatched | src/lib.rs:113-121 | the patched EOCD keeps its first 16 bytes, names the last chunk's payload start as the central-directory offset, and declares a 12-byte comment |
| Views.ArchiveFrame | src/lib.rs:86-121 | every byte outside the offset fields and the two EOCD fields keeps the archive's value |
| Views.LocalHeaderFound | src/lib.rs:86-93 | following the local-header offset in entry `j`'s record, as the composite holds it, leads to that entry's unchanged local header and data |
| Views.CdChunkEnd | src/lib.rs:125-135 | the last chunk ends with its CRC, and IEND follows to the end of the file |
| Views.EocdFound | src/lib.rs:104-121 | the EOCD in the composite keeps the archive's first 16 bytes; its central-directory offset names where the central directory lands; its comment length is 12 |
| Views.EocdFollowed | src/lib.rs:118-135 | after the EOCD in the composite come the last chunk's 4-byte CRC and the 12-byte IEND, to the end of the file |
| Views.CdByteKept | src/lib.rs:123-128 | every other byte of the central directory reaches the composite unchanged |
| Views.EmptyArchiveAsWritten | src/lib.rs:63 | for every archive without entries, `start_of_cd` as written is the archive length, at or past the EOCD's end; the last chunk is empty when no comment follows the EOCD, and the slice is inverted otherwise |
| Views.EmptyZipEocd | src/lib.rs:105-112 | the scan of the bare 22-byte EOCD returns 0, where the record starts, and no comment follows it, so it is the empty-chunk case |
| Views.ClampInert | src/lib.rs:83-85 | with at least one entry, the clamped `start_of_cd` equals the source's and the last chunk wraps the same bytes |
| Views.EmptyArchiveCorrected | src/lib.rs:123-128 | with the clamp, an archive without entries has its whole EOCD wrapped by the last chunk |

## Left out

- `unzip_archive`, `create_archive_from_files` and `zip_files` (src/lib.rs:18-38, 140-148) are not modelled. They are thin wrappers over the `zip` crate's reader, writer and compression.
- The `zip` crate's `ZipArchive` parser (src/lib.rs:64-70) is not modelled. The model takes what it reports per entry as an input sequence of `Entry` descriptors: header start, data start, compressed size and central-header start. The descriptors come with preconditions: ranges inside the archive, ranges clear of the offset fields, and records ahead of the EOCD.
- The `crc_any` routine (src/lib.rs:170-174) is not modelled. The bitwise reference CRC-32 of the PNG Specification, section 5.5, stands in for it.
- `BufWriter` and its I/O errors, `unwrap`, `flush` and the `println!` (src/lib.rs:51, 108, 136) are not modelled. Output is an append-only byte sequence and writing cannot fail.
- ZIP64 records and data descriptors are outside the model. The code does not handle them either.
- src/main.rs is not part of this model. It is a command-line front end with its own copy of the embedding logic.
- Polyglot.CreateArchive: panics other than the signature assertion and the no-entry case below are preconditions (`Admissible`), not error outcomes. These are out-of-range slices, subtraction underflow, and an image shorter than 12 bytes or without IEND after IHDR.
- Polyglot.CreateArchive: for an archive without entries it writes the corrected composite, whose last chunk wraps the EOCD. The source differs in two ways. Without an archive comment, it writes an empty last chunk and loses the EOCD. With a comment, it underflows at src/lib.rs:126 or inverts the slice at src/lib.rs:128, and panics. `Views.EmptyArchiveAsWritten` states both.
- Polyglot.CreateArchive: the `as u32` casts and the u32 arithmetic are preconditions that each value is below 2^32: the IHDR length plus 12 at src/lib.rs:57, which overflows for a declared length of 2^32 - 12 or more (`CastsFit` at `HeaderEnd`, from `Admissible`), the chunk length at src/lib.rs:74 (`RangesIn`), the entry offset at src/lib.rs:87 (`EntriesFit`), the central-directory offset at src/lib.rs:104, and the last chunk's length at src/lib.rs:126 (both in `Admissible`). The model does not wrap around. The composite itself may be larger than 4 GiB.
- Polyglot.EmbedEntries: the loop body is split out as the method `EmbedEntry`. The loop runs over a sequence index instead of the reader's entry count.
- Png.ValidChunkAt: "valid" means the chunk's fields lie inside the bytes and its CRC matches. The cap of 2^31 - 1 on a chunk's length (section 5.3 of the PNG Specification) is not checked. `RangesIn` and `Admissible` allow wrapped ranges of up to 2^32 - 9 bytes, so for an entry, or a central directory plus EOCD, of 2^31 - 8 bytes or more, the embedder writes a chunk over the cap, which a conforming decoder rejects. `Views.EntryChunkValid` and `Views.CdChunkValid` hold in this weaker sense only.
- Views.ImageChunkShifted: the model does not walk the image's own chunks. The lemma holds for any chunk of the image between IHDR and IEND, so PNG chunks that chain in the image chain in the composite. It does not prove that the image itself is a well-formed chunk sequence.
- Views.PatchEntriesField, Views.ArchivePatched, Views.LocalHeaderFound: these also require `RecordsApart`, meaning distinct central-directory records do not overlap. Without it, a later patch can overwrite an earlier entry's field.
- Polyglot.WriteTail: uses the corrected `start_of_cd`, clamped to the EOCD start (see Findings). With entries present, the clamp has no effect (`Views.ClampInert`).

## Findings

| source | as written | input that shows it | evidently intended | confidence | as-written member | corrected member |
|---|---|---|---|---|---|---|
| src/lib.rs:63 | `start_of_cd` starts at `file.len()` and only entries lower it, so an archive without entries makes the last chunk wrap `file[len..eocd + 22]`. That range is empty for a bare EOCD, and inverted (a panic) when a comment follows. The EOCD never reaches the output. | Any archive without entries. `EMPTY_ZIP`, the 22-byte EOCD alone, gives `start_of_cd` = 22 = `eocd + 22` and an empty last chunk; the same EOCD plus a 2-byte comment gives `start_of_cd` = 24 > 22. | the last chunk wraps at least the EOCD: `start_of_cd` clamped to the EOCD start | not executed | Views.EmptyArchiveAsWritten | Views.EmptyArchiveCorrected |
