# zipchecker in Dafny

zipchecker finds a ZIP archive embedded in a host file, such as a ZIP appended to an image, and lists the archive's file names. It takes three steps:

1. It searches the last 1024 bytes of the file for the local-file-header signature `50 4B 03 04`.
2. From the first such signature, it searches for the central-directory signature `50 4B 01 02`.
3. It walks the chain of central-directory records. Each record is a 46-byte fixed part followed by a name, an extra field and a comment, whose lengths are 16-bit fields at offsets 28, 30 and 32 (APPNOTE.TXT section 4.3.12). The walk prints each record's name until the chain ends or a record does not fit in the buffer.

The project models that core in five modules:

- `Wrappers`: `Option`.
- `Bytes`: the byte type and the two-byte field reader.
  - `ReadU16` takes the byte order as a parameter.
  - `SourceOrder` is the order `ntohs(*(uint16_t *)p)` actually reads on any host: `p[0]` is the high byte.
  - `ZipOrder` is the little-endian order the format prescribes (APPNOTE.TXT section 4.4.1.1).
- `Signature`: `find_signature`.
  - `FindSignature` is the loop, proved against the specification function `FirstMatchFrom`.
  - `LastCandidateAsWritten` is the loop bound as the C code computes it in `size_t`.
- `CentralDirectory`: `parse_zip_archive`.
  - `ParseZipArchive` is the `while` loop, proved equal to the specification function `Parse`.
  - `Parse` and `Walk` are written as pure functions. `Walk` reads a record's three lengths through `HeaderAt`, as one `Header`.
  - A `Report` is one of four outcomes: no archive, no central directory, the names listed when the chain ended quietly, or the names printed before the walk aborted on a record that does not fit.
  - `EncodeRecord` and `EncodeAll` build records from `Entry` values. The round-trip lemmas show that the walk gives back exactly the names that were put in, in order.
- `ZipChecker`: the window arithmetic of `main`.
  - `SearchStart` gives the start of the window searched.
  - `ArchiveStart` gives where the archive starts in the file.
  - `Check` is what is printed for a file, with the lengths read in a given byte order; `ScanFile` runs the two searches and the walk.
  - `Check(file, SourceOrder)` is `main` as written, except that files under 4 bytes give `NoZip` (Findings row 1) and a record cut before its length fields is reported corrupt without reading them (Findings row 2). `Check(file, ZipOrder)` reads the lengths as the format stores them.

Where the C code's behaviour is defined, the model follows it, with one exception, the byte order. The two places where the C code reads out of bounds are listed under Findings. Two points are worth spelling out:

- **Names printed before a bad record.** The C loop prints each name as soon as its record passes the bounds test. When a later record fails the test, the names already printed stay printed. The model therefore reports `Corrupt(emitted)`, carrying the names printed before the abort, rather than an error with no names.
- **Byte order (the exception).** The code reads the length fields big-endian. The format stores them little-endian. `Walk`, `Parse`, `ParseZipArchive`, `Check` and `ScanFile` all take the byte order as a parameter. `SourceOrder` is the code's reading, and its effect is proved in `SourceOrderMisreadsEmbeddedArchive` (see Findings). The end-to-end listing results, such as `EmbeddedArchiveIsListed`, are stated for `ZipOrder`, the order the format prescribes, rather than for the code's order.

## Model

| member | source | states |
|---|---|---|
| Bytes.ReadU16 | zipchecker.c:82-84 | a length field read from two bytes is an unsigned 16-bit value |
| Bytes.WriteU16 | zipchecker.c:82-84 | the two bytes stored for a 16-bit value read back as that value, in either byte order |
| Bytes.WriteReadU16 | zipchecker.c:82-84 | writing back the value read from two bytes gives the same two bytes, so the reader loses nothing |
| Bytes.ReadWrittenU16 | zipchecker.c:82-84 | two bytes stored for `v` anywhere in a buffer read back as `v` |
| Bytes.OrdersSwapBytes | zipchecker.c:82-84 | the big-endian reading is the little-endian reading of the two bytes swapped |
| Bytes.SourceOrderDiffersFromZipOrder | zipchecker.c:82-84 | the bytes `00 01` read 1 as `ntohs` reads them and 256 as the ZIP format stores them |
| Signature.FirstMatchFrom | zipchecker.c:22-29 | a match found from `from` lies at or after `from` and inside the buffer |
| Signature.FirstMatchFromSpec | zipchecker.c:22-29 | the result is a match at or after `from` with no match between `from` and it, or none exactly when no match exists at or after `from` |
| Signature.FirstMatchFromNone | zipchecker.c:22-29 | with no match at or after `from`, the search from `from` finds nothing |
| Signature.FirstMatchFromIsLowest | zipchecker.c:22-29 | a match with no earlier match from `from` is the first match from `from` |
| Signature.FirstMatch | zipchecker.c:22-29 | a match found in the buffer lies inside the buffer |
| Signature.FirstMatchSpec | zipchecker.c:22-29 | the result is a match with no earlier match, or none exactly when the signature occurs nowhere |
| Signature.FirstMatchIsLowest | zipchecker.c:22-29 | a match with no earlier match is the first match |
| Signature.MatchesAtSuffix | zipchecker.c:116-117 | a match at `j` in the buffer from `s` on is a match in the whole buffer at `s + j`, and back |
| Signature.FirstMatchFromInSuffix | zipchecker.c:116-117 | searching the buffer from `s` on, from its index `t`, finds what searching the whole buffer from `s + t` finds, counted from `s` |
| Signature.FirstMatchInSuffix | zipchecker.c:116-117 | searching from `s` on, as `find_signature(file_data + search_start, ...)` does, finds the first match at or after `s`, counted from `s` |
| Signature.FindSignature | zipchecker.c:22-29 | returns the lowest index where the signature occurs; returns none exactly when it occurs nowhere, including when it is longer than the buffer |
| Signature.LastCandidateAsWritten | zipchecker.c:23 | the loop bound `data_len - signature_len` in 64-bit `size_t`; it is the true last candidate when the signature fits |
| Signature.SearchBoundWrapsOnShortBuffer | zipchecker.c:23 | on a buffer shorter than the signature, the bound wraps to 2^64 minus the shortfall, so the loop runs past the buffer |
| CentralDirectory.HeaderAt | zipchecker.c:82-84 | the three lengths read at offsets 28, 30 and 32 of a record are 16-bit values |
| CentralDirectory.Prepended | zipchecker.c:93-94 | names printed before a walk keep the walk's outcome, listed or aborted |
| CentralDirectory.PrependedEmits | zipchecker.c:93-94 | the names printed before a walk come first among the names reported, followed by the walk's own |
| CentralDirectory.EndOfDirectory | zipchecker.c:75-79 | where the chain does not end, the loop guard holds and the bytes at the offset match the central-directory signature |
| CentralDirectory.TruncatedRecord | zipchecker.c:75-90 | a record that fails the bounds test is one the loop entered: the guard holds and the signature matches at its offset |
| CentralDirectory.Walk | zipchecker.c:75-98 | the loop only ends quietly or aborts on a corrupt record; it never reports a missing archive or directory |
| CentralDirectory.WalkEnds | zipchecker.c:75-80 | at most four bytes left, or no signature at the offset: the walk stops with nothing more printed and no error |
| CentralDirectory.WalkAborts | zipchecker.c:87-90 | a record whose declared end lies past the buffer aborts the walk with nothing more printed |
| CentralDirectory.WalkEmits | zipchecker.c:82-97 | a record that fits prints exactly the name-length bytes at offset + 46; the walk then goes on at offset + 46 + name + extra + comment lengths |
| CentralDirectory.WalkNameCountBound | zipchecker.c:97 | each printed name uses at least 46 bytes of the buffer, so the walk from `offset` prints at most (length − offset) / 46 names |
| CentralDirectory.Parse | zipchecker.c:64-99 | `parse_zip_archive` never reports a missing archive |
| CentralDirectory.ParseFindsNoDirectory | zipchecker.c:66-70 | "no central directory" exactly when the signature `50 4B 01 02` occurs nowhere in the buffer |
| CentralDirectory.NameCountBound | zipchecker.c:64-99 | `parse_zip_archive` prints at most length / 46 names |
| CentralDirectory.ParseZipArchive | zipchecker.c:64-99 | the loop prints the same names, and ends the same way, as the walk from the first central-directory signature |
| CentralDirectory.EncodeRecord | zipchecker.c:82-97 | a record is 46 bytes plus its name, extra field and comment, the amount the loop advances by |
| CentralDirectory.EncodeRecordLayout | zipchecker.c:77-93 | a record has the signature first, its three lengths at offsets 28, 30 and 32, and its name at offset 46 |
| CentralDirectory.EncodeAllStartsWithSignature | zipchecker.c:77 | a non-empty run of records starts with the central-directory signature |
| CentralDirectory.ReadEncodedRecord | zipchecker.c:77-93 | reading an encoded record as the loop does gives back its signature, its three lengths and its name, and its end |
| CentralDirectory.WalkRecord | zipchecker.c:77-97 | a whole record for an entry prints that entry's name and the walk goes on right after the record |
| CentralDirectory.WalkEncoded | zipchecker.c:75-97 | consecutive records print their names in record order, and the walk goes on right after the last one |
| CentralDirectory.ListsEveryRecord | zipchecker.c:75-80 | consecutive records followed by the end of the chain list exactly their names |
| CentralDirectory.TruncationKeepsEarlierNames | zipchecker.c:87-94 | consecutive records followed by one that does not fit print their names and then report corruption |
| CentralDirectory.CutRecordIsTruncated | zipchecker.c:87-90 | a buffer that ends inside a record, after its signature, fails the bounds test |
| CentralDirectory.EndOfDirectoryAfter | zipchecker.c:75-80 | whether the chain ends at a position depends only on the bytes from there on |
| CentralDirectory.DirectoryStartsAfterLead | zipchecker.c:66 | a signature right after bytes that hold none is where the central directory starts |
| CentralDirectory.ParseListsRecords | zipchecker.c:64-99 | from the first directory signature, records that then end the chain are listed exactly |
| CentralDirectory.ParseTruncatedAfterRecords | zipchecker.c:64-99 | from the first directory signature, records followed by one that does not fit print their names, then report corruption |
| CentralDirectory.ParseListsArchive | zipchecker.c:64-99 | a well-formed chain of records that then ends is listed in full |
| CentralDirectory.ParseReportsCutRecord | zipchecker.c:64-99 | a buffer cut inside the record after a chain prints the chain's names, then reports corruption |
| CentralDirectory.SourceOrderOverrunsZipRecord | zipchecker.c:82-90 | a record written in ZIP order, whose name, extra field and comment are each under 256 bytes and not all empty, with fewer than 255 bytes per byte of those fields after it, fails the bounds test when read as `ntohs` reads it |
| CentralDirectory.SourceOrderMisreadsZipRecord | zipchecker.c:82-90 | a ZIP record whose name, extra field and comment are each under 256 bytes and not all empty, followed by any tail that ends the chain (such as the end-of-central-directory record) and is shorter than 255 bytes per byte of those fields, is listed in the ZIP order, but in the order `ntohs` gives it is reported corrupt with nothing printed |
| CentralDirectory.LoopGuardAdmitsShortHeader | zipchecker.c:75-84 | the loop guard and signature test let a buffer holding only a signature and one byte into the body, whose length reads go past its end |
| CentralDirectory.ShortHeaderIsCorrupt | zipchecker.c:87-90 | that buffer is reported corrupt with nothing printed, without reading the missing fields |
| ZipChecker.SearchStart | zipchecker.c:115 | the window is the last min(file size, 1024) bytes of the file |
| ZipChecker.ArchiveStart | zipchecker.c:115-117 | an archive found starts inside the window, with its signature inside the file |
| ZipChecker.ArchiveStartIsFirstInWindow | zipchecker.c:115-117 | the archive starts at the first local-header signature at or after the window's start |
| ZipChecker.Check | zipchecker.c:115-125 | "no archive" exactly when no archive start is found in the window |
| ZipChecker.CheckParsesArchive | zipchecker.c:124-125 | with the archive found at `a`, what is printed is `parse_zip_archive` on the file from `a` to its end |
| ZipChecker.CheckOutcomes | zipchecker.c:116-125 | "no archive" exactly when the window holds no local-header signature; "no central directory" exactly when there is an archive and no directory signature from its start on |
| ZipChecker.ScanFile | zipchecker.c:115-125 | the two searches and the walk produce the report of `Check` for the file, in either byte order |
| ZipChecker.ParsedBufferFitsWindow | zipchecker.c:125 | the buffer handed to `parse_zip_archive` runs from the archive's start to the end of the file and is at most 1024 bytes |
| ZipChecker.ArchiveStartAfterFront | zipchecker.c:115-117 | bytes in front of a file of at least 1024 bytes shift the archive's start by their count and change nothing else |
| ZipChecker.OnlyLastWindowMatters | zipchecker.c:115-125 | what is printed for a file depends only on its last 1024 bytes, in either byte order |
| ZipChecker.ArchiveFoundAfterFiller | zipchecker.c:115-117 | an archive of at most 1024 bytes at the end of the file, with no local-header signature in the window before it, is found where it starts |
| ZipChecker.EmbeddedArchiveIsListed | zipchecker.c:115-125 | any filler, then an archive of at most 1024 bytes made of a local header, its records and the end of the chain: with no local-header signature in the window before the archive and no directory signature starting in the local header, every name is listed in order |
| ZipChecker.SourceOrderMisreadsEmbeddedArchive | zipchecker.c:82-90 | the same kind of file, with one record whose name, extra field and comment are each under 256 bytes and not all empty, and a tail shorter than 255 bytes per byte of those fields: `main` lists the name when reading the ZIP order, and as written reports the archive corrupt with nothing printed |

## Left out

- `read_file` (zipchecker.c:32-61) is not part of this model. It is file I/O and allocation; the file is given as its contents.
- Argument checking, exit codes, and the status and error messages that `main` and `parse_zip_archive` print are left out. The messages are the cases of `Report`, not text.
- The header line "archive found" (zipchecker.c:124) is not modelled separately. It is printed exactly when `Check` does not report `NoZip`.
- `printf("%.*s")` stops a name at an embedded NUL byte. The model treats names as raw bytes and does not model that truncation.
- `find_signature` narrows its `size_t` index to `int` when it returns (zipchecker.c:25). This is not modelled, and results are taken as `nat`. Both buffers it searches are at most 1024 bytes: the window (`SearchStart`) and the buffer from the archive's start (`ParsedBufferFitsWindow`). So every index fits an `int`.
- ParseZipArchive: the offset sum `offset + 46 + n + e + c` is computed without `size_t` wrap-around. The sum is below 2^64 for any buffer that fits in memory.
- ParseZipArchive, Walk: when at least five bytes are left but fewer than 34, the C loop reads the length fields past the end of the buffer. The model instead reports corruption without reading them (see Findings). This is the outcome the C bounds test gives there whatever the out-of-range bytes hold.
- SourceOrderMisreadsEmbeddedArchive, SourceOrderMisreadsZipRecord: stated for one record whose name, extra field and comment are each under 256 bytes. With a longer field, its `ntohs` reading is not simply 256 times the true length, and the outcome depends on the bytes. Several records and longer fields are not covered.
- EmbeddedArchiveIsListed: stated for `ZipOrder`, the order the format prescribes, not for the order the source uses (see Findings). `SourceOrderMisreadsEmbeddedArchive` states what the source's order gives on such a file.
- The window size is the constant 1024, as in the code. It is not made a parameter.

## Findings

| source | as written | input that shows it | evidently intended | confidence | as-written member | corrected member |
|---|---|---|---|---|---|---|
| zipchecker.c:23 | the loop bound `data_len - signature_len` is computed in `size_t` and wraps when the signature is longer than the buffer | a file of 3 bytes: `main` searches it for the 4-byte local-header signature, the bound becomes 2^64 − 1, and `memcmp` reads 4 bytes from a 3-byte buffer | report "not found" without reading the buffer | high; not executed | Signature.SearchBoundWrapsOnShortBuffer | Signature.FindSignature |
| zipchecker.c:75-84 | the loop guard asks only for 5 bytes after the offset, but the body then reads length fields up to offset + 34 | a buffer of `50 4B 01 02 00`: the guard and signature test pass, and the reads at offsets 28-33 lie past its end | check that the 46-byte fixed part is in the buffer before reading it | high; not executed | CentralDirectory.LoopGuardAdmitsShortHeader | CentralDirectory.ShortHeaderIsCorrupt |
| zipchecker.c:82-84 | `ntohs(*(uint16_t *)p)` reads `p[0]` as the high byte on every host, but ZIP stores lengths little-endian | an archive whose one record has a 5-byte name, no extra field and no comment, followed by a 22-byte end-of-central-directory record: the name length field `05 00` reads as 1280, so the record is reported corrupt and nothing is listed | read the fields little-endian, `p[0] + 256 * p[1]` | high; not executed | ZipChecker.SourceOrderMisreadsEmbeddedArchive | ZipChecker.EmbeddedArchiveIsListed |
