/**
 * The part of `main` in zipchecker.c that places the archive in the file:
 * look for a local-file-header signature in the last `MaxHeaderSize` bytes,
 * then hand everything from that signature to the end of the file to
 * `parse_zip_archive`. Reading the file and the exit status are left out;
 * the file is its contents.
 */
module ZipChecker {
  import opened Bytes
  import opened Wrappers
  import opened Signature
  import opened CentralDirectory

  /** `ZIP_SIGNATURE`: the first four bytes of a local file header. */
  const LocalFileSignature: seq<uint8> := [0x50, 0x4B, 0x03, 0x04]

  /** `MAX_HEADER_SIZE`: how many bytes at the end of the file are searched. */
  const MaxHeaderSize: nat := 1024

  /** `search_start`: the window is the last 1024 bytes, or the whole of a smaller file. */
  function SearchStart(fileSize: nat): (s: nat)
    ensures s <= fileSize
    ensures fileSize - s == if fileSize < MaxHeaderSize then fileSize else MaxHeaderSize
  {
    if fileSize > MaxHeaderSize then fileSize - MaxHeaderSize else 0
  }

  /**
   * `search_start + zip_start`: where in the file the archive starts, that
   * is the first local-file-header signature inside the window, if any.
   */
  function ArchiveStart(file: seq<uint8>): (r: Option<nat>)
    ensures r.Some? ==> SearchStart(|file|) <= r.value && r.value + |LocalFileSignature| <= |file|
  {
    var s := SearchStart(|file|);
    OffsetBy(FirstMatch(file[s..], LocalFileSignature), s)
  }

  /** `ArchiveStart` is the search of the window, shifted by the window's start. */
  lemma ArchiveStartSearchesWindow(file: seq<uint8>)
    ensures ArchiveStart(file) == OffsetBy(FirstMatch(file[SearchStart(|file|)..], LocalFileSignature), SearchStart(|file|))
  {
  }

  /** The archive starts at the first local-file-header signature at or after the window's start. */
  lemma ArchiveStartIsFirstInWindow(file: seq<uint8>)
    ensures ArchiveStart(file) == FirstMatchFrom(file, LocalFileSignature, SearchStart(|file|))
  {
    FirstMatchInSuffix(file, LocalFileSignature, SearchStart(|file|));
  }

  /**
   * What zipchecker prints for `file`, with the length fields read in
   * `order`: no archive in the window, or the report of `parse_zip_archive`
   * on the file from the archive's start. `Check(file, SourceOrder)` is the
   * program as written, except that a file under four bytes gives `NoZip`
   * where the C search reads past it, and a record cut before its length
   * fields is reported corrupt without reading them; `Check(file, ZipOrder)`
   * reads the fields as the format stores them.
   */
  function Check(file: seq<uint8>, order: ByteOrder): (r: Report)
    ensures r.NoZip? <==> ArchiveStart(file).None?
  {
    match ArchiveStart(file)
    case None => NoZip
    case Some(a) => Parse(file[a..], order)
  }

  /** With an archive found at `a`, what is printed is the walk of the file from `a` on. */
  lemma CheckParsesArchive(file: seq<uint8>, a: nat, order: ByteOrder)
    requires ArchiveStart(file) == Some(a)
    ensures a <= |file| && Check(file, order) == Parse(file[a..], order)
  {
  }

  /**
   * "No archive" exactly when the window holds no local-file-header
   * signature; "no central directory" exactly when there is an archive and
   * no central-directory signature from its start on.
   */
  lemma CheckOutcomes(file: seq<uint8>, order: ByteOrder)
    ensures Check(file, order).NoZip? <==> forall j: nat :: SearchStart(|file|) <= j ==> !MatchesAt(file, j, LocalFileSignature)
    ensures Check(file, order).NoCentralDir? <==>
              (ArchiveStart(file).Some?
               && forall j: nat :: !MatchesAt(file[ArchiveStart(file).value..], j, CentralDirSignature))
  {
    ArchiveStartIsFirstInWindow(file);
    FirstMatchFromSpec(file, LocalFileSignature, SearchStart(|file|));
    if ArchiveStart(file).Some? {
      ParseFindsNoDirectory(file[ArchiveStart(file).value..], order);
    }
  }

  /** The search and the walk of `main`, as the C code runs them on the file's contents. */
  method ScanFile(file: seq<uint8>, order: ByteOrder) returns (r: Report)
    ensures r == Check(file, order)
  {
    var start := SearchStart(|file|);
    var found := FindSignature(file[start..], LocalFileSignature);
    ArchiveStartSearchesWindow(file);
    if found.None? {
      return NoZip;
    }
    var archive := start + found.value;
    CheckParsesArchive(file, archive, order);
    r := ParseZipArchive(file[archive..], order);
  }

  /** `parse_zip_archive` is given at most the last 1024 bytes of the file. */
  lemma ParsedBufferFitsWindow(file: seq<uint8>)
    requires ArchiveStart(file).Some?
    ensures |file[ArchiveStart(file).value..]| <= MaxHeaderSize
  {
    ArchiveStartIsFirstInWindow(file);
  }

  /** Bytes in front of a file of at least 1024 bytes move the archive's start and nothing else. */
  lemma ArchiveStartAfterFront(front: seq<uint8>, file: seq<uint8>)
    requires |file| >= MaxHeaderSize
    ensures ArchiveStart(file).None? ==> ArchiveStart(front + file).None?
    ensures ArchiveStart(file).Some? ==> ArchiveStart(front + file) == Some(|front| + ArchiveStart(file).value)
  {
    var s := SearchStart(|file|);
    assert SearchStart(|front + file|) == |front| + s;
    assert (front + file)[|front| + s..] == file[s..];
  }

  /** Only the last 1024 bytes of a file decide what is printed: bytes before them change nothing. */
  lemma OnlyLastWindowMatters(front: seq<uint8>, file: seq<uint8>, order: ByteOrder)
    requires |file| >= MaxHeaderSize
    ensures Check(front + file, order) == Check(file, order)
  {
    ArchiveStartAfterFront(front, file);
    if ArchiveStart(file).Some? {
      var a := ArchiveStart(file).value;
      CheckParsesArchive(file, a, order);
      CheckParsesArchive(front + file, |front| + a, order);
      SuffixAfterFront(front, file, a);
    }
  }

  /**
   * `filler`, then an archive of at most 1024 bytes that starts with a
   * local-file-header signature, and no such signature in the window before
   * it: the archive is found where it starts.
   */
  lemma ArchiveFoundAfterFiller(filler: seq<uint8>, archive: seq<uint8>)
    requires |LocalFileSignature| <= |archive| <= MaxHeaderSize
    requires archive[..|LocalFileSignature|] == LocalFileSignature
    requires forall j: nat :: SearchStart(|filler + archive|) <= j < |filler| ==>
               !MatchesAt(filler + archive, j, LocalFileSignature)
    ensures ArchiveStart(filler + archive) == Some(|filler|)
  {
    var file := filler + archive;
    MiddleOfThree(filler, archive[..|LocalFileSignature|], archive[|LocalFileSignature|..]);
    assert archive[..|LocalFileSignature|] + archive[|LocalFileSignature|..] == archive;
    FirstMatchFromIsLowest(file, LocalFileSignature, SearchStart(|file|), |filler|);
    ArchiveStartIsFirstInWindow(file);
  }

  /**
   * A file made of `filler`, then an archive of at most 1024 bytes: a local
   * header, the central-directory records for `es` written as the format
   * prescribes, and a `tail` at which the chain ends. With no
   * local-file-header signature in the window before the archive and no
   * central-directory signature inside the local header, every name of `es`
   * is listed, in order, when the lengths are read in the format's order.
   */
  lemma EmbeddedArchiveIsListed(filler: seq<uint8>, local: seq<uint8>, es: seq<Entry>, tail: seq<uint8>)
    requires AllEncodable(es) && es != []
    requires |LocalFileSignature| <= |local| && local[..|LocalFileSignature|] == LocalFileSignature
    requires |local| + |EncodeAll(es, ZipOrder)| + |tail| <= MaxHeaderSize
    requires forall j: nat :: SearchStart(|filler + (local + EncodeAll(es, ZipOrder) + tail)|) <= j < |filler| ==>
               !MatchesAt(filler + (local + EncodeAll(es, ZipOrder) + tail), j, LocalFileSignature)
    requires forall j: nat :: j < |local| ==> !MatchesAt(local + EncodeAll(es, ZipOrder) + tail, j, CentralDirSignature)
    requires EndOfDirectory(tail, 0)
    ensures Check(filler + (local + EncodeAll(es, ZipOrder) + tail), ZipOrder) == Listed(NamesOf(es))
  {
    var archive := local + EncodeAll(es, ZipOrder) + tail;
    assert archive[..|LocalFileSignature|] == LocalFileSignature;
    ArchiveFoundAfterFiller(filler, archive);
    CheckParsesArchive(filler + archive, |filler|, ZipOrder);
    AfterFront(filler, archive);
    ParseListsArchive(local, es, tail, ZipOrder);
  }

  /**
   * The same kind of file with one record, whose name, extra field and
   * comment are each under 256 bytes and not all empty, and a `tail` shorter
   * than 255 bytes per byte of those three fields. Read in the format's
   * order the name is listed; `main` as written reads each length 256 times
   * too large and reports the archive corrupt without printing anything.
   */
  lemma SourceOrderMisreadsEmbeddedArchive(filler: seq<uint8>, local: seq<uint8>, e: Entry, tail: seq<uint8>)
    requires Encodable(e)
    requires |e.name| < 0x100 && |e.extra| < 0x100 && |e.comment| < 0x100 && 0 < VariableLength(e)
    requires |LocalFileSignature| <= |local| && local[..|LocalFileSignature|] == LocalFileSignature
    requires |local| + |EncodeRecord(e, ZipOrder)| + |tail| <= MaxHeaderSize
    requires forall j: nat :: SearchStart(|filler + (local + EncodeRecord(e, ZipOrder) + tail)|) <= j < |filler| ==>
               !MatchesAt(filler + (local + EncodeRecord(e, ZipOrder) + tail), j, LocalFileSignature)
    requires forall j: nat :: j < |local| ==> !MatchesAt(local + EncodeRecord(e, ZipOrder) + tail, j, CentralDirSignature)
    requires EndOfDirectory(tail, 0)
    requires |tail| < 255 * VariableLength(e)
    ensures Check(filler + (local + EncodeRecord(e, ZipOrder) + tail), ZipOrder) == Listed([e.name])
    ensures Check(filler + (local + EncodeRecord(e, ZipOrder) + tail), SourceOrder) == Corrupt([])
  {
    var archive := local + EncodeRecord(e, ZipOrder) + tail;
    assert archive[..|LocalFileSignature|] == LocalFileSignature;
    ArchiveFoundAfterFiller(filler, archive);
    CheckParsesArchive(filler + archive, |filler|, ZipOrder);
    CheckParsesArchive(filler + archive, |filler|, SourceOrder);
    AfterFront(filler, archive);
    SourceOrderMisreadsZipRecord(local, e, tail);
  }
}
