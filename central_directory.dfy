/**
 * The central-directory walker of zipchecker.c (`parse_zip_archive`): find
 * the first central-file-header signature, then walk the chain of records
 * (APPNOTE.TXT section 4.3.12), emitting each record's file name, until the
 * chain ends or a record does not fit in the buffer.
 *
 * `Walk` specifies the loop from the record at `offset` on;
 * `ParseZipArchive` is the loop itself.
 * `EncodeRecord` builds records, so that what the walker emits can be
 * compared with what was put in.
 */
module CentralDirectory {
  import opened Bytes
  import opened Wrappers
  import opened Signature

  /** `CENTRAL_DIR_SIGNATURE`: the first four bytes of every central-directory record. */
  const CentralDirSignature: seq<uint8> := [0x50, 0x4B, 0x01, 0x02]

  /** Size of the fixed part of a central-directory record. */
  const HeaderSize: nat := 46

  /** Offsets, inside a record, of its three 16-bit length fields. */
  const NameLengthAt: nat := 28
  const ExtraLengthAt: nat := 30
  const CommentLengthAt: nat := 32

  /** A file name as raw bytes: the format fixes no text encoding. */
  type Name = seq<uint8>

  /** The three lengths a central-directory record declares for its variable part. */
  datatype Header = Header(nameLength: nat, extraLength: nat, commentLength: nat) {
    /** Bytes from the record's signature to the end of its comment. */
    function RecordSize(): nat {
      HeaderSize + nameLength + extraLength + commentLength
    }
  }

  /** The lengths declared by the record that starts at `data[offset]`, read in `order`. */
  function HeaderAt(data: seq<uint8>, offset: nat, order: ByteOrder): (h: Header)
    requires offset + HeaderSize <= |data|
    ensures h.nameLength < 0x1_0000 && h.extraLength < 0x1_0000 && h.commentLength < 0x1_0000
  {
    Header(ReadU16(data, offset + NameLengthAt, order),
           ReadU16(data, offset + ExtraLengthAt, order),
           ReadU16(data, offset + CommentLengthAt, order))
  }

  /**
   * What a scan reports. `Listed` is a walk that ended quietly; `Corrupt`
   * is a walk aborted by a record that does not fit, and carries the names
   * already emitted before the abort. `NoZip` only comes from the search for
   * the local-file-header signature in the host file.
   */
  datatype Report = NoZip | NoCentralDir | Listed(names: seq<Name>) | Corrupt(emitted: seq<Name>) {
    /** The names printed, in order. */
    function Emitted(): seq<Name> {
      match this
      case Listed(ns) => ns
      case Corrupt(ns) => ns
      case _ => []
    }
  }

  /** `r` with `names` printed before it. */
  function Prepended(names: seq<Name>, r: Report): (p: Report)
    ensures p.Listed? == r.Listed? && p.Corrupt? == r.Corrupt?
  {
    match r
    case Listed(ns) => Listed(names + ns)
    case Corrupt(ns) => Corrupt(names + ns)
    case _ => r
  }

  /** What is printed before a walk comes first among the names it reports. */
  lemma PrependedEmits(names: seq<Name>, r: Report)
    requires r.Listed? || r.Corrupt?
    ensures Prepended(names, r).Emitted() == names + r.Emitted()
  {
  }

  lemma PrependedNothing(r: Report)
    ensures Prepended([], r) == r
  {
    match r
    case Listed(ns) => assert [] + ns == ns;
    case Corrupt(ns) => assert [] + ns == ns;
    case _ =>
  }

  lemma PrependedTwice(a: seq<Name>, b: seq<Name>, r: Report)
    ensures Prepended(a, Prepended(b, r)) == Prepended(a + b, r)
  {
    match r
    case Listed(ns) => assert a + (b + ns) == (a + b) + ns;
    case Corrupt(ns) => assert a + (b + ns) == (a + b) + ns;
    case _ =>
  }

  /**
   * The walk stops quietly at `offset`: at most four bytes are left, or they
   * are not the central-directory signature. The loop goes on only at a
   * match of the signature with at least one byte after it.
   */
  predicate EndOfDirectory(data: seq<uint8>, offset: nat): (r: bool)
    ensures !r ==> offset + |CentralDirSignature| < |data| && MatchesAt(data, offset, CentralDirSignature)
  {
    offset + |CentralDirSignature| >= |data|
    || data[offset..offset + |CentralDirSignature|] != CentralDirSignature
  }

  /** A record starts at `offset` but does not fit in the buffer. */
  predicate TruncatedRecord(data: seq<uint8>, offset: nat, order: ByteOrder): (r: bool)
    ensures r ==> offset + |CentralDirSignature| < |data| && MatchesAt(data, offset, CentralDirSignature)
  {
    && !EndOfDirectory(data, offset)
    && (offset + HeaderSize > |data| || offset + HeaderAt(data, offset, order).RecordSize() > |data|)
  }

  /**
   * The loop of `parse_zip_archive` from the record at `offset`: stop
   * quietly at the end of the chain; abort when the record does not fit;
   * otherwise emit the name and go on right after the comment.
   */
  function Walk(data: seq<uint8>, offset: nat, order: ByteOrder): (r: Report)
    decreases |data| - offset
    ensures r.Listed? || r.Corrupt?
  {
    if EndOfDirectory(data, offset) then Listed([])
    else if offset + HeaderSize > |data| then Corrupt([])
    else
      var h := HeaderAt(data, offset, order);
      var next := offset + h.RecordSize();
      if next > |data| then Corrupt([])
      else Prepended([data[offset + HeaderSize..offset + HeaderSize + h.nameLength]], Walk(data, next, order))
  }

  /** At the end of the chain the walk stops quietly and emits nothing more. */
  lemma WalkEnds(data: seq<uint8>, offset: nat, order: ByteOrder)
    requires EndOfDirectory(data, offset)
    ensures Walk(data, offset, order) == Listed([])
  {
  }

  /** A record that does not fit aborts the walk, which emits nothing more. */
  lemma WalkAborts(data: seq<uint8>, offset: nat, order: ByteOrder)
    requires TruncatedRecord(data, offset, order)
    ensures Walk(data, offset, order) == Corrupt([])
  {
  }

  /**
   * One pass of the loop body at `offset`, with the lengths read as the body
   * reads them: a record that fits emits its name and the walk goes on at
   * the next record.
   */
  lemma WalkEmits(data: seq<uint8>, offset: nat, order: ByteOrder, nameLength: nat, next: nat)
    requires offset + |CentralDirSignature| < |data|
    requires data[offset..offset + |CentralDirSignature|] == CentralDirSignature
    requires offset + HeaderSize <= |data|
    requires nameLength == ReadU16(data, offset + NameLengthAt, order)
    requires next == offset + HeaderSize + nameLength + ReadU16(data, offset + ExtraLengthAt, order)
                       + ReadU16(data, offset + CommentLengthAt, order)
    requires next <= |data|
    ensures Walk(data, offset, order)
         == Prepended([data[offset + HeaderSize..offset + HeaderSize + nameLength]], Walk(data, next, order))
  {
    var h := HeaderAt(data, offset, order);
    assert h.nameLength == nameLength && offset + h.RecordSize() == next;
    WalkStep(data, offset, order);
  }

  lemma WalkStep(data: seq<uint8>, offset: nat, order: ByteOrder)
    requires !EndOfDirectory(data, offset) && offset + HeaderSize <= |data|
    requires offset + HeaderAt(data, offset, order).RecordSize() <= |data|
    ensures Walk(data, offset, order)
         == Prepended([data[offset + HeaderSize..offset + HeaderSize + HeaderAt(data, offset, order).nameLength]],
                      Walk(data, offset + HeaderAt(data, offset, order).RecordSize(), order))
  {
  }

  /** Every emitted name takes a whole fixed header of the buffer. */
  lemma {:induction false} WalkNameCountBound(data: seq<uint8>, offset: nat, order: ByteOrder)
    requires offset <= |data|
    decreases |data| - offset
    ensures |Walk(data, offset, order).Emitted()| * HeaderSize <= |data| - offset
  {
    if EndOfDirectory(data, offset) {
      WalkEnds(data, offset, order);
    } else if offset + HeaderSize > |data| {
      WalkAborts(data, offset, order);
    } else {
      var nameLength := ReadU16(data, offset + NameLengthAt, order);
      var next := offset + HeaderAt(data, offset, order).RecordSize();
      if next <= |data| {
        WalkEmits(data, offset, order, nameLength, next);
        WalkNameCountBound(data, next, order);
      } else {
        WalkAborts(data, offset, order);
      }
    }
  }

  /** `parse_zip_archive` as a function of the buffer. */
  function Parse(data: seq<uint8>, order: ByteOrder): (r: Report)
    ensures !r.NoZip?
  {
    match FirstMatch(data, CentralDirSignature)
    case None => NoCentralDir
    case Some(p) => Walk(data, p, order)
  }

  /** "No central directory" exactly when the buffer holds no central-directory signature. */
  lemma ParseFindsNoDirectory(data: seq<uint8>, order: ByteOrder)
    ensures Parse(data, order).NoCentralDir? <==> forall j: nat :: !MatchesAt(data, j, CentralDirSignature)
  {
    FirstMatchSpec(data, CentralDirSignature);
  }

  /** `parse_zip_archive` prints at most one name per 46 bytes of its buffer. */
  lemma NameCountBound(data: seq<uint8>, order: ByteOrder)
    ensures |Parse(data, order).Emitted()| <= |data| / HeaderSize
  {
    match FirstMatch(data, CentralDirSignature)
    case None =>
    case Some(p) =>
      WalkNameCountBound(data, p, order);
  }

  /**
   * `parse_zip_archive`: the names it prints, in order, and how it ends.
   * Unlike the C loop, which reads the three length fields as soon as five
   * bytes are left, the fields are read only once the whole fixed part of
   * the record is known to be in the buffer.
   */
  method ParseZipArchive(data: seq<uint8>, order: ByteOrder) returns (r: Report)
    ensures r == Parse(data, order)
  {
    var found := FindSignature(data, CentralDirSignature);
    if found.None? {
      return NoCentralDir;
    }
    var start := found.value;
    var offset := start;
    var names: seq<Name> := [];
    PrependedNothing(Walk(data, start, order));
    while offset + |CentralDirSignature| < |data|
      invariant start <= offset <= |data|
      invariant Walk(data, start, order) == Prepended(names, Walk(data, offset, order))
      decreases |data| - offset
    {
      if data[offset..offset + |CentralDirSignature|] != CentralDirSignature {
        return Listed(names);
      }
      if offset + HeaderSize > |data| {
        return Corrupt(names);
      }
      var nameLength := ReadU16(data, offset + NameLengthAt, order);
      var extraLength := ReadU16(data, offset + ExtraLengthAt, order);
      var commentLength := ReadU16(data, offset + CommentLengthAt, order);
      var next: nat := offset + HeaderSize + nameLength + extraLength + commentLength;
      if next > |data| {
        return Corrupt(names);
      }
      var name := data[offset + HeaderSize..offset + HeaderSize + nameLength];
      WalkEmits(data, offset, order, nameLength, next);
      PrependedTwice(names, [name], Walk(data, next, order));
      names, offset := names + [name], next;
    }
    return Listed(names);
  }

  // Building records: the other side of the walk.

  /** Bytes of the fixed part other than the signature and the three lengths. */
  const OtherFieldsSize: nat := 36

  /**
   * A central-directory record as a value: the 36 fixed-part bytes the walker
   * skips (versions, flags, method, times, CRC, sizes, disk number,
   * attributes, local-header offset), then the file name, the extra field and
   * the comment.
   */
  datatype Entry = Entry(otherFields: seq<uint8>, name: Name, extra: seq<uint8>, comment: seq<uint8>)

  /** An entry whose fields fit the record layout: each length fits 16 bits. */
  predicate Encodable(e: Entry) {
    && |e.otherFields| == OtherFieldsSize
    && |e.name| < 0x1_0000 && |e.extra| < 0x1_0000 && |e.comment| < 0x1_0000
  }

  /** The bytes of the record for `e`, its lengths stored in `order`. */
  function EncodeRecord(e: Entry, order: ByteOrder): (b: seq<uint8>)
    requires Encodable(e)
    ensures |b| == HeaderSize + |e.name| + |e.extra| + |e.comment|
  {
    CentralDirSignature + e.otherFields[..24]
    + WriteU16(|e.name|, order) + WriteU16(|e.extra|, order) + WriteU16(|e.comment|, order)
    + e.otherFields[24..] + e.name + e.extra + e.comment
  }

  /**
   * The record for `e` has the layout the walker reads: the signature, the
   * three lengths at their offsets, and the name right after the fixed part.
   */
  lemma EncodeRecordLayout(e: Entry, order: ByteOrder)
    requires Encodable(e)
    ensures EncodeRecord(e, order)[..|CentralDirSignature|] == CentralDirSignature
    ensures EncodeRecord(e, order)[NameLengthAt..NameLengthAt + 2] == WriteU16(|e.name|, order)
    ensures EncodeRecord(e, order)[ExtraLengthAt..ExtraLengthAt + 2] == WriteU16(|e.extra|, order)
    ensures EncodeRecord(e, order)[CommentLengthAt..CommentLengthAt + 2] == WriteU16(|e.comment|, order)
    ensures EncodeRecord(e, order)[HeaderSize..HeaderSize + |e.name|] == e.name
  {
  }

  predicate AllEncodable(es: seq<Entry>) {
    forall i :: 0 <= i < |es| ==> Encodable(es[i])
  }

  /** The records for `es`, one after the other. */
  function EncodeAll(es: seq<Entry>, order: ByteOrder): (b: seq<uint8>)
    requires AllEncodable(es)
    ensures es != [] ==> |b| >= HeaderSize
  {
    if es == [] then []
    else EncodeRecord(es[0], order) + EncodeAll(es[1..], order)
  }

  /** A non-empty run of records starts with the central-directory signature. */
  lemma EncodeAllStartsWithSignature(es: seq<Entry>, order: ByteOrder)
    requires AllEncodable(es) && es != []
    ensures EncodeAll(es, order)[..|CentralDirSignature|] == CentralDirSignature
  {
    var first := EncodeRecord(es[0], order);
    EncodeRecordLayout(es[0], order);
    assert EncodeAll(es, order)[..|CentralDirSignature|] == first[..|CentralDirSignature|];
  }

  /** The file names of `es`, in order. */
  function NamesOf(es: seq<Entry>): (names: seq<Name>)
    ensures |names| == |es|
    ensures forall i :: 0 <= i < |es| ==> names[i] == es[i].name
  {
    if es == [] then [] else [es[0].name] + NamesOf(es[1..])
  }

  /** A run of one record is that record, and lists its one name. */
  lemma OneRecord(e: Entry, order: ByteOrder)
    requires Encodable(e)
    ensures EncodeAll([e], order) == EncodeRecord(e, order)
    ensures NamesOf([e]) == [e.name]
  {
    assert EncodeAll([e], order) == EncodeRecord(e, order) + [];
  }

  /** A non-empty run of records is its first record, then the run of the others. */
  lemma EncodeAllSplit(es: seq<Entry>, order: ByteOrder)
    requires AllEncodable(es) && es != []
    ensures AllEncodable(es[1..])
    ensures EncodeAll(es, order) == EncodeRecord(es[0], order) + EncodeAll(es[1..], order)
    ensures NamesOf(es) == [es[0].name] + NamesOf(es[1..])
  {
    forall i | 0 <= i < |es[1..]| ensures Encodable(es[1..][i]) {
      assert es[1..][i] == es[i + 1];
    }
  }

  /**
   * The record for `e` fills `data[offset..end]`: reading it back as the
   * walker does gives the signature, the three lengths of `e`, and its name.
   */
  lemma ReadEncodedRecord(data: seq<uint8>, offset: nat, end: nat, e: Entry, order: ByteOrder)
    requires Encodable(e)
    requires end == offset + |EncodeRecord(e, order)| <= |data|
    requires data[offset..end] == EncodeRecord(e, order)
    ensures offset + HeaderSize <= end
    ensures data[offset..offset + |CentralDirSignature|] == CentralDirSignature
    ensures ReadU16(data, offset + NameLengthAt, order) == |e.name|
    ensures ReadU16(data, offset + ExtraLengthAt, order) == |e.extra|
    ensures ReadU16(data, offset + CommentLengthAt, order) == |e.comment|
    ensures end == offset + HeaderSize + |e.name| + |e.extra| + |e.comment|
    ensures data[offset + HeaderSize..offset + HeaderSize + |e.name|] == e.name
  {
    EncodeRecordLayout(e, order);
    SliceOfSlice(data, offset, end, 0, |CentralDirSignature|);
    SliceOfSlice(data, offset, end, NameLengthAt, NameLengthAt + 2);
    SliceOfSlice(data, offset, end, ExtraLengthAt, ExtraLengthAt + 2);
    SliceOfSlice(data, offset, end, CommentLengthAt, CommentLengthAt + 2);
    SliceOfSlice(data, offset, end, HeaderSize, HeaderSize + |e.name|);
    ReadWrittenU16(data, offset + NameLengthAt, |e.name|, order);
    ReadWrittenU16(data, offset + ExtraLengthAt, |e.extra|, order);
    ReadWrittenU16(data, offset + CommentLengthAt, |e.comment|, order);
  }

  /** The record for `e` fills `data[offset..end]`: the walk emits its name and goes on at `end`. */
  lemma WalkRecord(data: seq<uint8>, offset: nat, end: nat, e: Entry, order: ByteOrder)
    requires Encodable(e)
    requires end == offset + |EncodeRecord(e, order)| <= |data|
    requires data[offset..end] == EncodeRecord(e, order)
    ensures Walk(data, offset, order) == Prepended([e.name], Walk(data, end, order))
  {
    ReadEncodedRecord(data, offset, end, e, order);
    assert offset + |CentralDirSignature| < |data| && offset + HeaderSize <= |data|;
    assert data[offset..offset + |CentralDirSignature|] == CentralDirSignature;
    assert |e.name| == ReadU16(data, offset + NameLengthAt, order);
    assert end == offset + HeaderSize + |e.name| + ReadU16(data, offset + ExtraLengthAt, order)
                  + ReadU16(data, offset + CommentLengthAt, order);
    assert end <= |data|;
    WalkEmits(data, offset, order, |e.name|, end);
    assert [data[offset + HeaderSize..offset + HeaderSize + |e.name|]] == [e.name];
  }

  /**
   * The records for `es` fill `data[offset..end]`: the walk emits their
   * names, in order, and goes on at `end`.
   */
  lemma {:induction false} WalkEncoded(data: seq<uint8>, offset: nat, end: nat, es: seq<Entry>, order: ByteOrder)
    requires AllEncodable(es)
    requires end == offset + |EncodeAll(es, order)| <= |data|
    requires data[offset..end] == EncodeAll(es, order)
    decreases |es|
    ensures Walk(data, offset, order) == Prepended(NamesOf(es), Walk(data, end, order))
  {
    if es == [] {
      PrependedNothing(Walk(data, offset, order));
    } else {
      var first := EncodeRecord(es[0], order);
      var rest := EncodeAll(es[1..], order);
      var mid := offset + |first|;
      EncodeAllSplit(es, order);
      SplitSlice(data, offset, mid, end, first, rest);
      WalkRecord(data, offset, mid, es[0], order);
      WalkEncoded(data, mid, end, es[1..], order);
      PrependedTwice([es[0].name], NamesOf(es[1..]), Walk(data, end, order));
    }
  }

  /** Records for `es` and then the end of the chain: the walk lists exactly their names. */
  lemma ListsEveryRecord(data: seq<uint8>, offset: nat, end: nat, es: seq<Entry>, order: ByteOrder)
    requires AllEncodable(es)
    requires end == offset + |EncodeAll(es, order)| <= |data|
    requires data[offset..end] == EncodeAll(es, order)
    requires EndOfDirectory(data, end)
    ensures Walk(data, offset, order) == Listed(NamesOf(es))
  {
    WalkEncoded(data, offset, end, es, order);
    WalkEnds(data, end, order);
    assert NamesOf(es) + [] == NamesOf(es);
  }

  /**
   * Records for `es` and then a record that does not fit: the walk aborts,
   * and the names of `es` have been printed before the abort.
   */
  lemma TruncationKeepsEarlierNames(data: seq<uint8>, offset: nat, end: nat, es: seq<Entry>, order: ByteOrder)
    requires AllEncodable(es)
    requires end == offset + |EncodeAll(es, order)| <= |data|
    requires data[offset..end] == EncodeAll(es, order)
    requires TruncatedRecord(data, end, order)
    ensures Walk(data, offset, order) == Corrupt(NamesOf(es))
  {
    WalkEncoded(data, offset, end, es, order);
    WalkAborts(data, end, order);
    assert NamesOf(es) + [] == NamesOf(es);
  }

  /** The buffer ends inside a record, after its signature: the record does not fit. */
  lemma CutRecordIsTruncated(data: seq<uint8>, offset: nat, e: Entry, k: nat, order: ByteOrder)
    requires Encodable(e)
    requires |CentralDirSignature| < k < |EncodeRecord(e, order)|
    requires offset + k == |data|
    requires data[offset..] == EncodeRecord(e, order)[..k]
    ensures TruncatedRecord(data, offset, order)
  {
    var b := EncodeRecord(e, order);
    EncodeRecordLayout(e, order);
    SliceOfPrefix(data, offset, b, k, 0, |CentralDirSignature|);
    if offset + HeaderSize <= |data| {
      SliceOfPrefix(data, offset, b, k, NameLengthAt, NameLengthAt + 2);
      SliceOfPrefix(data, offset, b, k, ExtraLengthAt, ExtraLengthAt + 2);
      SliceOfPrefix(data, offset, b, k, CommentLengthAt, CommentLengthAt + 2);
      ReadWrittenU16(data, offset + NameLengthAt, |e.name|, order);
      ReadWrittenU16(data, offset + ExtraLengthAt, |e.extra|, order);
      ReadWrittenU16(data, offset + CommentLengthAt, |e.comment|, order);
      assert HeaderAt(data, offset, order).RecordSize() == |b|;
    }
  }

  /** Whether the chain ends at the start of `tail` does not depend on what comes before it. */
  lemma EndOfDirectoryAfter(front: seq<uint8>, tail: seq<uint8>)
    ensures EndOfDirectory(front + tail, |front|) == EndOfDirectory(tail, 0)
  {
    var data := front + tail;
    if |front| + |CentralDirSignature| < |data| {
      assert data[|front|..|front| + |CentralDirSignature|] == tail[0..|CentralDirSignature|];
    }
  }

  /** A signature right after a `lead` holding none: the directory starts there. */
  lemma DirectoryStartsAfterLead(lead: seq<uint8>, records: seq<uint8>, tail: seq<uint8>)
    requires |records| >= |CentralDirSignature| && records[..|CentralDirSignature|] == CentralDirSignature
    requires forall j: nat :: j < |lead| ==> !MatchesAt(lead + records + tail, j, CentralDirSignature)
    ensures FirstMatch(lead + records + tail, CentralDirSignature) == Some(|lead|)
  {
    var data := lead + records + tail;
    assert data[|lead|..|lead| + |CentralDirSignature|] == records[..|CentralDirSignature|];
    FirstMatchIsLowest(data, CentralDirSignature, |lead|);
  }

  /**
   * The first central-directory signature is at `start`, the records for
   * `es` fill `data[start..end]` and the chain ends at `end`:
   * `parse_zip_archive` lists exactly the names of `es`.
   */
  lemma ParseListsRecords(data: seq<uint8>, start: nat, end: nat, es: seq<Entry>, order: ByteOrder)
    requires FirstMatch(data, CentralDirSignature) == Some(start)
    requires AllEncodable(es)
    requires end == start + |EncodeAll(es, order)| <= |data|
    requires data[start..end] == EncodeAll(es, order)
    requires EndOfDirectory(data, end)
    ensures Parse(data, order) == Listed(NamesOf(es))
  {
    ListsEveryRecord(data, start, end, es, order);
  }

  /**
   * The first central-directory signature is at `start`, the records for
   * `es` fill `data[start..end]` and a record that does not fit starts at
   * `end`: `parse_zip_archive` prints the names of `es`, then reports the
   * archive corrupt.
   */
  lemma ParseTruncatedAfterRecords(data: seq<uint8>, start: nat, end: nat, es: seq<Entry>, order: ByteOrder)
    requires FirstMatch(data, CentralDirSignature) == Some(start)
    requires AllEncodable(es)
    requires end == start + |EncodeAll(es, order)| <= |data|
    requires data[start..end] == EncodeAll(es, order)
    requires TruncatedRecord(data, end, order)
    ensures Parse(data, order) == Corrupt(NamesOf(es))
  {
    TruncationKeepsEarlierNames(data, start, end, es, order);
  }

  /**
   * `lead`, then the records for `es`, then a `tail` at which the chain
   * ends, with no signature starting inside `lead`: `parse_zip_archive`
   * lists exactly the names of `es`.
   */
  lemma ParseListsArchive(lead: seq<uint8>, es: seq<Entry>, tail: seq<uint8>, order: ByteOrder)
    requires AllEncodable(es) && es != []
    requires forall j: nat :: j < |lead| ==> !MatchesAt(lead + EncodeAll(es, order) + tail, j, CentralDirSignature)
    requires EndOfDirectory(tail, 0)
    ensures Parse(lead + EncodeAll(es, order) + tail, order) == Listed(NamesOf(es))
  {
    var records := EncodeAll(es, order);
    EncodeAllStartsWithSignature(es, order);
    DirectoryStartsAfterLead(lead, records, tail);
    MiddleOfThree(lead, records, tail);
    EndOfDirectoryAfter(lead + records, tail);
    ParseListsRecords(lead + records + tail, |lead|, |lead| + |records|, es, order);
  }

  /**
   * The buffer ends inside the record after `es`: the names of `es` are
   * printed and then the archive is reported corrupt.
   */
  lemma ParseReportsCutRecord(lead: seq<uint8>, es: seq<Entry>, e: Entry, k: nat, order: ByteOrder)
    requires AllEncodable(es) && es != [] && Encodable(e)
    requires |CentralDirSignature| < k < |EncodeRecord(e, order)|
    requires forall j: nat :: j < |lead| ==>
               !MatchesAt(lead + EncodeAll(es, order) + EncodeRecord(e, order)[..k], j, CentralDirSignature)
    ensures Parse(lead + EncodeAll(es, order) + EncodeRecord(e, order)[..k], order) == Corrupt(NamesOf(es))
  {
    var records := EncodeAll(es, order);
    var tail := EncodeRecord(e, order)[..k];
    EncodeAllStartsWithSignature(es, order);
    DirectoryStartsAfterLead(lead, records, tail);
    MiddleOfThree(lead, records, tail);
    AfterFront(lead + records, tail);
    CutRecordIsTruncated(lead + records + tail, |lead| + |records|, e, k, order);
    ParseTruncatedAfterRecords(lead + records + tail, |lead|, |lead| + |records|, es, order);
  }

  // The byte order of the length fields.

  /** The total of a record's three variable lengths. */
  function VariableLength(e: Entry): nat {
    |e.name| + |e.extra| + |e.comment|
  }

  /**
   * The record for `e` at `offset`, written in the ZIP format's order, its
   * name, extra field and comment each under 256 bytes and not all empty,
   * and fewer than 255 bytes per byte of them after it. Read in the order
   * `ntohs` gives, each length comes out 256 times too large, so the record
   * does not fit.
   */
  lemma SourceOrderOverrunsZipRecord(data: seq<uint8>, offset: nat, e: Entry)
    requires Encodable(e)
    requires |e.name| < 0x100 && |e.extra| < 0x100 && |e.comment| < 0x100 && 0 < VariableLength(e)
    requires offset + |EncodeRecord(e, ZipOrder)| <= |data|
    requires data[offset..offset + |EncodeRecord(e, ZipOrder)|] == EncodeRecord(e, ZipOrder)
    requires |data| - (offset + |EncodeRecord(e, ZipOrder)|) < 255 * VariableLength(e)
    ensures TruncatedRecord(data, offset, SourceOrder)
  {
    ReadEncodedRecord(data, offset, offset + |EncodeRecord(e, ZipOrder)|, e, ZipOrder);
    ShortLengthReadsSwapped(data, offset + NameLengthAt, |e.name|);
    ShortLengthReadsSwapped(data, offset + ExtraLengthAt, |e.extra|);
    ShortLengthReadsSwapped(data, offset + CommentLengthAt, |e.comment|);
    assert offset + HeaderAt(data, offset, SourceOrder).RecordSize() == offset + HeaderSize + VariableLength(e) * 0x100;
  }

  /**
   * `lead` holding no signature, then a record written in the ZIP format's
   * order, its name, extra field and comment each under 256 bytes and not
   * all empty, then a `tail` at which the chain ends, such as the
   * end-of-central-directory record. Read in the ZIP order, the name is
   * listed. Read in the order `ntohs` gives, the archive is reported corrupt
   * without printing anything, as long as the tail is shorter than 255
   * bytes per byte of the three fields.
   */
  lemma SourceOrderMisreadsZipRecord(lead: seq<uint8>, e: Entry, tail: seq<uint8>)
    requires Encodable(e)
    requires |e.name| < 0x100 && |e.extra| < 0x100 && |e.comment| < 0x100 && 0 < VariableLength(e)
    requires forall j: nat :: j < |lead| ==> !MatchesAt(lead + EncodeRecord(e, ZipOrder) + tail, j, CentralDirSignature)
    requires EndOfDirectory(tail, 0)
    requires |tail| < 255 * VariableLength(e)
    ensures Parse(lead + EncodeRecord(e, ZipOrder) + tail, ZipOrder) == Listed([e.name])
    ensures Parse(lead + EncodeRecord(e, ZipOrder) + tail, SourceOrder) == Corrupt([])
  {
    var rec := EncodeRecord(e, ZipOrder);
    var data := lead + rec + tail;
    OneRecord(e, ZipOrder);
    ParseListsArchive(lead, [e], tail, ZipOrder);
    EncodeRecordLayout(e, ZipOrder);
    DirectoryStartsAfterLead(lead, rec, tail);
    MiddleOfThree(lead, rec, tail);
    SourceOrderOverrunsZipRecord(data, |lead|, e);
    ParseTruncatedAfterRecords(data, |lead|, |lead|, [], SourceOrder);
  }

  // Reading a fixed part that is not all in the buffer.

  /**
   * The loop of `parse_zip_archive` as written: its guard and signature test
   * let it into the body at `offset`, whose reads of the three length fields
   * reach past the end of the buffer.
   */
  predicate ReadsPastEnd(data: seq<uint8>, offset: nat) {
    !EndOfDirectory(data, offset) && offset + CommentLengthAt + 2 > |data|
  }

  /** A lone signature followed by one byte gets into the loop body as written. */
  lemma LoopGuardAdmitsShortHeader()
    ensures ReadsPastEnd(CentralDirSignature + [0], 0)
  {
    assert (CentralDirSignature + [0])[0..|CentralDirSignature|] == CentralDirSignature;
  }

  /**
   * The same lone signature and byte: the walk reports the archive corrupt,
   * the outcome the source's own bounds test gives, without reading the
   * length fields that are not there.
   */
  lemma ShortHeaderIsCorrupt(order: ByteOrder)
    ensures Parse(CentralDirSignature + [0], order) == Corrupt([])
  {
    var data := CentralDirSignature + [0];
    assert data[0..|CentralDirSignature|] == CentralDirSignature;
    FirstMatchIsLowest(data, CentralDirSignature, 0);
    WalkAborts(data, 0, order);
  }
}
