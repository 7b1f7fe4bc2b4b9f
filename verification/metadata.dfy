/**
 * The metadata journal of one date directory: the `FileMetadata` record and
 * what `writeMetadata` does to `metadata.json`.
 */
module Metadata {
  import opened Wrappers

  /** A `time.Time` as it survives the JSON round trip: nanoseconds since the epoch. */
  type Instant = int

  /** One recycled file or directory. */
  datatype FileMetadata = FileMetadata(
    originalPath: string,
    originalName: string,
    currentName: string,
    fileSize: int,
    deletedAt: Instant,
    fileType: string)

  /**
   * The text of a `metadata.json` file as the journal code sees it: the JSON
   * literal `null` (how Go encodes a nil slice), an array of records, or text
   * that does not parse as JSON.
   */
  datatype JournalDoc = Null | Array(entries: seq<FileMetadata>) | Malformed

  /** `json.Unmarshal` into a `[]FileMetadata`. */
  function Decode(doc: JournalDoc): Option<seq<FileMetadata>>
  {
    match doc
    case Null => Some([])
    case Array(entries) => Some(entries)
    case Malformed => None
  }

  /**
   * `json.MarshalIndent` of a slice built by `append` from a nil slice: an
   * empty one is still nil and is written as `null`.
   */
  function Encode(entries: seq<FileMetadata>): (doc: JournalDoc)
    ensures Decode(doc) == Some(entries)
    ensures entries == [] <==> doc == Null
  {
    if entries == [] then Null else Array(entries)
  }

  /** The two events of `updateMetadata`'s key: same original path, same deletion time. */
  predicate SameEvent(a: FileMetadata, b: FileMetadata)
  {
    a.originalPath == b.originalPath && a.deletedAt == b.deletedAt
  }

  /** The entries `writeMetadata` appends to: none when the file is absent or does not decode. */
  function Existing(file: Option<JournalDoc>): seq<FileMetadata>
  {
    match file
    case None => []
    case Some(doc) => match Decode(doc) case Some(entries) => entries case None => []
  }

  datatype JournalError = ReadError | WriteError

  /** The journal file after `writeMetadata` (`None`: no file) and the error it returns. */
  datatype WriteOutcome = WriteOutcome(file: Option<JournalDoc>, err: Option<JournalError>)

  /**
   * `writeMetadata`: an existing file is read (a read error is returned and
   * nothing is written), decoded with the decode error ignored, and rewritten
   * whole with the new entry appended; `writeOk` is the outcome of the write.
   */
  function JournalWrite(file: Option<JournalDoc>, entry: FileMetadata, readOk: bool, writeOk: bool): (r: WriteOutcome)
    ensures r.err.None? <==> (file.None? || readOk) && writeOk
    ensures r.err.Some? ==> r.file == file
    ensures r.err.None? ==> r.file.Some? && Decode(r.file.value) == Some(Existing(file) + [entry])
  {
    if file.Some? && !readOk then WriteOutcome(file, Some(ReadError))
    else if !writeOk then WriteOutcome(file, Some(WriteError))
    else WriteOutcome(Some(Encode(Existing(file) + [entry])), None)
  }

  /** With no journal file, a successful write creates one holding just the entry. */
  lemma WriteCreatesJournal(entry: FileMetadata, readOk: bool)
    ensures JournalWrite(None, entry, readOk, true) == WriteOutcome(Some(Array([entry])), None)
  {
    assert [] + [entry] == [entry];
  }

  /** A decodable journal grows by exactly the new entry at its end; earlier entries keep their order. */
  lemma WriteAppends(doc: JournalDoc, entry: FileMetadata)
    requires Decode(doc).Some?
    ensures var r := JournalWrite(Some(doc), entry, true, true);
      r.err.None? && r.file.Some? &&
      var after := Decode(r.file.value).value;
      var before := Decode(doc).value;
      |after| == |before| + 1 && after[..|before|] == before && after[|before|] == entry
  {
  }

  /** A read error leaves the file as it was and is reported. */
  lemma ReadErrorKeepsJournal(doc: JournalDoc, entry: FileMetadata, writeOk: bool)
    ensures JournalWrite(Some(doc), entry, false, writeOk) == WriteOutcome(Some(doc), Some(ReadError))
  {
  }

  /** The ignored decode error: a journal that does not parse is replaced by one holding only the new entry. */
  lemma MalformedJournalOverwritten(entry: FileMetadata)
    ensures JournalWrite(Some(Malformed), entry, true, true).file == Some(Array([entry]))
  {
    assert [] + [entry] == [entry];
  }

  /** A journal emptied to `null` decodes as empty, so the next append starts a one-entry journal. */
  lemma AppendAfterEmptied(entry: FileMetadata)
    ensures Encode([]) == Null
    ensures JournalWrite(Some(Encode([])), entry, true, true).file == Some(Array([entry]))
  {
    assert [] + [entry] == [entry];
  }
}
