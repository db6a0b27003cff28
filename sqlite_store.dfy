/**
 * TusSqliteStore: the same tus store over a SQLite TusFiles table and an upload directory,
 * without the metadata checks, the commit flag and the cleanup of the SQL Server variant.
 * Every INSERT succeeds (the table has no NOT NULL or width constraints), the final upload
 * needs no metadata, and any stored PartialUploads list makes an upload final.
 */
module SqliteStore {
  import opened Wrappers
  import Text
  import opened UploadCore

  /** CreateFileAsync: an empty blob, then a row with offset 0, the given length, and "" for
      null metadata. */
  function Create(s: Store, uploadLength: int, metadata: Option<string>, fileId: FileId, now: Instant): Store {
    Store(s.files[fileId := NewRecord(uploadLength, metadata.GetOr(""), now)], s.blobs[fileId := []])
  }

  /** CreatePartialFileAsync: CreateFileAsync, then UploadConcat = 'partial'. */
  function CreatePartial(s: Store, uploadLength: int, metadata: Option<string>, fileId: FileId, now: Instant): Store {
    MarkPartial(Create(s, uploadLength, metadata, fileId, now), fileId)
  }

  /** CreateFinalFileAsync: the partial blobs concatenated into a new file, then a row whose
      length and offset are that file's size and whose PartialUploads lists the partials. */
  function CreateFinal(s: Store, partials: seq<FileId>, metadata: Option<string>, fileId: FileId, now: Instant): Store {
    var blob := ConcatExisting(s.blobs, partials);
    Store(s.files[fileId := FinalRecord(None, |blob|, metadata.GetOr(""), now, partials, None, None)],
          s.blobs[fileId := blob])
  }

  /** GetUploadConcatAsync: 'partial' first; otherwise any non-null PartialUploads, split on ','. */
  function UploadConcatOf(s: Store, id: FileId): Option<FileConcat> {
    if id !in s.files then None
    else
      var r := s.files[id];
      if r.uploadConcat == Some("partial") then Some(Partial)
      else if r.partialUploads.Some? then Some(Final(Text.Split(r.partialUploads.value, ',')))
      else None
  }

  /** A created upload exists, is empty, reads back its length and metadata (null as ""), is
      neither partial nor final, has no expiration, and nothing else changes. */
  lemma CreateAddsFile(s: Store, uploadLength: int, metadata: Option<string>, fileId: FileId, now: Instant)
    ensures var t := Create(s, uploadLength, metadata, fileId, now);
      && FileExists(t, fileId)
      && BlobOf(t, fileId) == [] && UploadOffsetOf(t, fileId) == 0
      && UploadLengthOf(t, fileId) == Some(uploadLength)
      && MetadataOf(t, fileId) == (if metadata.Some? then metadata.value else "")
      && ExpirationOf(t, fileId).None? && UploadConcatOf(t, fileId).None?
      && SameElsewhere(s, t, fileId)
      && (Consistent(s) ==> Consistent(t))
  {
    InsertKeeps(s, fileId, NewRecord(uploadLength, metadata.GetOr(""), now), []);
  }

  /** A partial upload reads back as partial, and is otherwise the upload CreateFileAsync makes. */
  lemma PartialReadsBack(s: Store, uploadLength: int, metadata: Option<string>, fileId: FileId, now: Instant)
    ensures var t := CreatePartial(s, uploadLength, metadata, fileId, now);
      && UploadConcatOf(t, fileId) == Some(Partial)
      && FileExists(t, fileId) && BlobOf(t, fileId) == [] && UploadLengthOf(t, fileId) == Some(uploadLength)
      && SameElsewhere(s, t, fileId)
      && (Consistent(s) ==> Consistent(t))
  {
    var c := Create(s, uploadLength, metadata, fileId, now);
    CreateAddsFile(s, uploadLength, metadata, fileId, now);
    MarkPartialKeeps(c, fileId);
    var t := CreatePartial(s, uploadLength, metadata, fileId, now);
    assert t.files - {fileId} == c.files - {fileId};
  }

  /** The final upload holds the partial blobs that exist, in order; its length and offset are
      its size, so it is complete; nothing else changes. */
  lemma FinalRecorded(s: Store, partials: seq<FileId>, metadata: Option<string>, fileId: FileId, now: Instant)
    ensures var t := CreateFinal(s, partials, metadata, fileId, now);
      && FileExists(t, fileId)
      && BlobOf(t, fileId) == ConcatExisting(s.blobs, Present(s.blobs, partials))
      && UploadLengthOf(t, fileId) == Some(|BlobOf(t, fileId)|)
      && UploadOffsetOf(t, fileId) == |BlobOf(t, fileId)|
      && MetadataOf(t, fileId) == (if metadata.Some? then metadata.value else "")
      && SameElsewhere(s, t, fileId)
      && (Consistent(s) ==> Consistent(t))
  {
    var blob := ConcatExisting(s.blobs, partials);
    ConcatSkipsMissing(s.blobs, partials);
    InsertKeeps(s, fileId, FinalRecord(None, |blob|, metadata.GetOr(""), now, partials, None, None), blob);
  }

  /** Concatenation round trip: a final upload of comma-free ids reads back as those ids; an
      empty list is stored as "" and so reads back as one empty id. */
  lemma FinalReadsBack(s: Store, partials: seq<FileId>, metadata: Option<string>, fileId: FileId, now: Instant)
    requires forall i :: 0 <= i < |partials| ==> ',' !in partials[i]
    ensures var t := CreateFinal(s, partials, metadata, fileId, now);
      UploadConcatOf(t, fileId) == Some(Final(if partials == [] then [""] else partials))
  {
    if partials != [] {
      Text.SplitJoin(partials, ',');
    }
  }

  /**
   * The store: the TusFiles table, the upload directory, and the digest functions it computes
   * checksums with. `locked` names the blobs the file system refuses to delete.
   */
  class TusSqliteStore {
    var files: map<FileId, FileRecord>
    var blobs: map<FileId, seq<Byte>>
    const locked: set<FileId>
    const digest: (Algorithm, seq<Byte>) -> seq<Byte>

    /** The 80 KB buffer AppendDataAsync reads through. */
    static const BufferSize: nat := 81920

    function State(): Store
      reads this
    {
      Store(files, blobs)
    }

    /** A store over an empty table and directory. */
    constructor(locked: set<FileId>, digest: (Algorithm, seq<Byte>) -> seq<Byte>)
      ensures files == map[] && blobs == map[]
      ensures this.locked == locked && this.digest == digest
    {
      files := map[];
      blobs := map[];
      this.locked := locked;
      this.digest := digest;
    }

    /** CreateFileAsync, with the fresh GUID and the clock given. */
    method CreateFile(uploadLength: int, metadata: Option<string>, fileId: FileId, now: Instant) returns (r: FileId)
      modifies this
      ensures r == fileId
      ensures State() == Create(old(State()), uploadLength, metadata, fileId, now)
    {
      blobs := blobs[fileId := []];
      var stored := if metadata.Some? then metadata.value else "";
      files := files[fileId := NewRecord(uploadLength, stored, now)];
      return fileId;
    }

    /** AppendDataAsync: the stream read through the buffer and written at the end of the file,
        then the offset raised by the count written. */
    method AppendData(fileId: FileId, stream: seq<Byte>) returns (bytesWritten: int)
      modifies this
      ensures bytesWritten == |stream|
      ensures State() == Append(old(State()), fileId, stream)
    {
      var start := BlobOf(State(), fileId);
      blobs := blobs[fileId := start];
      bytesWritten := 0;
      assert start + stream[..0] == start;
      while bytesWritten < |stream|
        invariant 0 <= bytesWritten <= |stream|
        invariant files == old(files)
        invariant blobs == old(blobs)[fileId := start + stream[..bytesWritten]]
        decreases |stream| - bytesWritten
      {
        var bytesRead := if |stream| - bytesWritten < BufferSize then |stream| - bytesWritten else BufferSize;
        assert start + stream[..bytesWritten + bytesRead]
            == (start + stream[..bytesWritten]) + stream[bytesWritten..bytesWritten + bytesRead];
        blobs := blobs[fileId := blobs[fileId] + stream[bytesWritten..bytesWritten + bytesRead]];
        bytesWritten := bytesWritten + bytesRead;
      }
      assert stream[..bytesWritten] == stream;
      if fileId in files {
        files := files[fileId := files[fileId].(uploadOffset := files[fileId].uploadOffset + bytesWritten)];
      }
    }

    /** DeleteFileAsync: the file if it exists (File.Delete may throw), then the row. */
    method DeleteFile(fileId: FileId) returns (r: Result<()>)
      modifies this
      ensures match Delete(old(State()), fileId, locked)
        case Ok(t) => r.Ok? && State() == t
        case Err(e) => r == Err(e) && State() == old(State())
    {
      if fileId in blobs {
        if fileId in locked {
          return Err(IO);
        }
        blobs := blobs - {fileId};
      }
      files := files - {fileId};
      return Ok(());
    }

    /** VerifyChecksumAsync. */
    method VerifyChecksum(fileId: FileId, algorithm: string, checksum: seq<Byte>) returns (r: bool)
      ensures r == ChecksumMatches(State(), fileId, algorithm, checksum, digest)
    {
      if fileId !in blobs {
        return false;
      }
      var fileHash;
      match AlgorithmNamed(algorithm) {
        case None => return false;
        case Some(a) => fileHash := digest(a, blobs[fileId]);
      }
      return checksum == fileHash;
    }

    /** SetExpirationAsync. */
    method SetExpiration(fileId: FileId, expires: Instant)
      modifies this
      ensures State() == UploadCore.SetExpiration(old(State()), fileId, expires)
    {
      if fileId in files {
        files := files[fileId := files[fileId].(expiresAt := Some(expires))];
      }
    }

    /** SetUploadLengthAsync. */
    method SetUploadLength(fileId: FileId, uploadLength: int)
      modifies this
      ensures State() == UploadCore.SetUploadLength(old(State()), fileId, uploadLength)
    {
      if fileId in files {
        files := files[fileId := files[fileId].(uploadLength := Some(uploadLength))];
      }
    }

    /** GetExpiredFilesAsync: the reader loop collecting the ids the SELECT returns. */
    method GetExpiredFiles(now: Instant) returns (ids: seq<FileId>)
      ensures Elements(ids) == ExpiredIds(files, now) && Distinct(ids)
    {
      ids := SelectWhere(files, r => IsExpired(r, now));
    }

    /** The foreach of RemoveExpiredFilesAsync: DeleteFileAsync per id and a count. */
    method DeleteEachFile(ids: seq<FileId>) returns (r: Result<int>)
      modifies this
      ensures State() == DeleteEach(old(State()), ids, locked).0
      ensures r.Ok? <==> DeleteEach(old(State()), ids, locked).1.None?
      ensures r.Ok? ==> r.value == |ids|
      ensures r.Err? ==> Some(r.error) == DeleteEach(old(State()), ids, locked).1
    {
      var count := 0;
      for i := 0 to |ids|
        invariant count == i
        invariant DeleteEach(State(), ids[i..], locked) == DeleteEach(old(State()), ids, locked)
      {
        assert ids[i..][0] == ids[i] && ids[i..][1..] == ids[i + 1..];
        var deleted := DeleteFile(ids[i]);
        if deleted.Err? {
          return Err(deleted.error);
        }
        count := count + 1;
      }
      assert ids[|ids|..] == [];
      return Ok(count);
    }

    /** RemoveExpiredFilesAsync: exactly the expired files go, and their number is returned,
        unless a locked blob stops the sweep part-way. */
    method RemoveExpiredFiles(now: Instant) returns (r: Result<int>)
      modifies this
      ensures SweptExactly(old(State()), State(), ExpiredIds(old(files), now), locked, r)
    {
      var expiredFiles := GetExpiredFiles(now);
      r := DeleteEachFile(expiredFiles);
      Swept(old(State()), expiredFiles, locked, State(), r);
    }

    /** CreatePartialFileAsync. */
    method CreatePartialFile(uploadLength: int, metadata: Option<string>, fileId: FileId, now: Instant)
      returns (r: FileId)
      modifies this
      ensures r == fileId
      ensures State() == CreatePartial(old(State()), uploadLength, metadata, fileId, now)
    {
      r := CreateFile(uploadLength, metadata, fileId, now);
      if r in files {
        files := files[r := files[r].(uploadConcat := Some("partial"))];
      }
    }

    /** CreateFinalFileAsync: the concatenation loop, then the INSERT. */
    method CreateFinalFile(partialFiles: seq<FileId>, metadata: Option<string>, fileId: FileId, now: Instant)
      returns (r: FileId)
      requires fileId !in partialFiles
      modifies this
      ensures r == fileId
      ensures State() == CreateFinal(old(State()), partialFiles, metadata, fileId, now)
    {
      blobs := blobs[fileId := []];
      for i := 0 to |partialFiles|
        invariant files == old(files)
        invariant blobs == old(blobs)[fileId := ConcatExisting(old(blobs), partialFiles[..i])]
      {
        ConcatStep(old(blobs), partialFiles, i);
        assert partialFiles[i] != fileId;
        if partialFiles[i] in blobs {
          blobs := blobs[fileId := blobs[fileId] + blobs[partialFiles[i]]];
        } else {
          assert ConcatExisting(old(blobs), partialFiles[..i]) + [] == ConcatExisting(old(blobs), partialFiles[..i]);
        }
      }
      assert partialFiles[..|partialFiles|] == partialFiles;
      var totalLength := |blobs[fileId]|;
      var stored := if metadata.Some? then metadata.value else "";
      files := files[fileId := FinalRecord(None, totalLength, stored, now, partialFiles, None, None)];
      return fileId;
    }
  }
}
