/**
 * The state both tus stores keep and the transitions they share.
 *
 * A store is a table of upload records keyed by file id (the TusFiles table) and an upload
 * directory holding one blob per file id. Both stores run the same statements against them
 * for append, delete, defer-length, expiration and checksum; the functions here are those
 * statements as transitions on a `Store` value, and the lemmas state what the tus protocol
 * relies on: the stored offset is the number of bytes received, delete is idempotent, commit
 * is one-way, the sweeps remove exactly the selected rows, and concatenation keeps order.
 */
module UploadCore {
  import opened Wrappers
  import Text
  import Base64

  type Byte = Base64.Byte

  /** A file id: Guid.NewGuid().ToString("N") for the ids the stores create. */
  type FileId = string

  /** A UTC instant as DateTime.Ticks: 100-nanosecond intervals since 0001-01-01. */
  type Instant = int

  /** One row of TusFiles. Columns a store does not have stay None. */
  datatype FileRecord = FileRecord(
    fileName: Option<string>,
    uploadLength: Option<int>,
    uploadOffset: int,
    metadata: string,
    createdAt: Instant,
    expiresAt: Option<Instant>,
    uploadConcat: Option<string>,
    partialUploads: Option<string>,
    uploadId: Option<string>,
    zoneId: Option<string>,
    appId: Option<string>,
    isCommitted: bool)

  /** The TusFiles table and the upload directory. */
  datatype Store = Store(files: map<FileId, FileRecord>, blobs: map<FileId, seq<Byte>>)

  /** A fresh row as both CreateFileAsync INSERTs write it: offset 0, not committed. */
  function NewRecord(uploadLength: int, metadata: string, now: Instant): (r: FileRecord)
    ensures r.uploadOffset == 0 && r.uploadLength == Some(uploadLength) && !r.isCommitted
    ensures r.expiresAt.None? && r.uploadConcat.None? && r.partialUploads.None?
  {
    FileRecord(None, Some(uploadLength), 0, metadata, now, None, None, None, None, None, None, false)
  }

  /** Every row has a blob, and its UploadOffset is the number of bytes in that blob. */
  predicate Consistent(s: Store) {
    forall id :: id in s.files ==> id in s.blobs && s.files[id].uploadOffset == |s.blobs[id]|
  }

  /** Nothing but the entries for id differ between s and t. */
  predicate SameElsewhere(s: Store, t: Store, id: FileId) {
    s.files - {id} == t.files - {id} && s.blobs - {id} == t.blobs - {id}
  }

  /** No committed row becomes uncommitted. */
  predicate KeepsCommitted(s: Store, t: Store) {
    forall id :: id in s.files && id in t.files && s.files[id].isCommitted ==> t.files[id].isCommitted
  }

  /** An INSERT of a row together with its blob touches only that id, and keeps the store
      consistent when the row's offset is the blob's size. */
  lemma InsertKeeps(s: Store, id: FileId, row: FileRecord, blob: seq<Byte>)
    ensures var t := Store(s.files[id := row], s.blobs[id := blob]);
      && SameElsewhere(s, t, id)
      && (Consistent(s) && row.uploadOffset == |blob| ==> Consistent(t))
  {
    var t := Store(s.files[id := row], s.blobs[id := blob]);
    assert t.files - {id} == s.files - {id};
    assert t.blobs - {id} == s.blobs - {id};
  }

  // ---------------------------------------------------------------- reads

  /** FileExistAsync: a row with that id and a blob with that name. */
  predicate FileExists(s: Store, id: FileId) {
    id in s.files && id in s.blobs
  }

  /** GetUploadLengthAsync: null for an unknown id or an unset length. */
  function UploadLengthOf(s: Store, id: FileId): Option<int> {
    if id in s.files then s.files[id].uploadLength else None
  }

  /** GetUploadOffsetAsync: 0 for an unknown id. */
  function UploadOffsetOf(s: Store, id: FileId): int {
    if id in s.files then s.files[id].uploadOffset else 0
  }

  /** GetUploadMetadataAsync: "" for an unknown id. */
  function MetadataOf(s: Store, id: FileId): string {
    if id in s.files then s.files[id].metadata else ""
  }

  /** GetExpirationAsync: null for an unknown id or an unset expiry. */
  function ExpirationOf(s: Store, id: FileId): Option<Instant> {
    if id in s.files then s.files[id].expiresAt else None
  }

  /** The blob, or nothing when the file does not exist on disk. */
  function BlobOf(s: Store, id: FileId): seq<Byte> {
    if id in s.blobs then s.blobs[id] else []
  }

  // ---------------------------------------------------------------- append

  /**
   * AppendDataAsync: the file is opened with FileMode.Append, which creates it when absent,
   * the bytes are written at its end, and the UPDATE raises UploadOffset by the count written;
   * the UPDATE touches no row for an unknown id. The declared UploadLength is not consulted.
   */
  function Append(s: Store, id: FileId, data: seq<Byte>): Store {
    var files :=
      if id in s.files then s.files[id := s.files[id].(uploadOffset := s.files[id].uploadOffset + |data|)]
      else s.files;
    Store(files, s.blobs[id := BlobOf(s, id) + data])
  }

  /** Resuming: the blob grows by exactly the data, the offset keeps counting the blob's bytes,
      the length is left as declared (even when exceeded), and nothing else changes. */
  lemma AppendResumes(s: Store, id: FileId, data: seq<Byte>)
    requires Consistent(s)
    ensures var t := Append(s, id, data);
      && Consistent(t)
      && id in t.blobs && t.blobs[id] == BlobOf(s, id) + data
      && UploadOffsetOf(t, id) == (if id in s.files then UploadOffsetOf(s, id) + |data| else 0)
      && (id in t.files <==> id in s.files)
      && UploadLengthOf(t, id) == UploadLengthOf(s, id)
      && SameElsewhere(s, t, id)
      && KeepsCommitted(s, t)
  {
    var t := Append(s, id, data);
    assert t.files - {id} == s.files - {id};
    assert t.blobs - {id} == s.blobs - {id};
  }

  /** The stream is consumed in chunks; how it is chunked does not matter. */
  lemma {:induction false} AppendInChunks(s: Store, id: FileId, a: seq<Byte>, b: seq<Byte>)
    ensures Append(Append(s, id, a), id, b) == Append(s, id, a + b)
  {
    var t := Append(s, id, a);
    assert BlobOf(t, id) == BlobOf(s, id) + a;
    assert BlobOf(s, id) + a + b == BlobOf(s, id) + (a + b);
    if id in s.files {
      assert t.files[id].uploadOffset == s.files[id].uploadOffset + |a|;
    }
  }

  // ---------------------------------------------------------------- delete

  /**
   * DeleteFileAsync: the blob is deleted when it exists, then the row. File.Delete throws
   * IOException for a file another process holds open: `locked` names those files, and the
   * exception leaves both blob and row in place.
   */
  function Delete(s: Store, id: FileId, locked: set<FileId>): Result<Store> {
    if id in s.blobs && id in locked then Err(IO)
    else Ok(Store(s.files - {id}, s.blobs - {id}))
  }

  /** Delete fails only on a locked blob; otherwise it removes exactly that id's row and blob,
      so the file no longer exists, and deleting again changes nothing. */
  lemma DeleteRemovesOnlyId(s: Store, id: FileId, locked: set<FileId>)
    ensures Delete(s, id, locked).Err? <==> id in s.blobs && id in locked
    ensures Delete(s, id, locked).Ok? ==>
      var t := Delete(s, id, locked).value;
      && !FileExists(t, id) && id !in t.files && id !in t.blobs
      && SameElsewhere(s, t, id)
      && Delete(t, id, locked) == Ok(t)
      && (Consistent(s) ==> Consistent(t))
      && KeepsCommitted(s, t)
  {
    if Delete(s, id, locked).Ok? {
      var t := Delete(s, id, locked).value;
      assert t.files - {id} == s.files - {id};
      assert t.blobs - {id} == s.blobs - {id};
      assert t.files - {id} == t.files && t.blobs - {id} == t.blobs;
    }
  }

  /** Deleting an id that has neither row nor blob is a no-op. */
  lemma DeleteUnknown(s: Store, id: FileId, locked: set<FileId>)
    requires id !in s.files && id !in s.blobs
    ensures Delete(s, id, locked) == Ok(s)
  {
    assert s.files - {id} == s.files && s.blobs - {id} == s.blobs;
  }

  // ---------------------------------------------------------------- single-column updates

  /** SetUploadLengthAsync: overwrites UploadLength, with no once-only check; no row, no change. */
  function SetUploadLength(s: Store, id: FileId, uploadLength: int): Store {
    if id in s.files then Store(s.files[id := s.files[id].(uploadLength := Some(uploadLength))], s.blobs)
    else s
  }

  /** SetExpirationAsync: overwrites ExpiresAt; no row, no change. */
  function SetExpiration(s: Store, id: FileId, expires: Instant): Store {
    if id in s.files then Store(s.files[id := s.files[id].(expiresAt := Some(expires))], s.blobs)
    else s
  }

  /** CommitFileAsync: IsCommitted = 1; no row, no change. */
  function Commit(s: Store, id: FileId): Store {
    if id in s.files then Store(s.files[id := s.files[id].(isCommitted := true)], s.blobs)
    else s
  }

  /** The UPDATE of CreatePartialFileAsync: UploadConcat = 'partial'. */
  function MarkPartial(s: Store, id: FileId): Store {
    if id in s.files then Store(s.files[id := s.files[id].(uploadConcat := Some("partial"))], s.blobs)
    else s
  }

  /** Defer-length: the last length set is the one read back, earlier ones are simply overwritten,
      the offset, metadata and expiry stay, and every other file is untouched. */
  lemma SetUploadLengthOverwrites(s: Store, id: FileId, a: int, b: int)
    ensures UploadLengthOf(SetUploadLength(s, id, a), id) == (if id in s.files then Some(a) else None)
    ensures SetUploadLength(SetUploadLength(s, id, a), id, b) == SetUploadLength(s, id, b)
    ensures var t := SetUploadLength(s, id, a);
      && t.files.Keys == s.files.Keys && t.blobs == s.blobs
      && UploadOffsetOf(t, id) == UploadOffsetOf(s, id)
      && MetadataOf(t, id) == MetadataOf(s, id)
      && ExpirationOf(t, id) == ExpirationOf(s, id)
      && SameElsewhere(s, t, id)
      && (Consistent(s) ==> Consistent(t))
      && KeepsCommitted(s, t)
  {
    var t := SetUploadLength(s, id, a);
    assert t.files - {id} == s.files - {id};
  }

  /** Expiration round trip: GetExpiration returns the instant last set, or null for an unknown id;
      nothing else is changed. */
  lemma ExpirationRoundTrip(s: Store, id: FileId, a: Instant, b: Instant)
    ensures ExpirationOf(SetExpiration(s, id, a), id) == (if id in s.files then Some(a) else None)
    ensures ExpirationOf(SetExpiration(SetExpiration(s, id, a), id, b), id) == ExpirationOf(SetExpiration(s, id, b), id)
    ensures var t := SetExpiration(s, id, a);
      && t.files.Keys == s.files.Keys && t.blobs == s.blobs
      && UploadOffsetOf(t, id) == UploadOffsetOf(s, id)
      && UploadLengthOf(t, id) == UploadLengthOf(s, id)
      && SameElsewhere(s, t, id)
      && (Consistent(s) ==> Consistent(t))
      && KeepsCommitted(s, t)
  {
    var t := SetExpiration(s, id, a);
    assert t.files - {id} == s.files - {id};
  }

  /** Commit is one-way: it sets IsCommitted, is idempotent, and changes no other column or row. */
  lemma CommitIsOneWay(s: Store, id: FileId)
    ensures var t := Commit(s, id);
      && (id in s.files ==> t.files[id].isCommitted)
      && Commit(t, id) == t
      && t.files.Keys == s.files.Keys && t.blobs == s.blobs
      && (id in s.files ==> t.files[id].(isCommitted := s.files[id].isCommitted) == s.files[id])
      && SameElsewhere(s, t, id)
      && (Consistent(s) ==> Consistent(t))
      && KeepsCommitted(s, t)
  {
    var t := Commit(s, id);
    assert t.files - {id} == s.files - {id};
    if id in s.files {
      assert t.files[id := t.files[id].(isCommitted := true)] == t.files;
    }
  }

  /** Marking a row partial changes only its UploadConcat. */
  lemma MarkPartialKeeps(s: Store, id: FileId)
    ensures var t := MarkPartial(s, id);
      && (id in s.files ==> t.files[id].uploadConcat == Some("partial"))
      && t.files.Keys == s.files.Keys && t.blobs == s.blobs
      && SameElsewhere(s, t, id)
      && (Consistent(s) ==> Consistent(t))
      && KeepsCommitted(s, t)
  {
    var t := MarkPartial(s, id);
    assert t.files - {id} == s.files - {id};
  }

  // ---------------------------------------------------------------- checksum

  datatype Algorithm = Sha1 | Sha256 | Md5

  /** GetSupportedAlgorithmsAsync. */
  const SupportedAlgorithms: seq<string> := ["sha1", "sha256", "md5"]

  /** The switch of VerifyChecksumAsync on algorithm.ToLowerInvariant(). */
  function AlgorithmNamed(algorithm: string): Option<Algorithm> {
    var name := Text.ToLowerAscii(algorithm);
    if name == "sha1" then Some(Sha1)
    else if name == "sha256" then Some(Sha256)
    else if name == "md5" then Some(Md5)
    else None
  }

  /** A name is recognised exactly when its lower-case form is one of the supported names. */
  lemma AlgorithmNamedSupported(algorithm: string)
    ensures AlgorithmNamed(algorithm).Some? <==> Text.ToLowerAscii(algorithm) in SupportedAlgorithms
    ensures Text.ToLowerAscii(algorithm) == "sha256" ==> AlgorithmNamed(algorithm) == Some(Sha256)
  {
  }

  /** Case is ignored: "SHA256", "Sha256" and "sha256" name the same algorithm. */
  lemma {:induction false} AlgorithmNameIgnoresCase(algorithm: string)
    ensures AlgorithmNamed(Text.ToLowerAscii(algorithm)) == AlgorithmNamed(algorithm)
  {
    LowerIdempotent(algorithm);
  }

  lemma {:induction false} LowerIdempotent(s: string)
    ensures Text.ToLowerAscii(Text.ToLowerAscii(s)) == Text.ToLowerAscii(s)
  {
    var l := Text.ToLowerAscii(s);
    assert forall i :: 0 <= i < |l| ==> Text.AsciiLower(l[i]) == l[i];
  }

  /**
   * VerifyChecksumAsync: false when the blob is missing or the algorithm is not supported;
   * otherwise whether the checksum equals the digest of the whole blob. `digest` stands for
   * SHA1/SHA256/MD5.ComputeHash.
   */
  function ChecksumMatches(s: Store, id: FileId, algorithm: string, checksum: seq<Byte>,
                           digest: (Algorithm, seq<Byte>) -> seq<Byte>): bool
  {
    id in s.blobs &&
    match AlgorithmNamed(algorithm)
    case None => false
    case Some(a) => checksum == digest(a, s.blobs[id])
  }

  /** The checksum is accepted exactly when the blob exists, the algorithm is one of
      sha1/sha256/md5 in any case, and the checksum is that algorithm's digest of the blob. */
  lemma ChecksumAccepted(s: Store, id: FileId, algorithm: string, checksum: seq<Byte>,
                         digest: (Algorithm, seq<Byte>) -> seq<Byte>)
    ensures ChecksumMatches(s, id, algorithm, checksum, digest) <==>
      && id in s.blobs
      && Text.ToLowerAscii(algorithm) in SupportedAlgorithms
      && checksum == digest(AlgorithmNamed(algorithm).value, s.blobs[id])
  {
    AlgorithmNamedSupported(algorithm);
  }

  // ---------------------------------------------------------------- sweeps

  /** ExpiresAt IS NOT NULL AND ExpiresAt < @Now. */
  predicate IsExpired(r: FileRecord, now: Instant) {
    r.expiresAt.Some? && r.expiresAt.value < now
  }

  function ExpiredIds(files: map<FileId, FileRecord>, now: Instant): set<FileId> {
    set id | id in files && IsExpired(files[id], now)
  }

  /**
   * A SELECT FileId ... WHERE keep: every matching id once, in an order the database chooses
   * (here: whatever order the loop picks them in).
   */
  method SelectWhere(files: map<FileId, FileRecord>, keep: FileRecord -> bool) returns (ids: seq<FileId>)
    ensures forall id :: id in ids <==> id in files && keep(files[id])
    ensures Distinct(ids)
  {
    ids := [];
    var rows := files.Keys;
    while rows != {}
      invariant rows <= files.Keys
      invariant forall id :: id in ids <==> id in files && id !in rows && keep(files[id])
      invariant Distinct(ids)
      decreases rows
    {
      var id :| id in rows;
      if keep(files[id]) {
        ids := ids + [id];
      }
      rows := rows - {id};
    }
  }

  predicate Distinct(ids: seq<FileId>) {
    forall i, j :: 0 <= i < j < |ids| ==> ids[i] != ids[j]
  }

  function Elements(ids: seq<FileId>): set<FileId> {
    set id | id in ids
  }

  /** A list without repeats has as many entries as its set of elements. */
  lemma {:induction false} DistinctCount(ids: seq<FileId>)
    requires Distinct(ids)
    ensures |Elements(ids)| == |ids|
  {
    if ids != [] {
      DistinctCount(ids[1..]);
      assert Elements(ids) == {ids[0]} + Elements(ids[1..]);
      assert ids[0] !in Elements(ids[1..]);
    }
  }

  /** The rows and blobs of the ids in gone, removed. */
  function Removed(s: Store, gone: set<FileId>): Store {
    Store(s.files - gone, s.blobs - gone)
  }

  /** Some id of the list has a blob the file system refuses to delete. */
  predicate Blocked(s: Store, ids: seq<FileId>, locked: set<FileId>) {
    Elements(ids) * s.blobs.Keys * locked != {}
  }

  /**
   * The loop of RemoveExpiredFilesAsync and CleanupUncommittedFilesAsync: DeleteFileAsync for
   * each id in turn, with no per-file error handling, so the first exception ends the sweep and
   * the deletions before it stay. The result is the state reached and the exception, if any.
   */
  function DeleteEach(s: Store, ids: seq<FileId>, locked: set<FileId>): (Store, Option<Exception>)
    decreases |ids|
  {
    if ids == [] then (s, None)
    else match Delete(s, ids[0], locked)
      case Err(e) => (s, Some(e))
      case Ok(t) => DeleteEach(t, ids[1..], locked)
  }

  /** A sweep removes exactly the listed rows and blobs unless one of them is locked, in which
      case it stops with IOException after removing a prefix of the list. */
  lemma DeleteEachRemoves(s: Store, ids: seq<FileId>, locked: set<FileId>)
    ensures var (t, e) := DeleteEach(s, ids, locked);
      && (e.None? <==> !Blocked(s, ids, locked))
      && (e.None? ==> t == Removed(s, Elements(ids)))
      && (e.Some? ==> e.value == IO && exists k :: 0 <= k < |ids| && t == Removed(s, Elements(ids[..k])))
  {
    if Blocked(s, ids, locked) {
      var k := DeleteEachStops(s, ids, locked);
    } else {
      DeleteEachCompletes(s, ids, locked);
    }
  }

  lemma {:induction false} DeleteEachCompletes(s: Store, ids: seq<FileId>, locked: set<FileId>)
    requires !Blocked(s, ids, locked)
    ensures DeleteEach(s, ids, locked) == (Removed(s, Elements(ids)), None)
    decreases |ids|
  {
    if ids == [] {
      assert Elements(ids) == {};
      assert Removed(s, {}) == s;
    } else {
      var id := ids[0];
      var t := Removed(s, {id});
      ElementsCons(ids);
      assert (id in s.blobs && id in locked) ==> id in Elements(ids) * s.blobs.Keys * locked;
      BlockedStep(s, ids, locked);
      assert Delete(s, id, locked) == Ok(t);
      DeleteEachCompletes(t, ids[1..], locked);
      RemovedTwice(s, id, Elements(ids[1..]));
    }
  }

  lemma {:induction false} DeleteEachStops(s: Store, ids: seq<FileId>, locked: set<FileId>) returns (k: nat)
    requires Blocked(s, ids, locked)
    ensures k < |ids| && DeleteEach(s, ids, locked) == (Removed(s, Elements(ids[..k])), Some(IO))
    decreases |ids|
  {
    var id := ids[0];
    ElementsCons(ids);
    if id in s.blobs && id in locked {
      k := 0;
      assert Elements(ids[..0]) == {};
      assert Removed(s, {}) == s;
    } else {
      var t := Removed(s, {id});
      BlockedStep(s, ids, locked);
      assert Delete(s, id, locked) == Ok(t);
      var j := DeleteEachStops(t, ids[1..], locked);
      k := j + 1;
      assert ids[..k] == [id] + ids[1..][..j];
      ElementsCons(ids[..k]);
      RemovedTwice(s, id, Elements(ids[1..][..j]));
    }
  }

  lemma ElementsCons(ids: seq<FileId>)
    requires ids != []
    ensures Elements(ids) == {ids[0]} + Elements(ids[1..])
  {
    assert ids == [ids[0]] + ids[1..];
  }

  lemma BlockedStep(s: Store, ids: seq<FileId>, locked: set<FileId>)
    requires ids != [] && !(ids[0] in s.blobs && ids[0] in locked)
    ensures Blocked(s, ids, locked) <==> Blocked(Removed(s, {ids[0]}), ids[1..], locked)
  {
    ElementsCons(ids);
    var t := Removed(s, {ids[0]});
    assert Elements(ids) * s.blobs.Keys * locked == Elements(ids[1..]) * t.blobs.Keys * locked;
  }

  lemma RemovedTwice(s: Store, id: FileId, gone: set<FileId>)
    ensures Removed(Removed(s, {id}), gone) == Removed(s, {id} + gone)
  {
  }

  /** Removing rows and blobs keeps the offsets matching their blobs and touches no commit flag. */
  lemma RemovedKeeps(s: Store, gone: set<FileId>)
    ensures Consistent(s) ==> Consistent(Removed(s, gone))
    ensures KeepsCommitted(s, Removed(s, gone))
    ensures forall id :: id in gone ==> !FileExists(Removed(s, gone), id)
  {
  }

  /** Sweeping the expired files leaves unset and future expiries in place. */
  lemma ExpiredSweepSpares(s: Store, now: Instant)
    ensures forall id :: id in Removed(s, ExpiredIds(s.files, now)).files <==>
      id in s.files && !IsExpired(s.files[id], now)
  {
  }

  /**
   * A sweep of the ids in `selected` from s to t with outcome r: it succeeds exactly when none of
   * their blobs is locked, and then has removed exactly those rows and blobs and counted them;
   * otherwise it fails with IOException having removed some of them and nothing else.
   */
  predicate SweptExactly(s: Store, t: Store, selected: set<FileId>, locked: set<FileId>, r: Result<int>) {
    && (r.Ok? <==> selected * s.blobs.Keys * locked == {})
    && (r.Ok? ==> r.value == |selected| && t == Removed(s, selected))
    && (r.Err? ==> r.error == IO && exists gone :: gone <= selected && t == Removed(s, gone))
  }

  /** What the deletion loop's outcome means for a sweep over a list without repeats. */
  lemma Swept(s: Store, ids: seq<FileId>, locked: set<FileId>, t: Store, r: Result<int>)
    requires Distinct(ids)
    requires t == DeleteEach(s, ids, locked).0
    requires r.Ok? <==> DeleteEach(s, ids, locked).1.None?
    requires r.Ok? ==> r.value == |ids|
    requires r.Err? ==> Some(r.error) == DeleteEach(s, ids, locked).1
    ensures SweptExactly(s, t, Elements(ids), locked, r)
  {
    DeleteEachRemoves(s, ids, locked);
    DistinctCount(ids);
    if r.Err? {
      var k :| 0 <= k < |ids| && t == Removed(s, Elements(ids[..k]));
      assert Elements(ids[..k]) <= Elements(ids);
    }
  }

  // ---------------------------------------------------------------- concatenation

  /** The final blob of CreateFinalFileAsync: the partial blobs in the given order, each missing
      one skipped. */
  function ConcatExisting(blobs: map<FileId, seq<Byte>>, ids: seq<FileId>): seq<Byte>
    decreases |ids|
  {
    if ids == [] then []
    else (if ids[0] in blobs then blobs[ids[0]] else []) + ConcatExisting(blobs, ids[1..])
  }

  /** Concatenation distributes over splitting the list: the order of the partials is kept. */
  lemma {:induction false} ConcatAppend(blobs: map<FileId, seq<Byte>>, a: seq<FileId>, b: seq<FileId>)
    ensures ConcatExisting(blobs, a + b) == ConcatExisting(blobs, a) + ConcatExisting(blobs, b)
    decreases |a|
  {
    if a == [] {
      assert a + b == b;
    } else {
      ConcatAppend(blobs, a[1..], b);
      assert (a + b)[0] == a[0] && (a + b)[1..] == a[1..] + b;
      var head := if a[0] in blobs then blobs[a[0]] else [];
      assert ConcatExisting(blobs, a + b) == head + ConcatExisting(blobs, a[1..] + b);
      assert ConcatExisting(blobs, a) == head + ConcatExisting(blobs, a[1..]);
    }
  }

  /** The ids present, in order. */
  function Present(blobs: map<FileId, seq<Byte>>, ids: seq<FileId>): (r: seq<FileId>)
    ensures forall id :: id in r <==> id in ids && id in blobs
    decreases |ids|
  {
    if ids == [] then []
    else (if ids[0] in blobs then [ids[0]] else []) + Present(blobs, ids[1..])
  }

  /** Missing partials contribute nothing: the result is the same as for the present ones only. */
  lemma {:induction false} ConcatSkipsMissing(blobs: map<FileId, seq<Byte>>, ids: seq<FileId>)
    ensures ConcatExisting(blobs, ids) == ConcatExisting(blobs, Present(blobs, ids))
    decreases |ids|
  {
    if ids != [] {
      ConcatSkipsMissing(blobs, ids[1..]);
      var head := if ids[0] in blobs then [ids[0]] else [];
      ConcatAppend(blobs, head, Present(blobs, ids[1..]));
      if ids[0] in blobs {
        assert ConcatExisting(blobs, head) == blobs[ids[0]];
      }
    }
  }

  /** One blob added to a list of present partials: its bytes follow the others. */
  lemma ConcatStep(blobs: map<FileId, seq<Byte>>, ids: seq<FileId>, i: nat)
    requires i < |ids|
    ensures ConcatExisting(blobs, ids[..i + 1]) ==
      ConcatExisting(blobs, ids[..i]) + (if ids[i] in blobs then blobs[ids[i]] else [])
  {
    assert ids[..i + 1] == ids[..i] + [ids[i]];
    ConcatAppend(blobs, ids[..i], [ids[i]]);
  }

  /** Concatenation only reads the listed blobs. */
  lemma {:induction false} ConcatReadsListed(a: map<FileId, seq<Byte>>, b: map<FileId, seq<Byte>>, ids: seq<FileId>)
    requires forall id :: id in ids ==> (id in a <==> id in b) && (id in a ==> a[id] == b[id])
    ensures ConcatExisting(a, ids) == ConcatExisting(b, ids)
    decreases |ids|
  {
    if ids != [] {
      ConcatReadsListed(a, b, ids[1..]);
    }
  }

  /** What GetUploadConcatAsync reports. */
  datatype FileConcat = Partial | Final(files: seq<FileId>)

  /** The record CreateFinalFileAsync writes: length and offset both the final blob's size. */
  function FinalRecord(fileName: Option<string>, total: int, metadata: string, now: Instant,
                       partials: seq<FileId>, zoneId: Option<string>, appId: Option<string>): (r: FileRecord)
    ensures r.uploadLength == Some(r.uploadOffset)
    ensures r.partialUploads == Some(Text.Join(",", partials))
  {
    FileRecord(fileName, Some(total), total, metadata, now, None, None, Some(Text.Join(",", partials)),
      None, zoneId, appId, false)
  }
}
