/**
 * TusSqlServerStore: the tus store of the uploads API. On top of the shared transitions it
 * validates the Upload-Metadata of a new upload (secret, encrypted application id, zone id,
 * upload id), keeps those values in their own NVARCHAR(50) columns, marks files committed,
 * sweeps uncommitted files, lists the files of an upload session and reports file details.
 */
module SqlServerStore {
  import opened Wrappers
  import Text
  import TusMetadata
  import opened UploadCore
  import DateTime

  /** IUnifyEncryption.Decrypt(cipherText, secret); a failure is its exception. */
  type Decryptor = (string, string) -> Result<string>

  /** The message of SQL Server error 8152. */
  const Truncated: string := "String or binary data would be truncated"
  /** The message of SQL Server error 515 for the FileName column. */
  const NullFileName: string := "Cannot insert the value NULL into column 'FileName'"
  /** The message of SQL Server error 8115 for CAST(... AS INT). */
  const IntOverflow: string := "Arithmetic overflow error converting expression to data type int"

  /** The width of the FileName, ZoneId, AppId and UploadId columns. */
  const ColumnWidth: nat := 50


  function Decrypt(decrypt: Decryptor, cipherText: string, secret: string): Result<string> {
    decrypt(cipherText, secret)
  }

  /** ArgumentException.ThrowIfNullOrEmpty(value), naming the argument. */
  function RequireNonEmpty(value: Option<string>, paramName: string): (r: Result<string>)
    ensures r.Ok? <==> value.Some? && value.value != []
    ensures r.Ok? ==> r.value == value.value
    ensures r.Err? ==> r.error == (if value.None? then ArgumentNull(paramName) else ArgumentEmpty(paramName))
  {
    match value
    case None => Err(ArgumentNull(paramName))
    case Some(v) => if v == [] then Err(ArgumentEmpty(paramName)) else Ok(v)
  }

  /** The values CreateFileAsync writes to their own columns. */
  datatype Columns = Columns(appId: string, zoneId: string, uploadId: string, fileName: string)

  /**
   * The checks of CreateFileAsync, in the order they run: the configured secret, the encrypted
   * application id, its decryption, the zone id and the upload id must all be present and
   * non-empty; the file name is read but may be "".
   */
  function ValidateCreate(secret: Option<string>, decrypt: Decryptor, utf8: TusMetadata.Utf8Decoder,
                          metadata: Option<string>): Result<Columns>
  {
    var key :- RequireNonEmpty(secret, "secret");
    var encryptedAppId :- TusMetadata.MetadataValue(metadata, Some("appId"), utf8);
    var checkedAppId :- RequireNonEmpty(Some(encryptedAppId), "encryptedAppId");
    var appId :- Decrypt(decrypt, checkedAppId, key);
    var zone :- TusMetadata.MetadataValue(metadata, Some("zoneId"), utf8);
    var zoneId :- RequireNonEmpty(Some(zone), "zoneId");
    var upload :- TusMetadata.MetadataValue(metadata, Some("uploadId"), utf8);
    var uploadId :- RequireNonEmpty(Some(upload), "uploadId");
    var fileName :- TusMetadata.MetadataValue(metadata, Some("name"), utf8);
    Ok(Columns(appId, zoneId, uploadId, fileName))
  }

  /** SQL Server rejects a value longer than its NVARCHAR(50) column (error 8152), except that,
      by the ANSI rule, blanks beyond the width are cut without an error: everything past the
      width must be a blank. */
  predicate FitsColumn(v: string) {
    forall i :: ColumnWidth <= i < |v| ==> v[i] == ' '
  }

  /** What an NVARCHAR(50) column stores of a value: the value cut to the width. */
  function ColumnValue(v: string): string {
    if |v| <= ColumnWidth then v else v[..ColumnWidth]
  }

  /** A value fits its column exactly when it is at most 50 characters once its trailing blanks
      are dropped. It is then stored as a prefix that drops trailing blanks only and keeps the
      rest: short values are stored whole, and a stored value is empty only when the value was. */
  lemma ColumnValueCutsBlanks(v: string)
    ensures FitsColumn(v) <==> |Text.TrimEndChar(v, ' ')| <= ColumnWidth
    ensures FitsColumn(v) ==> var r := ColumnValue(v);
      && r == v[..|r|] && (forall i :: |r| <= i < |v| ==> v[i] == ' ')
      && Text.TrimEndChar(v, ' ') == r[..|Text.TrimEndChar(v, ' ')|]
      && (|v| <= ColumnWidth ==> r == v)
      && (r == [] <==> v == [])
  {
    var t := Text.TrimEndChar(v, ' ');
    if FitsColumn(v) {
      var r := ColumnValue(v);
      assert r[..|t|] == v[..|t|];
    }
  }

  predicate FitsColumns(c: Columns) {
    FitsColumn(c.fileName) && FitsColumn(c.zoneId) && FitsColumn(c.appId) && FitsColumn(c.uploadId)
  }

  /** The row the INSERT of CreateFileAsync writes, each NVARCHAR(50) value cut to its column. */
  function CreatedRecord(c: Columns, uploadLength: int, metadata: string, now: Instant): FileRecord {
    FileRecord(Some(ColumnValue(c.fileName)), Some(uploadLength), 0, metadata, now, None, None, None,
      Some(ColumnValue(c.uploadId)), Some(ColumnValue(c.zoneId)), Some(ColumnValue(c.appId)), false)
  }

  /**
   * CreateFileAsync: validation, then the empty blob, then the INSERT. A failing INSERT leaves
   * the blob behind: creation is not all-or-nothing.
   */
  function Create(s: Store, secret: Option<string>, decrypt: Decryptor, utf8: TusMetadata.Utf8Decoder,
                  uploadLength: int, metadata: Option<string>, fileId: FileId, now: Instant): (Store, Result<FileId>)
  {
    match ValidateCreate(secret, decrypt, utf8, metadata)
    case Err(e) => (s, Err(e))
    case Ok(c) =>
      var blobs := s.blobs[fileId := []];
      if !FitsColumns(c) then (Store(s.files, blobs), Err(Sql(Truncated)))
      else (Store(s.files[fileId := CreatedRecord(c, uploadLength, metadata.GetOr(""), now)], blobs), Ok(fileId))
  }

  /** What a successful validation has established about the metadata. */
  lemma ValidatedMetadata(secret: Option<string>, decrypt: Decryptor, utf8: TusMetadata.Utf8Decoder, metadata: Option<string>)
    requires ValidateCreate(secret, decrypt, utf8, metadata).Ok?
    ensures var c := ValidateCreate(secret, decrypt, utf8, metadata).value;
      && secret.Some? && secret.value != [] && metadata.Some?
      && (exists cipher :: TusMetadata.MetadataValue(metadata, Some("appId"), utf8) == Ok(cipher)
                           && cipher != [] && decrypt(cipher, secret.value) == Ok(c.appId))
      && TusMetadata.MetadataValue(metadata, Some("zoneId"), utf8) == Ok(c.zoneId) && c.zoneId != []
      && TusMetadata.MetadataValue(metadata, Some("uploadId"), utf8) == Ok(c.uploadId) && c.uploadId != []
      && TusMetadata.MetadataValue(metadata, Some("name"), utf8) == Ok(c.fileName)
  {
    assert RequireNonEmpty(secret, "secret").Ok?;
    var app := TusMetadata.MetadataValue(metadata, Some("appId"), utf8);
    assert app.Ok?;
    var cipher := app.value;
    assert RequireNonEmpty(Some(cipher), "encryptedAppId").Ok?;
    assert decrypt(cipher, secret.value).Ok?;
    var zone := TusMetadata.MetadataValue(metadata, Some("zoneId"), utf8);
    assert zone.Ok? && RequireNonEmpty(Some(zone.value), "zoneId").Ok?;
    var upload := TusMetadata.MetadataValue(metadata, Some("uploadId"), utf8);
    assert upload.Ok? && RequireNonEmpty(Some(upload.value), "uploadId").Ok?;
    var name := TusMetadata.MetadataValue(metadata, Some("name"), utf8);
    assert name.Ok?;
    assert ValidateCreate(secret, decrypt, utf8, metadata)
        == Ok(Columns(decrypt(cipher, secret.value).value, zone.value, upload.value, name.value));
  }

  /** A missing or empty secret, application id, zone id or upload id is rejected before any
      blob or row is written. */
  lemma CreateRejectsMissingIds(s: Store, secret: Option<string>, decrypt: Decryptor, utf8: TusMetadata.Utf8Decoder,
                                uploadLength: int, metadata: Option<string>, fileId: FileId, now: Instant)
    requires || secret.None? || secret == Some([])
             || metadata.None?
             || TusMetadata.MetadataValue(metadata, Some("appId"), utf8) == Ok([])
             || TusMetadata.MetadataValue(metadata, Some("zoneId"), utf8) == Ok([])
             || TusMetadata.MetadataValue(metadata, Some("uploadId"), utf8) == Ok([])
    ensures Create(s, secret, decrypt, utf8, uploadLength, metadata, fileId, now).0 == s
    ensures Create(s, secret, decrypt, utf8, uploadLength, metadata, fileId, now).1.Err?
  {
    if ValidateCreate(secret, decrypt, utf8, metadata).Ok? {
      ValidatedMetadata(secret, decrypt, utf8, metadata);
    }
  }

  /** A successful creation adds exactly one row and one empty blob under the fresh id: offset 0,
      the given length, not committed, and the validated values in their columns. */
  lemma CreateAddsOneFile(s: Store, secret: Option<string>, decrypt: Decryptor, utf8: TusMetadata.Utf8Decoder,
                          uploadLength: int, metadata: Option<string>, fileId: FileId, now: Instant)
    requires fileId !in s.files && fileId !in s.blobs
    requires Create(s, secret, decrypt, utf8, uploadLength, metadata, fileId, now).1.Ok?
    ensures ValidateCreate(secret, decrypt, utf8, metadata).Ok?
    ensures var (t, r) := Create(s, secret, decrypt, utf8, uploadLength, metadata, fileId, now);
      && r.value == fileId && FileExists(t, fileId)
      && t.files.Keys == s.files.Keys + {fileId} && t.blobs.Keys == s.blobs.Keys + {fileId}
      && SameElsewhere(s, t, fileId)
      && t.blobs[fileId] == []
      && UploadOffsetOf(t, fileId) == 0 && UploadLengthOf(t, fileId) == Some(uploadLength)
      && t.files[fileId] == CreatedRecord(ValidateCreate(secret, decrypt, utf8, metadata).value, uploadLength, metadata.GetOr(""), now)
      && (Consistent(s) ==> Consistent(t))
      && KeepsCommitted(s, t)
  {
    var c := CreateOutcome(s, secret, decrypt, utf8, uploadLength, metadata, fileId, now);
    var row := CreatedRecord(c, uploadLength, metadata.GetOr(""), now);
    InsertKeeps(s, fileId, row, []);
    var t := Store(s.files[fileId := row], s.blobs[fileId := []]);
    assert Create(s, secret, decrypt, utf8, uploadLength, metadata, fileId, now) == (t, Ok(fileId));
    assert t.files[fileId] == row && row.uploadOffset == 0 && !row.isCommitted;
  }

  /** Create once the metadata is valid: the empty blob, then the row if every value fits. */
  lemma CreateOutcome(s: Store, secret: Option<string>, decrypt: Decryptor, utf8: TusMetadata.Utf8Decoder,
                      uploadLength: int, metadata: Option<string>, fileId: FileId, now: Instant) returns (c: Columns)
    requires ValidateCreate(secret, decrypt, utf8, metadata).Ok?
    ensures c == ValidateCreate(secret, decrypt, utf8, metadata).value
    ensures Create(s, secret, decrypt, utf8, uploadLength, metadata, fileId, now)
         == if FitsColumns(c)
            then (Store(s.files[fileId := CreatedRecord(c, uploadLength, metadata.GetOr(""), now)], s.blobs[fileId := []]), Ok(fileId))
            else (Store(s.files, s.blobs[fileId := []]), Err(Sql(Truncated)))
  {
    c := ValidateCreate(secret, decrypt, utf8, metadata).value;
  }

  /** The row of a successful creation holds the decrypted application id, the zone and upload
      ids and the file name read from the metadata, each fitting its column and stored cut to
      it, and the metadata itself. */
  lemma CreateStoresValidated(s: Store, secret: Option<string>, decrypt: Decryptor, utf8: TusMetadata.Utf8Decoder,
                              uploadLength: int, metadata: Option<string>, fileId: FileId, now: Instant)
    requires Create(s, secret, decrypt, utf8, uploadLength, metadata, fileId, now).1.Ok?
    ensures var r := Create(s, secret, decrypt, utf8, uploadLength, metadata, fileId, now).0.files[fileId];
      && metadata.Some? && r.metadata == metadata.value && secret.Some?
      && (exists cipher :: TusMetadata.MetadataValue(metadata, Some("appId"), utf8) == Ok(cipher)
                           && cipher != [] && decrypt(cipher, secret.value).Ok?
                           && FitsColumn(decrypt(cipher, secret.value).value)
                           && r.appId == Some(ColumnValue(decrypt(cipher, secret.value).value)))
      && var zone := TusMetadata.MetadataValue(metadata, Some("zoneId"), utf8).value;
      && var upload := TusMetadata.MetadataValue(metadata, Some("uploadId"), utf8).value;
      && var name := TusMetadata.MetadataValue(metadata, Some("name"), utf8).value;
      && FitsColumn(zone) && r.zoneId == Some(ColumnValue(zone)) && r.zoneId != Some([])
      && FitsColumn(upload) && r.uploadId == Some(ColumnValue(upload)) && r.uploadId != Some([])
      && FitsColumn(name) && r.fileName == Some(ColumnValue(name))
      && !r.isCommitted && r.uploadOffset == 0
  {
    ValidatedMetadata(secret, decrypt, utf8, metadata);
    var c := CreateOutcome(s, secret, decrypt, utf8, uploadLength, metadata, fileId, now);
    ColumnValueCutsBlanks(c.zoneId);
    ColumnValueCutsBlanks(c.uploadId);
    assert Create(s, secret, decrypt, utf8, uploadLength, metadata, fileId, now).0.files[fileId]
        == CreatedRecord(c, uploadLength, metadata.GetOr(""), now);
  }

  /** Not all-or-nothing: valid metadata whose file name has a non-blank character past its
      column's width fails the INSERT and leaves an empty blob with no row, which FileExistAsync
      does not report and no sweep selects. */
  lemma CreateLeavesBlobOnInsertFailure(s: Store, secret: Option<string>, decrypt: Decryptor, utf8: TusMetadata.Utf8Decoder,
                                        uploadLength: int, metadata: Option<string>, fileId: FileId, now: Instant)
    requires fileId !in s.files
    requires ValidateCreate(secret, decrypt, utf8, metadata).Ok?
    requires !FitsColumn(ValidateCreate(secret, decrypt, utf8, metadata).value.fileName)
    ensures var (t, r) := Create(s, secret, decrypt, utf8, uploadLength, metadata, fileId, now);
      && r == Err(Sql(Truncated))
      && fileId in t.blobs && fileId !in t.files && !FileExists(t, fileId)
  {
    var c := CreateOutcome(s, secret, decrypt, utf8, uploadLength, metadata, fileId, now);
  }

  /** CreatePartialFileAsync: CreateFileAsync, then UploadConcat = 'partial'. */
  function CreatePartial(s: Store, secret: Option<string>, decrypt: Decryptor, utf8: TusMetadata.Utf8Decoder,
                         uploadLength: int, metadata: Option<string>, fileId: FileId, now: Instant): (Store, Result<FileId>)
  {
    var (t, r) := Create(s, secret, decrypt, utf8, uploadLength, metadata, fileId, now);
    if r.Err? then (t, r) else (MarkPartial(t, fileId), r)
  }

  /**
   * GetUploadConcatAsync: 'partial' wins; a non-empty PartialUploads is split on ','; anything
   * else, an unknown id included (Dapper's default tuple of nulls), is null.
   */
  function UploadConcatOf(s: Store, fileId: FileId): Option<FileConcat> {
    if fileId !in s.files then None
    else
      var r := s.files[fileId];
      if r.uploadConcat == Some("partial") then Some(Partial)
      else if r.partialUploads.Some? && r.partialUploads.value != [] then Some(Final(Text.Split(r.partialUploads.value, ',')))
      else None
  }

  /** A file created as a partial reads back as partial. */
  lemma PartialReadsBack(s: Store, secret: Option<string>, decrypt: Decryptor, utf8: TusMetadata.Utf8Decoder,
                         uploadLength: int, metadata: Option<string>, fileId: FileId, now: Instant)
    requires CreatePartial(s, secret, decrypt, utf8, uploadLength, metadata, fileId, now).1.Ok?
    ensures UploadConcatOf(CreatePartial(s, secret, decrypt, utf8, uploadLength, metadata, fileId, now).0, fileId) == Some(Partial)
  {
  }

  /** The checks of CreateFinalFileAsync: the raw application id and the zone id, non-empty. */
  function ValidateFinal(utf8: TusMetadata.Utf8Decoder, metadata: Option<string>): Result<(string, string)> {
    var app :- TusMetadata.MetadataValue(metadata, Some("appId"), utf8);
    var appId :- RequireNonEmpty(Some(app), "appId");
    var zone :- TusMetadata.MetadataValue(metadata, Some("zoneId"), utf8);
    var zoneId :- RequireNonEmpty(Some(zone), "zoneId");
    Ok((appId, zoneId))
  }

  /** The checks of CreateFinalFileAsync pass exactly when appId and zoneId are both read from the
      metadata and neither is empty; the application id is then kept as sent, not decrypted. */
  lemma ValidatedFinal(utf8: TusMetadata.Utf8Decoder, metadata: Option<string>)
    ensures var app := TusMetadata.MetadataValue(metadata, Some("appId"), utf8);
      var zone := TusMetadata.MetadataValue(metadata, Some("zoneId"), utf8);
      && (ValidateFinal(utf8, metadata).Ok? <==> app.Ok? && app.value != [] && zone.Ok? && zone.value != [])
      && (ValidateFinal(utf8, metadata).Ok? ==> ValidateFinal(utf8, metadata).value == (app.value, zone.value))
  {
  }

  /**
   * CreateFinalFileAsync as written: after the checks the final blob is written as the
   * concatenation of the partial blobs, and the INSERT then fails because it leaves out the
   * NOT NULL FileName column. The blob stays behind.
   */
  function CreateFinal(s: Store, utf8: TusMetadata.Utf8Decoder, partials: seq<FileId>, metadata: Option<string>,
                       fileId: FileId): (Store, Result<FileId>)
  {
    match ValidateFinal(utf8, metadata)
    case Err(e) => (s, Err(e))
    case Ok(_) => (Store(s.files, s.blobs[fileId := ConcatExisting(s.blobs, partials)]), Err(Sql(NullFileName)))
  }

  /** As written, no final upload is ever recorded: every call fails and no row is added. A call
      that fails the checks changes nothing; one that passes them leaves the concatenated file
      behind without a row. */
  lemma CreateFinalNeverInserts(s: Store, utf8: TusMetadata.Utf8Decoder, partials: seq<FileId>, metadata: Option<string>,
                                fileId: FileId)
    requires fileId !in s.files
    ensures var (t, r) := CreateFinal(s, utf8, partials, metadata, fileId);
      && r.Err? && t.files == s.files
      && (ValidateFinal(utf8, metadata).Err? ==> t == s && r.error == ValidateFinal(utf8, metadata).error)
      && (ValidateFinal(utf8, metadata).Ok? ==>
            && r == Err(Sql(NullFileName)) && !FileExists(t, fileId)
            && t.blobs == s.blobs[fileId := ConcatExisting(s.blobs, partials)])
  {
  }

  /**
   * CreateFinalFileAsync as evidently intended: the same checks and blob, and an INSERT that
   * also supplies FileName (the "name" entry, as CreateFileAsync does), subject to the
   * NVARCHAR(50) widths.
   */
  function CreateFinalIntended(s: Store, utf8: TusMetadata.Utf8Decoder, partials: seq<FileId>, metadata: Option<string>,
                               fileId: FileId, now: Instant): (Store, Result<FileId>)
  {
    match ValidateFinal(utf8, metadata)
    case Err(e) => (s, Err(e))
    case Ok((appId, zoneId)) =>
      match TusMetadata.MetadataValue(metadata, Some("name"), utf8)
      case Err(e) => (s, Err(e))
      case Ok(name) =>
        var blob := ConcatExisting(s.blobs, partials);
        var blobs := s.blobs[fileId := blob];
        if !(FitsColumn(name) && FitsColumn(zoneId) && FitsColumn(appId)) then (Store(s.files, blobs), Err(Sql(Truncated)))
        else
          var row := FinalRecord(Some(ColumnValue(name)), |blob|, metadata.GetOr(""), now, partials,
            Some(ColumnValue(zoneId)), Some(ColumnValue(appId)));
          (Store(s.files[fileId := row], blobs), Ok(fileId))
  }

  /** With the FileName supplied, a final upload is recorded: its blob is the partials in order,
      missing ones skipped, length and offset are that size, and the store stays consistent. */
  lemma FinalIntendedRecorded(s: Store, utf8: TusMetadata.Utf8Decoder, partials: seq<FileId>, metadata: Option<string>,
                              fileId: FileId, now: Instant)
    requires fileId !in s.files && fileId !in s.blobs
    requires CreateFinalIntended(s, utf8, partials, metadata, fileId, now).1.Ok?
    ensures var (t, r) := CreateFinalIntended(s, utf8, partials, metadata, fileId, now);
      && r == Ok(fileId) && FileExists(t, fileId)
      && t.blobs[fileId] == ConcatExisting(s.blobs, Present(s.blobs, partials))
      && UploadLengthOf(t, fileId) == Some(|t.blobs[fileId]|)
      && UploadOffsetOf(t, fileId) == |t.blobs[fileId]|
      && SameElsewhere(s, t, fileId)
      && (Consistent(s) ==> Consistent(t))
      && var row := t.files[fileId];
      && var app := TusMetadata.MetadataValue(metadata, Some("appId"), utf8);
      && var zone := TusMetadata.MetadataValue(metadata, Some("zoneId"), utf8);
      && var name := TusMetadata.MetadataValue(metadata, Some("name"), utf8);
      && app.Ok? && FitsColumn(app.value) && row.appId == Some(ColumnValue(app.value))
      && zone.Ok? && FitsColumn(zone.value) && row.zoneId == Some(ColumnValue(zone.value))
      && name.Ok? && FitsColumn(name.value) && row.fileName == Some(ColumnValue(name.value))
      && metadata == Some(row.metadata) && row.createdAt == now
      && row.partialUploads == Some(Text.Join(",", partials))
      && row.uploadId.None? && row.expiresAt.None? && !row.isCommitted
  {
    var row := FinalIntendedShape(s, utf8, partials, metadata, fileId, now);
    ConcatSkipsMissing(s.blobs, partials);
    InsertKeeps(s, fileId, row, ConcatExisting(s.blobs, partials));
  }

  lemma FinalIntendedShape(s: Store, utf8: TusMetadata.Utf8Decoder, partials: seq<FileId>, metadata: Option<string>,
                           fileId: FileId, now: Instant) returns (row: FileRecord)
    requires CreateFinalIntended(s, utf8, partials, metadata, fileId, now).1.Ok?
    ensures var blob := ConcatExisting(s.blobs, partials);
      && CreateFinalIntended(s, utf8, partials, metadata, fileId, now) == (Store(s.files[fileId := row], s.blobs[fileId := blob]), Ok(fileId))
      && row.uploadLength == Some(|blob|) && row.uploadOffset == |blob|
      && row.partialUploads == Some(Text.Join(",", partials)) && row.uploadConcat.None?
      && var app := TusMetadata.MetadataValue(metadata, Some("appId"), utf8);
      && var zone := TusMetadata.MetadataValue(metadata, Some("zoneId"), utf8);
      && var name := TusMetadata.MetadataValue(metadata, Some("name"), utf8);
      && app.Ok? && FitsColumn(app.value) && row.appId == Some(ColumnValue(app.value))
      && zone.Ok? && FitsColumn(zone.value) && row.zoneId == Some(ColumnValue(zone.value))
      && name.Ok? && FitsColumn(name.value) && row.fileName == Some(ColumnValue(name.value))
      && metadata == Some(row.metadata) && row.createdAt == now
      && row.uploadId.None? && row.expiresAt.None? && !row.isCommitted
  {
    ValidatedFinal(utf8, metadata);
    var (appId, zoneId) := ValidateFinal(utf8, metadata).value;
    var name := TusMetadata.MetadataValue(metadata, Some("name"), utf8).value;
    var blob := ConcatExisting(s.blobs, partials);
    row := FinalRecord(Some(ColumnValue(name)), |blob|, metadata.GetOr(""), now, partials,
      Some(ColumnValue(zoneId)), Some(ColumnValue(appId)));
  }

  /** Concat round trip: a final upload of a list of comma-free ids reads back as that list; an
      empty list reads back as no concatenation at all. (The list [""] is the one other list whose
      join is empty, and it reads back as none too.) */
  lemma FinalIntendedReadsBack(s: Store, utf8: TusMetadata.Utf8Decoder, partials: seq<FileId>, metadata: Option<string>,
                               fileId: FileId, now: Instant)
    requires CreateFinalIntended(s, utf8, partials, metadata, fileId, now).1.Ok?
    requires forall i :: 0 <= i < |partials| ==> ',' !in partials[i]
    requires partials != [""]
    ensures var t := CreateFinalIntended(s, utf8, partials, metadata, fileId, now).0;
      UploadConcatOf(t, fileId) == if partials == [] then None else Some(Final(partials))
  {
    var row := FinalIntendedShape(s, utf8, partials, metadata, fileId, now);
    if partials != [] {
      Text.SplitJoin(partials, ',');
      JoinNotEmpty(partials);
    }
  }

  /** string.Join(",", parts) is "" only for no parts or the single part "". */
  lemma JoinNotEmpty(parts: seq<string>)
    ensures Text.Join(",", parts) == [] <==> parts == [] || parts == [""]
  {
    if |parts| > 1 {
      assert |Text.Join(",", parts)| >= |parts[0]| + 1;
    }
  }

  /** A row of GetFilesBySessionAsync: UnifyUploadFile. */
  datatype UploadFile = UploadFile(fileId: FileId, fileName: Option<string>, zone: Option<string>, size: int, uri: string)

  /** CAST(UploadLength AS INT) of a row: null stays null; a value outside int overflows. */
  predicate CastOverflows(r: FileRecord) {
    r.uploadLength.Some? && !IsInt(r.uploadLength.value)
  }

  /** The UnifyUploadFile built from a row whose size is known. */
  function SessionFile(fileId: FileId, r: FileRecord): (f: UploadFile)
    requires r.uploadLength.Some?
    ensures f.fileId == fileId && f.size == r.uploadLength.value
  {
    UploadFile(fileId, r.fileName, r.zoneId, r.uploadLength.value, "https://domain.com/" + fileId)
  }

  predicate InSession(r: FileRecord, uploadId: string) {
    r.uploadId == Some(uploadId)
  }

  /** GetFileInfoAsync's result, mapped by column name; no column is named SessionId. The fields are
      those of the upload component's TusFileInfo class, whose FileName the method assigns. The
      record of the same name in the API's own namespace, which the unqualified name would bind
      to, has no FileName. */
  datatype FileInfo = FileInfo(
    fileId: FileId, fileName: string, uploadLength: Option<int>, uploadOffset: int, metadata: string,
    createdAt: Instant, expiresAt: Option<Instant>, sessionId: Option<string>, appId: Option<string>,
    isCommitted: bool)

  /**
   * GetFileInfoAsync: null for an unknown id; otherwise the row, with FileName taken again from
   * the "name" metadata entry (whose parse errors propagate) and SessionId left null.
   */
  function FileInfoOf(s: Store, fileId: FileId, utf8: TusMetadata.Utf8Decoder): Result<Option<FileInfo>> {
    if fileId !in s.files then Ok(None)
    else
      var r := s.files[fileId];
      var name :- TusMetadata.MetadataValue(Some(r.metadata), Some("name"), utf8);
      Ok(Some(FileInfo(fileId, name, r.uploadLength, r.uploadOffset, r.metadata, r.createdAt, r.expiresAt,
        None, r.appId, r.isCommitted)))
  }

  /** The details of a file just created report the "name" entry, uncut, whose cut to the column
      CreateFileAsync stored, the offset 0 and the length given; the session id is not reported. */
  lemma FileInfoAfterCreate(s: Store, secret: Option<string>, decrypt: Decryptor, utf8: TusMetadata.Utf8Decoder,
                            uploadLength: int, metadata: Option<string>, fileId: FileId, now: Instant)
    requires fileId !in s.files && fileId !in s.blobs
    requires Create(s, secret, decrypt, utf8, uploadLength, metadata, fileId, now).1.Ok?
    ensures var t := Create(s, secret, decrypt, utf8, uploadLength, metadata, fileId, now).0;
      var info := FileInfoOf(t, fileId, utf8);
      && info.Ok? && info.value.Some?
      && TusMetadata.MetadataValue(metadata, Some("name"), utf8) == Ok(info.value.value.fileName)
      && t.files[fileId].fileName == Some(ColumnValue(info.value.value.fileName))
      && info.value.value.uploadOffset == 0 && info.value.value.uploadLength == Some(uploadLength)
      && info.value.value.sessionId.None? && t.files[fileId].uploadId.Some?
      && !info.value.value.isCommitted
  {
    ValidatedMetadata(secret, decrypt, utf8, metadata);
  }

  /** CleanupUncommittedFilesAsync's filter: IsCommitted = 0 AND CreatedAt < @CutoffDate. */
  predicate IsStale(r: FileRecord, cutoff: Instant) {
    !r.isCommitted && r.createdAt < cutoff
  }

  function StaleIds(files: map<FileId, FileRecord>, cutoff: Instant): set<FileId> {
    set id | id in files && IsStale(files[id], cutoff)
  }

  /** The cleanup never selects a committed file, nor one created at or after the cutoff. */
  lemma StaleSparesCommitted(s: Store, cutoff: Instant)
    ensures forall id :: id in s.files && (s.files[id].isCommitted || s.files[id].createdAt >= cutoff) ==>
      id !in StaleIds(s.files, cutoff) && id in Removed(s, StaleIds(s.files, cutoff)).files
  {
  }

  /**
   * The store: the TusFiles table, the upload directory, and the configuration and services it
   * is given. `locked` names the blobs the file system refuses to delete.
   */
  class TusSqlServerStore {
    var files: map<FileId, FileRecord>
    var blobs: map<FileId, seq<Byte>>
    const locked: set<FileId>
    const secret: Option<string>
    const decrypt: Decryptor
    const utf8: TusMetadata.Utf8Decoder
    const digest: (Algorithm, seq<Byte>) -> seq<Byte>

    /** The 80 KB buffer AppendDataAsync reads through. */
    static const BufferSize: nat := 81920

    function State(): Store
      reads this
    {
      Store(files, blobs)
    }

    /** A store over an empty table and directory. */
    constructor(locked: set<FileId>, secret: Option<string>, decrypt: Decryptor, utf8: TusMetadata.Utf8Decoder,
                digest: (Algorithm, seq<Byte>) -> seq<Byte>)
      ensures files == map[] && blobs == map[]
      ensures this.locked == locked && this.secret == secret && this.decrypt == decrypt
      ensures this.utf8 == utf8 && this.digest == digest
    {
      files := map[];
      blobs := map[];
      this.locked := locked;
      this.secret := secret;
      this.decrypt := decrypt;
      this.utf8 := utf8;
      this.digest := digest;
    }

    /** CreateFileAsync, with the fresh GUID and the clock given. */
    method CreateFile(uploadLength: int, metadata: Option<string>, fileId: FileId, now: Instant) returns (r: Result<FileId>)
      modifies this
      ensures (State(), r) == Create(old(State()), secret, decrypt, utf8, uploadLength, metadata, fileId, now)
    {
      var key := RequireNonEmpty(secret, "secret");
      if key.Err? {
        return Err(key.error);
      }
      var encryptedAppId := TusMetadata.GetValue(metadata, Some("appId"), utf8);
      if encryptedAppId.Err? {
        return Err(encryptedAppId.error);
      }
      var checkedAppId := RequireNonEmpty(Some(encryptedAppId.value), "encryptedAppId");
      if checkedAppId.Err? {
        return Err(checkedAppId.error);
      }
      var appId := Decrypt(decrypt, encryptedAppId.value, key.value);
      if appId.Err? {
        return Err(appId.error);
      }
      var zoneId := TusMetadata.GetValue(metadata, Some("zoneId"), utf8);
      if zoneId.Err? {
        return Err(zoneId.error);
      }
      var checkedZoneId := RequireNonEmpty(Some(zoneId.value), "zoneId");
      if checkedZoneId.Err? {
        return Err(checkedZoneId.error);
      }
      var uploadId := TusMetadata.GetValue(metadata, Some("uploadId"), utf8);
      if uploadId.Err? {
        return Err(uploadId.error);
      }
      var checkedUploadId := RequireNonEmpty(Some(uploadId.value), "uploadId");
      if checkedUploadId.Err? {
        return Err(checkedUploadId.error);
      }
      var fileName := TusMetadata.GetValue(metadata, Some("name"), utf8);
      if fileName.Err? {
        return Err(fileName.error);
      }
      var row := Columns(appId.value, zoneId.value, uploadId.value, fileName.value);
      assert ValidateCreate(secret, decrypt, utf8, metadata) == Ok(row);
      blobs := blobs[fileId := []];
      if !FitsColumns(row) {
        return Err(Sql(Truncated));
      }
      files := files[fileId := CreatedRecord(row, uploadLength, metadata.GetOr(""), now)];
      return Ok(fileId);
    }

    /** AppendDataAsync: the stream read through the buffer and written at the end of the file,
        then the offset raised by the count written. */
    method AppendData(fileId: FileId, stream: seq<Byte>) returns (bytesWritten: int)
      modifies this
      ensures bytesWritten == |stream|
      ensures State() == Append(old(State()), fileId, stream)
    {
      var start := BlobOf(State(), fileId);
      blobs := blobs[fileId := start];
      bytesWritten := 0;
      assert start + stream[..0] == start;
      while bytesWritten < |stream|
        invariant 0 <= bytesWritten <= |stream|
        invariant files == old(files)
        invariant blobs == old(blobs)[fileId := start + stream[..bytesWritten]]
        decreases |stream| - bytesWritten
      {
        var bytesRead := if |stream| - bytesWritten < BufferSize then |stream| - bytesWritten else BufferSize;
        assert start + stream[..bytesWritten + bytesRead]
            == (start + stream[..bytesWritten]) + stream[bytesWritten..bytesWritten + bytesRead];
        blobs := blobs[fileId := blobs[fileId] + stream[bytesWritten..bytesWritten + bytesRead]];
        bytesWritten := bytesWritten + bytesRead;
      }
      assert stream[..bytesWritten] == stream;
      if fileId in files {
        files := files[fileId := files[fileId].(uploadOffset := files[fileId].uploadOffset + bytesWritten)];
      }
    }

    /** DeleteFileAsync. */
    method DeleteFile(fileId: FileId) returns (r: Result<()>)
      modifies this
      ensures match Delete(old(State()), fileId, locked)
        case Ok(t) => r.Ok? && State() == t
        case Err(e) => r == Err(e) && State() == old(State())
    {
      if fileId in blobs {
        if fileId in locked {
          return Err(IO);
        }
        blobs := blobs - {fileId};
      }
      files := files - {fileId};
      return Ok(());
    }

    /** VerifyChecksumAsync. */
    method VerifyChecksum(fileId: FileId, algorithm: string, checksum: seq<Byte>) returns (r: bool)
      ensures r == ChecksumMatches(State(), fileId, algorithm, checksum, digest)
    {
      if fileId !in blobs {
        return false;
      }
      var fileHash;
      match AlgorithmNamed(algorithm) {
        case None => return false;
        case Some(a) => fileHash := digest(a, blobs[fileId]);
      }
      return checksum == fileHash;
    }

    /** SetExpirationAsync. */
    method SetExpiration(fileId: FileId, expires: Instant)
      modifies this
      ensures State() == UploadCore.SetExpiration(old(State()), fileId, expires)
    {
      if fileId in files {
        files := files[fileId := files[fileId].(expiresAt := Some(expires))];
      }
    }

    /** SetUploadLengthAsync. */
    method SetUploadLength(fileId: FileId, uploadLength: int)
      modifies this
      ensures State() == UploadCore.SetUploadLength(old(State()), fileId, uploadLength)
    {
      if fileId in files {
        files := files[fileId := files[fileId].(uploadLength := Some(uploadLength))];
      }
    }

    /** CommitFileAsync. */
    method CommitFile(fileId: FileId)
      modifies this
      ensures State() == Commit(old(State()), fileId)
    {
      if fileId in files {
        files := files[fileId := files[fileId].(isCommitted := true)];
      }
    }

    /** CreatePartialFileAsync. */
    method CreatePartialFile(uploadLength: int, metadata: Option<string>, fileId: FileId, now: Instant)
      returns (r: Result<FileId>)
      modifies this
      ensures (State(), r) == CreatePartial(old(State()), secret, decrypt, utf8, uploadLength, metadata, fileId, now)
    {
      r := CreateFile(uploadLength, metadata, fileId, now);
      if r.Err? {
        return;
      }
      if fileId in files {
        files := files[fileId := files[fileId].(uploadConcat := Some("partial"))];
      }
    }

    /** CreateFinalFileAsync: the checks, the concatenation loop, then the INSERT, which fails. */
    method CreateFinalFile(partialFiles: seq<FileId>, metadata: Option<string>, fileId: FileId)
      returns (r: Result<FileId>)
      requires fileId !in partialFiles
      modifies this
      ensures (State(), r) == CreateFinal(old(State()), utf8, partialFiles, metadata, fileId)
    {
      var appId := TusMetadata.GetValue(metadata, Some("appId"), utf8);
      if appId.Err? {
        return Err(appId.error);
      }
      var checkedAppId := RequireNonEmpty(Some(appId.value), "appId");
      if checkedAppId.Err? {
        return Err(checkedAppId.error);
      }
      var zoneId := TusMetadata.GetValue(metadata, Some("zoneId"), utf8);
      if zoneId.Err? {
        return Err(zoneId.error);
      }
      var checkedZoneId := RequireNonEmpty(Some(zoneId.value), "zoneId");
      if checkedZoneId.Err? {
        return Err(checkedZoneId.error);
      }
      assert ValidateFinal(utf8, metadata) == Ok((appId.value, zoneId.value));
      ConcatenatePartials(partialFiles, fileId);
      return Err(Sql(NullFileName));
    }

    /** The loop of CreateFinalFileAsync: the final file is created, then each partial file that
        exists is copied onto its end, in the order given. */
    method ConcatenatePartials(partialFiles: seq<FileId>, fileId: FileId)
      requires fileId !in partialFiles
      modifies this
      ensures files == old(files)
      ensures blobs == old(blobs)[fileId := ConcatExisting(old(blobs), partialFiles)]
    {
      blobs := blobs[fileId := []];
      for i := 0 to |partialFiles|
        invariant files == old(files)
        invariant blobs == old(blobs)[fileId := ConcatExisting(old(blobs), partialFiles[..i])]
      {
        ConcatStep(old(blobs), partialFiles, i);
        assert partialFiles[i] != fileId;
        if partialFiles[i] in blobs {
          blobs := blobs[fileId := blobs[fileId] + blobs[partialFiles[i]]];
        } else {
          assert ConcatExisting(old(blobs), partialFiles[..i]) + [] == ConcatExisting(old(blobs), partialFiles[..i]);
        }
      }
      assert partialFiles[..|partialFiles|] == partialFiles;
    }

    /** GetExpiredFilesAsync. */
    method GetExpiredFiles(now: Instant) returns (ids: seq<FileId>)
      ensures Elements(ids) == ExpiredIds(files, now) && Distinct(ids)
    {
      ids := SelectWhere(files, r => IsExpired(r, now));
    }

    /** The SELECT of CleanupUncommittedFilesAsync. */
    method GetStaleFiles(cutoff: Instant) returns (ids: seq<FileId>)
      ensures Elements(ids) == StaleIds(files, cutoff) && Distinct(ids)
    {
      ids := SelectWhere(files, r => IsStale(r, cutoff));
    }

    /** The deletion loop of both sweeps: DeleteFileAsync per id and a count. */
    method DeleteEachFile(ids: seq<FileId>) returns (r: Result<int>)
      modifies this
      ensures State() == DeleteEach(old(State()), ids, locked).0
      ensures r.Ok? <==> DeleteEach(old(State()), ids, locked).1.None?
      ensures r.Ok? ==> r.value == |ids|
      ensures r.Err? ==> Some(r.error) == DeleteEach(old(State()), ids, locked).1
    {
      var count := 0;
      for i := 0 to |ids|
        invariant count == i
        invariant DeleteEach(State(), ids[i..], locked) == DeleteEach(old(State()), ids, locked)
      {
        assert ids[i..][0] == ids[i] && ids[i..][1..] == ids[i + 1..];
        var deleted := DeleteFile(ids[i]);
        if deleted.Err? {
          return Err(deleted.error);
        }
        count := count + 1;
      }
      assert ids[|ids|..] == [];
      return Ok(count);
    }

    /** RemoveExpiredFilesAsync: exactly the expired files go, and their number is returned,
        unless a locked blob stops the sweep part-way. */
    method RemoveExpiredFiles(now: Instant) returns (r: Result<int>)
      modifies this
      ensures SweptExactly(old(State()), State(), ExpiredIds(old(files), now), locked, r)
    {
      var expiredFiles := GetExpiredFiles(now);
      r := DeleteEachFile(expiredFiles);
      Swept(old(State()), expiredFiles, locked, State(), r);
    }

    /** CleanupUncommittedFilesAsync: the cut-off is now - olderThan (DateTime.Subtract, which
        throws outside DateTime's range); exactly the uncommitted files created before it go. */
    method CleanupUncommittedFiles(olderThan: int, now: Instant) returns (r: Result<int>)
      modifies this
      ensures !(0 <= now - olderThan <= DateTime.MaxTicks) ==> r == Err(ArgumentOutOfRange) && State() == old(State())
      ensures 0 <= now - olderThan <= DateTime.MaxTicks ==>
        SweptExactly(old(State()), State(), StaleIds(old(files), now - olderThan), locked, r)
    {
      var cutoffDate := now - olderThan;
      if !(0 <= cutoffDate <= DateTime.MaxTicks) {
        return Err(ArgumentOutOfRange);
      }
      ghost var before := State();
      var filesToDelete := GetStaleFiles(cutoffDate);
      r := DeleteEachFile(filesToDelete);
      Swept(before, filesToDelete, locked, State(), r);
      assert before == old(State()) && StaleIds(before.files, cutoffDate) == StaleIds(old(files), now - olderThan);
    }

    /**
     * GetFilesBySessionAsync: the rows of the session, read in full first (a size that does not
     * fit CAST(... AS INT) fails the query), then mapped to UnifyUploadFile (a null size fails
     * the assignment to the int Size).
     */
    method GetFilesBySession(uploadId: string) returns (r: Result<seq<UploadFile>>)
      ensures var selected := set id | id in files && InSession(files[id], uploadId);
        && (r.Ok? <==> forall id :: id in selected ==> files[id].uploadLength.Some? && !CastOverflows(files[id]))
        && ((exists id :: id in selected && CastOverflows(files[id])) ==> r == Err(Sql(IntOverflow)))
        && (r.Err? ==> r.error in {Sql(IntOverflow), RuntimeBinder})
        && (r.Ok? ==>
             && |r.value| == |selected|
             && (forall id :: id in selected <==> exists f :: f in r.value && f.fileId == id)
             && (forall f :: f in r.value ==> f.fileId in selected && f == SessionFile(f.fileId, files[f.fileId])))
    {
      var rows := SelectWhere(files, rec => InSession(rec, uploadId));
      assert Elements(rows) == set id | id in files && InSession(files[id], uploadId);
      DistinctCount(rows);
      for i := 0 to |rows|
        invariant forall k :: 0 <= k < i ==> !CastOverflows(files[rows[k]])
      {
        if CastOverflows(files[rows[i]]) {
          return Err(Sql(IntOverflow));
        }
      }
      var result: seq<UploadFile> := [];
      for i := 0 to |rows|
        invariant |result| == i
        invariant forall k :: 0 <= k < i ==> files[rows[k]].uploadLength.Some? && result[k] == SessionFile(rows[k], files[rows[k]])
      {
        var row := files[rows[i]];
        if row.uploadLength.None? {
          return Err(RuntimeBinder);
        }
        result := result + [SessionFile(rows[i], row)];
      }
      r := Ok(result);
      forall id | id in Elements(rows) ensures exists f :: f in result && f.fileId == id {
        var k :| 0 <= k < |rows| && rows[k] == id;
        assert result[k].fileId == id;
      }
      forall f | f in result ensures f.fileId in Elements(rows) && f == SessionFile(f.fileId, files[f.fileId]) {
        var k :| 0 <= k < |result| && result[k] == f;
        assert f.fileId == rows[k];
      }
    }
  }
}
