# Unify uploads and extensions, modelled in Dafny

This project models the core of Unify's upload service and a handful of its extension methods.

**The two tus stores.** `TusSqlServerStore` serves the uploads API and `TusSqliteStore` serves the upload component.
- Each keeps a `TusFiles` table of upload records and an upload directory with one file per upload.
- Both implement the tus creation, append, termination, checksum, expiration, concatenation and defer-length operations.
- The SQL Server store adds metadata validation, commit flags, cleanup of uncommitted uploads, session listings and file details.

**The metadata lookup.** `GetValue` finds a key in a tus `Upload-Metadata` header and base64-decodes its value.

**The extension methods.**
- String clean-up: safe file names, line breaks, double spaces, quotation marks, long strings, permalinks, non-breaking substrings and character counts.
- `Batch` and `ToOxfordComma` on sequences.
- `GetFirstDayOfWeek` on dates.
- The `MustBeChecked` validation attribute.

How each part is modelled:
- **The stores** are classes. Each holds the table (`files`) and the directory (`blobs`) as map fields, which its methods update in place. Every method is proved against a pure transition on a `Store` value: `UploadCore` for the operations both stores share, and `SqlServerStore` or `SqliteStore` for their own. Lemmas state what the tus protocol relies on:
  - the stored offset counts the bytes received, however the stream is chunked;
  - deletion is idempotent and touches one file;
  - commit is one-way;
  - a sweep removes exactly the selected files, or stops at the first one the file system refuses to delete;
  - concatenation keeps the order of the partial uploads.
- **The metadata lookup** is a loop method proved equal to a specification function. It is proved to invert the header a client builds, via an RFC 4648 base64 round trip.
- **The extension methods** are functions, except where the source loops:
  - `CountChars`, `ToNonBreakingSubstring` and `GetFirstDayOfWeek` are loop methods;
  - `MustBeCheckedAttribute` is a class whose methods update the attribute dictionary.

Parameters and injected functions stand for the clock, fresh GUIDs, the configured secret, decryption, the UTF-8 decoder, the hash functions and `ToLowerInvariant`. Where the result depends on the operating system (`Environment.NewLine`, `Path.GetInvalidFileNameChars`), a `Platform` parameter chooses.

Where the code and its evident intent disagree, the model follows the code:
- `CreateFinalFileAsync` on SQL Server is meant to record a final upload. As written, it can never insert its row (see Findings).
- `ToSafeFilename` is meant to replace invalid characters with `replacement`. As written, it does not (see Findings).
- `GetFileInfoAsync` selects `UploadId`, but the type it fills has `SessionId`. Dapper maps by column name, so `SessionId` stays null.
- `GetFileInfoAsync` is inconsistent about its result type. The unqualified `TusFileInfo` binds to the positional record `Unify.Uploads.Api/TusFileInfo.cs`, which has no `FileName`, so the assignment to `fi.FileName` does not compile as written. The model uses the fields of `Unify.Web.Ui.Component.Upload/Models/TusFileInfo.cs`, which has `FileName`.

## Model

| member | source | states |
|---|---|---|
| Text.Trim | Unify/Extensions/StringExtensions.cs:114 | The trimmed string is an infix of the input, with only white space before and after it, and it neither starts nor ends with white space. So exactly the leading and trailing white space is dropped. |
| Text.TrimEmpty | Unify/Extensions/StringExtensions.cs:71 | `str.Trim() == ""` holds exactly when every character is white space. |
| Text.TrimIdentity | Unify.Uploads.Api/Extensions.cs:18 | A string with no white space at either end is its own trim. |
| Text.TrimKeeps | Unify/Extensions/StringExtensions.cs:121 | Trimming only removes characters: whatever is left was in the input. |
| Text.ToLowerAscii | Unify.Uploads.Api/TusSqlServerStore.cs:239 | Lower-casing keeps the length and maps each character through ASCII lower-casing. |
| Text.LastIndexOf | Unify/Extensions/StringExtensions.cs:75 | -1 exactly when the character is absent; otherwise the position of that character with none after it. |
| Text.SplitJoin | Unify.Web.Ui.Component.Upload/Stores/TusSqliteStore.cs:341 | Splitting on ',' a join of comma-free pieces gives those pieces back. |
| Text.JoinSplit | Unify.Uploads.Api/TusSqlServerStore.cs:337 | Joining the pieces of a split gives the string back, and no piece holds the separator. |
| Text.Filter | Unify/Extensions/StringExtensions.cs:120 | A single-character regex replaced by "" keeps only characters that pass, and keeps every input character that passes. The result is empty exactly when no character passes, and is no longer than the input. `FilterCounts` adds multiplicity and `FilterConcat` adds order. |
| Text.FilterCounts | Unify/Extensions/StringExtensions.cs:120 | Every passing character is kept as often as it occurs in the input, and no other character is kept. |
| Text.FilterConcat | Unify/Extensions/StringExtensions.cs:120 | Filtering a concatenation concatenates the filtered parts, so the kept characters stay in order. |
| Text.MapChars | Unify/Extensions/StringExtensions.cs:117 | A per-character mapping keeps the length and maps each position. |
| Text.ReplaceChar | Unify/Extensions/StringExtensions.cs:88-92 | `Replace(char, char)` keeps the length and swaps exactly the positions holding the old character. |
| Text.ReplaceAllChar | Unify/Extensions/StringExtensions.cs:30-31 | Replacing a one-character string by "" is filtering that character out. |
| Text.FilterAfterRemoving | Unify/Extensions/StringExtensions.cs:29 | Removing `Environment.NewLine` first changes nothing that a later line-break filter keeps. |
| Text.TrimEndChar | Unify/Extensions/StringExtensions.cs:129 | `TrimEnd('-')` gives a prefix that does not end in '-', and every character it drops is '-'. |
| Text.ReplaceRunsKeeps | Unify/Extensions/StringExtensions.cs:61 | After replacing runs, every character either came from the input outside the runs or from the replacement. |
| Text.ReplaceRunsIdentity | Unify/Extensions/StringExtensions.cs:61 | A string with no run characters is left as it is. |
| Text.ReplaceRunsNoAdjacent | Unify/Extensions/StringExtensions.cs:66 | Replacing each run by one run character leaves no two run characters side by side. |
| Text.ReplaceRunsOutside | Unify/Extensions/StringExtensions.cs:66 | Replacing runs by run characters keeps every other character, in order. |
| Text.ReplaceRunsSingle | Unify/Extensions/StringExtensions.cs:66 | Where no two run characters are adjacent, the replacement changes nothing (idempotence). |
| Base64.Encode | Unify.Uploads.Api/Extensions.cs:20 | The client-side encoding that `FromBase64String` reads: 4 characters per 3 bytes (rounded up), all from the alphabet or '='. |
| Base64.FromBase64String | Unify.Uploads.Api/Extensions.cs:20 | Once the blanks are skipped, it succeeds exactly on well-formed text. Anything else throws FormatException: a length that is not a multiple of 4, a character outside the alphabet, or '=' anywhere but the last two places. |
| Base64.DecodeWellFormed | Unify.Uploads.Api/Extensions.cs:20 | Strict decoding succeeds iff the text is whole quanta of alphabet characters, padded only at the end. |
| Base64.DecodeEncode | Unify.Uploads.Api/Extensions.cs:20 | Strict decoding inverts encoding for every byte sequence. |
| Base64.FromBase64StringEncode | Unify.Uploads.Api/Extensions.cs:20 | Round trip: `FromBase64String` of an encoding gives the bytes back. |
| Base64.EncodeIsPlain | Unify.Uploads.Api/Extensions.cs:14-19 | An encoding has no comma and no white space, so the header splits leave it whole; it is empty only for no bytes. |
| TusMetadata.GetValue | Unify.Uploads.Api/Extensions.cs:7-26 | The loop returns what `MetadataValue` specifies: a null argument throws; the first trimmed entry starting with the key and a space decides the value; with no such entry the value is "". |
| TusMetadata.FirstMatchSpec | Unify.Uploads.Api/Extensions.cs:16-18 | The scan finds an entry that names the property exactly when one exists. |
| TusMetadata.NoMatchReadsEmpty | Unify.Uploads.Api/Extensions.cs:12-25 | When no entry names the property, the result is "". |
| TusMetadata.FirstMatchWins | Unify.Uploads.Api/Extensions.cs:16-22 | The first entry naming the property decides the result; later duplicates are ignored. |
| TusMetadata.ValueOfMatching | Unify.Uploads.Api/Extensions.cs:18-20 | A matching entry always has a second token, so `Split(' ')[1]` cannot throw; only bad base64 can. |
| TusMetadata.OnlyNullOrFormatThrows | Unify.Uploads.Api/Extensions.cs:9-20 | The lookup throws only ArgumentNullException or FormatException. |
| TusMetadata.KeyWithoutValueNeverMatches | Unify.Uploads.Api/Extensions.cs:18 | An entry that is only a key never matches, because the match needs the space after the name. |
| TusMetadata.EntryMatchesOnlyItsKey | Unify.Uploads.Api/Extensions.cs:18 | "key value" matches a name iff the name is the key; a longer key that merely starts with the name does not match. |
| TusMetadata.EntriesOfHeader | Unify.Uploads.Api/Extensions.cs:14 | Splitting a client's header with RemoveEmptyEntries and TrimEntries gives its entries back, in order. |
| TusMetadata.HeaderRoundTrip | Unify.Uploads.Api/Extensions.cs:7-26 | Looking a key up in a header built from distinct keys gives that key's value decoded. |
| TusMetadata.HeaderAbsentKey | Unify.Uploads.Api/Extensions.cs:7-26 | A name that is not among the header's keys reads as "". |
| UploadCore.NewRecord | Unify.Web.Ui.Component.Upload/Stores/TusSqliteStore.cs:70-76 | A new row has offset 0, the given length, no expiry and no concatenation, and is not committed. |
| UploadCore.AppendResumes | Unify.Uploads.Api/TusSqlServerStore.cs:174-198 | Append grows the blob by exactly the data. The offset of an existing row rises by the data's length; an unknown id gets a blob but no row. The length is unchanged even when exceeded, nothing else changes, and offsets keep matching blob sizes. |
| UploadCore.AppendInChunks | Unify.Uploads.Api/TusSqlServerStore.cs:184-188 | Appending a then b equals appending a + b, so the buffer size does not matter. |
| UploadCore.DeleteRemovesOnlyId | Unify.Uploads.Api/TusSqlServerStore.cs:204-217 | Delete fails iff the blob exists and is locked. Otherwise it removes exactly that id's row and blob; deleting again changes nothing; consistency and commit flags are kept. |
| UploadCore.DeleteUnknown | Unify.Uploads.Api/TusSqlServerStore.cs:208-216 | Deleting an id with neither row nor blob changes nothing. |
| UploadCore.SetUploadLengthOverwrites | Unify.Uploads.Api/TusSqlServerStore.cs:422-428 | The last length set is read back (null for an unknown id), with no once-only check; no other column or file changes. |
| UploadCore.ExpirationRoundTrip | Unify.Uploads.Api/TusSqlServerStore.cs:276-292 | `GetExpirationAsync` returns the instant last set, or null for an unknown id; nothing else changes. |
| UploadCore.CommitIsOneWay | Unify.Uploads.Api/TusSqlServerStore.cs:450-456 | Commit sets IsCommitted, is idempotent, and changes no other column or row. |
| UploadCore.MarkPartialKeeps | Unify.Uploads.Api/TusSqlServerStore.cs:350-351 | The UPDATE sets UploadConcat to 'partial' and changes nothing else. |
| UploadCore.AlgorithmNamedSupported | Unify.Uploads.Api/TusSqlServerStore.cs:223-267 | The switch recognises a name iff its lower-case form is one of the advertised "sha1", "sha256" and "md5". |
| UploadCore.AlgorithmNameIgnoresCase | Unify.Uploads.Api/TusSqlServerStore.cs:239 | The switch ignores case: a name and its lower-case form choose the same algorithm. |
| UploadCore.ChecksumAccepted | Unify.Uploads.Api/TusSqlServerStore.cs:228-270 | A checksum is accepted iff the file exists, the algorithm is supported, and the checksum equals that algorithm's digest of the whole file. |
| UploadCore.SelectWhere | Unify.Uploads.Api/TusSqlServerStore.cs:298-303 | The SELECT returns each matching id exactly once and no other id. |
| UploadCore.DeleteEachRemoves | Unify.Uploads.Api/TusSqlServerStore.cs:306-318 | The deletion loop completes iff no listed blob is locked, and then removes exactly the listed ids. Otherwise it stops with IOException after removing a prefix of the list. |
| UploadCore.DistinctCount | Unify.Uploads.Api/TusSqlServerStore.cs:309-317 | The count of a list without repeats is the number of distinct ids it holds. |
| UploadCore.RemovedKeeps | Unify.Uploads.Api/TusSqlServerStore.cs:306-318 | Removing files keeps offsets matching blobs, touches no commit flag, and leaves none of the removed files existing. |
| UploadCore.ExpiredSweepSpares | Unify.Uploads.Api/TusSqlServerStore.cs:298-301 | Sweeping the expired files keeps exactly the rows with no expiry or a future one. |
| UploadCore.Swept | Unify.Uploads.Api/TusSqlServerStore.cs:306-318 | What the loop's outcome means for a sweep: on success, exactly the selected files are gone and counted; on failure, IOException and a subset of them gone. |
| UploadCore.ConcatAppend | Unify.Uploads.Api/TusSqlServerStore.cs:371-379 | Concatenation distributes over list concatenation, so the partial uploads' order is kept. |
| UploadCore.ConcatSkipsMissing | Unify.Uploads.Api/TusSqlServerStore.cs:374-378 | Missing partial files contribute nothing: the result equals the concatenation of only those present. |
| UploadCore.ConcatStep | Unify.Uploads.Api/TusSqlServerStore.cs:373-378 | One more partial appends its bytes, or nothing when its file is missing. |
| UploadCore.ConcatReadsListed | Unify.Uploads.Api/TusSqlServerStore.cs:371-379 | Concatenation reads only the listed files. |
| UploadCore.Present | Unify.Uploads.Api/TusSqlServerStore.cs:374 | The ids whose file exists: exactly the listed ids that have a blob. |
| UploadCore.FinalRecord | Unify.Web.Ui.Component.Upload/Stores/TusSqliteStore.cs:391-398 | A final upload's length equals its offset, and PartialUploads is the comma-join of the partial ids. |
| SqlServerStore.RequireNonEmpty | Unify.Uploads.Api/TusSqlServerStore.cs:87 | `ThrowIfNullOrEmpty` passes iff the value is present and non-empty. It throws ArgumentNullException for null and ArgumentException for "". |
| SqlServerStore.ValidatedMetadata | Unify.Uploads.Api/TusSqlServerStore.cs:86-100 | A validation that passes had a non-empty secret and a non-empty encrypted appId, whose decryption is the stored appId. The zone and upload ids were non-empty, and the name was read from the metadata. |
| SqlServerStore.CreateRejectsMissingIds | Unify.Uploads.Api/TusSqlServerStore.cs:86-98 | A missing or empty secret, metadata, appId, zoneId or uploadId fails before any file or row is written. |
| SqlServerStore.ColumnValueCutsBlanks | Unify.Uploads.Api/TusSqlServerStore.cs:52 | A value fits its NVARCHAR(50) column iff it is at most 50 characters once its trailing blanks are dropped. SQL Server cuts blanks past the width without an error, so a fitting value is stored as a prefix that drops trailing blanks only. A value of at most 50 characters is stored whole, and a stored value is empty only when the value was. |
| SqlServerStore.CreateAddsOneFile | Unify.Uploads.Api/TusSqlServerStore.cs:84-130 | A successful creation adds exactly one row and one empty blob under the fresh id. The row has offset 0, the given length and the validated columns, and is not committed. |
| SqlServerStore.CreateStoresValidated | Unify.Uploads.Api/TusSqlServerStore.cs:113-127 | The inserted row holds the metadata. It also holds the decrypted appId, the zone and upload ids and the name, each fitting its column and stored cut to it. The zone and upload ids stored are not empty. |
| SqlServerStore.CreateLeavesBlobOnInsertFailure | Unify.Uploads.Api/TusSqlServerStore.cs:103-127 | A file name with a non-blank character past the 50th does not fit NVARCHAR(50). It fails the INSERT after the empty file was created. The file stays behind without a row, so `FileExistAsync` does not report it. |
| SqlServerStore.PartialReadsBack | Unify.Uploads.Api/TusSqlServerStore.cs:324-354 | A partial upload reads back as partial. |
| SqlServerStore.ValidatedFinal | Unify.Uploads.Api/TusSqlServerStore.cs:358-362 | The checks pass iff appId and zoneId are both read from the metadata and neither is empty. The values passed on are the raw, undecrypted ids. |
| SqlServerStore.CreateFinalNeverInserts | Unify.Uploads.Api/TusSqlServerStore.cs:356-403 | As written, every call fails and adds no row. A call that fails the checks changes nothing and reports their error. One that passes them adds the concatenated file and no row, and fails on the NOT NULL FileName. |
| SqlServerStore.FinalIntendedRecorded | Unify.Uploads.Api/TusSqlServerStore.cs:356-403 | With FileName supplied, the final upload is recorded, and nothing else changes. Its file is the existing partials in order, and its length and offset are that size. The row holds the raw appId (unlike CreateFileAsync, not decrypted), the zoneId and the "name" entry as FileName, each fitting its column and stored cut to it. It also holds the metadata, the creation time and the comma-joined partial ids. It has no upload id and no expiry, and is not committed. |
| SqlServerStore.FinalIntendedReadsBack | Unify.Uploads.Api/TusSqlServerStore.cs:335-341 | A final upload of comma-free ids reads back as that list, except [""]. An empty list reads back as no concatenation. |
| SqlServerStore.JoinNotEmpty | Unify.Uploads.Api/TusSqlServerStore.cs:335 | The joined PartialUploads is "" iff the list is empty or [""]: exactly the lists that do not read back as final. |
| SqlServerStore.SessionFile | Unify.Uploads.Api/TusSqlServerStore.cs:472-479 | A listed file carries its id and its upload length as size. |
| SqlServerStore.FileInfoAfterCreate | Unify.Uploads.Api/TusSqlServerStore.cs:510-534 | After creation, the details report the "name" entry as read again from the metadata, offset 0 and the given length. The stored FileName is that name cut to its column. SessionId is null although the row has an upload id. |
| SqlServerStore.StaleSparesCommitted | Unify.Uploads.Api/TusSqlServerStore.cs:492-496 | Cleanup never selects a committed file or one created at or after the cutoff. |
| SqlServerStore.TusSqlServerStore.constructor | Unify.Uploads.Api/TusSqlServerStore.cs:26-39 | A new store starts with an empty table and directory and keeps its configuration and services. |
| SqlServerStore.TusSqlServerStore.CreateFile | Unify.Uploads.Api/TusSqlServerStore.cs:84-130 | The checks in source order, then the empty file, then the INSERT. The INSERT fails when a value has a non-blank character past its column's width. Otherwise it stores each value cut to 50 characters. The new state and result are those of `Create`. |
| SqlServerStore.TusSqlServerStore.AppendData | Unify.Uploads.Api/TusSqlServerStore.cs:174-198 | The buffered copy loop returns the stream length and leaves the state `Append` specifies. |
| SqlServerStore.TusSqlServerStore.DeleteFile | Unify.Uploads.Api/TusSqlServerStore.cs:204-217 | The new state is `Delete`'s. On IOException nothing changes. |
| SqlServerStore.TusSqlServerStore.VerifyChecksum | Unify.Uploads.Api/TusSqlServerStore.cs:228-270 | Returns `ChecksumMatches` and changes nothing. |
| SqlServerStore.TusSqlServerStore.SetExpiration | Unify.Uploads.Api/TusSqlServerStore.cs:276-282 | The new state is `SetExpiration`'s. |
| SqlServerStore.TusSqlServerStore.SetUploadLength | Unify.Uploads.Api/TusSqlServerStore.cs:422-428 | The new state is `SetUploadLength`'s. |
| SqlServerStore.TusSqlServerStore.CommitFile | Unify.Uploads.Api/TusSqlServerStore.cs:450-456 | The new state is `Commit`'s. |
| SqlServerStore.TusSqlServerStore.CreatePartialFile | Unify.Uploads.Api/TusSqlServerStore.cs:344-354 | The new state and result are `CreatePartial`'s: creation, then UploadConcat = 'partial'. |
| SqlServerStore.TusSqlServerStore.CreateFinalFile | Unify.Uploads.Api/TusSqlServerStore.cs:356-403 | The new state and result are `CreateFinal`'s: the checks, the concatenation, then the failing INSERT. |
| SqlServerStore.TusSqlServerStore.ConcatenatePartials | Unify.Uploads.Api/TusSqlServerStore.cs:369-380 | The copy loop leaves the final file as the existing partials concatenated in order, and no row changes. |
| SqlServerStore.TusSqlServerStore.GetExpiredFiles | Unify.Uploads.Api/TusSqlServerStore.cs:294-304 | Returns exactly the expired ids, each once. |
| SqlServerStore.TusSqlServerStore.GetStaleFiles | Unify.Uploads.Api/TusSqlServerStore.cs:492-498 | Returns exactly the uncommitted ids created before the cutoff, each once. |
| SqlServerStore.TusSqlServerStore.DeleteEachFile | Unify.Uploads.Api/TusSqlServerStore.cs:311-315 | The foreach over `DeleteFileAsync` counts the ids and leaves `DeleteEach`'s state. It stops at the first exception. |
| SqlServerStore.TusSqlServerStore.RemoveExpiredFiles | Unify.Uploads.Api/TusSqlServerStore.cs:306-318 | Exactly the expired files are removed and counted, unless a locked file stops the sweep (`SweptExactly`). |
| SqlServerStore.TusSqlServerStore.CleanupUncommittedFiles | Unify.Uploads.Api/TusSqlServerStore.cs:486-508 | A cutoff outside DateTime's range throws and changes nothing. Otherwise exactly the uncommitted files created before `now - olderThan` are removed and counted (`SweptExactly`). |
| SqlServerStore.TusSqlServerStore.GetFilesBySession | Unify.Uploads.Api/TusSqlServerStore.cs:458-483 | Succeeds iff every row of the session has a length that fits `int`. An overflow fails the query first; a null size fails the mapping. On success there is one entry per row, with id and size. |
| SqliteStore.CreateAddsFile | Unify.Web.Ui.Component.Upload/Stores/TusSqliteStore.cs:56-81 | A created upload exists, is empty and has offset 0. It reads back its length and its metadata (null as ""), has no expiry, is neither partial nor final, and nothing else changes. |
| SqliteStore.PartialReadsBack | Unify.Web.Ui.Component.Upload/Stores/TusSqliteStore.cs:321-363 | A partial upload reads back as partial and is otherwise a fresh empty upload. |
| SqliteStore.FinalRecorded | Unify.Web.Ui.Component.Upload/Stores/TusSqliteStore.cs:365-403 | A final upload holds the existing partials in order, and its length and offset are its size. It keeps the metadata and changes nothing else. |
| SqliteStore.FinalReadsBack | Unify.Web.Ui.Component.Upload/Stores/TusSqliteStore.cs:336-343 | A final upload of comma-free ids reads back as those ids. An empty list reads back as one empty id, because "" is not null. |
| SqliteStore.TusSqliteStore.constructor | Unify.Web.Ui.Component.Upload/Stores/TusSqliteStore.cs:21-32 | A new store starts with an empty table and directory. |
| SqliteStore.TusSqliteStore.CreateFile | Unify.Web.Ui.Component.Upload/Stores/TusSqliteStore.cs:56-81 | Returns the fresh id and leaves `Create`'s state. |
| SqliteStore.TusSqliteStore.AppendData | Unify.Web.Ui.Component.Upload/Stores/TusSqliteStore.cs:140-169 | The buffered copy loop returns the stream length and leaves `Append`'s state. |
| SqliteStore.TusSqliteStore.DeleteFile | Unify.Web.Ui.Component.Upload/Stores/TusSqliteStore.cs:175-192 | The new state is `Delete`'s. On IOException nothing changes. |
| SqliteStore.TusSqliteStore.VerifyChecksum | Unify.Web.Ui.Component.Upload/Stores/TusSqliteStore.cs:203-245 | Returns `ChecksumMatches`. |
| SqliteStore.TusSqliteStore.SetExpiration | Unify.Web.Ui.Component.Upload/Stores/TusSqliteStore.cs:251-262 | The new state is `SetExpiration`'s. |
| SqliteStore.TusSqliteStore.SetUploadLength | Unify.Web.Ui.Component.Upload/Stores/TusSqliteStore.cs:419-430 | The new state is `SetUploadLength`'s. |
| SqliteStore.TusSqliteStore.GetExpiredFiles | Unify.Web.Ui.Component.Upload/Stores/TusSqliteStore.cs:284-301 | The reader loop returns exactly the expired ids, each once. |
| SqliteStore.TusSqliteStore.DeleteEachFile | Unify.Web.Ui.Component.Upload/Stores/TusSqliteStore.cs:306-312 | The foreach over `DeleteFileAsync` counts the ids and leaves `DeleteEach`'s state. |
| SqliteStore.TusSqliteStore.RemoveExpiredFiles | Unify.Web.Ui.Component.Upload/Stores/TusSqliteStore.cs:303-315 | Exactly the expired files are removed and counted, unless a locked file stops the sweep. |
| SqliteStore.TusSqliteStore.CreatePartialFile | Unify.Web.Ui.Component.Upload/Stores/TusSqliteStore.cs:349-363 | Returns the fresh id and leaves `CreatePartial`'s state. |
| SqliteStore.TusSqliteStore.CreateFinalFile | Unify.Web.Ui.Component.Upload/Stores/TusSqliteStore.cs:365-403 | The copy loop, then the INSERT: returns the fresh id and leaves `CreateFinal`'s state. |
| StringExtensions.SafeFilenameAsWritten | Unify/Extensions/StringExtensions.cs:11-25 | As written, the result has no white space and is "" exactly for null or white space. It does not depend on `replacement`. |
| StringExtensions.SafeFilenameKeepsInvalid | Unify/Extensions/StringExtensions.cs:20-21 | As written, "a/b" comes back unchanged, with its invalid '/', on every platform. |
| StringExtensions.ReplaceInvalidChars | Unify/Extensions/StringExtensions.cs:150-152 | Every character left is either a valid input character or from the replacement. |
| StringExtensions.SafeFilenameIntended | Unify/Extensions/StringExtensions.cs:11-25 | As intended, with a safe replacement the result holds no white space and no invalid file-name character; null or white space still gives "". |
| StringExtensions.SafeNameUnchanged | Unify/Extensions/StringExtensions.cs:11-25 | As intended, a name that is already safe comes back as it is. |
| StringExtensions.InvalidCharsIdentity | Unify/Extensions/StringExtensions.cs:150-152 | A string with no invalid character is left as it is. |
| StringExtensions.RemoveLineBreaksSpec | Unify/Extensions/StringExtensions.cs:27-33 | On either platform the result is the input with every '\r' and '\n' dropped and all else kept in order. It holds no line break, and a second call changes nothing. |
| StringExtensions.LineBreaksFiltered | Unify/Extensions/StringExtensions.cs:27-33 | The three Replace calls together equal one filter that drops '\r' and '\n'. |
| StringExtensions.DoubleSpacesRemoved | Unify/Extensions/StringExtensions.cs:64-67 | No two spaces end up adjacent, and every character other than a space is kept, in order. Nothing new appears, and a second call changes nothing. |
| StringExtensions.CutLongString | Unify/Extensions/StringExtensions.cs:69-83 | White space comes back untouched, and a short string gets the ellipsis. A longer one is cut to `length`, then back to its last space if it has one, before the ellipsis. A negative length throws. |
| StringExtensions.RemoveQuotationMarks | Unify/Extensions/StringExtensions.cs:85-95 | Keeps the length; exactly the five quotation marks become an apostrophe. |
| StringExtensions.QuotationMarksRemoved | Unify/Extensions/StringExtensions.cs:85-95 | No quotation mark is left, and a second call changes nothing. |
| StringExtensions.CountChars | Unify/Extensions/StringExtensions.cs:97-106 | The loop returns the number of occurrences of the character (its multiplicity), which is between 0 and the length. |
| StringExtensions.SlugChars | Unify/Extensions/StringExtensions.cs:119-124 | After the three regexes the text holds only [a-z0-9-] and never "--". |
| StringExtensions.CutSlug | Unify/Extensions/StringExtensions.cs:127-130 | The cut and TrimEnd keep a prefix, which is still a slug and made of RFC 3986 unreserved characters. |
| StringExtensions.PermaLinkSlug | Unify/Extensions/StringExtensions.cs:108-136 | Null and white space pass through, and a negative length throws. Otherwise the permalink is at most `length` long, made of [a-z0-9-] and never holds "--". |
| StringExtensions.Utf8 | Unify/Extensions/StringExtensions.cs:133 | One to four bytes per character, each a byte value. |
| StringExtensions.PercentEncode | Unify/Extensions/StringExtensions.cs:133 | Three characters per byte. |
| StringExtensions.EscapeUnreserved | Unify/Extensions/StringExtensions.cs:133 | `Uri.EscapeDataString` leaves a string of unreserved characters as it is. |
| StringExtensions.LastSpaceAtOrBefore | Unify/Extensions/StringExtensions.cs:140-144 | The greatest index at or before e holding a space, or -1 when there is none. |
| StringExtensions.NonBreakingSubstring | Unify/Extensions/StringExtensions.cs:138-147 | For C# int arguments, `e = startIndex + length` is the int sum, which wraps around. The call succeeds iff `0 <= startIndex <= e <= |str|` and either `e == |str|` or a space lies in `str[startIndex..e]` (both ends included). Success implies the sum did not wrap. The result is then `str[startIndex..end]`, where `end` is the last space at or before `e`, or the end of the string. It is at most `length` long. Otherwise the call fails with IndexOutOfRange or ArgumentOutOfRange. |
| StringExtensions.NonBreakingOverflow | Unify/Extensions/StringExtensions.cs:140-141 | A non-negative start whose sum with `length` exceeds int.MaxValue wraps to a negative index. Reading the string there throws IndexOutOfRange, whatever the string. |
| StringExtensions.ToNonBreakingSubstring | Unify/Extensions/StringExtensions.cs:138-147 | The stepping-back loop and Substring give exactly `NonBreakingSubstring`. |
| EnumerableExtensions.ChunksFlatten | Unify/Extensions/EnumerableExtensions.cs:12-14 | The batches put back together are the items, in order. |
| EnumerableExtensions.ChunksSizes | Unify/Extensions/EnumerableExtensions.cs:12-14 | Batches are non-empty and hold at most k items, all but the last exactly k. There are ceil(n / k) of them, and none for no items. |
| EnumerableExtensions.ChunksPosition | Unify/Extensions/EnumerableExtensions.cs:13 | The item at index j * k + p is in batch j at position p. |
| EnumerableExtensions.BatchSpec | Unify/Extensions/EnumerableExtensions.cs:9-15 | Batch fails (DivideByZeroException) iff maxItems is 0 and there are items. Otherwise its batches flatten to the items and have the sizes above for k = abs(maxItems). |
| EnumerableExtensions.BatchGroupsByKey | Unify/Extensions/EnumerableExtensions.cs:12-14 | The item at index i is in the batch numbered by the size of its key `i / maxItems` (C# division), at position `i % abs(maxItems)`. |
| EnumerableExtensions.KeySize | Unify/Extensions/EnumerableExtensions.cs:13 | The size of the C# quotient i / maxItems is i / abs(maxItems), for either sign of maxItems. |
| EnumerableExtensions.OxfordCommaListing | Unify/Extensions/EnumerableExtensions.cs:18-31 | ToOxfordComma agrees with an independent item-by-item definition of the serial-comma list. |
| EnumerableExtensions.SerialTailJoin | Unify/Extensions/EnumerableExtensions.cs:23 | The join of all but the last item, then ", and " and the last, is the item-by-item listing. |
| EnumerableExtensions.OxfordCommaForms | Unify/Extensions/EnumerableExtensions.cs:18-31 | Null gives "", two items give "a and b", and three or more end with ", and " followed by the last item. |
| DateTime.Date | Unify/Extensions/DateTimeExtensions.cs:14 | `DateTime.Date` is the midnight at or before the instant, less than a day earlier. |
| DateTimeExtensions.GetFirstDayOfWeek | Unify/Extensions/DateTimeExtensions.cs:8-20 | Succeeds iff the week's first day is not before 0001-01-01; otherwise AddDays throws ArgumentOutOfRange. The result is a midnight on the culture's first day of the week, at most 7 days before the input. A date already on that day gives its own midnight. |
| DateTimeExtensions.BackTo | Unify/Extensions/DateTimeExtensions.cs:16-17 | Stepping back, the first day of the week is reached exactly after (day - firstDay) mod 7 steps. |
| DateTimeExtensions.SameDay | Unify/Extensions/DateTimeExtensions.cs:14-16 | The date of an instant falls on the same day of the week. |
| DateTimeExtensions.DayBefore | Unify/Extensions/DateTimeExtensions.cs:17 | AddDays(-1) on a midnight gives a midnight on the previous day of the week. |
| MustBeChecked.Merged | Unify.Validation/MustBeCheckedAttribute.cs:40-49 | The key is added with the value unless present, and existing entries keep their values. |
| MustBeChecked.MustBeCheckedAttribute.IsValid | Unify.Validation/MustBeCheckedAttribute.cs:35-38 | Valid iff the value is the boolean true; null, false and other objects are not. |
| MustBeChecked.MustBeCheckedAttribute.IsValidInContext | Unify.Validation/MustBeCheckedAttribute.cs:24-33 | Success iff `IsValid`. Otherwise the configured message, or "You must tick this" when none is configured. |
| MustBeChecked.MustBeCheckedAttribute.MergeAttribute | Unify.Validation/MustBeCheckedAttribute.cs:40-49 | Answers true iff the key was absent. The dictionary becomes `Merged`. |
| MustBeChecked.MustBeCheckedAttribute.AddValidation | Unify.Validation/MustBeCheckedAttribute.cs:13-22 | A null context throws ArgumentNullException("context"). Otherwise both data-val entries are merged in. |
| MustBeChecked.ValidationAttributesSpec | Unify.Validation/MustBeCheckedAttribute.cs:13-22 | Afterwards both keys are present and existing entries are kept. New entries carry "true" and the message, and nothing else is added. |
| MustBeChecked.ValidationAttributesIdempotent | Unify.Validation/MustBeCheckedAttribute.cs:20-21 | Rendering a second time changes nothing. |

## Left out

- **Left out entirely:**
  - Asynchrony, cancellation tokens, connections and SQL text are not modelled. Each statement is its effect on the table.
  - SQLite's and SQL Server's type conversions are not modelled. Instants are `DateTime` ticks. SQLite stores them as ISO 8601 text, which compares in the same order.
  - `InitializeDatabase` and the creation of the upload directory are not modelled. A store starts empty. The schema matters only for its NOT NULL and NVARCHAR(50) constraints, which are modelled. An NVARCHAR(50) column takes a longer value whose excess is only blanks (' ') and stores it cut to 50 characters, as SQL Server's ANSI rule for trailing blanks does. Any other excess fails with error 8152.
  - `GetFileAsync` and the `ITusFile` classes (`TusSqlServerFile`, `TusSqliteFile`) are not modelled. They open the stored file or re-parse the metadata for tusdotnet, which is outside this model.
  - `GetExpirationAsync` in SQLite parses its text back with `DateTimeOffset.Parse`. The model returns the stored instant: formatting and parsing are taken to round-trip.
  - The remaining string extensions are not modelled: `StripHtml`, `StripHTMLFromstr` and `ReplaceNewLineWithBr`. They rely on HTML decoding.
- **Stood in for by parameters or injected functions:**
  - Fresh GUIDs and `DateTime.UtcNow` are parameters. A caller supplies an id that is not in use.
  - Decryption, UTF-8 decoding, the SHA1/SHA256/MD5 digests and `ToLowerInvariant` (in `ToPermaLink`) are injected functions.
  - The configured secret is a constant of the store.
  - `CultureInfo.CurrentCulture` is resolved by the caller: `GetFirstDayOfWeek` takes the culture's first day of the week.
  - The file system's refusal to delete a file is the store's `locked` set. Other I/O failures (disk full, missing directory, permissions) are not modelled.
- **Simplified:**
  - The read queries (`GetUploadLengthAsync`, `GetUploadOffsetAsync`, `GetUploadMetadataAsync`, `GetExpirationAsync`, `FileExistAsync`, `GetUploadConcatAsync`, `GetFileInfoAsync`) are functions of `State()`, not methods.
  - `GetSupportedAlgorithmsAsync` is the constant `SupportedAlgorithms`.
  - Strings are sequences of Unicode scalar values, not UTF-16 code units, and ordinal comparison is used throughout. `ToLowerInvariant` in the checksum switch is ASCII lower-casing, which decides the same for the three names.
  - `string.StartsWith(string)` is culture-sensitive in .NET. The model of `GetValue` uses ordinal comparison. The two agree on headers whose entries are ASCII. They differ on entries that hold characters the culture comparison ignores: `"na\u00ADme eA=="` (with a soft hyphen) starts with `"name "` under culture comparison, so the source matches it, but the model does not.
- **Not modelled here:**
  - 64-bit integers (`long` offsets and lengths) are unbounded. Three things are bounded: the `CAST(... AS INT)` of `GetFilesBySessionAsync`, DateTime's range, and the int sum `startIndex + length` of `ToNonBreakingSubstring`, which wraps around.
  - Null receivers are not modelled for `RemoveLineBreaks`, `RemoveDoubleSpaceCharacters`, `CutLongString`, `RemoveQuotationMarks`, `CountChars` and `ToNonBreakingSubstring`. Their `str` is never null in the model. In the source a null `str` throws NullReferenceException at its first use. Only `ToSafeFilename` and `ToPermaLink` check for null, and the model keeps those checks.
  - Null elements inside the array passed to `ToOxfordComma` (`string.Join` prints them as "") are not modelled. The array itself may be null.
- SqliteStore.UploadConcatOf and SqlServerStore.UploadConcatOf: no own contract. Their behaviour is stated by `FinalReadsBack`, `FinalIntendedReadsBack` and the `PartialReadsBack` lemmas.
- StringExtensions.ToPermaLink: the escape step is proved only to leave unreserved characters alone. Percent-encoding of other characters is defined (`EscapeDataString`) but is not reached from a slug.
- SqlServerStore.TusSqlServerStore.CreateFinalFile: models the INSERT as written, which always fails. `CreateFinalIntended` is the corrected transition, a function with no method of its own.

## Findings

| source | as written | input that shows it | evidently intended | confidence | as-written member | corrected member |
|---|---|---|---|---|---|---|
| Unify.Uploads.Api/TusSqlServerStore.cs:386-400 | The INSERT of `CreateFinalFileAsync` leaves out `FileName`, which the table declares NOT NULL (line 52). Every call that passes the appId and zoneId checks therefore fails after writing the concatenated file, which is left behind with no row. | metadata "appId YQ==,zoneId eg==" with any list of partial ids | Insert the upload's "name" metadata as FileName, as `CreateFileAsync` does, so that the final upload is recorded | not executed | SqlServerStore.CreateFinalNeverInserts | SqlServerStore.FinalIntendedRecorded |
| Unify/Extensions/StringExtensions.cs:20-21 | `ToSafeFilename` calls `ReplaceSpaceCharacters()` without passing `replacement`, and discards the result of `RemoveInvalidChars.Replace`. Invalid file-name characters are kept, and `replacement` is never used. | ToSafeFilename("a/b", "-") returns "a/b" | White-space runs and invalid characters both replaced by `replacement`, and that result returned | not executed | StringExtensions.SafeFilenameKeepsInvalid | StringExtensions.SafeFilenameIntended |
