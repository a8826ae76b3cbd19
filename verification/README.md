# aws-s3-backup: a Dafny model of the transfer core

This project models the decision and staging layer of the `aws-s3-backup`
command-line tool, and the helpers that layer is built on:

- `S3APIWrapper` decides whether a local file needs uploading. It compares the
  file's SHA-256 with the `sha256` user metadata of the remote object. It
  writes the `client-side-encryption` and `sha256` metadata on every upload. It
  stages the ciphertext of an encrypted upload at the configured temporary
  file. It uploads a folder one file per key, or packed into a single zip. It
  downloads an object, decrypting it or copying it as the stored encryption
  flag says.
- `UploadBatchCommand.run` interprets a backup script line by line. Each line
  is `VERB // first // second // encrypt-or-plaintext`.
- `Utils` provides the strict `encrypt`/`plaintext` token parser and the file
  fingerprint: the chunked SHA-256 loop plus `BigInteger(1, d).toString(16)`.
- `copyToWithProgress` is the buffered copy loop with its "more than N bytes
  since the last report" call-back rule.
- `FolderZipper.pack` walks a folder top-down, prunes directories, and writes
  one archive entry per non-directory file.

## How the model is built

The world an operation acts on is a value `World(fs, store)`:

- `LocalFs.FileSystem` is a map from paths to bytes plus a set of directories.
- `ObjectStore.Store` is the bucket: a map from keys to objects (user metadata,
  body, storage class). It also holds the keys on which the service answers
  with an error, and the log of requests made to it.

Each wrapper operation has two forms:

- A function (`UploadFileSpec`, `UploadFolderSpec`, `UploadFolderAsZipSpec`,
  `DownloadSpec`) says which world the operation ends in and whether it throws.
- A method of the class `S3ApiWrapper.S3APIWrapper` performs the same steps one
  at a time on its fields `fs` and `store`, and is proved to end as the
  function says.

The loops keep their form:

- the upload of a folder's files;
- the progress listener fed by the transfer's events;
- the digest loop;
- the copy loop;
- the zip entry loop;
- the batch loop.

Each loop is a method with invariants, proved against a function, and the
properties of the source are lemmas about those functions.

The model is given several parts of the platform as parameters instead of
defining them:

- SHA-256 (FIPS 180-4) is a function from bytes to a 32-byte digest.
- The AWS Encryption SDK envelope format is a pair of functions,
  `encrypt(key, context, plaintext)` and `decrypt(key, message)`. `decrypt`
  gives back the message's encryption context and plaintext, or nothing when
  the SDK refuses the message (another key, a corrupt message). A refusal is
  the exception kind `AwsCrypto`. A message the SDK accepts but whose context
  lacks `Example = FileStreaming` fails the `check` in `decryptFromStream`
  with IllegalStateException("Bad encryption context"). The lemmas that need
  a working cipher assume its round trip (`EncryptionSdk.RoundTrips`) as a
  precondition.
- The zip byte format is a function from the entry list to archive bytes.
  Each entry carries its name, its three file times, its bytes and its
  compression level.
- The file times `pack` copies into each entry (last access, creation, last
  modification) are read from an attribute snapshot, a function from paths
  to times, given per call.
- The progress events the transfer manager raises while sending a body are a
  function of the body.
- The host's name separator is a parameter.
- A folder's listing, as the walk sees it, is a tree value (`FileTree.Node`).

### Behaviour of the code the model keeps

- Archive entry names use the host separator. `pack` names entries with
  `File.relativeTo(...).toString()`. Only `uploadFolder` replaces `\` by `/`.
- Staged files are not released when a step fails:
  - a failed put leaves the staged ciphertext at `temporaryFile`;
  - a failed read leaves a partial archive at the zip path.
- `downloadFile` writes the target file directly, not under a temporary name.
- A failed `Files.delete` throws after the upload has finished, so the clean-up
  masks the transfer's outcome (see Findings).
- `UploadBatchCommand` catches the `software.amazon.awssdk` exception classes
  (SDK v2). The wrapper it calls is written against the `com.amazonaws` client
  (SDK v1), whose exceptions are not subclasses of those. The two also disagree
  on the wrapper's constructor signature.
  - The wrapper is an interface here: a function from the calls made so far
    and the next call to how that call ends.
  - The model keeps the two caught kinds, `AwsService` and `SdkClient`, as the
    ones the `catch` clauses name.

## Model

| member | source | states |
|---|---|---|
| Utils.ParseEncryptField | src/main/kotlin/s3backup/util/Utils.kt:27-32 | "encrypt" gives true, "plaintext" gives false, and every other string (case variants included) fails with IllegalArgumentException |
| Utils.ComputeFileHash | src/main/kotlin/s3backup/util/Utils.kt:9-21 | the loop reads to end of stream, so the result is the hex text of the digest of the whole file, however the reads are chunked; a missing file fails with FileNotFoundException |
| Utils.FileHashMatchesDigest | src/main/kotlin/s3backup/util/Utils.kt:19-20 | two fingerprint texts are equal exactly when the digests are equal, so the string comparison in uploadFile is digest comparison |
| Utils.FileHashShape | src/main/kotlin/s3backup/util/Utils.kt:20 | a fingerprint is 1 to 64 lower-case hexadecimal digits |
| Hex.ToHexShape | src/main/kotlin/s3backup/util/Utils.kt:20 | toString(16) writes lower-case digits with no leading zero; "0" only for zero |
| Hex.ToHexRoundTrip | src/main/kotlin/s3backup/util/Utils.kt:20 | reading the digits back gives the number |
| Hex.ToHexInjective | src/main/kotlin/s3backup/util/Utils.kt:20 | distinct numbers have distinct texts |
| Hex.ToHexLength | src/main/kotlin/s3backup/util/Utils.kt:20 | a number below 16^k takes at most k digits |
| Hex.UnsignedBound | src/main/kotlin/s3backup/util/Utils.kt:20 | BigInteger(1, d) is below 256^\|d\| |
| Hex.UnsignedInjective | src/main/kotlin/s3backup/util/Utils.kt:20 | BigInteger(1, d) is injective on byte strings of one length |
| Hex.DigestHexInjective | src/main/kotlin/s3backup/util/Utils.kt:19-20 | on digests of one length the text is equal exactly when the digest is |
| Hex.DigestHexShape | src/main/kotlin/s3backup/util/Utils.kt:19-20 | a 32-byte digest gives 1 to 64 lower-case digits, led by '0' only for the all-zero digest |
| Progress.ReplayCounts | src/main/kotlin/s3backup/S3APIWrapper.kt:141-145 | the listener's counter is the total of the bytes of all events |
| Progress.ReplayGap | src/main/kotlin/s3backup/S3APIWrapper.kt:140-151 | with non-negative events, 0 <= byteCounter - bytesAtLastReport <= progressReportPerBytes after every event |
| Progress.ReplayReportsIncrease | src/main/kotlin/s3backup/S3APIWrapper.kt:146-148 | reported counts are strictly increasing running totals, the last being the baseline |
| Progress.ReplayReportCount | src/main/kotlin/s3backup/S3APIWrapper.kt:146-148 | reports times (threshold + 1) is at most the baseline, which is at most the total |
| Progress.ProgressListener.constructor | src/main/kotlin/s3backup/S3APIWrapper.kt:140-142 | a fresh listener has both counters at zero and has printed nothing |
| Progress.ProgressListener.ProgressChanged | src/main/kotlin/s3backup/S3APIWrapper.kt:143-150 | adds the event's bytes; prints and moves the baseline exactly when more than the threshold has passed since the last report; keeps the gap invariant |
| StreamCopy.CopyToWithProgress | src/main/kotlin/s3backup/util/StreamCopy.kt:11-25 | the output receives exactly the remaining input bytes in order, the result is their number, every chunk is 1 to 1,000,000 bytes, the call-backs are those of the threshold rule over the chunks, and neither stream is closed |
| StreamCopy.CopyProgressBounds | src/main/kotlin/s3backup/util/StreamCopy.kt:15-22 | call-back totals strictly increase, the gap stays within reportPerBytes, and call-backs times (reportPerBytes + 1) is at most the total copied |
| StreamCopy.ReportsPositive | src/main/kotlin/s3backup/util/StreamCopy.kt:18-21 | with positive chunks every reported total is positive |
| EncryptionSdk.LoadKey | src/main/kotlin/s3backup/crypto/AWSEncryptionSDK.kt:77-82 | the key is the key file's bytes; a missing key file fails with NoSuchFileException |
| EncryptionSdk.EncryptToFile | src/main/kotlin/s3backup/crypto/AWSEncryptionSDK.kt:38-44 | the input is opened before the output is truncated and read after, so the output holds the encryption of what the input held, or of nothing when both are the same file; a missing input or an output that cannot be created fails |
| EncryptionSdk.EncryptToFileDecrypts | src/main/kotlin/s3backup/crypto/AWSEncryptionSDK.kt:27-44 | with distinct files the staged ciphertext, written under the FileStreaming context, decrypts to the input file's bytes; with one file, to nothing |
| EncryptionSdk.Decrypt | src/main/kotlin/s3backup/crypto/AWSEncryptionSDK.kt:46-63 | a message the SDK refuses fails with the SDK's exception; an accepted message whose context lacks Example = FileStreaming fails with IllegalStateException("Bad encryption context"); otherwise the result is the plaintext |
| EncryptionSdk.DecryptsOwnMessages | src/main/kotlin/s3backup/crypto/AWSEncryptionSDK.kt:27-51 | a message encryptToStream wrote passes the context check and decrypts to its plaintext under the same key |
| EncryptionSdk.ForeignContextRejected | src/main/kotlin/s3backup/crypto/AWSEncryptionSDK.kt:51 | a message encrypted under another context is decrypted by the SDK but refused by the check |
| ObjectStore.Store.Exists | src/main/kotlin/s3backup/S3APIWrapper.kt:105 | doesObjectExist answers whether the key holds an object, is logged, and changes no object |
| ObjectStore.Store.Metadata | src/main/kotlin/s3backup/S3APIWrapper.kt:106 | getObjectMetadata returns the object's user metadata; a missing key is a service error |
| ObjectStore.Store.Get | src/main/kotlin/s3backup/S3APIWrapper.kt:76 | getObject returns the object's body; a missing key is a service error |
| ObjectStore.Store.Put | src/main/kotlin/s3backup/S3APIWrapper.kt:152-160 | a completed upload makes the key hold exactly the new object and changes no other key |
| FileTree.Replace | src/main/kotlin/s3backup/S3APIWrapper.kt:49 | replace('\\', '/') changes exactly the backslashes and keeps the length |
| FileTree.Walk | src/main/kotlin/s3backup/S3APIWrapper.kt:43-44 | the walk below a node starts with the node itself, and is empty exactly when the node is a directory the filter refuses |
| FileTree.WalkTopDown | src/main/kotlin/s3backup/S3APIWrapper.kt:43-44 | the walk starts with the start itself, and is empty exactly when the start is neither a file nor a directory, or is a refused directory |
| FileTree.WalkSound | src/main/kotlin/s3backup/S3APIWrapper.kt:43-44 | every element of the pruned top-down walk is the node at its relative path, reached without entering a refused directory |
| FileTree.WalkComplete | src/main/kotlin/s3backup/S3APIWrapper.kt:43-44 | every node reachable without entering a refused directory is walked |
| FileTree.WalkDistinct | src/main/kotlin/s3backup/S3APIWrapper.kt:43-44 | no relative path is walked twice |
| FileTree.WalkExtends | src/main/kotlin/s3backup/S3APIWrapper.kt:43 | the walk below a node stays below it |
| FileTree.WalkNames | src/main/kotlin/s3backup/S3APIWrapper.kt:43 | the names on a walked path are names found below the start |
| FileTree.ReachableEntered | src/main/kotlin/s3backup/S3APIWrapper.kt:44 | a walked path passes only through entered directories, the start included |
| FileTree.ReachableEntersPrefix | src/main/kotlin/s3backup/S3APIWrapper.kt:44 | every directory on the way to a walked path was entered |
| FileTree.JoinInjective | src/main/kotlin/s3backup/util/FolderZipper.kt:23 | relative paths of non-empty, separator-free names are told apart by their text |
| FileTree.JoinShape | src/main/kotlin/s3backup/util/FolderZipper.kt:23 | an empty path has empty text; a path of several names has the separator after its first name |
| FileTree.ReplaceJoin | src/main/kotlin/s3backup/S3APIWrapper.kt:49 | replacing the separator in a joined path is joining with the replacement |
| FolderZipper.ZipOutputStream.constructor | src/main/kotlin/s3backup/util/FolderZipper.kt:15 | a new archive stream has no entry and the default level |
| FolderZipper.ZipOutputStream.SetLevel | src/main/kotlin/s3backup/util/FolderZipper.kt:16 | sets the level, adds no entry |
| FolderZipper.ZipOutputStream.AddEntry | src/main/kotlin/s3backup/util/FolderZipper.kt:23-30 | appends one entry with the given name, file times and content at the current level |
| FolderZipper.NonDirectories | src/main/kotlin/s3backup/util/FolderZipper.kt:20 | keeps exactly the walked elements that are not directories |
| FolderZipper.NonDirectoriesDistinct | src/main/kotlin/s3backup/util/FolderZipper.kt:20 | dropping the directories keeps relative paths distinct |
| FolderZipper.NonDirectoryPositions | src/main/kotlin/s3backup/util/FolderZipper.kt:20 | the positions of the walk's non-directory elements, strictly increasing, each one of them and only them |
| FolderZipper.NonDirectoriesInOrder | src/main/kotlin/s3backup/util/FolderZipper.kt:18-21 | the kept elements are the walk's elements at those positions, so the walk's order is kept |
| FolderZipper.ReadEntries | src/main/kotlin/s3backup/util/FolderZipper.kt:21-30 | no more entries than planned files, and all of them when no file is missing |
| FolderZipper.PackOutcome | src/main/kotlin/s3backup/util/FolderZipper.kt:15-34 | only the zip file changes; it exists afterwards whenever it could be created; a zip file that cannot be created fails with FileNotFoundException and nothing changes |
| FolderZipper.EntriesFollowTimes | src/main/kotlin/s3backup/util/FolderZipper.kt:22-27 | with every planned file readable, two attribute snapshots give the same entries exactly when they agree on every planned file |
| FolderZipper.Milestones | src/main/kotlin/s3backup/util/FolderZipper.kt:31-32 | a line is printed exactly at each positive multiple of 1000 up to the count |
| FolderZipper.Pack | src/main/kotlin/s3backup/util/FolderZipper.kt:14-35 | the zip file ends holding the archive of the entries read, the result is the entry count or the first missing file's error, and the progress lines are the milestones of the count |
| FolderZipper.AddFiles | src/main/kotlin/s3backup/util/FolderZipper.kt:18-33 | the entry loop writes the planned files in order at BEST_SPEED until one is missing, and prints at every thousandth entry |
| FolderZipper.ReadEntriesContents | src/main/kotlin/s3backup/util/FolderZipper.kt:21-30 | the entries are the planned files in walk order, each named by its relative path and holding that file's three times and bytes at BEST_SPEED; reading fails exactly when a planned file is missing, naming the first one |
| FolderZipper.ReadEntriesPrefix | src/main/kotlin/s3backup/util/FolderZipper.kt:21-30 | once a file is missing, no later file is read |
| FolderZipper.EntryPlanExact | src/main/kotlin/s3backup/util/FolderZipper.kt:18-20 | the entries are exactly the non-directory files reachable without entering a refused directory, each once |
| FolderZipper.PrunedSubtree | src/main/kotlin/s3backup/util/FolderZipper.kt:19 | nothing at or below a refused directory is archived |
| FolderZipper.EntryNamesDistinct | src/main/kotlin/s3backup/util/FolderZipper.kt:23 | with separator-free names, entry names are distinct |
| FolderZipper.EntryNamesDiffer | src/main/kotlin/s3backup/util/FolderZipper.kt:23 | two walked elements at different relative paths get different entry names |
| FolderZipper.PackResult | src/main/kotlin/s3backup/util/FolderZipper.kt:15-32 | when every planned file is readable, packing succeeds with the plan's length as count and leaves only the zip file changed |
| S3ApiWrapper.ToBooleanStrict | src/main/kotlin/s3backup/S3APIWrapper.kt:73 | only "true" and "false" are read; anything else fails with IllegalArgumentException |
| S3ApiWrapper.UploadMetadata | src/main/kotlin/s3backup/S3APIWrapper.kt:121-124 | exactly the two tags: the encryption flag as text that reads back as the flag, and the local hash |
| S3ApiWrapper.RemoteHashMatches | src/main/kotlin/s3backup/S3APIWrapper.kt:105-116 | skip exactly when the key exists and its sha256 equals the local hash; the metadata is asked for only when the key exists; no object changes |
| S3ApiWrapper.DeleteFile | src/main/kotlin/s3backup/S3APIWrapper.kt:131 | Files.delete removes the file, or fails with NoSuchFileException when there is none and changes nothing |
| S3ApiWrapper.UploadFileCoreSpec | src/main/kotlin/s3backup/S3APIWrapper.kt:152-160 | the transfer changes no local file |
| S3ApiWrapper.TransferSpec | src/main/kotlin/s3backup/S3APIWrapper.kt:125-135 | a completed transfer leaves an object at the key; no object is removed; no directory and no file but temporaryFile changes |
| S3ApiWrapper.UploadFileSpec | src/main/kotlin/s3backup/S3APIWrapper.kt:98-136 | an upload that returns normally leaves an object at the key, whether skipped or put; no object is removed; no directory and no file but temporaryFile changes |
| S3ApiWrapper.RegularFiles | src/main/kotlin/s3backup/S3APIWrapper.kt:45 | keeps exactly the walked regular files |
| S3ApiWrapper.UploadAll | src/main/kotlin/s3backup/S3APIWrapper.kt:43-53 | no object is removed, and when every upload returns normally every planned file's folder key holds an object |
| S3ApiWrapper.UploadFolderSpec | src/main/kotlin/s3backup/S3APIWrapper.kt:36-54 | returns normally only for a folder and a remote folder without a trailing '/', and then every file the walk plans has an object at its folder key |
| S3ApiWrapper.UploadFolderAsZipVia | src/main/kotlin/s3backup/S3APIWrapper.kt:56-68 | with the archive staged at a given path, returning normally means the key holds an object and the staged archive is gone |
| S3ApiWrapper.UploadFolderAsZipSpec | src/main/kotlin/s3backup/S3APIWrapper.kt:56-68 | returning normally means the key holds an object and temporaryFile is gone |
| S3ApiWrapper.DownloadedBytes | src/main/kotlin/s3backup/S3APIWrapper.kt:76-92 | the plain path writes the body as stored; with encryption a missing key file fails with NoSuchFileException, and a body that is the encryption of p under the key file's key (FileStreaming context) gives back p |
| S3ApiWrapper.DownloadSpec | src/main/kotlin/s3backup/S3APIWrapper.kt:70-96 | a download changes no object and no file but the target; a download that returns normally leaves the target file; one that throws changes no file |
| S3ApiWrapper.S3APIWrapper.constructor | src/main/kotlin/s3backup/S3APIWrapper.kt:23-27 | the wrapper starts from the given configuration, file system and bucket |
| S3ApiWrapper.S3APIWrapper.UploadFileCore | src/main/kotlin/s3backup/S3APIWrapper.kt:138-162 | the put ends as the upload function says, and the listener's printed counts are those of the threshold rule over the transfer's events |
| S3ApiWrapper.S3APIWrapper.UploadFile | src/main/kotlin/s3backup/S3APIWrapper.kt:98-136 | the step-by-step upload ends in the world and outcome of the uploadFile function |
| S3ApiWrapper.S3APIWrapper.UploadFolder | src/main/kotlin/s3backup/S3APIWrapper.kt:36-54 | the loop over the walked regular files ends as the uploadFolder function says |
| S3ApiWrapper.S3APIWrapper.UploadEach | src/main/kotlin/s3backup/S3APIWrapper.kt:43-53 | the forEach uploads the planned files in order under their folder keys and stops at the first exception, as the folder-upload function says |
| S3ApiWrapper.S3APIWrapper.UploadFirst | src/main/kotlin/s3backup/S3APIWrapper.kt:46-52 | one turn of the forEach: if the upload of the first planned file throws, that is the outcome of the folder upload; otherwise the rest of the plan yields the same outcome |
| S3ApiWrapper.S3APIWrapper.UploadFolderAsZip | src/main/kotlin/s3backup/S3APIWrapper.kt:56-68 | packing, uploading and deleting with the archive at temporaryFile ends as the uploadFolderAsZip function says |
| S3ApiWrapper.S3APIWrapper.UploadFolderAsZipAt | src/main/kotlin/s3backup/S3APIWrapper.kt:62-67 | the same steps with the archive staged at any given path |
| S3ApiWrapper.S3APIWrapper.DownloadFile | src/main/kotlin/s3backup/S3APIWrapper.kt:70-96 | metadata, strict flag, body, decryption or plain copy through copyToWithProgress end as the downloadFile function says |
| WrapperProperties.UploadRejectsNonFile | src/main/kotlin/s3backup/S3APIWrapper.kt:102 | a source that is not a regular file fails with "must be a file" before hashing or any request, and nothing changes |
| WrapperProperties.UploadSkipped | src/main/kotlin/s3backup/S3APIWrapper.kt:105-115 | when the key exists with the local hash, the upload succeeds after two questions to the bucket, and no object or file changes |
| WrapperProperties.UploadOverwrites | src/main/kotlin/s3backup/S3APIWrapper.kt:117-135 | otherwise one put overwrites the key with the two tags and the source or its encryption; an encrypted upload leaves no staged file, a plain one changes no file |
| WrapperProperties.TransferOverwrites | src/main/kotlin/s3backup/S3APIWrapper.kt:125-135 | once the upload is decided and the key accepts puts, exactly one put is logged, the key holds the payload with the given metadata, and only the staging file is gone |
| WrapperProperties.UploadRecordsHash | src/main/kotlin/s3backup/S3APIWrapper.kt:104-124 | after a successful upload the key carries the hash of the plaintext source, and the source is unchanged |
| WrapperProperties.UploadIdempotent | src/main/kotlin/s3backup/S3APIWrapper.kt:104-116 | a second upload of the same file skips and puts nothing |
| WrapperProperties.UploadDownloadRoundTrip | src/main/kotlin/s3backup/S3APIWrapper.kt:70-96 | downloading what was uploaded writes the source's bytes, encrypted or not |
| WrapperProperties.DownloadFlagStrict | src/main/kotlin/s3backup/S3APIWrapper.kt:72-73 | a missing flag or one other than "true"/"false" fails before the body is fetched and writes nothing |
| WrapperProperties.DownloadMissingKey | src/main/kotlin/s3backup/S3APIWrapper.kt:72 | a missing key fails at the metadata request and writes nothing |
| WrapperProperties.DownloadPlain | src/main/kotlin/s3backup/S3APIWrapper.kt:87-92 | "false" writes the body as stored, or fails with FileNotFoundException when the target cannot be created |
| WrapperProperties.DownloadDecrypts | src/main/kotlin/s3backup/S3APIWrapper.kt:78-86 | "true" writes the decryption under the key file's key; a message the SDK refuses or whose context fails the check ends with that error and writes nothing, as does an uncreatable target |
| S3ApiWrapper.FolderKey | src/main/kotlin/s3backup/S3APIWrapper.kt:49 | every key is the remote folder, a slash, and a suffix without backslashes |
| WrapperProperties.RegularFilesDistinct | src/main/kotlin/s3backup/S3APIWrapper.kt:45 | filtering keeps relative paths distinct |
| WrapperProperties.FolderPlanExact | src/main/kotlin/s3backup/S3APIWrapper.kt:43-45 | the uploaded files are exactly the regular files reachable without entering .idea or .gradle at any depth, each once |
| WrapperProperties.FolderKeyInjective | src/main/kotlin/s3backup/S3APIWrapper.kt:49 | relative paths of names free of '/' and '\\' give distinct keys under one remote folder |
| WrapperProperties.FolderKeysDistinct | src/main/kotlin/s3backup/S3APIWrapper.kt:49 | with names free of '/' and '\\', different files get different keys |
| WrapperProperties.CollisionTreePlan | src/main/kotlin/s3backup/S3APIWrapper.kt:43-45 | the walk of a folder holding a file "a\\b" and a folder "a" with a file "b" uploads both files |
| WrapperProperties.CollisionKeys | src/main/kotlin/s3backup/S3APIWrapper.kt:49 | on a host whose separator is '/', those two files map to the same key |
| WrapperProperties.FolderKeyCollision | src/main/kotlin/s3backup/S3APIWrapper.kt:49 | a file name containing a backslash can give two distinct planned files the same key |
| WrapperProperties.FolderKeyCollisionOverwrites | src/main/kotlin/s3backup/S3APIWrapper.kt:43-53 | uploading that folder in plain form succeeds and leaves a single object at the shared key: the second file under its hash, so the first file is not backed up |
| WrapperProperties.SameKeyPairOverwrites | src/main/kotlin/s3backup/S3APIWrapper.kt:46-52 | of two planned files with one folder key and different hashes, the second upload replaces the first |
| WrapperProperties.UploadFileFrame | src/main/kotlin/s3backup/S3APIWrapper.kt:98-136 | uploadFile makes requests about its target key only, changes no other object, and changes no file but the staging file |
| WrapperProperties.TransferFrame | src/main/kotlin/s3backup/S3APIWrapper.kt:125-135 | the transfer makes requests about its target key only |
| WrapperProperties.UploadAllFrame | src/main/kotlin/s3backup/S3APIWrapper.kt:43-53 | uploadFolder touches only its planned keys and no file but the staging file |
| WrapperProperties.UploadAllRecordsHashes | src/main/kotlin/s3backup/S3APIWrapper.kt:43-53 | after a successful folder upload with distinct keys every planned key carries its file's hash, so a rerun skips every file |
| WrapperProperties.PackedWorld | src/main/kotlin/s3backup/S3APIWrapper.kt:64 | packing into a path leaves the archive there and counts the plan |
| WrapperProperties.ZipEncryptedUploadCorrupts | src/main/kotlin/s3backup/S3APIWrapper.kt:64-67 | as written, an encrypted zip upload stores the encryption of nothing labelled with the archive's hash and then fails with NoSuchFileException |
| WrapperProperties.ZipEncryptedRerunKeepsCorruptObject | src/main/kotlin/s3backup/S3APIWrapper.kt:64-67 | when every archived file's three times are unchanged, a rerun packs the same archive, succeeds without uploading, and keeps the object that decrypts to nothing |
| WrapperProperties.ZipEncryptedRerunWithNewTimes | src/main/kotlin/s3backup/S3APIWrapper.kt:64-67 | when the rerun's archive has another hash (its files' times moved), the rerun uploads the encryption of nothing again under the new hash and fails with NoSuchFileException again |
| WrapperProperties.ZipRerunSkips | src/main/kotlin/s3backup/S3APIWrapper.kt:64-67 | a zip upload whose archive hash the key already carries succeeds and changes no object |
| WrapperProperties.StagingGone | src/main/kotlin/s3backup/util/FolderZipper.kt:15 | packing after the staging file was deleted reads and writes what it did before |
| WrapperProperties.ZipRepacked | src/main/kotlin/s3backup/util/FolderZipper.kt:22-27 | with the same times for every planned file, packing again gives the same archive bytes |
| WrapperProperties.PackedUpload | src/main/kotlin/s3backup/S3APIWrapper.kt:64-67 | once the folder is packed, the zip upload is the upload of the archive file followed by its deletion, which runs only when the upload succeeded |
| WrapperProperties.UploadThenDelete | src/main/kotlin/s3backup/S3APIWrapper.kt:66-67 | uploading a file other than temporaryFile and then deleting it succeeds; the object holds the file or its decryptable encryption under its hash, and neither file is left |
| WrapperProperties.ZipStagedApartRoundTrips | src/main/kotlin/s3backup/S3APIWrapper.kt:64-67 | with the archive staged apart from the ciphertext, the upload succeeds, the object holds the archive or its encryption under the archive's hash, and no staged file is left |
| UploadBatchCommand.Split | src/main/kotlin/s3backup/commands/UploadBatchCommand.kt:23 | splitting gives at least one piece |
| UploadBatchCommand.ParseLine | src/main/kotlin/s3backup/commands/UploadBatchCommand.kt:21-57 | a line is skipped exactly when it is empty or starts with '#' |
| UploadBatchCommand.RunFrom | src/main/kotlin/s3backup/commands/UploadBatchCommand.kt:19-68 | the calls already made are kept, and each remaining line adds at most one call |
| UploadBatchCommand.Field | src/main/kotlin/s3backup/commands/UploadBatchCommand.kt:27-29 | reading a missing field fails with IndexOutOfBoundsException naming its index |
| UploadBatchCommand.ParseFields | src/main/kotlin/s3backup/commands/UploadBatchCommand.kt:24-57 | a split line is never skipped, and fails only with an unknown command, a missing field or a bad token |
| UploadBatchCommand.SplitJoin | src/main/kotlin/s3backup/commands/UploadBatchCommand.kt:23 | gluing the pieces back with " // " gives the line |
| UploadBatchCommand.SplitPiecesFree | src/main/kotlin/s3backup/commands/UploadBatchCommand.kt:23 | no piece contains " // " |
| UploadBatchCommand.SplitWithoutDelimiter | src/main/kotlin/s3backup/commands/UploadBatchCommand.kt:23 | a line without the delimiter is one piece |
| UploadBatchCommand.CommentsSkipped | src/main/kotlin/s3backup/commands/UploadBatchCommand.kt:21 | a line starting with '#', or empty, is skipped without being split |
| UploadBatchCommand.UndelimitedLineUnsupported | src/main/kotlin/s3backup/commands/UploadBatchCommand.kt:57 | a non-empty line without '/' that is not a verb fails as an unsupported command |
| UploadBatchCommand.BlankLineUnsupported | src/main/kotlin/s3backup/commands/UploadBatchCommand.kt:21 | a line of blanks is not skipped and fails as an unsupported command |
| UploadBatchCommand.ParseFieldsMeaning | src/main/kotlin/s3backup/commands/UploadBatchCommand.kt:25-57 | a line makes a call exactly when its verb is known, it has four fields and the token is valid; each verb makes its own call with fields 1 and 2, the storage class and the token; otherwise the first failure in the code's order |
| UploadBatchCommand.ExtraFieldsIgnored | src/main/kotlin/s3backup/commands/UploadBatchCommand.kt:23-29 | fields after the fourth are never read |
| UploadBatchCommand.Run | src/main/kotlin/s3backup/commands/UploadBatchCommand.kt:16-69 | the loop over the lines makes the calls and ends as the run function says |
| UploadBatchCommand.RunFromShape | src/main/kotlin/s3backup/commands/UploadBatchCommand.kt:19-68 | from any point, the calls made are a prefix of the planned calls; the run completes exactly when every line parses and every planned call is made and succeeds; only the two AWS exception kinds are caught |
| UploadBatchCommand.RunShape | src/main/kotlin/s3backup/commands/UploadBatchCommand.kt:16-69 | the same for a whole run |
| UploadBatchCommand.PlannedCallsStopAtFailure | src/main/kotlin/s3backup/commands/UploadBatchCommand.kt:57 | nothing after a line that fails to parse is ever called, and the run cannot complete |
| UploadBatchCommand.CommentsIrrelevant | src/main/kotlin/s3backup/commands/UploadBatchCommand.kt:21 | removing comments and empty lines does not change a run |

## Left out

- The S3 transport is left out. `TransferManager` multipart upload, its threads and `shutdownNow` are not modelled. A put is one atomic step. The progress events it raises are a parameter.
- `uploadByteArray`, `getMetadata`, `listAllObjects` and the bucket name are not modelled. They are single library calls or print output.
- The random data key and IV of the encryption SDK are left out. Encryption is a deterministic function of key, context and plaintext.
- The SDK's cipher suite, key commitment and key wrapping are left out. `loadKey` is modelled as reading the key bytes.
- `EncryptionSdk.Decrypt`: every refusal by the SDK (another key, a corrupt or truncated message, a message without key commitment) is the one exception kind `AwsCrypto`. The SDK raises several exception classes for these.
- `EncryptionSdk.Decrypt`: a message that fails authentication partway through the stream is modelled as failing before the target file is opened. The code may leave a partial file behind.
- The zip byte encoding (Deflater, PKWARE APPNOTE) is not modelled. The archive bytes are a function of the entries, times included.
- How the file times change is not modelled. `Files.readAttributes` is an attribute snapshot passed to each packing. Whether reading a file moves its last-access time depends on the host, so the rerun lemmas take the second snapshot as given.
- `WrapperProperties.FolderKeyCollisionOverwrites`: proved for a plain upload of the example folder only. The encrypted case overwrites in the same way.
- `println` output is not modelled, except the progress lines that the call-back rules decide.
- `Utils.bytesToGigabytes` is not modelled. It is floating-point, display only.
- `StreamCopy.CopyToWithProgress`: counts are unbounded integers. `Long` overflow of `bytesCopied` and `byteCounter` is not modelled (it needs 2^63 bytes).
- I/O errors other than a missing file or an uncreatable output are not modelled: permissions, full disks, and a file changing during a read.
- `Paths.get` rejecting a malformed path in the batch interpreter is not modelled.
- The walk's listing is a snapshot tree given as a parameter. Changes to the folder during the walk and symbolic-link loops are not modelled.
- Reading the script file (`useLines`) is not modelled. The model starts from its lines.
- The `S3APIWrapper` construction inside the batch `try` is not modelled. The wrapper is an interface.
- Main.kt, ConfigLoader.kt, S3ClientFactory.kt, KeyOps.kt and the other command classes are not part of this model. They are wiring, configuration and key generation.

## Findings

| source | as written | input that shows it | evidently intended | confidence | as-written member | corrected member |
|---|---|---|---|---|---|---|
| src/main/kotlin/s3backup/S3APIWrapper.kt:64-67 | `uploadFolderAsZip` packs the folder into `temporaryFile`, then calls `uploadFile` on `temporaryFile`. With encryption, `uploadFile` encrypts its source to `temporaryFile` (line 129). The output is truncated before the input is read, so the ciphertext is of zero bytes. That is uploaded under the sha256 of the archive, and line 131 deletes the file. Line 67 then deletes it again and throws NoSuchFileException. | `UPLOADFOLDERZIP // docs // docs.zip // encrypt` with `docs.zip` not yet in the bucket and the key file present | the archive is encrypted, uploaded and decryptable, and the call returns normally | not executed | WrapperProperties.ZipEncryptedUploadCorrupts | WrapperProperties.ZipStagedApartRoundTrips |

What a rerun of the same line does depends on the file times the second
packing reads, since `pack` copies each file's last-access, creation and
last-modified times into its entry (FolderZipper.kt:22-27). When every
archived file's times are unchanged, the archive's hash equals the stored one
and the rerun skips the upload
(`WrapperProperties.ZipEncryptedRerunKeepsCorruptObject`). The object that
decrypts to nothing then stays as the backup. When the times moved and the
new archive hashes differently, the rerun uploads the encryption of nothing
again under the new hash and fails the same way
(`WrapperProperties.ZipEncryptedRerunWithNewTimes`). No rerun repairs the
object.

In the corrected form, `S3ApiWrapper.UploadFolderAsZipVia` stages the archive at a
path of its own, distinct from `temporaryFile`.
