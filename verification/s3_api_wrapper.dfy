/** `S3APIWrapper`: the decisions the backup tool takes around each
    transfer (skip or upload, which metadata, where the ciphertext is
    staged, which key a folder's file goes to, how a download is decoded)
    and the objects and local files each operation leaves behind.

    The functions below say what each operation does to the world (the local
    file system and the bucket) and how it ends; the class performs the same
    steps one at a time on its own `fs` and `store`, and each method is
    proved to end exactly as its function says. */
module S3ApiWrapper {
  import opened Common
  import opened LocalFs
  import opened ObjectStore
  import opened FileTree
  import opened Progress
  import opened Streams
  import opened StreamCopy
  import opened EncryptionSdk
  import Utils
  import FolderZipper

  /** `TagNames`: the two user-metadata fields every upload writes. */
  const EncryptionTag := "client-side-encryption"
  const HashTag := "sha256"

  /** The byte count between two progress lines of an upload or download. */
  const ProgressReportPerBytes := 100_000_000

  /** `dirFilter`: the walk does not enter IDE and build-tool folders. */
  predicate DirFilter(name: string)
  {
    name != ".idea" && name != ".gradle"
  }

  /** What the wrapper is configured with: the two paths it reads from its
      properties, and the pieces of the platform the model is given rather
      than defines (SHA-256, the cipher, the zip byte format, the progress
      events the transfer manager raises while sending a body, and the host
      name separator). */
  datatype Config = Config(
    temporaryFile: Path,
    masterKeyFile: Path,
    sha: Utils.Sha256,
    cipher: Cipher,
    zipFormat: FolderZipper.ZipFormat,
    transferEvents: seq<byte> -> seq<int>,
    sep: char)

  /** The state an operation acts on. */
  datatype World = World(fs: FileSystem, store: Store)

  /** `Boolean.toString`. */
  function BoolString(b: bool): string
  {
    if b then "true" else "false"
  }

  /** `String.toBooleanStrict`: only the exact texts "true" and "false". */
  function ToBooleanStrict(s: string): (r: Result<bool>)
    ensures r == Success(true) <==> s == "true"
    ensures r == Success(false) <==> s == "false"
    ensures r.Failure? <==> s != "true" && s != "false"
    ensures r.Failure? ==> r.error.IllegalArgument?
  {
    match s
    case "true" => Success(true)
    case "false" => Success(false)
    case _ => Failure(IllegalArgument("The string doesn't represent a boolean value: " + s))
  }

  /** The user metadata an upload attaches. */
  function UploadMetadata(encryption: bool, localHash: string): (m: map<string, string>)
    ensures m.Keys == {EncryptionTag, HashTag}
    ensures ToBooleanStrict(m[EncryptionTag]) == Success(encryption)
    ensures m[HashTag] == localHash
  {
    map[EncryptionTag := BoolString(encryption), HashTag := localHash]
  }

  // ---------------------------------------------------------------------
  // uploadFile

  /** The upload is skipped when the key exists and the `sha256` it carries
      equals the local hash. */
  predicate SkipsUpload(store: Store, targetKey: string, localHash: string)
  {
    targetKey in store.objects && MetadataOf(store.objects[targetKey].metadata, HashTag) == Some(localHash)
  }

  /** The comparison with the remote hash: asks whether the key exists and,
      when it does, for its metadata; answers whether to skip. */
  function RemoteHashMatches(store: Store, targetKey: string, localHash: string): (out: (Store, Result<bool>))
    ensures targetKey !in store.denied ==> out.1 == Success(SkipsUpload(store, targetKey, localHash))
    ensures targetKey in store.denied ==> out.1 == Failure(AwsService(targetKey))
    ensures out.0.objects == store.objects && out.0.denied == store.denied
    ensures out.0.log == store.log + [DoesObjectExist(targetKey)] +
      (if targetKey in store.objects && targetKey !in store.denied then [GetObjectMetadata(targetKey)] else [])
  {
    var (s1, found) := store.Exists(targetKey);
    if found.Failure? then (s1, Failure(found.error))
    else if !found.value then (s1, Success(false))
    else
      var (s2, metadata) := s1.Metadata(targetKey);
      match metadata
      case Failure(e) => (s2, Failure(e))
      case Success(m) => (s2, Success(MetadataOf(m, HashTag) == Some(localHash)))
  }

  /** `Files.delete`: fails with NoSuchFileException when there is no file
      to delete. */
  function DeleteFile(w: World, p: Path): (out: (World, Result<()>))
    ensures out.1.Success? <==> p in w.fs.files
    ensures out.0.store == w.store
    ensures out.1.Success? ==> out.0.fs.files == w.fs.files - {p} && out.0.fs.dirs == w.fs.dirs
    ensures out.1.Failure? ==> out == (w, Failure(NoSuchFile(p)))
  {
    match w.fs.Delete(p)
    case Failure(e) => (w, Failure(e))
    case Success(cleaned) => (World(cleaned, w.store), Success(()))
  }

  /** `uploadFileCore`: the transfer manager puts the file's bytes with the
      metadata and storage class; the local files are untouched. */
  function UploadFileCoreSpec(w: World, sourceFile: Path, targetKey: string, storageClass: StorageClass,
                              metadata: map<string, string>): (out: (World, Result<()>))
    requires sourceFile in w.fs.files
    ensures out.0.fs == w.fs
  {
    var (s, r) := w.store.Put(targetKey, S3Object(metadata, w.fs.files[sourceFile], storageClass));
    (World(w.fs, s), r)
  }

  /** The transfer once the upload is decided. With encryption the
      ciphertext is staged at `temporaryFile`, uploaded from there and the
      staged file deleted; a failed put leaves it behind. */
  function TransferSpec(config: Config, w: World, sourceFile: Path, targetKey: string,
                        storageClass: StorageClass, encryption: bool, metadata: map<string, string>): (out: (World, Result<()>))
    requires sourceFile in w.fs.files
    ensures out.1.Success? ==> targetKey in out.0.store.objects
    ensures w.store.objects.Keys <= out.0.store.objects.Keys
    ensures out.0.fs.dirs == w.fs.dirs
    ensures out.0.fs.files - {config.temporaryFile} == w.fs.files - {config.temporaryFile}
  {
    if !encryption then UploadFileCoreSpec(w, sourceFile, targetKey, storageClass, metadata)
    else match LoadKey(w.fs, config.masterKeyFile)
      case Failure(e) => (w, Failure(e))
      case Success(key) =>
        match EncryptToFile(config.cipher, w.fs, key, sourceFile, config.temporaryFile)
        case Failure(e) => (w, Failure(e))
        case Success(staged) =>
          var (w2, r) := UploadFileCoreSpec(World(staged, w.store), config.temporaryFile, targetKey, storageClass, metadata);
          if r.Failure? then (w2, r) else DeleteFile(w2, config.temporaryFile)
  }

  /** `uploadFile`. */
  function UploadFileSpec(config: Config, w: World, sourceFile: Path, targetKey: string,
                          storageClass: StorageClass, encryption: bool): (out: (World, Result<()>))
    ensures out.1.Success? ==> targetKey in out.0.store.objects
    ensures w.store.objects.Keys <= out.0.store.objects.Keys
    ensures out.0.fs.dirs == w.fs.dirs
    ensures out.0.fs.files - {config.temporaryFile} == w.fs.files - {config.temporaryFile}
  {
    if !w.fs.IsRegularFile(sourceFile) then (w, Failure(IllegalArgument("must be a file")))
    else
      var localHash := Utils.FileHash(config.sha, w.fs.files[sourceFile]);
      var (s1, skip) := RemoteHashMatches(w.store, targetKey, localHash);
      if skip.Failure? then (World(w.fs, s1), Failure(skip.error))
      else if skip.value then (World(w.fs, s1), Success(()))
      else TransferSpec(config, World(w.fs, s1), sourceFile, targetKey, storageClass, encryption,
                        UploadMetadata(encryption, localHash))
  }

  // ---------------------------------------------------------------------
  // uploadFolder

  /** The key a file of an uploaded folder goes to: the remote folder, a
      slash, and the file's relative path with every backslash made a slash. */
  function FolderKey(toRemoteFolder: string, rel: seq<string>, sep: char): (key: string)
    ensures |key| > |toRemoteFolder| && key[..|toRemoteFolder| + 1] == toRemoteFolder + "/"
    ensures '\\' !in key[|toRemoteFolder| + 1..]
  {
    var suffix := Replace(Join(rel, sep), '\\', '/');
    assert (toRemoteFolder + "/" + suffix)[|toRemoteFolder| + 1..] == suffix;
    toRemoteFolder + "/" + suffix
  }

  function RegularFiles(visits: seq<Visit>): (r: seq<Visit>)
    ensures forall v :: v in r <==> v in visits && v.node.RegularFile?
  {
    if visits == [] then []
    else (if visits[0].node.RegularFile? then [visits[0]] else []) + RegularFiles(visits[1..])
  }

  /** The files `uploadFolder` uploads, in walk order. */
  function FolderPlan(tree: Node): seq<Visit>
  {
    RegularFiles(WalkTopDown(tree, DirFilter))
  }

  /** One upload per planned file, in order, stopping at the first failure. */
  function UploadAll(config: Config, w: World, fromLocalFolder: Path, toRemoteFolder: string,
                     plan: seq<Visit>, storageClass: StorageClass, encryption: bool): (out: (World, Result<()>))
    ensures w.store.objects.Keys <= out.0.store.objects.Keys
    ensures out.1.Success? ==>
      forall i :: 0 <= i < |plan| ==> FolderKey(toRemoteFolder, plan[i].rel, config.sep) in out.0.store.objects
    decreases |plan|
  {
    if plan == [] then (w, Success(()))
    else
      var (w1, r1) := UploadFileSpec(config, w, fromLocalFolder + plan[0].rel,
                                     FolderKey(toRemoteFolder, plan[0].rel, config.sep), storageClass, encryption);
      if r1.Failure? then (w1, r1)
      else UploadAll(config, w1, fromLocalFolder, toRemoteFolder, plan[1..], storageClass, encryption)
  }

  /** `uploadFolder`: the folder must be a directory and the remote folder
      must not end with a slash; `tree` is the folder's listing as the walk
      sees it. */
  function UploadFolderSpec(config: Config, w: World, fromLocalFolder: Path, tree: Node, toRemoteFolder: string,
                            storageClass: StorageClass, encryption: bool): (out: (World, Result<()>))
    ensures out.1.Success? ==>
      fromLocalFolder in w.fs.dirs && (|toRemoteFolder| == 0 || toRemoteFolder[|toRemoteFolder| - 1] != '/') &&
      forall v :: v in FolderPlan(tree) ==> FolderKey(toRemoteFolder, v.rel, config.sep) in out.0.store.objects
  {
    if fromLocalFolder !in w.fs.dirs then (w, Failure(IllegalArgument("must be a folder!")))
    else if |toRemoteFolder| > 0 && toRemoteFolder[|toRemoteFolder| - 1] == '/' then
      (w, Failure(IllegalArgument("Don't put '/' at the end!")))
    else UploadAll(config, w, fromLocalFolder, toRemoteFolder, FolderPlan(tree), storageClass, encryption)
  }

  // ---------------------------------------------------------------------
  // uploadFolderAsZip

  /** The steps of `uploadFolderAsZip` with the archive staged at `zipFile`:
      the folder is packed into `zipFile`, that file is uploaded, and then
      deleted. */
  function UploadFolderAsZipVia(config: Config, w: World, fromLocalFolder: Path, tree: Node,
                                attrs: FolderZipper.Attributes, targetKey: string,
                                storageClass: StorageClass, encryption: bool, zipFile: Path): (out: (World, Result<()>))
    ensures out.1.Success? ==> targetKey in out.0.store.objects && zipFile !in out.0.fs.files
  {
    if fromLocalFolder !in w.fs.dirs then (w, Failure(IllegalArgument("must be a folder!")))
    else
      var (packed, r) := FolderZipper.PackOutcome(w.fs, attrs, fromLocalFolder, tree, zipFile,
                                                  DirFilter, config.sep, config.zipFormat);
      if r.Failure? then (World(packed, w.store), Failure(r.error))
      else
        var (w2, r2) := UploadFileSpec(config, World(packed, w.store), zipFile, targetKey, storageClass, encryption);
        if r2.Failure? then (w2, r2) else DeleteFile(w2, zipFile)
  }

  /** `uploadFolderAsZip` as written: the archive is staged at the same
      `temporaryFile` that an encrypted `uploadFile` stages its ciphertext
      at. `attrs` holds the file times the packing reads in this call. */
  function UploadFolderAsZipSpec(config: Config, w: World, fromLocalFolder: Path, tree: Node,
                                 attrs: FolderZipper.Attributes, targetKey: string,
                                 storageClass: StorageClass, encryption: bool): (out: (World, Result<()>))
    ensures out.1.Success? ==> targetKey in out.0.store.objects && config.temporaryFile !in out.0.fs.files
  {
    UploadFolderAsZipVia(config, w, fromLocalFolder, tree, attrs, targetKey, storageClass, encryption, config.temporaryFile)
  }

  // ---------------------------------------------------------------------
  // downloadFile

  /** The bytes a download writes for an object body: the body itself, or
      its decryption under the key file's key, which gives back what an
      encrypted upload under that key sent. */
  function DownloadedBytes(config: Config, fs: FileSystem, encrypted: bool, body: seq<byte>): (r: Result<seq<byte>>)
    ensures !encrypted ==> r == Success(body)
    ensures encrypted && config.masterKeyFile !in fs.files ==> r == Failure(NoSuchFile(config.masterKeyFile))
    ensures encrypted && config.masterKeyFile in fs.files && RoundTrips(config.cipher) ==>
      forall p :: body == config.cipher.encrypt(fs.files[config.masterKeyFile], FileContext, p) ==> r == Success(p)
  {
    if !encrypted then Success(body)
    else match LoadKey(fs, config.masterKeyFile)
      case Failure(e) => Failure(e)
      case Success(key) => Decrypt(config.cipher, key, body)
  }

  /** `downloadFile`: the metadata is fetched and the encryption flag read
      strictly before the body is fetched; the target file is opened only
      once the plaintext is known to be available. */
  function DownloadSpec(config: Config, w: World, sourceKey: string, targetFile: Path): (out: (World, Result<()>))
    ensures out.0.store.objects == w.store.objects
    ensures out.0.fs.dirs == w.fs.dirs && out.0.fs.files - {targetFile} == w.fs.files - {targetFile}
    ensures out.1.Success? ==> targetFile in out.0.fs.files
    ensures out.1.Failure? ==> out.0.fs == w.fs
  {
    var (s1, metadata) := w.store.Metadata(sourceKey);
    if metadata.Failure? then (World(w.fs, s1), Failure(metadata.error))
    else match MetadataOf(metadata.value, EncryptionTag)
      case None => (World(w.fs, s1), Failure(NullPointer))
      case Some(flag) =>
        match ToBooleanStrict(flag)
        case Failure(e) => (World(w.fs, s1), Failure(e))
        case Success(encrypted) =>
          var (s2, body) := s1.Get(sourceKey);
          match body
          case Failure(e) => (World(w.fs, s2), Failure(e))
          case Success(message) =>
            match DownloadedBytes(config, w.fs, encrypted, message)
            case Failure(e) => (World(w.fs, s2), Failure(e))
            case Success(bytes) =>
              if !w.fs.CanCreate(targetFile) then
                (World(w.fs, s2), Failure(if encrypted then NoSuchFile(targetFile) else FileNotFound(targetFile)))
              else (World(w.fs.Write(targetFile, bytes), s2), Success(()))
  }

  // ---------------------------------------------------------------------
  // The wrapper object

  class S3APIWrapper {
    const config: Config
    var fs: FileSystem
    var store: Store

    constructor (config: Config, fs: FileSystem, store: Store)
      ensures this.config == config && this.fs == fs && this.store == store
    {
      this.config, this.fs, this.store := config, fs, store;
    }

    /** `uploadFileCore`: a fresh progress listener receives the transfer's
        progress events while the body is put; it prints whenever more than
        `ProgressReportPerBytes` bytes have passed since its last line. */
    method UploadFileCore(sourceFile: Path, targetKey: string, storageClass: StorageClass,
                          metadata: map<string, string>) returns (r: Result<()>, reports: seq<int>)
      requires sourceFile in fs.files
      modifies this
      ensures (World(fs, store), r) == UploadFileCoreSpec(old(World(fs, store)), sourceFile, targetKey, storageClass, metadata)
      ensures reports == Replay(config.transferEvents(fs.files[sourceFile]), ProgressReportPerBytes).reports
    {
      var listener := new ProgressListener(ProgressReportPerBytes);
      var events := config.transferEvents(fs.files[sourceFile]);
      for i := 0 to |events|
        invariant listener.Valid() && listener.threshold == ProgressReportPerBytes
        invariant listener.events == events[..i]
        invariant fs == old(fs) && store == old(store)
      {
        listener.ProgressChanged(events[i]);
        assert events[..i + 1] == events[..i] + [events[i]];
      }
      assert events[..|events|] == events;
      var put := store.Put(targetKey, S3Object(metadata, fs.files[sourceFile], storageClass));
      store, r := put.0, put.1;
      reports := listener.printed;
    }

    /** `uploadFile`. */
    method UploadFile(sourceFile: Path, targetKey: string, storageClass: StorageClass, encryption: bool)
      returns (r: Result<()>)
      modifies this
      ensures (World(fs, store), r) == UploadFileSpec(config, old(World(fs, store)), sourceFile, targetKey, storageClass, encryption)
    {
      if !fs.IsRegularFile(sourceFile) {
        return Failure(IllegalArgument("must be a file"));
      }
      var hashed := Utils.ComputeFileHash(config.sha, fs, sourceFile);
      var localFileHash := hashed.value;
      var asked := RemoteHashMatches(store, targetKey, localFileHash);
      store := asked.0;
      if asked.1.Failure? {
        return Failure(asked.1.error);
      }
      if asked.1.value {
        return Success(());
      }
      var metadata := UploadMetadata(encryption, localFileHash);
      if encryption {
        var key := LoadKey(fs, config.masterKeyFile);
        if key.Failure? {
          return Failure(key.error);
        }
        var staged := EncryptToFile(config.cipher, fs, key.value, sourceFile, config.temporaryFile);
        if staged.Failure? {
          return Failure(staged.error);
        }
        fs := staged.value;
        var reports;
        r, reports := UploadFileCore(config.temporaryFile, targetKey, storageClass, metadata);
        if r.Failure? {
          return;
        }
        var cleaned := DeleteFile(World(fs, store), config.temporaryFile);
        fs, r := cleaned.0.fs, cleaned.1;
      } else {
        var reports;
        r, reports := UploadFileCore(sourceFile, targetKey, storageClass, metadata);
      }
    }

    /** `uploadFolder`: walks the folder listing `tree` and uploads each
        regular file under its folder key. */
    method UploadFolder(fromLocalFolder: Path, tree: Node, toRemoteFolder: string,
                        storageClass: StorageClass, encryption: bool) returns (r: Result<()>)
      modifies this
      ensures (World(fs, store), r) ==
        UploadFolderSpec(config, old(World(fs, store)), fromLocalFolder, tree, toRemoteFolder, storageClass, encryption)
    {
      if fromLocalFolder !in fs.dirs {
        return Failure(IllegalArgument("must be a folder!"));
      }
      if |toRemoteFolder| > 0 && toRemoteFolder[|toRemoteFolder| - 1] == '/' {
        return Failure(IllegalArgument("Don't put '/' at the end!"));
      }
      r := UploadEach(fromLocalFolder, toRemoteFolder, FolderPlan(tree), storageClass, encryption);
    }

    /** The `forEach` of `uploadFolder`: one `uploadFile` per planned file,
        in order, until one throws. */
    method UploadEach(fromLocalFolder: Path, toRemoteFolder: string, plan: seq<Visit>,
                      storageClass: StorageClass, encryption: bool) returns (r: Result<()>)
      modifies this
      ensures (World(fs, store), r) ==
        UploadAll(config, old(World(fs, store)), fromLocalFolder, toRemoteFolder, plan, storageClass, encryption)
    {
      ghost var goal := UploadAll(config, World(fs, store), fromLocalFolder, toRemoteFolder, plan, storageClass, encryption);
      var i := 0;
      while i < |plan|
        invariant 0 <= i <= |plan|
        invariant goal == UploadAll(config, World(fs, store), fromLocalFolder, toRemoteFolder, plan[i..], storageClass, encryption)
      {
        r := UploadFirst(fromLocalFolder, toRemoteFolder, plan[i..], storageClass, encryption, goal);
        if r.Failure? {
          return;
        }
        assert plan[i..][1..] == plan[i + 1..];
        i := i + 1;
      }
      r := Success(());
    }

    /** One turn of the `forEach`: the upload of the first planned file, after
        which either the outcome is decided or the rest of the plan remains. */
    method UploadFirst(fromLocalFolder: Path, toRemoteFolder: string, plan: seq<Visit>,
                       storageClass: StorageClass, encryption: bool, ghost goal: (World, Result<()>))
      returns (r: Result<()>)
      requires plan != []
      requires goal == UploadAll(config, World(fs, store), fromLocalFolder, toRemoteFolder, plan, storageClass, encryption)
      modifies this
      ensures r.Failure? ==> (World(fs, store), r) == goal
      ensures r.Success? ==>
        goal == UploadAll(config, World(fs, store), fromLocalFolder, toRemoteFolder, plan[1..], storageClass, encryption)
    {
      r := UploadFile(fromLocalFolder + plan[0].rel, FolderKey(toRemoteFolder, plan[0].rel, config.sep),
                      storageClass, encryption);
    }

    /** `uploadFolderAsZip`: the archive is staged at `temporaryFile`. */
    method UploadFolderAsZip(fromLocalFolder: Path, tree: Node, attrs: FolderZipper.Attributes, targetKey: string,
                             storageClass: StorageClass, encryption: bool) returns (r: Result<()>)
      modifies this
      ensures (World(fs, store), r) ==
        UploadFolderAsZipSpec(config, old(World(fs, store)), fromLocalFolder, tree, attrs, targetKey, storageClass, encryption)
    {
      r := UploadFolderAsZipAt(fromLocalFolder, tree, attrs, targetKey, storageClass, encryption, config.temporaryFile);
    }

    /** The steps of `uploadFolderAsZip` with the archive staged at
        `zipFile`: pack, upload, delete. */
    method UploadFolderAsZipAt(fromLocalFolder: Path, tree: Node, attrs: FolderZipper.Attributes, targetKey: string,
                                storageClass: StorageClass, encryption: bool, zipFile: Path) returns (r: Result<()>)
      modifies this
      ensures (World(fs, store), r) ==
        UploadFolderAsZipVia(config, old(World(fs, store)), fromLocalFolder, tree, attrs, targetKey,
                                          storageClass, encryption, zipFile)
    {
      if fromLocalFolder !in fs.dirs {
        return Failure(IllegalArgument("must be a folder!"));
      }
      var packed, counted, printed := FolderZipper.Pack(fs, attrs, fromLocalFolder, tree, zipFile,
                                                        DirFilter, config.sep, config.zipFormat);
      fs := packed;
      if counted.Failure? {
        return Failure(counted.error);
      }
      r := UploadFile(zipFile, targetKey, storageClass, encryption);
      if r.Failure? {
        return;
      }
      var cleaned := DeleteFile(World(fs, store), zipFile);
      fs, r := cleaned.0.fs, cleaned.1;
    }

    /** `downloadFile`: the body is copied to the target file through
        `copyToWithProgress`, decrypted first when the flag says so. */
    method DownloadFile(sourceKey: string, targetFile: Path) returns (r: Result<()>)
      modifies this
      ensures (World(fs, store), r) == DownloadSpec(config, old(World(fs, store)), sourceKey, targetFile)
    {
      var metadata := store.Metadata(sourceKey);
      store := metadata.0;
      if metadata.1.Failure? {
        return Failure(metadata.1.error);
      }
      var flag := MetadataOf(metadata.1.value, EncryptionTag);
      if flag.None? {
        return Failure(NullPointer);
      }
      var isEncrypted := ToBooleanStrict(flag.value);
      if isEncrypted.Failure? {
        return Failure(isEncrypted.error);
      }
      var fetched := store.Get(sourceKey);
      store := fetched.0;
      var body;
      match fetched.1 {
        case Failure(e) => return Failure(e);
        case Success(b) => body := b;
      }
      var plaintext := new InputStream(body);
      if isEncrypted.value {
        var key := LoadKey(fs, config.masterKeyFile);
        if key.Failure? {
          return Failure(key.error);
        }
        var decrypted := Decrypt(config.cipher, key.value, body);
        if decrypted.Failure? {
          return Failure(decrypted.error);
        }
        if !fs.CanCreate(targetFile) {
          return Failure(NoSuchFile(targetFile));
        }
        plaintext := new InputStream(decrypted.value);
      } else if !fs.CanCreate(targetFile) {
        return Failure(FileNotFound(targetFile));
      }
      var out := new OutputStream();
      var copied, progress;
      ghost var chunks;
      copied, progress, chunks := CopyToWithProgress(plaintext, out, ProgressReportPerBytes);
      assert out.written == DownloadedBytes(config, old(fs), isEncrypted.value, body).value;
      fs := fs.Write(targetFile, out.written);
      r := Success(());
    }
  }
}
