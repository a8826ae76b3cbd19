/** What `S3APIWrapper`'s operations promise, stated over the functions that
    say what each operation does to the local files and the bucket. */
module WrapperProperties {
  import opened Common
  import opened LocalFs
  import opened ObjectStore
  import opened FileTree
  import opened EncryptionSdk
  import opened S3ApiWrapper
  import Utils
  import FolderZipper

  /** The local hash `uploadFile` computes for a file. */
  function LocalHash(config: Config, fs: FileSystem, sourceFile: Path): string
    requires sourceFile in fs.files
  {
    Utils.FileHash(config.sha, fs.files[sourceFile])
  }

  /** What an encrypted upload needs besides the source: the key file and a
      place to stage the ciphertext. */
  predicate StagingPossible(config: Config, fs: FileSystem)
  {
    config.masterKeyFile in fs.files && fs.CanCreate(config.temporaryFile)
  }

  /** The bytes an upload that is not skipped sends. */
  function Payload(config: Config, fs: FileSystem, sourceFile: Path, encryption: bool): seq<byte>
    requires sourceFile in fs.files && (encryption ==> config.masterKeyFile in fs.files)
  {
    if encryption
    then config.cipher.encrypt(fs.files[config.masterKeyFile], FileContext, PlaintextRead(fs, sourceFile, config.temporaryFile))
    else fs.files[sourceFile]
  }

  /** A source that is not a regular file is refused before it is hashed and
      before any request to the bucket: nothing changes. */
  lemma UploadRejectsNonFile(config: Config, w: World, sourceFile: Path, targetKey: string,
                             storageClass: StorageClass, encryption: bool)
    requires !w.fs.IsRegularFile(sourceFile)
    ensures UploadFileSpec(config, w, sourceFile, targetKey, storageClass, encryption) ==
              (w, Failure(IllegalArgument("must be a file")))
  {
  }

  /** When the key exists and carries the local hash, the upload is skipped:
      the bucket is only asked two questions and no file changes. */
  lemma UploadSkipped(config: Config, w: World, sourceFile: Path, targetKey: string,
                      storageClass: StorageClass, encryption: bool)
    requires w.fs.IsRegularFile(sourceFile) && targetKey !in w.store.denied
    requires SkipsUpload(w.store, targetKey, LocalHash(config, w.fs, sourceFile))
    ensures var out := UploadFileSpec(config, w, sourceFile, targetKey, storageClass, encryption);
      out.1 == Success(()) && out.0.fs == w.fs && out.0.store.objects == w.store.objects &&
      out.0.store.log == w.store.log + [DoesObjectExist(targetKey), GetObjectMetadata(targetKey)]
  {
  }

  /** When the key is missing, or its `sha256` is missing or different, the
      key is overwritten by exactly one put: the metadata records the
      encryption flag and the hash of the plaintext source, the body is the
      source or its encryption, and an encrypted upload leaves no staged file
      behind while a plain one touches no file at all. */
  lemma UploadOverwrites(config: Config, w: World, sourceFile: Path, targetKey: string,
                         storageClass: StorageClass, encryption: bool)
    requires w.fs.IsRegularFile(sourceFile) && targetKey !in w.store.denied
    requires !SkipsUpload(w.store, targetKey, LocalHash(config, w.fs, sourceFile))
    requires encryption ==> StagingPossible(config, w.fs)
    ensures var out := UploadFileSpec(config, w, sourceFile, targetKey, storageClass, encryption);
      var metadata := UploadMetadata(encryption, LocalHash(config, w.fs, sourceFile));
      out.1 == Success(()) &&
      out.0.store.objects == w.store.objects[targetKey := S3Object(metadata, Payload(config, w.fs, sourceFile, encryption), storageClass)] &&
      out.0.fs.dirs == w.fs.dirs &&
      out.0.fs.files == (if encryption then w.fs.files - {config.temporaryFile} else w.fs.files) &&
      Puts(out.0.store.log) == Puts(w.store.log) + 1
  {
    var hash := LocalHash(config, w.fs, sourceFile);
    var s1 := RemoteHashMatches(w.store, targetKey, hash).0;
    var metadata := UploadMetadata(encryption, hash);
    var obj := S3Object(metadata, Payload(config, w.fs, sourceFile, encryption), storageClass);
    TransferOverwrites(config, World(w.fs, s1), sourceFile, targetKey, storageClass, encryption, metadata);
    HashCheckPutsNothing(w.store, targetKey, hash);
    PutsAppend(s1.log, [PutObject(targetKey, obj)]);
    assert Puts([PutObject(targetKey, obj)]) == 1;
  }

  /** The hash comparison issues no put. */
  lemma HashCheckPutsNothing(store: Store, targetKey: string, localHash: string)
    ensures Puts(RemoteHashMatches(store, targetKey, localHash).0.log) == Puts(store.log)
  {
    var log := RemoteHashMatches(store, targetKey, localHash).0.log;
    var extra := log[|store.log|..];
    assert store.log + extra == log;
    PutsAppend(store.log, extra);
  }

  /** The transfer once the upload is decided: one put of the payload, and
      with encryption the staging file is gone afterwards. */
  lemma TransferOverwrites(config: Config, w: World, sourceFile: Path, targetKey: string,
                           storageClass: StorageClass, encryption: bool, metadata: map<string, string>)
    requires sourceFile in w.fs.files && targetKey !in w.store.denied
    requires encryption ==> StagingPossible(config, w.fs)
    ensures var out := TransferSpec(config, w, sourceFile, targetKey, storageClass, encryption, metadata);
      var obj := S3Object(metadata, Payload(config, w.fs, sourceFile, encryption), storageClass);
      out.1 == Success(()) &&
      out.0.store.objects == w.store.objects[targetKey := obj] &&
      out.0.store.log == w.store.log + [PutObject(targetKey, obj)] &&
      out.0.fs.dirs == w.fs.dirs &&
      out.0.fs.files == (if encryption then w.fs.files - {config.temporaryFile} else w.fs.files)
  {
    if encryption {
      var key := w.fs.files[config.masterKeyFile];
      var staged := EncryptToFile(config.cipher, w.fs, key, sourceFile, config.temporaryFile).value;
      assert staged.files[config.temporaryFile] == Payload(config, w.fs, sourceFile, encryption);
    }
  }

  /** After any successful upload the key holds the source's hash in its
      `sha256` metadata; the source itself is unchanged unless it was the
      staging file of an encrypted upload. */
  lemma UploadRecordsHash(config: Config, w: World, sourceFile: Path, targetKey: string,
                          storageClass: StorageClass, encryption: bool)
    requires UploadFileSpec(config, w, sourceFile, targetKey, storageClass, encryption).1.Success?
    ensures w.fs.IsRegularFile(sourceFile) && targetKey !in w.store.denied
    ensures var out := UploadFileSpec(config, w, sourceFile, targetKey, storageClass, encryption);
      out.0.store.denied == w.store.denied &&
      SkipsUpload(out.0.store, targetKey, LocalHash(config, w.fs, sourceFile)) &&
      (!encryption || sourceFile != config.temporaryFile ==>
         sourceFile in out.0.fs.files && out.0.fs.files[sourceFile] == w.fs.files[sourceFile])
  {
    var hash := LocalHash(config, w.fs, sourceFile);
    var s1 := RemoteHashMatches(w.store, targetKey, hash).0;
    if !RemoteHashMatches(w.store, targetKey, hash).1.value {
      var metadata := UploadMetadata(encryption, hash);
      assert MetadataOf(metadata, HashTag) == Some(hash);
    }
  }

  /** Uploading the same file to the same key twice puts it once: the second
      call finds the hash it recorded and skips, changing nothing. */
  lemma UploadIdempotent(config: Config, w: World, sourceFile: Path, targetKey: string,
                         storageClass: StorageClass, encryption: bool)
    requires encryption ==> sourceFile != config.temporaryFile
    requires UploadFileSpec(config, w, sourceFile, targetKey, storageClass, encryption).1.Success?
    ensures var w1 := UploadFileSpec(config, w, sourceFile, targetKey, storageClass, encryption).0;
      var out := UploadFileSpec(config, w1, sourceFile, targetKey, storageClass, encryption);
      out.1 == Success(()) && out.0.fs == w1.fs && out.0.store.objects == w1.store.objects &&
      Puts(out.0.store.log) == Puts(w1.store.log)
  {
    var w1 := UploadFileSpec(config, w, sourceFile, targetKey, storageClass, encryption).0;
    UploadRecordsHash(config, w, sourceFile, targetKey, storageClass, encryption);
    UploadSkipped(config, w1, sourceFile, targetKey, storageClass, encryption);
    PutsAppend(w1.store.log, [DoesObjectExist(targetKey), GetObjectMetadata(targetKey)]);
  }

  /** A file uploaded (not skipped) and then downloaded comes back byte for
      byte, encrypted or not, when decryption undoes encryption. */
  lemma UploadDownloadRoundTrip(config: Config, w: World, sourceFile: Path, targetKey: string,
                                storageClass: StorageClass, encryption: bool, targetFile: Path)
    requires RoundTrips(config.cipher)
    requires w.fs.IsRegularFile(sourceFile) && targetKey !in w.store.denied
    requires !SkipsUpload(w.store, targetKey, LocalHash(config, w.fs, sourceFile))
    requires encryption ==> StagingPossible(config, w.fs) &&
                            sourceFile != config.temporaryFile && config.masterKeyFile != config.temporaryFile
    requires w.fs.CanCreate(targetFile)
    ensures var w1 := UploadFileSpec(config, w, sourceFile, targetKey, storageClass, encryption).0;
      var out := DownloadSpec(config, w1, targetKey, targetFile);
      out.1 == Success(()) && out.0.fs.files == w1.fs.files[targetFile := w.fs.files[sourceFile]]
  {
    UploadOverwrites(config, w, sourceFile, targetKey, storageClass, encryption);
    var w1 := UploadFileSpec(config, w, sourceFile, targetKey, storageClass, encryption).0;
    var metadata := UploadMetadata(encryption, LocalHash(config, w.fs, sourceFile));
    assert w1.store.objects[targetKey].metadata == metadata;
    assert MetadataOf(metadata, EncryptionTag) == Some(BoolString(encryption));
    if encryption {
      var key := w.fs.files[config.masterKeyFile];
      assert LoadKey(w1.fs, config.masterKeyFile) == Success(key);
      var plaintext := PlaintextRead(w.fs, sourceFile, config.temporaryFile);
      DecryptsOwnMessages(config.cipher, key, plaintext);
    }
  }

  /** The encryption flag is read strictly: when it is missing or is neither
      "true" nor "false", the download fails after fetching the metadata and
      before fetching the body, and no file is written. */
  lemma DownloadFlagStrict(config: Config, w: World, sourceKey: string, targetFile: Path)
    requires sourceKey in w.store.objects && sourceKey !in w.store.denied
    requires var m := w.store.objects[sourceKey].metadata;
      EncryptionTag !in m || (m[EncryptionTag] != "true" && m[EncryptionTag] != "false")
    ensures var out := DownloadSpec(config, w, sourceKey, targetFile);
      var m := w.store.objects[sourceKey].metadata;
      out.1.Failure? && out.0.fs == w.fs && out.0.store.log == w.store.log + [GetObjectMetadata(sourceKey)] &&
      (EncryptionTag !in m ==> out.1.error == NullPointer) &&
      (EncryptionTag in m ==> out.1.error.IllegalArgument?)
  {
  }

  /** A missing or unreadable key fails with the service's error response
      and writes nothing. */
  lemma DownloadMissingKey(config: Config, w: World, sourceKey: string, targetFile: Path)
    requires sourceKey !in w.store.objects || sourceKey in w.store.denied
    ensures DownloadSpec(config, w, sourceKey, targetFile) ==
      (World(w.fs, w.store.Record(GetObjectMetadata(sourceKey))), Failure(AwsService(sourceKey)))
  {
  }

  /** "false" selects the plain copy: the target receives the body as stored. */
  lemma DownloadPlain(config: Config, w: World, sourceKey: string, targetFile: Path)
    requires sourceKey in w.store.objects && sourceKey !in w.store.denied
    requires MetadataOf(w.store.objects[sourceKey].metadata, EncryptionTag) == Some("false")
    ensures var out := DownloadSpec(config, w, sourceKey, targetFile);
      var body := w.store.objects[sourceKey].body;
      out.0.store.log == w.store.log + [GetObjectMetadata(sourceKey), GetObject(sourceKey)] &&
      (w.fs.CanCreate(targetFile) ==> out == (World(w.fs.Write(targetFile, body), out.0.store), Success(()))) &&
      (!w.fs.CanCreate(targetFile) ==> out == (World(w.fs, out.0.store), Failure(FileNotFound(targetFile))))
  {
  }

  /** "true" selects decryption under the key file's key: the target receives
      the plaintext, and a message the SDK refuses, or one whose context
      fails the check, writes nothing. */
  lemma DownloadDecrypts(config: Config, w: World, sourceKey: string, targetFile: Path)
    requires sourceKey in w.store.objects && sourceKey !in w.store.denied
    requires MetadataOf(w.store.objects[sourceKey].metadata, EncryptionTag) == Some("true")
    requires config.masterKeyFile in w.fs.files
    ensures var out := DownloadSpec(config, w, sourceKey, targetFile);
      var plaintext := Decrypt(config.cipher, w.fs.files[config.masterKeyFile], w.store.objects[sourceKey].body);
      out.0.store.log == w.store.log + [GetObjectMetadata(sourceKey), GetObject(sourceKey)] &&
      (plaintext.Failure? ==> out.0.fs == w.fs && out.1 == Failure(plaintext.error)) &&
      (plaintext.Success? && w.fs.CanCreate(targetFile) ==>
         out.1 == Success(()) && out.0.fs == w.fs.Write(targetFile, plaintext.value)) &&
      (plaintext.Success? && !w.fs.CanCreate(targetFile) ==>
         out.0.fs == w.fs && out.1 == Failure(NoSuchFile(targetFile)))
  {
  }

  lemma {:induction false} RegularFilesDistinct(visits: seq<Visit>)
    requires DistinctPaths(visits)
    ensures DistinctPaths(RegularFiles(visits))
  {
    if visits != [] {
      RegularFilesDistinct(visits[1..]);
      var head := if visits[0].node.RegularFile? then [visits[0]] else [];
      forall x, y | x in head && y in RegularFiles(visits[1..])
        ensures x.rel != y.rel
      {
        var j :| 0 <= j < |visits[1..]| && visits[1..][j] == y;
        assert visits[j + 1] == y;
      }
      DistinctAppend(head, RegularFiles(visits[1..]));
    }
  }

  /** `uploadFolder` uploads exactly the regular files the walk reaches
      without entering a refused directory, each once; no directory on the
      way, the folder itself included, is called `.idea` or `.gradle`,
      however deep the file lies. */
  lemma FolderPlanExact(tree: Node, rel: seq<string>, node: Node)
    requires UniqueNames(tree) && !tree.Special?
    ensures Visit(rel, node) in FolderPlan(tree) <==>
      node.RegularFile? && FileTree.Lookup(tree, rel) == Some(node) && Reachable(tree, rel, DirFilter)
    ensures Visit(rel, node) in FolderPlan(tree) ==>
      (tree.Directory? ==> DirFilter(tree.name)) &&
      forall k :: 0 <= k < |rel| - 1 ==> rel[k] != ".idea" && rel[k] != ".gradle"
    ensures DistinctPaths(FolderPlan(tree))
  {
    WalkSound(tree, [], DirFilter);
    WalkDistinct(tree, [], DirFilter);
    RegularFilesDistinct(Walk(tree, [], DirFilter));
    var v := Visit(rel, node);
    if v in FolderPlan(tree) {
      assert v.rel[0..] == rel;
      ReachableEntered(tree, rel, DirFilter);
    }
    if node.RegularFile? && FileTree.Lookup(tree, rel) == Some(node) && Reachable(tree, rel, DirFilter) {
      WalkComplete(tree, [], rel, DirFilter);
      assert [] + rel == rel;
    }
  }

  /** A name that can go into a folder key unchanged: non-empty, with no
      slash and no backslash. */
  predicate KeySafeName(n: string)
  {
    PlainName(n, '/') && '\\' !in n
  }

  /** The planned files of a folder whose names are key-safe lie at distinct
      paths made of key-safe names. */
  lemma FolderPlanNames(tree: Node)
    requires UniqueNames(tree) && NamesBelow(tree, KeySafeName)
    ensures DistinctPaths(FolderPlan(tree))
    ensures forall v :: v in FolderPlan(tree) ==> forall k :: 0 <= k < |v.rel| ==> KeySafeName(v.rel[k])
  {
    if !tree.Special? {
      WalkDistinct(tree, [], DirFilter);
      WalkNames(tree, [], DirFilter, KeySafeName);
      RegularFilesDistinct(Walk(tree, [], DirFilter));
    }
  }

  /** Two files of one folder get two keys, on a host whose separator is a
      slash or a backslash, when no name is empty or holds a slash or a
      backslash. */
  lemma FolderKeysDistinct(tree: Node, toRemoteFolder: string, sep: char)
    requires sep == '/' || sep == '\\'
    requires UniqueNames(tree) && NamesBelow(tree, KeySafeName)
    ensures var plan := FolderPlan(tree);
      forall i, j :: 0 <= i < j < |plan| ==>
        FolderKey(toRemoteFolder, plan[i].rel, sep) != FolderKey(toRemoteFolder, plan[j].rel, sep)
  {
    var plan := FolderPlan(tree);
    FolderPlanNames(tree);
    forall i, j | 0 <= i < j < |plan|
      ensures FolderKey(toRemoteFolder, plan[i].rel, sep) != FolderKey(toRemoteFolder, plan[j].rel, sep)
    {
      assert plan[i] in plan && plan[j] in plan;
      FolderKeyInjective(toRemoteFolder, plan[i].rel, plan[j].rel, sep);
    }
  }

  /** Relative paths of plain names that carry no backslash keep distinct
      folder keys. */
  lemma FolderKeyInjective(toRemoteFolder: string, a: seq<string>, b: seq<string>, sep: char)
    requires sep == '/' || sep == '\\'
    requires forall k :: 0 <= k < |a| ==> KeySafeName(a[k])
    requires forall k :: 0 <= k < |b| ==> KeySafeName(b[k])
    requires a != b
    ensures FolderKey(toRemoteFolder, a, sep) != FolderKey(toRemoteFolder, b, sep)
  {
    ReplaceJoin(a, sep, '\\', '/');
    ReplaceJoin(b, sep, '\\', '/');
    var prefix := toRemoteFolder + "/";
    if FolderKey(toRemoteFolder, a, sep) == FolderKey(toRemoteFolder, b, sep) {
      assert Join(a, '/') == (prefix + Join(a, '/'))[|prefix|..];
      assert Join(b, '/') == (prefix + Join(b, '/'))[|prefix|..];
      JoinInjective(a, b, '/');
    }
  }

  /** A folder holding a file named `a\\b` and a folder `a` with a file `b`. */
  function CollisionTree(): Node
  {
    Directory("docs", [RegularFile("a\\b"), Directory("a", [RegularFile("b")])])
  }

  lemma CollisionTreePlan()
    ensures FolderPlan(CollisionTree()) ==
      [Visit(["a\\b"], RegularFile("a\\b")), Visit(["a", "b"], RegularFile("b"))]
  {
    var f0, f1 := Visit(["a\\b"], RegularFile("a\\b")), Visit(["a", "b"], RegularFile("b"));
    var walk := [Visit([], CollisionTree()), f0, Visit(["a"], Directory("a", [RegularFile("b")])), f1];
    CollisionWalk();
    RegularFilesOfFour(walk[0], f0, walk[2], f1);
  }

  /** Of four visits where only the second and the fourth are files, the
      plan keeps those two. */
  lemma RegularFilesOfFour(a: Visit, b: Visit, c: Visit, d: Visit)
    requires !a.node.RegularFile? && b.node.RegularFile? && !c.node.RegularFile? && d.node.RegularFile?
    ensures RegularFiles([a, b, c, d]) == [b, d]
  {
    assert [d][1..] == [];
    assert RegularFiles([d]) == [d];
    assert [c, d][1..] == [d];
    assert RegularFiles([c, d]) == [d];
    assert [b, c, d][1..] == [c, d];
    assert RegularFiles([b, c, d]) == [b, d];
    assert [a, b, c, d][1..] == [b, c, d];
  }

  /** The walk of `CollisionTree`: the root, the file, the directory and
      the file inside it. */
  lemma CollisionWalk()
    ensures WalkTopDown(CollisionTree(), DirFilter) ==
      [Visit([], CollisionTree()), Visit(["a\\b"], RegularFile("a\\b")),
       Visit(["a"], Directory("a", [RegularFile("b")])), Visit(["a", "b"], RegularFile("b"))]
  {
    var tree := CollisionTree();
    var inner := Directory("a", [RegularFile("b")]);
    assert [] + ["a"] == ["a"] && [] + ["a\\b"] == ["a\\b"] && ["a"] + ["b"] == ["a", "b"];
    assert WalkChildren([RegularFile("b")], ["a"], DirFilter) == [Visit(["a", "b"], RegularFile("b"))];
    assert Walk(inner, ["a"], DirFilter) == [Visit(["a"], inner), Visit(["a", "b"], RegularFile("b"))];
    assert [inner][1..] == [] && tree.children[1..] == [inner];
    assert WalkChildren([inner], [], DirFilter) == Walk(inner, ["a"], DirFilter) + [];
    assert WalkChildren(tree.children, [], DirFilter) ==
      [Visit(["a\\b"], RegularFile("a\\b"))] + WalkChildren([inner], [], DirFilter);
  }

  lemma CollisionKeys()
    ensures FolderKey("backup", ["a\\b"], '/') == "backup/a/b"
    ensures FolderKey("backup", ["a", "b"], '/') == "backup/a/b"
  {
    var r0 := Replace(Join(["a\\b"], '/'), '\\', '/');
    assert r0[0] == 'a' && r0[1] == '/' && r0[2] == 'b';
    assert r0 == "a/b";
    assert ["a", "b"][1..] == ["b"];
    var joined := Join(["a", "b"], '/');
    assert joined == "a" + ['/'] + "b";
    var r1 := Replace(joined, '\\', '/');
    assert r1[0] == 'a' && r1[1] == '/' && r1[2] == 'b';
    assert r1 == "a/b";
  }

  /** Without that condition keys collide: on a host whose separator is a
      slash, the two files of `CollisionTree` go to one key, and the later
      upload replaces the earlier one. */
  lemma FolderKeyCollision()
    ensures var plan := FolderPlan(CollisionTree());
      |plan| == 2 && plan[0].rel != plan[1].rel &&
      FolderKey("backup", plan[0].rel, '/') == FolderKey("backup", plan[1].rel, '/') == "backup/a/b"
  {
    CollisionTreePlan();
    CollisionKeys();
  }

  /** Uploading `CollisionTree` in full on such a host puts both files to
      that key, the second after the first: a plain upload succeeds and
      leaves one object there, the second file labelled with its hash, so the
      first file is not in the bucket at all. */
  lemma FolderKeyCollisionOverwrites(config: Config, w: World, fromLocalFolder: Path, storageClass: StorageClass)
    requires config.sep == '/'
    requires fromLocalFolder in w.fs.dirs
    requires fromLocalFolder + ["a\\b"] in w.fs.files && fromLocalFolder + ["a", "b"] in w.fs.files
    requires "backup/a/b" !in w.store.denied
    requires !SkipsUpload(w.store, "backup/a/b", LocalHash(config, w.fs, fromLocalFolder + ["a\\b"]))
    requires LocalHash(config, w.fs, fromLocalFolder + ["a", "b"]) != LocalHash(config, w.fs, fromLocalFolder + ["a\\b"])
    ensures var out := UploadFolderSpec(config, w, fromLocalFolder, CollisionTree(), "backup", storageClass, false);
      var second := fromLocalFolder + ["a", "b"];
      out.1 == Success(()) &&
      out.0.store.objects == w.store.objects["backup/a/b" :=
        S3Object(UploadMetadata(false, LocalHash(config, w.fs, second)), w.fs.files[second], storageClass)]
  {
    CollisionTreePlan();
    CollisionKeys();
    var plan := FolderPlan(CollisionTree());
    SameKeyPairOverwrites(config, w, fromLocalFolder, "backup", plan[0], plan[1], storageClass);
  }

  /** Two planned files with one folder key: the second replaces the first. */
  lemma SameKeyPairOverwrites(config: Config, w: World, fromLocalFolder: Path, toRemoteFolder: string,
                              v0: Visit, v1: Visit, storageClass: StorageClass)
    requires fromLocalFolder + v0.rel in w.fs.files && fromLocalFolder + v1.rel in w.fs.files
    requires FolderKey(toRemoteFolder, v0.rel, config.sep) == FolderKey(toRemoteFolder, v1.rel, config.sep)
    requires FolderKey(toRemoteFolder, v0.rel, config.sep) !in w.store.denied
    requires !SkipsUpload(w.store, FolderKey(toRemoteFolder, v0.rel, config.sep), LocalHash(config, w.fs, fromLocalFolder + v0.rel))
    requires LocalHash(config, w.fs, fromLocalFolder + v1.rel) != LocalHash(config, w.fs, fromLocalFolder + v0.rel)
    ensures var out := UploadAll(config, w, fromLocalFolder, toRemoteFolder, [v0, v1], storageClass, false);
      var second := fromLocalFolder + v1.rel;
      out.1 == Success(()) &&
      out.0.store.objects == w.store.objects[FolderKey(toRemoteFolder, v0.rel, config.sep) :=
        S3Object(UploadMetadata(false, LocalHash(config, w.fs, second)), w.fs.files[second], storageClass)]
  {
    var key := FolderKey(toRemoteFolder, v0.rel, config.sep);
    var f0, f1 := fromLocalFolder + v0.rel, fromLocalFolder + v1.rel;
    UploadOverwrites(config, w, f0, key, storageClass, false);
    var w1 := UploadFileSpec(config, w, f0, key, storageClass, false).0;
    assert w1.fs == w.fs;
    assert MetadataOf(w1.store.objects[key].metadata, HashTag) == Some(LocalHash(config, w.fs, f0));
    UploadOverwrites(config, w1, f1, key, storageClass, false);
    var w2 := UploadFileSpec(config, w1, f1, key, storageClass, false).0;
    assert [v0, v1][1..] == [v1] && [v1][1..] == [];
    assert UploadAll(config, w1, fromLocalFolder, toRemoteFolder, [v1], storageClass, false) == (w2, Success(()));
    assert UploadAll(config, w, fromLocalFolder, toRemoteFolder, [v0, v1], storageClass, false) ==
           UploadAll(config, w1, fromLocalFolder, toRemoteFolder, [v1], storageClass, false);
  }

  /** The bucket changed only at `keys`: earlier requests are kept, every new
      request is about one of `keys`, and every other object is as it was. */
  predicate OnlyTouches(before: Store, after: Store, keys: set<string>)
  {
    |before.log| <= |after.log| && after.log[..|before.log|] == before.log &&
    (forall i :: |before.log| <= i < |after.log| ==> after.log[i].key in keys) &&
    after.objects - keys == before.objects - keys && after.denied == before.denied
  }

  lemma OnlyTouchesChain(a: Store, b: Store, c: Store, keys: set<string>, more: set<string>)
    requires OnlyTouches(a, b, keys) && OnlyTouches(b, c, more)
    ensures OnlyTouches(a, c, keys + more)
  {
    assert c.log[..|b.log|][..|a.log|] == c.log[..|a.log|];
    assert c.objects - (keys + more) == (c.objects - more) - keys;
    assert a.objects - (keys + more) == (a.objects - keys) - more;
    assert b.objects - (keys + more) == (b.objects - keys) - more == (b.objects - more) - keys;
  }

  /** `uploadFile` makes requests about its target key only, changes no
      other object, and changes no local file but the staging file. */
  lemma UploadFileFrame(config: Config, w: World, sourceFile: Path, targetKey: string,
                        storageClass: StorageClass, encryption: bool)
    ensures var out := UploadFileSpec(config, w, sourceFile, targetKey, storageClass, encryption);
      OnlyTouches(w.store, out.0.store, {targetKey}) && out.0.fs.dirs == w.fs.dirs &&
      out.0.fs.files - {config.temporaryFile} == w.fs.files - {config.temporaryFile}
  {
    if w.fs.IsRegularFile(sourceFile) {
      var hash := LocalHash(config, w.fs, sourceFile);
      var (s1, skip) := RemoteHashMatches(w.store, targetKey, hash);
      assert OnlyTouches(w.store, s1, {targetKey});
      if skip.Success? && !skip.value {
        var metadata := UploadMetadata(encryption, hash);
        TransferFrame(config, World(w.fs, s1), sourceFile, targetKey, storageClass, encryption, metadata);
        OnlyTouchesChain(w.store, s1, TransferSpec(config, World(w.fs, s1), sourceFile, targetKey, storageClass, encryption, metadata).0.store,
                         {targetKey}, {targetKey});
      }
    }
  }

  /** The transfer makes requests about its target key only. */
  lemma TransferFrame(config: Config, w: World, sourceFile: Path, targetKey: string,
                      storageClass: StorageClass, encryption: bool, metadata: map<string, string>)
    requires sourceFile in w.fs.files
    ensures OnlyTouches(w.store, TransferSpec(config, w, sourceFile, targetKey, storageClass, encryption, metadata).0.store, {targetKey})
  {
  }

  /** The keys of a folder upload plan. */
  function PlanKeys(toRemoteFolder: string, plan: seq<Visit>, sep: char): set<string>
  {
    set v | v in plan :: FolderKey(toRemoteFolder, v.rel, sep)
  }

  /** `uploadFolder` makes requests about its planned keys only and changes no
      local file but the staging file. */
  lemma {:induction false} UploadAllFrame(config: Config, w: World, fromLocalFolder: Path, toRemoteFolder: string,
                                          plan: seq<Visit>, storageClass: StorageClass, encryption: bool)
    ensures var out := UploadAll(config, w, fromLocalFolder, toRemoteFolder, plan, storageClass, encryption);
      OnlyTouches(w.store, out.0.store, PlanKeys(toRemoteFolder, plan, config.sep)) && out.0.fs.dirs == w.fs.dirs &&
      out.0.fs.files - {config.temporaryFile} == w.fs.files - {config.temporaryFile}
    decreases |plan|
  {
    var keys := PlanKeys(toRemoteFolder, plan, config.sep);
    if plan != [] {
      var k0 := FolderKey(toRemoteFolder, plan[0].rel, config.sep);
      UploadFileFrame(config, w, fromLocalFolder + plan[0].rel, k0, storageClass, encryption);
      var (w1, r1) := UploadFileSpec(config, w, fromLocalFolder + plan[0].rel, k0, storageClass, encryption);
      if r1.Success? {
        UploadAllFrame(config, w1, fromLocalFolder, toRemoteFolder, plan[1..], storageClass, encryption);
        var out := UploadAll(config, w1, fromLocalFolder, toRemoteFolder, plan[1..], storageClass, encryption);
        OnlyTouchesChain(w.store, w1.store, out.0.store, {k0}, PlanKeys(toRemoteFolder, plan[1..], config.sep));
        assert {k0} + PlanKeys(toRemoteFolder, plan[1..], config.sep) == keys;
      } else {
        assert {k0} + keys == keys;
        assert OnlyTouches(w1.store, w1.store, keys);
        OnlyTouchesChain(w.store, w1.store, w1.store, {k0}, keys);
      }
    } else {
      assert w.store.log[..|w.store.log|] == w.store.log;
    }
  }

  /** After a successful folder upload whose keys are distinct and whose files
      are not the staging file, every planned key carries its file's hash: a
      second run skips every file. */
  lemma {:induction false} UploadAllRecordsHashes(config: Config, w: World, fromLocalFolder: Path, toRemoteFolder: string,
                                                  plan: seq<Visit>, storageClass: StorageClass, encryption: bool)
    requires UploadAll(config, w, fromLocalFolder, toRemoteFolder, plan, storageClass, encryption).1.Success?
    requires forall i :: 0 <= i < |plan| ==> fromLocalFolder + plan[i].rel != config.temporaryFile
    requires forall i, j :: 0 <= i < j < |plan| ==>
      FolderKey(toRemoteFolder, plan[i].rel, config.sep) != FolderKey(toRemoteFolder, plan[j].rel, config.sep)
    ensures var out := UploadAll(config, w, fromLocalFolder, toRemoteFolder, plan, storageClass, encryption);
      forall i :: 0 <= i < |plan| ==>
        fromLocalFolder + plan[i].rel in w.fs.files &&
        SkipsUpload(out.0.store, FolderKey(toRemoteFolder, plan[i].rel, config.sep),
                    LocalHash(config, w.fs, fromLocalFolder + plan[i].rel))
    decreases |plan|
  {
    if plan != [] {
      var src := fromLocalFolder + plan[0].rel;
      var k0 := FolderKey(toRemoteFolder, plan[0].rel, config.sep);
      var (w1, r1) := UploadFileSpec(config, w, src, k0, storageClass, encryption);
      UploadRecordsHash(config, w, src, k0, storageClass, encryption);
      UploadFileFrame(config, w, src, k0, storageClass, encryption);
      var rest := plan[1..];
      forall i | 0 <= i < |rest|
        ensures fromLocalFolder + rest[i].rel != config.temporaryFile
      {
        assert rest[i] == plan[i + 1];
      }
      forall i, j | 0 <= i < j < |rest|
        ensures FolderKey(toRemoteFolder, rest[i].rel, config.sep) != FolderKey(toRemoteFolder, rest[j].rel, config.sep)
      {
        assert rest[i] == plan[i + 1] && rest[j] == plan[j + 1];
      }
      UploadAllRecordsHashes(config, w1, fromLocalFolder, toRemoteFolder, rest, storageClass, encryption);
      UploadAllFrame(config, w1, fromLocalFolder, toRemoteFolder, rest, storageClass, encryption);
      var out := UploadAll(config, w1, fromLocalFolder, toRemoteFolder, rest, storageClass, encryption);
      assert k0 !in PlanKeys(toRemoteFolder, rest, config.sep);
      assert k0 in out.0.store.objects - PlanKeys(toRemoteFolder, rest, config.sep);
      forall i | 0 <= i < |plan|
        ensures fromLocalFolder + plan[i].rel in w.fs.files &&
          SkipsUpload(out.0.store, FolderKey(toRemoteFolder, plan[i].rel, config.sep),
                      LocalHash(config, w.fs, fromLocalFolder + plan[i].rel))
      {
        if i > 0 {
          assert plan[i] == rest[i - 1];
          var p := fromLocalFolder + plan[i].rel;
          assert p in w1.fs.files - {config.temporaryFile};
          assert w1.fs.files[p] == (w1.fs.files - {config.temporaryFile})[p];
        }
      }
    }
  }

  /** Packing a folder into `zipFile` can create the zip file and then read
      every planned file. */
  predicate PackSucceeds(config: Config, fs: FileSystem, fromLocalFolder: Path, tree: Node, zipFile: Path)
  {
    var plan := FolderZipper.EntryPlan(tree, DirFilter);
    fs.CanCreate(zipFile) &&
    forall i :: 0 <= i < |plan| ==> fromLocalFolder + plan[i].rel in fs.Write(zipFile, []).files
  }

  /** The archive bytes packing a folder into `zipFile` produces, given the
      file times it reads. */
  function ZipBytes(config: Config, fs: FileSystem, fromLocalFolder: Path, tree: Node,
                    attrs: FolderZipper.Attributes, zipFile: Path): seq<byte>
  {
    config.zipFormat(FolderZipper.ReadEntries(fs.Write(zipFile, []), attrs, fromLocalFolder,
                                              FolderZipper.EntryPlan(tree, DirFilter), config.sep).0)
  }

  lemma PackedWorld(config: Config, w: World, fromLocalFolder: Path, tree: Node, attrs: FolderZipper.Attributes, zipFile: Path)
    requires PackSucceeds(config, w.fs, fromLocalFolder, tree, zipFile)
    ensures FolderZipper.PackOutcome(w.fs, attrs, fromLocalFolder, tree, zipFile, DirFilter, config.sep, config.zipFormat) ==
      (w.fs.Write(zipFile, ZipBytes(config, w.fs, fromLocalFolder, tree, attrs, zipFile)),
       Success(|FolderZipper.EntryPlan(tree, DirFilter)|))
  {
    FolderZipper.ReadEntriesContents(w.fs.Write(zipFile, []), attrs, fromLocalFolder, FolderZipper.EntryPlan(tree, DirFilter), config.sep);
    var zip := ZipBytes(config, w.fs, fromLocalFolder, tree, attrs, zipFile);
    assert w.fs.Write(zipFile, []).Write(zipFile, zip) == w.fs.Write(zipFile, zip);
  }

  /** Once the folder is packed, `uploadFolderAsZip` is the upload of the
      archive followed by its deletion. */
  lemma PackedUpload(config: Config, w: World, fromLocalFolder: Path, tree: Node, attrs: FolderZipper.Attributes,
                     targetKey: string,
                     storageClass: StorageClass, encryption: bool, zipFile: Path)
    requires fromLocalFolder in w.fs.dirs
    requires PackSucceeds(config, w.fs, fromLocalFolder, tree, zipFile)
    ensures var packed := World(w.fs.Write(zipFile, ZipBytes(config, w.fs, fromLocalFolder, tree, attrs, zipFile)), w.store);
      var up := UploadFileSpec(config, packed, zipFile, targetKey, storageClass, encryption);
      UploadFolderAsZipVia(config, w, fromLocalFolder, tree, attrs, targetKey, storageClass, encryption, zipFile) ==
      if up.1.Failure? then up else DeleteFile(up.0, zipFile)
  {
    PackedWorld(config, w, fromLocalFolder, tree, attrs, zipFile);
  }

  /** As written, an encrypted `uploadFolderAsZip` whose archive is not yet
      in the bucket encrypts the staging file onto itself: it uploads the
      encryption of nothing, labelled with the archive's hash, and then fails
      deleting the staging file a second time. */
  lemma ZipEncryptedUploadCorrupts(config: Config, w: World, fromLocalFolder: Path, tree: Node,
                                   attrs: FolderZipper.Attributes, targetKey: string,
                                   storageClass: StorageClass)
    requires fromLocalFolder in w.fs.dirs
    requires PackSucceeds(config, w.fs, fromLocalFolder, tree, config.temporaryFile)
    requires targetKey !in w.store.denied
    requires config.masterKeyFile in w.fs.files && config.masterKeyFile != config.temporaryFile
    requires !SkipsUpload(w.store, targetKey,
                          Utils.FileHash(config.sha, ZipBytes(config, w.fs, fromLocalFolder, tree, attrs, config.temporaryFile)))
    ensures var out := UploadFolderAsZipSpec(config, w, fromLocalFolder, tree, attrs, targetKey, storageClass, true);
      var zip := ZipBytes(config, w.fs, fromLocalFolder, tree, attrs, config.temporaryFile);
      out.1 == Failure(NoSuchFile(config.temporaryFile)) &&
      out.0.store.objects == w.store.objects[targetKey :=
        S3Object(UploadMetadata(true, Utils.FileHash(config.sha, zip)),
                 config.cipher.encrypt(w.fs.files[config.masterKeyFile], FileContext, []), storageClass)] &&
      out.0.fs == FileSystem(w.fs.files - {config.temporaryFile}, w.fs.dirs)
  {
    var tmp := config.temporaryFile;
    PackedUpload(config, w, fromLocalFolder, tree, attrs, targetKey, storageClass, true, tmp);
    var packed := w.fs.Write(tmp, ZipBytes(config, w.fs, fromLocalFolder, tree, attrs, tmp));
    UploadOverwrites(config, World(packed, w.store), tmp, targetKey, storageClass, true);
    var up := UploadFileSpec(config, World(packed, w.store), tmp, targetKey, storageClass, true);
    assert tmp !in up.0.fs.files;
    assert DeleteFile(up.0, tmp) == (up.0, Failure(NoSuchFile(tmp)));
    assert packed.files - {tmp} == w.fs.files - {tmp};
  }

  /** Whether running it again repairs the object depends on the file times
      the second packing reads, which the archive records. When every
      archived file's times are as they were, the second archive is byte for
      byte the first, its hash matches the label, and the run succeeds
      without uploading: the object whose body decrypts to nothing stays the
      backup of the folder. */
  lemma ZipEncryptedRerunKeepsCorruptObject(config: Config, w: World, fromLocalFolder: Path, tree: Node,
                                            attrs: FolderZipper.Attributes, attrs': FolderZipper.Attributes,
                                            targetKey: string, storageClass: StorageClass)
    requires fromLocalFolder in w.fs.dirs
    requires PackSucceeds(config, w.fs, fromLocalFolder, tree, config.temporaryFile)
    requires targetKey !in w.store.denied
    requires config.masterKeyFile in w.fs.files && config.masterKeyFile != config.temporaryFile
    requires !SkipsUpload(w.store, targetKey,
                          Utils.FileHash(config.sha, ZipBytes(config, w.fs, fromLocalFolder, tree, attrs, config.temporaryFile)))
    requires var plan := FolderZipper.EntryPlan(tree, DirFilter);
      forall i :: 0 <= i < |plan| ==> attrs'(fromLocalFolder + plan[i].rel) == attrs(fromLocalFolder + plan[i].rel)
    ensures var w1 := UploadFolderAsZipSpec(config, w, fromLocalFolder, tree, attrs, targetKey, storageClass, true).0;
      var out := UploadFolderAsZipSpec(config, w1, fromLocalFolder, tree, attrs', targetKey, storageClass, true);
      out.1 == Success(()) && out.0.store.objects == w1.store.objects &&
      (RoundTrips(config.cipher) ==>
         Decrypt(config.cipher, w.fs.files[config.masterKeyFile], out.0.store.objects[targetKey].body) == Success([]))
  {
    var tmp := config.temporaryFile;
    ZipEncryptedUploadCorrupts(config, w, fromLocalFolder, tree, attrs, targetKey, storageClass);
    var w1 := UploadFolderAsZipSpec(config, w, fromLocalFolder, tree, attrs, targetKey, storageClass, true).0;
    ZipRepacked(config, w.fs, w1.fs, fromLocalFolder, tree, attrs, attrs', tmp);
    var zip := ZipBytes(config, w.fs, fromLocalFolder, tree, attrs, tmp);
    assert MetadataOf(w1.store.objects[targetKey].metadata, HashTag) == Some(Utils.FileHash(config.sha, zip));
    ZipRerunSkips(config, w1, fromLocalFolder, tree, attrs', targetKey, storageClass);
    if RoundTrips(config.cipher) {
      DecryptsOwnMessages(config.cipher, w.fs.files[config.masterKeyFile], []);
    }
  }

  /** Packing after the staging file is gone reads what it read before. */
  lemma StagingGone(config: Config, fs: FileSystem, fs1: FileSystem, fromLocalFolder: Path, tree: Node,
                    attrs: FolderZipper.Attributes, zipFile: Path)
    requires fs1 == FileSystem(fs.files - {zipFile}, fs.dirs)
    requires PackSucceeds(config, fs, fromLocalFolder, tree, zipFile)
    ensures PackSucceeds(config, fs1, fromLocalFolder, tree, zipFile)
    ensures ZipBytes(config, fs1, fromLocalFolder, tree, attrs, zipFile) == ZipBytes(config, fs, fromLocalFolder, tree, attrs, zipFile)
  {
    assert fs1.Write(zipFile, []) == fs.Write(zipFile, []);
  }

  /** Packing again after the staging file is gone, with the same times for
      every planned file, gives the same archive. */
  lemma ZipRepacked(config: Config, fs: FileSystem, fs1: FileSystem, fromLocalFolder: Path, tree: Node,
                    attrs: FolderZipper.Attributes, attrs': FolderZipper.Attributes, zipFile: Path)
    requires fs1 == FileSystem(fs.files - {zipFile}, fs.dirs)
    requires PackSucceeds(config, fs, fromLocalFolder, tree, zipFile)
    requires var plan := FolderZipper.EntryPlan(tree, DirFilter);
      forall i :: 0 <= i < |plan| ==> attrs'(fromLocalFolder + plan[i].rel) == attrs(fromLocalFolder + plan[i].rel)
    ensures PackSucceeds(config, fs1, fromLocalFolder, tree, zipFile)
    ensures ZipBytes(config, fs1, fromLocalFolder, tree, attrs', zipFile) == ZipBytes(config, fs, fromLocalFolder, tree, attrs, zipFile)
  {
    StagingGone(config, fs, fs1, fromLocalFolder, tree, attrs', zipFile);
    assert fs1.Write(zipFile, []) == fs.Write(zipFile, []);
    FolderZipper.EntriesFollowTimes(fs.Write(zipFile, []), attrs, attrs', fromLocalFolder,
                                    FolderZipper.EntryPlan(tree, DirFilter), config.sep);
  }

  /** A zip upload whose archive hash the key already carries uploads
      nothing, whether encrypted or not. */
  lemma ZipRerunSkips(config: Config, w: World, fromLocalFolder: Path, tree: Node,
                      attrs: FolderZipper.Attributes, targetKey: string, storageClass: StorageClass)
    requires fromLocalFolder in w.fs.dirs
    requires PackSucceeds(config, w.fs, fromLocalFolder, tree, config.temporaryFile)
    requires targetKey !in w.store.denied
    requires SkipsUpload(w.store, targetKey,
                         Utils.FileHash(config.sha, ZipBytes(config, w.fs, fromLocalFolder, tree, attrs, config.temporaryFile)))
    ensures var out := UploadFolderAsZipSpec(config, w, fromLocalFolder, tree, attrs, targetKey, storageClass, true);
      out.1 == Success(()) && out.0.store.objects == w.store.objects
  {
    var tmp := config.temporaryFile;
    PackedUpload(config, w, fromLocalFolder, tree, attrs, targetKey, storageClass, true, tmp);
    var packed := w.fs.Write(tmp, ZipBytes(config, w.fs, fromLocalFolder, tree, attrs, tmp));
    UploadSkipped(config, World(packed, w.store), tmp, targetKey, storageClass, true);
  }

  /** When the second packing reads other times and so writes an archive with
      another hash (the first run's reads can move a file's last-access time),
      the rerun does not skip: it uploads the encryption of nothing once more,
      now labelled with the new archive's hash, and fails the same way. */
  lemma ZipEncryptedRerunWithNewTimes(config: Config, w: World, fromLocalFolder: Path, tree: Node,
                                      attrs: FolderZipper.Attributes, attrs': FolderZipper.Attributes,
                                      targetKey: string, storageClass: StorageClass)
    requires fromLocalFolder in w.fs.dirs
    requires PackSucceeds(config, w.fs, fromLocalFolder, tree, config.temporaryFile)
    requires targetKey !in w.store.denied
    requires config.masterKeyFile in w.fs.files && config.masterKeyFile != config.temporaryFile
    requires !SkipsUpload(w.store, targetKey,
                          Utils.FileHash(config.sha, ZipBytes(config, w.fs, fromLocalFolder, tree, attrs, config.temporaryFile)))
    requires Utils.FileHash(config.sha, ZipBytes(config, w.fs, fromLocalFolder, tree, attrs', config.temporaryFile)) !=
             Utils.FileHash(config.sha, ZipBytes(config, w.fs, fromLocalFolder, tree, attrs, config.temporaryFile))
    ensures var w1 := UploadFolderAsZipSpec(config, w, fromLocalFolder, tree, attrs, targetKey, storageClass, true).0;
      var out := UploadFolderAsZipSpec(config, w1, fromLocalFolder, tree, attrs', targetKey, storageClass, true);
      var zip' := ZipBytes(config, w.fs, fromLocalFolder, tree, attrs', config.temporaryFile);
      out.1 == Failure(NoSuchFile(config.temporaryFile)) &&
      out.0.store.objects == w1.store.objects[targetKey :=
        S3Object(UploadMetadata(true, Utils.FileHash(config.sha, zip')),
                 config.cipher.encrypt(w.fs.files[config.masterKeyFile], FileContext, []), storageClass)]
  {
    var tmp := config.temporaryFile;
    ZipEncryptedUploadCorrupts(config, w, fromLocalFolder, tree, attrs, targetKey, storageClass);
    var w1 := UploadFolderAsZipSpec(config, w, fromLocalFolder, tree, attrs, targetKey, storageClass, true).0;
    StagingGone(config, w.fs, w1.fs, fromLocalFolder, tree, attrs', tmp);
    assert w1.fs.files[config.masterKeyFile] == w.fs.files[config.masterKeyFile];
    var hash := Utils.FileHash(config.sha, ZipBytes(config, w.fs, fromLocalFolder, tree, attrs, tmp));
    assert MetadataOf(w1.store.objects[targetKey].metadata, HashTag) == Some(hash);
    ZipEncryptedUploadCorrupts(config, w1, fromLocalFolder, tree, attrs', targetKey, storageClass);
  }

  /** Staged at a path of its own, the archive survives the encryption: the
      upload succeeds, the object is labelled with the archive's hash and
      holds the archive or its encryption, and neither staging file is left
      behind. */
  lemma ZipStagedApartRoundTrips(config: Config, w: World, fromLocalFolder: Path, tree: Node,
                                 attrs: FolderZipper.Attributes, targetKey: string,
                                 storageClass: StorageClass, encryption: bool, zipFile: Path)
    requires RoundTrips(config.cipher)
    requires zipFile != config.temporaryFile
    requires fromLocalFolder in w.fs.dirs
    requires PackSucceeds(config, w.fs, fromLocalFolder, tree, zipFile)
    requires targetKey !in w.store.denied
    requires encryption ==> StagingPossible(config, w.fs) && config.masterKeyFile != zipFile
    requires !SkipsUpload(w.store, targetKey, Utils.FileHash(config.sha, ZipBytes(config, w.fs, fromLocalFolder, tree, attrs, zipFile)))
    ensures var out := UploadFolderAsZipVia(config, w, fromLocalFolder, tree, attrs, targetKey, storageClass, encryption, zipFile);
      var zip := ZipBytes(config, w.fs, fromLocalFolder, tree, attrs, zipFile);
      out.1 == Success(()) && targetKey in out.0.store.objects &&
      out.0.store.objects[targetKey].metadata == UploadMetadata(encryption, Utils.FileHash(config.sha, zip)) &&
      (encryption ==>
         Decrypt(config.cipher, w.fs.files[config.masterKeyFile], out.0.store.objects[targetKey].body) == Success(zip)) &&
      (!encryption ==> out.0.store.objects[targetKey].body == zip) &&
      zipFile !in out.0.fs.files && (encryption ==> config.temporaryFile !in out.0.fs.files)
  {
    PackedUpload(config, w, fromLocalFolder, tree, attrs, targetKey, storageClass, encryption, zipFile);
    var zip := ZipBytes(config, w.fs, fromLocalFolder, tree, attrs, zipFile);
    var packed := w.fs.Write(zipFile, zip);
    assert encryption ==> packed.files[config.masterKeyFile] == w.fs.files[config.masterKeyFile];
    UploadThenDelete(config, World(packed, w.store), zipFile, targetKey, storageClass, encryption);
  }

  /** Uploading a file other than the staging file and then deleting it: the
      object holds the file or its encryption under the file's hash, and
      neither file is left. */
  lemma UploadThenDelete(config: Config, w: World, file: Path, targetKey: string,
                         storageClass: StorageClass, encryption: bool)
    requires RoundTrips(config.cipher)
    requires file != config.temporaryFile && w.fs.IsRegularFile(file) && targetKey !in w.store.denied
    requires encryption ==> StagingPossible(config, w.fs) && config.masterKeyFile != file
    requires !SkipsUpload(w.store, targetKey, LocalHash(config, w.fs, file))
    ensures var up := UploadFileSpec(config, w, file, targetKey, storageClass, encryption);
      var out := if up.1.Failure? then up else DeleteFile(up.0, file);
      out.1 == Success(()) && targetKey in out.0.store.objects &&
      out.0.store.objects[targetKey].metadata == UploadMetadata(encryption, LocalHash(config, w.fs, file)) &&
      (encryption ==>
         Decrypt(config.cipher, w.fs.files[config.masterKeyFile], out.0.store.objects[targetKey].body) == Success(w.fs.files[file])) &&
      (!encryption ==> out.0.store.objects[targetKey].body == w.fs.files[file]) &&
      file !in out.0.fs.files && (encryption ==> config.temporaryFile !in out.0.fs.files)
  {
    UploadOverwrites(config, w, file, targetKey, storageClass, encryption);
    var up := UploadFileSpec(config, w, file, targetKey, storageClass, encryption);
    assert file in up.0.fs.files;
    if encryption {
      DecryptsOwnMessages(config.cipher, w.fs.files[config.masterKeyFile], w.fs.files[file]);
    }
  }
}
