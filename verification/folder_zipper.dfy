/** `FolderZipper.pack`: writes every non-directory file the pruned top-down
    walk reaches into one zip archive, each under its path relative to the
    packed folder. */
module FolderZipper {
  import opened Common
  import opened LocalFs
  import opened FileTree

  /** `Deflater.DEFAULT_COMPRESSION` and `Deflater.BEST_SPEED`. */
  const DefaultLevel: int := -1
  const BestSpeed: int := 1

  /** The three times of `BasicFileAttributes` that `pack` copies into an
      entry: last access, creation and last modification. */
  datatype FileTimes = FileTimes(lastAccess: int, creation: int, lastModified: int)

  /** What `Files.readAttributes` returns for each path during one run of
      `pack`. The clock, and the access-time updates the operating system
      makes when a file is read, are not modelled: each run is given the
      times it observes. */
  type Attributes = Path -> FileTimes

  /** An archive entry: its name, the times copied from the file, its bytes
      and the compression level it was written at. */
  datatype ZipEntry = ZipEntry(name: string, times: FileTimes, content: seq<byte>, level: int)

  /** The archive's byte format is not modelled: the model is given it as a
      function from the entry list to the bytes of the finished archive. */
  type ZipFormat = seq<ZipEntry> -> seq<byte>

  /** java.util.zip.ZipOutputStream as the entries written to it. */
  class ZipOutputStream {
    var level: int
    var entries: seq<ZipEntry>

    constructor ()
      ensures level == DefaultLevel && entries == []
    {
      level, entries := DefaultLevel, [];
    }

    method SetLevel(level: int)
      modifies this
      ensures this.level == level && entries == old(entries)
    {
      this.level := level;
    }

    /** `putNextEntry`, the copy of the file's bytes, `closeEntry`. */
    method AddEntry(name: string, times: FileTimes, content: seq<byte>)
      modifies this
      ensures entries == old(entries) + [ZipEntry(name, times, content, level)] && level == old(level)
    {
      entries := entries + [ZipEntry(name, times, content, level)];
    }
  }

  /** The walk's elements that become entries: those that are not directories. */
  function NonDirectories(visits: seq<Visit>): (r: seq<Visit>)
    ensures forall v :: v in r <==> v in visits && !v.node.Directory?
    ensures forall i :: 0 <= i < |r| ==> r[i] in visits
  {
    if visits == [] then []
    else (if visits[0].node.Directory? then [] else [visits[0]]) + NonDirectories(visits[1..])
  }

  /** The positions in `visits[from..]` that hold something other than a
      directory, in increasing order. */
  function NonDirectoryPositions(visits: seq<Visit>, from: nat): (ix: seq<nat>)
    requires from <= |visits|
    ensures forall k :: 0 <= k < |ix| ==> from <= ix[k] < |visits| && !visits[ix[k]].node.Directory?
    ensures forall k, l :: 0 <= k < l < |ix| ==> ix[k] < ix[l]
    ensures forall i :: from <= i < |visits| && !visits[i].node.Directory? ==> i in ix
    decreases |visits| - from
  {
    if from == |visits| then []
    else (if visits[from].node.Directory? then [] else [from]) + NonDirectoryPositions(visits, from + 1)
  }

  /** Dropping the directories keeps the walk's order: the kept elements are
      the walk's elements at increasing positions, one for every element that
      is not a directory. */
  lemma {:induction false} NonDirectoriesInOrder(visits: seq<Visit>, from: nat)
    requires from <= |visits|
    ensures var r := NonDirectories(visits[from..]);
      var ix := NonDirectoryPositions(visits, from);
      |r| == |ix| && forall k :: 0 <= k < |r| ==> r[k] == visits[ix[k]]
    decreases |visits| - from
  {
    if from < |visits| {
      NonDirectoriesInOrder(visits, from + 1);
      assert visits[from..][1..] == visits[from + 1..];
    }
  }

  /** What `pack` archives, in order. */
  function EntryPlan(tree: Node, dirFilter: string -> bool): seq<Visit>
  {
    NonDirectories(WalkTopDown(tree, dirFilter))
  }

  /** The entries read for a plan: stops at the first file that cannot be
      read, and reports it. */
  function ReadEntries(fs: FileSystem, attrs: Attributes, sourceDir: Path, plan: seq<Visit>, sep: char): (r: (seq<ZipEntry>, Option<Exception>))
    ensures |r.0| <= |plan|
    ensures r.1.None? ==> |r.0| == |plan|
  {
    if plan == [] then ([], None)
    else
      var path := sourceDir + plan[0].rel;
      if path !in fs.files then ([], Some(NoSuchFile(path)))
      else
        var rest := ReadEntries(fs, attrs, sourceDir, plan[1..], sep);
        ([ZipEntry(Join(plan[0].rel, sep), attrs(path), fs.files[path], BestSpeed)] + rest.0, rest.1)
  }

  /** Counter values at which a progress line is printed, up to `n`. */
  function Milestones(n: nat): (r: seq<nat>)
    ensures |r| == n / 1000
    ensures forall i :: 0 <= i < |r| ==> r[i] == 1000 * (i + 1)
  {
    if n == 0 then [] else Milestones(n - 1) + (if n % 1000 == 0 then [n] else [])
  }

  /** The file system and result `pack` ends with. The zip file is created
      (or truncated) first; a file that cannot be read ends the walk, and the
      archive is still closed over the entries written so far. */
  function PackOutcome(fs: FileSystem, attrs: Attributes, sourceDir: Path, tree: Node, zipFile: Path,
                       dirFilter: string -> bool, sep: char, format: ZipFormat): (out: (FileSystem, Result<nat>))
    ensures out.0.dirs == fs.dirs && out.0.files - {zipFile} == fs.files - {zipFile}
    ensures fs.CanCreate(zipFile) ==> zipFile in out.0.files
    ensures !fs.CanCreate(zipFile) ==> out == (fs, Failure(FileNotFound(zipFile)))
  {
    if !fs.CanCreate(zipFile) then (fs, Failure(FileNotFound(zipFile)))
    else
      var created := fs.Write(zipFile, []);
      var read := ReadEntries(created, attrs, sourceDir, EntryPlan(tree, dirFilter), sep);
      (created.Write(zipFile, format(read.0)), if read.1.None? then Success(|read.0|) else Failure(read.1.value))
  }

  lemma {:induction false} ReadEntriesSnoc(fs: FileSystem, attrs: Attributes, sourceDir: Path, plan: seq<Visit>, sep: char, i: nat)
    requires i < |plan|
    requires ReadEntries(fs, attrs, sourceDir, plan[..i], sep).1.None?
    ensures |ReadEntries(fs, attrs, sourceDir, plan[..i], sep).0| == i
    ensures sourceDir + plan[i].rel in fs.files ==>
      ReadEntries(fs, attrs, sourceDir, plan[..i + 1], sep) ==
        (ReadEntries(fs, attrs, sourceDir, plan[..i], sep).0 +
           [ZipEntry(Join(plan[i].rel, sep), attrs(sourceDir + plan[i].rel), fs.files[sourceDir + plan[i].rel], BestSpeed)], None)
    ensures sourceDir + plan[i].rel !in fs.files ==>
      ReadEntries(fs, attrs, sourceDir, plan[..i + 1], sep) ==
        (ReadEntries(fs, attrs, sourceDir, plan[..i], sep).0, Some(NoSuchFile(sourceDir + plan[i].rel)))
  {
    if i == 0 {
      assert plan[..0] == [] && plan[..1] == [plan[0]];
      assert ReadEntries(fs, attrs, sourceDir, [], sep) == ([], None);
      if sourceDir + plan[0].rel in fs.files {
        var e0 := ZipEntry(Join(plan[0].rel, sep), attrs(sourceDir + plan[0].rel), fs.files[sourceDir + plan[0].rel], BestSpeed);
        assert [e0] + [] == [e0];
        assert ReadEntries(fs, attrs, sourceDir, [plan[0]], sep) == ([e0] + [], None);
        assert ReadEntries(fs, attrs, sourceDir, plan[..i], sep).0 + [e0] == [e0];
        assert ReadEntries(fs, attrs, sourceDir, plan[..i + 1], sep) == ([e0], None);
      }
    } else {
      assert plan[..i][0] == plan[0] && plan[..i + 1][0] == plan[0];
      assert plan[..i][1..] == plan[1..][..i - 1];
      assert plan[..i + 1][1..] == plan[1..][..i];
      assert plan[1..][i - 1] == plan[i];
      assert sourceDir + plan[0].rel in fs.files;
      ReadEntriesSnoc(fs, attrs, sourceDir, plan[1..], sep, i - 1);
      var e0 := ZipEntry(Join(plan[0].rel, sep), attrs(sourceDir + plan[0].rel), fs.files[sourceDir + plan[0].rel], BestSpeed);
      var head := ReadEntries(fs, attrs, sourceDir, plan[1..][..i - 1], sep);
      assert ReadEntries(fs, attrs, sourceDir, plan[..i], sep) == ([e0] + head.0, head.1);
      if sourceDir + plan[i].rel in fs.files {
        var ei := ZipEntry(Join(plan[i].rel, sep), attrs(sourceDir + plan[i].rel), fs.files[sourceDir + plan[i].rel], BestSpeed);
        assert ReadEntries(fs, attrs, sourceDir, plan[..i + 1], sep) == ([e0] + (head.0 + [ei]), None);
        assert [e0] + (head.0 + [ei]) == ([e0] + head.0) + [ei];
      }
    }
  }

  /** `pack`: the archive is written at `zipFile` at BEST_SPEED; `counter`
      (returned on success) counts the entries, and `printed` holds the
      counter values at which "Added ... files" is printed. */
  method Pack(fs: FileSystem, attrs: Attributes, sourceDir: Path, tree: Node, zipFile: Path,
              dirFilter: string -> bool, sep: char, format: ZipFormat)
    returns (fs': FileSystem, r: Result<nat>, printed: seq<nat>)
    ensures (fs', r) == PackOutcome(fs, attrs, sourceDir, tree, zipFile, dirFilter, sep, format)
    ensures printed == if fs.CanCreate(zipFile)
      then Milestones(|ReadEntries(fs.Write(zipFile, []), attrs, sourceDir, EntryPlan(tree, dirFilter), sep).0|)
      else []
  {
    if !fs.CanCreate(zipFile) {
      return fs, Failure(FileNotFound(zipFile)), [];
    }
    var created := fs.Write(zipFile, []);
    var zs := new ZipOutputStream();
    zs.SetLevel(BestSpeed);
    var failure;
    failure, printed := AddFiles(zs, created, attrs, sourceDir, EntryPlan(tree, dirFilter), sep);
    fs' := created.Write(zipFile, format(zs.entries));
    r := if failure.None? then Success(|zs.entries|) else Failure(failure.value);
  }

  /** The `forEach` of `pack`: one entry per planned file, in order, named by
      its relative path, until a file cannot be read; `counter` is the number
      of entries so far and a line is printed at every thousandth. */
  method AddFiles(zs: ZipOutputStream, fs: FileSystem, attrs: Attributes, sourceDir: Path, plan: seq<Visit>, sep: char)
    returns (failure: Option<Exception>, printed: seq<nat>)
    requires zs.entries == [] && zs.level == BestSpeed
    modifies zs
    ensures (zs.entries, failure) == ReadEntries(fs, attrs, sourceDir, plan, sep)
    ensures zs.level == BestSpeed
    ensures printed == Milestones(|zs.entries|)
  {
    var counter := 0;
    printed := [];
    var i := 0;
    while i < |plan|
      invariant 0 <= i <= |plan| && counter == i == |zs.entries|
      invariant ReadEntries(fs, attrs, sourceDir, plan[..i], sep) == (zs.entries, None)
      invariant zs.level == BestSpeed && printed == Milestones(counter)
    {
      ReadEntriesSnoc(fs, attrs, sourceDir, plan, sep, i);
      var path := sourceDir + plan[i].rel;
      if path !in fs.files {
        ReadEntriesPrefix(fs, attrs, sourceDir, plan, sep, i + 1);
        return Some(NoSuchFile(path)), printed;
      }
      zs.AddEntry(Join(plan[i].rel, sep), attrs(path), fs.files[path]);
      counter := counter + 1;
      if counter % 1000 == 0 {
        printed := printed + [counter];
      }
      i := i + 1;
    }
    assert plan[..i] == plan;
    failure := None;
  }

  /** Once reading stops at some point of the plan, the rest of the plan
      changes nothing. */
  lemma {:induction false} ReadEntriesPrefix(fs: FileSystem, attrs: Attributes, sourceDir: Path, plan: seq<Visit>, sep: char, i: nat)
    requires i <= |plan|
    requires ReadEntries(fs, attrs, sourceDir, plan[..i], sep).1.Some?
    ensures ReadEntries(fs, attrs, sourceDir, plan, sep) == ReadEntries(fs, attrs, sourceDir, plan[..i], sep)
  {
    if i == |plan| {
      assert plan[..i] == plan;
    } else {
      assert i > 0;
      var path := sourceDir + plan[0].rel;
      if path in fs.files {
        assert plan[..i][1..] == plan[1..][..i - 1];
        ReadEntriesPrefix(fs, attrs, sourceDir, plan[1..], sep, i - 1);
      }
    }
  }

  /** The entries read for a plan are the plan's files in plan order, each
      named by its relative path, carrying the times the attribute snapshot
      gives for it and holding that file's bytes at BEST_SPEED;
      reading fails exactly when some planned file cannot be read, and then
      names the first such file. */
  lemma {:induction false} ReadEntriesContents(fs: FileSystem, attrs: Attributes, sourceDir: Path, plan: seq<Visit>, sep: char)
    ensures var r := ReadEntries(fs, attrs, sourceDir, plan, sep);
      (r.1.None? <==> forall i :: 0 <= i < |plan| ==> sourceDir + plan[i].rel in fs.files) &&
      (r.1.None? ==> |r.0| == |plan|) &&
      (r.1.Some? ==> |r.0| < |plan| && r.1.value == NoSuchFile(sourceDir + plan[|r.0|].rel) &&
                     sourceDir + plan[|r.0|].rel !in fs.files) &&
      (forall i :: 0 <= i < |r.0| ==>
         sourceDir + plan[i].rel in fs.files &&
         r.0[i] == ZipEntry(Join(plan[i].rel, sep), attrs(sourceDir + plan[i].rel), fs.files[sourceDir + plan[i].rel], BestSpeed))
  {
    if plan != [] && sourceDir + plan[0].rel in fs.files {
      ReadEntriesContents(fs, attrs, sourceDir, plan[1..], sep);
      var rest := ReadEntries(fs, attrs, sourceDir, plan[1..], sep);
      var r := ReadEntries(fs, attrs, sourceDir, plan, sep);
      assert r.0 == [ZipEntry(Join(plan[0].rel, sep), attrs(sourceDir + plan[0].rel), fs.files[sourceDir + plan[0].rel], BestSpeed)] + rest.0;
      assert forall i :: 1 <= i < |r.0| ==> r.0[i] == rest.0[i - 1] && plan[i] == plan[1..][i - 1];
      if r.1.None? {
        assert forall i :: 1 <= i < |plan| ==> plan[i] == plan[1..][i - 1];
      } else {
        assert plan[|r.0|] == plan[1..][|rest.0|];
      }
    }
  }

  /** The times are part of what is archived: for a plan whose files can all
      be read, two attribute snapshots give the same entries exactly when
      they agree on every planned file. */
  lemma {:induction false} EntriesFollowTimes(fs: FileSystem, attrs: Attributes, attrs': Attributes,
                                              sourceDir: Path, plan: seq<Visit>, sep: char)
    requires forall i :: 0 <= i < |plan| ==> sourceDir + plan[i].rel in fs.files
    ensures ReadEntries(fs, attrs, sourceDir, plan, sep).0 == ReadEntries(fs, attrs', sourceDir, plan, sep).0 <==>
      forall i :: 0 <= i < |plan| ==> attrs(sourceDir + plan[i].rel) == attrs'(sourceDir + plan[i].rel)
  {
    ReadEntriesContents(fs, attrs, sourceDir, plan, sep);
    ReadEntriesContents(fs, attrs', sourceDir, plan, sep);
    var e, e' := ReadEntries(fs, attrs, sourceDir, plan, sep).0, ReadEntries(fs, attrs', sourceDir, plan, sep).0;
    if forall i :: 0 <= i < |plan| ==> attrs(sourceDir + plan[i].rel) == attrs'(sourceDir + plan[i].rel) {
      assert forall i :: 0 <= i < |e| ==> e[i] == e'[i];
    } else {
      var i :| 0 <= i < |plan| && attrs(sourceDir + plan[i].rel) != attrs'(sourceDir + plan[i].rel);
      assert e[i].times != e'[i].times;
    }
  }

  /** A subsequence of a walk with distinct paths keeps them distinct. */
  lemma {:induction false} NonDirectoriesDistinct(visits: seq<Visit>)
    requires DistinctPaths(visits)
    ensures DistinctPaths(NonDirectories(visits))
  {
    if visits != [] {
      NonDirectoriesDistinct(visits[1..]);
      var head := if visits[0].node.Directory? then [] else [visits[0]];
      forall x, y | x in head && y in NonDirectories(visits[1..])
        ensures x.rel != y.rel
      {
        var j :| 0 <= j < |visits[1..]| && visits[1..][j] == y;
        assert visits[j + 1] == y;
      }
      DistinctAppend(head, NonDirectories(visits[1..]));
    }
  }

  /** The archive holds exactly the non-directory files that the walk
      reaches without entering a directory `dirFilter` refuses, each once. */
  lemma EntryPlanExact(tree: Node, dirFilter: string -> bool, rel: seq<string>, node: Node)
    requires UniqueNames(tree) && !tree.Special?
    ensures Visit(rel, node) in EntryPlan(tree, dirFilter) <==>
      !node.Directory? && Lookup(tree, rel) == Some(node) && Reachable(tree, rel, dirFilter)
    ensures DistinctPaths(EntryPlan(tree, dirFilter))
  {
    WalkSound(tree, [], dirFilter);
    WalkDistinct(tree, [], dirFilter);
    NonDirectoriesDistinct(Walk(tree, [], dirFilter));
    var v := Visit(rel, node);
    if v in EntryPlan(tree, dirFilter) {
      assert v.rel[0..] == rel;
    }
    if !node.Directory? && Lookup(tree, rel) == Some(node) && Reachable(tree, rel, dirFilter) {
      WalkComplete(tree, [], rel, dirFilter);
      assert [] + rel == rel;
    }
  }

  /** Pruning covers whole subtrees: nothing at or below a directory that
      `dirFilter` refuses is archived, however deep. */
  lemma PrunedSubtree(tree: Node, dirFilter: string -> bool, dir: seq<string>, v: Visit)
    requires UniqueNames(tree)
    requires Lookup(tree, dir).Some? && Lookup(tree, dir).value.Directory?
    requires !dirFilter(Lookup(tree, dir).value.name)
    requires v in EntryPlan(tree, dirFilter)
    ensures !Extends(v, dir)
  {
    WalkSound(tree, [], dirFilter);
    assert v.rel[0..] == v.rel;
    if Extends(v, dir) {
      ReachableEntersPrefix(tree, v.rel, dir, dirFilter);
    }
  }

  /** Entry names are the relative paths written with the host separator;
      when no name in the tree is empty or holds that separator, no two
      entries share a name. */
  lemma EntryNamesDistinct(tree: Node, dirFilter: string -> bool, sep: char)
    requires UniqueNames(tree) && NamesBelow(tree, n => PlainName(n, sep))
    ensures var plan := EntryPlan(tree, dirFilter);
      forall i, j :: 0 <= i < j < |plan| ==> Join(plan[i].rel, sep) != Join(plan[j].rel, sep)
  {
    var walk := Walk(tree, [], dirFilter);
    var plan := EntryPlan(tree, dirFilter);
    assert plan == NonDirectories(walk) || plan == [];
    WalkDistinct(tree, [], dirFilter);
    NonDirectoriesDistinct(walk);
    forall i, j | 0 <= i < j < |plan|
      ensures Join(plan[i].rel, sep) != Join(plan[j].rel, sep)
    {
      EntryNamesDiffer(tree, dirFilter, sep, plan[i], plan[j]);
    }
  }

  /** Two walked elements at different paths have different entry names. */
  lemma EntryNamesDiffer(tree: Node, dirFilter: string -> bool, sep: char, a: Visit, b: Visit)
    requires NamesBelow(tree, n => PlainName(n, sep))
    requires a in Walk(tree, [], dirFilter) && b in Walk(tree, [], dirFilter) && a.rel != b.rel
    ensures Join(a.rel, sep) != Join(b.rel, sep)
  {
    WalkNames(tree, [], dirFilter, n => PlainName(n, sep));
    if Join(a.rel, sep) == Join(b.rel, sep) {
      JoinInjective(a.rel, b.rel, sep);
    }
  }

  /** What `pack` leaves behind: the zip file holds the archive of the entries
      read and nothing else changes; it succeeds exactly when every planned
      file could be read, and then its count is the number of entries. */
  lemma PackResult(fs: FileSystem, attrs: Attributes, sourceDir: Path, tree: Node, zipFile: Path,
                   dirFilter: string -> bool, sep: char, format: ZipFormat)
    requires fs.CanCreate(zipFile)
    ensures var out := PackOutcome(fs, attrs, sourceDir, tree, zipFile, dirFilter, sep, format);
      var plan := EntryPlan(tree, dirFilter);
      var read := ReadEntries(fs.Write(zipFile, []), attrs, sourceDir, plan, sep);
      out.0.files == fs.files[zipFile := format(read.0)] && out.0.dirs == fs.dirs &&
      (out.1.Success? <==> forall i :: 0 <= i < |plan| ==> sourceDir + plan[i].rel in fs.Write(zipFile, []).files) &&
      (out.1.Success? ==> out.1.value == |plan|)
  {
    ReadEntriesContents(fs.Write(zipFile, []), attrs, sourceDir, EntryPlan(tree, dirFilter), sep);
  }
}
