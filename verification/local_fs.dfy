/** The local file system as the code sees it through java.nio.file: the
    bytes of every regular file and the set of directories. */
module LocalFs {
  import opened Common

  datatype FileSystem = FileSystem(files: map<Path, seq<byte>>, dirs: set<Path>) {

    /** `Files.isRegularFile` / `File.isFile`. */
    predicate IsRegularFile(p: Path)
    {
      p in files
    }

    /** Opening `p` for writing (`Files.newOutputStream`, `FileOutputStream`)
        succeeds: its parent is a directory and `p` is not one. */
    predicate CanCreate(p: Path)
    {
      |p| > 0 && p[..|p| - 1] in dirs && p !in dirs
    }

    /** The file system after `p` has been created or truncated and then
        given the contents `bytes`. */
    function Write(p: Path, bytes: seq<byte>): FileSystem
    {
      FileSystem(files[p := bytes], dirs)
    }

    /** `Files.delete` of a regular file: it fails with
        NoSuchFileException when there is nothing to delete. */
    function Delete(p: Path): (r: Result<FileSystem>)
      ensures r.Success? <==> p in files
      ensures r.Success? ==> r.value.files == files - {p} && r.value.dirs == dirs
      ensures r.Failure? ==> r.error == NoSuchFile(p)
    {
      if p in files then Success(FileSystem(files - {p}, dirs)) else Failure(NoSuchFile(p))
    }
  }
}
