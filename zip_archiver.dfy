/**
  ZipArchiver: the older archiver. It makes sure the destination directory
  exists before opening the archive, writes the archive with the same stream
  code as ZipManager, and turns only I/O failures into a ZipException; other
  exceptions, and the errors of the directory step, reach the caller as they are.
*/
module ZipArchiver {
  import opened Errors
  import opened FileSystems
  import opened DirectoryHelper
  import opened ZipManager

  const ArchiverErrorPrefix := "An error occurred while creating the ZIP archive: "

  function ArchiveFilesStep(st: FsState, files: seq<Path>, destDir: Path, archiveName: string): (r: Step)
    requires '/' !in archiveName
    ensures r.outcome.Fail? && r.outcome.error.ZipFailure? ==>
              r.outcome.error.message == ArchiverErrorPrefix + PathString(ArchivePath(destDir, archiveName))
    ensures EnsureDirectoryStep(st, destDir).outcome.Fail? ==> r == EnsureDirectoryStep(st, destDir)
    ensures EnsureDirectoryStep(st, destDir).outcome.Pass? && r.outcome.Fail? ==>
              r.outcome.error == NullPointer
              || r.outcome.error == ZipFailure(ArchiverErrorPrefix + PathString(ArchivePath(destDir, archiveName)))
    ensures EnsureDirectoryStep(st, destDir).outcome.Pass? ==>
              var w := WriteArchiveStep(EnsureDirectoryStep(st, destDir).state, ArchivePath(destDir, archiveName), files);
              r.state == w.state && (w.outcome.Fail? && w.outcome.error.IO? <==> r.outcome.Fail? && r.outcome.error.ZipFailure?)
  {
    var ensured := EnsureDirectoryStep(st, destDir);
    if ensured.outcome.Fail? then
      assert !ensured.outcome.error.ZipFailure?;
      ensured
    else
      var archive := ArchivePath(destDir, archiveName);
      var s := WriteArchiveStep(ensured.state, archive, files);
      if s.outcome.Fail? && s.outcome.error.IO? then
        Step(s.state, Fail(ZipFailure(ArchiverErrorPrefix + PathString(archive))))
      else s
  }

  /** archiveFiles of ZipArchiver on the live file system. */
  method ArchiveFiles(fs: FileSystem, files: seq<Path>, destDir: Path, archiveName: string) returns (o: Outcome)
    requires fs.Valid() && '/' !in archiveName
    modifies fs
    ensures fs.Valid()
    ensures Step(fs.State(), o) == ArchiveFilesStep(old(fs.State()), files, destDir, archiveName)
  {
    var ensured := CreateDirectoryIfNotExists(fs, destDir);
    if ensured.Err? {
      return Fail(ensured.error);
    }
    var archive := ArchivePath(destDir, archiveName);
    o := WriteArchive(fs, archive, files);
    if o.Fail? && o.error.IO? {
      o := Fail(ZipFailure(ArchiverErrorPrefix + PathString(archive)));
    }
  }

  /**
    The destination is made before anything else: unless a regular file stands
    in its way, it is a directory afterwards whatever happens to the archive;
    when one does, the directory error comes back unwrapped and nothing changes.
  */
  lemma DestinationEnsuredFirst(st: FsState, files: seq<Path>, destDir: Path, archiveName: string)
    requires WellFormed(st) && '/' !in archiveName
    ensures var r := ArchiveFilesStep(st, files, destDir, archiveName);
            (!BlockedByFile(st, destDir) ==> destDir in r.state.dirs)
            && (BlockedByFile(st, destDir) ==> r.state == st && r.outcome.Fail? && !r.outcome.error.ZipFailure?)
  {
    EnsureDirectoryCases(st, destDir);
    if BlockedByFile(st, destDir) && destDir !in st.files {
      assert EnsureDirectoryStep(st, destDir) == CreateDirectoriesStep(st, destDir);
    }
  }

  /**
    A NullPointerException (the root given as an input) is not an IOException,
    so it escapes unwrapped, where ZipManager would have wrapped it.
  */
  lemma RootInputEscapes(st: FsState, destDir: Path, archiveName: string)
    requires WellFormed(st) && '/' !in archiveName && destDir in st.dirs
    requires ArchivePath(destDir, archiveName) !in st.dirs
    ensures ArchiveFilesStep(st, [[]], destDir, archiveName).outcome == Fail(NullPointer)
    ensures ZipManager.ArchiveFilesStep(st, [[]], destDir, archiveName).outcome.error.ZipFailure?
  {
    EnsureDirectoryCases(st, destDir);
    var archive := ArchivePath(destDir, archiveName);
    var truncated := st.(files := st.files[archive := Bytes([])]);
    assert WriteFileStep(st, archive, Bytes([])) == Step(truncated, Pass);
    assert truncated.Exists([]);
    assert WriteEntries(truncated, [[]], []) == Build([], Some(NullPointer));
  }

  /** Over an existing destination the archive holds exactly the existing inputs, in order. */
  lemma ArchiveFilesKeptInDirectory(st: FsState, files: seq<Path>, destDir: Path, archiveName: string)
    requires WellFormed(st) && '/' !in archiveName && destDir in st.dirs
    requires ArchivePath(destDir, archiveName) !in st.dirs && ArchivePath(destDir, archiveName) !in files
    requires RegularInputs(st, files)
    requires NoDuplicates(EntryNames(EntriesOf(st, Present(st, files))))
    ensures ArchiveFilesStep(st, files, destDir, archiveName)
              == Step(st.(files := st.files[ArchivePath(destDir, archiveName) := Zip(EntriesOf(st, Present(st, files)))]), Pass)
  {
    EnsureDirectoryCases(st, destDir);
    WriteArchiveKept(st, ArchivePath(destDir, archiveName), files);
  }

  /** An empty input list gives an archive with no entries. */
  lemma EmptyListArchive(st: FsState, destDir: Path, archiveName: string)
    requires WellFormed(st) && '/' !in archiveName && destDir in st.dirs
    requires ArchivePath(destDir, archiveName) !in st.dirs
    ensures ArchiveFilesStep(st, [], destDir, archiveName)
              == Step(st.(files := st.files[ArchivePath(destDir, archiveName) := Zip([])]), Pass)
  {
    ArchiveFilesKeptInDirectory(st, [], destDir, archiveName);
  }

  /** [valid, missing]: one entry, named after the valid file and holding its content. */
  lemma ValidAndMissingArchive(st: FsState, valid: Path, missing: Path, destDir: Path, archiveName: string)
    requires WellFormed(st) && '/' !in archiveName && destDir in st.dirs
    requires ArchivePath(destDir, archiveName) !in st.dirs
    requires valid in st.files && !st.Exists(missing)
    requires ArchivePath(destDir, archiveName) != valid && ArchivePath(destDir, archiveName) != missing
    ensures ArchiveFilesStep(st, [valid, missing], destDir, archiveName)
              == Step(st.(files := st.files[ArchivePath(destDir, archiveName) := Zip([Entry(FileName(valid), st.files[valid])])]), Pass)
  {
    var files := [valid, missing];
    assert files[1..] == [missing] && [missing][1..] == [];
    assert Present(st, [missing]) == [];
    assert Present(st, files) == [valid];
    var e := Entry(FileName(valid), st.files[valid]);
    assert EntriesOf(st, [valid]) == [e];
    assert RegularInputs(st, files);
    assert NoDuplicates(EntryNames([e]));
    ArchiveFilesKeptInDirectory(st, files, destDir, archiveName);
  }
}
