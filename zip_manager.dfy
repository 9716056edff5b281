/**
  ZipManager: packing files into a zip archive and unpacking an archive into a
  directory, over the file system of FileSystems.

  Writing an archive is shared with the older ZipArchiver, which repeats the
  same stream code: open the archive (created or truncated), add every input in
  order, then close. Adding an input skips it when it does not exist, and
  otherwise appends one entry named by the input's last path name and holding
  its content. The archive on disk is what was written when the stream closes,
  which try-with-resources does on the failure path too.
*/
module ZipManager {
  import opened Text
  import opened Errors
  import opened FileSystems
  import opened DirectoryHelper

  function EntryNames(entries: seq<Entry>): (r: seq<string>)
    ensures |r| == |entries| && forall i :: 0 <= i < |entries| ==> r[i] == entries[i].name
  {
    seq(|entries|, i requires 0 <= i < |entries| => entries[i].name)
  }

  predicate NoDuplicates(names: seq<string>) {
    forall i, j :: 0 <= i < j < |names| ==> names[i] != names[j]
  }

  /** What adding one input did to the stream. */
  datatype Added =
    | Skipped                                   // Files.notExists: logged and ignored
    | Added(entry: Entry)                       // one complete entry
    | Broken(written: seq<Entry>, error: Error) // what reached the stream before the exception

  /**
    addFileToZip against the entries written so far. The root has no file name
    (a NullPointerException); a name already used is refused by putNextEntry; a
    directory gets its entry opened and then fails on the first read, and the
    empty entry is finished when the stream closes.
  */
  function AddFileToZip(st: FsState, file: Path, written: seq<Entry>): (r: Added)
    ensures r.Skipped? <==> !st.Exists(file)
    ensures r.Added? <==> st.Exists(file) && file != [] && FileName(file) !in EntryNames(written) && file !in st.dirs
    ensures r.Added? ==> r.entry == Entry(FileName(file), st.files[file])
    ensures r.Broken? ==> |r.written| <= 1 && (r.error.IO? || (r.error == NullPointer <==> file == []))
  {
    if !st.Exists(file) then Skipped
    else if file == [] then Broken([], NullPointer)
    else if FileName(file) in EntryNames(written) then Broken([], IO("duplicate entry: " + FileName(file)))
    else if file in st.dirs then Broken([Entry(FileName(file), Bytes([]))], IO(PathString(file)))
    else Added(Entry(FileName(file), st.files[file]))
  }

  /** The entries of the archive and the exception that ended the loop, if any. */
  datatype Build = Build(entries: seq<Entry>, failure: Option<Error>)

  /** The loop over the inputs, after the entries already written. */
  function WriteEntries(st: FsState, files: seq<Path>, written: seq<Entry>): (r: Build)
    ensures r.failure.Some? ==> r.failure.value.IO? || r.failure.value == NullPointer
    ensures |written| <= |r.entries| && r.entries[..|written|] == written
    decreases |files|
  {
    if files == [] then Build(written, None)
    else match AddFileToZip(st, files[0], written)
      case Skipped => WriteEntries(st, files[1..], written)
      case Added(e) => WriteEntries(st, files[1..], written + [e])
      case Broken(partial, error) => Build(written + partial, Some(error))
  }

  /**
    The shared body of both archiveFiles: open the archive with CREATE and
    TRUNCATE_EXISTING (which needs the parent directory and fails on a
    directory), read the inputs from the file system as it is once the archive
    is open, and leave the archive holding every entry written.
  */
  function WriteArchiveStep(st: FsState, archive: Path, files: seq<Path>): (r: Step)
    ensures r.state.dirs == st.dirs
    ensures r.outcome.Fail? ==> r.outcome.error.IO? || r.outcome.error == NullPointer
  {
    var truncated := WriteFileStep(st, archive, Bytes([]));
    if truncated.outcome.Fail? then truncated
    else
      var build := WriteEntries(truncated.state, files, []);
      var closed := truncated.state.(files := truncated.state.files[archive := Zip(build.entries)]);
      Step(closed, if build.failure.Some? then Fail(build.failure.value) else Pass)
  }

  /** outputDir.resolve(getZipFileName(archiveName)). */
  function ArchivePath(outputDir: Path, archiveName: string): (r: Path)
    requires '/' !in archiveName
    ensures r != [] && Parent(r) == outputDir && FileName(r) == GetZipFileName(archiveName)
  {
    var name := GetZipFileName(archiveName);
    assert '/' !in name by {
      if name != archiveName {
        assert name == archiveName + ".zip";
      }
    }
    assert |name| >= 4;
    assert (outputDir + [name])[..|outputDir|] == outputDir;
    outputDir + [name]
  }

  const ArchiveErrorPrefix := "Ocorreu um erro ao criar o arquivo ZIP: "

  /** archiveFiles: every failure, whatever its kind, becomes a ZipException naming the archive. */
  function ArchiveFilesStep(st: FsState, files: seq<Path>, outputDir: Path, archiveName: string): (r: Step)
    requires '/' !in archiveName
    ensures r.outcome.Fail? ==>
              r.outcome.error == ZipFailure(ArchiveErrorPrefix + PathString(ArchivePath(outputDir, archiveName)))
    ensures r.state.dirs == st.dirs
  {
    var archive := ArchivePath(outputDir, archiveName);
    var s := WriteArchiveStep(st, archive, files);
    if s.outcome.Fail? then Step(s.state, Fail(ZipFailure(ArchiveErrorPrefix + PathString(archive)))) else s
  }

  /**
    copyFileToZip: the content is moved through a 1024-byte buffer, one read at
    a time, and every chunk read is written out.
  */
  method CopyFileToZip(data: seq<byte>) returns (copied: seq<byte>)
    ensures copied == data
  {
    var buffer := new byte[1024];
    copied := [];
    var pos := 0;
    while pos < |data|
      invariant 0 <= pos <= |data|
      invariant copied == data[..pos]
    {
      var bytesRead := if |data| - pos < buffer.Length then |data| - pos else buffer.Length;
      var j := 0;
      while j < bytesRead
        invariant 0 <= j <= bytesRead
        invariant buffer[..j] == data[pos..pos + j]
      {
        buffer[j] := data[pos + j];
        j := j + 1;
      }
      copied := copied + buffer[..bytesRead];
      pos := pos + bytesRead;
    }
  }

  /** addFileToZip on the live file system; plain bytes go through the copy loop. */
  method AddFile(fs: FileSystem, file: Path, written: seq<Entry>) returns (a: Added)
    ensures a == AddFileToZip(fs.State(), file, written)
  {
    if file !in fs.files && file !in fs.dirs {
      return Skipped;
    }
    if file == [] {
      return Broken([], NullPointer);
    }
    var name := FileName(file);
    if name in EntryNames(written) {
      return Broken([], IO("duplicate entry: " + name));
    }
    if file in fs.dirs {
      return Broken([Entry(name, Bytes([]))], IO(PathString(file)));
    }
    var content := fs.files[file];
    if content.Bytes? {
      var copied := CopyFileToZip(content.data);
      content := Bytes(copied);
    }
    return Added(Entry(name, content));
  }

  /** The stream part of both archiveFiles: open, loop over the inputs, close. */
  method WriteArchive(fs: FileSystem, archive: Path, files: seq<Path>) returns (o: Outcome)
    requires fs.Valid()
    modifies fs
    ensures fs.Valid()
    ensures Step(fs.State(), o) == WriteArchiveStep(old(fs.State()), archive, files)
  {
    o := fs.WriteFile(archive, Bytes([]));
    if o.Fail? {
      return;
    }
    ghost var truncated := fs.State();
    var entries: seq<Entry> := [];
    var failure: Option<Error> := None;
    var i := 0;
    while i < |files|
      invariant 0 <= i <= |files|
      invariant fs.State() == truncated
      invariant WriteEntries(truncated, files[i..], entries) == WriteEntries(truncated, files, [])
    {
      var added := AddFile(fs, files[i], entries);
      assert files[i..][1..] == files[i + 1..];
      match added {
        case Skipped =>
        case Added(e) =>
          entries := entries + [e];
        case Broken(partial, error) =>
          entries := entries + partial;
          failure := Some(error);
          break;
      }
      i := i + 1;
    }
    var closed := fs.WriteFile(archive, Zip(entries));
    o := if failure.Some? then Fail(failure.value) else Pass;
  }

  /** archiveFiles of ZipManager on the live file system. */
  method ArchiveFiles(fs: FileSystem, files: seq<Path>, outputDir: Path, archiveName: string) returns (o: Outcome)
    requires fs.Valid() && '/' !in archiveName
    modifies fs
    ensures fs.Valid()
    ensures Step(fs.State(), o) == ArchiveFilesStep(old(fs.State()), files, outputDir, archiveName)
  {
    var archive := ArchivePath(outputDir, archiveName);
    o := WriteArchive(fs, archive, files);
    if o.Fail? {
      o := Fail(ZipFailure(ArchiveErrorPrefix + PathString(archive)));
    }
  }

  // ---------------------------------------------------------------------------
  // Extraction

  const ExtractErrorPrefix := "Falha ao extrair arquivo ZIP: "

  predicate SafeEntries(entries: seq<Entry>) {
    forall e | e in entries :: SafeEntryName(e.name)
  }

  /** The archive at zipPath, if it is one, names only places inside the destination. */
  predicate SafeArchiveAt(st: FsState, zipPath: Path) {
    zipPath in st.files && st.files[zipPath].Zip? ==> SafeEntries(st.files[zipPath].entries)
  }

  /**
    One entry: a directory entry creates outputDir/name with its ancestors; a
    file entry creates the parent of outputDir/name and then writes the entry's
    content there, replacing an existing file.
  */
  function ExtractEntryStep(st: FsState, outputDir: Path, e: Entry): (r: Step)
    requires SafeEntryName(e.name)
    ensures st.dirs <= r.state.dirs
    ensures r.outcome.Pass? && IsDirectoryEntry(e.name) ==> outputDir + EntryPath(e.name) in r.state.dirs
    ensures r.outcome.Pass? && !IsDirectoryEntry(e.name) ==>
              outputDir + EntryPath(e.name) in r.state.files && r.state.files[outputDir + EntryPath(e.name)] == e.content
  {
    var target := outputDir + EntryPath(e.name);
    if IsDirectoryEntry(e.name) then
      CreateDirectoriesStep(st, target)
    else
      var made := CreateDirectoriesStep(st, Parent(target));
      if made.outcome.Fail? then made else WriteFileStep(made.state, target, e.content)
  }

  /** The getNextEntry loop: entries in stored order, stopping at the first failure. */
  function ExtractEntriesStep(st: FsState, outputDir: Path, entries: seq<Entry>): (r: Step)
    requires SafeEntries(entries)
    ensures st.dirs <= r.state.dirs
    ensures r.outcome.Pass? ==>
              forall e | e in entries && IsDirectoryEntry(e.name) :: outputDir + EntryPath(e.name) in r.state.dirs
    decreases |entries|
  {
    if entries == [] then Step(st, Pass)
    else
      var s := ExtractEntryStep(st, outputDir, entries[0]);
      if s.outcome.Fail? then s else ExtractEntriesStep(s.state, outputDir, entries[1..])
  }

  /**
    extractZip. The destination is ensured first, outside the try block, so its
    errors are not wrapped. An archive that cannot be opened (missing, or a
    directory) and any failing entry become a ZipException naming the archive;
    entries extracted before the failure stay. Plain bytes hold no local entry
    header, so ZipInputStream finds no entries in them.
  */
  function ExtractZipStep(st: FsState, zipPath: Path, outputDir: Path): (r: Step)
    requires SafeArchiveAt(st, zipPath)
    ensures st.dirs <= r.state.dirs
    ensures r.outcome.Pass? ==> outputDir in r.state.dirs
    ensures EnsureDirectoryStep(st, outputDir).outcome.Fail? ==> r == EnsureDirectoryStep(st, outputDir)
    ensures EnsureDirectoryStep(st, outputDir).outcome.Pass? && r.outcome.Fail? ==>
              r.outcome.error == ZipFailure(ExtractErrorPrefix + PathString(zipPath))
    ensures r.outcome.Pass? && zipPath in st.files && st.files[zipPath].Zip? ==>
              forall e | e in st.files[zipPath].entries && IsDirectoryEntry(e.name) ::
                outputDir + EntryPath(e.name) in r.state.dirs
  {
    var ensured := EnsureDirectoryStep(st, outputDir);
    if ensured.outcome.Fail? then
      assert ensured.outcome.error.IllegalArgument? || ensured.outcome.error.IO?;
      ensured
    else if zipPath !in ensured.state.files then
      Step(ensured.state, Fail(ZipFailure(ExtractErrorPrefix + PathString(zipPath))))
    else match ensured.state.files[zipPath]
      case Bytes(_) => ensured
      case Zip(entries) =>
        var s := ExtractEntriesStep(ensured.state, outputDir, entries);
        if s.outcome.Fail? then Step(s.state, Fail(ZipFailure(ExtractErrorPrefix + PathString(zipPath)))) else s
  }

  method ExtractEntry(fs: FileSystem, outputDir: Path, e: Entry) returns (o: Outcome)
    requires fs.Valid() && SafeEntryName(e.name)
    modifies fs
    ensures fs.Valid()
    ensures Step(fs.State(), o) == ExtractEntryStep(old(fs.State()), outputDir, e)
  {
    var target := outputDir + EntryPath(e.name);
    if IsDirectoryEntry(e.name) {
      o := fs.CreateDirectories(target);
    } else {
      o := fs.CreateDirectories(Parent(target));
      if o.Pass? {
        o := fs.WriteFile(target, e.content);
      }
    }
  }

  /** extractZip on the live file system. */
  method ExtractZip(fs: FileSystem, zipPath: Path, outputDir: Path) returns (o: Outcome)
    requires fs.Valid() && SafeArchiveAt(fs.State(), zipPath)
    modifies fs
    ensures fs.Valid()
    ensures Step(fs.State(), o) == ExtractZipStep(old(fs.State()), zipPath, outputDir)
  {
    var ensured := CreateDirectoryIfNotExists(fs, outputDir);
    if ensured.Err? {
      return Fail(ensured.error);
    }
    if zipPath !in fs.files {
      return Fail(ZipFailure(ExtractErrorPrefix + PathString(zipPath)));
    }
    var archive := fs.files[zipPath];
    if archive.Bytes? {
      return Pass;
    }
    var entries := archive.entries;
    ghost var start := fs.State();
    var i := 0;
    while i < |entries|
      invariant 0 <= i <= |entries|
      invariant fs.Valid()
      invariant ExtractEntriesStep(fs.State(), outputDir, entries[i..]) == ExtractEntriesStep(start, outputDir, entries)
    {
      assert entries[i] in entries;
      o := ExtractEntry(fs, outputDir, entries[i]);
      assert entries[i..][1..] == entries[i + 1..];
      if o.Fail? {
        return Fail(ZipFailure(ExtractErrorPrefix + PathString(zipPath)));
      }
      i := i + 1;
    }
    return Pass;
  }

  // ---------------------------------------------------------------------------
  // Properties of archiving

  /** The inputs that exist, in input order, repeats kept. */
  function Present(st: FsState, files: seq<Path>): (r: seq<Path>)
    ensures forall i :: 0 <= i < |r| ==> r[i] in files && st.Exists(r[i])
    ensures forall f | f in files && st.Exists(f) :: f in r
  {
    if files == [] then []
    else (if st.Exists(files[0]) then [files[0]] else []) + Present(st, files[1..])
  }

  /** Every input that exists is a regular file. */
  predicate RegularInputs(st: FsState, files: seq<Path>) {
    forall f | f in files && st.Exists(f) :: f in st.files && f !in st.dirs && f != []
  }

  /** The entry each of the given files becomes: its last name and its content. */
  function EntriesOf(st: FsState, paths: seq<Path>): (r: seq<Entry>)
    requires forall i :: 0 <= i < |paths| ==> paths[i] in st.files && paths[i] != []
    ensures |r| == |paths|
    ensures forall i :: 0 <= i < |paths| ==> r[i] == Entry(FileName(paths[i]), st.files[paths[i]])
  {
    seq(|paths|, i requires 0 <= i < |paths| => Entry(FileName(paths[i]), st.files[paths[i]]))
  }

  lemma EntriesOfCons(st: FsState, f: Path, paths: seq<Path>)
    requires f in st.files && f != []
    requires forall i :: 0 <= i < |paths| ==> paths[i] in st.files && paths[i] != []
    ensures EntriesOf(st, [f] + paths) == [Entry(FileName(f), st.files[f])] + EntriesOf(st, paths)
  {
  }

  /** A name that is followed by distinct names was not among the earlier ones. */
  lemma FreshName(written: seq<Entry>, e: Entry, tail: seq<Entry>)
    requires NoDuplicates(EntryNames(written + [e] + tail))
    ensures e.name !in EntryNames(written)
  {
    var names := EntryNames(written + [e] + tail);
    assert names[|written|] == e.name;
    forall k | 0 <= k < |written| ensures EntryNames(written)[k] != e.name {
      assert names[k] == EntryNames(written)[k];
    }
  }

  /** The entries still to come after an existing first input: its own, then those of the rest. */
  lemma ExistingHead(st: FsState, files: seq<Path>, written: seq<Entry>)
    requires files != [] && RegularInputs(st, files) && st.Exists(files[0])
    requires NoDuplicates(EntryNames(written + EntriesOf(st, Present(st, files))))
    ensures var e := Entry(FileName(files[0]), st.files[files[0]]);
            written + EntriesOf(st, Present(st, files)) == (written + [e]) + EntriesOf(st, Present(st, files[1..]))
            && FileName(files[0]) !in EntryNames(written)
  {
    var f, rest := files[0], files[1..];
    assert f in files;
    var e := Entry(FileName(f), st.files[f]);
    var tail := EntriesOf(st, Present(st, rest));
    assert Present(st, files) == [f] + Present(st, rest);
    EntriesOfCons(st, f, Present(st, rest));
    assert written + EntriesOf(st, Present(st, files)) == written + [e] + tail;
    FreshName(written, e, tail);
  }

  /** An existing regular input whose name is not yet used is added, and the loop goes on with the rest. */
  lemma AddsExisting(st: FsState, files: seq<Path>, written: seq<Entry>)
    requires files != [] && RegularInputs(st, files) && st.Exists(files[0])
    requires FileName(files[0]) !in EntryNames(written)
    ensures WriteEntries(st, files, written)
              == WriteEntries(st, files[1..], written + [Entry(FileName(files[0]), st.files[files[0]])])
  {
    assert files[0] in files;
  }

  /**
    With regular inputs whose names do not clash, the loop adds exactly the
    inputs that exist, in order, each under its last name with its content.
  */
  lemma {:induction false} WriteEntriesKept(st: FsState, files: seq<Path>, written: seq<Entry>)
    requires RegularInputs(st, files)
    requires NoDuplicates(EntryNames(written + EntriesOf(st, Present(st, files))))
    ensures WriteEntries(st, files, written) == Build(written + EntriesOf(st, Present(st, files)), None)
  {
    if files == [] {
      assert written + [] == written;
    } else {
      var f, rest := files[0], files[1..];
      assert forall g | g in rest :: g in files;
      if !st.Exists(f) {
        assert Present(st, files) == Present(st, rest);
        WriteEntriesKept(st, rest, written);
      } else {
        var e := Entry(FileName(f), st.files[f]);
        ExistingHead(st, files, written);
        AddsExisting(st, files, written);
        WriteEntriesKept(st, rest, written + [e]);
      }
    }
  }

  /** Two states that agree on which inputs exist keep the same ones. */
  lemma {:induction false} PresentAgrees(st: FsState, other: FsState, files: seq<Path>)
    requires forall f | f in files :: st.Exists(f) == other.Exists(f)
    ensures Present(st, files) == Present(other, files)
  {
    if files != [] {
      assert forall g | g in files[1..] :: g in files;
      PresentAgrees(st, other, files[1..]);
    }
  }

  /** Truncating the archive, which is not an input, changes neither which inputs exist nor what they hold. */
  lemma TruncationKeepsInputs(st: FsState, archive: Path, files: seq<Path>)
    requires archive !in st.dirs && archive !in files && RegularInputs(st, files)
    ensures var truncated := st.(files := st.files[archive := Bytes([])]);
            Present(truncated, files) == Present(st, files)
            && RegularInputs(truncated, files)
            && EntriesOf(truncated, Present(st, files)) == EntriesOf(st, Present(st, files))
  {
    var truncated := st.(files := st.files[archive := Bytes([])]);
    PresentAgrees(st, truncated, files);
    var kept := Present(st, files);
    assert forall i :: 0 <= i < |kept| ==> kept[i] != archive;
  }

  /** After the truncation, the loop writes exactly the entries of the existing inputs. */
  lemma TruncatedEntries(st: FsState, archive: Path, files: seq<Path>)
    requires archive !in st.dirs && archive !in files && RegularInputs(st, files)
    requires NoDuplicates(EntryNames(EntriesOf(st, Present(st, files))))
    ensures WriteEntries(st.(files := st.files[archive := Bytes([])]), files, [])
              == Build(EntriesOf(st, Present(st, files)), None)
  {
    var truncated := st.(files := st.files[archive := Bytes([])]);
    TruncationKeepsInputs(st, archive, files);
    var entries := EntriesOf(st, Present(st, files));
    assert [] + EntriesOf(truncated, Present(truncated, files)) == entries;
    WriteEntriesKept(truncated, files, []);
  }

  /**
    The archive written over a well-formed file system holds exactly the
    existing inputs, in order, as entries named by their last names, and
    nothing else changes.
  */
  lemma WriteArchiveKept(st: FsState, archive: Path, files: seq<Path>)
    requires archive != [] && Parent(archive) in st.dirs && archive !in st.dirs && archive !in files
    requires RegularInputs(st, files)
    requires NoDuplicates(EntryNames(EntriesOf(st, Present(st, files))))
    ensures WriteArchiveStep(st, archive, files)
              == Step(st.(files := st.files[archive := Zip(EntriesOf(st, Present(st, files)))]), Pass)
  {
    var truncated := st.(files := st.files[archive := Bytes([])]);
    assert WriteFileStep(st, archive, Bytes([])) == Step(truncated, Pass);
    TruncatedEntries(st, archive, files);
    var entries := EntriesOf(st, Present(st, files));
    var closed := truncated.(files := truncated.files[archive := Zip(entries)]);
    assert closed == st.(files := st.files[archive := Zip(entries)]);
  }

  /** archiveFiles over regular inputs with distinct names: the archive holds exactly the existing ones. */
  lemma ArchiveFilesKept(st: FsState, files: seq<Path>, outputDir: Path, archiveName: string)
    requires WellFormed(st) && '/' !in archiveName && outputDir in st.dirs
    requires ArchivePath(outputDir, archiveName) !in st.dirs && ArchivePath(outputDir, archiveName) !in files
    requires RegularInputs(st, files)
    requires NoDuplicates(EntryNames(EntriesOf(st, Present(st, files))))
    ensures ArchiveFilesStep(st, files, outputDir, archiveName)
              == Step(st.(files := st.files[ArchivePath(outputDir, archiveName) := Zip(EntriesOf(st, Present(st, files)))]), Pass)
  {
    WriteArchiveKept(st, ArchivePath(outputDir, archiveName), files);
  }

  /** Inputs that do not exist are skipped: with none existing (or none given) the archive is empty and nothing fails. */
  lemma ArchiveOfMissingInputs(st: FsState, files: seq<Path>, outputDir: Path, archiveName: string)
    requires WellFormed(st) && '/' !in archiveName && outputDir in st.dirs
    requires ArchivePath(outputDir, archiveName) !in st.dirs && ArchivePath(outputDir, archiveName) !in files
    requires forall f | f in files :: !st.Exists(f)
    ensures ArchiveFilesStep(st, files, outputDir, archiveName)
              == Step(st.(files := st.files[ArchivePath(outputDir, archiveName) := Zip([])]), Pass)
  {
    NothingPresent(st, files);
    ArchiveFilesKept(st, files, outputDir, archiveName);
  }

  lemma {:induction false} NothingPresent(st: FsState, files: seq<Path>)
    requires forall f | f in files :: !st.Exists(f)
    ensures Present(st, files) == []
  {
    if files != [] {
      assert files[0] in files;
      assert forall g | g in files[1..] :: g in files;
      NothingPresent(st, files[1..]);
    }
  }

  // ---------------------------------------------------------------------------
  // Properties of extraction

  /** The files map after writing each entry, in order, directly under dir. */
  function Placed(m: map<Path, Content>, dir: Path, entries: seq<Entry>): map<Path, Content>
    requires forall e | e in entries :: ValidSegment(e.name)
    decreases |entries|
  {
    if entries == [] then m
    else Placed(m[dir + [entries[0].name] := entries[0].content], dir, entries[1..])
  }

  /** A path no entry is written to keeps what it held. */
  lemma {:induction false} PlacedFrame(m: map<Path, Content>, dir: Path, entries: seq<Entry>, p: Path)
    requires forall e | e in entries :: ValidSegment(e.name)
    requires forall e | e in entries :: p != dir + [e.name]
    ensures (p in Placed(m, dir, entries) <==> p in m)
    ensures p in m ==> Placed(m, dir, entries)[p] == m[p]
    decreases |entries|
  {
    if entries != [] {
      assert entries[0] in entries;
      PlacedFrame(m[dir + [entries[0].name] := entries[0].content], dir, entries[1..], p);
    }
  }

  /** With distinct names, every entry's path ends up holding that entry's content. */
  lemma {:induction false} PlacedHoldsEntries(m: map<Path, Content>, dir: Path, entries: seq<Entry>)
    requires forall e | e in entries :: ValidSegment(e.name)
    requires NoDuplicates(EntryNames(entries))
    ensures forall i :: 0 <= i < |entries| ==>
              dir + [entries[i].name] in Placed(m, dir, entries)
              && Placed(m, dir, entries)[dir + [entries[i].name]] == entries[i].content
    decreases |entries|
  {
    if entries != [] {
      var e, rest := entries[0], entries[1..];
      var m' := m[dir + [e.name] := e.content];
      assert NoDuplicates(EntryNames(rest)) by {
        forall i, j | 0 <= i < j < |rest| ensures EntryNames(rest)[i] != EntryNames(rest)[j] {
          assert EntryNames(entries)[i + 1] != EntryNames(entries)[j + 1];
        }
      }
      PlacedHoldsEntries(m', dir, rest);
      forall x | x in rest ensures dir + [e.name] != dir + [x.name] {
        var j :| 0 <= j < |rest| && rest[j] == x;
        assert EntryNames(entries)[0] != EntryNames(entries)[j + 1];
        assert (dir + [e.name])[|dir|] == e.name;
      }
      PlacedFrame(m', dir, rest, dir + [e.name]);
      forall i | 0 <= i < |entries|
        ensures dir + [entries[i].name] in Placed(m, dir, entries)
          && Placed(m, dir, entries)[dir + [entries[i].name]] == entries[i].content
      {
        if i > 0 {
          assert entries[i] == rest[i - 1];
        }
      }
    }
  }

  /**
    Entries whose names are plain file names, extracted into an existing
    directory where none of them is a directory, all succeed and are written
    in order.
  */
  lemma {:induction false} ExtractFlat(st: FsState, dir: Path, entries: seq<Entry>)
    requires WellFormed(st) && dir in st.dirs
    requires forall e | e in entries :: ValidSegment(e.name)
    requires forall e | e in entries :: dir + [e.name] !in st.dirs
    ensures SafeEntries(entries)
            && ExtractEntriesStep(st, dir, entries) == Step(st.(files := Placed(st.files, dir, entries)), Pass)
    decreases |entries|
  {
    forall e | e in entries ensures SafeEntryName(e.name) {
      SegmentEntryName(e.name);
    }
    if entries != [] {
      var e := entries[0];
      assert e in entries;
      SegmentEntryName(e.name);
      var target := dir + [e.name];
      assert Parent(target) == dir;
      CreateDirectoriesOnDirectory(st, dir);
      WriteFileKeepsShape(st, target, e.content);
      var next := st.(files := st.files[target := e.content]);
      assert ExtractEntryStep(st, dir, e) == Step(next, Pass);
      assert forall x | x in entries[1..] :: x in entries;
      ExtractFlat(next, dir, entries[1..]);
    }
  }

  /**
    An archive of plain file names that name no directory, extracted into an
    existing directory, writes every entry there and touches nothing else.
  */
  lemma ExtractFlatArchive(st: FsState, archive: Path, extractDir: Path, entries: seq<Entry>)
    requires WellFormed(st) && extractDir in st.dirs
    requires archive in st.files && st.files[archive] == Zip(entries)
    requires forall e | e in entries :: ValidSegment(e.name)
    requires forall e | e in entries :: extractDir + [e.name] !in st.dirs
    ensures SafeArchiveAt(st, archive)
    ensures ExtractZipStep(st, archive, extractDir) == Step(st.(files := Placed(st.files, extractDir, entries)), Pass)
  {
    ExtractFlat(st, extractDir, entries);
    assert EnsureDirectoryStep(st, extractDir) == Step(st, Pass);
  }

  /** The entries made from existing regular inputs are plain names that name no directory of the target. */
  lemma EntriesAreFlat(st: FsState, files: seq<Path>, extractDir: Path)
    requires WellFormed(st) && RegularInputs(st, files)
    requires forall f | f in files && st.Exists(f) :: extractDir + [FileName(f)] !in st.dirs
    ensures var entries := EntriesOf(st, Present(st, files));
            (forall e | e in entries :: ValidSegment(e.name))
            && (forall e | e in entries :: extractDir + [e.name] !in st.dirs)
  {
    var kept := Present(st, files);
    var entries := EntriesOf(st, kept);
    forall e | e in entries ensures ValidSegment(e.name) && extractDir + [e.name] !in st.dirs {
      var i :| 0 <= i < |entries| && entries[i] == e;
      assert kept[i] in kept;
    }
  }

  /**
    The round trip the archive is for: archiving regular files with distinct
    names and extracting the archive into an existing directory puts every
    input that existed back under its own name, with the same content.
  */
  lemma ArchiveThenExtract(st: FsState, files: seq<Path>, outputDir: Path, archiveName: string, extractDir: Path)
    requires WellFormed(st) && '/' !in archiveName && outputDir in st.dirs
    requires ArchivePath(outputDir, archiveName) !in st.dirs && ArchivePath(outputDir, archiveName) !in files
    requires RegularInputs(st, files)
    requires NoDuplicates(EntryNames(EntriesOf(st, Present(st, files))))
    requires extractDir in st.dirs
    requires forall f | f in files && st.Exists(f) :: extractDir + [FileName(f)] !in st.dirs
    ensures var archived := ArchiveFilesStep(st, files, outputDir, archiveName);
            archived.outcome == Pass
            && SafeArchiveAt(archived.state, ArchivePath(outputDir, archiveName))
            && var extracted := ExtractZipStep(archived.state, ArchivePath(outputDir, archiveName), extractDir);
               extracted.outcome == Pass
               && forall f | f in files && st.Exists(f) ::
                    extractDir + [FileName(f)] in extracted.state.files
                    && extracted.state.files[extractDir + [FileName(f)]] == st.files[f]
  {
    var archive := ArchivePath(outputDir, archiveName);
    var entries := EntriesOf(st, Present(st, files));
    ArchiveFilesKept(st, files, outputDir, archiveName);
    var archived := st.(files := st.files[archive := Zip(entries)]);
    ExtractArchived(st, files, archive, extractDir);
    PlacedHoldsInputs(st, files, archived.files, extractDir);
  }

  /** Extracting the freshly written archive places each of its entries directly under the target directory. */
  lemma ExtractArchived(st: FsState, files: seq<Path>, archive: Path, extractDir: Path)
    requires WellFormed(st) && archive != [] && Parent(archive) in st.dirs && archive !in st.dirs
    requires RegularInputs(st, files) && extractDir in st.dirs
    requires forall f | f in files && st.Exists(f) :: extractDir + [FileName(f)] !in st.dirs
    ensures var entries := EntriesOf(st, Present(st, files));
            var archived := st.(files := st.files[archive := Zip(entries)]);
            (forall e | e in entries :: ValidSegment(e.name))
            && SafeArchiveAt(archived, archive)
            && ExtractZipStep(archived, archive, extractDir) == Step(archived.(files := Placed(archived.files, extractDir, entries)), Pass)
  {
    var entries := EntriesOf(st, Present(st, files));
    WriteFileKeepsShape(st, archive, Zip(entries));
    EntriesAreFlat(st, files, extractDir);
    ExtractFlatArchive(st.(files := st.files[archive := Zip(entries)]), archive, extractDir, entries);
  }

  /** Placing the entries of the existing inputs puts each one's content under its own name. */
  lemma PlacedHoldsInputs(st: FsState, files: seq<Path>, m: map<Path, Content>, extractDir: Path)
    requires RegularInputs(st, files)
    requires NoDuplicates(EntryNames(EntriesOf(st, Present(st, files))))
    requires forall e | e in EntriesOf(st, Present(st, files)) :: ValidSegment(e.name)
    ensures var placed := Placed(m, extractDir, EntriesOf(st, Present(st, files)));
            forall f | f in files && st.Exists(f) ::
              extractDir + [FileName(f)] in placed && placed[extractDir + [FileName(f)]] == st.files[f]
  {
    var kept := Present(st, files);
    var entries := EntriesOf(st, kept);
    PlacedHoldsEntries(m, extractDir, entries);
    var placed := Placed(m, extractDir, entries);
    forall f | f in files && st.Exists(f)
      ensures extractDir + [FileName(f)] in placed && placed[extractDir + [FileName(f)]] == st.files[f]
    {
      var i :| 0 <= i < |kept| && kept[i] == f;
      assert entries[i] == Entry(FileName(f), st.files[f]);
    }
  }
}
