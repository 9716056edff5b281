/**
  The file system the archive and directory helpers work on, reduced to what
  they observe: a map from absolute paths to file contents and a set of
  directories. A file's content is either plain bytes or a zip archive, kept as
  its list of entries (the container format and compression are not modelled).

  FsState is the value the specifications talk about; FileSystem is the mutable
  object the imperative code changes, with the two java.nio.file.Files
  operations the core uses to change it.
*/
module FileSystems {
  import opened Text
  import opened Errors

  newtype byte = b: int | 0 <= b < 256

  /** One name of a path: non-empty, no separator, and not "." or "..". */
  predicate ValidSegment(s: string) {
    s != [] && '/' !in s && s != "." && s != ".."
  }

  type Segment = s: string | ValidSegment(s) witness "f"

  /** An absolute, normalised path; [] is the root. */
  type Path = seq<Segment>

  function Parent(p: Path): Path
    requires p != []
  {
    p[..|p| - 1]
  }

  /** Path.getFileName for a path other than the root. */
  function FileName(p: Path): Segment
    requires p != []
  {
    p[|p| - 1]
  }

  /** Path.toString. */
  function PathString(p: Path): string {
    "/" + Join(p, "/")
  }

  datatype Content = Bytes(data: seq<byte>) | Zip(entries: seq<Entry>)

  /** A zip entry: its stored name and the content it holds. */
  datatype Entry = Entry(name: string, content: Content)

  datatype FsState = FsState(files: map<Path, Content>, dirs: set<Path>)
  {
    /** Files.exists. */
    predicate Exists(p: Path) {
      p in files || p in dirs
    }
  }

  /**
    The shape every real file system has: the root is a directory, a path is a
    file or a directory but not both, and whatever exists sits in a directory.
  */
  ghost predicate WellFormed(st: FsState) {
    [] in st.dirs
    && (forall p :: p in st.files ==> p !in st.dirs && p != [] && Parent(p) in st.dirs)
    && (forall p :: p in st.dirs && p != [] ==> Parent(p) in st.dirs)
  }

  /** In a well-formed state every proper prefix of an existing path is a directory. */
  lemma {:induction false} AncestorsAreDirs(st: FsState, p: Path, k: nat)
    requires WellFormed(st) && st.Exists(p) && k < |p|
    ensures p[..k] in st.dirs
    decreases |p| - k
  {
    assert Parent(p) in st.dirs;
    if k < |p| - 1 {
      AncestorsAreDirs(st, Parent(p), k);
      assert Parent(p)[..k] == p[..k];
    } else {
      assert Parent(p) == p[..k];
    }
  }

  /** What an operation on the file system did: the new state and how it ended. */
  datatype Step = Step(state: FsState, outcome: Outcome)

  function Prefixes(p: Path): set<Path> {
    set k | 0 <= k <= |p| :: p[..k]
  }

  /** Some prefix of p, p included, is a regular file. */
  predicate BlockedByFile(st: FsState, p: Path) {
    exists k | 0 <= k <= |p| :: p[..k] in st.files
  }

  /**
    Files.createDirectories: fails when p or one of its ancestors is a regular
    file, and otherwise makes p and all its ancestors directories.
  */
  function CreateDirectoriesStep(st: FsState, p: Path): (r: Step)
    ensures r.state.files == st.files && st.dirs <= r.state.dirs
    ensures r.state.dirs <= st.dirs + Prefixes(p)
    ensures r.outcome.Pass? <==> !BlockedByFile(st, p)
    ensures r.outcome.Pass? ==> p in r.state.dirs
    ensures r.outcome.Fail? ==> r.state == st && r.outcome.error.IO?
  {
    PrefixesHoldPath(p);
    if BlockedByFile(st, p) then Step(st, Fail(IO(PathString(p))))
    else Step(st.(dirs := st.dirs + Prefixes(p)), Pass)
  }

  lemma PrefixesHoldPath(p: Path)
    ensures p in Prefixes(p)
  {
    assert p[..|p|] == p;
  }

  /**
    Writing a whole file (Files.copy with REPLACE_EXISTING, or opening with
    CREATE and TRUNCATE_EXISTING): needs an existing parent directory and p not
    a directory; the content replaces whatever p held.
  */
  function WriteFileStep(st: FsState, p: Path, c: Content): (r: Step)
    ensures r.state.dirs == st.dirs
    ensures r.outcome.Fail? ==> r.outcome.error.IO?
  {
    if p == [] || Parent(p) !in st.dirs || p in st.dirs then Step(st, Fail(IO(PathString(p))))
    else Step(st.(files := st.files[p := c]), Pass)
  }

  lemma CreateDirectoriesKeepsShape(st: FsState, p: Path)
    requires WellFormed(st)
    ensures var r := CreateDirectoriesStep(st, p);
            WellFormed(r.state) && r.state.files == st.files && st.dirs <= r.state.dirs
            && r.state.dirs <= st.dirs + Prefixes(p)
            && (r.outcome.Pass? <==> !BlockedByFile(st, p))
            && (r.outcome.Pass? ==> p in r.state.dirs)
  {
    var r := CreateDirectoriesStep(st, p);
    if r.outcome.Pass? {
      assert p[..|p|] == p;
      forall q | q in r.state.dirs && q != [] ensures Parent(q) in r.state.dirs {
        if q !in st.dirs {
          var k :| 0 <= k <= |p| && q == p[..k];
          assert Parent(q) == p[..k - 1];
        }
      }
    }
  }

  /** An existing directory is left alone. */
  lemma CreateDirectoriesOnDirectory(st: FsState, p: Path)
    requires WellFormed(st) && p in st.dirs
    ensures CreateDirectoriesStep(st, p) == Step(st, Pass)
  {
    forall k | 0 <= k <= |p| ensures p[..k] in st.dirs {
      if k < |p| {
        AncestorsAreDirs(st, p, k);
      } else {
        assert p[..k] == p;
      }
    }
    assert st.dirs + Prefixes(p) == st.dirs;
  }

  lemma WriteFileKeepsShape(st: FsState, p: Path, c: Content)
    requires WellFormed(st)
    ensures var r := WriteFileStep(st, p, c);
            WellFormed(r.state) && r.state.dirs == st.dirs
            && (r.outcome.Pass? <==> p != [] && Parent(p) in st.dirs && p !in st.dirs)
            && (r.outcome.Pass? ==> r.state.files == st.files[p := c])
            && (r.outcome.Fail? ==> r.state == st)
  {
  }

  /** The live file system: the object the archive and directory code changes. */
  class FileSystem {
    var files: map<Path, Content>
    var dirs: set<Path>

    function State(): FsState
      reads this
    {
      FsState(files, dirs)
    }

    ghost predicate Valid()
      reads this
    {
      WellFormed(State())
    }

    /**
      Walks down p while its prefixes are directories; a regular file there is an
      error, otherwise the missing rest of the chain is created one level at a time.
    */
    method CreateDirectories(p: Path) returns (o: Outcome)
      requires Valid()
      modifies this
      ensures Valid()
      ensures Step(State(), o) == CreateDirectoriesStep(old(State()), p)
    {
      ghost var st := State();
      var i := 0;
      while i <= |p| && p[..i] in dirs
        invariant 0 <= i <= |p| + 1
        invariant forall j :: 0 <= j < i ==> p[..j] in dirs
      {
        i := i + 1;
      }
      if i <= |p| && p[..i] in files {
        assert BlockedByFile(st, p);
        return Fail(IO(PathString(p)));
      }
      forall k | 0 <= k <= |p| ensures p[..k] !in files {
        if k < i {
          assert p[..k] in dirs;
        } else if k > i {
          assert p[..k][..i] == p[..i];
          if p[..k] in files {
            AncestorsAreDirs(st, p[..k], i);
          }
        }
      }
      assert !BlockedByFile(st, p);
      ghost var i0 := i;
      while i <= |p|
        invariant i0 <= i <= |p| + 1
        invariant files == st.files
        invariant dirs == st.dirs + set j | i0 <= j < i :: p[..j]
      {
        dirs := dirs + {p[..i]};
        i := i + 1;
      }
      assert dirs == st.dirs + Prefixes(p) by {
        forall q | q in Prefixes(p) ensures q in dirs {
          var k :| 0 <= k <= |p| && q == p[..k];
          if k < i0 {
            assert p[..k] in st.dirs;
          }
        }
      }
      CreateDirectoriesKeepsShape(st, p);
      return Pass;
    }

    /** Replaces the content at p, creating the file if needed. */
    method WriteFile(p: Path, c: Content) returns (o: Outcome)
      requires Valid()
      modifies this
      ensures Valid()
      ensures Step(State(), o) == WriteFileStep(old(State()), p, c)
    {
      if p == [] || Parent(p) !in dirs || p in dirs {
        return Fail(IO(PathString(p)));
      }
      WriteFileKeepsShape(State(), p, c);
      files := files[p := c];
      return Pass;
    }
  }

  /** A zip entry whose name ends in '/' stands for a directory. */
  predicate IsDirectoryEntry(name: string) {
    EndsWith(name, "/")
  }

  /** The entry name without the trailing '/' of a directory entry. */
  function Trimmed(name: string): string {
    if IsDirectoryEntry(name) then name[..|name| - 1] else name
  }

  /** The entry resolves to a place inside the destination: a relative path without "." or "..". */
  predicate SafeEntryName(name: string) {
    forall s | s in Split(Trimmed(name), '/') :: ValidSegment(s)
  }

  /** The relative path an entry name stands for. */
  function EntryPath(name: string): (r: Path)
    requires SafeEntryName(name)
    ensures |r| >= 1
  {
    var fields := Split(Trimmed(name), '/');
    seq(|fields|, i requires 0 <= i < |fields| => fields[i])
  }

  /** A single file name is a safe entry name that stands for itself. */
  lemma SegmentEntryName(s: Segment)
    ensures SafeEntryName(s) && !IsDirectoryEntry(s) && EntryPath(s) == [s]
  {
    assert s[|s| - 1] in s;
    assert s[|s| - 1..] == [s[|s| - 1]];
    assert Trimmed(s) == s;
    SplitWithoutSeparator(s, '/');
  }
}
