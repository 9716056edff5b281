/**
  DirectoryHelper: making sure a directory exists before something is written
  into it, and normalising archive names to the .zip extension.
*/
module DirectoryHelper {
  import opened Text
  import opened Errors
  import opened FileSystems

  const ZipExtension := ".zip"

  /** getZipFileName: the name itself when it already ends in .zip (any case), else name + ".zip". */
  function GetZipFileName(name: string): (r: string)
    ensures EndsWith(Lower(r), ZipExtension)
    ensures StartsWith(r, name)
    ensures r == name <==> EndsWith(Lower(name), ZipExtension)
    ensures !EndsWith(Lower(name), ZipExtension) ==> r == name + ZipExtension
  {
    if EndsWith(Lower(name), ZipExtension) then name
    else
      LowerAppend(name, ZipExtension);
      assert Lower(ZipExtension) == ZipExtension;
      assert (name + ZipExtension)[..|name|] == name;
      name + ZipExtension
  }

  /** Normalising twice changes nothing more. */
  lemma GetZipFileNameIdempotent(name: string)
    ensures GetZipFileName(GetZipFileName(name)) == GetZipFileName(name)
  {
  }

  /** The suffix test ignores case, and a plain name gets the suffix exactly once. */
  lemma GetZipFileNameExamples()
    ensures GetZipFileName("X.ZIP") == "X.ZIP"
    ensures GetZipFileName("arquivos_teste") == "arquivos_teste.zip"
  {
    assert Lower("X.ZIP") == "x.zip";
    assert EndsWith("x.zip", ZipExtension);
    var plain := "arquivos_teste";
    assert plain[|plain| - 4] == 'e';
    LacksZipSuffix(plain);
  }

  /** A name whose fourth character from the end is not a dot gets the suffix. */
  lemma LacksZipSuffix(name: string)
    requires |name| >= 4 && name[|name| - 4] != '.'
    ensures GetZipFileName(name) == name + ZipExtension
  {
    assert Lower(name)[|name| - 4..][0] == LowerChar(name[|name| - 4]);
  }

  function NotADirectoryMessage(dir: Path): string {
    "O caminho " + PathString(dir) + " existe, mas n\U{00E3}o \U{00E9} um diret\U{00F3}rio."
  }

  const EmptyPathMessage := "O caminho do diret\U{00F3}rio n\U{00E3}o pode ser nulo ou vazio."

  /**
    createDirectoryIfNotExists(Path): a regular file in the way is an
    IllegalArgumentException, an existing directory is kept, and anything else
    is created with its ancestors.
  */
  function EnsureDirectoryStep(st: FsState, dir: Path): (r: Step)
    ensures r.state.files == st.files && st.dirs <= r.state.dirs
    ensures r.state.dirs <= st.dirs + Prefixes(dir)
    ensures r.outcome.Pass? ==> dir in r.state.dirs
    ensures r.outcome.Fail? ==> r.state == st
    ensures r.outcome.Fail? && dir in st.files ==> r.outcome.error.IllegalArgument?
  {
    if dir in st.files then Step(st, Fail(IllegalArgument(NotADirectoryMessage(dir))))
    else if dir in st.dirs then Step(st, Pass)
    else CreateDirectoriesStep(st, dir)
  }

  /** What createDirectoryIfNotExists promises, case by case. */
  lemma EnsureDirectoryCases(st: FsState, dir: Path)
    requires WellFormed(st)
    ensures var r := EnsureDirectoryStep(st, dir);
            WellFormed(r.state) && r.state.files == st.files && st.dirs <= r.state.dirs
            && r.state.dirs <= st.dirs + Prefixes(dir)
            && (dir in st.files ==> r == Step(st, Fail(IllegalArgument(NotADirectoryMessage(dir)))))
            && (dir in st.dirs ==> r == Step(st, Pass))
            && (r.outcome.Pass? <==> !BlockedByFile(st, dir))
            && (r.outcome.Pass? ==> dir in r.state.dirs)
            && (r.outcome.Fail? ==> r.state == st)
  {
    assert dir[..|dir|] == dir;
    if dir in st.dirs {
      forall k | 0 <= k <= |dir| ensures dir[..k] !in st.files {
        if k < |dir| {
          AncestorsAreDirs(st, dir, k);
        }
      }
    } else if dir !in st.files {
      CreateDirectoriesKeepsShape(st, dir);
    }
  }

  /** createDirectoryIfNotExists(Path): the directory is there afterwards, and the same path comes back. */
  method CreateDirectoryIfNotExists(fs: FileSystem, dir: Path) returns (r: Result<Path>)
    requires fs.Valid()
    modifies fs
    ensures fs.Valid()
    ensures Step(fs.State(), r.ToOutcome()) == EnsureDirectoryStep(old(fs.State()), dir)
    ensures r.Ok? ==> r.value == dir
  {
    var present := dir in fs.files || dir in fs.dirs;
    if present && dir !in fs.dirs {
      return Err(IllegalArgument(NotADirectoryMessage(dir)));
    } else if !present {
      var o := fs.CreateDirectories(dir);
      if o.Fail? {
        return Err(o.error);
      }
    }
    return Ok(dir);
  }

  /** Paths.get cannot turn these into a path the model knows: "." and ".." names. */
  predicate PlainPathText(text: string) {
    forall f | f in Split(text, '/') :: f == "" || ValidSegment(f)
  }

  /** The names of a path string, with the empty ones that repeated slashes leave dropped. */
  function Names(fields: seq<string>): (r: Path)
    requires forall f | f in fields :: f == "" || ValidSegment(f)
    ensures |r| <= |fields|
    ensures forall s | s in r :: s in fields
  {
    if fields == [] then []
    else if fields[0] == "" then Names(fields[1..])
    else [fields[0]] + Names(fields[1..])
  }

  lemma {:induction false} NamesOfSegments(p: Path)
    ensures Names(p) == p
  {
    if p != [] {
      NamesOfSegments(p[1..]);
    }
  }

  /** Paths.get(text), resolved against the working directory when it is relative. */
  function ParsePath(cwd: Path, text: string): (r: Path)
    requires PlainPathText(text)
    ensures (text == [] || text[0] != '/') ==> |cwd| <= |r| && r[..|cwd|] == cwd
    ensures forall k | (text == [] || text[0] != '/') && |cwd| <= k < |r| :: r[k] in Split(text, '/')
    ensures text != [] && text[0] == '/' ==> forall s | s in r :: s in Split(text, '/')
  {
    var names := Names(Split(text, '/'));
    if text != [] && text[0] == '/' then names else cwd + names
  }

  /** Path.toString and Paths.get are inverse: the text of a path parses back to that path. */
  lemma PathStringParses(cwd: Path, p: Path)
    ensures PlainPathText(PathString(p)) && ParsePath(cwd, PathString(p)) == p
  {
    var text := PathString(p);
    var fields := if p == [] then ["", ""] else [""] + p;
    assert forall part | part in fields :: '/' !in part;
    assert text == Join(fields, "/") by {
      if p == [] {
        assert Join(fields, "/") == "" + "/" + Join(fields[1..], "/");
        assert fields[1..] == [""];
      } else {
        assert Join(fields, "/") == "" + "/" + Join(fields[1..], "/");
        assert fields[1..] == p;
      }
    }
    SplitJoin(fields, '/', "");
    assert Split(text, '/') == fields;
    NamesOfSegments(p);
    assert Names(fields) == Names(fields[1..]);
    if p == [] {
      assert Names(fields[1..]) == Names(fields[2..]) && fields[2..] == [];
    } else {
      assert fields[1..] == p;
    }
  }

  lemma ParsePathExamples(cwd: Path)
    ensures PlainPathText("/tmp") && ParsePath(cwd, "/tmp") == ["tmp"]
    ensures PlainPathText("out") && ParsePath(cwd, "out") == cwd + ["out"]
  {
    SplitWithoutSeparator("out", '/');
    SplitFromWithoutSeparator("tmp", '/', "");
    assert "/tmp"[1..] == "tmp" && "" + "tmp" == "tmp";
    assert Split("/tmp", '/') == [""] + SplitFrom("tmp", '/', "");
    assert Split("/tmp", '/') == ["", "tmp"];
  }

  /**
    createDirectoryIfNotExists(String): an empty string is rejected before the
    file system is touched; anything else is parsed and handed to the Path version.
  */
  method CreateDirectoryFromString(fs: FileSystem, cwd: Path, text: string) returns (r: Result<Path>)
    requires fs.Valid() && PlainPathText(text)
    modifies fs
    ensures fs.Valid()
    ensures text == [] ==> r == Err(IllegalArgument(EmptyPathMessage)) && fs.State() == old(fs.State())
    ensures text != [] ==> Step(fs.State(), r.ToOutcome()) == EnsureDirectoryStep(old(fs.State()), ParsePath(cwd, text))
    ensures r.Ok? ==> r.value == ParsePath(cwd, text)
  {
    if text == [] {
      return Err(IllegalArgument(EmptyPathMessage));
    }
    var dir := ParsePath(cwd, text);
    r := CreateDirectoryIfNotExists(fs, dir);
  }
}
