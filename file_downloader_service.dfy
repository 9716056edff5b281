/**
  FileDownloaderService: finds the year folders listed on the base page, keeps
  the most recent ones, and in each folder downloads every .zip link and
  extracts it into a local directory named after the year.

  The web is a parameter: the hrefs each page lists (a missing page is the
  IOException Jsoup throws) and what fetching each file URL gives. The
  per-link work, run by a parallel stream in the service, is taken here in
  page order.
*/
module FileDownloader {
  import opened Text
  import opened Errors
  import opened FileSystems
  import opened DirectoryHelper
  import opened ZipManager

  // ---------------------------------------------------------------------------
  // Year folders

  predicate IsDigit(c: char) {
    '0' <= c <= '9'
  }

  predicate AllDigits(s: string) {
    forall i :: 0 <= i < |s| ==> IsDigit(s[i])
  }

  /** href.matches("\\d+/"): the whole href is one or more ASCII digits and then one '/'. */
  predicate IsYearFolderHref(h: string) {
    |h| >= 2 && h[|h| - 1] == '/' && AllDigits(h[..|h| - 1])
  }

  /** The year-folder test accepts exactly a run of one or more digits followed by one '/'. */
  lemma YearFolderHrefShape(h: string)
    ensures IsYearFolderHref(h) <==> exists d: string :: d != [] && AllDigits(d) && h == d + "/"
  {
    if IsYearFolderHref(h) {
      var d := h[..|h| - 1];
      assert h == d + "/";
    }
    if exists d: string :: d != [] && AllDigits(d) && h == d + "/" {
      var d: string :| d != [] && AllDigits(d) && h == d + "/";
      assert h[..|h| - 1] == d;
    }
  }

  lemma {:induction false} RemoveTrailingChar(s: string, c: char)
    requires c !in s
    ensures RemoveChar(s + [c], c) == s
  {
    if s == [] {
      assert RemoveChar([c][1..], c) == [];
    } else {
      assert (s + [c])[1..] == s[1..] + [c];
      RemoveTrailingChar(s[1..], c);
    }
  }

  /** href.replace("/", ""): for a year folder, the digits before the slash. */
  function YearLabel(h: string): (r: string)
    requires IsYearFolderHref(h)
    ensures r == h[..|h| - 1] && h == r + "/"
    ensures AllDigits(r) && ValidSegment(r)
  {
    var digits := h[..|h| - 1];
    assert '/' !in digits by {
      forall i | 0 <= i < |digits| ensures digits[i] != '/' {
        assert IsDigit(digits[i]);
      }
    }
    assert digits[0] != '.' by {
      assert IsDigit(digits[0]);
    }
    assert h == digits + "/";
    RemoveTrailingChar(digits, '/');
    RemoveChar(h, '/')
  }

  /** The other direction: a digit string with a slash after it is a year folder with that label. */
  lemma DigitsAreYearFolder(d: string)
    requires d != [] && AllDigits(d)
    ensures IsYearFolderHref(d + "/") && YearLabel(d + "/") == d
  {
    assert (d + "/")[..|d|] == d;
  }

  lemma YearFolderHrefExamples()
    ensures IsYearFolderHref("2023/") && YearLabel("2023/") == "2023"
    ensures !IsYearFolderHref("2023") && !IsYearFolderHref("/") && !IsYearFolderHref("2023/x/")
    ensures !IsYearFolderHref("../") && !IsYearFolderHref("arquivo.zip")
  {
    DigitsAreYearFolder("2023");
    NotYearFolder("2023/x/", 4);
    NotYearFolder("../", 0);
    assert "arquivo.zip"[|"arquivo.zip"| - 1] != '/';
  }

  /** An href with a non-digit before its last character is not a year folder. */
  lemma NotYearFolder(h: string, i: nat)
    requires i < |h| - 1 && !IsDigit(h[i])
    ensures !IsYearFolderHref(h)
  {
    assert h[..|h| - 1][i] == h[i];
  }

  /** retrieveYearFolders: one label per matching href, in page order, repeats kept. */
  function YearFolders(hrefs: seq<string>): (r: seq<Segment>)
    ensures |r| <= |hrefs|
    ensures forall i :: 0 <= i < |r| ==> AllDigits(r[i])
  {
    if hrefs == [] then []
    else
      var rest := YearFolders(hrefs[1..]);
      if IsYearFolderHref(hrefs[0]) then [YearLabel(hrefs[0])] + rest else rest
  }

  /** A label is collected exactly when some href of the page is a year folder with that label. */
  lemma {:induction false} YearFoldersMembers(hrefs: seq<string>)
    ensures forall h | h in hrefs && IsYearFolderHref(h) :: YearLabel(h) in YearFolders(hrefs)
    ensures forall x | x in YearFolders(hrefs) :: exists h | h in hrefs :: IsYearFolderHref(h) && x == YearLabel(h)
  {
    if hrefs != [] {
      YearFoldersMembers(hrefs[1..]);
      assert forall h | h in hrefs[1..] :: h in hrefs;
      assert hrefs == [hrefs[0]] + hrefs[1..];
    }
  }

  /** Collecting is done page piece by page piece: the labels of a + b are those of a, then those of b. */
  lemma {:induction false} YearFoldersAppend(a: seq<string>, b: seq<string>)
    ensures YearFolders(a + b) == YearFolders(a) + YearFolders(b)
  {
    if a != [] {
      assert (a + b)[1..] == a[1..] + b;
      YearFoldersAppend(a[1..], b);
    } else {
      assert a + b == b;
    }
  }

  /** retrieveYearFolders' loop over the anchors of the base page. */
  method CollectYearFolders(hrefs: seq<string>) returns (folders: seq<Segment>)
    ensures folders == YearFolders(hrefs)
  {
    folders := [];
    var i := 0;
    while i < |hrefs|
      invariant 0 <= i <= |hrefs|
      invariant folders == YearFolders(hrefs[..i])
    {
      var href := hrefs[i];
      assert hrefs[..i + 1] == hrefs[..i] + [href];
      YearFoldersAppend(hrefs[..i], [href]);
      if IsYearFolderHref(href) {
        folders := folders + [YearLabel(href)];
      }
      i := i + 1;
    }
    assert hrefs[..i] == hrefs;
  }

  // ---------------------------------------------------------------------------
  // String order and the descending sort

  /** a.compareTo(b) <= 0 for Java strings: the first differing character decides, else the shorter is smaller. */
  predicate LexLe(a: string, b: string)
    decreases |a|
  {
    if a == [] then true
    else if b == [] then false
    else if a[0] != b[0] then a[0] < b[0]
    else LexLe(a[1..], b[1..])
  }

  lemma {:induction false} LexLeTotal(a: string, b: string)
    ensures LexLe(a, b) || LexLe(b, a)
    decreases |a|
  {
    if a != [] && b != [] && a[0] == b[0] {
      LexLeTotal(a[1..], b[1..]);
    }
  }

  lemma {:induction false} LexLeAntisymmetric(a: string, b: string)
    requires LexLe(a, b) && LexLe(b, a)
    ensures a == b
    decreases |a|
  {
    if a != [] {
      LexLeAntisymmetric(a[1..], b[1..]);
      assert a == [a[0]] + a[1..];
      assert b == [b[0]] + b[1..];
    }
  }

  lemma {:induction false} LexLeTransitive(a: string, b: string, c: string)
    requires LexLe(a, b) && LexLe(b, c)
    ensures LexLe(a, c)
    decreases |a|
  {
    if a != [] && a[0] == b[0] && b[0] == c[0] {
      LexLeTransitive(a[1..], b[1..], c[1..]);
    }
  }

  /** Sorted by Comparator.reverseOrder(): no later element is greater than an earlier one. */
  predicate Descending(s: seq<string>) {
    forall i, j :: 0 <= i < j < |s| ==> LexLe(s[j], s[i])
  }

  function Insert(x: Segment, t: seq<Segment>): (r: seq<Segment>)
    ensures multiset(r) == multiset(t) + multiset{x}
  {
    if t == [] || LexLe(t[0], x) then [x] + t
    else
      assert t == [t[0]] + t[1..];
      [t[0]] + Insert(x, t[1..])
  }

  lemma {:induction false} InsertDescending(x: Segment, t: seq<Segment>)
    requires Descending(t)
    ensures Descending(Insert(x, t))
  {
    if t == [] || LexLe(t[0], x) {
      forall j | 0 <= j < |t| ensures LexLe(t[j], x) {
        if j > 0 {
          LexLeTransitive(t[j], t[0], x);
        }
      }
    } else {
      LexLeTotal(t[0], x);
      InsertDescending(x, t[1..]);
      var rest := Insert(x, t[1..]);
      forall k | 0 <= k < |rest| ensures LexLe(rest[k], t[0]) {
        assert rest[k] in multiset(rest);
        if rest[k] != x {
          assert rest[k] in t[1..];
        }
      }
    }
  }

  /** List.sort(Comparator.reverseOrder()): the labels, greatest first. */
  function SortDescending(s: seq<Segment>): (r: seq<Segment>)
    ensures multiset(r) == multiset(s) && |r| == |s|
  {
    if s == [] then []
    else
      assert s == [s[0]] + s[1..];
      Insert(s[0], SortDescending(s[1..]))
  }

  lemma {:induction false} SortDescendingSorts(s: seq<Segment>)
    ensures Descending(SortDescending(s))
  {
    if s != [] {
      SortDescendingSorts(s[1..]);
      InsertDescending(s[0], SortDescending(s[1..]));
    }
  }

  /**
    There is only one descending arrangement of a multiset of strings, so any
    correct sort (the library's merge sort included) gives SortDescending.
  */
  lemma {:induction false} DescendingUnique(a: seq<string>, b: seq<string>)
    requires Descending(a) && Descending(b) && multiset(a) == multiset(b)
    ensures a == b
  {
    if a != [] {
      assert |b| == |a| by {
        assert |multiset(a)| == |a| && |multiset(b)| == |b|;
      }
      DescendingHeadsAgree(a, b);
      SameHeadSameTail(a, b);
      DescendingUnique(a[1..], b[1..]);
    }
  }

  /** Two descending arrangements of one multiset start with the same, greatest, label. */
  lemma DescendingHeadsAgree(a: seq<string>, b: seq<string>)
    requires Descending(a) && Descending(b) && multiset(a) == multiset(b)
    requires a != [] && b != []
    ensures a[0] == b[0]
  {
    assert a[0] in multiset(b) && b[0] in multiset(a);
    var i :| 0 <= i < |b| && b[i] == a[0];
    var j :| 0 <= j < |a| && a[j] == b[0];
    assert LexLe(a[0], b[0]) by {
      if i > 0 {
        assert LexLe(b[i], b[0]);
      } else {
        LexLeTotal(a[0], b[0]);
      }
    }
    assert LexLe(b[0], a[0]) by {
      if j > 0 {
        assert LexLe(a[j], a[0]);
      } else {
        LexLeTotal(a[0], b[0]);
      }
    }
    LexLeAntisymmetric(a[0], b[0]);
  }

  /** Taking the same first element off two sequences of one multiset leaves tails of one multiset. */
  lemma SameHeadSameTail(a: seq<string>, b: seq<string>)
    requires a != [] && b != [] && a[0] == b[0] && multiset(a) == multiset(b)
    ensures multiset(a[1..]) == multiset(b[1..])
  {
    assert a == [a[0]] + a[1..] && b == [b[0]] + b[1..];
    assert multiset(a) == multiset([a[0]]) + multiset(a[1..]);
    assert multiset(b) == multiset([b[0]]) + multiset(b[1..]);
    var ma, mb := multiset(a[1..]), multiset(b[1..]);
    forall x ensures ma[x] == mb[x] {
      assert multiset(a)[x] == multiset([a[0]])[x] + ma[x];
      assert multiset(b)[x] == multiset([b[0]])[x] + mb[x];
    }
  }

  // ---------------------------------------------------------------------------
  // Choosing the latest years

  function Min(a: int, b: int): int {
    if a <= b then a else b
  }

  function DigitChar(d: nat): char
    requires d < 10
  {
    "0123456789"[d]
  }

  function NatText(n: nat): string
    decreases n
  {
    if n < 10 then [DigitChar(n)] else NatText(n / 10) + [DigitChar(n % 10)]
  }

  /** Integer.toString. */
  function IntText(n: int): string {
    if n < 0 then "-" + NatText(-n) else NatText(n)
  }

  /** ArrayList.subList(0, n) with n negative. */
  function SubListMessage(n: int): string {
    "fromIndex(0) > toIndex(" + IntText(n) + ")"
  }

  /**
    The folders downloadLatestYears visits: the labels sorted greatest first,
    cut to Math.min(n, count). A negative n makes subList throw.
  */
  function LatestFolders(labels: seq<Segment>, n: int): (r: Result<seq<Segment>>)
    ensures r.Ok? <==> n >= 0
    ensures r.Err? ==> r.error == IllegalArgument(SubListMessage(n))
    ensures r.Ok? ==> |r.value| == Min(n, |labels|) && multiset(r.value) <= multiset(labels)
    ensures r.Ok? ==> Descending(r.value)
  {
    if n < 0 then Err(IllegalArgument(SubListMessage(n)))
    else
      var sorted := SortDescending(labels);
      var chosen := sorted[..Min(n, |sorted|)];
      SortDescendingSorts(labels);
      assert sorted == chosen + sorted[|chosen|..];
      assert multiset(sorted) == multiset(chosen) + multiset(sorted[|chosen|..]);
      Ok(chosen)
  }

  /** The chosen folders are the greatest labels: nothing left out is greater than anything chosen. */
  lemma LatestAreGreatest(labels: seq<Segment>, n: int)
    requires n >= 0
    ensures var chosen := LatestFolders(labels, n).value;
            forall x, y | x in chosen && y in multiset(labels) - multiset(chosen) :: LexLe(y, x)
  {
    var sorted := SortDescending(labels);
    SortDescendingSorts(labels);
    var k := Min(n, |sorted|);
    var chosen := sorted[..k];
    var rest := sorted[k..];
    assert sorted == chosen + rest;
    assert multiset(sorted) == multiset(chosen) + multiset(rest);
    forall x, y | x in chosen && y in multiset(labels) - multiset(chosen) ensures LexLe(y, x) {
      assert multiset(labels)[y] > multiset(chosen)[y];
      assert y in multiset(rest);
      var i :| 0 <= i < |chosen| && chosen[i] == x;
      var j :| 0 <= j < |rest| && rest[j] == y;
      assert sorted[i] == x && sorted[k + j] == y;
    }
  }

  lemma LexLeYears()
    ensures LexLe("2021", "2022") && LexLe("2022", "2023") && LexLe("2021", "2023")
    ensures !LexLe("2023", "2022") && !LexLe("2022", "2021") && !LexLe("2023", "2021")
  {
    assert "2021"[1..] == "021" && "021"[1..] == "21" && "21"[1..] == "1";
    assert "2022"[1..] == "022" && "022"[1..] == "22" && "22"[1..] == "2";
    assert "2023"[1..] == "023" && "023"[1..] == "23" && "23"[1..] == "3";
  }

  lemma SortTwoYears(y22: Segment, y23: Segment)
    requires y22 == "2022" && y23 == "2023"
    ensures SortDescending([y22, y23]) == [y23, y22]
  {
    LexLeYears();
    assert [y22, y23][1..] == [y23];
    assert SortDescending([y23]) == [y23];
    assert Insert(y22, [y23]) == [y23] + Insert(y22, []);
  }

  lemma InsertOldestYear(y21: Segment, y22: Segment, y23: Segment)
    requires y21 == "2021" && y22 == "2022" && y23 == "2023"
    ensures Insert(y21, [y23, y22]) == [y23, y22, y21]
  {
    LexLeYears();
    assert [y23, y22][1..] == [y22] && [y22][1..] == [];
    assert Insert(y21, [y22]) == [y22] + Insert(y21, []);
    assert Insert(y21, [y23, y22]) == [y23] + Insert(y21, [y22]);
  }

  lemma SortYearsExample(y21: Segment, y22: Segment, y23: Segment)
    requires y21 == "2021" && y22 == "2022" && y23 == "2023"
    ensures SortDescending([y21, y22, y23]) == [y23, y22, y21]
  {
    SortTwoYears(y22, y23);
    InsertOldestYear(y21, y22, y23);
    assert [y21, y22, y23][1..] == [y22, y23];
  }

  /**
    The labels 2021, 2022 and 2023: two years give [2023, 2022]; five give all
    three, newest first; a negative count is refused.
  */
  lemma LatestFoldersExamples(y21: Segment, y22: Segment, y23: Segment)
    requires y21 == "2021" && y22 == "2022" && y23 == "2023"
    ensures LatestFolders([y21, y22, y23], 2) == Ok([y23, y22])
    ensures LatestFolders([y21, y22, y23], 5) == Ok([y23, y22, y21])
    ensures LatestFolders([y21, y22, y23], -1).Err?
  {
    SortYearsExample(y21, y22, y23);
    assert [y23, y22, y21][..2] == [y23, y22];
    assert [y23, y22, y21][..3] == [y23, y22, y21];
  }

  // ---------------------------------------------------------------------------
  // The web and one link

  /** What opening a file URL gives. */
  datatype Download =
    | Served(content: Content)  // the bytes arrive and are copied to disk
    | Unreachable               // openStream fails: FileDownloadException
    | MalformedUrl              // URI.toURL fails: MalformedURLException, an IOException
    | InvalidUri                // URI.create rejects the string: IllegalArgumentException

  datatype Web = Web(pages: map<string, seq<string>>, downloads: map<string, Download>)
  {
    /** A URL nobody answers is unreachable. */
    function Fetch(url: string): Download {
      if url in downloads then downloads[url] else Unreachable
    }
  }

  /** Every .zip href is a plain relative or absolute path the downloader can resolve. */
  predicate PlainZipHrefs(hrefs: seq<string>) {
    forall i :: 0 <= i < |hrefs| && EndsWith(hrefs[i], ZipExtension) ==> PlainPathText(hrefs[i])
  }

  /** Every served archive names only places inside the directory it is extracted into. */
  predicate SafeDownloads(web: Web) {
    forall u | u in web.downloads && web.downloads[u].Served? && web.downloads[u].content.Zip? ::
      SafeEntries(web.downloads[u].content.entries)
  }

  predicate SafeWeb(web: Web) {
    SafeDownloads(web) && forall u | u in web.pages :: PlainZipHrefs(web.pages[u])
  }

  const DownloadErrorPrefix := "Ocorreu um erro ao baixar o arquivo: "

  /** How the work for one link ended: done, logged and skipped, or thrown out of the loop. */
  datatype LinkOutcome = Fetched | Logged(error: Error) | Thrown(error: Error)

  datatype LinkStep = LinkStep(state: FsState, outcome: LinkOutcome)

  /**
    One .zip link of a folder page: download url + href to dir/href, then
    extract it into dir. IOExceptions are logged; FileDownloadException,
    ZipException and the other runtime exceptions leave the loop.
  */
  function ProcessLinkStep(st: FsState, web: Web, url: string, dir: Path, href: string): (r: LinkStep)
    requires EndsWith(href, ZipExtension) && PlainPathText(href) && SafeDownloads(web)
    ensures r.outcome.Thrown? && r.outcome.error.DownloadFailed? ==>
              r.outcome.error.message == DownloadErrorPrefix + href && r.state == st
    ensures r.outcome.Logged? ==> r.outcome.error.IO?
    ensures r.outcome.Thrown? ==> !r.outcome.error.IO?
    ensures st.dirs <= r.state.dirs
  {
    var fileUrl := url + href;
    match web.Fetch(fileUrl)
    case InvalidUri => LinkStep(st, Thrown(IllegalArgument(fileUrl)))
    case MalformedUrl => LinkStep(st, Logged(IO(fileUrl)))
    case Unreachable => LinkStep(st, Thrown(DownloadFailed(DownloadErrorPrefix + href)))
    case Served(content) =>
      var target := ParsePath(dir, href);
      var written := WriteFileStep(st, target, content);
      if written.outcome.Fail? then LinkStep(st, Thrown(DownloadFailed(DownloadErrorPrefix + href)))
      else
        assert fileUrl in web.downloads;
        var extracted := ExtractZipStep(written.state, target, dir);
        if extracted.outcome.Pass? then LinkStep(extracted.state, Fetched)
        else if extracted.outcome.error.IO? then LinkStep(extracted.state, Logged(extracted.outcome.error))
        else LinkStep(extracted.state, Thrown(extracted.outcome.error))
  }

  /** The links of a folder page, in page order; only hrefs ending in ".zip", in exactly that case, are fetched. */
  function DownloadLinksStep(st: FsState, web: Web, url: string, dir: Path, hrefs: seq<string>): (r: Step)
    requires SafeDownloads(web) && PlainZipHrefs(hrefs)
    ensures st.dirs <= r.state.dirs
    ensures r.outcome.Fail? ==> !r.outcome.error.IO?
    decreases |hrefs|
  {
    if hrefs == [] then Step(st, Pass)
    else
      assert PlainZipHrefs(hrefs[1..]) by {
        forall i | 0 <= i < |hrefs[1..]| ensures hrefs[1..][i] == hrefs[i + 1] {}
      }
      if !EndsWith(hrefs[0], ZipExtension) then DownloadLinksStep(st, web, url, dir, hrefs[1..])
      else
        var s := ProcessLinkStep(st, web, url, dir, hrefs[0]);
        if s.outcome.Thrown? then Step(s.state, Fail(s.outcome.error))
        else DownloadLinksStep(s.state, web, url, dir, hrefs[1..])
  }

  /**
    downloadAllZipsInAPath: the folder page is read first, then the output
    directory is ensured, then the links are worked through.
  */
  function DownloadAllZipsStep(st: FsState, web: Web, url: string, dir: Path): (r: Step)
    requires SafeWeb(web)
    ensures url !in web.pages ==> r == Step(st, Fail(IO(url)))
    ensures url in web.pages && dir in st.files ==> r == Step(st, Fail(IllegalArgument(NotADirectoryMessage(dir))))
    ensures st.dirs <= r.state.dirs
    ensures r.outcome.Pass? ==> dir in r.state.dirs
  {
    if url !in web.pages then Step(st, Fail(IO(url)))
    else
      var ensured := EnsureDirectoryStep(st, dir);
      if ensured.outcome.Fail? then ensured
      else DownloadLinksStep(ensured.state, web, url, dir, web.pages[url])
  }

  /** The loop of downloadLatestYears: folder after folder, stopping at the first exception. */
  function FoldersStep(st: FsState, web: Web, baseUrl: string, outputDir: Path, folders: seq<Segment>): (r: Step)
    requires SafeWeb(web)
    ensures st.dirs <= r.state.dirs
    ensures r.outcome.Pass? ==> forall f | f in folders :: outputDir + [f] in r.state.dirs
    decreases |folders|
  {
    if folders == [] then Step(st, Pass)
    else
      var s := DownloadAllZipsStep(st, web, baseUrl + folders[0] + "/", outputDir + [folders[0]]);
      if s.outcome.Fail? then s else FoldersStep(s.state, web, baseUrl, outputDir, folders[1..])
  }

  /** downloadLatestYears(n, outputDir). */
  function DownloadLatestYearsStep(st: FsState, web: Web, baseUrl: string, n: int, outputDir: Path): (r: Step)
    requires SafeWeb(web)
    ensures baseUrl !in web.pages ==> r == Step(st, Fail(IO(baseUrl)))
    ensures baseUrl in web.pages && n < 0 ==> r == Step(st, Fail(IllegalArgument(SubListMessage(n))))
    ensures st.dirs <= r.state.dirs
    ensures r.outcome.Pass? ==>
              baseUrl in web.pages && LatestFolders(YearFolders(web.pages[baseUrl]), n).Ok?
              && forall f | f in LatestFolders(YearFolders(web.pages[baseUrl]), n).value :: outputDir + [f] in r.state.dirs
  {
    if baseUrl !in web.pages then Step(st, Fail(IO(baseUrl)))
    else match LatestFolders(YearFolders(web.pages[baseUrl]), n)
      case Err(e) => Step(st, Fail(e))
      case Ok(chosen) => FoldersStep(st, web, baseUrl, outputDir, chosen)
  }

  // ---------------------------------------------------------------------------
  // The service on the live file system

  method ProcessLink(fs: FileSystem, web: Web, url: string, dir: Path, href: string) returns (out: LinkOutcome)
    requires fs.Valid() && EndsWith(href, ZipExtension) && PlainPathText(href) && SafeDownloads(web)
    modifies fs
    ensures fs.Valid()
    ensures LinkStep(fs.State(), out) == ProcessLinkStep(old(fs.State()), web, url, dir, href)
  {
    var fileUrl := url + href;
    var download := web.Fetch(fileUrl);
    if download.InvalidUri? {
      return Thrown(IllegalArgument(fileUrl));
    } else if download.MalformedUrl? {
      return Logged(IO(fileUrl));
    } else if download.Unreachable? {
      return Thrown(DownloadFailed(DownloadErrorPrefix + href));
    }
    var target := ParsePath(dir, href);
    var written := fs.WriteFile(target, download.content);
    if written.Fail? {
      return Thrown(DownloadFailed(DownloadErrorPrefix + href));
    }
    assert fileUrl in web.downloads;
    var extracted := ExtractZip(fs, target, dir);
    if extracted.Pass? {
      out := Fetched;
    } else if extracted.error.IO? {
      out := Logged(extracted.error);
    } else {
      out := Thrown(extracted.error);
    }
  }

  method DownloadAllZipsInAPath(fs: FileSystem, web: Web, url: string, dir: Path) returns (o: Outcome)
    requires fs.Valid() && SafeWeb(web)
    modifies fs
    ensures fs.Valid()
    ensures Step(fs.State(), o) == DownloadAllZipsStep(old(fs.State()), web, url, dir)
  {
    if url !in web.pages {
      return Fail(IO(url));
    }
    ghost var before := fs.State();
    var hrefs := web.pages[url];
    var ensured := CreateDirectoryIfNotExists(fs, dir);
    if ensured.Err? {
      return Fail(ensured.error);
    }
    ghost var start := fs.State();
    assert DownloadAllZipsStep(before, web, url, dir) == DownloadLinksStep(start, web, url, dir, hrefs);
    var i := 0;
    while i < |hrefs|
      invariant 0 <= i <= |hrefs|
      invariant fs.Valid() && PlainZipHrefs(hrefs[i..])
      invariant DownloadLinksStep(fs.State(), web, url, dir, hrefs[i..]) == DownloadLinksStep(start, web, url, dir, hrefs)
    {
      var href := hrefs[i];
      assert hrefs[i..][1..] == hrefs[i + 1..];
      assert hrefs[i..][0] == href;
      if EndsWith(href, ZipExtension) {
        var out := ProcessLink(fs, web, url, dir, href);
        if out.Thrown? {
          return Fail(out.error);
        }
      }
      i := i + 1;
    }
    return Pass;
  }

  method DownloadLatestYears(fs: FileSystem, web: Web, baseUrl: string, n: int, outputDir: Path) returns (o: Outcome)
    requires fs.Valid() && SafeWeb(web)
    modifies fs
    ensures fs.Valid()
    ensures Step(fs.State(), o) == DownloadLatestYearsStep(old(fs.State()), web, baseUrl, n, outputDir)
  {
    if baseUrl !in web.pages {
      return Fail(IO(baseUrl));
    }
    var allFolders := CollectYearFolders(web.pages[baseUrl]);
    var latest := LatestFolders(allFolders, n);
    if latest.Err? {
      return Fail(latest.error);
    }
    var folders := latest.value;
    ghost var start := fs.State();
    var i := 0;
    while i < |folders|
      invariant 0 <= i <= |folders|
      invariant fs.Valid()
      invariant FoldersStep(fs.State(), web, baseUrl, outputDir, folders[i..]) == FoldersStep(start, web, baseUrl, outputDir, folders)
    {
      var folder := folders[i];
      assert folders[i..][1..] == folders[i + 1..];
      assert folders[i..][0] == folder;
      o := DownloadAllZipsInAPath(fs, web, baseUrl + folder + "/", outputDir + [folder]);
      if o.Fail? {
        return;
      }
      i := i + 1;
    }
    return Pass;
  }

  // ---------------------------------------------------------------------------
  // Properties

  /** The hrefs that end in ".zip", case-sensitively, in page order. */
  function ZipLinks(hrefs: seq<string>): (r: seq<string>)
    ensures forall i :: 0 <= i < |r| ==> EndsWith(r[i], ZipExtension) && r[i] in hrefs
    ensures forall h | h in hrefs && EndsWith(h, ZipExtension) :: h in r
  {
    if hrefs == [] then []
    else
      assert forall h | h in hrefs[1..] :: h in hrefs;
      (if EndsWith(hrefs[0], ZipExtension) then [hrefs[0]] else []) + ZipLinks(hrefs[1..])
  }

  /** Links that do not end in ".zip" play no part: the page acts as if it listed only its archives. */
  lemma {:induction false} OnlyZipLinksMatter(st: FsState, web: Web, url: string, dir: Path, hrefs: seq<string>)
    requires SafeDownloads(web) && PlainZipHrefs(hrefs)
    ensures PlainZipHrefs(ZipLinks(hrefs))
    ensures DownloadLinksStep(st, web, url, dir, hrefs) == DownloadLinksStep(st, web, url, dir, ZipLinks(hrefs))
    decreases |hrefs|
  {
    var zips := ZipLinks(hrefs);
    assert PlainZipHrefs(zips) by {
      forall i | 0 <= i < |zips| ensures PlainPathText(zips[i]) {
        var j :| 0 <= j < |hrefs| && hrefs[j] == zips[i];
      }
    }
    if hrefs != [] {
      assert PlainZipHrefs(hrefs[1..]) by {
        forall i | 0 <= i < |hrefs[1..]| ensures hrefs[1..][i] == hrefs[i + 1] {}
      }
      if EndsWith(hrefs[0], ZipExtension) {
        assert zips == [hrefs[0]] + ZipLinks(hrefs[1..]);
        assert zips[1..] == ZipLinks(hrefs[1..]);
        var s := ProcessLinkStep(st, web, url, dir, hrefs[0]);
        if !s.outcome.Thrown? {
          OnlyZipLinksMatter(s.state, web, url, dir, hrefs[1..]);
        }
      } else {
        assert zips == ZipLinks(hrefs[1..]);
        OnlyZipLinksMatter(st, web, url, dir, hrefs[1..]);
      }
    }
  }

  /** The suffix test is case-sensitive. */
  lemma ZipLinksExample()
    ensures ZipLinks(["a.zip", "b.ZIP", "c.pdf"]) == ["a.zip"]
  {
    var hrefs := ["a.zip", "b.ZIP", "c.pdf"];
    assert hrefs[1..] == ["b.ZIP", "c.pdf"] && hrefs[1..][1..] == ["c.pdf"] && hrefs[1..][1..][1..] == [];
    assert "b.ZIP"[|"b.ZIP"| - 4..] == ".ZIP";
    assert "c.pdf"[|"c.pdf"| - 4..] == ".pdf";
  }

  /** A logged IOException for one link does not stop the links after it. */
  lemma LoggedFailureContinues(st: FsState, web: Web, url: string, dir: Path, href: string, rest: seq<string>)
    requires SafeDownloads(web) && PlainZipHrefs([href] + rest)
    requires EndsWith(href, ZipExtension) && PlainPathText(href)
    requires ProcessLinkStep(st, web, url, dir, href).outcome.Logged?
    ensures PlainZipHrefs(rest)
    ensures DownloadLinksStep(st, web, url, dir, [href] + rest)
              == DownloadLinksStep(ProcessLinkStep(st, web, url, dir, href).state, web, url, dir, rest)
  {
    assert ([href] + rest)[1..] == rest;
    assert ([href] + rest)[0] == href;
  }

  /** In the sequential model, a runtime exception for one link ends the folder with that exception. */
  lemma ThrownFailureStops(st: FsState, web: Web, url: string, dir: Path, href: string, rest: seq<string>)
    requires SafeDownloads(web) && PlainZipHrefs([href] + rest)
    requires EndsWith(href, ZipExtension) && PlainPathText(href)
    requires ProcessLinkStep(st, web, url, dir, href).outcome.Thrown?
    ensures var s := ProcessLinkStep(st, web, url, dir, href);
            DownloadLinksStep(st, web, url, dir, [href] + rest) == Step(s.state, Fail(s.outcome.error))
  {
    assert ([href] + rest)[0] == href;
  }

  /** A malformed URL is logged and changes nothing. */
  lemma MalformedUrlIsLogged(st: FsState, web: Web, url: string, dir: Path, href: string)
    requires EndsWith(href, ZipExtension) && PlainPathText(href) && SafeDownloads(web)
    requires web.Fetch(url + href) == MalformedUrl
    ensures ProcessLinkStep(st, web, url, dir, href) == LinkStep(st, Logged(IO(url + href)))
  {
  }

  /**
    A served archive of plain file names is saved as dir/href and unpacked next
    to it: every entry ends up at dir/name with its content.
  */
  lemma ServedArchiveUnpacked(st: FsState, web: Web, url: string, dir: Path, href: Segment, entries: seq<Entry>)
    requires WellFormed(st) && dir in st.dirs && SafeDownloads(web)
    requires EndsWith(href, ZipExtension) && dir + [href] !in st.dirs
    requires web.Fetch(url + href) == Served(Zip(entries))
    requires forall e | e in entries :: ValidSegment(e.name) && dir + [e.name] !in st.dirs
    ensures PlainPathText(href)
    ensures ProcessLinkStep(st, web, url, dir, href)
              == LinkStep(st.(files := Placed(st.files[dir + [href] := Zip(entries)], dir, entries)), Fetched)
  {
    SplitWithoutSeparator(href, '/');
    assert Split(href, '/') == [href];
    assert Names([href]) == [href] by {
      assert [href][1..] == [];
    }
    assert href[0] != '/' by {
      assert href[0] in href;
    }
    assert ParsePath(dir, href) == dir + [href];
    var target := dir + [href];
    assert Parent(target) == dir;
    WriteFileKeepsShape(st, target, Zip(entries));
    var saved := st.(files := st.files[target := Zip(entries)]);
    assert WellFormed(saved);
    EnsureDirectoryCases(saved, dir);
    ExtractFlat(saved, dir, entries);
  }

  /** Nothing on the way to a child of an existing directory is a file, unless the child itself is. */
  lemma ChildUnblocked(st: FsState, outputDir: Path, f: Segment)
    requires WellFormed(st) && outputDir in st.dirs && outputDir + [f] !in st.files
    ensures !BlockedByFile(st, outputDir + [f])
  {
    var dir := outputDir + [f];
    forall k | 0 <= k <= |dir| ensures dir[..k] !in st.files {
      if k < |outputDir| {
        assert outputDir[..k] == dir[..k];
        AncestorsAreDirs(st, outputDir, k);
      } else if k == |outputDir| {
        assert dir[..k] == outputDir;
      } else {
        assert dir[..k] == dir;
      }
    }
  }

  /** The prefixes of a child of an existing directory that are not yet directories: the child alone. */
  lemma ChildPrefixes(st: FsState, outputDir: Path, f: Segment)
    requires WellFormed(st) && outputDir in st.dirs
    ensures st.dirs + Prefixes(outputDir + [f]) == st.dirs + {outputDir + [f]}
  {
    var dir := outputDir + [f];
    forall q | q in Prefixes(dir) ensures q in st.dirs + {dir} {
      var k :| 0 <= k <= |dir| && q == dir[..k];
      if k < |outputDir| {
        assert q == outputDir[..k];
        AncestorsAreDirs(st, outputDir, k);
      } else if k == |outputDir| {
        assert q == outputDir;
      }
    }
    assert dir[..|dir|] == dir;
  }

  /** Ensuring a child of an existing directory adds exactly that child. */
  lemma EnsureChildDirectory(st: FsState, outputDir: Path, f: Segment)
    requires WellFormed(st) && outputDir in st.dirs && outputDir + [f] !in st.files
    ensures EnsureDirectoryStep(st, outputDir + [f]) == Step(st.(dirs := st.dirs + {outputDir + [f]}), Pass)
    ensures WellFormed(st.(dirs := st.dirs + {outputDir + [f]}))
  {
    var dir := outputDir + [f];
    assert Parent(dir) == outputDir;
    EnsureDirectoryCases(st, dir);
    ChildUnblocked(st, outputDir, f);
    if dir !in st.dirs {
      ChildPrefixes(st, outputDir, f);
    }
  }

  /** A folder page without archives, visited under an existing directory, only adds its own directory. */
  lemma EmptyFolderVisited(st: FsState, web: Web, baseUrl: string, outputDir: Path, f: Segment)
    requires WellFormed(st) && outputDir in st.dirs && SafeWeb(web)
    requires baseUrl + f + "/" in web.pages && ZipLinks(web.pages[baseUrl + f + "/"]) == []
    requires outputDir + [f] !in st.files
    ensures DownloadAllZipsStep(st, web, baseUrl + f + "/", outputDir + [f])
              == Step(st.(dirs := st.dirs + {outputDir + [f]}), Pass)
  {
    var url := baseUrl + f + "/";
    var dir := outputDir + [f];
    EnsureChildDirectory(st, outputDir, f);
    var next := st.(dirs := st.dirs + {dir});
    OnlyZipLinksMatter(next, web, url, dir, web.pages[url]);
  }

  /** The directories of a list of folders: those of its first folder, then those of the rest. */
  lemma FolderDirsCons(outputDir: Path, folders: seq<Segment>)
    requires folders != []
    ensures (set g | g in folders :: outputDir + [g])
              == {outputDir + [folders[0]]} + set g | g in folders[1..] :: outputDir + [g]
  {
    assert folders == [folders[0]] + folders[1..];
  }

  /**
    Every chosen folder is visited at baseUrl + label + "/" and gets the
    directory outputDir/label: when each such page lists no archive, the run
    succeeds and leaves exactly those directories behind.
  */
  lemma {:induction false} FoldersMakeTheirDirectories(st: FsState, web: Web, baseUrl: string, outputDir: Path, folders: seq<Segment>)
    requires WellFormed(st) && outputDir in st.dirs && SafeWeb(web)
    requires forall f | f in folders ::
               baseUrl + f + "/" in web.pages && ZipLinks(web.pages[baseUrl + f + "/"]) == []
               && outputDir + [f] !in st.files
    ensures FoldersStep(st, web, baseUrl, outputDir, folders)
              == Step(st.(dirs := st.dirs + set f | f in folders :: outputDir + [f]), Pass)
    decreases |folders|
  {
    if folders == [] {
      assert st.(dirs := st.dirs + set f | f in folders :: outputDir + [f]) == st;
    } else {
      var f := folders[0];
      assert f in folders;
      var dir := outputDir + [f];
      EmptyFolderVisited(st, web, baseUrl, outputDir, f);
      EnsureChildDirectory(st, outputDir, f);
      var next := st.(dirs := st.dirs + {dir});
      assert forall g | g in folders[1..] :: g in folders;
      FoldersMakeTheirDirectories(next, web, baseUrl, outputDir, folders[1..]);
      FolderDirsCons(outputDir, folders);
      var rest := set g | g in folders[1..] :: outputDir + [g];
      assert next.dirs + rest == st.dirs + set g | g in folders :: outputDir + [g];
    }
  }
}
