/**
  Link resolution of the scraper service. The page is given as the anchors the
  CSS selector picked, in document order, each with its visible text and its
  href already resolved to an absolute URL. Every requested file is paired
  with the first anchor whose text mentions the file's name and whose URL ends
  with the file's extension, both compared ignoring case.
*/
module Scrapper {
  import opened Errors
  import opened Text
  import opened FileTypes
  import opened FileModels
  import opened ScrappingRequests

  /** An element selected on the page: its text() and its attr("abs:href"). */
  datatype Anchor = Anchor(text: string, absHref: string)

  /** FilelinkModel: the full file name and the URL found for it (None is Java's null). */
  datatype FileLink = FileLink(name: string, url: Option<string>)

  /** hasMatchingText: the lower-cased text contains the lower-cased name. */
  predicate HasMatchingText(a: Anchor, name: string)
    ensures HasMatchingText(a, name) <==> exists i: nat :: OccursAtIgnoringCase(a.text, name, i)
  {
    ContainsIgnoringCase(a.text, name);
    Contains(Lower(a.text), Lower(name))
  }

  /** hasValidExtension: the lower-cased URL ends with the lower-cased extension. */
  predicate HasValidExtension(a: Anchor, t: FileType)
    ensures HasValidExtension(a, t) <==>
              |Extension(t)| <= |a.absHref| && OccursAtIgnoringCase(a.absHref, Extension(t), |a.absHref| - |Extension(t)|)
  {
    EndsWithIgnoringCase(a.absHref, Extension(t));
    EndsWith(Lower(a.absHref), Lower(Extension(t)))
  }

  /** Both filters of the link search. */
  predicate Matches(a: Anchor, f: FileModel) {
    HasMatchingText(a, f.name) && HasValidExtension(a, f.fileType)
  }

  /**
    The URL the search must produce for f: the URL of the earliest matching anchor,
    or nothing when no anchor matches.
  */
  ghost predicate ResolvesTo(anchors: seq<Anchor>, f: FileModel, url: Option<string>) {
    match url
    case None => forall j :: 0 <= j < |anchors| ==> !Matches(anchors[j], f)
    case Some(u) =>
      exists k :: 0 <= k < |anchors| && Matches(anchors[k], f) && u == anchors[k].absHref
        && forall j :: 0 <= j < k ==> !Matches(anchors[j], f)
  }

  /** The specification leaves no choice: at most one URL satisfies it. */
  lemma ResolvesToUnique(anchors: seq<Anchor>, f: FileModel, u1: Option<string>, u2: Option<string>)
    requires ResolvesTo(anchors, f, u1) && ResolvesTo(anchors, f, u2)
    ensures u1 == u2
  {
    if u1.Some? && u2.Some? {
      var k1 :| 0 <= k1 < |anchors| && Matches(anchors[k1], f) && u1.value == anchors[k1].absHref
        && forall j :: 0 <= j < k1 ==> !Matches(anchors[j], f);
      var k2 :| 0 <= k2 < |anchors| && Matches(anchors[k2], f) && u2.value == anchors[k2].absHref
        && forall j :: 0 <= j < k2 ==> !Matches(anchors[j], f);
      assert k1 == k2;
    }
  }

  /** filter(hasMatchingText).filter(hasValidExtension).map(abs:href).findFirst() */
  function FirstMatch(anchors: seq<Anchor>, f: FileModel): (r: Option<string>)
    ensures ResolvesTo(anchors, f, r)
  {
    if anchors == [] then None
    else if Matches(anchors[0], f) then
      assert Matches(anchors[0], f) && anchors[0].absHref == anchors[0].absHref;
      Some(anchors[0].absHref)
    else
      var rest := FirstMatch(anchors[1..], f);
      match rest
      case None => None
      case Some(u) =>
        ghost var k :| 0 <= k < |anchors[1..]| && Matches(anchors[1..][k], f) && u == anchors[1..][k].absHref
          && forall j :: 0 <= j < k ==> !Matches(anchors[1..][j], f);
        assert forall j :: 0 <= j < k + 1 ==> !Matches(anchors[j], f) by {
          forall j | 0 <= j < k + 1 ensures !Matches(anchors[j], f) {
            if j > 0 {
              assert anchors[j] == anchors[1..][j - 1];
            }
          }
        }
        assert Matches(anchors[k + 1], f) && u == anchors[k + 1].absHref;
        Some(u)
  }

  /** getLinksFromElements: one link per requested file, in request order. */
  function LinksFromElements(anchors: seq<Anchor>, files: seq<FileModel>): (r: seq<FileLink>)
    ensures |r| == |files|
    ensures forall i :: 0 <= i < |files| ==>
              r[i].name == files[i].FullName() && ResolvesTo(anchors, files[i], r[i].url)
  {
    seq(|files|, i requires 0 <= i < |files| => FileLink(files[i].FullName(), FirstMatch(anchors, files[i])))
  }

  /** Text that starts with the name matches it, whatever follows. */
  lemma TextExtendingNameMatches(name: string, more: string, href: string)
    ensures HasMatchingText(Anchor(name + more, href), name)
  {
    LowerAppend(name, more);
    assert OccursAt(Lower(name + more), Lower(name), 0);
  }

  /** A URL made of any stem and the extension passes the extension filter. */
  lemma UrlWithExtensionIsValid(stem: string, t: FileType)
    ensures HasValidExtension(Anchor("", stem + Extension(t)), t)
  {
    LowerAppend(stem, Extension(t));
  }

  /** Matching is substring containment, so the link text may carry more words. */
  lemma LongerTextMatches()
    ensures HasMatchingText(Anchor("Anexo I - Documento", ""), "Anexo I")
    ensures HasMatchingText(Anchor("Anexo II", ""), "Anexo I")
  {
    TextExtendingNameMatches("Anexo I", " - Documento", "");
    assert "Anexo I" + " - Documento" == "Anexo I - Documento";
    TextExtendingNameMatches("Anexo I", "I", "");
    assert "Anexo I" + "I" == "Anexo II";
  }

  /**
    A consequence of substring matching: when the page lists Annex II before Annex I,
    the request for "Anexo I" resolves to Annex II's link.
  */
  lemma AnnexTwoShadowsAnnexOne()
    ensures var anchors := [Anchor("Anexo II", "https://x/anexo2.pdf"), Anchor("Anexo I", "https://x/anexo1.pdf")];
            LinksFromElements(anchors, [FileModel("Anexo I", PDF)])
              == [FileLink("Anexo I.pdf", Some("https://x/anexo2.pdf"))]
  {
    var anchors := [Anchor("Anexo II", "https://x/anexo2.pdf"), Anchor("Anexo I", "https://x/anexo1.pdf")];
    var f := FileModel("Anexo I", PDF);
    TextExtendingNameMatches("Anexo I", "I", "https://x/anexo2.pdf");
    assert "Anexo I" + "I" == "Anexo II";
    UrlWithExtensionIsValid("https://x/anexo2", PDF);
    assert "https://x/anexo2" + Extension(PDF) == "https://x/anexo2.pdf";
    assert Matches(anchors[0], f);
    assert ResolvesTo(anchors, f, Some("https://x/anexo2.pdf"));
    var links := LinksFromElements(anchors, [f]);
    ResolvesToUnique(anchors, f, Some("https://x/anexo2.pdf"), links[0].url);
    assert links[0].name == "Anexo I" + ".pdf" == "Anexo I.pdf";
    assert links == [FileLink("Anexo I.pdf", Some("https://x/anexo2.pdf"))];
  }

  /** The selector clause for one extension: a[href*='ext']. */
  const ClausePrefix := "a[href*='"
  const ClauseSuffix := "']"
  const ClauseSeparator := ", "

  function Clause(ext: string): string {
    ClausePrefix + ext + ClauseSuffix
  }

  /** The CSS query of parsePageForElementsLinks: one clause per extension, joined by ", ". */
  function CssQuery(exts: seq<string>): (r: string)
    ensures r == [] <==> exts == []
    ensures exts != [] ==> StartsWith(r, Clause(exts[0]))
  {
    Join(seq(|exts|, i requires 0 <= i < |exts| => Clause(exts[i])), ClauseSeparator)
  }

  /** The index of the first occurrence of c in s. */
  function IndexOf(s: string, c: char): (r: Option<nat>)
    ensures r.Some? ==> r.value < |s| && s[r.value] == c && c !in s[..r.value]
    ensures r.None? ==> c !in s
  {
    if s == [] then None
    else if s[0] == c then Some(0)
    else match IndexOf(s[1..], c)
      case None => None
      case Some(k) =>
        assert s[..k + 1] == [s[0]] + s[1..][..k];
        Some(k + 1)
  }

  /** Reads a list of selector clauses back; None when the text is not such a list. */
  function ParseClauses(s: string): (r: Option<seq<string>>)
    decreases |s|
  {
    if !StartsWith(s, ClausePrefix) then None
    else
      var rest := s[|ClausePrefix|..];
      match IndexOf(rest, '\'')
      case None => None
      case Some(k) =>
        var after := rest[k..];
        if !StartsWith(after, ClauseSuffix) then None
        else
          var tail := after[|ClauseSuffix|..];
          if tail == [] then Some([rest[..k]])
          else if !StartsWith(tail, ClauseSeparator) then None
          else match ParseClauses(tail[|ClauseSeparator|..])
            case None => None
            case Some(more) => Some([rest[..k]] + more)
  }

  function ParseSelector(s: string): (r: Option<seq<string>>) {
    if s == [] then Some([]) else ParseClauses(s)
  }

  lemma IndexOfAfterFree(e: string, tail: string, c: char)
    requires c !in e
    ensures IndexOf(e + [c] + tail, c) == Some(|e|)
  {
    var s := e + [c] + tail;
    assert s[|e|] == c;
    assert s[..|e|] == e;
  }

  /** How ParseClauses takes one clause off the front of its input. */
  lemma ParseClauseHead(e: string, tail: string)
    requires '\'' !in e
    ensures var rest := (Clause(e) + tail)[|ClausePrefix|..];
            StartsWith(Clause(e) + tail, ClausePrefix)
            && IndexOf(rest, '\'') == Some(|e|) && rest[..|e|] == e
            && StartsWith(rest[|e|..], ClauseSuffix) && rest[|e|..][|ClauseSuffix|..] == tail
  {
    var s := Clause(e) + tail;
    assert s == ClausePrefix + (e + ClauseSuffix + tail);
    var rest := s[|ClausePrefix|..];
    assert rest == e + ['\''] + ("]" + tail);
    IndexOfAfterFree(e, "]" + tail, '\'');
    assert rest[|e|..] == ClauseSuffix + tail;
  }

  lemma ParseLastClause(e: string)
    requires '\'' !in e
    ensures ParseClauses(Clause(e)) == Some([e])
  {
    ParseClauseHead(e, "");
    assert Clause(e) + "" == Clause(e);
  }

  lemma ParseClauseThen(e: string, more: string, parsed: seq<string>)
    requires '\'' !in e
    requires ParseClauses(more) == Some(parsed)
    ensures ParseClauses(Clause(e) + ClauseSeparator + more) == Some([e] + parsed)
  {
    var tail := ClauseSeparator + more;
    ParseClauseHead(e, tail);
    assert Clause(e) + ClauseSeparator + more == Clause(e) + tail;
    assert StartsWith(more, ClausePrefix);
    assert tail != [] && StartsWith(tail, ClauseSeparator) && tail[|ClauseSeparator|..] == more;
  }

  lemma CssQueryUnfold(exts: seq<string>)
    requires |exts| >= 1
    ensures |exts| == 1 ==> CssQuery(exts) == Clause(exts[0])
    ensures |exts| > 1 ==> CssQuery(exts) == Clause(exts[0]) + ClauseSeparator + CssQuery(exts[1..])
  {
    var clauses := seq(|exts|, i requires 0 <= i < |exts| => Clause(exts[i]));
    if |exts| > 1 {
      var clauses' := seq(|exts[1..]|, i requires 0 <= i < |exts[1..]| => Clause(exts[1..][i]));
      assert clauses[1..] == clauses';
    }
  }

  lemma {:induction false} ParseClausesOfJoin(exts: seq<string>)
    requires |exts| >= 1
    requires forall i :: 0 <= i < |exts| ==> '\'' !in exts[i]
    ensures ParseClauses(CssQuery(exts)) == Some(exts)
  {
    CssQueryUnfold(exts);
    if |exts| == 1 {
      ParseLastClause(exts[0]);
      assert exts == [exts[0]];
    } else {
      ParseClausesOfJoin(exts[1..]);
      ParseClauseThen(exts[0], CssQuery(exts[1..]), exts[1..]);
      assert [exts[0]] + exts[1..] == exts;
    }
  }

  /** The selector can be read back: it lists exactly the requested extensions, duplicates included. */
  lemma ParseSelectorOfCssQuery(exts: seq<string>)
    requires forall i :: 0 <= i < |exts| ==> '\'' !in exts[i]
    ensures ParseSelector(CssQuery(exts)) == Some(exts)
  {
    if |exts| >= 1 {
      ParseClausesOfJoin(exts);
      assert CssQuery(exts) != [] by {
        assert |CssQuery(exts)| >= |ClausePrefix| by {
          var clauses := seq(|exts|, i requires 0 <= i < |exts| => Clause(exts[i]));
          assert CssQuery(exts) == Join(clauses, ClauseSeparator);
          if |exts| > 1 {
            assert CssQuery(exts) == clauses[0] + ClauseSeparator + Join(clauses[1..], ClauseSeparator);
          }
        }
      }
    }
  }

  /** The query the service runs lists one clause per requested file, in request order. */
  lemma RequestQueryListsExtensions(req: ScrappingRequest)
    ensures ParseSelector(CssQuery(req.FilesTypeExtensions())) == Some(req.FilesTypeExtensions())
  {
    var exts := req.FilesTypeExtensions();
    forall i | 0 <= i < |exts| ensures '\'' !in exts[i] {
      assert exts[i] == Extension(req.files[i].fileType);
    }
    ParseSelectorOfCssQuery(exts);
  }

  const ConnectionErrorPrefix := "Ocorreu um erro ao conectar ao site: "

  /** What Jsoup's selector parser throws, as an IllegalArgumentException, for an empty query. */
  const EmptySelectorMessage := "String must not be empty"

  /**
    downloadFiles up to the hand-over to the downloader: the page (None when
    fetching it raised an IOException) is turned into the links to download.
    The query is run on the page only after the fetch; a request with no files
    gives the empty query, which select refuses with an IllegalArgumentException
    that the catch of IOException lets through.
  */
  function DownloadFiles(req: ScrappingRequest, page: Option<seq<Anchor>>): (r: Result<seq<FileLink>>)
    ensures page.None? <==> (r.Err? && r.error.WebsiteConnection?)
    ensures (page.Some? && req.files == []) <==> (r.Err? && r.error.IllegalArgument?)
    ensures r.Err? ==> r.error.WebsiteConnection? || r.error.IllegalArgument?
    ensures r.Err? && r.error.WebsiteConnection? ==> EndsWith(r.error.message, req.url)
    ensures r.Ok? ==> r.value == LinksFromElements(page.value, req.files)
  {
    match page
    case None => Err(WebsiteConnection(ConnectionErrorPrefix + req.url))
    case Some(anchors) =>
      if CssQuery(req.FilesTypeExtensions()) == [] then Err(IllegalArgument(EmptySelectorMessage))
      else Ok(LinksFromElements(anchors, req.files))
  }

  /** A fetched page and a request with no files: select refuses the empty query. */
  lemma EmptyRequestRefused(req: ScrappingRequest, anchors: seq<Anchor>)
    requires req.files == []
    ensures DownloadFiles(req, Some(anchors)) == Err(IllegalArgument(EmptySelectorMessage))
  {
  }

  lemma ConnectionFailureNamesUrl(req: ScrappingRequest)
    ensures DownloadFiles(req, None).Err?
    ensures Contains(DownloadFiles(req, None).error.message, req.url)
  {
    ContainsSuffix(ConnectionErrorPrefix, req.url);
  }
}
