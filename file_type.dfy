/**
  The kinds of document the scraper looks for, each tied to its file extension,
  and the reverse lookup from an extension back to its kind.
*/
module FileTypes {
  import opened Errors

  datatype FileType = PDF | DOC | DOCX | XLS | XLSX | CSV

  /** The extension each kind carries, leading dot included. */
  function Extension(t: FileType): string {
    match t
    case PDF => ".pdf"
    case DOC => ".doc"
    case DOCX => ".docx"
    case XLS => ".xls"
    case XLSX => ".xlsx"
    case CSV => ".csv"
  }

  /** FileType.values(), in declaration order. */
  const Values: seq<FileType> := [PDF, DOC, DOCX, XLS, XLSX, CSV]

  lemma ValuesAreAllKinds(t: FileType)
    ensures t in Values
  {
  }

  /** The kind whose extension is exactly ext (case-sensitive), if any. */
  function KindOf(ext: string): (r: Option<FileType>)
    ensures r.Some? ==> Extension(r.value) == ext
  {
    if ext == ".pdf" then Some(PDF)
    else if ext == ".doc" then Some(DOC)
    else if ext == ".docx" then Some(DOCX)
    else if ext == ".xls" then Some(XLS)
    else if ext == ".xlsx" then Some(XLSX)
    else if ext == ".csv" then Some(CSV)
    else None
  }

  /** The reverse lookup undoes Extension, and fails exactly on strings no kind carries. */
  lemma KindOfIsInverse(ext: string)
    ensures forall t :: KindOf(Extension(t)) == Some(t)
    ensures KindOf(ext).None? <==> forall t :: Extension(t) != ext
  {
    forall t ensures KindOf(Extension(t)) == Some(t) {
      match t
      case PDF =>
      case DOC => assert ".doc" != ".pdf";
      case DOCX =>
      case XLS =>
      case XLSX =>
      case CSV =>
    }
  }

  /** No two kinds share an extension, and every extension starts with a dot. */
  lemma ExtensionsDistinct(s: FileType, t: FileType)
    ensures Extension(s) == Extension(t) ==> s == t
    ensures |Extension(t)| >= 2 && Extension(t)[0] == '.'
  {
    KindOfIsInverse(Extension(t));
  }

  /**
    FileType.fromExtension: scan values() in order and return the first kind
    whose extension equals ext; no match is the Java null.
  */
  method FromExtension(ext: string) returns (r: Option<FileType>)
    ensures r == KindOf(ext)
  {
    var i := 0;
    while i < |Values|
      invariant 0 <= i <= |Values|
      invariant forall j :: 0 <= j < i ==> Extension(Values[j]) != ext
    {
      if Extension(Values[i]) == ext {
        KindOfIsInverse(ext);
        return Some(Values[i]);
      }
      i := i + 1;
    }
    KindOfIsInverse(ext);
    forall t ensures Extension(t) != ext {
      ValuesAreAllKinds(t);
    }
    return None;
  }

  /** The comparison is exact: an upper-case extension or an archive name is not a kind. */
  lemma FromExtensionIsCaseSensitive()
    ensures KindOf(".PDF") == None
    ensures KindOf("pdf") == None
    ensures KindOf(".zip") == None
  {
  }
}
