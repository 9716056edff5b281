/**
  A document the user asks for: a display name plus its kind. The full name,
  which is what the scraper matches link texts against, is the name followed by
  the kind's extension.
*/
module FileModels {
  import opened Text
  import opened FileTypes

  datatype FileModel = FileModel(name: string, fileType: FileType)
  {
    /** getFullName: the name with the kind's extension appended. */
    function FullName(): (r: string)
      ensures |r| == |name| + |Extension(fileType)|
      ensures StartsWith(r, name) && EndsWith(r, Extension(fileType))
      ensures r[..|name|] == name && r[|name|..] == Extension(fileType)
    {
      name + Extension(fileType)
    }
  }

  /** No extension is a proper suffix of another, so a full name tells its kind. */
  lemma ExtensionSuffixFree(s: FileType, t: FileType)
    ensures EndsWith(Extension(s), Extension(t)) ==> s == t
  {
    ExtensionsDistinct(s, t);
  }

  /** Two models with the same full name are the same model. */
  lemma {:induction false} FullNameInjective(a: FileModel, b: FileModel)
    requires a.FullName() == b.FullName()
    ensures a == b
  {
    var fa, fb := a.FullName(), b.FullName();
    var ea, eb := Extension(a.fileType), Extension(b.fileType);
    if |ea| <= |eb| {
      assert fb[|fb| - |ea|..] == ea;
      assert eb[|eb| - |ea|..] == fb[|fb| - |ea|..];
      ExtensionSuffixFree(b.fileType, a.fileType);
    } else {
      assert fa[|fa| - |eb|..] == eb;
      assert ea[|ea| - |eb|..] == fa[|fa| - |eb|..];
      ExtensionSuffixFree(a.fileType, b.fileType);
    }
    assert a.name == fa[..|a.name|] == fb[..|b.name|] == b.name;
  }

  lemma AnnexFullName()
    ensures FileModel("Anexo I", PDF).FullName() == "Anexo I.pdf"
  {
  }
}
