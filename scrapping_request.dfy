/** What the scraper is asked for: the page to read and the documents to find on it. */
module ScrappingRequests {
  import opened Errors
  import opened FileTypes
  import opened FileModels

  datatype ScrappingRequest = ScrappingRequest(url: string, files: seq<FileModel>)
  {
    /** getFilesTypeExtensions: the extension of every requested file, in request order. */
    function FilesTypeExtensions(): (r: seq<string>)
      ensures |r| == |files|
      ensures forall i :: 0 <= i < |files| ==> KindOf(r[i]) == Some(files[i].fileType)
    {
      KindOfIsInverse("");
      seq(|files|, i requires 0 <= i < |files| => Extension(files[i].fileType))
    }
  }

  lemma SingleAnnexExtensions()
    ensures ScrappingRequest("u", [FileModel("Anexo I", PDF), FileModel("Anexo II", CSV)])
              .FilesTypeExtensions() == [".pdf", ".csv"]
  {
  }
}
