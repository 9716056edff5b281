# IntuitiveCare web scraping test: a Dafny model

This project models the core of a Java command-line tool. The tool does four jobs:

- It scrapes the ANS (Agência Nacional de Saúde Suplementar) procedures page for the annex documents a request names.
- It downloads the zip archives of the most recent years of the ANS accounting-statements folder and unpacks them.
- It turns the tables of the Annex I PDF into a CSV file, expanding the abbreviations "OD" and "AMB", and zips the CSV.
- It packs files into zip archives and unpacks them again.

The model keeps the logic underneath that plumbing. It is written in the source's own form:

- **Pure code becomes functions.** This covers link resolution, the request data, the year-folder filter, the row filter and the CSV line encoder.
- **Stateful code becomes methods over mutable state.** The loops become `while` loops with invariants. The in-place abbreviation pass works on arrays. The file-system work goes through a `FileSystem` object.

Every method is proved against a specification function, and the properties the code promises are proved as lemmas about those functions.

The modules follow the source files:

- `Text` holds the string helpers: ASCII case mapping, `endsWith`, `contains`, `isBlank`, joining and splitting.
- `Errors` holds the exception vocabulary, plus `Option` and `Result`.
- `FileTypes`, `FileModels` and `ScrappingRequests` model the model classes.
- `Scrapper` models `ScrapperService`.
- `FileDownloader` models `FileDownloaderService`.
- `PdfProcessing` models `PdfProcessingService`.
- `FileSystems` is the file system the helpers work on.
  - State is a map from absolute paths to contents, plus a set of directories. A relative path text is taken as resolved against the working directory.
  - A content is plain bytes or a zip archive, kept as its list of entries.
  - `Files.createDirectories` and whole-file writes are modelled as operations over this state.
- `DirectoryHelper`, `ZipManager` and `ZipArchiver` model the utility classes of the same names.


## Model

| member | source | states |
|---|---|---|
| FileTypes.ValuesAreAllKinds | src/main/java/com/kleberrhuan/intuitivecare/model/FileType.java:7-12 | values() lists every one of the six kinds |
| FileTypes.KindOf | src/main/java/com/kleberrhuan/intuitivecare/model/FileType.java:20-27 | a kind found for a string carries exactly that string as its extension |
| FileTypes.KindOfIsInverse | src/main/java/com/kleberrhuan/intuitivecare/model/FileType.java:7-27 | looking up a kind's extension gives that kind back, for all six kinds; the lookup fails exactly on strings no kind carries |
| FileTypes.ExtensionsDistinct | src/main/java/com/kleberrhuan/intuitivecare/model/FileType.java:7-12 | no two kinds share an extension, and every extension starts with "." |
| FileTypes.FromExtension | src/main/java/com/kleberrhuan/intuitivecare/model/FileType.java:20-27 | the scan over values() with early return gives the same answer as the reference lookup (null as None) |
| FileTypes.FromExtensionIsCaseSensitive | src/main/java/com/kleberrhuan/intuitivecare/model/FileType.java:22-26 | ".PDF", "pdf" and ".zip" give null |
| FileModels.FileModel.FullName | src/main/java/com/kleberrhuan/intuitivecare/model/FileModel.java:12-14 | the full name is as long as name plus extension, starts with the name and ends with the extension; both parts can be read back off it |
| FileModels.ExtensionSuffixFree | src/main/java/com/kleberrhuan/intuitivecare/model/FileType.java:7-12 | no extension is a suffix of another kind's extension |
| FileModels.FullNameInjective | src/main/java/com/kleberrhuan/intuitivecare/model/FileModel.java:13 | two file models with the same full name are equal, so the full name identifies name and kind |
| FileModels.AnnexFullName | src/main/java/com/kleberrhuan/intuitivecare/model/FileModel.java:13 | ("Anexo I", PDF) has the full name "Anexo I.pdf" |
| ScrappingRequests.ScrappingRequest.FilesTypeExtensions | src/main/java/com/kleberrhuan/intuitivecare/model/ScrappingRequest.java:15-20 | one extension per requested file, same length and order, duplicates kept; element i is a table extension and looks up to file i's kind |
| ScrappingRequests.SingleAnnexExtensions | src/main/java/com/kleberrhuan/intuitivecare/model/ScrappingRequest.java:15-20 | a PDF and a CSV request give [".pdf", ".csv"] |
| Scrapper.FirstMatch | src/main/java/com/kleberrhuan/intuitivecare/service/ScrapperService.java:55-60 | the URL found is the href of the first anchor, in document order, whose text contains the name and whose href ends with the extension, both ignoring case; it is None exactly when no anchor passes both filters |
| Scrapper.ResolvesToUnique | src/main/java/com/kleberrhuan/intuitivecare/service/ScrapperService.java:55-60 | the first-match specification admits only one answer |
| Scrapper.LinksFromElements | src/main/java/com/kleberrhuan/intuitivecare/service/ScrapperService.java:51-62 | one link per requested file, in request order; link i is named by file i's full name and carries file i's first-match URL |
| Scrapper.TextExtendingNameMatches | src/main/java/com/kleberrhuan/intuitivecare/service/ScrapperService.java:82-84 | a text that starts with the name matches, whatever follows |
| Scrapper.UrlWithExtensionIsValid | src/main/java/com/kleberrhuan/intuitivecare/service/ScrapperService.java:86-88 | any URL ending in the kind's extension passes the extension filter |
| Scrapper.HasMatchingText | src/main/java/com/kleberrhuan/intuitivecare/service/ScrapperService.java:82-84 | the text test holds exactly when the name occurs somewhere in the text with case ignored, character by character |
| Scrapper.HasValidExtension | src/main/java/com/kleberrhuan/intuitivecare/service/ScrapperService.java:86-88 | the extension test holds exactly when the URL is at least as long as the extension and ends with it, case ignored character by character |
| Scrapper.LongerTextMatches | src/main/java/com/kleberrhuan/intuitivecare/service/ScrapperService.java:82-84 | "Anexo I - Documento" and also "Anexo II" match the name "Anexo I" |
| Scrapper.AnnexTwoShadowsAnnexOne | src/main/java/com/kleberrhuan/intuitivecare/service/ScrapperService.java:51-62 | when Annex II's link comes first on the page, the request for "Anexo I" resolves to Annex II's URL |
| Scrapper.ParseClausesOfJoin | src/main/java/com/kleberrhuan/intuitivecare/service/ScrapperService.java:40-42 | a non-empty list of a[href*='ext'] clauses joined by ", " reads back as the list of extensions |
| Scrapper.ParseSelectorOfCssQuery | src/main/java/com/kleberrhuan/intuitivecare/service/ScrapperService.java:40-42 | the selector reads back as exactly the extensions it was built from, in order, duplicates kept |
| Scrapper.CssQuery | src/main/java/com/kleberrhuan/intuitivecare/service/ScrapperService.java:40-42 | the query is empty exactly when there are no extensions, and otherwise starts with the clause of the first extension |
| Scrapper.RequestQueryListsExtensions | src/main/java/com/kleberrhuan/intuitivecare/service/ScrapperService.java:39-42 | the query built for a request holds one clause per requested file, in request order |
| Scrapper.DownloadFiles | src/main/java/com/kleberrhuan/intuitivecare/service/ScrapperService.java:70-80 | a failed page fetch, and only that, is a WebsiteConnectionException whose message ends with the request URL; after a successful fetch, a request with no files, and only that, makes the empty query fail with an IllegalArgumentException that is not caught; otherwise the result is the resolved links |
| Scrapper.EmptyRequestRefused | src/main/java/com/kleberrhuan/intuitivecare/service/ScrapperService.java:38-43 | once the page is fetched, a request with no files builds the empty query and ends in the IllegalArgumentException of select |
| Scrapper.ConnectionFailureNamesUrl | src/main/java/com/kleberrhuan/intuitivecare/service/ScrapperService.java:76-78 | the connection error message contains the request URL |
| FileSystems.CreateDirectoriesStep | src/main/java/com/kleberrhuan/intuitivecare/util/helpers/DirectoryHelper.java:36 | Files.createDirectories never changes a file, never removes a directory, and adds no directory other than the path and its ancestors; it succeeds exactly when no prefix of the path is a regular file, and then the path is a directory; on failure nothing changes and the error is an IOException |
| FileSystems.WriteFileStep | src/main/java/com/kleberrhuan/intuitivecare/util/ZipManager.java:59-64 | writing a whole file never changes the directories, and fails only with an I/O error |
| FileSystems.CreateDirectoriesKeepsShape | src/main/java/com/kleberrhuan/intuitivecare/util/helpers/DirectoryHelper.java:36 | createDirectories keeps the file system well formed and only adds directories, all of them the path or its ancestors; it succeeds exactly when no prefix of the path is a regular file, and the path is then a directory |
| FileSystems.CreateDirectoriesOnDirectory | src/main/java/com/kleberrhuan/intuitivecare/util/ZipManager.java:138 | on an existing directory createDirectories succeeds and changes nothing |
| FileSystems.WriteFileKeepsShape | src/main/java/com/kleberrhuan/intuitivecare/util/ZipManager.java:59-64 | a write succeeds exactly when the parent is a directory and the target is not one; it then replaces that one file and keeps the state well formed; a failed write changes nothing |
| FileSystems.FileSystem.CreateDirectories | src/main/java/com/kleberrhuan/intuitivecare/util/helpers/DirectoryHelper.java:36 | walking down the path and creating the missing directories one level at a time does what CreateDirectoriesStep says, and keeps the file system well formed |
| FileSystems.FileSystem.WriteFile | src/main/java/com/kleberrhuan/intuitivecare/util/ZipManager.java:139 | the live write does what WriteFileStep says and keeps the file system well formed |
| FileSystems.EntryPath | src/main/java/com/kleberrhuan/intuitivecare/util/ZipManager.java:133 | a safe entry name resolves to a relative path of at least one name |
| FileSystems.SegmentEntryName | src/main/java/com/kleberrhuan/intuitivecare/util/ZipManager.java:93-95 | an entry named by a file's last name is a safe, non-directory entry that resolves to that one name |
| DirectoryHelper.GetZipFileName | src/main/java/com/kleberrhuan/intuitivecare/util/helpers/DirectoryHelper.java:63-69 | the result ends in ".zip" ignoring case and starts with the name; it equals the name exactly when the name already ends in ".zip" ignoring case, and otherwise it is the name followed by exactly ".zip" |
| DirectoryHelper.GetZipFileNameIdempotent | src/main/java/com/kleberrhuan/intuitivecare/util/helpers/DirectoryHelper.java:63-69 | normalising twice is normalising once |
| DirectoryHelper.GetZipFileNameExamples | src/main/java/com/kleberrhuan/intuitivecare/util/helpers/DirectoryHelper.java:64-68 | "X.ZIP" is kept as it is; "arquivos_teste" becomes "arquivos_teste.zip" |
| DirectoryHelper.EnsureDirectoryStep | src/main/java/com/kleberrhuan/intuitivecare/util/helpers/DirectoryHelper.java:31-39 | files are never changed, directories never removed, and no directory added other than the path and its ancestors; on success the path is a directory; on failure nothing changes, and an existing regular file at the path fails with IllegalArgumentException |
| DirectoryHelper.EnsureDirectoryCases | src/main/java/com/kleberrhuan/intuitivecare/util/helpers/DirectoryHelper.java:31-39 | a regular file at the path fails and changes nothing; an existing directory succeeds and changes nothing; otherwise the path and its ancestors are created unless a file blocks them, and no other directory is; success leaves the path a directory; a failure changes nothing |
| DirectoryHelper.CreateDirectoryIfNotExists | src/main/java/com/kleberrhuan/intuitivecare/util/helpers/DirectoryHelper.java:31-39 | the live method does what EnsureDirectoryStep says and returns the same path on success |
| DirectoryHelper.ParsePathExamples | src/main/java/com/kleberrhuan/intuitivecare/util/helpers/DirectoryHelper.java:53 | "/tmp" is an absolute path; "out" resolves against the working directory |
| DirectoryHelper.ParsePath | src/main/java/com/kleberrhuan/intuitivecare/util/helpers/DirectoryHelper.java:53 | a relative text resolves beneath the working directory; every name the text adds is one of its "/"-separated fields |
| DirectoryHelper.PathStringParses | src/main/java/com/kleberrhuan/intuitivecare/util/helpers/DirectoryHelper.java:53 | the text of any path parses back to that same path, whatever the working directory |
| DirectoryHelper.CreateDirectoryFromString | src/main/java/com/kleberrhuan/intuitivecare/util/helpers/DirectoryHelper.java:49-55 | the empty string is an IllegalArgumentException before the file system is touched; any other text is parsed and handed to the Path version |
| ZipManager.WriteEntries | src/main/java/com/kleberrhuan/intuitivecare/util/ZipManager.java:43-46 | the loop only appends entries after those already written, and stops only on an I/O error or a NullPointerException |
| ZipManager.AddFileToZip | src/main/java/com/kleberrhuan/intuitivecare/util/ZipManager.java:75-85 | a missing input is skipped and only a missing one; an existing regular file with an unused name becomes one entry named by its file name holding its content; every other case is an exception after at most one entry |
| ZipManager.WriteArchiveStep | src/main/java/com/kleberrhuan/intuitivecare/util/ZipManager.java:43-46 | writing an archive never changes the directories; it fails only with an I/O error or a NullPointerException |
| ZipManager.ArchivePath | src/main/java/com/kleberrhuan/intuitivecare/util/ZipManager.java:42 | the archive sits directly in the output directory, named by getZipFileName(archiveName) |
| ZipManager.ArchiveFilesStep | src/main/java/com/kleberrhuan/intuitivecare/util/ZipManager.java:39-50 | every failure, whatever its kind, is a ZipException naming the archive path; directories never change |
| ZipManager.CopyFileToZip | src/main/java/com/kleberrhuan/intuitivecare/util/ZipManager.java:107-116 | the 1024-byte buffered copy loop writes out exactly the file's bytes |
| ZipManager.AddFile | src/main/java/com/kleberrhuan/intuitivecare/util/ZipManager.java:75-85 | the live addFileToZip, with the copy loop, gives what AddFileToZip says |
| ZipManager.WriteArchive | src/main/java/com/kleberrhuan/intuitivecare/util/ZipManager.java:43-46 | the live open, add-each-input and close sequence does what WriteArchiveStep says |
| ZipManager.ArchiveFiles | src/main/java/com/kleberrhuan/intuitivecare/util/ZipManager.java:39-50 | the live archiveFiles does what ArchiveFilesStep says |
| ZipManager.ExtractEntryStep | src/main/java/com/kleberrhuan/intuitivecare/util/ZipManager.java:133-140 | directories are never removed; a directory entry that succeeds leaves outputDir/name a directory; a file entry that succeeds leaves outputDir/name a regular file holding exactly the entry's content |
| ZipManager.ExtractZipStep | src/main/java/com/kleberrhuan/intuitivecare/util/ZipManager.java:125-147 | directories are never removed; on success the destination is a directory and every directory entry of the archive is one under it; a failure of the destination step comes back as that step left it; every later failure is the ZipException naming the archive path |
| ZipManager.ExtractEntriesStep | src/main/java/com/kleberrhuan/intuitivecare/util/ZipManager.java:131-141 | the entry loop never removes a directory, and when it succeeds every directory entry is a directory under the destination |
| ZipManager.ExtractEntry | src/main/java/com/kleberrhuan/intuitivecare/util/ZipManager.java:133-141 | the live handling of one entry does what ExtractEntryStep says |
| ZipManager.ExtractZip | src/main/java/com/kleberrhuan/intuitivecare/util/ZipManager.java:125-147 | the live getNextEntry loop does what ExtractZipStep says |
| ZipManager.Present | src/main/java/com/kleberrhuan/intuitivecare/util/ZipManager.java:76-79 | the inputs kept are existing inputs, and every existing input is kept |
| ZipManager.EntriesOf | src/main/java/com/kleberrhuan/intuitivecare/util/ZipManager.java:93-95 | entry i is named by input i's last path name and holds its content |
| ZipManager.WriteEntriesKept | src/main/java/com/kleberrhuan/intuitivecare/util/ZipManager.java:44-46 | for regular inputs with distinct names, the loop appends exactly the existing inputs, in order, as entries, and does not fail |
| ZipManager.WriteArchiveKept | src/main/java/com/kleberrhuan/intuitivecare/util/ZipManager.java:59-64 | the archive, created or truncated, ends up holding exactly those entries, and nothing else changes |
| ZipManager.ArchiveFilesKept | src/main/java/com/kleberrhuan/intuitivecare/util/ZipManager.java:39-50 | archiveFiles succeeds with the archive at outputDir/getZipFileName(name) holding exactly the existing inputs in order |
| ZipManager.ArchiveOfMissingInputs | src/main/java/com/kleberrhuan/intuitivecare/util/ZipManager.java:76-79 | missing inputs are skipped without error; an all-missing or empty list gives an empty archive |
| ZipManager.PlacedFrame | src/main/java/com/kleberrhuan/intuitivecare/util/ZipManager.java:139 | a path no entry is written to keeps its content |
| ZipManager.PlacedHoldsEntries | src/main/java/com/kleberrhuan/intuitivecare/util/ZipManager.java:139 | with distinct names, each entry's path ends up holding that entry's content, replacing what was there |
| ZipManager.ExtractFlat | src/main/java/com/kleberrhuan/intuitivecare/util/ZipManager.java:132-142 | plain-named entries extracted into an existing directory all succeed and are written in stored order |
| ZipManager.ArchiveThenExtract | src/test/java/com/kleberrhuan/intuitivecare/util/ZipManagerTest.java:58-81 | archiving regular files and extracting the archive elsewhere puts every existing input back under its own name with the same content |
| ZipArchiver.ArchiveFilesStep | src/main/java/com/kleberrhuan/intuitivecare/util/ZipArchiver.java:31-42 | a failure of the destination step comes back unwrapped; after it, a failure is either the NullPointerException of the root input or the ZipException naming the archive path, and the ZipException arises exactly when writing the archive raised an IOException |
| ZipArchiver.ArchiveFiles | src/main/java/com/kleberrhuan/intuitivecare/util/ZipArchiver.java:31-42 | the live method does what ArchiveFilesStep says |
| ZipArchiver.DestinationEnsuredFirst | src/main/java/com/kleberrhuan/intuitivecare/util/ZipArchiver.java:34 | the destination is a directory afterwards whatever happens to the archive, unless a file blocks it; then the directory error comes back unwrapped and nothing changes |
| ZipArchiver.RootInputEscapes | src/main/java/com/kleberrhuan/intuitivecare/util/ZipArchiver.java:40-41 | only IOException is wrapped: a NullPointerException escapes as it is here, where ZipManager wraps it |
| ZipArchiver.ArchiveFilesKeptInDirectory | src/main/java/com/kleberrhuan/intuitivecare/util/ZipArchiver.java:35-39 | over an existing destination the archive at destDir/getZipFileName(name) holds exactly the existing inputs, in order |
| ZipArchiver.EmptyListArchive | src/test/java/tests/ZipArchiverTest.java:22-37 | an empty input list gives an archive with zero entries |
| ZipArchiver.ValidAndMissingArchive | src/test/java/tests/ZipArchiverTest.java:81-108 | for [valid, missing] the archive holds one entry, named by the valid file and holding its content |
| FileDownloader.YearLabel | src/main/java/com/kleberrhuan/intuitivecare/service/FileDownloaderService.java:63-64 | removing "/" from a year-folder href gives the digits before the slash, and that label followed by "/" is the href |
| FileDownloader.YearFolderHrefShape | src/main/java/com/kleberrhuan/intuitivecare/service/FileDownloaderService.java:63 | the href test accepts exactly one or more digits followed by a single "/" |
| FileDownloader.DigitsAreYearFolder | src/main/java/com/kleberrhuan/intuitivecare/service/FileDownloaderService.java:63-64 | every non-empty digit string followed by "/" is a year folder whose label is that string |
| FileDownloader.YearFolderHrefExamples | src/main/java/com/kleberrhuan/intuitivecare/service/FileDownloaderService.java:63 | "2023/" matches with label "2023"; "2023", "/", "2023/x/", "../" and "arquivo.zip" do not |
| FileDownloader.YearFolders | src/main/java/com/kleberrhuan/intuitivecare/service/FileDownloaderService.java:56-69 | at most one label per href, each all digits |
| FileDownloader.YearFoldersMembers | src/main/java/com/kleberrhuan/intuitivecare/service/FileDownloaderService.java:61-66 | a label is collected exactly when some href of the page is a year folder with that label |
| FileDownloader.YearFoldersAppend | src/main/java/com/kleberrhuan/intuitivecare/service/FileDownloaderService.java:61-66 | labels are collected in page order: those of a + b are those of a, then those of b |
| FileDownloader.CollectYearFolders | src/main/java/com/kleberrhuan/intuitivecare/service/FileDownloaderService.java:58-68 | the loop that appends to the list gives exactly YearFolders of the page's hrefs |
| FileDownloader.LexLeTotal | src/main/java/com/kleberrhuan/intuitivecare/service/FileDownloaderService.java:40 | String.compareTo relates any two strings one way or the other |
| FileDownloader.LexLeAntisymmetric | src/main/java/com/kleberrhuan/intuitivecare/service/FileDownloaderService.java:40 | two strings each at most the other are equal |
| FileDownloader.LexLeTransitive | src/main/java/com/kleberrhuan/intuitivecare/service/FileDownloaderService.java:40 | the string order is transitive |
| FileDownloader.Insert | src/main/java/com/kleberrhuan/intuitivecare/service/FileDownloaderService.java:40 | inserting adds exactly the one element |
| FileDownloader.InsertDescending | src/main/java/com/kleberrhuan/intuitivecare/service/FileDownloaderService.java:40 | inserting into a descending list keeps it descending |
| FileDownloader.SortDescending | src/main/java/com/kleberrhuan/intuitivecare/service/FileDownloaderService.java:40 | sorting is a permutation of the labels |
| FileDownloader.SortDescendingSorts | src/main/java/com/kleberrhuan/intuitivecare/service/FileDownloaderService.java:40 | the sorted list is in descending string order |
| FileDownloader.DescendingUnique | src/main/java/com/kleberrhuan/intuitivecare/service/FileDownloaderService.java:40 | two descending permutations of the same labels are equal, so any correct sort gives the same list |
| FileDownloader.LatestFolders | src/main/java/com/kleberrhuan/intuitivecare/service/FileDownloaderService.java:40-43 | succeeds exactly when n >= 0, and otherwise gives subList's IllegalArgumentException; on success it gives min(n, count) of the labels, in descending order |
| FileDownloader.LatestAreGreatest | src/main/java/com/kleberrhuan/intuitivecare/service/FileDownloaderService.java:40-43 | no label left out is greater than a label chosen |
| FileDownloader.SortYearsExample | src/main/java/com/kleberrhuan/intuitivecare/service/FileDownloaderService.java:40 | 2021, 2022, 2023 sort to 2023, 2022, 2021 |
| FileDownloader.LatestFoldersExamples | src/main/java/com/kleberrhuan/intuitivecare/service/FileDownloaderService.java:40-43 | for 2021, 2022, 2023: two years give [2023, 2022]; five give all three, newest first; -1 is an error |
| FileDownloader.ProcessLinkStep | src/main/java/com/kleberrhuan/intuitivecare/service/FileDownloaderService.java:88-99 | a FileDownloadException names the href and leaves the file system unchanged; only IOExceptions are logged and no IOException is thrown; directories are never removed |
| FileDownloader.DownloadLinksStep | src/main/java/com/kleberrhuan/intuitivecare/service/FileDownloaderService.java:87-100 | the links of one folder never remove a directory, and no IOException escapes the loop: those are logged |
| FileDownloader.FoldersStep | src/main/java/com/kleberrhuan/intuitivecare/service/FileDownloaderService.java:44-47 | the loop over the chosen folders never removes a directory, and when it succeeds every chosen folder has its directory outputDir/label |
| FileDownloader.DownloadAllZipsStep | src/main/java/com/kleberrhuan/intuitivecare/service/FileDownloaderService.java:80-101 | an unreadable folder page fails before anything is written; a regular file where the output directory should be is an IllegalArgumentException; directories are never removed, and on success the output directory exists |
| FileDownloader.DownloadLatestYearsStep | src/main/java/com/kleberrhuan/intuitivecare/service/FileDownloaderService.java:38-48 | an unreadable base page fails first; a negative count is the subList error, and nothing is written; directories are never removed; on success every chosen year folder has its directory outputDir/label |
| FileDownloader.ProcessLink | src/main/java/com/kleberrhuan/intuitivecare/service/FileDownloaderService.java:88-99 | the live work for one link does what ProcessLinkStep says |
| FileDownloader.DownloadAllZipsInAPath | src/main/java/com/kleberrhuan/intuitivecare/service/FileDownloaderService.java:80-101 | the live method, links in page order, does what DownloadAllZipsStep says |
| FileDownloader.DownloadLatestYears | src/main/java/com/kleberrhuan/intuitivecare/service/FileDownloaderService.java:38-48 | the live method does what DownloadLatestYearsStep says |
| FileDownloader.ZipLinks | src/main/java/com/kleberrhuan/intuitivecare/service/FileDownloaderService.java:89 | the links kept are hrefs of the page ending in ".zip", and every such href is kept |
| FileDownloader.OnlyZipLinksMatter | src/main/java/com/kleberrhuan/intuitivecare/service/FileDownloaderService.java:87-89 | hrefs not ending in ".zip" play no part: the folder behaves as if it listed only its archives |
| FileDownloader.ZipLinksExample | src/main/java/com/kleberrhuan/intuitivecare/service/FileDownloaderService.java:89 | of "a.zip", "b.ZIP" and "c.pdf" only "a.zip" is kept; the test is case-sensitive |
| FileDownloader.LoggedFailureContinues | src/main/java/com/kleberrhuan/intuitivecare/service/FileDownloaderService.java:96-98 | a logged IOException for one link does not stop the links after it |
| FileDownloader.ThrownFailureStops | src/main/java/com/kleberrhuan/intuitivecare/service/FileDownloaderService.java:92-98 | a runtime exception for one link ends the folder with that exception |
| FileDownloader.MalformedUrlIsLogged | src/main/java/com/kleberrhuan/intuitivecare/service/FileDownloaderService.java:94-97 | a malformed file URL is logged and changes nothing |
| FileDownloader.ServedArchiveUnpacked | src/main/java/com/kleberrhuan/intuitivecare/service/FileDownloaderService.java:93-95 | a served archive is saved as dir/href and unpacked next to it, each entry at dir/name with its content |
| FileDownloader.FoldersMakeTheirDirectories | src/main/java/com/kleberrhuan/intuitivecare/service/FileDownloaderService.java:44-47 | when every chosen folder's page is readable and lists no archive, and no regular file stands at outputDir/label, the run succeeds and adds exactly the directories outputDir/label and nothing else |
| PdfProcessing.Flatten | src/main/java/com/kleberrhuan/intuitivecare/service/PdfProcessingService.java:97-99 | every row of the result comes from some page |
| PdfProcessing.FlattenAppend | src/main/java/com/kleberrhuan/intuitivecare/service/PdfProcessingService.java:97-99 | the rows of two runs of pages are the rows of the first run followed by those of the second, so rows come out in page-then-row order |
| PdfProcessing.FlattenPage | src/main/java/com/kleberrhuan/intuitivecare/service/PdfProcessingService.java:97-99 | a single page gives exactly its own rows, in order |
| PdfProcessing.AllCellsBlank | src/main/java/com/kleberrhuan/intuitivecare/service/PdfProcessingService.java:114-116 | a row is all blank exactly when each of its cells is blank, so a row with no cells counts as all blank |
| PdfProcessing.IsDataRow | src/main/java/com/kleberrhuan/intuitivecare/service/PdfProcessingService.java:100 | a row passes the filter exactly when some cell is not blank |
| PdfProcessing.FirstDataRow | src/main/java/com/kleberrhuan/intuitivecare/service/PdfProcessingService.java:100-103 | the first data row is a data row of the input and no row before its position holds data; there is none exactly when no row holds data |
| PdfProcessing.FilterRowsKeeps | src/main/java/com/kleberrhuan/intuitivecare/service/PdfProcessingService.java:97-107 | the rows kept are data rows, an order-preserving subsequence of the input, never a repeat of the header; a row is kept exactly when it is a data row and not the header |
| PdfProcessing.FilterRowsCountsAfterHeader | src/main/java/com/kleberrhuan/intuitivecare/service/PdfProcessingService.java:104-105 | once the header is chosen, each data row other than the header is kept as many times as it occurs, and nothing else is kept |
| PdfProcessing.FilterRowsCounts | src/main/java/com/kleberrhuan/intuitivecare/service/PdfProcessingService.java:97-107 | from the start, the first data row appears once, every other data row as many times as it occurs, and no other row appears |
| PdfProcessing.FilterRowsHeader | src/main/java/com/kleberrhuan/intuitivecare/service/PdfProcessingService.java:100-103 | the output is empty exactly when no data row exists; otherwise row 0 is the first data row and never appears again |
| PdfProcessing.TabularRowsProperties | src/main/java/com/kleberrhuan/intuitivecare/service/PdfProcessingService.java:95-111 | over whole pages: empty and blank rows never reach the output; the output is empty exactly when no data row exists; the header is row 0 and never repeats; the output is a subsequence in page-then-row order; every data row other than the header appears as often as it occurs in the pages, and the header exactly once |
| PdfProcessing.ConfiguredMap | src/main/java/com/kleberrhuan/intuitivecare/config/AppConfig.java:36-39 | the configured pairs give exactly the map {"OD": "Seg. Odontológica", "AMB": "Seg. Ambulatorial"} |
| PdfProcessing.AbbreviateCell | src/main/java/com/kleberrhuan/intuitivecare/service/PdfProcessingService.java:149-155 | a cell changes only when its upper case is a key, and then becomes that key's value |
| PdfProcessing.AbbreviateRow | src/main/java/com/kleberrhuan/intuitivecare/service/PdfProcessingService.java:148-156 | the row keeps its length and each cell is expanded on its own |
| PdfProcessing.AbbreviateRows | src/main/java/com/kleberrhuan/intuitivecare/service/PdfProcessingService.java:147-157 | the row count is kept and each row is expanded on its own |
| PdfProcessing.AbbreviationIgnoresCase | src/main/java/com/kleberrhuan/intuitivecare/service/PdfProcessingService.java:151 | cells with the same upper case become the same text |
| PdfProcessing.AbbreviationExamples | src/main/java/com/kleberrhuan/intuitivecare/service/PdfProcessingService.java:151-153 | with the configured map "od" and "OD" become "Seg. Odontológica" and "Amb" becomes "Seg. Ambulatorial"; "ODONTO" stays |
| PdfProcessing.AbbreviationIdempotent | src/main/java/com/kleberrhuan/intuitivecare/service/PdfProcessingService.java:146-158 | with the configured map, expanding twice is expanding once |
| PdfProcessing.EscapeQuotes | src/main/java/com/kleberrhuan/intuitivecare/service/PdfProcessingService.java:172 | the escaped cell is as long as the cell plus its number of quotes |
| PdfProcessing.EncodeCell | src/main/java/com/kleberrhuan/intuitivecare/service/PdfProcessingService.java:172-173 | the encoded cell is as long as the cell plus its quotes plus two, and starts and ends with a quote |
| PdfProcessing.EncodeCells | src/main/java/com/kleberrhuan/intuitivecare/service/PdfProcessingService.java:171-173 | one encoded cell per cell, in order |
| PdfProcessing.UnescapeEscape | src/main/java/com/kleberrhuan/intuitivecare/service/PdfProcessingService.java:172 | undoubling the quotes gives back the cell |
| PdfProcessing.ParseEscapedCell | src/main/java/com/kleberrhuan/intuitivecare/service/PdfProcessingService.java:172-173 | an escaped cell and its closing quote read back as the cell, with the rest of the text untouched |
| PdfProcessing.ParseLine | src/main/java/com/kleberrhuan/intuitivecare/service/PdfProcessingService.java:171-175 | a line with at least one cell starts with a quote and reads back as the row |
| PdfProcessing.ParseCsvDocument | src/main/java/com/kleberrhuan/intuitivecare/service/PdfProcessingService.java:170-176 | the written text reads back as exactly the rows, one line per row, cell for cell |
| PdfProcessing.CsvLine | src/main/java/com/kleberrhuan/intuitivecare/service/PdfProcessingService.java:171-174 | a line is empty exactly for a row without cells, and otherwise starts and ends with a quote |
| PdfProcessing.CsvDocument | src/main/java/com/kleberrhuan/intuitivecare/service/PdfProcessingService.java:168-177 | the text is empty exactly when there are no rows, and otherwise ends with the line separator |
| PdfProcessing.CsvDocumentAppend | src/main/java/com/kleberrhuan/intuitivecare/service/PdfProcessingService.java:170-176 | the lines follow the rows in order: the text for a + b is the text for a, then the text for b |
| PdfProcessing.WriteCsvText | src/main/java/com/kleberrhuan/intuitivecare/service/PdfProcessingService.java:168-178 | the println loop produces exactly CsvDocument of the rows |
| PdfProcessing.ProcessPdfStep | src/main/java/com/kleberrhuan/intuitivecare/service/PdfProcessingService.java:56-79 | a PdfParseException arises exactly when the PDF is not a readable file, cannot be parsed, or the CSV cannot be written (no parent directory, or the target is a directory); it carries "Erro no processamento do PDF" and leaves the file system as it was; any other failure is the NullPointerException of a root archive path or the ZipException naming the archive path; success returns "Processo concluído com sucesso"; directories never change |
| PdfProcessing.MissingPdfFails | src/test/java/com/kleberrhuan/intuitivecare/service/PdfProcessingServiceTest.java:66-72 | a PDF that does not exist is a PdfParseException, and nothing is written |
| PdfProcessing.ProcessPdfWritesCsvAndArchive | src/main/java/com/kleberrhuan/intuitivecare/service/PdfProcessingService.java:59-74 | a successful run writes the CSV of the filtered, expanded rows and an archive next to zipOutput holding the CSV as its one entry |
| PdfProcessing.PdfProcessingService.constructor | src/main/java/com/kleberrhuan/intuitivecare/service/PdfProcessingService.java:40-45 | the map is built by putting the configured pairs in order, and equals the two-key map |
| PdfProcessing.PdfProcessingService.ExtractTabularData | src/main/java/com/kleberrhuan/intuitivecare/service/PdfProcessingService.java:88-112 | the nested loop, with the header kept in a variable, returns exactly TabularRows of the pages |
| PdfProcessing.NewRowArrays | src/main/java/com/kleberrhuan/intuitivecare/service/PdfProcessingService.java:59 | each extracted row becomes its own new, mutable row holding its cells, with no two rows shared |
| PdfProcessing.RowContents | src/main/java/com/kleberrhuan/intuitivecare/service/PdfProcessingService.java:65 | the rows handed to the CSV writer are the current contents of the mutable rows, in order |
| PdfProcessing.PdfProcessingService.ApplyAbbreviations | src/main/java/com/kleberrhuan/intuitivecare/service/PdfProcessingService.java:146-158 | every row array is rewritten in place to the expansion of its old content; lengths and row count are kept |
| PdfProcessing.PdfProcessingService.ProcessPdf | src/main/java/com/kleberrhuan/intuitivecare/service/PdfProcessingService.java:56-79 | the live pipeline does what ProcessPdfStep says |

## Left out

- HttpDownloader is not part of this model. Its thread pool, futures and lock registry are omitted. Fetching a file URL is a parameter (`Web.downloads`): the file is served, unreachable (FileDownloadException), malformed (MalformedURLException) or an invalid URI (IllegalArgumentException, whose message is the URL rather than the library's text).
- The parallel stream over a folder's links is taken in page order. No claim is made about interleavings.
- Jsoup page fetching, HTML parsing, `abs:href` resolution and selector evaluation are omitted. Pages are given as their anchors or hrefs; a missing page is the IOException.
- PDFBox loading and Tabula table detection are omitted. The rows of each page are an input, and `None` stands for a PDF that fails to load.
- The zip container format and compression are abstract: an archive is its entry list. A plain-bytes file read as an archive yields no entries. An entry is complete once written, because the stream is closed on every path.
- Case mapping is ASCII only. `isBlank` uses the whitespace characters below 128. The line separator is a fixed "\n". Null cells and null arguments are not modelled, except the null parent and file name of the root path.
- FileSystems.WriteFileStep: writing over an existing directory always fails, although `Files.copy` with REPLACE_EXISTING would replace an empty one.
- DirectoryHelper.ParsePath: path texts holding "." or ".." names are excluded by a precondition.
- ZipManager.ArchivePath: archive names containing "/" are excluded by a precondition.
- PdfProcessing.ProcessPdfStep: paths are resolved against the working directory, so a bare relative zipOutput such as "out.zip" has that directory as its parent. In Java its getParent() is null, and `outputDir.resolve` throws a NullPointerException outside the try, which escapes processPdf. The model archives into the working directory instead; its NullPointerException clause covers only the root path.
- DirectoryHelper.CreateDirectoryFromString: returns the path resolved against the working directory, where Java returns the relative `Paths.get(text)` as given.
- DirectoryHelper.NotADirectoryMessage: prints the resolved, absolute path text. Java prints the path as the caller gave it, which is relative for the configured output directory "output".
- ZipManager.ArchiveFilesStep: its ZipException message prints the resolved, absolute archive path; Java prints the path as given.
- ZipManager.ExtractZipStep: its ZipException message prints the resolved, absolute archive path; Java prints the path as given.
- ZipArchiver.ArchiveFilesStep: its ZipException message prints the resolved, absolute archive path; Java prints the path as given.
- Scrapper.DownloadFiles: the IllegalArgumentException's message is Jsoup's text for an empty query. The CLI's scraping step always requests two files, so it never builds the empty query.
- The Bean Validation annotations (`@NotBlank`, `@NotNull`) are not modelled. The code never runs a validator, so they do not change what it does.
- Archive and extraction paths are assumed safe: every entry name is relative, without "." or "..".
- ZipManager.CopyFileToZip: the read size is min(1024, remaining). A real `read` may return fewer bytes; the copy is exact either way.
- PdfProcessing.PdfProcessingService.ApplyAbbreviations: requires the row arrays to be distinct. The Java lists come from separate `add` calls.
- PdfProcessing.Utf8: the platform charset is taken as UTF-8. Only its length bound is stated.
- ZipArchiver.java uses DirectoryHelper without importing it. The class is modelled as evidently intended, with the import present.
- In processPdf, an archiving failure reaches the caller as ZipManager's ZipException, not as a PdfParseException. The archiver wraps its own IOExceptions, and ZipException is not an IOException. The model follows the code here.
- Console, CLI menus, logging and the remaining AppConfig constants are omitted. The CLI's fallback to 2 years for a count of 0 or less happens before the service is called; the service's own negative-count error is modelled.
