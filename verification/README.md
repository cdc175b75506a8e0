# MediaUploader upload endpoint, modelled in Dafny

This project models the upload endpoint of the Jellyfin MediaUploader plugin,
`MediaUploadController.UploadFile`. The endpoint takes one multipart file and
checks three things in order:

1. the plugin's configured upload path;
2. the file;
3. the target path. The caller's name is cut to its last segment, passed
   through the server's filename sanitizer, combined with the upload
   directory and canonicalised. The result must start with the canonical
   upload directory under `StringComparison.OrdinalIgnoreCase`, which ignores
   case for every character. The model folds ASCII letters only; see
   "Left out".

It then writes the bytes with `FileMode.Create`, which truncates or creates
the file. Every outcome is answered with an HTTP status and a message.

The model has five modules:

- `UnixPath` models the .NET path helpers the endpoint calls, with Unix
  semantics:
  - `Path.GetFileName`
  - `Path.Combine`
  - `Path.GetFullPath`, purely lexical, raising on a NUL character
  - `string.StartsWith(_, StringComparison.OrdinalIgnoreCase)`
- `UploadPipeline` holds the endpoint's decisions as pure functions:
  - `Prepare`, the guard chain up to the containment check;
  - `AfterWrite` and `Effect`, what the write does to the files;
  - `Finish`, the outcome once the write has or has not raised;
  - `ToResponse`, the status and message of each outcome.
- `FileStore` is a `Disk` class holding a `map` from canonical path to bytes.
  Its `CreateAndCopy` method is the truncate-or-create write.
- `Controller` is the `MediaUploadController` class. Its `UploadFile` method
  runs the plan, calls `Disk.CreateAndCopy`, and is proved to give exactly
  the response of `Respond` and the file system of `Effect`.
- `UploadProperties` holds the properties of the endpoint, all proved, and
  restates the test suite's scenarios. The tests use upload directories named
  `Path.Combine(Path.GetTempPath(), "mediauploader_tests_...")`
  (MediaUploadControllerTests.cs:227, :282, :339, :373). In the scenario
  lemmas, the fixed directory `/tmp/up` stands in for them. Like those
  directories, it is absolute and has no "." or ".." segment
  (`UnixPath.CanonicalOfRender`).

Several inputs are read at call time and become parameters of `UploadFile`:

- the plugin configuration (`Plugin.Instance?.Configuration.UploadPath`, `None` when either is null);
- the process's current directory, against which a relative upload path is resolved (reading it is assumed to succeed; see "Left out");
- whether opening or copying the stream raises, and with what exception: a `WriteFault`.

The injected `IFileSystem.GetValidFilename` is a field of the controller. It
is an arbitrary function that either returns a name or raises.

### Where the code departs from its tests and its own comments

The model follows the code as written. The points below are where the code
and the tests disagree, or where the code does less than its comments say:

- **Write failures answer 500, never 403.** The inner `catch (Exception)`
  around the write (MediaUploadController.cs:121-127) answers 500
  `Error saving file: {message}` for every failure, `UnauthorizedAccessException`
  included. The permission test expects 403 `Permission denied: Permission denied`
  (MediaUploadControllerTests.cs:402-405). The I/O test expects a message
  starting `Error saving file ioexception.txt.` (MediaUploadControllerTests.cs:364).
  The model answers what the code answers: see `WriteFaultIsSaveError`,
  `WriteDeniedAnswers500` and `WriteIOErrorAnswers500`. In the model, a 403
  comes only from the sanitizer raising `UnauthorizedAccessException`
  (`ForbiddenOnlyBeforeWrite`). The model assumes that reading the current
  directory never fails; see "Left out" for what the code answers when it does.
- **The containment check is a character prefix, not a directory prefix.**
  The comment at MediaUploadController.cs:99 says the check ensures that the
  resolved path lies within the configured directory. The check at :100 only
  compares characters. Take upload directory `/tmp/up` and a sanitizer that answers `../upload2.txt`.
  The target canonicalises to `/tmp/upload2.txt`, which starts with `/tmp/up`,
  so the file is written outside the upload directory
  (`SiblingWithRootPrefixAccepted`). A sanitizer that returns names without
  '/' cannot escape (`SlashFreeNameStaysInRoot`). An empty sanitizer output
  passes the check and addresses the upload directory itself
  (`EmptyOutputWritesRoot`).
- **Only a null or empty upload path counts as unconfigured.** A
  whitespace-only path passes the configuration check (`OnlyEmptyPathIsMissing`).
- **Which path is written.** The code opens `fullTargetPath`, the
  uncanonicalised combination. The model keys the file by its canonical
  form, which is the same file on a file system without symbolic links.

## Model

| member | source | states |
|---|---|---|
| UnixPath.FileName | Jellyfin.Plugin.MediaUploader/MediaUploadController.cs:94 | the extracted file name never contains a separator |
| UnixPath.FileNameIsLastSegment | Jellyfin.Plugin.MediaUploader/MediaUploadController.cs:94 | the file name is the suffix of the caller's name after its last '/', and the character before it, if any, is '/' |
| UnixPath.FileNameOfPlainName | Jellyfin.Plugin.MediaUploader/MediaUploadController.cs:94 | a name without '/' is passed on unchanged |
| UnixPath.FileNameDropsDirectories | Jellyfin.Plugin.MediaUploader/MediaUploadController.cs:94 | whatever directories precede the last '/' never reach the sanitizer |
| UnixPath.Combine | Jellyfin.Plugin.MediaUploader/MediaUploadController.cs:96 | an empty side yields the other, a rooted sanitizer output replaces the directory, and the result is rooted iff either side is |
| UnixPath.CombineExtends | Jellyfin.Plugin.MediaUploader/MediaUploadController.cs:96 | a relative name is appended: the combination starts with the directory and ends with the name |
| UnixPath.CombineNulFree | Jellyfin.Plugin.MediaUploader/MediaUploadController.cs:96-100 | combining NUL-free paths gives a NUL-free path, so GetFullPath of the target does not raise |
| UnixPath.Absolute | Jellyfin.Plugin.MediaUploader/MediaUploadController.cs:97 | GetFullPath first makes a path absolute: the result is rooted, and a rooted path is left as it is |
| UnixPath.AbsoluteRelative | Jellyfin.Plugin.MediaUploader/MediaUploadController.cs:97 | a relative path is resolved against the current directory: its absolute form starts with that directory and ends with the path |
| UnixPath.Canonical | Jellyfin.Plugin.MediaUploader/MediaUploadController.cs:97 | every full path is rooted |
| UnixPath.FullPath | Jellyfin.Plugin.MediaUploader/MediaUploadController.cs:97-100 | GetFullPath with its NUL check: a NUL in the path raises (`NulInRootIsUnexpected`, `NulInNameIsUnexpected`); otherwise the result is `Canonical` of the path, and combining NUL-free paths never raises (`CombineNulFree`) |
| UnixPath.SplitJoin | Jellyfin.Plugin.MediaUploader/MediaUploadController.cs:97 | splitting at '/' undoes joining separator-free segments |
| UnixPath.SegmentsAreNames | Jellyfin.Plugin.MediaUploader/MediaUploadController.cs:97 | after resolution no segment is empty, ".", "..", or contains '/' |
| UnixPath.SegmentsOfRender | Jellyfin.Plugin.MediaUploader/MediaUploadController.cs:97 | resolving a canonical path gives back exactly the segments it was rendered from |
| UnixPath.CanonicalOfRender | Jellyfin.Plugin.MediaUploader/MediaUploadController.cs:97 | an absolute path whose segments are all names, with or without a trailing '/', is its own full path |
| UnixPath.CanonicalIdempotent | Jellyfin.Plugin.MediaUploader/MediaUploadController.cs:97-100 | GetFullPath of a full path is that path |
| UnixPath.AbsoluteCombine | Jellyfin.Plugin.MediaUploader/MediaUploadController.cs:96-100 | making absolute commutes with appending a relative name |
| UnixPath.SegmentsCombine | Jellyfin.Plugin.MediaUploader/MediaUploadController.cs:96-100 | the target's segments are the directory's resolved segments with the name's segments resolved on top |
| UnixPath.CanonicalAppendName | Jellyfin.Plugin.MediaUploader/MediaUploadController.cs:96-100 | the full path of directory + plain name is the directory's full path + that name |
| UnixPath.CanonicalAppendDots | Jellyfin.Plugin.MediaUploader/MediaUploadController.cs:96-100 | a sanitizer output of "." or ".." passes the prefix check only when it resolves to the directory itself |
| UnixPath.CanonicalParentThenName | Jellyfin.Plugin.MediaUploader/MediaUploadController.cs:96-100 | "../" + name resolves to a sibling: the directory's last segment is replaced by the name |
| UnixPath.StartsWithIgnoreCase | Jellyfin.Plugin.MediaUploader/MediaUploadController.cs:100 | the OrdinalIgnoreCase prefix test: reflexive (`StartsWithSelf`), passed by every exact prefix (`StartsWithExactPrefix`), and character-wise rather than segment-wise, so the sibling /tmp/upload2.txt passes against /tmp/up (`SiblingWithRootPrefixAccepted`) |
| UnixPath.StartsWithSelf | Jellyfin.Plugin.MediaUploader/MediaUploadController.cs:100 | a full path passes the OrdinalIgnoreCase prefix check against itself |
| UnixPath.StartsWithExactPrefix | Jellyfin.Plugin.MediaUploader/MediaUploadController.cs:100 | a path passes the OrdinalIgnoreCase prefix check against any of its exact prefixes |
| UploadPipeline.Prepare | Jellyfin.Plugin.MediaUploader/MediaUploadController.cs:71-108 | the guard chain: configuration first (`ConfigCheckedFirst`, `OnlyEmptyPathIsMissing`), then the file (`MissingOrEmptyFileRejected`), then only the last segment of the name reaches the sanitizer (`OnlyLastSegmentMatters`, `DirectoriesInNameIgnored`), and a write is planned only under the prefix check (`ContainmentDecides`, `WriteOnlyUnderRoot`) |
| UploadPipeline.CheckTarget | Jellyfin.Plugin.MediaUploader/MediaUploadController.cs:96-108 | the path stage: a NUL in either path is an unexpected error (`NulInRootIsUnexpected`, `NulInNameIsUnexpected`); otherwise the prefix check decides between writing the full target path and "Invalid target path." (`ContainmentDecides`) |
| UploadPipeline.AfterWrite | Jellyfin.Plugin.MediaUploader/MediaUploadController.cs:115-118 | the truncate-or-create write touches only its target: success stores exactly the data, a failed open changes nothing, a failed copy leaves a prefix (`AfterWriteFrame`) |
| UploadPipeline.Finish | Jellyfin.Plugin.MediaUploader/MediaUploadController.cs:112-150 | after a planned write, no fault means success with the sanitized name (`SuccessStoresUpload`) and every fault is a save error carrying its message (`WriteFaultIsSaveError`) |
| UploadPipeline.Caught | Jellyfin.Plugin.MediaUploader/MediaUploadController.cs:152-166 | the outer catch clauses: only UnauthorizedAccessException becomes PermissionDenied, IOException becomes IOFailure, anything else Unexpected, and the message is kept |
| UploadPipeline.ToResponse | Jellyfin.Plugin.MediaUploader/MediaUploadController.cs:72-165 | 200 exactly for success, 400 exactly for a missing or empty file, 403 exactly for a permission error caught outside the write, 500 for everything else |
| FileStore.Disk.constructor | Jellyfin.Plugin.MediaUploader/MediaUploadController.cs:115 | a disk starts with the given files |
| FileStore.Disk.CreateAndCopy | Jellyfin.Plugin.MediaUploader/MediaUploadController.cs:115-118 | a failed open changes nothing; otherwise the entry is created or truncated and receives the data, or the prefix copied before a fault; the exception is returned iff one was raised |
| Controller.MediaUploadController.constructor | Jellyfin.Plugin.MediaUploader/MediaUploadController.cs:42-52 | the controller keeps the injected sanitizer |
| Controller.MediaUploadController.UploadFile | Jellyfin.Plugin.MediaUploader/MediaUploadController.cs:66-167 | the response is that of the guard chain, write and catch clauses, and the files change exactly as that plan's write dictates |
| UploadProperties.AfterWriteFrame | Jellyfin.Plugin.MediaUploader/MediaUploadController.cs:115-118 | the write touches only its target: success stores exactly the data, a failed open changes nothing, a failed copy leaves a prefix |
| UploadProperties.ConfigCheckedFirst | Jellyfin.Plugin.MediaUploader/MediaUploadController.cs:71-76 | a null or empty upload path gives 500 "Upload path is not configured in plugin settings." whatever the file, and nothing is written |
| UploadProperties.OnlyEmptyPathIsMissing | Jellyfin.Plugin.MediaUploader/MediaUploadController.cs:72 | any non-empty upload path, whitespace included, passes the configuration check |
| UploadProperties.MissingOrEmptyFileRejected | Jellyfin.Plugin.MediaUploader/MediaUploadController.cs:85-89 | with a configured path, a missing or zero-length file gives 400 "No file uploaded or file is empty." without consulting the sanitizer, and nothing is written |
| UploadProperties.OnlyLastSegmentMatters | Jellyfin.Plugin.MediaUploader/MediaUploadController.cs:94-95 | two uploads whose names share their last segment are handled identically |
| UploadProperties.DirectoriesInNameIgnored | Jellyfin.Plugin.MediaUploader/MediaUploadController.cs:94 | prefixing the caller's name with directories, "../" or an absolute path changes nothing |
| UploadProperties.WriteOnlyUnderRoot | Jellyfin.Plugin.MediaUploader/MediaUploadController.cs:94-118 | every write goes to the full path of directory + sanitizer output, with the uploaded bytes, and only when that path starts, ignoring case, with the directory's full path |
| UploadProperties.ContainmentDecides | Jellyfin.Plugin.MediaUploader/MediaUploadController.cs:96-108 | for NUL-free inputs the target is written iff its full path passes the prefix check; otherwise the answer is "Invalid target path." |
| UploadProperties.SlashFreeNameStaysInRoot | Jellyfin.Plugin.MediaUploader/MediaUploadController.cs:95-108 | a sanitizer output without '/' that is a name lands directly below the directory's full path; "" addresses the directory itself; "." or ".." addresses the directory itself or is rejected |
| UploadProperties.EmptyOutputWritesRoot | Jellyfin.Plugin.MediaUploader/MediaUploadController.cs:96-100 | an empty sanitizer output passes the prefix check, and the write goes to the directory's own full path |
| UploadProperties.SuccessStoresUpload | Jellyfin.Plugin.MediaUploader/MediaUploadController.cs:115-150 | a write that raises nothing answers 200 "File {name} uploaded successfully." and the target holds exactly the upload; every other file is unchanged |
| UploadProperties.WriteFaultIsSaveError | Jellyfin.Plugin.MediaUploader/MediaUploadController.cs:121-127 | every write failure, permission errors included, answers 500 "Error saving file: {message}" |
| UploadProperties.ForbiddenOnlyBeforeWrite | Jellyfin.Plugin.MediaUploader/MediaUploadController.cs:157-161 | a 403 comes only from the sanitizer raising UnauthorizedAccessException, and nothing is written then |
| UploadProperties.RootedPathIgnoresCwd | Jellyfin.Plugin.MediaUploader/MediaUploadController.cs:96-100 | under a rooted upload path the plan does not depend on the process's current directory, which GetFullPath reads only for a relative path |
| UploadProperties.SanitizerExceptionMapped | Jellyfin.Plugin.MediaUploader/MediaUploadController.cs:152-166 | an exception from the sanitizer is answered by the outer catch clauses in their order, with its message, and nothing is written |
| UploadProperties.NulInNameIsUnexpected | Jellyfin.Plugin.MediaUploader/MediaUploadController.cs:100 | a NUL in the sanitizer output makes GetFullPath of the target raise, answered 500 "Unexpected error uploading file: " plus the runtime's message, and nothing is written |
| UploadProperties.NulInRootIsUnexpected | Jellyfin.Plugin.MediaUploader/MediaUploadController.cs:97 | a NUL in the upload path makes GetFullPath raise, answered as an unexpected error |
| UploadProperties.TmpUpIsCanonical | Jellyfin.Plugin.MediaUploader.Tests/MediaUploadControllerTests.cs:282 | /tmp/up, standing in for the tests' upload directory, resolves to the segments tmp and up and is its own full path |
| UploadProperties.TmpUpParentThen | Jellyfin.Plugin.MediaUploader.Tests/MediaUploadControllerTests.cs:306-307 | "../" + name below /tmp/up resolves outside it, to /tmp/name |
| UploadProperties.PlainNameBelowRoot | Jellyfin.Plugin.MediaUploader/MediaUploadController.cs:94-108 | below a canonical directory, a plain name the sanitizer keeps is written to directory + "/" + name |
| UploadProperties.TmpUpPlainName | Jellyfin.Plugin.MediaUploader.Tests/MediaUploadControllerTests.cs:237-238 | below /tmp/up, a plain name the sanitizer keeps is written to /tmp/up/name |
| UploadProperties.TmpUpParentPlan | Jellyfin.Plugin.MediaUploader.Tests/MediaUploadControllerTests.cs:306-315 | below /tmp/up, the output "../" + name is checked as /tmp/name |
| UploadProperties.TraversalRejected | Jellyfin.Plugin.MediaUploader.Tests/MediaUploadControllerTests.cs:309-326 | the output "../attempt_traversal.txt" answers 500 "Invalid target path." and nothing is written |
| UploadProperties.SiblingWithRootPrefixAccepted | Jellyfin.Plugin.MediaUploader/MediaUploadController.cs:100 | below /tmp/up the output "../upload2.txt" passes the check and is written to /tmp/upload2.txt, outside the directory |
| UploadProperties.ValidUploadStored | Jellyfin.Plugin.MediaUploader.Tests/MediaUploadControllerTests.cs:236-267 | "test video.mp4" answers 200 "File test video.mp4 uploaded successfully." and is stored at /tmp/up/test video.mp4 |
| UploadProperties.WriteDeniedAnswers500 | Jellyfin.Plugin.MediaUploader.Tests/MediaUploadControllerTests.cs:380-405 | UnauthorizedAccessException from the copy answers 500 "Error saving file: {message}", not the 403 the test expects |
| UploadProperties.WriteIOErrorAnswers500 | Jellyfin.Plugin.MediaUploader.Tests/MediaUploadControllerTests.cs:346-364 | IOException from the copy answers 500 "Error saving file: {message}", not the message the test expects |

## Left out

- Logging (every `_logger` call) has no effect on the outcome and is not modelled.
- Asynchrony and `FileShare.None` are not modelled: the stream copy is one atomic step, and concurrent uploads to the same target are not represented.
- `GetUploadPage` (MediaUploadController.cs:169-205) serves a static page and is not part of this model.
- The library scan after the write is commented out in the source and so does nothing.
- The request size limits (`RequestSizeLimit`, `RequestFormLimits`) are enforced by the web host before the endpoint runs.
- The model takes a file's declared `Length` and its bytes as separate inputs; only `Length` is checked, as in the code.
- `IFileSystem.GetValidFilename` is an arbitrary function that returns a name or raises. What Jellyfin's implementation replaces is not modelled, and a null return is not represented.
- A null `IFormFile.FileName` is not represented.
- Windows path semantics are not modelled: backslashes, drive letters, UNC paths and case-insensitive file systems.
- Symbolic links are not modelled: GetFullPath is lexical, as it is in .NET.
- Directories, permissions and free space are not modelled. Whether opening or copying raises, and with which exception, is an input.
- `UnixPath.ToUpperAscii` upper-cases only ASCII letters. OrdinalIgnoreCase's folding of other characters is not modelled.
- `UnixPath.Canonical` requires a non-empty path. The runtime raises on an empty path, and the controller never passes one, because it rejects an empty upload path and combining with it never yields an empty string.
- `UploadProperties.ForbiddenOnlyBeforeWrite`: the model assumes that reading the process's current directory never fails. For a relative upload path, `Path.GetFullPath` at MediaUploadController.cs:97 and :100 reads it first. If the directory has been removed, that read raises an `IOException`, answered 500 "IO Error: {message}" (:152-156). If access is denied, it raises `UnauthorizedAccessException`, answered 403 "Permission denied: {message}" (:157-161). Nothing is written in either case. So a 403 before the write can also come from this read, and neither this lemma, `UploadProperties.ContainmentDecides` nor the other relative-path properties cover that path. Under a rooted upload path the directory is never read (`UploadProperties.RootedPathIgnoresCwd`).
- `UploadPipeline.NullCharInPath` is the wording of the runtime's NUL-character message. Other runtime messages come in through the exception values.
- `Plugin.cs` and `PluginConfiguration.cs` are host glue. The configuration reduces to the optional upload path.
