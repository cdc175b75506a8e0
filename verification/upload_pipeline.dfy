/**
 * The decision logic of MediaUploadController.UploadFile as pure functions:
 *
 *   Prepare    -- the guard chain up to the containment check: either a final
 *                 outcome (Stop) or the canonical target to write (Save)
 *   AfterWrite -- what the truncate-or-create write does to the file system
 *   Finish     -- the outcome once the write has (or has not) raised
 *   ToResponse -- the HTTP status and message of each outcome
 *
 * The controller method in module Controller is proved against these.
 */
module UploadPipeline {
  import opened Wrappers
  import opened UnixPath

  newtype byte = x: int | 0 <= x < 256

  /** The exception classes the controller's catch clauses tell apart. */
  datatype Exception =
    | IOError(message: string)        // System.IO.IOException and subclasses
    | AccessDenied(message: string)   // System.UnauthorizedAccessException
    | OtherError(message: string)     // any other exception

  /** The uploaded form file: its declared length and the bytes its stream yields. */
  datatype FormFile = FormFile(fileName: string, length: int, content: seq<byte>)

  /** What the injected IFileSystem.GetValidFilename does with a name. */
  datatype SanitizerResult = Returned(name: string) | Raised(error: Exception)

  type Sanitizer = string -> SanitizerResult

  /** How the FileStream write can fail. */
  datatype WriteFault =
    | OpenFailed(error: Exception)                // new FileStream(..., FileMode.Create, ...) raised
    | CopyFailed(error: Exception, written: nat)  // the file was opened, then the copy raised after `written` bytes

  /** Exactly one of these ends every call. */
  datatype Outcome =
    | ConfigMissing
    | FileInvalid
    | PathInvalid
    | SaveFailed(message: string)        // inner catch around the write
    | IOFailure(message: string)         // outer catch (IOException)
    | PermissionDenied(message: string)  // outer catch (UnauthorizedAccessException)
    | Unexpected(message: string)        // outer catch (Exception)
    | Uploaded(safeFileName: string)

  datatype Response = Response(status: int, body: string)

  /** The controller's decision before any byte is written. */
  datatype Plan =
    | Stop(outcome: Outcome)
    | Save(target: string, safeFileName: string, content: seq<byte>)

  /** The runtime's message for a path with a NUL character in it. */
  const NullCharInPath: string := "Null character in path. (Parameter 'path')"

  /** The outer catch clauses, tried in order. */
  function Caught(e: Exception): (o: Outcome)
    ensures o.IOFailure? || o.PermissionDenied? || o.Unexpected?
    ensures o.IOFailure? <==> e.IOError?
    ensures o.PermissionDenied? <==> e.AccessDenied?
    ensures o.message == e.message
  {
    match e
    case IOError(m) => IOFailure(m)
    case AccessDenied(m) => PermissionDenied(m)
    case OtherError(m) => Unexpected(m)
  }

  /**
   * The path stage: combine the root with the sanitized name, canonicalise
   * both (GetFullPath raises on a NUL character) and compare them.
   */
  function CheckTarget(root: string, safeFileName: string, content: seq<byte>, cwd: AbsPath): (plan: Plan)
    requires root != []
  {
    var fullTargetPath := Combine(root, safeFileName);
    match FullPath(root, cwd)
    case None => Stop(Unexpected(NullCharInPath))
    case Some(fullTargetDirectory) =>
      match FullPath(fullTargetPath, cwd)
      case None => Stop(Unexpected(NullCharInPath))
      case Some(resolved) =>
        if !StartsWithIgnoreCase(resolved, fullTargetDirectory) then Stop(PathInvalid)
        else Save(resolved, safeFileName, content)
  }

  /**
   * The guard chain: configuration, then the file, then the target path.
   * `configuredPath` is Plugin.Instance?.Configuration.UploadPath (None when
   * either is null), `sanitize` is IFileSystem.GetValidFilename and `cwd` the
   * process's current directory, against which a relative root is resolved.
   */
  function Prepare(configuredPath: Option<string>, file: Option<FormFile>,
                   sanitize: Sanitizer, cwd: AbsPath): (plan: Plan)
  {
    if configuredPath.None? || configuredPath.value == [] then Stop(ConfigMissing)
    else if file.None? || file.value.length == 0 then Stop(FileInvalid)
    else
      match sanitize(FileName(file.value.fileName))
      case Raised(e) => Stop(Caught(e))
      case Returned(safeFileName) => CheckTarget(configuredPath.value, safeFileName, file.value.content, cwd)
  }

  function Min(a: nat, b: nat): (m: nat) {
    if a <= b then a else b
  }

  /**
   * The file system after the write to `path`: FileMode.Create truncates or
   * creates the entry once it is open, and a failed copy leaves whatever
   * prefix of the data reached the file.
   */
  function AfterWrite(files: map<string, seq<byte>>, path: string, data: seq<byte>,
                      fault: Option<WriteFault>): (after: map<string, seq<byte>>)
  {
    match fault
    case None => files[path := data]
    case Some(OpenFailed(_)) => files
    case Some(CopyFailed(_, n)) => files[path := data[..Min(n, |data|)]]
  }

  /** The file system after a whole call. */
  function Effect(files: map<string, seq<byte>>, plan: Plan, fault: Option<WriteFault>): (after: map<string, seq<byte>>)
  {
    match plan
    case Stop(_) => files
    case Save(target, _, content) => AfterWrite(files, target, content, fault)
  }

  /** The outcome of a whole call; the inner catch turns every write fault into SaveFailed. */
  function Finish(plan: Plan, fault: Option<WriteFault>): (o: Outcome) {
    match plan
    case Stop(o) => o
    case Save(_, safeFileName, _) =>
      match fault
      case None => Uploaded(safeFileName)
      case Some(f) => SaveFailed(f.error.message)
  }

  /** Status code and message of each outcome. */
  function ToResponse(o: Outcome): (r: Response)
    ensures r.status == 200 <==> o.Uploaded?
    ensures r.status == 400 <==> o.FileInvalid?
    ensures r.status == 403 <==> o.PermissionDenied?
    ensures r.status == 500 <==> !(o.Uploaded? || o.FileInvalid? || o.PermissionDenied?)
  {
    match o
    case ConfigMissing => Response(500, "Upload path is not configured in plugin settings.")
    case FileInvalid => Response(400, "No file uploaded or file is empty.")
    case PathInvalid => Response(500, "Invalid target path.")
    case SaveFailed(m) => Response(500, "Error saving file: " + m)
    case IOFailure(m) => Response(500, "IO Error: " + m)
    case PermissionDenied(m) => Response(403, "Permission denied: " + m)
    case Unexpected(m) => Response(500, "Unexpected error uploading file: " + m)
    case Uploaded(name) => Response(200, "File " + name + " uploaded successfully.")
  }

  /** The response of a whole call. */
  function Respond(configuredPath: Option<string>, file: Option<FormFile>, sanitize: Sanitizer,
                   cwd: AbsPath, fault: Option<WriteFault>): (r: Response)
  {
    ToResponse(Finish(Prepare(configuredPath, file, sanitize, cwd), fault))
  }
}
