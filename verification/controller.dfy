/**
 * MediaUploadController: the upload endpoint. The injected file-system
 * service contributes only its filename sanitizer; the plugin configuration,
 * the process's current directory and whether the write raises are read at
 * call time and so are parameters of UploadFile.
 */
module Controller {
  import opened Wrappers
  import opened UnixPath
  import opened UploadPipeline
  import opened FileStore

  class MediaUploadController {
    /** IFileSystem.GetValidFilename of the injected file-system service. */
    const fileSystem: Sanitizer

    constructor (fileSystem: Sanitizer)
      ensures this.fileSystem == fileSystem
    {
      this.fileSystem := fileSystem;
    }

    /**
     * POST Upload: runs the guard chain, writes the upload when the target
     * passes the containment check, and answers with one response.
     */
    method UploadFile(file: Option<FormFile>, configuredPath: Option<string>, cwd: AbsPath,
                      disk: Disk, fault: Option<WriteFault>)
      returns (response: Response)
      modifies disk
      ensures response == Respond(configuredPath, file, fileSystem, cwd, fault)
      ensures disk.files == Effect(old(disk.files), Prepare(configuredPath, file, fileSystem, cwd), fault)
    {
      var plan := Prepare(configuredPath, file, fileSystem, cwd);
      match plan
      case Stop(outcome) =>
        response := ToResponse(outcome);
      case Save(fullTargetPath, safeFileName, content) =>
        var error := disk.CreateAndCopy(fullTargetPath, content, fault);
        match error
        case Some(e) =>
          response := ToResponse(SaveFailed(e.message));
        case None =>
          response := ToResponse(Uploaded(safeFileName));
    }
  }
}
