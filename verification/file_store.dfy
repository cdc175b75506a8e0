/**
 * The part of the file system the upload writes to: one entry per canonical
 * absolute path, holding that file's bytes. Directories, permissions and
 * symbolic links are not represented; whether an operation fails is decided
 * by the caller through a WriteFault.
 */
module FileStore {
  import opened Wrappers
  import opened UploadPipeline

  class Disk {
    var files: map<string, seq<byte>>

    constructor (initial: map<string, seq<byte>>)
      ensures files == initial
    {
      files := initial;
    }

    /**
     * new FileStream(path, FileMode.Create, FileAccess.Write, FileShare.None)
     * followed by copying `data` into it. Opening creates the entry or
     * truncates an existing one; `fault` says whether the open or the copy
     * raises, and the raised exception is returned.
     */
    method CreateAndCopy(path: string, data: seq<byte>, fault: Option<WriteFault>)
      returns (error: Option<Exception>)
      modifies this
      ensures files == AfterWrite(old(files), path, data, fault)
      ensures error.None? <==> fault.None?
      ensures fault.Some? ==> error == Some(fault.value.error)
    {
      if fault.Some? && fault.value.OpenFailed? {
        error := Some(fault.value.error);
        return;
      }
      files := files[path := []];
      match fault
      case None =>
        files := files[path := data];
        error := None;
      case Some(f) =>
        files := files[path := data[..Min(f.written, |data|)]];
        error := Some(f.error);
    }
  }
}
