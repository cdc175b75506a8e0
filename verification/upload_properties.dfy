/**
 * What UploadFile guarantees, stated over the pure model in UploadPipeline:
 * the order of the guards, which name reaches the sanitizer, the containment
 * of every write, the status of every failure, and the concrete scenarios of
 * the controller's test suite.
 */
module UploadProperties {
  import opened Wrappers
  import opened UnixPath
  import opened UploadPipeline

  predicate Configured(configuredPath: Option<string>) {
    configuredPath.Some? && configuredPath.value != []
  }

  predicate NonEmptyFile(file: Option<FormFile>) {
    file.Some? && file.value.length != 0
  }

  /** Past the first two guards, a returned name leads straight to the path stage. */
  lemma PrepareReachesCheck(root: string, file: FormFile, sanitize: Sanitizer, cwd: AbsPath, name: string)
    requires root != [] && file.length != 0
    requires sanitize(FileName(file.fileName)) == Returned(name)
    ensures Prepare(Some(root), Some(file), sanitize, cwd) == CheckTarget(root, name, file.content, cwd)
  {
    var original := FileName(file.fileName);
    assert sanitize(original).Returned?;
  }

  /** Past the first two guards, an exception from the sanitizer goes to the outer catch clauses. */
  lemma PrepareRaised(root: string, file: FormFile, sanitize: Sanitizer, cwd: AbsPath, e: Exception)
    requires root != [] && file.length != 0
    requires sanitize(FileName(file.fileName)) == Raised(e)
    ensures Prepare(Some(root), Some(file), sanitize, cwd) == Stop(Caught(e))
  {
    var original := FileName(file.fileName);
    assert sanitize(original).Raised?;
  }

  // ---------------------------------------------------------------------------
  // The file-system effect of one write
  // ---------------------------------------------------------------------------

  /**
   * The write touches only its own path: on success it holds exactly the
   * data, a failed open changes nothing, and a failed copy leaves a prefix.
   */
  lemma AfterWriteFrame(files: map<string, seq<byte>>, path: string, data: seq<byte>,
                        fault: Option<WriteFault>)
    ensures var after := AfterWrite(files, path, data, fault);
            forall p :: p != path ==> (p in after <==> p in files) && (p in files ==> after[p] == files[p])
    ensures var after := AfterWrite(files, path, data, fault);
            fault.None? ==> path in after && after[path] == data
    ensures fault.Some? && fault.value.OpenFailed? ==> AfterWrite(files, path, data, fault) == files
    ensures var after := AfterWrite(files, path, data, fault);
            fault.Some? && fault.value.CopyFailed? ==>
              path in after && |after[path]| <= |data| && after[path] == data[..|after[path]|]
  {
  }

  // ---------------------------------------------------------------------------
  // Configuration first, then the file
  // ---------------------------------------------------------------------------

  /** A null or empty upload path ends the call before anything else is looked at. */
  lemma ConfigCheckedFirst(configuredPath: Option<string>, file: Option<FormFile>, sanitize: Sanitizer,
                           cwd: AbsPath, fault: Option<WriteFault>, files: map<string, seq<byte>>)
    requires !Configured(configuredPath)
    ensures Respond(configuredPath, file, sanitize, cwd, fault)
            == Response(500, "Upload path is not configured in plugin settings.")
    ensures Effect(files, Prepare(configuredPath, file, sanitize, cwd), fault) == files
  {
  }

  /** Any non-empty upload path passes the configuration check, whitespace included. */
  lemma OnlyEmptyPathIsMissing(root: string, file: Option<FormFile>, sanitize: Sanitizer, cwd: AbsPath)
    requires root != []
    ensures Prepare(Some(root), file, sanitize, cwd) != Stop(ConfigMissing)
  {
  }

  /**
   * With a configured path, a missing or zero-length file yields 400 whatever
   * the sanitizer would say, and nothing is written.
   */
  lemma MissingOrEmptyFileRejected(configuredPath: Option<string>, file: Option<FormFile>,
                                   sanitize: Sanitizer, other: Sanitizer, cwd: AbsPath,
                                   fault: Option<WriteFault>, files: map<string, seq<byte>>)
    requires Configured(configuredPath)
    requires !NonEmptyFile(file)
    ensures Prepare(configuredPath, file, sanitize, cwd) == Prepare(configuredPath, file, other, cwd)
    ensures Respond(configuredPath, file, sanitize, cwd, fault)
            == Response(400, "No file uploaded or file is empty.")
    ensures Effect(files, Prepare(configuredPath, file, sanitize, cwd), fault) == files
  {
  }

  // ---------------------------------------------------------------------------
  // Only the last segment of the caller's name reaches the sanitizer
  // ---------------------------------------------------------------------------

  /**
   * Two uploads whose names end in the same segment, handled by sanitizers
   * that agree on that segment, are handled identically.
   */
  lemma OnlyLastSegmentMatters(configuredPath: Option<string>, f1: FormFile, f2: FormFile,
                               s1: Sanitizer, s2: Sanitizer, cwd: AbsPath)
    requires f1.length == f2.length && f1.content == f2.content
    requires FileName(f1.fileName) == FileName(f2.fileName)
    requires s1(FileName(f1.fileName)) == s2(FileName(f1.fileName))
    ensures Prepare(configuredPath, Some(f1), s1, cwd) == Prepare(configuredPath, Some(f2), s2, cwd)
  {
    if Configured(configuredPath) && f1.length != 0 {
      var r := s1(FileName(f1.fileName));
      if r.Returned? {
        PrepareReachesCheck(configuredPath.value, f1, s1, cwd, r.name);
        PrepareReachesCheck(configuredPath.value, f2, s2, cwd, r.name);
      } else {
        PrepareRaised(configuredPath.value, f1, s1, cwd, r.error);
        PrepareRaised(configuredPath.value, f2, s2, cwd, r.error);
      }
    }
  }

  /** Directory components in the caller's name, "../" and absolute prefixes alike, are dropped. */
  lemma DirectoriesInNameIgnored(configuredPath: Option<string>, dir: string, file: FormFile,
                                 sanitize: Sanitizer, cwd: AbsPath)
    ensures Prepare(configuredPath, Some(file.(fileName := dir + "/" + file.fileName)), sanitize, cwd)
            == Prepare(configuredPath, Some(file), sanitize, cwd)
  {
    FileNameDropsDirectories(dir, file.fileName);
  }

  // ---------------------------------------------------------------------------
  // Containment
  // ---------------------------------------------------------------------------

  /**
   * Every write goes to the full path of root + sanitizer output, and only
   * when that full path starts, ignoring case, with the full path of the root.
   */
  lemma WriteOnlyUnderRoot(configuredPath: Option<string>, file: Option<FormFile>,
                           sanitize: Sanitizer, cwd: AbsPath)
    requires Prepare(configuredPath, file, sanitize, cwd).Save?
    ensures Configured(configuredPath) && NonEmptyFile(file)
    ensures var plan := Prepare(configuredPath, file, sanitize, cwd);
            var root := configuredPath.value;
            && sanitize(FileName(file.value.fileName)) == Returned(plan.safeFileName)
            && plan.content == file.value.content
            && FullPath(root, cwd).Some?
            && FullPath(Combine(root, plan.safeFileName), cwd) == Some(plan.target)
            && StartsWithIgnoreCase(plan.target, FullPath(root, cwd).value)
  {
  }

  /**
   * For NUL-free inputs the containment check alone decides: the target is
   * written exactly when its full path starts with the root's full path,
   * and otherwise the call ends with "Invalid target path.".
   */
  lemma ContainmentDecides(root: string, file: FormFile, sanitize: Sanitizer, cwd: AbsPath, name: string)
    requires root != [] && file.length != 0
    requires sanitize(FileName(file.fileName)) == Returned(name)
    requires '\0' !in root && '\0' !in name
    ensures var target := Canonical(Combine(root, name), cwd);
            Prepare(Some(root), Some(file), sanitize, cwd)
            == if StartsWithIgnoreCase(target, Canonical(root, cwd)) then Save(target, name, file.content)
               else Stop(PathInvalid)
  {
    PrepareReachesCheck(root, file, sanitize, cwd, name);
    CombineNulFree(root, name);
    assert FullPath(root, cwd) == Some(Canonical(root, cwd));
    assert FullPath(Combine(root, name), cwd) == Some(Canonical(Combine(root, name), cwd));
  }

  /**
   * A sanitizer whose output has no separator cannot move the write out of
   * the root: a name lands exactly one level below the root's full path, ""
   * addresses the root itself, and "." or ".." either address the root
   * itself or are rejected.
   */
  lemma SlashFreeNameStaysInRoot(root: string, file: FormFile, sanitize: Sanitizer, cwd: AbsPath, name: string)
    requires root != [] && file.length != 0
    requires sanitize(FileName(file.fileName)) == Returned(name)
    requires '\0' !in root && '\0' !in name && '/' !in name
    ensures var dir := Canonical(root, cwd);
            var plan := Prepare(Some(root), Some(file), sanitize, cwd);
            if IsName(name) then plan == Save(Combine(dir, name), name, file.content)
            else if name == [] then plan == Save(dir, name, file.content)
            else plan == Save(dir, name, file.content) || plan == Stop(PathInvalid)
  {
    var dir := Canonical(root, cwd);
    ContainmentDecides(root, file, sanitize, cwd, name);
    if IsName(name) {
      CanonicalAppendName(root, name, cwd);
      var t := Combine(dir, name);
      assert t[..|dir|] == dir;
      StartsWithExactPrefix(t, dir);
    } else if name == [] {
      EmptyOutputWritesRoot(root, file, sanitize, cwd);
    } else {
      CanonicalAppendDots(root, name, cwd);
    }
  }

  /**
   * An empty sanitizer output passes the containment check: the write goes to
   * the full path of the root itself.
   */
  lemma EmptyOutputWritesRoot(root: string, file: FormFile, sanitize: Sanitizer, cwd: AbsPath)
    requires root != [] && file.length != 0
    requires sanitize(FileName(file.fileName)) == Returned([])
    requires '\0' !in root
    ensures Prepare(Some(root), Some(file), sanitize, cwd) == Save(Canonical(root, cwd), [], file.content)
  {
    ContainmentDecides(root, file, sanitize, cwd, []);
    StartsWithSelf(Canonical(root, cwd));
  }

  // ---------------------------------------------------------------------------
  // Success and failure of the write
  // ---------------------------------------------------------------------------

  /**
   * A write that raises nothing answers 200 with the sanitized name, and the
   * target then holds exactly the uploaded bytes; every other path is unchanged.
   */
  lemma SuccessStoresUpload(configuredPath: Option<string>, file: Option<FormFile>, sanitize: Sanitizer,
                            cwd: AbsPath, files: map<string, seq<byte>>)
    requires Prepare(configuredPath, file, sanitize, cwd).Save?
    ensures var plan := Prepare(configuredPath, file, sanitize, cwd);
            Respond(configuredPath, file, sanitize, cwd, None)
            == Response(200, "File " + plan.safeFileName + " uploaded successfully.")
    ensures var plan := Prepare(configuredPath, file, sanitize, cwd);
            var after := Effect(files, plan, None);
            && plan.target in after && after[plan.target] == file.value.content
            && forall p :: p != plan.target ==> (p in after <==> p in files) && (p in files ==> after[p] == files[p])
  {
    var plan := Prepare(configuredPath, file, sanitize, cwd);
    assert plan.content == file.value.content by {
      WriteOnlyUnderRoot(configuredPath, file, sanitize, cwd);
    }
    RespondOfPlan(configuredPath, file, sanitize, cwd, None, plan);
    assert Finish(plan, None) == Uploaded(plan.safeFileName);
    assert Effect(files, plan, None) == AfterWrite(files, plan.target, plan.content, None);
    AfterWriteFrame(files, plan.target, plan.content, None);
  }

  /**
   * The inner catch swallows every write failure, permission errors included:
   * the answer is 500 "Error saving file: {message}", never 403.
   */
  lemma WriteFaultIsSaveError(configuredPath: Option<string>, file: Option<FormFile>, sanitize: Sanitizer,
                              cwd: AbsPath, fault: WriteFault)
    requires Prepare(configuredPath, file, sanitize, cwd).Save?
    ensures Respond(configuredPath, file, sanitize, cwd, Some(fault))
            == Response(500, "Error saving file: " + fault.error.message)
  {
  }

  /**
   * 403 is answered only when the sanitizer raised UnauthorizedAccessException,
   * before any write: nothing is written then.
   */
  lemma ForbiddenOnlyBeforeWrite(configuredPath: Option<string>, file: Option<FormFile>, sanitize: Sanitizer,
                                 cwd: AbsPath, fault: Option<WriteFault>, files: map<string, seq<byte>>)
    ensures Respond(configuredPath, file, sanitize, cwd, fault).status == 403 ==>
              && Configured(configuredPath) && NonEmptyFile(file)
              && sanitize(FileName(file.value.fileName)).Raised?
              && sanitize(FileName(file.value.fileName)).error.AccessDenied?
              && Effect(files, Prepare(configuredPath, file, sanitize, cwd), fault) == files
  {
    if Configured(configuredPath) && NonEmptyFile(file) {
      var r := sanitize(FileName(file.value.fileName));
      if r.Returned? {
        PrepareReachesCheck(configuredPath.value, file.value, sanitize, cwd, r.name);
        var check := CheckTarget(configuredPath.value, r.name, file.value.content, cwd);
        assert check.Save? || check.outcome.PathInvalid? || check.outcome.Unexpected?;
      } else {
        PrepareRaised(configuredPath.value, file.value, sanitize, cwd, r.error);
      }
    }
  }

  /**
   * The process's current directory is consulted only for a relative upload
   * path: under a rooted one, the plan is the same whatever the directory.
   */
  lemma RootedPathIgnoresCwd(root: string, file: Option<FormFile>, sanitize: Sanitizer,
                             cwd1: AbsPath, cwd2: AbsPath)
    requires IsRooted(root)
    ensures Prepare(Some(root), file, sanitize, cwd1) == Prepare(Some(root), file, sanitize, cwd2)
  {
    if NonEmptyFile(file) {
      var r := sanitize(FileName(file.value.fileName));
      if r.Returned? {
        var t := Combine(root, r.name);
        assert Absolute(root, cwd1) == Absolute(root, cwd2);
        assert Absolute(t, cwd1) == Absolute(t, cwd2);
        PrepareReachesCheck(root, file.value, sanitize, cwd1, r.name);
        PrepareReachesCheck(root, file.value, sanitize, cwd2, r.name);
      }
    }
  }

  /** An exception from the sanitizer reaches the outer catch clauses, in their order. */
  lemma SanitizerExceptionMapped(root: string, file: FormFile, sanitize: Sanitizer, cwd: AbsPath,
                                 fault: Option<WriteFault>, files: map<string, seq<byte>>, e: Exception)
    requires root != [] && file.length != 0
    requires sanitize(FileName(file.fileName)) == Raised(e)
    ensures Respond(Some(root), Some(file), sanitize, cwd, fault)
            == match e
               case IOError(m) => Response(500, "IO Error: " + m)
               case AccessDenied(m) => Response(403, "Permission denied: " + m)
               case OtherError(m) => Response(500, "Unexpected error uploading file: " + m)
    ensures Effect(files, Prepare(Some(root), Some(file), sanitize, cwd), fault) == files
  {
    PrepareRaised(root, file, sanitize, cwd, e);
  }

  /** A NUL in the root makes GetFullPath raise ArgumentException: an unexpected error. */
  lemma NulInRootIsUnexpected(root: string, file: FormFile, sanitize: Sanitizer, cwd: AbsPath,
                              fault: Option<WriteFault>)
    requires root != [] && '\0' in root && file.length != 0
    requires sanitize(FileName(file.fileName)).Returned?
    ensures Respond(Some(root), Some(file), sanitize, cwd, fault)
            == Response(500, "Unexpected error uploading file: " + NullCharInPath)
  {
    PrepareReachesCheck(root, file, sanitize, cwd, sanitize(FileName(file.fileName)).name);
  }

  /**
   * A NUL in the sanitizer output makes GetFullPath of the target raise
   * ArgumentException: an unexpected error, and nothing is written.
   */
  lemma NulInNameIsUnexpected(root: string, file: FormFile, sanitize: Sanitizer, cwd: AbsPath,
                              fault: Option<WriteFault>, files: map<string, seq<byte>>, name: string)
    requires root != [] && file.length != 0
    requires sanitize(FileName(file.fileName)) == Returned(name)
    requires '\0' in name
    ensures Prepare(Some(root), Some(file), sanitize, cwd) == Stop(Unexpected(NullCharInPath))
    ensures Respond(Some(root), Some(file), sanitize, cwd, fault)
            == Response(500, "Unexpected error uploading file: " + NullCharInPath)
    ensures Effect(files, Prepare(Some(root), Some(file), sanitize, cwd), fault) == files
  {
    PrepareReachesCheck(root, file, sanitize, cwd, name);
    var target := Combine(root, name);
    CombineExtends(root, name);
    var i :| 0 <= i < |name| && name[i] == '\0';
    assert target[|target| - |name| + i] == '\0';
  }

  // ---------------------------------------------------------------------------
  // Concrete scenarios
  // ---------------------------------------------------------------------------

  /**
   * /tmp/up stands for the test suite's upload directories: an absolute
   * directory whose segments are all names, and so its own full path.
   */
  lemma TmpUpIsCanonical(cwd: AbsPath)
    ensures Segments("/tmp/up") == ["tmp", "up"]
    ensures Canonical("/tmp/up", cwd) == "/tmp/up"
  {
    assert Render(["tmp", "up"], false) == "/tmp/up";
    SegmentsOfRender(["tmp", "up"], false);
    CanonicalOfRender(["tmp", "up"], false, cwd);
  }

  /** Under root /tmp/up, "../" + name resolves to the sibling entry /tmp/name. */
  lemma TmpUpParentThen(name: string, cwd: AbsPath)
    requires IsName(name) && '/' !in name
    ensures Canonical(Combine("/tmp/up", "../" + name), cwd) == "/tmp/" + name
  {
    TmpUpIsCanonical(cwd);
    CanonicalParentThenName("/tmp/up", name, cwd);
    assert Absolute("/tmp/up", cwd) == "/tmp/up";
    var stack := Step(["tmp", "up"], "..") + [name];
    assert stack == ["tmp", name];
    assert Join(stack) == "tmp" + "/" + name;
    assert Render(stack, false) == "/" + ("tmp" + "/" + name);
    assert "/" + ("tmp" + "/" + name) == "/tmp/" + name;
  }

  /** A plain name kept by the sanitizer is written directly below a canonical root. */
  lemma PlainNameBelowRoot(root: string, file: FormFile, sanitize: Sanitizer, cwd: AbsPath, name: string)
    requires root != [] && Canonical(root, cwd) == root && root[|root| - 1] != '/' && '\0' !in root
    requires file.length != 0 && file.fileName == name && sanitize(name) == Returned(name)
    requires IsName(name) && '/' !in name && '\0' !in name
    ensures Prepare(Some(root), Some(file), sanitize, cwd) == Save(root + "/" + name, name, file.content)
  {
    FileNameOfPlainName(name);
    SlashFreeNameStaysInRoot(root, file, sanitize, cwd, name);
  }

  /** Under root /tmp/up, an upload whose plain name the sanitizer keeps is written to /tmp/up/name. */
  lemma TmpUpPlainName(file: FormFile, sanitize: Sanitizer, cwd: AbsPath, name: string)
    requires file.length != 0 && file.fileName == name && sanitize(name) == Returned(name)
    requires IsName(name) && '/' !in name && '\0' !in name
    ensures Prepare(Some("/tmp/up"), Some(file), sanitize, cwd) == Save("/tmp/up/" + name, name, file.content)
  {
    TmpUpIsCanonical(cwd);
    assert "/tmp/up"[6] != '/' && '\0' !in "/tmp/up";
    PlainNameBelowRoot("/tmp/up", file, sanitize, cwd, name);
    assert "/tmp/up" + "/" + name == "/tmp/up/" + name;
  }

  /** Under root /tmp/up, "../" + name is checked against /tmp/name. */
  lemma TmpUpParentPlan(file: FormFile, sanitize: Sanitizer, cwd: AbsPath, name: string)
    requires file.length != 0 && '/' !in file.fileName && sanitize(file.fileName) == Returned("../" + name)
    requires IsName(name) && '/' !in name && '\0' !in name
    ensures var t := "/tmp/" + name;
            Prepare(Some("/tmp/up"), Some(file), sanitize, cwd)
            == if StartsWithIgnoreCase(t, "/tmp/up") then Save(t, "../" + name, file.content) else Stop(PathInvalid)
  {
    FileNameOfPlainName(file.fileName);
    TmpUpIsCanonical(cwd);
    TmpUpParentThen(name, cwd);
    assert '\0' !in "/tmp/up";
    assert '\0' !in "../" + name;
    ContainmentDecides("/tmp/up", file, sanitize, cwd, "../" + name);
  }

  /** The response of a call is fixed by its plan and the write fault. */
  lemma RespondOfPlan(configuredPath: Option<string>, file: Option<FormFile>, sanitize: Sanitizer,
                      cwd: AbsPath, fault: Option<WriteFault>, plan: Plan)
    requires Prepare(configuredPath, file, sanitize, cwd) == plan
    ensures Respond(configuredPath, file, sanitize, cwd, fault) == ToResponse(Finish(plan, fault))
  {
  }

  /** The traversal test: the sanitizer answers "../attempt_traversal.txt". */
  lemma TraversalRejected(file: FormFile, sanitize: Sanitizer, cwd: AbsPath, name: string,
                          fault: Option<WriteFault>, files: map<string, seq<byte>>)
    requires file.fileName == "somefile.txt" && file.length == 1024
    requires name == "attempt_traversal.txt" && sanitize(file.fileName) == Returned("../" + name)
    ensures Respond(Some("/tmp/up"), Some(file), sanitize, cwd, fault) == Response(500, "Invalid target path.")
    ensures Effect(files, Prepare(Some("/tmp/up"), Some(file), sanitize, cwd), fault) == files
  {
    TmpUpParentPlan(file, sanitize, cwd, name);
    var t := "/tmp/" + name;
    assert ToUpperAscii(t[5]) != ToUpperAscii("/tmp/up"[5]);
    RespondOfPlan(Some("/tmp/up"), Some(file), sanitize, cwd, fault, Stop(PathInvalid));
  }

  /**
   * The containment check is a character prefix, not a segment prefix: under
   * root /tmp/up the sanitizer output "../upload2.txt" is written to the
   * sibling /tmp/upload2.txt, outside the root directory.
   */
  lemma SiblingWithRootPrefixAccepted(file: FormFile, sanitize: Sanitizer, cwd: AbsPath, name: string)
    requires file.fileName == "somefile.txt" && file.length == 1024
    requires name == "upload2.txt" && sanitize(file.fileName) == Returned("../" + name)
    ensures Prepare(Some("/tmp/up"), Some(file), sanitize, cwd) == Save("/tmp/" + name, "../" + name, file.content)
  {
    TmpUpParentPlan(file, sanitize, cwd, name);
    var t := "/tmp/" + name;
    assert forall i :: 0 <= i < 7 ==> t[i] == "/tmp/up"[i];
    assert StartsWithIgnoreCase(t, "/tmp/up");
  }

  /** The valid-upload test: "test video.mp4" is stored under /tmp/up unchanged. */
  lemma ValidUploadStored(file: FormFile, sanitize: Sanitizer, cwd: AbsPath, files: map<string, seq<byte>>)
    requires file.fileName == "test video.mp4" && file.length == 1024
    requires sanitize(file.fileName) == Returned(file.fileName)
    ensures Respond(Some("/tmp/up"), Some(file), sanitize, cwd, None)
            == Response(200, "File " + file.fileName + " uploaded successfully.")
    ensures var after := Effect(files, Prepare(Some("/tmp/up"), Some(file), sanitize, cwd), None);
            var target := "/tmp/up/" + file.fileName;
            target in after && after[target] == file.content
  {
    TmpUpPlainName(file, sanitize, cwd, file.fileName);
    SuccessStoresUpload(Some("/tmp/up"), Some(file), sanitize, cwd, files);
  }

  /**
   * The permission test expects 403 "Permission denied: {message}"; as
   * written, UnauthorizedAccessException from the write is answered with
   * 500 "Error saving file: {message}".
   */
  lemma WriteDeniedAnswers500(file: FormFile, sanitize: Sanitizer, cwd: AbsPath, message: string, written: nat)
    requires file.fileName == "unauthorized.txt" && file.length == 1024
    requires sanitize(file.fileName) == Returned(file.fileName)
    ensures Respond(Some("/tmp/up"), Some(file), sanitize, cwd, Some(CopyFailed(AccessDenied(message), written)))
            == Response(500, "Error saving file: " + message)
  {
    TmpUpPlainName(file, sanitize, cwd, file.fileName);
    WriteFaultIsSaveError(Some("/tmp/up"), Some(file), sanitize, cwd, CopyFailed(AccessDenied(message), written));
  }

  /**
   * The I/O test expects a message starting "Error saving file ioexception.txt.";
   * as written, an IOException from the write is answered with
   * 500 "Error saving file: {message}".
   */
  lemma WriteIOErrorAnswers500(file: FormFile, sanitize: Sanitizer, cwd: AbsPath, message: string, written: nat)
    requires file.fileName == "ioexception.txt" && file.length == 1024
    requires sanitize(file.fileName) == Returned(file.fileName)
    ensures Respond(Some("/tmp/up"), Some(file), sanitize, cwd, Some(CopyFailed(IOError(message), written)))
            == Response(500, "Error saving file: " + message)
  {
    TmpUpPlainName(file, sanitize, cwd, file.fileName);
    WriteFaultIsSaveError(Some("/tmp/up"), Some(file), sanitize, cwd, CopyFailed(IOError(message), written));
  }
}
