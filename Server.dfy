/**
 * The request handler (`Handler.do_POST`): routing to the two job kinds,
 * mode validation, the shared-directory check, assembly of the job
 * descriptor, the write of the job files, and the choice of the JSON
 * response. `Handle` is the decision as a function of the inputs; `DoPost`
 * performs it step by step on the shared directory.
 */
module Server {
  import opened Wrappers
  import opened Text
  import opened Coerce
  import opened Request
  import opened ImagePrefix
  import opened Descriptor
  import opened JobFiles

  /** The settings read from the environment when the service starts. */
  datatype Config = Config(sharedDir: string, nodeName: string, prefixSuffix: string)

  /** `os.getenv(name, default)`. */
  function GetEnv(env: Env, name: string, default: string): string {
    if name in env then env[name] else default
  }

  /** The module-level settings: each variable's value when it is set, its default otherwise. */
  function LoadConfig(env: Env): (c: Config)
    ensures "BACKUP_SHARED_DIR" !in env ==> c.sharedDir == "/backupos_shared"
    ensures "BACKUP_NODE_NAME" !in env ==> c.nodeName == []
    ensures "BACKUP_OS_PREFIX_SUFFIX" !in env ==> c.prefixSuffix == "[MAIN-OS]"
    ensures "BACKUP_SHARED_DIR" in env ==> c.sharedDir == env["BACKUP_SHARED_DIR"]
    ensures "BACKUP_NODE_NAME" in env ==> c.nodeName == env["BACKUP_NODE_NAME"]
    ensures "BACKUP_OS_PREFIX_SUFFIX" in env ==> c.prefixSuffix == env["BACKUP_OS_PREFIX_SUFFIX"]
  {
    Config(GetEnv(env, "BACKUP_SHARED_DIR", "/backupos_shared"),
           GetEnv(env, "BACKUP_NODE_NAME", ""),
           GetEnv(env, "BACKUP_OS_PREFIX_SUFFIX", "[MAIN-OS]"))
  }

  /** The two kinds of job, each with its own files in the shared directory. */
  datatype Job = Backup | SdImage

  function JobName(job: Job): string {
    match job
    case Backup => "backup"
    case SdImage => "sdimage"
  }

  /** The `status` field of a successful response. */
  function ScheduledStatus(job: Job): string {
    match job
    case Backup => "backup_scheduled"
    case SdImage => "sdimage_scheduled"
  }

  /** The endpoints; every other path is not found. */
  function Route(path: string): (r: Option<Job>)
    ensures r.Some? <==> path == "/backup" || path == "/sdimage"
    ensures r == Some(Backup) <==> path == "/backup"
  {
    if path == "/backup" then Some(Backup)
    else if path == "/sdimage" then Some(SdImage)
    else None
  }

  const AllowedModes: seq<string> := ["dry-run", "no-health", "with-health"]

  /** Only these three strings are modes; a value of any other type is not. */
  predicate ValidMode(v: Value)
    ensures ValidMode(v) <==> v == Str("dry-run") || v == Str("no-health") || v == Str("with-health")
  {
    v.Str? && v.s in AllowedModes
  }

  /** The JSON bodies of the responses. */
  datatype Payload =
    | NotFound
    | InvalidMode(allowed: seq<string>)
    | SharedDirMissing(details: string)
    | WriteFailed
    | Scheduled(status: string, mode: string, bosMaintance: bool, sharedDir: string,
                request: string, flag: string, imagePrefixEffective: Option<string>)

  datatype Response = Response(code: int, payload: Payload)

  /** The message of the error `_ensure_shared_dir` raises. */
  function SharedDirMessage(sharedDir: string): string {
    sharedDir + " existiert nicht (ist das BACKUP_SHARED Volume gemountet?)"
  }

  /** The descriptor lines for a request whose mode is valid. */
  function JobLines(config: Config, env: Env, f: Fields): seq<string>
    requires ValidMode(f.mode)
  {
    DescriptorLines(f.mode.s, f.bosMaintance, config.nodeName, Existing(env, config.prefixSuffix))
  }

  /** The file operations of the job's write. */
  function JobWrite(job: Job, lines: seq<string>): seq<FileOp> {
    JobOps(JobName(job), Header, lines, StatusNames(JobName(job)))
  }

  /**
   * What `do_POST` answers and how it leaves the shared directory, given the
   * configuration, the environment, the path, the query, the body, whether the
   * shared directory exists, its files, and the number of the file operation
   * that fails, if any.
   */
  function Handle(config: Config, env: Env, path: string, q: Query, body: Body,
                  isDir: bool, files: Files, faultAt: Option<nat>): (r: (Response, Files))
    ensures r.0.code == 404 <==> Route(path).None?
    ensures r.0.code == 404 ==> r.0.payload == NotFound && r.1 == files
  {
    match Route(path)
    case None => (Response(404, NotFound), files)
    case Some(job) => HandleJob(config, env, job, ReadRequest(q, body), isDir, files, faultAt)
  }

  /**
   * The handling of a request on one of the job paths, with its merged
   * parameters `f`: 200, 400 or 500; 400 exactly for an invalid mode, and no
   * file changes on either refusal that precedes the write.
   */
  function HandleJob(config: Config, env: Env, job: Job, f: Fields, isDir: bool, files: Files, faultAt: Option<nat>): (r: (Response, Files))
    ensures r.0.code == 200 || r.0.code == 400 || r.0.code == 500
    ensures r.0.code == 400 <==> !ValidMode(f.mode)
    ensures r.0.payload.SharedDirMissing? <==> ValidMode(f.mode) && !isDir
    ensures r.0.code == 400 || r.0.payload.SharedDirMissing? ==> r.1 == files
  {
    if !ValidMode(f.mode) then (Response(400, InvalidMode(AllowedModes)), files)
    else if !isDir then (Response(500, SharedDirMissing(SharedDirMessage(config.sharedDir))), files)
    else WriteOutcome(job, f.mode.s, f.bosMaintance, config.sharedDir, JobLines(config, env, f),
                      Lookup(Existing(env, config.prefixSuffix), "IMAGE_PREFIX"), files, faultAt)
  }

  /**
   * The write of the assembled lines, then 500 `write_failed` after a fault or
   * 200 naming the two files: 200 exactly when no operation of the write fails.
   */
  function WriteOutcome(job: Job, mode: string, bosMaintance: bool, sharedDir: string, lines: seq<string>,
                        prefix: Option<string>, files: Files, faultAt: Option<nat>): (r: (Response, Files))
    ensures r.0.code == 200 || r.0 == Response(500, WriteFailed)
    ensures r.0.code == 200 <==> faultAt.None? || faultAt.value >= |lines| + 6
    ensures r.0.code == 200 ==> r.0.payload.Scheduled?
  {
    var ops := JobWrite(job, lines);
    var k := Completed(faultAt, |ops|);
    var after := ApplyOps(files, ops[..k]);
    if k < |ops| then (Response(500, WriteFailed), after)
    else
      (Response(200, Scheduled(ScheduledStatus(job), mode, bosMaintance, sharedDir,
                               RequestName(JobName(job)), FlagName(JobName(job)), prefix)),
       after)
  }

  /** `_ensure_shared_dir`: an error message when the shared directory does not exist. */
  method EnsureSharedDir(dir: SharedDir, sharedDir: string) returns (err: Option<string>)
    ensures err.None? <==> dir.isDir
    ensures err.Some? ==> err.value == SharedDirMessage(sharedDir)
  {
    if !dir.isDir {
      return Some(SharedDirMessage(sharedDir));
    }
    err := None;
  }

  /** `Handler.do_POST`, with the parsed path, query and body as inputs. */
  method DoPost(dir: SharedDir, config: Config, env: Env, path: string, q: Query, body: Body, faultAt: Option<nat>)
    returns (resp: Response)
    modifies dir
    ensures (resp, dir.files) == Handle(config, env, path, q, body, old(dir.isDir), old(dir.files), faultAt)
    ensures dir.isDir == old(dir.isDir)
  {
    var job := Route(path);
    if job.None? {
      return Response(404, NotFound);
    }
    var f := ReadRequest(q, body);
    resp := DoJob(dir, config, env, job.value, f, faultAt);
  }

  /** The part of `do_POST` after the routing, for the merged parameters `f`. */
  method DoJob(dir: SharedDir, config: Config, env: Env, job: Job, f: Fields, faultAt: Option<nat>)
    returns (resp: Response)
    modifies dir
    ensures (resp, dir.files) == HandleJob(config, env, job, f, old(dir.isDir), old(dir.files), faultAt)
    ensures dir.isDir == old(dir.isDir)
  {
    if !(f.mode.Str? && f.mode.s in AllowedModes) {
      return Response(400, InvalidMode(AllowedModes));
    }
    var err := EnsureSharedDir(dir, config.sharedDir);
    if err.Some? {
      return Response(500, SharedDirMissing(err.value));
    }
    var existing := CollectExisting(env, config.prefixSuffix);
    var lines := AssembleLines(f.mode.s, f.bosMaintance, config.nodeName, existing);
    var name := JobName(job);
    var written := dir.WriteJobFiles(name, lines, StatusNames(name), faultAt);
    if written.None? {
      return Response(500, WriteFailed);
    }
    var (request, flag) := written.value;
    resp := Response(200, Scheduled(ScheduledStatus(job), f.mode.s, f.bosMaintance, config.sharedDir,
                                    request, flag, Lookup(existing, "IMAGE_PREFIX")));
  }

  // ---------------------------------------------------------------------------
  // Properties of the handler
  // ---------------------------------------------------------------------------

  /** `/backup` writes the `backup` files and `/sdimage` the `sdimage` files. */
  lemma RoutesToJobFiles()
    ensures Route("/backup") == Some(Backup) && Route("/sdimage") == Some(SdImage)
    ensures RequestName(JobName(Backup)) == "backup_request.env" && FlagName(JobName(Backup)) == "backup.flag"
    ensures StatusNames(JobName(Backup)).0 == "backup_status.env" && StatusNames(JobName(Backup)).1 == "backup_status.json"
    ensures RequestName(JobName(SdImage)) == "sdimage_request.env" && FlagName(JobName(SdImage)) == "sdimage.flag"
    ensures StatusNames(JobName(SdImage)).0 == "sdimage_status.env" && StatusNames(JobName(SdImage)).1 == "sdimage_status.json"
  {
  }

  /** Exactly the two job paths are served; anything else is a 404 that touches nothing. */
  lemma NotFoundIffUnknownPath(config: Config, env: Env, path: string, q: Query, body: Body,
                               isDir: bool, files: Files, faultAt: Option<nat>)
    ensures var (resp, after) := Handle(config, env, path, q, body, isDir, files, faultAt);
            (resp.code == 404 <==> path != "/backup" && path != "/sdimage") &&
            (resp.code == 404 ==> resp.payload == NotFound && after == files)
  {
    match Route(path)
    case None =>
      assert Handle(config, env, path, q, body, isDir, files, faultAt) == (Response(404, NotFound), files);
    case Some(job) =>
      assert Handle(config, env, path, q, body, isDir, files, faultAt) ==
             HandleJob(config, env, job, ReadRequest(q, body), isDir, files, faultAt);
  }

  /**
   * On a job path, the request is refused with 400 exactly when the merged
   * mode is not one of the three allowed strings; the directory is untouched.
   */
  lemma InvalidModeIff(config: Config, env: Env, path: string, q: Query, body: Body,
                       isDir: bool, files: Files, faultAt: Option<nat>)
    requires Route(path).Some?
    ensures var (resp, after) := Handle(config, env, path, q, body, isDir, files, faultAt);
            (resp.code == 400 <==> !ValidMode(ReadRequest(q, body).mode)) &&
            (resp.code == 400 ==> resp.payload == InvalidMode(["dry-run", "no-health", "with-health"]) && after == files)
  {
  }

  /** A valid request against a missing shared directory is refused with 500 and writes nothing. */
  lemma MissingSharedDirWritesNothing(config: Config, env: Env, path: string, q: Query, body: Body,
                                      files: Files, faultAt: Option<nat>)
    requires Route(path).Some? && ValidMode(ReadRequest(q, body).mode)
    ensures Handle(config, env, path, q, body, false, files, faultAt) ==
              (Response(500, SharedDirMissing(SharedDirMessage(config.sharedDir))), files)
  {
  }

  /**
   * A scheduled job: the request file holds the header and the descriptor,
   * whose lines read back as MODE, HEALTH_CHECK, BOS_MAINTANCE, the node name
   * and the passthrough variables; the flag says `pending`; the job's old
   * status files are gone; and the response echoes the mode, the flag and the
   * shared directory and names the two files.
   */
  lemma ScheduledJobReadsBack(config: Config, env: Env, path: string, q: Query, body: Body,
                              files: Files, faultAt: Option<nat>)
    requires Route(path).Some? && ValidMode(ReadRequest(q, body).mode)
    requires faultAt.None?
    ensures var (resp, after) := Handle(config, env, path, q, body, true, files, faultAt);
            var job := Route(path).value;
            var name := JobName(job);
            var f := ReadRequest(q, body);
            var lines := JobLines(config, env, f);
            resp.code == 200 &&
            resp.payload.Scheduled? && resp.payload.status == ScheduledStatus(job) &&
            resp.payload.mode == f.mode.s && resp.payload.bosMaintance == f.bosMaintance &&
            resp.payload.sharedDir == config.sharedDir &&
            resp.payload.request == RequestName(name) && resp.payload.flag == FlagName(name) &&
            RequestName(name) in after && after[RequestName(name)] == RequestText(Header, lines) &&
            ReadLines(lines) == Some(Assignments(f.mode.s, f.bosMaintance, config.nodeName, Existing(env, config.prefixSuffix))) &&
            FlagName(name) in after && after[FlagName(name)] == Pending &&
            StatusNames(name).0 !in after && StatusNames(name).1 !in after
  {
    var job := Route(path).value;
    var name := JobName(job);
    var f := ReadRequest(q, body);
    var lines := JobLines(config, env, f);
    assert Handle(config, env, path, q, body, true, files, None) == HandleJob(config, env, job, f, true, files, None);
    ScheduledHandle(job, f.mode.s, f.bosMaintance, config.sharedDir, JobLines(config, env, f),
                    Lookup(Existing(env, config.prefixSuffix), "IMAGE_PREFIX"), files);
    assert JobWrite(job, lines) == JobOps(name, Header, lines, StatusNames(name));
    CompleteWrite(files, name, Header, lines);
    JobLinesReadBack(config, env, f);
  }

  /** Without a fault the whole write is performed and the answer is 200. */
  lemma ScheduledHandle(job: Job, mode: string, bosMaintance: bool, sharedDir: string, lines: seq<string>,
                        prefix: Option<string>, files: Files)
    ensures WriteOutcome(job, mode, bosMaintance, sharedDir, lines, prefix, files, None) ==
              (Response(200, Scheduled(ScheduledStatus(job), mode, bosMaintance, sharedDir,
                                       RequestName(JobName(job)), FlagName(JobName(job)), prefix)),
               ApplyOps(files, JobWrite(job, lines)))
  {
    var ops := JobWrite(job, lines);
    assert Completed(None, |ops|) == |ops| && ops[..|ops|] == ops;
  }

  /** The descriptor of a request reads back as its assignments: the names of the passthrough variables are plain. */
  lemma JobLinesReadBack(config: Config, env: Env, f: Fields)
    requires ValidMode(f.mode)
    ensures ReadLines(JobLines(config, env, f)) ==
              Some(Assignments(f.mode.s, f.bosMaintance, config.nodeName, Existing(env, config.prefixSuffix)))
  {
    ExistingNamesPlain(env, config.prefixSuffix);
    DescriptorReadsBack(f.mode.s, f.bosMaintance, config.nodeName, Existing(env, config.prefixSuffix));
  }

  /**
   * A failed write answers 500 `write_failed`; what was written before the
   * fault stays, but a flag file that did not exist before appears only with a
   * complete request file, and other files are untouched.
   */
  lemma FailedWriteLeavesPrefix(config: Config, env: Env, path: string, q: Query, body: Body,
                                files: Files, fault: nat)
    requires Route(path).Some? && ValidMode(ReadRequest(q, body).mode)
    requires fault < |JobLines(config, env, ReadRequest(q, body))| + 6
    ensures var (resp, after) := Handle(config, env, path, q, body, true, files, Some(fault));
            var name := JobName(Route(path).value);
            var lines := JobLines(config, env, ReadRequest(q, body));
            resp == Response(500, WriteFailed) &&
            (FlagName(name) in after && FlagName(name) !in files ==>
               RequestName(name) in after && after[RequestName(name)] == RequestText(Header, lines)) &&
            forall other :: other in files && other !in {StatusNames(name).0, StatusNames(name).1, RequestName(name), FlagName(name)} ==>
              other in after && after[other] == files[other]
  {
    var job := Route(path).value;
    var name := JobName(job);
    var lines := JobLines(config, env, ReadRequest(q, body));
    var ops := JobWrite(job, lines);
    OpsFinale(name, Header, lines, StatusNames(name));
    assert Completed(Some(fault), |ops|) == fault;
    var after := ApplyOps(files, ops[..fault]);
    assert Handle(config, env, path, q, body, true, files, Some(fault)) == (Response(500, WriteFailed), after);
    InterruptedWrite(files, name, Header, lines, fault);
  }

  /** The effective IMAGE_PREFIX reported: the configured suffix appended when the variable is set and not blank. */
  lemma EffectivePrefixReported(config: Config, env: Env, path: string, q: Query, body: Body, files: Files)
    requires Route(path).Some? && ValidMode(ReadRequest(q, body).mode)
    ensures var (resp, _) := Handle(config, env, path, q, body, true, files, None);
            resp.payload.Scheduled? &&
            resp.payload.imagePrefixEffective ==
              if "IMAGE_PREFIX" !in env then None
              else if Strip(env["IMAGE_PREFIX"]) == [] then Some(env["IMAGE_PREFIX"])
              else Some(AppendPrefixSuffix(env["IMAGE_PREFIX"], config.prefixSuffix))
  {
    var job := Route(path).value;
    var f := ReadRequest(q, body);
    ScheduledHandle(job, f.mode.s, f.bosMaintance, config.sharedDir, JobLines(config, env, f),
                    Lookup(Existing(env, config.prefixSuffix), "IMAGE_PREFIX"), files);
    assert Handle(config, env, path, q, body, true, files, None) == HandleJob(config, env, job, f, true, files, None);
    ExistingContents(env, config.prefixSuffix, "IMAGE_PREFIX");
    assert PassthroughKeys[0] == "IMAGE_PREFIX";
  }

  /** Once the parameters are merged, `bos_update` plays no part in the answer or the files. */
  lemma HandleJobIgnoresBosUpdate(config: Config, env: Env, job: Job, f: Fields, b: bool,
                                  isDir: bool, files: Files, faultAt: Option<nat>)
    ensures HandleJob(config, env, job, f, isDir, files, faultAt) ==
            HandleJob(config, env, job, f.(bosUpdate := b), isDir, files, faultAt)
  {
    if ValidMode(f.mode) {
      assert JobLines(config, env, f) == JobLines(config, env, f.(bosUpdate := b));
    }
  }

  /**
   * `bos_update` is read but never used: two requests whose query and body
   * differ at most in `bos_update` get the same response and leave the same
   * files, whatever kind of body they carry.
   */
  lemma BosUpdateIgnored(config: Config, env: Env, path: string, q1: Query, q2: Query, b1: Body, b2: Body,
                         isDir: bool, files: Files, faultAt: Option<nat>)
    requires SameQueryBut(q1, q2, "bos_update") && SameBodyBut(b1, b2, "bos_update")
    ensures Handle(config, env, path, q1, b1, isDir, files, faultAt) ==
            Handle(config, env, path, q2, b2, isDir, files, faultAt)
  {
    BosUpdateIndependent(q1, q2, b1, b2);
    var f1, f2 := ReadRequest(q1, b1), ReadRequest(q2, b2);
    assert f2 == f1.(bosUpdate := f2.bosUpdate);
    match Route(path)
    case None =>
    case Some(job) =>
      HandleJobIgnoresBosUpdate(config, env, job, f1, f2.bosUpdate, isDir, files, faultAt);
  }
}
