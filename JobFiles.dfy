/**
 * Writing a job into the shared directory (`_write_job_files`): the old
 * status files are removed, the request file is written (a header, then one
 * line per descriptor line), and finally the flag file is created, which tells
 * the backup OS that a new job is waiting.
 *
 * The directory is a map from file names to contents. The write is specified
 * as a sequence of file operations; a fault after any number of them leaves
 * the directory as those operations left it, with nothing rolled back.
 */
module JobFiles {
  import opened Wrappers

  type Files = map<string, string>

  /** One step on the shared directory. `Discard` removes a file if it exists. */
  datatype FileOp = Discard(name: string) | Create(name: string) | Append(name: string, text: string)

  function ApplyOp(files: Files, op: FileOp): Files {
    match op
    case Discard(n) => files - {n}
    case Create(n) => files[n := ""]
    case Append(n, t) => files[n := (if n in files then files[n] else "") + t]
  }

  function ApplyOps(files: Files, ops: seq<FileOp>): Files {
    if ops == [] then files else ApplyOp(ApplyOps(files, ops[..|ops| - 1]), ops[|ops| - 1])
  }

  const Header: string := "# Automatisch vom Haupt-OS-Backup-Container generiert\n"
  const Pending: string := "pending\n"

  function RequestName(job: string): string { job + "_request.env" }
  function FlagName(job: string): string { job + ".flag" }
  function StatusNames(job: string): (string, string) { (job + "_status.env", job + "_status.json") }

  /** The lines of the request file, each terminated by a newline. */
  function Join(lines: seq<string>): string {
    if lines == [] then [] else Join(lines[..|lines| - 1]) + lines[|lines| - 1] + "\n"
  }

  /** The complete contents of the request file. */
  function RequestText(header: string, lines: seq<string>): string {
    header + Join(lines)
  }

  function LineAppends(name: string, lines: seq<string>): seq<FileOp> {
    seq(|lines|, i requires 0 <= i < |lines| => Append(name, lines[i] + "\n"))
  }

  /**
   * The operations of `_write_job_files`, in the order they are performed: six
   * besides the lines, and none of them touches a file other than the two
   * status files, the request file and the flag file.
   */
  function JobOps(job: string, header: string, lines: seq<string>, status: (string, string)): (r: seq<FileOp>)
    ensures |r| == |lines| + 6
    ensures forall i :: 0 <= i < |r| ==> r[i].name in {status.0, status.1, RequestName(job), FlagName(job)}
  {
    [Discard(status.0), Discard(status.1), Create(RequestName(job)), Append(RequestName(job), header)]
    + LineAppends(RequestName(job), lines)
    + [Create(FlagName(job)), Append(FlagName(job), Pending)]
  }

  /** How many operations complete when the one numbered `faultAt` (if any) fails. */
  function Completed(faultAt: Option<nat>, n: nat): (k: nat)
    ensures k <= n
  {
    match faultAt
    case Some(f) => if f < n then f else n
    case None => n
  }

  /** The shared directory: whether it exists, and the files in it. */
  class SharedDir {
    var isDir: bool
    var files: Files

    constructor (isDir: bool, files: Files)
      ensures this.isDir == isDir && this.files == files
    {
      this.isDir := isDir;
      this.files := files;
    }

    /** `os.path.exists`. */
    method Exists(name: string) returns (b: bool)
      ensures b <==> name in files
    {
      b := name in files;
    }

    /** `os.remove` of an existing file. */
    method Remove(name: string)
      requires name in files
      modifies this
      ensures files == old(files) - {name} && isDir == old(isDir)
    {
      files := files - {name};
    }

    /** `open(name, "w")`: creates the file or truncates it. */
    method Open(name: string)
      modifies this
      ensures files == old(files)[name := ""] && isDir == old(isDir)
    {
      files := files[name := ""];
    }

    /** `f.write(text)` on a file opened for writing. */
    method Write(name: string, text: string)
      requires name in files
      modifies this
      ensures files == old(files)[name := old(files)[name] + text] && isDir == old(isDir)
    {
      files := files[name := files[name] + text];
    }

    /** The first `k` operations of `ops` are done, and no fault came before the next one. */
    ghost predicate Reached(start: Files, ops: seq<FileOp>, faultAt: Option<nat>, k: nat)
      reads this
    {
      k <= |ops| && files == ApplyOps(start, ops[..k]) && (faultAt.Some? ==> faultAt.value >= k)
    }

    /** The write stopped at its fault, with the operations before it done. */
    ghost predicate Stopped(start: Files, ops: seq<FileOp>, faultAt: Option<nat>)
      reads this
    {
      Completed(faultAt, |ops|) < |ops| && files == ApplyOps(start, ops[..Completed(faultAt, |ops|)])
    }

    /**
     * `_write_job_files(job, lines, status)`. `faultAt` numbers the operation
     * that raises, if any; the operations before it stay done. On success the
     * names of the request file and the flag file are returned.
     */
    method WriteJobFiles(job: string, lines: seq<string>, status: (string, string), faultAt: Option<nat>)
      returns (result: Option<(string, string)>)
      modifies this
      ensures var ops := JobOps(job, Header, lines, status);
              files == ApplyOps(old(files), ops[..Completed(faultAt, |ops|)]) && isDir == old(isDir)
      ensures var n := |JobOps(job, Header, lines, status)|;
              result == if Completed(faultAt, n) == n then Some((RequestName(job), FlagName(job))) else None
    {
      ghost var start := files;
      ghost var ops := JobOps(job, Header, lines, status);
      assert ops[..0] == [];
      var ok := RemoveStatusFiles(start, ops, job, Header, lines, status, faultAt);
      if !ok { return None; }
      ok := WriteRequestFile(start, ops, job, Header, lines, status, faultAt);
      if !ok { return None; }
      ok := WriteFlagFile(start, ops, job, Header, lines, status, faultAt);
      if !ok { return None; }
      result := Some((RequestName(job), FlagName(job)));
    }

    /** Removes the status files of an earlier run of the job, where they exist. */
    method RemoveStatusFiles(ghost start: Files, ghost ops: seq<FileOp>, job: string, header: string,
                             lines: seq<string>, status: (string, string), faultAt: Option<nat>)
      returns (ok: bool)
      requires ops == JobOps(job, header, lines, status) && Reached(start, ops, faultAt, 0)
      modifies this
      ensures isDir == old(isDir)
      ensures ok ==> Reached(start, ops, faultAt, 2)
      ensures !ok ==> Stopped(start, ops, faultAt)
    {
      OpsPrelude(job, header, lines, status);
      var stale := [status.0, status.1];
      var i := 0;
      while i < 2
        invariant 0 <= i <= 2
        invariant Reached(start, ops, faultAt, i) && isDir == old(isDir)
      {
        if faultAt == Some(i) { return false; }
        ApplyOpsStep(start, ops, i);
        var present := Exists(stale[i]);
        if present {
          Remove(stale[i]);
        }
        i := i + 1;
      }
      ok := true;
    }

    /** Writes the request file: the header, then each line followed by a newline. */
    method WriteRequestFile(ghost start: Files, ghost ops: seq<FileOp>, job: string, header: string,
                            lines: seq<string>, status: (string, string), faultAt: Option<nat>)
      returns (ok: bool)
      requires ops == JobOps(job, header, lines, status) && Reached(start, ops, faultAt, 2)
      modifies this
      ensures isDir == old(isDir)
      ensures ok ==> Reached(start, ops, faultAt, 4 + |lines|)
      ensures !ok ==> Stopped(start, ops, faultAt)
    {
      OpsPrelude(job, header, lines, status);
      var requestPath := RequestName(job);
      if faultAt == Some(2) { return false; }
      ApplyOpsStep(start, ops, 2);
      Open(requestPath);
      if faultAt == Some(3) { return false; }
      ApplyOpsStep(start, ops, 3);
      Write(requestPath, header);
      forall j | 0 <= j < |lines|
        ensures ops[4 + j] == Append(RequestName(job), lines[j] + "\n")
      {
        OpsLine(job, header, lines, status, j);
      }
      ok := WriteRequestLines(start, ops, job, lines, faultAt);
    }

    /** The loop over the descriptor lines, each written with a newline to the open request file. */
    method WriteRequestLines(ghost start: Files, ghost ops: seq<FileOp>, job: string,
                             lines: seq<string>, faultAt: Option<nat>)
      returns (ok: bool)
      requires |ops| == |lines| + 6
      requires forall j :: 0 <= j < |lines| ==> ops[4 + j] == Append(RequestName(job), lines[j] + "\n")
      requires Reached(start, ops, faultAt, 4) && RequestName(job) in files
      modifies this
      ensures isDir == old(isDir)
      ensures ok ==> Reached(start, ops, faultAt, 4 + |lines|)
      ensures !ok ==> Stopped(start, ops, faultAt)
    {
      var requestPath := RequestName(job);
      var j := 0;
      while j < |lines|
        invariant 0 <= j <= |lines|
        invariant Reached(start, ops, faultAt, 4 + j) && isDir == old(isDir)
        invariant requestPath in files
      {
        if faultAt == Some(4 + j) { return false; }
        ApplyOpsStep(start, ops, 4 + j);
        ghost var before := files;
        Write(requestPath, lines[j] + "\n");
        assert files == ApplyOp(before, ops[4 + j]);
        j := j + 1;
      }
      ok := true;
    }

    /** Creates the flag file with the content `pending`. */
    method WriteFlagFile(ghost start: Files, ghost ops: seq<FileOp>, job: string, header: string,
                         lines: seq<string>, status: (string, string), faultAt: Option<nat>)
      returns (ok: bool)
      requires ops == JobOps(job, header, lines, status) && Reached(start, ops, faultAt, 4 + |lines|)
      modifies this
      ensures isDir == old(isDir)
      ensures ok ==> Reached(start, ops, faultAt, 6 + |lines|)
      ensures !ok ==> Stopped(start, ops, faultAt)
    {
      OpsFinale(job, header, lines, status);
      var flagPath := FlagName(job);
      var n := |lines|;
      if faultAt == Some(4 + n) { return false; }
      ApplyOpsStep(start, ops, 4 + n);
      Open(flagPath);
      if faultAt == Some(5 + n) { return false; }
      ApplyOpsStep(start, ops, 5 + n);
      Write(flagPath, Pending);
      ok := true;
    }
  }

  // ---------------------------------------------------------------------------
  // Properties of the operation sequence
  // ---------------------------------------------------------------------------

  /** Discarding a file that does not exist changes nothing: a missing status file is not an error. */
  lemma DiscardMissing(files: Files, name: string)
    requires name !in files
    ensures ApplyOp(files, Discard(name)) == files
  {
  }

  lemma ApplyOpsStep(files: Files, ops: seq<FileOp>, k: nat)
    requires k < |ops|
    ensures ApplyOps(files, ops[..k + 1]) == ApplyOp(ApplyOps(files, ops[..k]), ops[k])
  {
    assert ops[..k + 1][..k] == ops[..k];
  }

  /** A file that no operation names is left as it was: present with the same contents, or absent. */
  lemma {:induction false} ApplyOpsFrame(files: Files, ops: seq<FileOp>, name: string)
    requires forall i :: 0 <= i < |ops| ==> ops[i].name != name
    ensures name in ApplyOps(files, ops) <==> name in files
    ensures name in files ==> ApplyOps(files, ops)[name] == files[name]
    decreases |ops|
  {
    if ops != [] {
      var init := ops[..|ops| - 1];
      assert forall i :: 0 <= i < |init| ==> init[i] == ops[i];
      ApplyOpsFrame(files, init, name);
    }
  }

  /** The first four operations: the two status files, then opening the request file and its header. */
  lemma OpsPrelude(job: string, header: string, lines: seq<string>, status: (string, string))
    ensures var ops := JobOps(job, header, lines, status);
            |ops| == |lines| + 6 &&
            ops[0] == Discard(status.0) && ops[1] == Discard(status.1) &&
            ops[2] == Create(RequestName(job)) && ops[3] == Append(RequestName(job), header)
  {
  }

  /** The operation that writes line `j`. */
  lemma OpsLine(job: string, header: string, lines: seq<string>, status: (string, string), j: nat)
    requires j < |lines|
    ensures var ops := JobOps(job, header, lines, status);
            |ops| == |lines| + 6 && ops[4 + j] == Append(RequestName(job), lines[j] + "\n")
  {
  }

  /** The last two operations create the flag file and write `pending` to it. */
  lemma OpsFinale(job: string, header: string, lines: seq<string>, status: (string, string))
    ensures var ops := JobOps(job, header, lines, status);
            var n := |lines|;
            |ops| == n + 6 && ops[4 + n] == Create(FlagName(job)) && ops[5 + n] == Append(FlagName(job), Pending)
  {
  }

  /** The request file and the flag file are different files, and neither is a status file. */
  lemma NamesDistinct(job: string)
    ensures RequestName(job) != FlagName(job)
    ensures RequestName(job) != StatusNames(job).0 && RequestName(job) != StatusNames(job).1
    ensures FlagName(job) != StatusNames(job).0 && FlagName(job) != StatusNames(job).1
  {
    var n := |job|;
    assert RequestName(job)[n + 1] == 'r';
    assert StatusNames(job).1[n + 1] == 's';
  }

  /** The directory after the first `k` operations, in closed form. */
  function AfterSteps(files: Files, job: string, header: string, lines: seq<string>, status: (string, string), k: nat): Files
    requires k <= |lines| + 6
  {
    var cleared := files - {status.0, status.1};
    if k == 0 then files
    else if k == 1 then files - {status.0}
    else if k == 2 then cleared
    else if k == 3 then cleared[RequestName(job) := ""]
    else if k <= 4 + |lines| then cleared[RequestName(job) := header + Join(lines[..k - 4])]
    else if k == 5 + |lines| then cleared[RequestName(job) := RequestText(header, lines)][FlagName(job) := ""]
    else cleared[RequestName(job) := RequestText(header, lines)][FlagName(job) := Pending]
  }

  lemma JoinStep(lines: seq<string>, j: nat)
    requires j < |lines|
    ensures Join(lines[..j + 1]) == Join(lines[..j]) + lines[j] + "\n"
  {
    assert lines[..j + 1][..j] == lines[..j];
  }

  /** Each prefix of the operation sequence leaves the directory in the closed form above. */
  lemma Progress(files: Files, job: string, header: string, lines: seq<string>, status: (string, string), k: nat)
    requires k <= |lines| + 6
    ensures ApplyOps(files, JobOps(job, header, lines, status)[..k]) == AfterSteps(files, job, header, lines, status, k)
  {
    var n := |lines|;
    if k <= 4 {
      ProgressPrelude(files, job, header, lines, status, k);
    } else if k <= 4 + n {
      ProgressLines(files, job, header, lines, status, k);
    } else {
      ProgressLines(files, job, header, lines, status, 4 + n);
      ProgressFinale(files, job, header, lines, status, k);
    }
  }

  lemma ProgressPrelude(files: Files, job: string, header: string, lines: seq<string>, status: (string, string), k: nat)
    requires k <= 4
    ensures ApplyOps(files, JobOps(job, header, lines, status)[..k]) == AfterSteps(files, job, header, lines, status, k)
  {
    var ops := JobOps(job, header, lines, status);
    var req := RequestName(job);
    var cleared := files - {status.0, status.1};
    OpsPrelude(job, header, lines, status);
    assert ops[..0] == [];
    DiscardStep(files, ops, 0, files, status.0);
    DiscardStep(files, ops, 1, files - {status.0}, status.1);
    assert files - {status.0} - {status.1} == cleared;
    CreateStep(files, ops, 2, cleared, req);
    AppendStep(files, ops, 3, cleared, req, "", header);
    assert lines[..0] == [];
    assert "" + header == header + Join(lines[..0]);
  }

  /** Discarding a file removes it, whether or not it was there. */
  lemma DiscardStep(files: Files, ops: seq<FileOp>, k: nat, m: Files, name: string)
    requires k < |ops| && ops[k] == Discard(name) && ApplyOps(files, ops[..k]) == m
    ensures ApplyOps(files, ops[..k + 1]) == m - {name}
  {
    ApplyOpsStep(files, ops, k);
  }

  lemma {:induction false} ProgressLines(files: Files, job: string, header: string, lines: seq<string>, status: (string, string), k: nat)
    requires 4 <= k <= 4 + |lines|
    ensures ApplyOps(files, JobOps(job, header, lines, status)[..k]) == AfterSteps(files, job, header, lines, status, k)
    decreases k
  {
    if k == 4 {
      ProgressPrelude(files, job, header, lines, status, 4);
    } else {
      ProgressLines(files, job, header, lines, status, k - 1);
      ProgressLine(files, job, header, lines, status, k - 5);
    }
  }

  /** Writing line `j` extends the request file by that line and a newline. */
  lemma ProgressLine(files: Files, job: string, header: string, lines: seq<string>, status: (string, string), j: nat)
    requires j < |lines|
    requires ApplyOps(files, JobOps(job, header, lines, status)[..4 + j]) == AfterSteps(files, job, header, lines, status, 4 + j)
    ensures ApplyOps(files, JobOps(job, header, lines, status)[..5 + j]) == AfterSteps(files, job, header, lines, status, 5 + j)
  {
    var ops := JobOps(job, header, lines, status);
    var req := RequestName(job);
    var cleared := files - {status.0, status.1};
    var text := header + Join(lines[..j]);
    OpsLine(job, header, lines, status, j);
    assert AfterSteps(files, job, header, lines, status, 4 + j) == cleared[req := text];
    AppendStep(files, ops, 4 + j, cleared, req, text, lines[j] + "\n");
    JoinStep(lines, j);
    assert text + (lines[j] + "\n") == header + Join(lines[..j + 1]);
    assert AfterSteps(files, job, header, lines, status, 5 + j) == cleared[req := header + Join(lines[..j + 1])];
  }

  /** An append to a file whose contents are known extends exactly that file. */
  lemma AppendStep(files: Files, ops: seq<FileOp>, k: nat, m: Files, name: string, text: string, t: string)
    requires k < |ops| && ops[k] == Append(name, t) && ApplyOps(files, ops[..k]) == m[name := text]
    ensures ApplyOps(files, ops[..k + 1]) == m[name := text + t]
  {
    ApplyOpsStep(files, ops, k);
  }

  lemma ProgressFinale(files: Files, job: string, header: string, lines: seq<string>, status: (string, string), k: nat)
    requires 5 + |lines| <= k <= 6 + |lines|
    requires ApplyOps(files, JobOps(job, header, lines, status)[..4 + |lines|]) == AfterSteps(files, job, header, lines, status, 4 + |lines|)
    ensures ApplyOps(files, JobOps(job, header, lines, status)[..k]) == AfterSteps(files, job, header, lines, status, k)
  {
    var ops := JobOps(job, header, lines, status);
    var n := |lines|;
    var req, flag := RequestName(job), FlagName(job);
    var done := (files - {status.0, status.1})[req := RequestText(header, lines)];
    OpsFinale(job, header, lines, status);
    assert AfterSteps(files, job, header, lines, status, 4 + n) == done by {
      assert lines[..n] == lines;
    }
    CreateStep(files, ops, 4 + n, done, flag);
    assert AfterSteps(files, job, header, lines, status, 5 + n) == done[flag := ""];
    if k == 6 + n {
      AppendStep(files, ops, 5 + n, done, flag, "", Pending);
      assert "" + Pending == Pending;
      assert AfterSteps(files, job, header, lines, status, 6 + n) == done[flag := Pending];
    }
  }

  /** Creating a file adds it empty, or truncates it. */
  lemma CreateStep(files: Files, ops: seq<FileOp>, k: nat, m: Files, name: string)
    requires k < |ops| && ops[k] == Create(name) && ApplyOps(files, ops[..k]) == m
    ensures ApplyOps(files, ops[..k + 1]) == m[name := ""]
  {
    ApplyOpsStep(files, ops, k);
  }

  /**
   * A complete write: both status files are gone, the request file holds the
   * header and one line per descriptor line, the flag says `pending`, and
   * every other file is as it was.
   */
  lemma CompleteWrite(files: Files, job: string, header: string, lines: seq<string>)
    ensures var after := ApplyOps(files, JobOps(job, header, lines, StatusNames(job)));
            var (se, sj) := StatusNames(job);
            se !in after && sj !in after &&
            RequestName(job) in after && FlagName(job) in after &&
            after[RequestName(job)] == RequestText(header, lines) &&
            after[FlagName(job)] == Pending &&
            forall name :: name in files && name !in {se, sj, RequestName(job), FlagName(job)} ==>
              name in after && after[name] == files[name]
  {
    var ops := JobOps(job, header, lines, StatusNames(job));
    Progress(files, job, header, lines, StatusNames(job), |lines| + 6);
    assert ops[..|lines| + 6] == ops;
    NamesDistinct(job);
  }

  /**
   * Crash consistency: after any prefix of the write, a flag file that was
   * not there before exists only once the request file is complete, and
   * files other than the four involved are unchanged.
   */
  lemma InterruptedWrite(files: Files, job: string, header: string, lines: seq<string>, k: nat)
    requires k <= |lines| + 6
    ensures var after := ApplyOps(files, JobOps(job, header, lines, StatusNames(job))[..k]);
            (FlagName(job) in after && FlagName(job) !in files ==>
               RequestName(job) in after && after[RequestName(job)] == RequestText(header, lines)) &&
            (k < |lines| + 5 ==> (FlagName(job) in after <==> FlagName(job) in files)) &&
            (k >= 2 ==> StatusNames(job).0 !in after && StatusNames(job).1 !in after) &&
            forall name :: name in files && name !in {StatusNames(job).0, StatusNames(job).1, RequestName(job), FlagName(job)} ==>
              name in after && after[name] == files[name]
  {
    Progress(files, job, header, lines, StatusNames(job), k);
    NamesDistinct(job);
  }

  /**
   * A stale flag is the exception: when a flag file is left from an earlier
   * job, an interrupted write can leave it beside a request file that is
   * incomplete (here: only the header).
   */
  lemma StaleFlagBesidePartialRequest(files: Files, job: string, header: string, lines: seq<string>)
    requires FlagName(job) in files && lines != []
    ensures var after := ApplyOps(files, JobOps(job, header, lines, StatusNames(job))[..4]);
            FlagName(job) in after && after[RequestName(job)] != RequestText(header, lines)
  {
    Progress(files, job, header, lines, StatusNames(job), 4);
    NamesDistinct(job);
    assert lines[..0] == [];
    var n := |lines|;
    assert |Join(lines)| > 0 by {
      assert Join(lines) == Join(lines[..n - 1]) + lines[n - 1] + "\n";
    }
  }
}
