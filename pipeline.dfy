/**
 * Handling one print job: check that the print executable exists, split the
 * message, download the document into the cache, check the paper size, run
 * the print command, and on success prune the cache. Each step that fails
 * logs and ends the job. The download and the run of the executable are
 * foreign calls; their results are given as inputs.
 */
module Pipeline {
  import opened Options
  import opened Events
  import opened Cache
  import opened Job

  // ---------------------------------------------------------------------------
  // Paths

  predicate IsSeparator(c: char) {
    c == '\\' || c == '/'
  }

  /**
   * Joining a directory and a relative file name as the Windows path functions
   * do: no separator is added after an empty directory or one that already
   * ends in a separator.
   */
  function JoinPath(dir: string, name: string): string {
    if dir == [] || IsSeparator(dir[|dir| - 1]) then dir + name else dir + "\\" + name
  }

  /** The final component of a path: everything after its last separator. */
  function BaseName(p: string): string {
    if p == [] || IsSeparator(p[|p| - 1]) then [] else BaseName(p[..|p| - 1]) + [p[|p| - 1]]
  }

  predicate NoSeparator(s: string) {
    forall i :: 0 <= i < |s| ==> !IsSeparator(s[i])
  }

  /**
   * The base name of a joined path is the file name joined, so the names the
   * cleanup logs are the cached files' own names.
   */
  lemma BaseNameOfJoin(dir: string, name: string)
    requires NoSeparator(name)
    ensures BaseName(JoinPath(dir, name)) == name
  {
    if dir == [] || IsSeparator(dir[|dir| - 1]) {
      BaseNameAfterSeparator(dir, name);
    } else {
      assert dir + "\\" + name == (dir + "\\") + name;
      BaseNameAfterSeparator(dir + "\\", name);
    }
  }

  lemma {:induction false} BaseNameAfterSeparator(prefix: string, name: string)
    requires prefix == [] || IsSeparator(prefix[|prefix| - 1])
    requires NoSeparator(name)
    ensures BaseName(prefix + name) == name
    decreases |name|
  {
    var p := prefix + name;
    if name == [] {
      assert p == prefix;
    } else {
      var init := name[..|name| - 1];
      assert p[..|p| - 1] == prefix + init;
      assert p[|p| - 1] == name[|name| - 1];
      BaseNameAfterSeparator(prefix, init);
      assert init + [name[|name| - 1]] == name;
    }
  }

  /** The print executable is looked up in the working directory. */
  function ExecutablePath(workDir: string): string {
    JoinPath(workDir, "SumatraPDF.exe")
  }

  // ---------------------------------------------------------------------------
  // What the handler is given and what it does

  /** The result of the download. */
  datatype Download = Fetched | FetchFailed(reason: string)

  /** The result of running the print command: its exit status and output, or an exception. */
  datatype Run = Exited(code: int, stdout: string, stderr: string) | LaunchFailed(reason: string)

  /** Whether listing the cache directory and reading its files' modification times succeeds. */
  datatype Listing = Listed | ListingFailed(reason: string)

  /** Everything the handler reads besides the message and the cache directory's entries. */
  datatype Environment = Environment(
    workDir: string,
    executableExists: bool,
    printer: string,
    width: Option<Dimension>,
    height: Option<Dimension>,
    download: Download,
    now: int,
    run: Run,
    listing: Listing,
    failing: set<string>)

  /** How a job ended. */
  datatype Outcome =
    | ExecutableMissing
    | MalformedMessage
    | DownloadFailed
    | InvalidPaper
    | NotLaunched
    | PrintRejected(code: int)
    | CleanupFailed
    | Printed

  /** A download the handler asks for: the document's URL and the path to save it at. */
  datatype Fetch = Fetch(url: string, path: string)

  /** What handling a job produced: its outcome, the log, the download, the command run, the new cache. */
  datatype Report = Report(
    outcome: Outcome,
    events: seq<Event>,
    fetch: Option<Fetch>,
    command: Option<seq<string>>,
    entries: seq<Entry>)

  /** The handler as a function of the cache directory's path and entries, the message and the environment. */
  function Handled(cacheDir: string, entries: seq<Entry>, msg: string, env: Environment): Report {
    if !env.executableExists then
      Report(ExecutableMissing, [ExecutableNotFound, CopyExecutableHint], None, None, entries)
    else if SplitFirstComma(msg).None? then
      Report(MalformedMessage, [JobFailed(NotEnoughValues)], None, None, entries)
    else
      Fetching(cacheDir, entries, SplitFirstComma(msg).value, env)
  }

  /** The handler from the download on, for the job the message names. */
  function Fetching(cacheDir: string, entries: seq<Entry>, job: Job, env: Environment): Report {
    var path := JoinPath(cacheDir, FileName(job));
    if env.download.FetchFailed? then
      Report(DownloadFailed, [Downloading(job.url), JobFailed(DownloadError(env.download.reason))],
             Some(Fetch(job.url, path)), None, entries)
    else
      AfterDownload(Stored(entries, FileName(job), env.now), job.url, path, env)
  }

  /** The handler from the paper size check on, the document at `path` downloaded from `url`. */
  function AfterDownload(stored: seq<Entry>, url: string, path: string, env: Environment): Report {
    var fetch := Some(Fetch(url, path));
    if !AcceptedAsWritten(env.width, env.height) then
      Report(InvalidPaper, [Downloading(url), SavedTo(path), Printing, InvalidPaperSize], fetch, None, stored)
    else
      var setting := PaperSetting(env.width.value, env.height.value);
      var argv := PrintCommand(Command(ExecutablePath(env.workDir), env.printer, setting, path));
      var ran := [Downloading(url), SavedTo(path), Printing, RunningCommand(argv)];
      match env.run
      case LaunchFailed(reason) =>
        Report(NotLaunched, ran + [JobFailed(LaunchError(reason))], fetch, Some(argv), stored)
      case Exited(code, out, err) =>
        if code != 0 then
          Report(PrintRejected(code),
                 ran + [PrintFailed(code, out + err), PrinterHint(env.printer), PaperSettingHint(setting), AdminRightsHint],
                 fetch, Some(argv), stored)
        else if env.listing.ListingFailed? then
          Report(CleanupFailed, ran + [PrintCompleted, JobFailed(ListingError(env.listing.reason))],
                 fetch, Some(argv), stored)
        else
          Report(Printed, ran + [PrintCompleted] + PruneNotes(stored, env.failing), fetch, Some(argv),
                 Pruned(stored, env.failing))
  }

  /** The job a message names when it names one. */
  function JobOf(msg: string): Job
    requires ',' in msg
  {
    SplitFirstComma(msg).value
  }

  predicate IsDeletionEvent(e: Event) {
    e.CacheFileDeleted? || e.CacheDeleteFailed?
  }

  // ---------------------------------------------------------------------------
  // Properties of the handler

  /** A missing executable ends the job before the message is looked at. */
  lemma MissingExecutableStopsFirst(cacheDir: string, entries: seq<Entry>, msg: string, env: Environment)
    requires !env.executableExists
    ensures var r := Handled(cacheDir, entries, msg, env);
      r.outcome == ExecutableMissing && r.events == [ExecutableNotFound, CopyExecutableHint] &&
      r.fetch.None? && r.command.None? && r.entries == entries
  {
  }

  /** A message without a comma is logged as a failure; nothing is downloaded or printed. */
  lemma MalformedMessageStops(cacheDir: string, entries: seq<Entry>, msg: string, env: Environment)
    requires env.executableExists && ',' !in msg
    ensures var r := Handled(cacheDir, entries, msg, env);
      r.outcome == MalformedMessage && r.events == [JobFailed(NotEnoughValues)] &&
      r.fetch.None? && r.command.None? && r.entries == entries
  {
  }

  /**
   * A download is requested exactly when the executable exists and the message
   * has a comma; it fetches the URL after the first comma into `<id>.pdf` in
   * the cache directory, the id being the text before it.
   */
  lemma FetchesFromMessage(cacheDir: string, entries: seq<Entry>, msg: string, env: Environment)
    ensures var r := Handled(cacheDir, entries, msg, env);
      (r.fetch.Some? <==> env.executableExists && ',' in msg) &&
      (r.fetch.Some? ==>
        exists id, url :: ',' !in id && msg == id + "," + url &&
          r.fetch.value == Fetch(url, JoinPath(cacheDir, id + ".pdf")))
  {
    var r := Handled(cacheDir, entries, msg, env);
    if r.fetch.Some? {
      var job := JobOf(msg);
      assert r.fetch.value == Fetch(job.url, JoinPath(cacheDir, job.id + ".pdf"));
    }
  }

  /** A failed download ends the job with the cache as it was. */
  lemma FailedDownloadLeavesCache(cacheDir: string, entries: seq<Entry>, msg: string, env: Environment)
    requires env.executableExists && ',' in msg && env.download.FetchFailed?
    ensures var r := Handled(cacheDir, entries, msg, env);
      r.outcome == DownloadFailed && r.command.None? && r.entries == entries &&
      r.events == [Downloading(JobOf(msg).url), JobFailed(DownloadError(env.download.reason))]
  {
  }

  /**
   * An unacceptable paper size ends the job before any command runs; the
   * downloaded document stays in the cache, since no pruning happens.
   */
  lemma InvalidPaperKeepsDownload(cacheDir: string, entries: seq<Entry>, msg: string, env: Environment)
    requires env.executableExists && ',' in msg && env.download.Fetched?
    requires !AcceptedAsWritten(env.width, env.height)
    ensures var r := Handled(cacheDir, entries, msg, env);
      r.outcome == InvalidPaper && r.command.None? &&
      r.entries == Stored(entries, FileName(JobOf(msg)), env.now) &&
      Entry(FileName(JobOf(msg)), env.now, true) in r.entries &&
      r.events[|r.events| - 1] == InvalidPaperSize
  {
  }

  /**
   * A command is run only for a paper size the check accepts, and it is the
   * print executable of the working directory printing the downloaded
   * document to the chosen printer with the paper size setting, silently.
   */
  lemma CommandWhenAccepted(cacheDir: string, entries: seq<Entry>, msg: string, env: Environment)
    ensures var r := Handled(cacheDir, entries, msg, env);
      r.command.Some? <==>
        env.executableExists && ',' in msg && env.download.Fetched? && AcceptedAsWritten(env.width, env.height)
    ensures var r := Handled(cacheDir, entries, msg, env);
      r.command.Some? ==>
        r.fetch.Some? &&
        r.command.value == [ExecutablePath(env.workDir), "-print-to", env.printer, "-print-settings",
                            "paperSize=" + env.width.value.shown + "x" + env.height.value.shown + "mm",
                            "-silent", r.fetch.value.path]
  {
  }

  /**
   * With finite dimensions, as the entry fields normally hold, a command runs
   * exactly when the intended check accepts the paper size.
   */
  lemma FiniteSizesAsIntended(cacheDir: string, entries: seq<Entry>, msg: string, env: Environment)
    requires env.width.Some? ==> env.width.value.number.Finite?
    requires env.height.Some? ==> env.height.value.number.Finite?
    ensures var r := Handled(cacheDir, entries, msg, env);
      r.command.Some? <==>
        env.executableExists && ',' in msg && env.download.Fetched? && AcceptedPaperSize(env.width, env.height)
  {
    CommandWhenAccepted(cacheDir, entries, msg, env);
    PaperChecksAgreeOnFinite(env.width, env.height);
  }

  /** A width field of `nan` passes the check, so the job goes on to run the print command. */
  lemma NotANumberWidthPrints(cacheDir: string, entries: seq<Entry>, msg: string, env: Environment)
    requires env.executableExists && ',' in msg && env.download.Fetched?
    requires env.width == Some(Dimension(NaN, "nan")) && env.height == Some(Dimension(Finite(297.0), "297.0"))
    ensures Handled(cacheDir, entries, msg, env).command.Some?
  {
    NotANumberPassesAsWritten();
    CommandWhenAccepted(cacheDir, entries, msg, env);
  }

  /** The cache is pruned if and only if the command ran and exited with status 0. */
  lemma PrunedExactlyWhenPrinted(cacheDir: string, entries: seq<Entry>, msg: string, env: Environment)
    ensures var r := Handled(cacheDir, entries, msg, env);
      r.outcome == Printed <==> r.command.Some? && env.run.Exited? && env.run.code == 0 && env.listing.Listed?
    ensures var r := Handled(cacheDir, entries, msg, env);
      r.outcome == Printed ==>
        var stored := Stored(entries, FileName(JobOf(msg)), env.now);
        r.entries == Pruned(stored, env.failing)
  {
    CommandWhenAccepted(cacheDir, entries, msg, env);
  }

  /**
   * A cleanup whose listing raises after a successful print deletes nothing:
   * the handler's catch-all logs the failure after the completion, and the
   * cache keeps the download.
   */
  lemma ListingFailureKeepsCache(cacheDir: string, entries: seq<Entry>, msg: string, env: Environment)
    requires env.executableExists && ',' in msg && env.download.Fetched? && AcceptedAsWritten(env.width, env.height)
    requires env.run.Exited? && env.run.code == 0 && env.listing.ListingFailed?
    ensures var r := Handled(cacheDir, entries, msg, env);
      r.outcome == CleanupFailed && r.entries == Stored(entries, FileName(JobOf(msg)), env.now) &&
      r.events[|r.events| - 2..] == [PrintCompleted, JobFailed(ListingError(env.listing.reason))]
  {
    HandledStages(cacheDir, entries, msg, env);
  }

  /** Where a job that got past the split and the download continues. */
  lemma HandledStages(cacheDir: string, entries: seq<Entry>, msg: string, env: Environment)
    requires env.executableExists && ',' in msg && env.download.Fetched?
    ensures Handled(cacheDir, entries, msg, env)
         == AfterDownload(Stored(entries, FileName(JobOf(msg)), env.now), JobOf(msg).url,
                          JoinPath(cacheDir, FileName(JobOf(msg))), env)
  {
    assert Handled(cacheDir, entries, msg, env) == Fetching(cacheDir, entries, JobOf(msg), env);
  }

  /** After the download, a job that does not print changes nothing more and deletes nothing. */
  lemma AfterDownloadNoPruning(stored: seq<Entry>, url: string, path: string, env: Environment)
    ensures var r := AfterDownload(stored, url, path, env);
      r.outcome != Printed ==> r.entries == stored && forall e :: e in r.events ==> !IsDeletionEvent(e)
  {
  }

  /**
   * A job that does not print logs no deletion and removes nothing: the cache
   * is as it was, or holds the downloaded document in addition.
   */
  lemma NoPruningUnlessPrinted(cacheDir: string, entries: seq<Entry>, msg: string, env: Environment)
    ensures var r := Handled(cacheDir, entries, msg, env);
      r.outcome != Printed ==>
        (forall e :: e in r.events ==> !IsDeletionEvent(e)) &&
        (r.entries == entries || (',' in msg && r.entries == Stored(entries, FileName(JobOf(msg)), env.now)))
  {
    if env.executableExists && ',' in msg && env.download.Fetched? {
      HandledStages(cacheDir, entries, msg, env);
      var job := JobOf(msg);
      AfterDownloadNoPruning(Stored(entries, FileName(job), env.now), job.url, JoinPath(cacheDir, FileName(job)), env);
    }
  }

  /** After the download, a job that does not print logs an error. */
  lemma AfterDownloadFailureLogsError(stored: seq<Entry>, url: string, path: string, env: Environment)
    ensures var r := AfterDownload(stored, url, path, env);
      r.outcome != Printed ==> exists e :: e in r.events && SeverityOf(e) == Error
  {
    var r := AfterDownload(stored, url, path, env);
    if r.outcome.PrintRejected? {
      assert SeverityOf(r.events[4]) == Error;
    } else if r.outcome != Printed {
      assert SeverityOf(r.events[|r.events| - 1]) == Error;
    }
  }

  /** Every job that does not print logs an error. */
  lemma FailureLogsError(cacheDir: string, entries: seq<Entry>, msg: string, env: Environment)
    ensures var r := Handled(cacheDir, entries, msg, env);
      r.outcome != Printed ==> exists e :: e in r.events && SeverityOf(e) == Error
  {
    var r := Handled(cacheDir, entries, msg, env);
    if !env.executableExists {
      assert SeverityOf(r.events[0]) == Error;
    } else if ',' !in msg || env.download.FetchFailed? {
      assert SeverityOf(r.events[|r.events| - 1]) == Error;
    } else {
      HandledStages(cacheDir, entries, msg, env);
      var job := JobOf(msg);
      AfterDownloadFailureLogsError(Stored(entries, FileName(job), env.now), job.url, JoinPath(cacheDir, FileName(job)), env);
    }
  }

  /** Handling a job keeps the names of the cache directory's entries distinct. */
  lemma HandledKeepsDistinctNames(cacheDir: string, entries: seq<Entry>, msg: string, env: Environment)
    requires DistinctNames(entries)
    ensures DistinctNames(Handled(cacheDir, entries, msg, env).entries)
  {
    if env.executableExists && ',' in msg && env.download.Fetched? {
      HandledStages(cacheDir, entries, msg, env);
      var job := JobOf(msg);
      var stored := Stored(entries, FileName(job), env.now);
      var r := AfterDownload(stored, job.url, JoinPath(cacheDir, FileName(job)), env);
      assert r.entries == stored || r.entries == Pruned(stored, env.failing);
      WithoutKeepsDistinctNames(stored, Succeeded(Victims(stored), env.failing));
    }
  }

  /**
   * A printed job's own document survives the pruning that follows when it is
   * newer than every other entry of the cache.
   */
  lemma PrintedKeepsOwnDocument(cacheDir: string, entries: seq<Entry>, msg: string, env: Environment)
    requires DistinctNames(entries)
    requires ',' in msg
    requires forall e :: e in entries && e.name != FileName(JobOf(msg)) ==> e.mtime < env.now
    ensures var r := Handled(cacheDir, entries, msg, env);
      r.outcome == Printed ==> Entry(FileName(JobOf(msg)), env.now, true) in r.entries
  {
    PrunedExactlyWhenPrinted(cacheDir, entries, msg, env);
    FreshFileSurvives(entries, FileName(JobOf(msg)), env.now, env.failing);
  }

  // ---------------------------------------------------------------------------
  // The service

  class PrintService {
    /** The path of the cache directory. */
    const cacheDir: string
    /** The cache directory's contents. */
    const cache: CacheDirectory

    constructor (cacheDir: string, entries: seq<Entry>)
      requires DistinctNames(entries)
      ensures this.cacheDir == cacheDir && fresh(cache) && cache.entries == entries && cache.Valid()
    {
      this.cacheDir := cacheDir;
      cache := new CacheDirectory(entries);
    }

    /** Handles the message `msg` of one print job. */
    method HandlePrintJob(msg: string, env: Environment)
      returns (outcome: Outcome, events: seq<Event>, fetch: Option<Fetch>, command: Option<seq<string>>)
      requires cache.Valid()
      modifies cache
      ensures cache.Valid()
      ensures Report(outcome, events, fetch, command, cache.entries)
           == Handled(cacheDir, old(cache.entries), msg, env)
    {
      fetch := None;
      command := None;
      if !env.executableExists {
        outcome := ExecutableMissing;
        events := [ExecutableNotFound, CopyExecutableHint];
        return;
      }
      var job := SplitFirstComma(msg);
      if job.None? {
        outcome := MalformedMessage;
        events := [JobFailed(NotEnoughValues)];
        return;
      }
      var name := FileName(job.value);
      var path := JoinPath(cacheDir, name);
      events := [Downloading(job.value.url)];
      fetch := Some(Fetch(job.value.url, path));
      if env.download.FetchFailed? {
        outcome := DownloadFailed;
        events := events + [JobFailed(DownloadError(env.download.reason))];
        return;
      }
      assert Handled(cacheDir, old(cache.entries), msg, env) == Fetching(cacheDir, old(cache.entries), job.value, env);
      cache.Store(name, env.now);
      ghost var stored := cache.entries;
      assert Handled(cacheDir, old(cache.entries), msg, env) == AfterDownload(stored, job.value.url, path, env);
      events := events + [SavedTo(path), Printing];
      assert events == [Downloading(job.value.url), SavedTo(path), Printing];
      if !AcceptedAsWritten(env.width, env.height) {
        outcome := InvalidPaper;
        events := events + [InvalidPaperSize];
        return;
      }
      var setting := PaperSetting(env.width.value, env.height.value);
      var argv := PrintCommand(Command(ExecutablePath(env.workDir), env.printer, setting, path));
      events := events + [RunningCommand(argv)];
      assert events == [Downloading(job.value.url), SavedTo(path), Printing, RunningCommand(argv)];
      command := Some(argv);
      match env.run {
        case LaunchFailed(reason) =>
          outcome := NotLaunched;
          events := events + [JobFailed(LaunchError(reason))];
        case Exited(code, out, err) =>
          if code != 0 {
            outcome := PrintRejected(code);
            events := events + [PrintFailed(code, out + err), PrinterHint(env.printer), PaperSettingHint(setting), AdminRightsHint];
          } else {
            events := events + [PrintCompleted];
            if env.listing.ListingFailed? {
              outcome := CleanupFailed;
              events := events + [JobFailed(ListingError(env.listing.reason))];
            } else {
              outcome := Printed;
              var notes := cache.Cleanup(env.failing);
              events := events + notes;
            }
          }
      }
    }
  }
}
