# Silent printer service: a Dafny model of its core

The silent printer service takes print jobs from a local websocket client.
Each job is a text message `"<job id>,<document url>"`. For each job the
service:

1. checks that the print executable `SumatraPDF.exe` exists in the working directory;
2. splits the message at its first comma;
3. downloads the document into the cache directory as `<job id>.pdf`;
4. checks the configured paper size;
5. runs the executable silently against the chosen printer;
6. after a successful print, prunes the cache down to the `MAX_CACHED_FILES`
   (10) most recently modified PDF files.

Every step writes an entry to a log file, `printer_log.txt`. Each log call
reads the file back as a list of lines, appends its entry as one more element,
and keeps the newest `MAX_LOG_LINES` (10) elements. An entry whose message holds
a newline is one element but several lines, so the file can then hold more
than 10 lines (see "## Findings").

The model has five modules, one file each.

- `Options` (`options.dfy`): an optional value.
- `Events` (`events.dfy`): the facts each log call reports, and their
  display severity. The wording of the messages is left abstract.
- `Journal` (`journal.dfy`): the log file.
  - The file is modelled by its **text**. `ReadLines` is reading it line by
    line, as Python's `readlines` does: each line keeps its newline, and a last
    line without one is kept as it is. `Concat` is `writelines`.
  - `RotateAsWritten` is what one log call writes, as the code does it.
    `LogJournal` is a class holding the file. Its `Log` method is the read,
    append, truncate and write of one log call, and it writes `RotateAsWritten`.
  - `Rotate` re-splits the entry into lines and so keeps the 10-line limit for
    every message. It is the corrected rotation; on one-line entries the two agree.
- `Cache` (`cache.dfy`): the cache directory.
  - A directory is a sequence of entries: name, modification time, and whether
    the entry is a regular file. Entries come in listing order, and no two
    share a name.
  - `CacheDirectory` is a class holding those entries. `Cleanup` works
    imperatively: a listing loop, a stable sort by modification time, and a
    deletion loop in which each deletion can fail on its own.
  - Pure functions state what the cleanup leaves (`Pruned`) and what it logs
    (`PruneNotes`).
- `Job` (`job.dfy`): the pure steps.
  - The first-comma split of the message.
  - The paper size check. A dimension is a finite real number, an infinity, or
    not-a-number, as `float()` can return; finite values are exact, not rounded
    to doubles. `AcceptedAsWritten` is the check as the code has it,
    `AcceptedPaperSize` the corrected one.
  - The paper setting argument and the command line.
- `Pipeline` (`pipeline.dfy`): the handler.
  - `Handled` states what one job does as a function of its inputs:
    `Fetching` from the download on, `AfterDownload` from the paper check on.
  - `PrintService.HandlePrintJob` is the imperative handler with its early
    returns. It is proved to produce exactly what `Handled` says.
  - Both apply the paper check as written, so `nan` and `inf` dimensions
    reach the print command, as they do in the code.

Wherever the service calls out, the result is an input:

- whether the executable exists;
- the download's outcome;
- the print command's exit code and output, or the exception that running it raised;
- the document's modification time;
- which cache deletions raise, and whether listing the cache directory raises;
- whether reading the log file raises;
- the timestamp.

The handler returns the events it logs in order. Each event is one call of
the log operation that `Journal` models.

An empty job id is accepted (`Job.SplitEmptyId`), as the code accepts it,
although a job id is meant to be non-empty.

A failed download can leave a partial file behind, although a failed job is
meant to leave no file. The model does not capture this: it leaves out partial
files (see "## Left out").

## Model

| member | source | states |
|---|---|---|
| Journal.ReadLines | silent_printer_app.py:196-197 | reading the file line by line gives non-empty elements, and writing them back gives the same text |
| Journal.ReadLinesSplitsAtNewlines | silent_printer_app.py:196-197 | every element read but the last is a complete line, and the last is complete or holds no newline |
| Journal.ReadLinesUnique | silent_printer_app.py:196-197 | any list of non-empty elements broken at newlines that writes out to the text is the one reading returns: the split is exactly the one at the newlines |
| Journal.Concat | silent_printer_app.py:212-213 | writing the lines one after another; `ReadLines` and `ReadConcat` state that it inverts reading |
| Journal.LogEntry | silent_printer_app.py:184 | the entry `[<timestamp>] <message>` and a newline; `EntryIsLine` states when it is one line |
| Journal.Tail | silent_printer_app.py:208-209 | keeping the last `n` elements gives `min(n, len)` elements, and they are a suffix of the list |
| Journal.EntryIsLine | silent_printer_app.py:184 | an entry `[<timestamp>] <message>\n` is one line exactly when its timestamp and message hold no newline |
| Journal.RotateAsWritten | silent_printer_app.py:194-213 | the file one log call writes: the lines read back, the entry appended as one element, the newest `MaxLogLines` elements written out; its properties are the lemmas below |
| Journal.RotateAsWrittenKeepsNewest | silent_printer_app.py:204-213 | whatever the message, the new file is the newest `MaxLogLines - 1` lines read from the old one followed by the whole entry |
| Journal.RotateAsWrittenSuffix | silent_printer_app.py:204-213 | the new file is a suffix of the old text with the entry appended: nothing is invented or reordered |
| Journal.RotateAppendsEntry | silent_printer_app.py:204-213 | for a one-line entry and a file ending in a newline, the new lines are `Tail(old lines + [entry], MaxLogLines)`: the newest lines of the old ones with the entry appended, of which there are `min(MaxLogLines, n + 1)`; old order is kept and the entry comes last |
| Journal.RotateFromEmpty | silent_printer_app.py:194-205 | a missing or unreadable file counts as empty, so afterwards the file is exactly the one entry, whatever the message; for a one-line entry it reads back as that one line |
| Journal.RotateAllKeepsNewest | silent_printer_app.py:182-213 | after a sequence of log calls with one-line entries, the file's lines are `Tail(old lines + entries, MaxLogLines)`: the newest `MaxLogLines` lines of the old ones with the entries appended, in logging order |
| Journal.RotateAll | silent_printer_app.py:182-213 | repeated log calls, each reading the file successfully; its properties are the two lemmas beside it |
| Journal.RotateAllKeepsLastCalls | silent_printer_app.py:182-213 | after at least `MaxLogLines` calls with one-line entries, the file is exactly the last `MaxLogLines` entries |
| Journal.RotateAsWrittenExceedsLimit | silent_printer_app.py:204-213 | a full file plus an entry whose message holds a newline gives `MaxLogLines + 1` lines under the rotation as written |
| Journal.MultilineMessageOverflows | silent_printer_app.py:204-213 | a concrete instance: ten lines `x`, then the message `a\nb`, gives more than `MaxLogLines` lines |
| Journal.Rotate | silent_printer_app.py:207 | the corrected rotation, which keeps the newest `MaxLogLines` lines of the old text with the entry appended; its properties are the two lemmas below |
| Journal.RotateKeepsNewestLines | silent_printer_app.py:207-209 | under the corrected rotation, after any log call the file's lines are the newest `MaxLogLines` lines of the old text with the entry appended; there are at most `MaxLogLines` of them; the file ends in a newline |
| Journal.RotateAsWrittenAgrees | silent_printer_app.py:204-213 | for one-line entries and a file ending in a newline, the rotation as written equals the corrected one |
| Journal.LogJournal.Log | silent_printer_app.py:182-213 | the file exists afterwards, and its text is `RotateAsWritten` of the old text (empty if the file was missing or unreadable) and the new entry; it ends in a newline; after a read, it is the newest `MaxLogLines - 1` old lines followed by the whole entry, and after a missing or unreadable file, exactly the entry; for a one-line entry and a file ending in a newline, `Lines() == Tail(old Lines() + [entry], MaxLogLines)`, at most `MaxLogLines` lines |
| Cache.Lower | silent_printer_app.py:236 | lower-casing keeps the length, leaves no letter `A`-`Z`, keeps every other character, and maps each such letter to the one 32 code points above |
| Cache.LowerIdempotent | silent_printer_app.py:236 | lower-casing twice is lower-casing once |
| Cache.IsPdfName | silent_printer_app.py:236 | the name test: the lower-cased name ends in `.pdf`; `IsPdfNameByExtension` states it by the last four characters |
| Cache.IsCachedPdf | silent_printer_app.py:236 | a managed entry: a regular file with a PDF name |
| Cache.IsPdfNameByExtension | silent_printer_app.py:236 | the name test holds exactly when the last four characters, lower-cased, are `.pdf` |
| Cache.PdfNameOfJob | silent_printer_app.py:265 | the file a job saves, `<id>.pdf`, is a name the cleanup manages |
| Cache.UpperCasePdfName | silent_printer_app.py:236 | a `.PDF` extension matches too |
| Cache.PdfFiles | silent_printer_app.py:234-238 | the managed files are exactly the listed entries that are regular files with a PDF name |
| Cache.SortByMtime | silent_printer_app.py:241 | the sort is a permutation, ordered by modification time, oldest first |
| Cache.InsertKeepsSorted | silent_printer_app.py:241 | inserting into a sorted list keeps it sorted |
| Cache.RankedMembers | silent_printer_app.py:234-241 | the ranked files are exactly the managed files of the directory |
| Cache.Ranked | silent_printer_app.py:234-241 | the managed files sorted by modification time, oldest first; `RankedMembers` states its members |
| Cache.Excess | silent_printer_app.py:244-245 | the number of files over `MAX_CACHED_FILES`, zero when within it |
| Cache.Victims | silent_printer_app.py:244-245 | the oldest `Excess` ranked files, the ones whose deletion is attempted; `VictimsCount` and `VictimsAreOldest` state what they are |
| Cache.Kept | silent_printer_app.py:244-245 | the ranked files after the victims, those the cleanup leaves alone |
| Cache.VictimsCount | silent_printer_app.py:244-245 | with more than `MAX_CACHED_FILES` managed files, exactly `count - MAX_CACHED_FILES` deletions are attempted, otherwise none; the attempted and kept files make up the ranking |
| Cache.VictimsAreManaged | silent_printer_app.py:234-247 | only managed files of the directory are ever attempted |
| Cache.VictimsAreOldest | silent_printer_app.py:241-247 | every file attempted is no newer than every file kept |
| Cache.Without | silent_printer_app.py:247 | deleting names removes exactly the entries with those names |
| Cache.Succeeded | silent_printer_app.py:245-250 | the names actually deleted are the attempted names whose deletion did not raise |
| Cache.Attempts | silent_printer_app.py:245-250 | the cleanup logs one event per attempted deletion |
| Cache.AttemptsReport | silent_printer_app.py:245-250 | the event of each attempt, in order, is a failure for a name whose deletion raised and a deletion otherwise |
| Cache.PruneLeavesOthers | silent_printer_app.py:234-238 | entries that are not managed files are never removed |
| Cache.FailedDeletionKeepsFile | silent_printer_app.py:246-250 | a file whose deletion raises stays, and the loop goes on: every other attempted file whose deletion does not raise is gone |
| Cache.PruneWithinLimit | silent_printer_app.py:244 | with at most `MAX_CACHED_FILES` managed files, nothing is attempted, nothing is logged, and the directory is unchanged |
| Cache.PruneKeepsNewest | silent_printer_app.py:241-250 | when every deletion succeeds, the managed files left are exactly the kept ones, the newest `MAX_CACHED_FILES` of them (or all if there were fewer) |
| Cache.PruneIdempotent | silent_printer_app.py:231-250 | after a cleanup in which every deletion succeeded, a second cleanup changes and logs nothing |
| Cache.Stored | silent_printer_app.py:268 | saving a download replaces any entry of the same name by the new file, keeps the others, and keeps names distinct |
| Cache.FreshFileSurvives | silent_printer_app.py:268-312 | a document just saved, newer than every other entry, survives the cleanup that follows |
| Cache.WithoutTwice | silent_printer_app.py:245-247 | deleting one more name after a set of names equals deleting the larger set |
| Cache.CacheDirectory.Store | silent_printer_app.py:268 | the directory afterwards is `Stored` of the old one, and its names stay distinct |
| Cache.CacheDirectory.ListManaged | silent_printer_app.py:233-238 | the listing loop collects exactly `PdfFiles` of the directory |
| Cache.CacheDirectory.RemoveOldest | silent_printer_app.py:245-250 | the deletion loop removes exactly the names whose deletion succeeds and logs `Attempts` |
| Cache.Pruned | silent_printer_app.py:231-250 | the directory after a cleanup: without the attempted names whose deletion succeeds; `PruneKeepsNewest` and its neighbours state its properties |
| Cache.PruneNotes | silent_printer_app.py:231-250 | the events a cleanup logs: one per attempted deletion; `AttemptsReport` states them |
| Cache.CacheDirectory.Cleanup | silent_printer_app.py:231-250 | the directory afterwards is `Pruned(old, failing)`; the events logged are `PruneNotes(old, failing)` |
| Job.SplitFirstComma | silent_printer_app.py:264 | a job results exactly when the message holds a comma; the id then has no comma, and id, comma and URL make up the message |
| Job.SplitJoin | silent_printer_app.py:264 | joining an id without commas to any URL and splitting gives both back |
| Job.SplitKeepsLaterCommas | silent_printer_app.py:264 | `job7,http://host/a,b.pdf` splits into `job7` and `http://host/a,b.pdf` |
| Job.SplitEmptyId | silent_printer_app.py:264 | a message starting with a comma has the empty id |
| Job.AcceptedAsWrittenCases | silent_printer_app.py:273-277 | the check as written accepts exactly dimensions that are positive finite numbers, `+inf` or not-a-number |
| Job.PaperChecksAgreeOnFinite | silent_printer_app.py:273-277 | on finite dimensions, the check as written and the intended check agree |
| Job.NotANumberPassesAsWritten | silent_printer_app.py:276 | a width of `nan` passes the check as written and fails the intended one |
| Job.InfinityPassesAsWritten | silent_printer_app.py:276 | a height of `inf` passes the check as written and fails the intended one |
| Job.AcceptedIsAcceptedAsWritten | silent_printer_app.py:273-277 | the intended check accepts nothing that the check as written rejects |
| Job.PaperSettingInjective | silent_printer_app.py:283 | the setting `paperSize=<w>x<h>mm` determines both printed dimensions |
| Job.AcceptedAsWritten | silent_printer_app.py:273-277 | the check as the code writes it: both fields parse, and neither is `<= 0` under double comparison; its cases are the lemmas above |
| Job.AcceptedPaperSize | silent_printer_app.py:280 | the corrected check: both dimensions are finite positive numbers, as the error dialog demands |
| Job.PaperSetting | silent_printer_app.py:283 | the settings argument `paperSize=<w>x<h>mm`, the dimensions as they print; `PaperSettingInjective` states what it determines |
| Job.PrintCommand | silent_printer_app.py:285-291 | the seven-element argument vector: executable, `-print-to`, printer, `-print-settings`, setting, `-silent`, document |
| Job.PrintCommandInjective | silent_printer_app.py:285-291 | distinct commands give distinct argument vectors: each part sits at its own position |
| Job.FileName | silent_printer_app.py:265 | the cache file name `<id>.pdf`; `PdfNameOfJob` states that the cleanup manages it |
| Pipeline.ExecutablePath | silent_printer_app.py:252-255 | the executable `SumatraPDF.exe` joined to the working directory |
| Pipeline.BaseName | silent_printer_app.py:248 | the final component of a path; `BaseNameOfJoin` states what it gives for the cleanup's paths |
| Pipeline.JoinPath | silent_printer_app.py:235 | joining the cache directory and a file name with a backslash, none after an empty directory or one ending in a separator; `BaseNameOfJoin` states what the cleanup logs of it |
| Pipeline.BaseNameOfJoin | silent_printer_app.py:235-248 | the base name of a joined path is the file name, so the cleanup logs the cached files' own names |
| Pipeline.Handled | silent_printer_app.py:257-315 | the whole handler as a function: the executable test, the split, then `Fetching`; its properties are the lemmas below |
| Pipeline.Fetching | silent_printer_app.py:264-269 | the handler from the download on: a failed download ends the job, a successful one stores the file and goes on to `AfterDownload` |
| Pipeline.AfterDownload | silent_printer_app.py:271-312 | the handler from the paper check on: the check as written, the command, its exit status, and the cleanup or its listing failure |
| Pipeline.MissingExecutableStopsFirst | silent_printer_app.py:258-261 | a missing executable logs two events and ends the job; no download, no command, the cache unchanged |
| Pipeline.MalformedMessageStops | silent_printer_app.py:263-315 | a message without a comma logs one failure; no download, no command, the cache unchanged |
| Pipeline.FetchesFromMessage | silent_printer_app.py:258-268 | a download happens exactly when the executable exists and the message has a comma; it fetches the URL after the first comma into `<id>.pdf` in the cache directory |
| Pipeline.FailedDownloadLeavesCache | silent_printer_app.py:263-315 | a failed download logs the download and the failure and ends the job; no command runs and the cache is unchanged |
| Pipeline.InvalidPaperKeepsDownload | silent_printer_app.py:273-281 | a paper size the check as written rejects ends the job before any command; the downloaded document stays in the cache; the last event is the paper error |
| Pipeline.CommandWhenAccepted | silent_printer_app.py:273-291 | a command runs exactly when the executable exists, the message splits, the download succeeds and the check as written accepts the paper size; it is `[<cwd>\SumatraPDF.exe, -print-to, <printer>, -print-settings, paperSize=<w>x<h>mm, -silent, <downloaded path>]` |
| Pipeline.FiniteSizesAsIntended | silent_printer_app.py:273-291 | with finite dimensions, a command runs exactly when the corrected check accepts the paper size |
| Pipeline.NotANumberWidthPrints | silent_printer_app.py:273-291 | a width field `nan` with a positive height goes on to run the print command |
| Pipeline.PrunedExactlyWhenPrinted | silent_printer_app.py:303-312 | the job counts as printed exactly when the command ran, exited with status 0 and the cache listing succeeded, and then the cache is pruned after storing the download |
| Pipeline.ListingFailureKeepsCache | silent_printer_app.py:308-315 | when the cleanup's listing raises after a successful print, nothing is deleted: the catch-all logs the failure after the completion, and the cache keeps the download |
| Pipeline.AfterDownloadNoPruning | silent_printer_app.py:273-308 | after the download, a job that does not print changes nothing more and logs no deletion |
| Pipeline.NoPruningUnlessPrinted | silent_printer_app.py:257-315 | a job that does not print logs no deletion; the cache is as it was, or holds the downloaded document in addition |
| Pipeline.AfterDownloadFailureLogsError | silent_printer_app.py:273-308 | after the download, a job that does not print logs an event of error severity |
| Pipeline.FailureLogsError | silent_printer_app.py:257-315 | every job that does not print logs an event of error severity |
| Pipeline.HandledKeepsDistinctNames | silent_printer_app.py:257-315 | handling a job keeps the cache's names distinct |
| Pipeline.PrintedKeepsOwnDocument | silent_printer_app.py:268-312 | a printed job's document, newer than every other cached file, survives the cleanup that follows |
| Pipeline.PrintService.HandlePrintJob | silent_printer_app.py:257-315 | the outcome, the events logged, the download, the command and the new cache are exactly those of `Handled` for the old cache, paper check as written included, and the cache's names stay distinct |
| Events.SeverityOf | silent_printer_app.py:246-315 | the `type=` tag each log call of the handler and the cleanup passes; `FailureLogsError` states what it gives for failed jobs |

## Left out

- The Tkinter window, the settings file, the icon, the dialog boxes and the
  display of log lines: these are user interface only. The blocking dialog for
  a bad paper size appears only as the `InvalidPaper` outcome.
- The websocket server, asyncio and the server thread: these are network
  plumbing and concurrency. Jobs are modelled one at a time, as one connection
  delivers them.
- The download, the subprocess and the existence test of the executable: these
  are foreign calls, and their results are inputs.
- Pipeline.FailedDownloadLeavesCache: a partial file left behind by a
  download that fails mid-transfer is not modelled; the cache is stated
  unchanged.
- The clock: timestamps are opaque strings, and modification times are
  integers given as inputs.
- Parsing and printing floats. A dimension is an already-parsed double
  (finite, infinite or not-a-number) together with the text it prints as; a
  field that does not parse is `None`.
- `strip()` of the print command's output: `PrintFailed` carries stdout and
  stderr concatenated.
- Cache.Stored: names compare exactly, as on a case-sensitive file system.
  On NTFS, which is case-insensitive, a job `job1` downloaded while `JOB1.pdf`
  is cached overwrites that file, where the model adds a second entry
  `job1.pdf`. The cleanup that follows can then count one file more than
  the directory holds, and delete one more old file.
- Cache.Lower: folds only `A`-`Z`, not all of Unicode lower-casing. No other
  character lower-cases into `.pdf`, so the name test is unaffected.
- Journal.ReadLines: splits at `\n` only, without universal-newline
  translation of `\r`.
- Failures to write the log file: such an error would raise out of the log
  call itself.
- A failure of `os.listdir` or `os.path.getmtime` in the cleanup is one
  input, `ListingFailed`: the model does not tell apart at which file the
  listing raised, since nothing is deleted in either case.
- The warning shown when reading the log file fails: it goes to the display,
  not to the file.
- Pipeline.JoinPath: does not model the path rules for a file name that is
  itself absolute or has a drive, such as a job id holding `\` or `C:`, nor
  a cache directory that is a bare drive such as `C:`, where the
  Windows rules add no backslash (`C:x.pdf`). The cache is modelled as
  holding the file under its own name.
- Journal.RotateKeepsNewestLines: states the line limit of the corrected
  rotation `Rotate`. The code's rotation keeps it only for one-line entries
  (`RotateAsWrittenAgrees`, `LogJournal.Log`), and exceeds it otherwise
  (`RotateAsWrittenExceedsLimit`).
- Cache.SortByMtime: is a stable insertion sort; the contracts state
  ordering and permutation, not stability.

## Findings

| source | as written | input that shows it | evidently intended | confidence | as-written member | corrected member |
|---|---|---|---|---|---|---|
| silent_printer_app.py:204-213 | each log call appends the whole entry as one list element and keeps the last 10 elements, so an entry with newlines adds several physical lines | a full 10-line log and a received frame `a\nb` (logged at line 223), or print output holding newlines: the file then has 11 lines | the file holds at most `MAX_LOG_LINES` lines | high (not executed) | Journal.RotateAsWritten, shown by Journal.RotateAsWrittenExceedsLimit and Journal.MultilineMessageOverflows | Journal.Rotate, proved in Journal.RotateKeepsNewestLines, equal to the code's rotation on one-line entries by Journal.RotateAsWrittenAgrees |
| silent_printer_app.py:274-277 | `width <= 0 or height <= 0` is false for not-a-number, and `float()` accepts `nan` and `inf`, so both pass | a width field `nan` (or a height field `inf`) with the other dimension positive | only finite positive dimensions are accepted | high (not executed) | Job.AcceptedAsWritten, shown by Job.NotANumberPassesAsWritten and Job.InfinityPassesAsWritten | Job.AcceptedPaperSize, related by Job.AcceptedIsAcceptedAsWritten and Job.PaperChecksAgreeOnFinite; Pipeline.FiniteSizesAsIntended shows the handler meets it on finite input |
