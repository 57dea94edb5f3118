/**
 * What the print service logs while it handles a job. Each event is one call
 * of the log operation in `Journal`; its text is left abstract and only the
 * facts it reports are kept.
 */
module Events {

  /** The tag each log call carries for display colouring. */
  datatype Severity = Info | Success | Warning | Error | System

  /** Why a job was abandoned by the handler's catch-all. */
  datatype Cause =
    | NotEnoughValues             // the message holds no comma
    | DownloadError(reason: string)
    | LaunchError(reason: string)  // running the print executable raised
    | ListingError(reason: string) // listing the cache directory for the cleanup raised

  datatype Event =
    | ExecutableNotFound           // the print executable is missing
    | CopyExecutableHint           // ... and where to put it
    | Downloading(url: string)
    | SavedTo(path: string)
    | Printing
    | InvalidPaperSize
    | RunningCommand(argv: seq<string>)
    | PrintFailed(exitCode: int, output: string)
    | PrinterHint(printer: string)
    | PaperSettingHint(setting: string)
    | AdminRightsHint
    | PrintCompleted
    | CacheFileDeleted(name: string)
    | CacheDeleteFailed(name: string)
    | JobFailed(cause: Cause)

  function SeverityOf(e: Event): Severity {
    match e
    case ExecutableNotFound => Error
    case CopyExecutableHint => Info
    case Downloading(_) => Info
    case SavedTo(_) => Success
    case Printing => Info
    case InvalidPaperSize => Error
    case RunningCommand(_) => Info
    case PrintFailed(_, _) => Error
    case PrinterHint(_) => Info
    case PaperSettingHint(_) => Info
    case AdminRightsHint => Info
    case PrintCompleted => Success
    case CacheFileDeleted(_) => Warning
    case CacheDeleteFailed(_) => Error
    case JobFailed(_) => Error
  }
}
