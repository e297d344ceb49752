/** Option and Result wrappers and the exceptions that casaconfig's update
    functions raise. */
module Errors {

  datatype Option<+T> = None | Some(value: T)

  /** Where a propagated, unnamed exception of measures_update came from. */
  datatype FailStage =
    | TouchFailed     // os.utime on a readme that is not there
    | ConnectFailed   // FTP connect, login, cwd, nlst or size failed
    | NoVersions      // files[-1] on an empty server listing (IndexError)
    | DownloadFailed  // retrbinary failed after measures.ztar was opened
    | ExtractFailed   // tarfile.open or extractall failed

  /** The exceptions raised by measures_update and measures_available. */
  datatype Error =
    | UnsetMeasurespath
    | AutoUpdatesNotAllowed
    | NoReadme
    | BadReadme
    | NotWritable
    | BadLock
    | RemoteError(msg: string)   // re-raised socket.gaierror from the listing
    | Exception(msg: string)     // the plain Exception of the listing
    | Failure(stage: FailStage)  // any other exception, propagated as is

  datatype Result<+T> = Ok(value: T) | Err(error: Error)
}
