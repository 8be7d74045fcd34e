/** The errors the launcher's functions return, one constructor per error
    the Go code creates or passes on. Message texts are not modelled; each
    constructor carries the values its message is formatted from. */
module Errors {
  import opened Paths
  import opened Fs

  datatype Error =
    /** "Please specify src directory by SUSHIBOX_MOCK" */
    | MockUnset
    /** "Error reading asset <name> at <path>: <cause>" */
    | ReadAssetFailed(name: string, path: Path, errno: Errno)
    /** "Error reading asset info <name> at <path>: <cause>" */
    | AssetInfoFailed(name: string, path: Path, errno: Errno)
    /** "file <path>": AssetDir was given a regular file */
    | NotADirectory(path: Path)
    /** AssetDir with SUSHIBOX_MOCK unset looks `name` up relative to the
        working directory, which this model does not have */
    | NoWorkingDirectory(name: string)
    /** an error of an `os` call, passed on unchanged */
    | Os(fsError: FsError)
    /** "check info error <path>: size is different" */
    | SizeDiffers(path: Path)
    /** "check info error <path>: mode is different" */
    | ModeDiffers(path: Path)
    /** "check info error <path>: mtime is different" */
    | MtimeDiffers(path: Path)
    /** errorExit: the message went to stderr and the process exited with 1 */
    | Exit(cause: Error)
}
