/** Option and Result, usable with `:-`, and the errors the bot's core raises. */
module Wrappers {

  datatype Option<+T> = None | Some(value: T) {
    predicate IsFailure() { None? }

    function PropagateFailure<U>(): Option<U>
      requires None?
    {
      None
    }

    function Extract(): T
      requires Some?
    {
      value
    }

    function GetOr(default: T): T {
      match this
      case Some(v) => v
      case None => default
    }
  }

  datatype Result<+R, +E> = Success(value: R) | Failure(error: E) {
    predicate IsFailure() { Failure? }

    function PropagateFailure<U>(): Result<U, E>
      requires Failure?
    {
      Failure(error)
    }

    function Extract(): R
      requires Success?
    {
      value
    }
  }
}

/** The exceptions of the Python code, one constructor per way it fails. */
module Errors {

  datatype Error =
    /** A git command exited with a non-zero status (`check_call` raised). */
    | VcsCommandFailed(command: string)
    /** `NoManifestFound`: none of the manifest file names exists in the directory. */
    | NoManifestFound(addonDir: string)
    /** `ast.literal_eval` rejected the manifest file at this path. */
    | ManifestParseError(path: string)
    /** `bump_version`: the text is not `S1.S2.MAJOR.MINOR.PATCH`. */
    | InvalidVersion(version: string)
    /** `bump_version`: the mode is none of "major", "minor", "patch". */
    | InvalidBumpMode(mode: string)
    /** `OdooSeriesNotDetected`. */
    | SeriesNotDetected
    /** `_find_pkgname`: two wheels yield different package names. */
    | MultiplePackageNames
    /** `_find_pkgname`: no wheel yields a package name. */
    | PackageNameNotFound
}
