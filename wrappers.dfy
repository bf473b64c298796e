/** Option and Result types, and the errors the utilities raise. */
module Wrappers {

  datatype Option<+T> = None | Some(value: T) {
    function GetOr(default: T): T {
      match this
      case Some(v) => v
      case None => default
    }
  }

  /** The exceptions the modelled code raises, one constructor per raise site kind. */
  datatype Error =
    | CalledProcessError(returncode: int)      // run_git_command(..., check=True) on a non-zero exit
    | RuntimeError(message: string)            // run_git_stdout on a non-zero exit
    | InvalidTimestamp                         // int(...) of a malformed log marker payload
    | InvalidCommitListLine(lineNumber: nat)   // load_commit_list: a line with inner whitespace
    | UnsupportedLineEnding(ending: string)    // normalize_line_endings: unknown target
    | AttributeError(attribute: string)        // an attribute looked up on a value that lacks it
    | ZeroDivision                             // a percent computed with total == 0

  datatype Result<+T> = Ok(value: T) | Err(error: Error)
}
