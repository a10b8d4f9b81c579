/** The exceptions the core can raise, and the value-or-exception type
    that replaces them. */
module Outcomes {

  /** Python exceptions that escape the engine (none is caught anywhere). */
  datatype OsError =
    | FileNotFound        // FileNotFoundError
    | NotADirectory       // NotADirectoryError
    | IsADirectory        // IsADirectoryError (os.remove, open on a directory)
    | DirectoryNotEmpty   // OSError ENOTEMPTY from os.rmdir
    | FileExists          // FileExistsError from os.symlink
    | InvalidArgument     // OSError EINVAL: readlink of something that is not a link
    | IndexOutOfRange     // IndexError: `versions[-1]` on an empty list

  datatype Outcome<+T> = Ok(value: T) | Raised(error: OsError)

  datatype Option<+T> = None | Some(value: T)
}
