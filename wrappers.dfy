/** Option, Result and the exception kinds the Python code raises. */
module Wrappers {

  datatype Option<+T> = None | Some(value: T)

  /** The Python exception classes the modelled code raises, each with its message or path. */
  datatype Error =
    | ValueError(msg: string)
    | TypeError(msg: string)
    | KeyError(key: string)
    | FileNotFoundError(path: string)
    | FileExistsError(path: string)
    | NotADirectoryError(path: string)
    | IsADirectoryError(path: string)
    | SameFileError(path: string)
    | NotImplementedError(msg: string)
    | DecryptException(msg: string)
    | IntegrityError(msg: string)
    | OperationalError(msg: string)
    | AttributeError(msg: string)
    | ZeroDivisionError(msg: string)
    | UnboundLocalError(msg: string)

  datatype Result<+T> = Ok(value: T) | Err(error: Error)

  /** `None` for success, or the exception that ended the operation. */
  datatype Outcome = Pass | Fail(error: Error)

  /** What `re/ori` raises in Python when ori is 0. */
  const DivisionByZero := ZeroDivisionError("division by zero")

  /** What os.path.join raises when its first argument is None: os.fspath refuses it. */
  const FirstNoneMsg := "expected str, bytes or os.PathLike object, not NoneType"

  /** What os.path.join raises when a later argument is not a path; `kind` names its type. */
  function JoinArgMsg(kind: string): string
  {
    "join() argument must be str, bytes, or os.PathLike object, not '" + kind + "'"
  }

  function Min(a: int, b: int): int { if a <= b then a else b }
  function Max(a: int, b: int): int { if a >= b then a else b }
}
