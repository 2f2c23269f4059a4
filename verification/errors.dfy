/** The exceptions the client raises, as values. */
module Errors {

  /** `NotFoundException` (carries the path), `IncorrectTypeException` and
      the generic `EtcdException`. */
  datatype Error = NotFound(path: string) | IncorrectType(message: string) | Generic(message: string)

  /** The exception message; a not-found error prefixes its path. */
  function Message(e: Error): string {
    match e
    case NotFound(path) => "Path not found: " + path
    case IncorrectType(m) => m
    case Generic(m) => m
  }
}
