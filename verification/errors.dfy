/** The resolver's error values (errors.go) and the wrapping the
    interpolation engine adds, inspectable by kind as `errors.Is` does. */
module Errors {

  /** Why a path or an interpolation input was rejected as malformed. */
  datatype BadPathReason = MissingClosingBrace | EmptyToken | DepthExceeded

  datatype Err =
    | NotFound
    | BadPath(reason: BadPathReason)
    | Forbidden
      /** An error a resolver produced that carries none of the three kinds. */
    | Opaque(message: string)
      /** `resolve ${token}: cause`, the context added around a resolver's error. */
    | Wrapped(token: string, cause: Err)

  /** The three sentinel errors ErrNotFound, ErrBadPath and ErrForbidden. */
  datatype Kind = NotFoundKind | BadPathKind | ForbiddenKind

  /** errors.Is(e, kind): looks through every layer of wrapping. */
  predicate Is(e: Err, k: Kind) {
    match e
    case NotFound => k == NotFoundKind
    case BadPath(_) => k == BadPathKind
    case Forbidden => k == ForbiddenKind
    case Opaque(_) => false
    case Wrapped(_, cause) => Is(cause, k)
  }
}
