/** The errors of `src/error.rs` that the modelled operations return, and their texts. */
module Errors {

  datatype GuardError =
    | InvalidToken
    | SessionExpired
    | SessionRevoked
    | DatabaseError(detail: string)
    | ConfigError(detail: string)
    | SerializationError(detail: string)
    | UuidError(detail: string)
    | AuditChannelClosed
  {
    /** What a query can end in: the statement fails, or a row it returns does not decode. */
    predicate FromQuery() {
      DatabaseError? || ConfigError? || SerializationError? || UuidError?
    }

    function Text(): string {
      match this
      case InvalidToken => "invalid token"
      case SessionExpired => "session expired"
      case SessionRevoked => "session revoked"
      case DatabaseError(detail) => "database error: " + detail
      case ConfigError(detail) => "config error: " + detail
      case SerializationError(detail) => "serialization error: " + detail
      case UuidError(detail) => "uuid parse error: " + detail
      case AuditChannelClosed => "audit channel closed"
    }
  }
}
