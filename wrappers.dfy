/** Small value types shared by every module of the model. */
module Wrappers {

  /** Python's `None`-or-value. */
  datatype Option<+T> = None | Some(value: T) {
    function GetOr(default: T): T {
      match this
      case Some(v) => v
      case None => default
    }
  }

  /** A byte, as Python's `bytes` holds them. */
  type byte = b: int | 0 <= b < 256

  type Bytes = seq<byte>

  /** The Python exceptions the modelled code lets escape (each ends the request with HTTP 500). */
  datatype PyError =
    | ValueError          // `Fernet(key)` on a malformed key
    | UnicodeDecodeError  // `bytes.decode("utf-8")` on bytes that are not UTF-8
    | IntegrityError      // a commit that breaks a UNIQUE column
    | AttributeError      // a method called on None (`None.strip()`, `login_user(None)`)
    | TypeError           // `check_password(None)`: bcrypt given no password

  /** Either the value a Python call returned or the exception it raised. */
  datatype Outcome<+T> = Returned(value: T) | Raised(error: PyError)
}
