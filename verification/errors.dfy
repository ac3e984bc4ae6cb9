/**
  The failures the client can produce. The named variants are the crate's own
  error enum (whatsapp-util/src/util/error.rs); the remaining ones stand for
  `anyhow::bail!` messages, serde/protobuf/integer-parsing errors, sink errors,
  and Rust panics (index out of bounds, `unwrap` on `None`/`Err`, `unreachable!`,
  `unimplemented!`, `todo!`, reading past the end of a byte buffer).
 */
module Errors {

  datatype Error =
    | AesCipherFail
    | IntoError(reason: string)
    | StreamNotInitialized
    | StreamAlreadyInitialized
    | WrongState
    | IqMissingDevice
    | IqInvalidSignature
    | IqInvalidMessageSignature
    | UnknownNode
    | WebSocketConnectError
    | UnexpectedMessage
    | EncodeNodeError(inner: Error)
    | EncodeBinaryError(inner: Error)
    | WsClose
      // errors raised by other crates or by `bail!`
    | Bail(message: string)
    | SerdeError
    | ParseIntError
    | ProtobufError
    | SignatureError
    | SinkError
      // a Rust panic: the task that hit it is aborted
    | Panic(reason: string)

  /** `anyhow::Result<T>`, usable with `:-`. */
  datatype Result<+T> = Ok(value: T) | Err(error: Error) {

    predicate IsFailure() {
      Err?
    }

    function PropagateFailure<U>(): Result<U>
      requires Err?
    {
      Err(error)
    }

    function Extract(): T
      requires Ok?
    {
      value
    }

    /** `.map_err(wrap)` */
    function MapErr(wrap: Error -> Error): Result<T> {
      match this
      case Ok(v) => Ok(v)
      case Err(e) => Err(wrap(e))
    }

    /** `.unwrap()`: an `Err` becomes a panic. */
    function Unwrap(): Result<T> {
      match this
      case Ok(v) => Ok(v)
      case Err(e) => if e.Panic? then Err(e) else Err(Panic("called `Result::unwrap()` on an `Err` value"))
    }
  }
}
