/** Types shared by every module: bytes, the errors the queue and its Redis
    client can report, and the Option/Result wrappers used for error paths. */
module Base {

  /** One octet; Go's []byte and string are both sequences of these. */
  type Byte = b: int | 0 <= b < 256

  type Bytes = seq<Byte>

  /** The errors that reach a caller. Go errors are opaque values; the model
      keeps one constructor per origin so that "returns that exact error"
      can be stated. Canceled and DeadlineExceeded are what a cancellation
      script returns, Transport what a connection fault script returns and
      App what a handler script returns; the queue only passes them on. */
  datatype Error =
    | ErrExists                // delayq.ErrExists: the member is already queued
    | Canceled                 // context.Canceled
    | DeadlineExceeded         // context.DeadlineExceeded
    | Transport(code: nat)     // any failure reported by the Redis connection
    | OddReply                 // ZRANGEBYSCORE reply with an odd number of items
    | BadScore(text: Bytes)    // a score that does not parse as a number
    | BadMember                // member bytes that do not decode to a message
    | App(code: nat)           // an error produced by the caller's handler

  datatype Option<T> = None | Some(value: T)

  datatype Result<T> = Ok(value: T) | Err(error: Error)
}
