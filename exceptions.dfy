/**
 * The exceptions the pipeline distinguishes, and the outcome of a call that may throw.
 * Every kind carries the exception's (nullable) message; `localizedMessage` and `message`
 * coincide for these types.
 */
module Exceptions {
  import opened Wrappers

  datatype Throwable =
    | Cancellation(message: Option<string>)   // kotlin.coroutines.cancellation.CancellationException
    | IO(message: Option<string>)             // java.io.IOException / okio.IOException
    | Http(message: Option<string>)           // retrofit2.HttpException
    | Other(message: Option<string>)          // any other exception (NullPointerException, ...)

  /** A call either returns a value or throws. */
  datatype Outcome<+T> = Returned(value: T) | Threw(error: Throwable)

  /** `message.orEmpty()` */
  function MessageOrEmpty(e: Throwable): string {
    e.message.GetOr("")
  }
}
