/** Error taxonomy and status codes shared by both channel kinds. */
module ChannelErrors {

  /** `channel_error`: the conditions the library reports by throwing a `channel_exception`. */
  datatype ChannelError = IllegalWrite | InvalidSize

  /** `read_status`: success or closed from any read, timeout only from a timed read. */
  datatype ReadStatus = ReadSuccess | ReadTimeout | ReadClosed

  /** `write_status`: there is no closed status, since writing to a closed channel is an error. */
  datatype WriteStatus = WriteSuccess | WriteTimeout

  /** The outcome of an operation that may throw: `Err(e)` stands for `throw channel_exception(e)`. */
  datatype Result<+R> = Ok(value: R) | Err(error: ChannelError)

  /** The message `what()` starts from before the table lookup. */
  const UnknownError: string := "unknown error"

  /** The exception's message table. */
  const ErrorMessages: map<ChannelError, string> :=
    map[IllegalWrite := "illegal write on closed channel",
        InvalidSize := "buffered channel cannot have size of zero"]

  /** `channel_exception::what`: the table entry for the error, or the default when the table has none.
      The table covers every declared error, so the default is never the answer. */
  function What(e: ChannelError): (msg: string)
    ensures e in ErrorMessages
    ensures msg != UnknownError
  {
    assert e in ErrorMessages by {
      assert e == IllegalWrite || e == InvalidSize;
      assert IllegalWrite in ErrorMessages && InvalidSize in ErrorMessages;
    }
    if e in ErrorMessages then ErrorMessages[e] else UnknownError
  }

  /** Different errors are reported with different messages. */
  lemma WhatDistinguishesErrors(e1: ChannelError, e2: ChannelError)
    ensures What(e1) == What(e2) <==> e1 == e2
  {
  }
}
