/** Small shared vocabulary: optional values, server replies and the outcome of a
    step that may raise. */
module Base {

  /** A value that may be missing (Python's `None`). */
  datatype Option<T> = None | Some(value: T)

  /** One tagged reply of the mail server: the status word and its payload. */
  datatype Reply<T> = Reply(status: string, data: T)

  /** The outcome of a step that may raise an exception, with the exception's message. */
  datatype Result<T> = Ok(value: T) | Raised(message: string)

  /** The only status word the program accepts. */
  const OK: string := "OK"

  /** The one-line guard used after every server command: it raises unless the
      status is exactly "OK". */
  function CheckResponse(status: string, commandName: string): (r: Result<()>)
    ensures r.Raised? <==> status != OK
    ensures r.Raised? ==> r.message == "Error calling " + commandName
  {
    if status != OK then Raised("Error calling " + commandName) else Ok(())
  }
}
