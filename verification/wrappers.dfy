/** Small failure-carrying datatypes shared by the model. */
module Wrappers {

  /** The conventional Some/None datatype, used where the Python code returns `None`. */
  datatype Option<+T> = None | Some(value: T)

  /** Outcome of one call to the chat-completion service: the reply text, or the
      message of the exception the client raised. */
  datatype Reply = Success(text: string) | Failure(msg: string)
}
