/** Small value wrappers shared by the whole model. */
module Wrappers {

  /** An optional value: Python's `None` or a present value. */
  datatype Option<+T> = None | Some(value: T)

  /** The outcome of a step that performs a fetch: the value, or a transport
      failure (an exception out of `requests.get` or `raise_for_status`). */
  datatype Fetched<+T> = Ok(value: T) | Failed
}
