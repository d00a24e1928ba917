/** Answers of the remote resource-management service, as the tools see them. */
module Calls {

  /** The answer to one call: its value, or an error. On an error the tools log it
      and end the process, so nothing after a failed call happens. */
  datatype Reply<+T> = Ok(value: T) | Error

  /** The outcome of a step that makes several calls: its value, or the resource
      name at which the first failing call was made. */
  datatype Result<+T> = Success(value: T) | Fatal(at: string)
}
