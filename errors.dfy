/**
  The failure vocabulary of the pipeline. Each Error constructor stands for one
  exception class the services throw (or, for IO, java.io.IOException as it
  travels up before a service wraps it); the message is the exception message.
*/
module Errors {

  datatype Option<T> = None | Some(value: T)

  datatype Error =
    | WebsiteConnection(message: string)  // WebsiteConnectionException
    | DownloadFailed(message: string)     // FileDownloadException
    | PdfParse(message: string)           // PdfParseException
    | ZipFailure(message: string)         // the project's ZipException
    | IllegalArgument(message: string)    // IllegalArgumentException
    | IO(message: string)                 // IOException (checked)
    | NullPointer                         // NullPointerException

  datatype Result<T> = Ok(value: T) | Err(error: Error)
  {
    predicate IsFailure() {
      Err?
    }

    function PropagateFailure<U>(): Result<U>
      requires Err?
    {
      Err(error)
    }

    function Extract(): T
      requires Ok?
    {
      value
    }

    /** The result with its value forgotten. */
    function ToOutcome(): Outcome {
      if Ok? then Pass else Fail(error)
    }
  }

  /** The result of an operation that has no value to return. */
  datatype Outcome = Pass | Fail(error: Error)
}
