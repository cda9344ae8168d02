/** Option and Result values, and the exceptions of the feed pipeline as values. */
module Base {

  datatype Option<+T> = None | Some(value: T)

  /** The outcome of an operation that either returns a value or throws. */
  datatype Result<+T> = Ok(value: T) | Err(error: Error)

  /** The exceptions the monitor service can see, named after the .NET types that carry them. */
  datatype Error =
    | HttpRequestError(status: Option<int>)  // HttpRequestException, with its (optional) HTTP status
    | TaskCanceled                           // TaskCanceledException (the HttpClient timeout)
    | TimeoutError(attempt: nat)             // TimeoutException built by the retry loop
    | EmptyContent                           // InvalidOperationException: empty RSS content
    | MissingRoot                            // InvalidOperationException: no root element
    | XmlError                               // XmlException raised by the parser
    | NullTagList                            // NullReferenceException: TagsToRemove was never configured
    | InvalidName(name: string)              // XName rejected a local name that is not an NCName
    | InvalidPrefix                          // GetNamespaceOfPrefix rejected the empty prefix
    | InvalidPattern(pattern: string)        // the regex engine rejected a pattern
    | OtherError(description: string)        // any other exception raised while fetching
    | RetriesExhausted                       // the generic Exception thrown when no error was recorded

  /** The outcome of an operation that either completes or throws. */
  datatype Outcome = Pass | Fail(error: Error)
}
