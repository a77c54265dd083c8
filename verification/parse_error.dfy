/** The closed set of request-line parse failures and their fixed messages. */
module ParseErrors {
  import HttpMethod
  import Utf8
  import opened Wrappers

  datatype ParseError = InvalidRequest | InvalidEncoding | InvalidProtocol | InvalidMethod

  /** `ParseError::message`, the text both `Display` and `Debug` write: it
      starts "Invalid " and names its error, so no two errors share one. */
  function Message(e: ParseError): (m: string)
    ensures |m| > 8 && m[..8] == "Invalid "
    ensures ErrorOfMessage(m) == Some(e)
  {
    match e
    case InvalidRequest => "Invalid Request"
    case InvalidEncoding => "Invalid Encoding"
    case InvalidProtocol => "Invalid Protocol"
    case InvalidMethod => "Invalid Method"
  }

  /** The error a message belongs to: the inverse of `Message`. */
  function ErrorOfMessage(m: string): (e: Option<ParseError>)
  {
    if m == "Invalid Request" then Some(InvalidRequest)
    else if m == "Invalid Encoding" then Some(InvalidEncoding)
    else if m == "Invalid Protocol" then Some(InvalidProtocol)
    else if m == "Invalid Method" then Some(InvalidMethod)
    else None
  }

  /** Distinct errors have distinct messages. */
  lemma MessagesDistinct(e1: ParseError, e2: ParseError)
    ensures Message(e1) == Message(e2) <==> e1 == e2
  {
  }

  /** `impl From<MethodError> for ParseError`: every method error is `InvalidMethod`. */
  function FromMethodError(err: HttpMethod.MethodError): (e: ParseError)
    ensures e == InvalidMethod
  {
    InvalidMethod
  }

  /** `impl From<Utf8Error> for ParseError`: every decoding error is `InvalidEncoding`,
      whatever offset it reports. */
  function FromUtf8Error(err: Utf8.Utf8Error): (e: ParseError)
    ensures e == InvalidEncoding
  {
    InvalidEncoding
  }
}
