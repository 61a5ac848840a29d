// HTTP status codes: the five status classes, the error union and the
// reason-phrase table of the library's `HttpStatus` class.

module HttpStatus {
  import opened Results

  /** The lower bounds of the status classes, and the end of the last one. */
  const Informational: int := 100
  const Successful: int := 200
  const Redirection: int := 300
  const ClientError: int := 400
  const ServerError: int := 500
  const ServerErrorEnd: int := 600

  /** The reason phrase the library knows for `code` (wording of RFC 2616,
      section 6.1.1); None for every other code, including the reserved 306
      and codes defined later such as 208 or 418. */
  function ReasonPhrase(code: int): Option<string> {
    match code
      case 100 => Some("Continue")
      case 101 => Some("Switching Protocols")
      case 200 => Some("OK")
      case 201 => Some("Created")
      case 202 => Some("Accepted")
      case 203 => Some("Non-Authoritative Information")
      case 204 => Some("No Content")
      case 205 => Some("Reset Content")
      case 206 => Some("Partial Content")
      case 300 => Some("Multiple Choices")
      case 301 => Some("Moved Permanently")
      case 302 => Some("Found")
      case 303 => Some("See Other")
      case 304 => Some("Not Modified")
      case 305 => Some("Use Proxy")
      case 307 => Some("Temporary Redirect")
      case 400 => Some("Bad Request")
      case 401 => Some("Unauthorized")
      case 402 => Some("Payment Required")
      case 403 => Some("Forbidden")
      case 404 => Some("Not Found")
      case 405 => Some("Method Not Allowed")
      case 406 => Some("Not Acceptable")
      case 407 => Some("Proxy Authentication Required")
      case 408 => Some("Request Time-out")
      case 409 => Some("Conflict")
      case 410 => Some("Gone")
      case 411 => Some("Length Required")
      case 412 => Some("Precondition Failed")
      case 413 => Some("Request Entity Too Large")
      case 414 => Some("Request-URI Too Long")
      case 415 => Some("Unsupported Media Type")
      case 416 => Some("Requested Range Not Satisfiable")
      case 417 => Some("Expectation Failed")
      case 500 => Some("Internal Server Error")
      case 501 => Some("Not Implemented")
      case 502 => Some("Bad Gateway")
      case 503 => Some("Service Unavailable")
      case 504 => Some("Gateway Timeout")
      case 505 => Some("HTTP Version Not Supported")
      case _ => None
  }

  /** The forty codes of the table, in ascending order. */
  const TabledCodes: seq<int> := [
    100, 101, 200, 201, 202, 203, 204, 205, 206, 300,
    301, 302, 303, 304, 305, 307, 400, 401, 402, 403,
    404, 405, 406, 407, 408, 409, 410, 411, 412, 413,
    414, 415, 416, 417, 500, 501, 502, 503, 504, 505
  ]

  // ---------------------------------------------------------------------------
  // Classifiers
  // ---------------------------------------------------------------------------

  predicate IsInformational(code: int) {
    Informational <= code < Successful
  }

  predicate IsSuccessful(code: int) {
    Successful <= code < Redirection
  }

  predicate IsRedirection(code: int) {
    Redirection <= code < ClientError
  }

  predicate IsClientError(code: int) {
    ClientError <= code < ServerError
  }

  predicate IsServerError(code: int) {
    ServerError <= code < ServerErrorEnd
  }

  /** Client or server error, written as one range as the library does. */
  predicate IsError(code: int) {
    ClientError <= code < ServerErrorEnd
  }

  /** The reason phrase of a known code; any other code is an invalid argument. */
  function GetReasonPhrase(code: int): (r: Result<string>)
    ensures r.Success? <==> ReasonPhrase(code).Some?
    ensures r.Success? ==> r.value == ReasonPhrase(code).value
    ensures r.Failure? ==> r.error == InvalidArgument("Invalid status code")
  {
    match ReasonPhrase(code)
    case Some(phrase) => Success(phrase)
    case None => Failure(InvalidArgument("Invalid status code"))
  }

  // ---------------------------------------------------------------------------
  // An independent reference: the class is the hundreds digit
  // ---------------------------------------------------------------------------

  datatype StatusClass = InformationalClass | SuccessfulClass | RedirectionClass
                       | ClientErrorClass | ServerErrorClass

  /** The class of a three-digit code 1xx..5xx, read off its first digit
      (section 6 of RFC 7231); None outside 100..599. */
  function ClassOf(code: int): Option<StatusClass> {
    if code < 100 || code > 599 then None
    else
      var digit := code / 100;
      if digit == 1 then Some(InformationalClass)
      else if digit == 2 then Some(SuccessfulClass)
      else if digit == 3 then Some(RedirectionClass)
      else if digit == 4 then Some(ClientErrorClass)
      else Some(ServerErrorClass)
  }

  /** How many of the five classifiers hold for `code`. */
  function ClassifierCount(code: int): nat {
    (if IsInformational(code) then 1 else 0)
    + (if IsSuccessful(code) then 1 else 0)
    + (if IsRedirection(code) then 1 else 0)
    + (if IsClientError(code) then 1 else 0)
    + (if IsServerError(code) then 1 else 0)
  }

  /** Each classifier holds exactly for the codes whose first digit names its class. */
  lemma ClassifiersMatchClassOf(code: int)
    ensures IsInformational(code) <==> ClassOf(code) == Some(InformationalClass)
    ensures IsSuccessful(code) <==> ClassOf(code) == Some(SuccessfulClass)
    ensures IsRedirection(code) <==> ClassOf(code) == Some(RedirectionClass)
    ensures IsClientError(code) <==> ClassOf(code) == Some(ClientErrorClass)
    ensures IsServerError(code) <==> ClassOf(code) == Some(ServerErrorClass)
  {
  }

  /** The classes partition 100..599: exactly one classifier holds inside, none outside. */
  lemma ClassifiersPartition(code: int)
    ensures 100 <= code < 600 ==> ClassifierCount(code) == 1
    ensures (code < 100 || code >= 600) ==> ClassifierCount(code) == 0
  {
  }

  /** `isError` is exactly the union of the client and server error classes. */
  lemma IsErrorIsUnion(code: int)
    ensures IsError(code) <==> IsClientError(code) || IsServerError(code)
    ensures IsError(code) <==> ClassOf(code) == Some(ClientErrorClass) || ClassOf(code) == Some(ServerErrorClass)
  {
  }

  /** The boundary codes of the classifier tests. */
  lemma ClassifierBoundaries()
    ensures ClassifierCount(99) == 0 && ClassifierCount(600) == 0 && ClassifierCount(601) == 0
    ensures IsInformational(100) && IsInformational(199) && !IsInformational(200)
    ensures IsServerError(599) && !IsServerError(600)
    ensures !IsError(399) && IsError(400) && IsError(599) && !IsError(600)
  {
  }

  /** The table holds exactly the forty listed codes, each in exactly one class. */
  lemma TabledCodesAreClassified(code: int)
    ensures ReasonPhrase(code).Some? <==> code in TabledCodes
    ensures code in TabledCodes ==> ClassOf(code).Some? && ClassifierCount(code) == 1
  {
  }

  /** The listed codes are strictly ascending, hence forty distinct codes. */
  lemma TabledCodesAscending()
    ensures |TabledCodes| == 40
    ensures forall i, j :: 0 <= i < j < |TabledCodes| ==> TabledCodes[i] < TabledCodes[j]
  {
  }

  /** A successful lookup implies a classified code; so unclassified codes always fail. */
  lemma ReasonPhraseOnlyForClassified(code: int)
    ensures GetReasonPhrase(code).Success? ==> ClassOf(code).Some?
    ensures ClassOf(code).None? ==> GetReasonPhrase(code) == Failure(InvalidArgument("Invalid status code"))
  {
    TabledCodesAreClassified(code);
  }

  /** Known codes give their phrase, e.g. 404 and the RFC 2616 wording of 408. */
  lemma KnownReasonPhrases()
    ensures GetReasonPhrase(404) == Success("Not Found")
    ensures GetReasonPhrase(408) == Success("Request Time-out")
  {
  }

  /** The reserved 306, the unlisted in-range 208 and 418, and out-of-range codes fail. */
  lemma UnknownCodesFail()
    ensures GetReasonPhrase(306).Failure? && GetReasonPhrase(208).Failure? && GetReasonPhrase(418).Failure?
    ensures GetReasonPhrase(99).Failure? && GetReasonPhrase(600).Failure?
  {
  }
}
