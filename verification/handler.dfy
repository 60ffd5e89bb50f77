/**
 * The HTTP request handler: reads the `number` query parameter, rejects a
 * missing or unparsable one with 400, otherwise classifies the number, asks
 * the trivia service for a fun fact and answers 200. Every response carries
 * the same three CORS headers.
 *
 * The two collaborators the handler cannot see into are parameters:
 * `convert` is Python's `int(float(s))` (a number, or the exception it
 * raises), `fetch` is one GET request to the trivia service (its body, or a
 * failure of any kind). The handler returns the URLs it requested alongside
 * the response, so the model says which calls are made.
 */
module Handler {
  import opened Wrappers
  import opened Decimal
  import opened Classifier

  /** The part of the invocation event the handler reads; an absent or null map is None. */
  datatype Event = Event(queryStringParameters: Option<map<string, string>>)

  /** What `int(float(s))` does with a string. */
  datatype Conversion = Converted(value: int) | ValueError | OverflowError

  /** What one trivia request yields: the decoded body, or any failure (timeout, connection, status, decoding). */
  datatype Fetch = Fetched(text: string) | Failed

  /** Client-input errors; both are answered with 400. */
  datatype ApiError = MissingParameter | InvalidFormat(input: string)

  /** The JSON body: an error object, or the classification of a number. */
  datatype Body =
    | ErrorBody(error: string, invalidInput: Option<string>)
    | NumberBody(number: int, isPrime: bool, isPerfect: bool, properties: seq<string>, digitSum: nat, funFact: string)

  datatype Response = Response(statusCode: int, headers: map<string, string>, body: Body)

  const CORS_HEADERS: map<string, string> := map[
    "Access-Control-Allow-Origin" := "*",
    "Access-Control-Allow-Methods" := "GET",
    "Access-Control-Allow-Headers" := "Content-Type"
  ]

  const NO_NUMBER := "No number provided."
  const INVALID_FORMAT := "Invalid number format"
  const NEGATIVE_FACT := "Fun fact not available for negative numbers."
  const UNAVAILABLE_FACT := "Fun fact not available."

  /**
   * The `number` parameter, if the event has a query-string map holding it;
   * an absent, null or empty map yields none.
   */
  function NumberParam(event: Event): (r: Option<string>)
    ensures event.queryStringParameters == None || event.queryStringParameters == Some(map[]) ==> r == None
    ensures r.Some? <==> event.queryStringParameters.Some? && "number" in event.queryStringParameters.value
    ensures r.Some? ==> r.value == event.queryStringParameters.value["number"]
  {
    match event.queryStringParameters
    case Some(q) => if "number" in q then Some(q["number"]) else None
    case None => None
  }

  /**
   * The handler's validation: a missing or empty parameter is MissingParameter,
   * a string that `int(float(s))` rejects, by either exception, is
   * InvalidFormat(s), and a string it converts to n is the number n.
   */
  function Validate(event: Event, convert: string -> Conversion): (r: Result<int, ApiError>)
    ensures r == Failure(MissingParameter)
            <==> NumberParam(event) == None || NumberParam(event) == Some("")
    ensures forall s :: (r == Failure(InvalidFormat(s))
                         <==> NumberParam(event) == Some(s) && s != "" && !convert(s).Converted?)
    ensures forall n :: (r == Success(n)
                         <==> exists s :: NumberParam(event) == Some(s) && s != "" && convert(s) == Converted(n))
  {
    match NumberParam(event)
    case None => Failure(MissingParameter)
    case Some(s) =>
      if s == "" then Failure(MissingParameter)
      else match convert(s)
        case Converted(n) => Success(n)
        case _ => Failure(InvalidFormat(s))
  }

  /** The 400 response for a client-input error. */
  function ErrorResponse(e: ApiError): (r: Response)
    ensures r.statusCode == 400 && r.headers == CORS_HEADERS
    ensures r.body.ErrorBody?
    ensures r.body.invalidInput.Some? <==> e.InvalidFormat?
    ensures r.body.error == (if e.InvalidFormat? then INVALID_FORMAT else NO_NUMBER)
    ensures e.InvalidFormat? ==> r.body.invalidInput == Some(e.input)
  {
    match e
    case MissingParameter => Response(400, CORS_HEADERS, ErrorBody(NO_NUMBER, None))
    case InvalidFormat(s) => Response(400, CORS_HEADERS, ErrorBody(INVALID_FORMAT, Some(s)))
  }

  const TRIVIA_HOST := "http://numbersapi.com/"

  /**
   * The trivia URL for a non-negative number: the service's address, the
   * number written in decimal, then "/math".
   */
  function TriviaUrl(n: nat): (url: string)
    ensures |url| == |TRIVIA_HOST| + |Digits(n)| + 5
    ensures url[..|TRIVIA_HOST|] == TRIVIA_HOST
    ensures url[|url| - 5..] == "/math"
    ensures forall i :: |TRIVIA_HOST| <= i < |url| - 5 ==> '0' <= url[i] <= '9'
    ensures url[|TRIVIA_HOST|..|url| - 5] == DecimalString(n)
  {
    TRIVIA_HOST + DecimalString(n) + "/math"
  }

  /**
   * `get_fun_fact`: a negative number gets the fixed sentence and no request;
   * otherwise one request is made and any failure becomes the fallback sentence.
   */
  method GetFunFact(n: int, fetch: string -> Fetch) returns (fact: string, requests: seq<string>)
    ensures n < 0 ==> fact == NEGATIVE_FACT && requests == []
    ensures n >= 0 ==> requests == [TriviaUrl(n)]
    ensures n >= 0 && fetch(TriviaUrl(n)).Fetched? ==> fact == fetch(TriviaUrl(n)).text
    ensures n >= 0 && fetch(TriviaUrl(n)).Failed? ==> fact == UNAVAILABLE_FACT
  {
    if n < 0 {
      return NEGATIVE_FACT, [];
    }
    var url := TriviaUrl(n);
    requests := [url];
    match fetch(url)
    case Fetched(text) => fact := text;
    case Failed => fact := UNAVAILABLE_FACT;
  }

  /**
   * `lambda_handler`. A validation failure is answered with its 400 response
   * and nothing else happens. Otherwise the answer is 200 with the number's
   * classification and fun fact. Every path carries the CORS headers.
   */
  method LambdaHandler(event: Event, convert: string -> Conversion, fetch: string -> Fetch)
    returns (resp: Response, requests: seq<string>)
    ensures resp.headers == CORS_HEADERS
    ensures Validate(event, convert).Failure? ==>
              resp == ErrorResponse(Validate(event, convert).error) && requests == []
    ensures Validate(event, convert).Success? ==>
              var n := Validate(event, convert).value;
              && resp.statusCode == 200
              && resp.body.NumberBody?
              && resp.body.number == n
              && resp.body.isPrime == Prime(n)
              && resp.body.isPerfect == IsPerfect(n)
              && ListsProperties(resp.body.properties, n)
              && resp.body.digitSum == DigitSum(n)
              && (n < 0 ==> resp.body.funFact == NEGATIVE_FACT && requests == [])
              && (n >= 0 ==> requests == [TriviaUrl(n)])
              && (n >= 0 && fetch(TriviaUrl(n)).Fetched? ==> resp.body.funFact == fetch(TriviaUrl(n)).text)
              && (n >= 0 && fetch(TriviaUrl(n)).Failed? ==> resp.body.funFact == UNAVAILABLE_FACT)
  {
    var numberStr := NumberParam(event);
    if numberStr.None? || numberStr.value == "" {
      return ErrorResponse(MissingParameter), [];
    }
    var number: int;
    match convert(numberStr.value) {
      case Converted(v) =>
        number := v;
      case _ =>
        return ErrorResponse(InvalidFormat(numberStr.value)), [];
    }

    var properties := [Parity(number)];
    if IsArmstrong(number) {
      properties := ["armstrong"] + properties;
    }

    var prime := IsPrime(number);
    var fact;
    fact, requests := GetFunFact(number, fetch);
    var body := NumberBody(number, prime, IsPerfect(number), properties, DigitSum(number), fact);
    resp := Response(200, CORS_HEADERS, body);
  }

  // ---------------------------------------------------------------------------
  // The source's exception handler, as written
  // ---------------------------------------------------------------------------

  /** Validation that can also end the invocation with an exception nobody catches. */
  datatype Guarded = Handled(result: Result<int, ApiError>) | Uncaught

  /**
   * Validation as the source writes it: only ValueError is caught around
   * `int(float(s))`, so the OverflowError raised for an infinite value escapes
   * and the handler returns no response at all.
   */
  function ValidateAsWritten(event: Event, convert: string -> Conversion): (r: Guarded)
    ensures r == Uncaught
            <==> NumberParam(event).Some? && NumberParam(event).value != ""
                 && convert(NumberParam(event).value) == OverflowError
    ensures r != Uncaught ==> r == Handled(Validate(event, convert))
  {
    match NumberParam(event)
    case None => Handled(Failure(MissingParameter))
    case Some(s) =>
      if s == "" then Handled(Failure(MissingParameter))
      else match convert(s)
        case Converted(n) => Handled(Success(n))
        case ValueError => Handled(Failure(InvalidFormat(s)))
        case OverflowError => Uncaught
  }

  /** A conversion oracle in which "inf" raises OverflowError and every other string raises ValueError. */
  function ConvertWithInf(s: string): (c: Conversion)
  {
    if s == "inf" then OverflowError else ValueError
  }

  /**
   * `?number=inf`: the source ends in an uncaught exception, without the 400
   * response or its CORS headers; the corrected validation answers InvalidFormat.
   */
  lemma InfinityEscapesAsWritten()
    ensures ValidateAsWritten(Event(Some(map["number" := "inf"])), ConvertWithInf) == Uncaught
    ensures Validate(Event(Some(map["number" := "inf"])), ConvertWithInf) == Failure(InvalidFormat("inf"))
  {
  }
}
