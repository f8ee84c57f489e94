/**
 * `send_to_api`: POST a JSON payload to an endpoint, with a bearer token when
 * one is given, and turn the HTTP outcome into the command's result.
 */
module Api {
  import opened Wrappers
  import opened Text

  /** An HTTP status code as `reqwest::StatusCode` holds it: three decimal digits. */
  type StatusCode = c: int | 100 <= c <= 999 witness 200

  /** The request the client builds: method, URL, headers in insertion order, body. */
  datatype Request = Request(verb: string, url: string, headers: seq<(string, string)>, body: string)

  /**
   * What sending a request gives: a transport error (also an unusable URL), or
   * a response whose status, canonical reason phrase (if the code has one)
   * and body text, which can itself fail to be read.
   */
  datatype HttpOutcome =
    | TransportError(message: string)
    | Response(status: StatusCode, reason: Option<string>, body: Result<string, string>)

  /** The headers every request carries, before any authorization. */
  const BaseHeaders: seq<(string, string)> := [("Content-Type", "application/json"), ("User-Agent", "SystemMonitor/1.0")]

  /** `StatusCode::is_success`: the 2xx codes. */
  predicate IsSuccess(code: StatusCode) {
    200 <= code <= 299
  }

  /** The values of the headers named `name`, in order. */
  function HeaderValues(headers: seq<(string, string)>, name: string): seq<string> {
    if headers == [] then []
    else (if headers[0].0 == name then [headers[0].1] else []) + HeaderValues(headers[1..], name)
  }

  /** The error text for a response with a non-success status. */
  function StatusError(code: StatusCode, reason: Option<string>): string {
    "HTTP " + NatToDecimal(code) + ": " + reason.GetOr("Unknown")
  }

  /** Reads a status error text back into its code and reason. */
  function ParseStatusError(msg: string): Option<(nat, string)> {
    if !StartsWith(msg, "HTTP ") then None
    else
      var rest := msg[5..];
      var digits := UpTo(rest, ':');
      if digits == [] || |digits| + 1 >= |rest| || rest[|digits| + 1] != ' ' || !AllDigits(digits) then None
      else Some((DecimalValue(digits), rest[|digits| + 2..]))
  }

  /** Parsing "HTTP <digits>: <why>" gives the digits' value and `why`. */
  lemma ParseStatusErrorOf(d: string, why: string)
    requires d != [] && AllDigits(d)
    ensures ParseStatusError("HTTP " + d + ": " + why) == Some((DecimalValue(d), why))
  {
    var msg := "HTTP " + d + ": " + why;
    assert StartsWith(msg, "HTTP ");
    var rest := msg[5..];
    assert rest == d + (": " + why);
    assert ':' !in d;
    IndexOfAfter(d, ": " + why, ':');
    assert UpTo(rest, ':') == d;
    assert rest[|d| + 1] == ' ';
    assert rest[|d| + 2..] == why;
  }

  /** A status error gives back its code and its reason, "Unknown" when the code has none. */
  lemma StatusErrorRoundTrip(code: StatusCode, reason: Option<string>)
    ensures ParseStatusError(StatusError(code, reason)) == Some((code as nat, reason.GetOr("Unknown")))
  {
    var d := NatToDecimal(code);
    ParseStatusErrorOf(d, reason.GetOr("Unknown"));
    DecimalRoundTrip(code);
  }

  /** The request with the body set, as `send` transmits it. */
  function WithBody(request: Request, payload: string): Request {
    request.(body := payload)
  }

  /**
   * `send_to_api`.  `sent` is the request handed to the transport: it carries
   * the two base headers and, exactly when a non-empty token is given, one
   * `Authorization: Bearer <token>` header after them.  A 2xx response gives
   * its body; any other status an "HTTP <code>: <reason>" error; a failure of
   * the transport or of reading the body an error with its own prefix.
   */
  method SendToApi(endpoint: string, payload: string, token: Option<string>, transport: Request -> HttpOutcome)
    returns (r: Result<string, string>, sent: Request)
    ensures sent.verb == "POST" && sent.url == endpoint && sent.body == payload
    ensures token.Some? && token.value != "" ==> sent.headers == BaseHeaders + [("Authorization", "Bearer " + token.value)]
    ensures !(token.Some? && token.value != "") ==> sent.headers == BaseHeaders
    ensures match transport(sent)
      case TransportError(e) => r == Err("Error en petición: " + e)
      case Response(status, reason, body) =>
        if !IsSuccess(status) then r == Err(StatusError(status, reason))
        else match body
          case Ok(text) => r == Ok(text)
          case Err(e) => r == Err("Error leyendo respuesta: " + e)
  {
    var request := Request("POST", endpoint, BaseHeaders, "");
    if token.Some? {
      var authToken := token.value;
      if authToken != "" {
        request := request.(headers := request.headers + [("Authorization", "Bearer " + authToken)]);
      }
    }
    sent := WithBody(request, payload);
    match transport(sent) {
      case Response(status, reason, body) =>
        if IsSuccess(status) {
          match body {
            case Ok(text) => r := Ok(text);
            case Err(e) => r := Err("Error leyendo respuesta: " + e);
          }
        } else {
          r := Err(StatusError(status, reason));
        }
      case TransportError(e) =>
        r := Err("Error en petición: " + e);
    }
  }

  /** The request carries an Authorization header exactly when a non-empty token is given, and only one. */
  lemma AuthorizationHeader(headers: seq<(string, string)>, token: Option<string>)
    requires token.Some? && token.value != "" ==> headers == BaseHeaders + [("Authorization", "Bearer " + token.value)]
    requires !(token.Some? && token.value != "") ==> headers == BaseHeaders
    ensures HeaderValues(headers, "Authorization") == if token.Some? && token.value != "" then ["Bearer " + token.value] else []
  {
    HeaderValuesAppend(BaseHeaders, [("Authorization", if token.Some? then "Bearer " + token.value else "")], "Authorization");
  }

  lemma {:induction false} HeaderValuesAppend(a: seq<(string, string)>, b: seq<(string, string)>, name: string)
    ensures HeaderValues(a + b, name) == HeaderValues(a, name) + HeaderValues(b, name)
  {
    if a != [] {
      assert (a + b)[1..] == a[1..] + b;
      HeaderValuesAppend(a[1..], b, name);
    } else {
      assert a + b == b;
    }
  }
}
