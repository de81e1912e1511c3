/**
 * dropbox_webhook_challenge.py: the verification endpoint echoes the
 * `challenge` query parameter back as plain text.
 */
module Webhook {
  import opened Utf8

  /**
   * A query-parameter value as the handler can meet it. `Other` stands for
   * any other Python object and carries what `str()` makes of it.
   */
  datatype Value = NoneValue | Str(text: string) | Bytes(bytes: seq<Byte>) | Other(shown: string)

  /** The `queryStringParameters` entry of the event. */
  datatype Query = QueryAbsent | QueryNull | Params(params: map<string, Value>)

  datatype Fault = AttributeError | UnicodeDecodeError

  datatype Response =
    | Reply(statusCode: int, body: string, headers: map<string, string>)
    | Raised(fault: Fault)

  const PlainTextHeaders: map<string, string> :=
    map["Content-Type" := "text/plain", "X-Content-Type-Options" := "nosniff"]

  /** Python's `str(v)` for the values that are not bytes. */
  function Show(v: Value): (shown: string)
    requires !v.Bytes?
    ensures v.NoneValue? ==> shown == "None"
    ensures v.Str? ==> shown == v.text
  {
    match v
    case NoneValue => "None"
    case Str(s) => s
    case Other(shown) => shown
  }

  /**
   * lambda_handler: a missing parameter map counts as empty, a null one makes
   * `.get` fail; bytes are decoded as UTF-8 strictly, anything else goes through `str`.
   */
  function LambdaHandler(query: Query): (r: Response)
    ensures r.Raised? <==>
              query.QueryNull?
              || (query.Params? && "challenge" in query.params && query.params["challenge"].Bytes?
                  && Decode(query.params["challenge"].bytes).None?)
    ensures r.Raised? ==> (r.fault == AttributeError <==> query.QueryNull?)
    ensures r.Reply? ==> r.statusCode == 200 && r.headers == PlainTextHeaders
  {
    match query
    case QueryNull => Raised(AttributeError)
    case QueryAbsent => Reply(200, Show(NoneValue), PlainTextHeaders)
    case Params(params) =>
      var challenge := if "challenge" in params then params["challenge"] else NoneValue;
      match challenge
      case Bytes(b) =>
        (match Decode(b)
         case Some(text) => Reply(200, text, PlainTextHeaders)
         case None => Raised(UnicodeDecodeError))
      case _ => Reply(200, Show(challenge), PlainTextHeaders)
  }

  /** A text challenge comes back unchanged. */
  lemma EchoesText(params: map<string, Value>, challenge: string)
    requires "challenge" in params && params["challenge"] == Str(challenge)
    ensures LambdaHandler(Params(params)) == Reply(200, challenge, PlainTextHeaders)
  {
  }

  /** A byte challenge is answered exactly when it is the UTF-8 encoding of some text, and then with that text. */
  lemma EchoesEncodedBytes(params: map<string, Value>, challenge: string)
    requires "challenge" in params && params["challenge"].Bytes?
    ensures LambdaHandler(Params(params)) == Reply(200, challenge, PlainTextHeaders)
            <==> params["challenge"].bytes == Encode(challenge)
  {
    DecodeIff(params["challenge"].bytes, challenge);
  }

  /** Without a challenge the body is the text "None", whether the map or only the key is missing. */
  lemma MissingChallenge(query: Query)
    requires query.QueryAbsent? || (query.Params? && "challenge" !in query.params)
    ensures LambdaHandler(query) == Reply(200, "None", PlainTextHeaders)
  {
  }
}
