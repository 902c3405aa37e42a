/**
 * The error envelope: how `custom_exception_handler` turns an exception and
 * the response of the framework's base handler into the body
 * `{success: false, message, errors}` and a status code.
 */
module Exceptions {
  import opened Wrappers

  /** An exception `detail`: a string, a list, or a dict with ordered keys. */
  datatype Detail = Text(s: string) | Items(items: seq<Detail>) | Dict(entries: seq<(string, Detail)>)

  /**
   * The exception kinds the handler tells apart, in the order it tests
   * them. `OtherApiException` is any other exception that has a `detail`
   * attribute; `OtherException` any without one, carrying `str(exc)`.
   */
  datatype Exc =
    | ValidationError(detail: Detail)
    | AuthenticationFailed(detail: Detail)
    | NotAuthenticated(detail: Detail)
    | PermissionDenied(detail: Detail)
    | Http404
    | OtherApiException(detail: Detail)
    | OtherException(text: string)

  /** A response body: what the base handler produced, or the envelope. */
  datatype Payload =
    | Raw(detail: Detail)
    | Envelope(success: bool, message: Detail, errors: Option<Payload>)

  const DefaultMessage := "An error occurred"
  const ValidationMessage := "Validation error"
  const NotProvidedMessage := "Authentication credentials were not provided."
  const NotFoundMessage := "Resource not found."

  /** `str(d)`: the string itself, or Python's rendering `repr` of a list or dict. */
  function StrOf(d: Detail, repr: Detail -> string): string {
    if d.Text? then d.s else repr(d)
  }

  /** What handling does to the response: new status and body, or an exception raised inside the handler. */
  datatype Outcome = Handled(status: int, data: Payload) | Raised

  /** The message taken from the first entry of a dict detail. */
  function FirstEntryMessage(value: Detail, repr: Detail -> string): Option<Detail> {
    if value.Items? then
      if value.items == [] then None else Some(value.items[0])
    else Some(Text(StrOf(value, repr)))
  }

  /**
   * What the handler makes of a response with status `status` and body
   * `data`; `None` stands for `value[0]` on an empty list, which raises.
   */
  function Handle(exc: Exc, status: int, data: Payload, repr: Detail -> string): (o: Outcome)
    ensures o.Handled? ==> o.data.Envelope? && !o.data.success
    ensures o.Raised? ==> exc.OtherApiException? && exc.detail.Dict?
    ensures o.Handled? && !(exc.AuthenticationFailed? || exc.NotAuthenticated? || exc.PermissionDenied? || exc.Http404?) ==>
      o.status == status
    ensures o.Handled? && o.data.errors.Some? ==>
      exc.ValidationError? || (exc.OtherApiException? && exc.detail.Dict?)
  {
    match exc
    case ValidationError(_) => Handled(status, Envelope(false, Text(ValidationMessage), Some(data)))
    case AuthenticationFailed(d) => Handled(401, Envelope(false, Text(StrOf(d, repr)), None))
    case NotAuthenticated(_) => Handled(401, Envelope(false, Text(NotProvidedMessage), None))
    case PermissionDenied(d) => Handled(403, Envelope(false, Text(StrOf(d, repr)), None))
    case Http404 => Handled(404, Envelope(false, Text(NotFoundMessage), None))
    case OtherApiException(d) =>
      if d.Dict? then
        if d.entries == [] then Handled(status, Envelope(false, Text(DefaultMessage), Some(Raw(d))))
        else
          match FirstEntryMessage(d.entries[0].1, repr)
          case None => Raised
          case Some(m) => Handled(status, Envelope(false, m, Some(Raw(d))))
      else Handled(status, Envelope(false, Text(StrOf(d, repr)), None))
    case OtherException(t) => Handled(status, Envelope(false, Text(t), None))
  }

  /** The response object of the framework, which the handler changes in place. */
  class Response {
    var statusCode: int
    var data: Payload

    constructor (statusCode: int, data: Payload)
      ensures this.statusCode == statusCode && this.data == data
    {
      this.statusCode := statusCode;
      this.data := data;
    }
  }

  /**
   * `custom_exception_handler`. `response` is what the base handler
   * returned (`null` for exceptions it does not handle); it is rewritten in
   * place and returned. `raised` reports the `IndexError` of an empty first
   * list, in which case the response is left as it was.
   */
  method CustomExceptionHandler(exc: Exc, response: Response?, repr: Detail -> string)
    returns (result: Response?, raised: bool)
    modifies response
    ensures result == response
    ensures response == null ==> !raised
    ensures response != null ==>
      match Handle(exc, old(response.statusCode), old(response.data), repr)
      case Raised => raised && response.statusCode == old(response.statusCode) && response.data == old(response.data)
      case Handled(st, body) => !raised && response.statusCode == st && response.data == body
  {
    result, raised := response, false;
    if response == null {
      return;
    }
    var message := Text(DefaultMessage);
    var errors: Option<Payload> := None;
    match exc {
      case ValidationError(_) =>
        message := Text(ValidationMessage);
        errors := Some(response.data);
      case AuthenticationFailed(d) =>
        message := Text(StrOf(d, repr));
        response.statusCode := 401;
      case NotAuthenticated(_) =>
        message := Text(NotProvidedMessage);
        response.statusCode := 401;
      case PermissionDenied(d) =>
        message := Text(StrOf(d, repr));
        response.statusCode := 403;
      case Http404 =>
        message := Text(NotFoundMessage);
        response.statusCode := 404;
      case OtherApiException(d) =>
        if d.Dict? {
          errors := Some(Raw(d));
          for i := 0 to |d.entries|
            invariant i == 0
            invariant message == Text(DefaultMessage)
          {
            var value := d.entries[i].1;
            if value.Items? {
              if value.items == [] {
                raised := true;
                return;
              }
              message := value.items[0];
            } else {
              message := Text(StrOf(value, repr));
            }
            break;
          }
        } else {
          message := Text(StrOf(d, repr));
        }
      case OtherException(t) =>
        message := Text(t);
    }
    response.data := Envelope(false, message, errors);
  }

  /** Every handled response carries the envelope with `success: false`. */
  lemma EnvelopeAlwaysFails(exc: Exc, status: int, data: Payload, repr: Detail -> string)
    requires Handle(exc, status, data, repr).Handled?
    ensures Handle(exc, status, data, repr).data.Envelope?
    ensures !Handle(exc, status, data, repr).data.success
  {
  }

  /** A validation error keeps the status and reports the original body as `errors`. */
  lemma ValidationErrorPassesThrough(d: Detail, status: int, data: Payload, repr: Detail -> string)
    ensures Handle(ValidationError(d), status, data, repr)
      == Handled(status, Envelope(false, Text(ValidationMessage), Some(data)))
  {
  }

  /**
   * The status the handler sets for each kind: 401 for both authentication
   * kinds, 403 for a permission refusal, 404 for a missing resource; other
   * kinds keep the base status.
   */
  lemma StatusByKind(exc: Exc, status: int, data: Payload, repr: Detail -> string)
    requires Handle(exc, status, data, repr).Handled?
    ensures var st := Handle(exc, status, data, repr).status;
      (exc.AuthenticationFailed? || exc.NotAuthenticated? ==> st == 401)
      && (exc.PermissionDenied? ==> st == 403)
      && (exc.Http404? ==> st == 404)
      && (exc.ValidationError? || exc.OtherApiException? || exc.OtherException? ==> st == status)
  {
  }

  /** The message of `NotAuthenticated` and of `Http404` is fixed. */
  lemma FixedMessages(d: Detail, status: int, data: Payload, repr: Detail -> string)
    ensures Handle(NotAuthenticated(d), status, data, repr).data.message == Text(NotProvidedMessage)
    ensures Handle(Http404, status, data, repr).data.message == Text(NotFoundMessage)
  {
  }

  /**
   * Only the first entry of a dict detail decides the message: entries after
   * it change nothing but the `errors` copy of the detail.
   */
  lemma FirstEntryDecides(key: string, value: Detail, rest1: seq<(string, Detail)>, rest2: seq<(string, Detail)>,
                          status: int, data: Payload, repr: Detail -> string)
    requires value != Items([])
    ensures var h1 := Handle(OtherApiException(Dict([(key, value)] + rest1)), status, data, repr);
      var h2 := Handle(OtherApiException(Dict([(key, value)] + rest2)), status, data, repr);
      h1.Handled? && h2.Handled? && h1.status == h2.status == status
      && h1.data.message == h2.data.message
      && h1.data.message == (if value.Items? then value.items[0] else Text(StrOf(value, repr)))
      && h1.data.errors == Some(Raw(Dict([(key, value)] + rest1)))
  {
  }

  /** An empty dict detail leaves the default message. */
  lemma EmptyDictKeepsDefault(status: int, data: Payload, repr: Detail -> string)
    ensures Handle(OtherApiException(Dict([])), status, data, repr)
      == Handled(status, Envelope(false, Text(DefaultMessage), Some(Raw(Dict([])))))
  {
  }

  /** The handler itself raises exactly when the first dict value is an empty list. */
  lemma RaisesOnlyOnEmptyFirstList(exc: Exc, status: int, data: Payload, repr: Detail -> string)
    ensures Handle(exc, status, data, repr).Raised? <==>
      exc.OtherApiException? && exc.detail.Dict? && exc.detail.entries != []
      && exc.detail.entries[0].1 == Items([])
  {
  }
}
