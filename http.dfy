/** The serverless-function boundary: the incoming event, the replies the
    handlers return, and the prologue the document-generating handlers share
    (method check, `JSON.parse` of the body, required-field loop). */
module Http {
  import opened Wrappers
  import opened JsValues

  /** `JSON.parse`, left uninterpreted: `None` when it throws a SyntaxError. */
  type JsonParser = string -> Option<JsValue>

  /** The fields of a function event the handlers read. */
  datatype Event = Event(httpMethod: string, body: string, headers: map<string, string>)

  /** A handler's reply. Every error reply carries `{ error }` in its body;
      a 500 also carries the caught exception as `details`. */
  datatype Reply<+T> =
    | MethodNotAllowed
    | BadRequest(error: string)
    | ServerError(error: string, details: Fault)
    | Success(body: T)
  {
    function StatusCode(): int {
      match this
      case MethodNotAllowed => 405
      case BadRequest(_) => 400
      case ServerError(_, _) => 500
      case Success(_) => 200
    }
  }

  /** The document engine (PizZip with docxtemplater), left uninterpreted:
      whether the template file could be read, and whether rendering it
      with the given data succeeds. */
  datatype TemplateEngine = TemplateEngine(templateFound: bool, renders: JsValue -> bool)

  /** A rendered document, given by the data bound into the template and the
      file name announced in `Content-Disposition`; the bytes themselves are
      the engine's. */
  datatype Filled = Filled(templateData: JsValue, filename: string)

  /** How far a request gets through the shared prologue. */
  datatype Gate =
    | NotPost
    | MissingField(field: string)
    | Failed(fault: Fault)
    | Admitted(data: JsValue)

  /** `if (httpMethod !== 'POST') return 405; data = JSON.parse(body);
      for (field of required) if (!data[field]) return 400;` where an
      exception goes to the handler's catch. */
  function Admit(event: Event, parse: JsonParser, required: seq<string>): (g: Gate)
    ensures g.NotPost? <==> event.httpMethod != "POST"
    ensures event.httpMethod == "POST" && parse(event.body).None? ==> g == Failed(SyntaxError)
    ensures g.Admitted? ==>
      && event.httpMethod == "POST" && parse(event.body) == Some(g.data)
      && forall k :: 0 <= k < |required| ==> Truthy(Get(g.data, required[k]))
    ensures g.MissingField? ==>
      && event.httpMethod == "POST" && parse(event.body).Some?
      && exists k :: 0 <= k < |required| && required[k] == g.field
                     && !Truthy(Get(parse(event.body).value, required[k]))
                     && forall j :: 0 <= j < k ==> Truthy(Get(parse(event.body).value, required[j]))
  {
    if event.httpMethod != "POST" then NotPost
    else
      match parse(event.body)
      case None => Failed(SyntaxError)
      case Some(data) =>
        match FirstMissing(data, required)
        case Throw(f) => Failed(f)
        case Normal(Some(k)) => MissingField(required[k])
        case Normal(None) => Admitted(data)
  }

  /** When the body parses to something other than null, a field that is
      missing or falsy is reported as soon as every field before it is present. */
  lemma {:induction false} FirstFalsyFieldIsReported(event: Event, parse: JsonParser, required: seq<string>, k: nat)
    requires event.httpMethod == "POST" && parse(event.body).Some? && !Nullish(parse(event.body).value)
    requires k < |required|
    requires !Truthy(Get(parse(event.body).value, required[k]))
    requires forall j :: 0 <= j < k ==> Truthy(Get(parse(event.body).value, required[j]))
    ensures Admit(event, parse, required) == MissingField(required[k])
  {
    var data := parse(event.body).value;
    var c := FirstMissing(data, required);
    assert c.Normal? && c.value.Some?;
  }

  /** The prologue looks only at the method, whether the body parses, and
      which required fields are truthy: two requests that agree on those
      are admitted together or turned away with the same reply. */
  lemma AdmitDependsOnTruthiness(e1: Event, e2: Event, parse: JsonParser, required: seq<string>)
    requires e1.httpMethod == e2.httpMethod
    requires parse(e1.body).Some? && parse(e2.body).Some?
    requires Nullish(parse(e1.body).value) == Nullish(parse(e2.body).value)
    requires forall key :: key in required ==>
      Truthy(Get(parse(e1.body).value, key)) == Truthy(Get(parse(e2.body).value, key))
    ensures Admit(e1, parse, required).Admitted? == Admit(e2, parse, required).Admitted?
    ensures !Admit(e1, parse, required).Admitted? ==> Admit(e1, parse, required) == Admit(e2, parse, required)
  {
    FirstMissingDependsOnTruthiness(parse(e1.body).value, parse(e2.body).value, required);
  }
}
