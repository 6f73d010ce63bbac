/** netlify/functions/generate-affidavit.mjs: the single-defendant handler
    that fills Form 11 with the service details the user has entered
    (date, time, place); every one of its eight fields is required. */
module ServiceDetailsHandler {
  import opened Wrappers
  import opened JsValues
  import opened Http
  import Filenames

  const Required: seq<string> :=
    ["caseNumber", "claimant", "defendant", "defendantAddress",
     "serviceDate", "serviceTime", "servicePlace", "serviceMethod"]
  const FailureMessage := "Failed to generate affidavit"

  /** `new Date(v).toLocaleDateString('en-AU', { day, month: 'long', year })`,
      left uninterpreted: it depends on the runtime's locale data, and it
      does not throw (an unparsable date gives "Invalid Date"). */
  type DateFormatter = JsValue -> string

  function TemplateData(data: JsValue, formatDate: DateFormatter): JsValue
  {
    Obj(map[
      "Case number" := Get(data, "caseNumber"),
      "Claimant" := Get(data, "claimant"),
      "Defendant" := Get(data, "defendant"),
      "Name" := Get(data, "defendant"),
      "Date" := Str(formatDate(Get(data, "serviceDate"))),
      "time am/pm" := Get(data, "serviceTime"),
      "Place" := Get(data, "servicePlace"),
      "Name of process" := Str("General Procedure Claim")])
  }

  /** `Affidavit_${data.caseNumber}_${data.defendant.replace(...)}.docx`: the
      case number is converted by the template literal and not sanitised. */
  function DownloadName(caseNumber: JsValue, defendant: string): string {
    "Affidavit_" + ToStr(caseNumber) + "_" + Filenames.SafeName(defendant) + ".docx"
  }

  function Handle(event: Event, parse: JsonParser, engine: TemplateEngine, formatDate: DateFormatter): (r: Reply<Filled>)
    ensures r == MethodNotAllowed <==> event.httpMethod != "POST"
    ensures r.Success? ==> event.httpMethod == "POST" && parse(event.body).Some?
    ensures r.Success? && parse(event.body).Some? ==>
      var data := parse(event.body).value;
      && (forall k :: 0 <= k < |Required| ==> Truthy(Get(data, Required[k])))
      && Get(data, "defendant").Str?
      && r.body.filename == DownloadName(Get(data, "caseNumber"), Get(data, "defendant").s)
      && r.body.templateData == TemplateData(data, formatDate)
  {
    match Admit(event, parse, Required)
    case NotPost => MethodNotAllowed
    case MissingField(f) => BadRequest(MissingFieldMessage(f))
    case Failed(f) => ServerError(FailureMessage, f)
    case Admitted(data) => Generate(data, engine, formatDate)
  }

  /** The body of the `try` block after validation. */
  function Generate(data: JsValue, engine: TemplateEngine, formatDate: DateFormatter): Reply<Filled> {
    if !engine.templateFound then ServerError(FailureMessage, FileNotFound)
    else if !engine.renders(TemplateData(data, formatDate)) then ServerError(FailureMessage, RenderError)
    else if !Get(data, "defendant").Str? then ServerError(FailureMessage, TypeError)
    else Success(Filled(TemplateData(data, formatDate), DownloadName(Get(data, "caseNumber"), Get(data, "defendant").s)))
  }

  /** The eight required fields, caseNumber through serviceMethod, are
      checked in order; the first falsy one is named in a 400. */
  lemma FirstMissingFieldIsReported(event: Event, parse: JsonParser, engine: TemplateEngine, formatDate: DateFormatter, k: nat)
    requires event.httpMethod == "POST" && parse(event.body).Some? && !Nullish(parse(event.body).value)
    requires k < |Required| && !Truthy(Get(parse(event.body).value, Required[k]))
    requires forall j :: 0 <= j < k ==> Truthy(Get(parse(event.body).value, Required[j]))
    ensures Handle(event, parse, engine, formatDate) == BadRequest(MissingFieldMessage(Required[k]))
  {
    FirstFalsyFieldIsReported(event, parse, Required, k);
  }

  /** The entered service details reach the form: the formatted date, the
      time and the place as given; the defendant fills both name slots. */
  lemma ServiceDetailsAreFilled(data: JsValue, formatDate: DateFormatter)
    ensures var t := TemplateData(data, formatDate).fields;
      && t["Date"] == Str(formatDate(Get(data, "serviceDate")))
      && t["time am/pm"] == Get(data, "serviceTime") && t["Place"] == Get(data, "servicePlace")
      && t["Defendant"] == t["Name"] == Get(data, "defendant")
  {
  }

  /** Unlike the other handlers, this one keeps a `/` of the case number in
      the announced file name. */
  lemma CaseNumberIsNotSanitised(c: string, d: string)
    ensures var f := DownloadName(Str(c), d);
      f[10..10 + |c|] == c && |f| == 10 + |c| + 1 + |d| + 5
  {
    var f := DownloadName(Str(c), d);
    assert f == "Affidavit_" + c + "_" + Filenames.SafeName(d) + ".docx";
  }

  /** `serviceMethod` is required but never used: two requests that differ
      only in a truthy service method get the same reply. */
  lemma {:induction false} ServiceMethodIsOnlyValidated(event: Event, parse: JsonParser, engine: TemplateEngine,
                                                        formatDate: DateFormatter, event2: Event, serviceMethod: JsValue)
    requires event.httpMethod == event2.httpMethod
    requires parse(event.body).Some? && parse(event.body).value.Obj?
    requires Truthy(serviceMethod) && Truthy(Get(parse(event.body).value, "serviceMethod"))
    requires parse(event2.body) == Some(Obj(parse(event.body).value.fields["serviceMethod" := serviceMethod]))
    ensures Handle(event, parse, engine, formatDate) == Handle(event2, parse, engine, formatDate)
  {
    var d1, d2 := parse(event.body).value, parse(event2.body).value;
    assert forall k :: k != "serviceMethod" ==> Get(d1, k) == Get(d2, k);
    assert forall key :: Truthy(Get(d1, key)) == Truthy(Get(d2, key));
    AdmitDependsOnTruthiness(event, event2, parse, Required);
    GenerateIgnoresServiceMethod(d1, d2, engine, formatDate);
  }

  lemma GenerateIgnoresServiceMethod(d1: JsValue, d2: JsValue, engine: TemplateEngine, formatDate: DateFormatter)
    requires forall k :: k != "serviceMethod" ==> Get(d1, k) == Get(d2, k)
    ensures Generate(d1, engine, formatDate) == Generate(d2, engine, formatDate)
  {
    assert TemplateData(d1, formatDate) == TemplateData(d2, formatDate);
  }
}
