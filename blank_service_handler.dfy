/** generate-affidavit.mjs at the repository root: the single-defendant
    handler that fills Form 11 (`[`…`]` placeholders) with the case, the
    claimant and one defendant, and leaves the service date, time and
    place blank. */
module BlankServiceHandler {
  import opened Wrappers
  import opened JsValues
  import opened Http
  import Filenames

  const Required: seq<string> := ["caseNumber", "claimant", "defendantName", "defendantAddress"]
  const FailureMessage := "Failed to generate affidavit"
  const ProcessName := "General Procedure Claim"

  /** The placeholder values given to `doc.render`. */
  function TemplateData(data: JsValue): JsValue
  {
    Obj(map[
      "Case number" := Get(data, "caseNumber"),
      "Claimant" := Get(data, "claimant"),
      "Defendant" := Get(data, "defendantName"),
      "Name" := Get(data, "defendantName"),
      "Date" := Str(""),
      "time am/pm" := Str(""),
      "Place" := Str(""),
      "Name of process" := Str(ProcessName)])
  }

  /** The handler: validation, template read, render, then the file name
      (which calls `replace` on the defendant name and the case number, so
      both must be strings). */
  function Handle(event: Event, parse: JsonParser, engine: TemplateEngine): (r: Reply<Filled>)
    ensures r == MethodNotAllowed <==> event.httpMethod != "POST"
    ensures r.Success? ==> event.httpMethod == "POST" && parse(event.body).Some?
    ensures r.Success? && parse(event.body).Some? ==>
      var data := parse(event.body).value;
      && (forall k :: 0 <= k < |Required| ==> Truthy(Get(data, Required[k])))
      && Get(data, "caseNumber").Str? && Get(data, "defendantName").Str?
      && r.body.filename == Filenames.DefendantFilename(Get(data, "caseNumber").s, Get(data, "defendantName").s)
      && r.body.templateData == TemplateData(data)
  {
    match Admit(event, parse, Required)
    case NotPost => MethodNotAllowed
    case MissingField(f) => BadRequest(MissingFieldMessage(f))
    case Failed(f) => ServerError(FailureMessage, f)
    case Admitted(data) => Generate(data, engine)
  }

  /** The body of the `try` block after validation. */
  function Generate(data: JsValue, engine: TemplateEngine): Reply<Filled> {
    if !engine.templateFound then ServerError(FailureMessage, FileNotFound)
    else if !engine.renders(TemplateData(data)) then ServerError(FailureMessage, RenderError)
    else if !Get(data, "defendantName").Str? || !Get(data, "caseNumber").Str? then ServerError(FailureMessage, TypeError)
    else Success(Filled(TemplateData(data), Filenames.DefendantFilename(Get(data, "caseNumber").s, Get(data, "defendantName").s)))
  }

  /** Required fields are checked in the order caseNumber, claimant,
      defendantName, defendantAddress; the first falsy one is named in a 400. */
  lemma FirstMissingFieldIsReported(event: Event, parse: JsonParser, engine: TemplateEngine, k: nat)
    requires event.httpMethod == "POST" && parse(event.body).Some? && !Nullish(parse(event.body).value)
    requires k < |Required| && !Truthy(Get(parse(event.body).value, Required[k]))
    requires forall j :: 0 <= j < k ==> Truthy(Get(parse(event.body).value, Required[j]))
    ensures Handle(event, parse, engine) == BadRequest(MissingFieldMessage(Required[k]))
  {
    FirstFalsyFieldIsReported(event, parse, Required, k);
  }

  /** Service is left to the process server: date, time and place are
      blank, the defendant's name fills both `[Defendant]` and `[Name]`, and
      the process is always a General Procedure Claim. */
  lemma ServiceIsLeftBlank(data: JsValue)
    ensures var t := TemplateData(data).fields;
      && t["Date"] == Str("") && t["time am/pm"] == Str("") && t["Place"] == Str("")
      && t["Defendant"] == t["Name"] == Get(data, "defendantName")
      && t["Name of process"] == Str("General Procedure Claim")
  {
  }

  /** `defendantAddress` is required but never used: two requests that
      differ only in a truthy address get the same reply. */
  lemma {:induction false} AddressIsOnlyValidated(event: Event, parse: JsonParser, engine: TemplateEngine,
                                                  event2: Event, address: JsValue)
    requires event.httpMethod == event2.httpMethod
    requires parse(event.body).Some? && parse(event.body).value.Obj?
    requires Truthy(address)
    requires parse(event2.body) == Some(Obj(parse(event.body).value.fields["defendantAddress" := address]))
    requires Truthy(Get(parse(event.body).value, "defendantAddress"))
    ensures Handle(event, parse, engine) == Handle(event2, parse, engine)
  {
    var d1, d2 := parse(event.body).value, parse(event2.body).value;
    assert forall k :: k != "defendantAddress" ==> Get(d1, k) == Get(d2, k);
    assert forall key :: Truthy(Get(d1, key)) == Truthy(Get(d2, key));
    assert TemplateData(d1) == TemplateData(d2);
    assert Generate(d1, engine) == Generate(d2, engine);
    AdmitDependsOnTruthiness(event, event2, parse, Required);
  }
}
