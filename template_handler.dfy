/** netlify/functions/generate-affidavit.js: the docxtemplater handler that
    binds the extracted case (registry, case number, claimant, every
    defendant with an ordinal) into `affidavit-template.docx` and leaves the
    service fields blank for the process server to fill in by hand. */
module TemplateHandler {
  import opened Wrappers
  import opened JsValues
  import opened Http
  import Filenames

  const Required: seq<string> := ["registry", "caseNumber", "claimant", "defendants"]
  const FailureMessage := "Failed to generate affidavit"

  /** `index === 0 ? 'First' : index === 1 ? 'Second' : `${index + 1}th``. */
  function Ordinal(index: nat): string {
    if index == 0 then "First"
    else if index == 1 then "Second"
    else IntToString(index + 1) + "th"
  }

  /** Only the generated labels start with a digit. */
  lemma OrdinalHead(k: nat)
    ensures |Ordinal(k)| > 0 && (Text.IsDigit(Ordinal(k)[0]) <==> k >= 2)
  {
    if k >= 2 {
      assert Ordinal(k)[0] == IntToString(k + 1)[0];
    }
  }

  /** Every defendant gets its own label: the mapping from positions to
      labels is one-to-one (even though `3th` is not English). */
  lemma OrdinalIsInjective(i: nat, j: nat)
    requires Ordinal(i) == Ordinal(j)
    ensures i == j
  {
    OrdinalHead(i);
    OrdinalHead(j);
    if i >= 2 && j >= 2 {
      var a, b := IntToString(i + 1), IntToString(j + 1);
      assert a == (a + "th")[..|a|];
      assert |a| == |b|;
      assert a == b;
      NatToStringInjective(i + 1, j + 1);
    }
  }

  /** The object `{ number, name: defendant.name, address: defendant.address }`. */
  function DefendantEntry(index: nat, defendant: JsValue): JsValue {
    Obj(map["number" := Str(Ordinal(index)),
            "name" := Get(defendant, "name"),
            "address" := Get(defendant, "address")])
  }

  /** `defendants.map(...)`: the callback throws a TypeError on a null or
      undefined element (reading `defendant.name`), which ends the whole
      mapping; otherwise every element becomes its entry. */
  function MapDefendants(items: seq<JsValue>): (r: Completion<seq<JsValue>>)
    ensures r.Normal? <==> forall i :: 0 <= i < |items| ==> !Nullish(items[i])
    ensures r.Throw? ==> r.fault == TypeError
    ensures r.Normal? ==>
      && |r.value| == |items|
      && forall i :: 0 <= i < |items| ==> r.value[i] == DefendantEntry(i, items[i])
  {
    if exists i :: 0 <= i < |items| && Nullish(items[i]) then Throw(TypeError)
    else Normal(seq(|items|, i requires 0 <= i < |items| => DefendantEntry(i, items[i])))
  }

  /** `data.defendants.map(...)`: anything but an array has no `map`. */
  function DefendantsData(defendants: JsValue): Completion<seq<JsValue>> {
    if defendants.Arr? then MapDefendants(defendants.items) else Throw(TypeError)
  }

  /** The object given to `doc.setData`. */
  function TemplateData(data: JsValue, defendantsData: seq<JsValue>): JsValue {
    Obj(map[
      "registry" := Get(data, "registry"),
      "caseNumber" := Get(data, "caseNumber"),
      "claimant" := Get(data, "claimant"),
      "claimantAddress" := Or(Get(data, "claimantAddress"), Str("")),
      "defendants" := Arr(defendantsData),
      "serviceDate" := Str(""),
      "serviceTime" := Str(""),
      "servicePlace" := Str(""),
      "personalService" := Str("☐"),
      "postalService" := Str("☐"),
      "substitutedService" := Str("☐"),
      "personalServiceChecked" := Bool(false),
      "postalServiceChecked" := Bool(false),
      "substitutedServiceChecked" := Bool(false)])
  }

  /** What the fill policy promises of the bound data: service details are
      blank, every box is unticked. */
  predicate ServiceLeftBlank(t: JsValue) {
    && Get(t, "serviceDate") == Str("") && Get(t, "serviceTime") == Str("") && Get(t, "servicePlace") == Str("")
    && Get(t, "personalService") == Str("☐") && Get(t, "postalService") == Str("☐")
    && Get(t, "substitutedService") == Str("☐")
    && Get(t, "personalServiceChecked") == Bool(false) && Get(t, "postalServiceChecked") == Bool(false)
    && Get(t, "substitutedServiceChecked") == Bool(false)
  }

  /** The bound data leaves service blank, copies the claimant's address or
      writes "" for it, and lists the mapped defendants. */
  lemma TemplateDataShape(data: JsValue, defendantsData: seq<JsValue>)
    ensures var t := TemplateData(data, defendantsData);
      && ServiceLeftBlank(t)
      && Get(t, "claimantAddress") == Or(Get(data, "claimantAddress"), Str(""))
      && Get(t, "defendants") == Arr(defendantsData)
  {
    TemplateDataService(data, defendantsData);
  }

  /** The service fields of the bound data are blank and unticked. */
  lemma TemplateDataService(data: JsValue, defendantsData: seq<JsValue>)
    ensures ServiceLeftBlank(TemplateData(data, defendantsData))
  {
  }

  /** The handler. */
  function Handle(event: Event, parse: JsonParser, engine: TemplateEngine): (r: Reply<Filled>)
    ensures r == MethodNotAllowed <==> event.httpMethod != "POST"
    ensures r.Success? ==> event.httpMethod == "POST" && parse(event.body).Some?
    ensures r.Success? && parse(event.body).Some? ==>
      var data := parse(event.body).value;
      && (forall k :: 0 <= k < |Required| ==> Truthy(Get(data, Required[k])))
      && Get(data, "caseNumber").Str?
      && r.body.filename == Filenames.CaseFilename(Get(data, "caseNumber").s)
      && ServiceLeftBlank(r.body.templateData)
      && Get(r.body.templateData, "claimantAddress") == Or(Get(data, "claimantAddress"), Str(""))
      && Get(data, "defendants").Arr?
      && var entries := Get(r.body.templateData, "defendants");
         && entries.Arr? && |entries.items| == |Get(data, "defendants").items|
         && forall i :: 0 <= i < |entries.items| ==>
              entries.items[i] == DefendantEntry(i, Get(data, "defendants").items[i])
  {
    match Admit(event, parse, Required)
    case NotPost => MethodNotAllowed
    case MissingField(f) => BadRequest(MissingFieldMessage(f))
    case Failed(f) => ServerError(FailureMessage, f)
    case Admitted(data) =>
      if !engine.templateFound then ServerError(FailureMessage, FileNotFound)
      else
        match DefendantsData(Get(data, "defendants"))
        case Throw(f) => ServerError(FailureMessage, f)
        case Normal(defs) =>
          var templateData := TemplateData(data, defs);
          if !engine.renders(templateData) then ServerError(FailureMessage, RenderError)
          else if !Get(data, "caseNumber").Str? then ServerError(FailureMessage, TypeError)
          else
            TemplateDataShape(data, defs);
            Success(Filled(templateData, Filenames.CaseFilename(Get(data, "caseNumber").s)))
  }

  /** Required fields are checked in the order registry, caseNumber,
      claimant, defendants; the first falsy one is named in a 400. */
  lemma FirstMissingFieldIsReported(event: Event, parse: JsonParser, engine: TemplateEngine, k: nat)
    requires event.httpMethod == "POST" && parse(event.body).Some? && !Nullish(parse(event.body).value)
    requires k < |Required| && !Truthy(Get(parse(event.body).value, Required[k]))
    requires forall j :: 0 <= j < k ==> Truthy(Get(parse(event.body).value, Required[j]))
    ensures Handle(event, parse, engine) == BadRequest(MissingFieldMessage(Required[k]))
  {
    FirstFalsyFieldIsReported(event, parse, Required, k);
  }

  /** An empty defendant list is truthy in JavaScript, so a request whose
      other required fields are present passes validation and yields a
      document with no defendant rows. */
  lemma EmptyDefendantListIsAccepted(event: Event, parse: JsonParser, engine: TemplateEngine)
    requires event.httpMethod == "POST" && parse(event.body).Some?
    requires var data := parse(event.body).value;
      && Get(data, "defendants") == Arr([])
      && Truthy(Get(data, "registry")) && Truthy(Get(data, "claimant")) && Get(data, "caseNumber").Str?
      && Truthy(Get(data, "caseNumber"))
    requires engine.templateFound && engine.renders(TemplateData(parse(event.body).value, []))
    ensures var r := Handle(event, parse, engine);
      r.Success? && Get(r.body.templateData, "defendants") == Arr([])
  {
    var data := parse(event.body).value;
    assert forall k :: 0 <= k < |Required| ==> Truthy(Get(data, Required[k]));
    assert DefendantsData(Get(data, "defendants")) == Normal([]);
  }
}
