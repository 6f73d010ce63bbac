/** The handler of netlify/functions/generate-affidavit-ps.mjs: it checks the
    request, reads the registry, the lodgement date and the lodging party
    from the claim text, and fills the PS template for one defendant,
    listing every defendant in one row and naming the current one in the
    service statement; the file is `Affidavit_{case}_{defendant}.docx`.

    The raw-XML table fills (`fillRegistryInfo`, `fillTableValue`,
    `fillTableValueForceReplace`, `fillDefendantTablePS`, `fillLawFirmInfo`)
    are parameters: the model fixes which values each receives and in which
    order the steps run. */
module PsHandler {
  import opened Wrappers
  import opened JsValues
  import opened Http
  import Text
  import Filenames
  import DefendantName
  import GpcText
  import ServiceStatement

  const Required: seq<string> := ["caseNumber", "claimant", "defendantName", "allDefendants", "gpcText"]

  const FailureMessage := "Failed to generate affidavit"

  /** The reply when none of the four template paths can be read. */
  const TemplateMissing: Reply<PsDocument> :=
    ServerError("Template file not found", Error("Form_11_-_Affidavit_of_Service_PS.docx is not available"))

  /** The raw-XML fill steps, left uninterpreted. `lawFirm(xml, gpcText)`
      stands for `fillLawFirmInfo(xml, extractLawFirmInfo(gpcText))`; the
      lodging party that `extractLawFirmInfo` records is the one
      `GpcText.LodgedBy(gpcText)` gives. */
  datatype XmlSteps = XmlSteps(
    registry: (string, GpcText.RegistryInfo) -> string,
    tableValue: (string, nat, JsValue) -> string,
    forceReplace: (string, nat, string) -> string,
    defendantTable: (string, nat, string, string) -> string,
    lawFirm: (string, string) -> string)

  /** The generated document: the XML and the announced file name. */
  datatype PsDocument = PsDocument(xml: string, filename: string)

  // ------------------------------------------------------------ defendants

  /** `===` between values read from one `JSON.parse`: primitives compare by
      value; two arrays or objects are never the same object. */
  predicate StrictEquals(a: JsValue, b: JsValue) {
    match (a, b)
    case (Undefined, Undefined) => true
    case (Null, Null) => true
    case (Bool(x), Bool(y)) => x == y
    case (Num(x), Num(y)) => x == y
    case (Str(x), Str(y)) => x == y
    case _ => false
  }

  /** `Array.prototype.indexOf`, with `None` for -1. */
  function ArrayIndexOf(items: seq<JsValue>, v: JsValue): (r: Option<nat>)
    ensures r.Some? ==> r.value < |items| && StrictEquals(items[r.value], v)
    ensures r.Some? ==> forall j :: 0 <= j < r.value ==> !StrictEquals(items[j], v)
    ensures r.None? ==> forall j :: 0 <= j < |items| ==> !StrictEquals(items[j], v)
  {
    if |items| == 0 then None
    else if StrictEquals(items[0], v) then Some(0)
    else match ArrayIndexOf(items[1..], v)
      case Some(k) => Some(k + 1)
      case None => None
  }

  /** `defendants.indexOf(currentDefendant)`: an array searches its
      elements, a string its text; other values have no `indexOf`. */
  function DefendantIndex(defendants: JsValue, current: JsValue): Completion<Option<nat>> {
    match defendants
    case Arr(items) => Normal(ArrayIndexOf(items, current))
    case Str(s) => Normal(Text.IndexOf(s, ToStr(current)))
    case _ => Throw(TypeError)
  }

  /** `ordinals[defendantIndex] || 'First'`: an index past the six words, or
      -1, reads `undefined` and falls back to "First". The value is only
      logged. */
  function DefendantOrdinal(index: Option<nat>): string {
    if index.Some? && index.value < |ServiceStatement.Ordinals| then ServiceStatement.Ordinals[index.value]
    else "First"
  }

  /** The ordinal is that of the first listed entry equal to the defendant,
      and "First" when the defendant is not listed or listed after the sixth. */
  lemma OrdinalOfListedDefendant(items: seq<JsValue>, name: string, k: nat)
    requires k < |items| && items[k] == Str(name)
    requires forall j :: 0 <= j < k ==> items[j] != Str(name)
    ensures k < 6 ==> DefendantOrdinal(ArrayIndexOf(items, Str(name))) == ServiceStatement.Ordinals[k]
    ensures k >= 6 ==> DefendantOrdinal(ArrayIndexOf(items, Str(name))) == "First"
  {
    var r := ArrayIndexOf(items, Str(name));
    assert StrictEquals(items[k], Str(name));
    assert r.Some? && r.value == k by {
      assert forall j :: 0 <= j < k ==> !StrictEquals(items[j], Str(name));
    }
  }

  /** `items.map(d => formatDefendantName(d))`, which throws at the first
      truthy entry that is not a string. */
  function FormatAll(items: seq<JsValue>): (r: Completion<seq<string>>)
    ensures r.Normal? ==> |r.value| == |items|
    ensures r.Normal? ==> forall i :: 0 <= i < |items| ==> DefendantName.FormatValue(items[i]) == Normal(r.value[i])
    ensures r.Throw? <==> exists i :: 0 <= i < |items| && DefendantName.FormatValue(items[i]).Throw?
    ensures r.Throw? ==> r.fault == TypeError
  {
    if exists i :: 0 <= i < |items| && DefendantName.FormatValue(items[i]).Throw? then Throw(TypeError)
    else Normal(seq(|items|, i requires 0 <= i < |items| => DefendantName.FormatValue(items[i]).value))
  }

  /** `defendants.map(d => formatDefendantName(d)).join(', ')`; a value that
      is not an array has no `map`. */
  function DefendantsLine(defendants: JsValue): (r: Completion<string>)
    ensures r.Throw? ==> r.fault == TypeError
    ensures !defendants.Arr? ==> r.Throw?
  {
    match defendants
    case Arr(items) =>
      (match FormatAll(items)
       case Throw(f) => Throw(f)
       case Normal(names) => Normal(Text.Join(names, ", ")))
    case _ => Throw(TypeError)
  }

  /** A list of names gives every formatted name in its place, separated by
      `, `. */
  lemma DefendantsLineOfNames(names: seq<string>)
    ensures var items := seq(|names|, i requires 0 <= i < |names| => Str(names[i]));
      DefendantsLine(Arr(items)) == Normal(Text.Join(seq(|names|, i requires 0 <= i < |names| => DefendantName.FormatDefendantName(names[i])), ", "))
  {
    var items := seq(|names|, i requires 0 <= i < |names| => Str(names[i]));
    var expected := seq(|names|, i requires 0 <= i < |names| => DefendantName.FormatDefendantName(names[i]));
    assert forall i :: 0 <= i < |items| ==> DefendantName.FormatValue(items[i]) == Normal(expected[i]);
    var r := FormatAll(items);
    assert r.Normal?;
    assert r.value == expected;
  }

  // ------------------------------------------------------------ processDocument

  /** What `processDocument` returns: the template XML after the registry,
      case number, upper-cased claimant, defendant row, service statement and
      law-firm steps, in that order; it throws a TypeError when the
      defendants cannot be searched or mapped, when the claimant is not a
      string, when the current defendant is a truthy non-string, or when the
      address does. */
  function Document(xml: string, data: JsValue, registryInfo: GpcText.RegistryInfo, gpcText: string,
                    dateLodged: string, steps: XmlSteps, formatAddress: string -> string): (c: Completion<string>)
    ensures c.Throw? ==> c.fault == TypeError
    ensures c.Normal? ==> Get(data, "claimant").Str? && Get(data, "allDefendants").Arr?
    ensures c.Normal? ==> DefendantName.FormatValue(Get(data, "defendantName")).Normal?
  {
    var defendants := Get(data, "allDefendants");
    var current := Get(data, "defendantName");
    var claimant := Get(data, "claimant");
    if DefendantIndex(defendants, current).Throw? || !claimant.Str? then Throw(TypeError)
    else
      var r0 := steps.registry(xml, registryInfo);
      var r1 := steps.tableValue(r0, 0, Get(data, "caseNumber"));
      var r2 := steps.forceReplace(r1, 1, Text.Upper(claimant.s));
      match DefendantsLine(defendants)
      case Throw(f) => Throw(f)
      case Normal(line) =>
        var r3 := steps.defendantTable(r2, 2, "Defendant", line);
        match DefendantName.FormatValue(current)
        case Throw(f) => Throw(f)
        case Normal(name) =>
          match ServiceStatement.ServiceStatement(r3, name, Get(data, "defendantAddress"), formatAddress, dateLodged)
          case Throw(f) => Throw(f)
          case Normal(r4) => Normal(steps.lawFirm(r4, gpcText))
  }

  /** `processDocument`, reassigning `result` step by step. */
  method ProcessDocument(xml: string, data: JsValue, registryInfo: GpcText.RegistryInfo, gpcText: string,
                         dateLodged: string, steps: XmlSteps, formatAddress: string -> string)
    returns (c: Completion<string>)
    ensures c == Document(xml, data, registryInfo, gpcText, dateLodged, steps, formatAddress)
  {
    var defendants := Get(data, "allDefendants");
    var currentDefendant := Get(data, "defendantName");
    var index := DefendantIndex(defendants, currentDefendant);
    if index.Throw? {
      return Throw(TypeError);
    }
    var defendantOrdinal := DefendantOrdinal(index.value);
    var result := xml;
    result := steps.registry(result, registryInfo);
    result := steps.tableValue(result, 0, Get(data, "caseNumber"));
    var claimant := Get(data, "claimant");
    if !claimant.Str? {
      return Throw(TypeError);
    }
    result := steps.forceReplace(result, 1, Text.Upper(claimant.s));
    var formattedDefendants := DefendantsLine(defendants);
    if formattedDefendants.Throw? {
      return Throw(formattedDefendants.fault);
    }
    result := steps.defendantTable(result, 2, "Defendant", formattedDefendants.value);
    var formattedCurrentDefendant := DefendantName.FormatValue(currentDefendant);
    if formattedCurrentDefendant.Throw? {
      return Throw(formattedCurrentDefendant.fault);
    }
    var statement := ServiceStatement.FillServiceStatementPS(result, formattedCurrentDefendant.value,
                                                             Get(data, "defendantAddress"), formatAddress, dateLodged);
    if statement.Throw? {
      return Throw(statement.fault);
    }
    result := steps.lawFirm(statement.value, gpcText);
    c := Normal(result);
  }

  // ------------------------------------------------------------ the handler

  /** The handler. `template` is the document XML of the first readable
      template path, `None` when none can be read. */
  function Handle(event: Event, parse: JsonParser, template: Option<string>,
                  steps: XmlSteps, formatAddress: string -> string): (r: Reply<PsDocument>)
    ensures r == MethodNotAllowed <==> event.httpMethod != "POST"
    ensures r.Success? ==> event.httpMethod == "POST" && parse(event.body).Some? && template.Some?
    ensures r.Success? ==>
      var data := parse(event.body).value;
      && (forall k :: 0 <= k < |Required| ==> Truthy(Get(data, Required[k])))
      && Get(data, "gpcText").Str? && Get(data, "caseNumber").Str? && Get(data, "defendantName").Str?
      && Get(data, "claimant").Str? && Get(data, "allDefendants").Arr?
      && r.body.filename == Filenames.DefendantFilename(Get(data, "caseNumber").s, Get(data, "defendantName").s)
  {
    match Admit(event, parse, Required)
    case NotPost => MethodNotAllowed
    case MissingField(f) => BadRequest(MissingFieldMessage(f))
    case Failed(f) => ServerError(FailureMessage, f)
    case Admitted(data) =>
      var gpc := Get(data, "gpcText");
      if !gpc.Str? then ServerError(FailureMessage, TypeError)
      else
        var registryInfo := GpcText.RegistryInfoOf(gpc.s);
        var dateLodged := GpcText.ExtractDateLodged(gpc.s);
        if template.None? then TemplateMissing
        else
          match Document(template.value, data, registryInfo, gpc.s, dateLodged, steps, formatAddress)
          case Throw(f) => ServerError(FailureMessage, f)
          case Normal(xml) =>
            var name := Get(data, "defendantName");
            var caseNumber := Get(data, "caseNumber");
            if !caseNumber.Str? then ServerError(FailureMessage, TypeError)
            else
              assert name.Str? by {
                assert Truthy(Get(data, Required[2]));
              }
              Success(PsDocument(xml, Filenames.DefendantFilename(caseNumber.s, name.s)))
  }

  /** Required fields are checked in the order caseNumber, claimant,
      defendantName, allDefendants, gpcText; the first falsy one is named in
      a 400. */
  lemma FirstMissingFieldIsReported(event: Event, parse: JsonParser, template: Option<string>,
                                    steps: XmlSteps, formatAddress: string -> string, k: nat)
    requires event.httpMethod == "POST" && parse(event.body).Some? && !Nullish(parse(event.body).value)
    requires k < |Required| && !Truthy(Get(parse(event.body).value, Required[k]))
    requires forall j :: 0 <= j < k ==> Truthy(Get(parse(event.body).value, Required[j]))
    ensures Handle(event, parse, template, steps, formatAddress) == BadRequest(MissingFieldMessage(Required[k]))
  {
    FirstFalsyFieldIsReported(event, parse, Required, k);
  }

  /** An admitted request with a string claim text and no readable template
      gets the template-specific 500, before any document work. */
  lemma MissingTemplateIsReported(event: Event, parse: JsonParser, steps: XmlSteps, formatAddress: string -> string)
    requires Admit(event, parse, Required).Admitted?
    requires Get(Admit(event, parse, Required).data, "gpcText").Str?
    ensures Handle(event, parse, None, steps, formatAddress) == TemplateMissing
  {
  }

  /** A claim text that is truthy but not a string fails in
      `extractRegistryInfo` (it has no `split`). */
  lemma NonStringClaimTextFails(event: Event, parse: JsonParser, template: Option<string>,
                                steps: XmlSteps, formatAddress: string -> string)
    requires Admit(event, parse, Required).Admitted?
    requires !Get(Admit(event, parse, Required).data, "gpcText").Str?
    ensures Handle(event, parse, template, steps, formatAddress) == ServerError(FailureMessage, TypeError)
  {
  }
}
