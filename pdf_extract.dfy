/** netlify/functions/extract-gpc-data.js: the PDF extractor. It takes a
    `multipart/form-data` upload, sends the PDF to the language model with
    a fixed prompt, and returns the JSON object found in the model's reply
    (the span from the first `{` to the last `}`). */
module PdfExtract {
  import opened Wrappers
  import opened JsValues
  import opened Http
  import Text

  /** The uploaded file's bytes; they are only passed on. */
  type Pdf = seq<int>

  /** busboy, left uninterpreted: given the content type and the body it
      yields the uploaded file (`None` when the form holds none) or fails. */
  type MultipartParser = (string, string) -> Completion<Option<Pdf>>

  /** The model call, left uninterpreted: the text of the first content
      block of the reply, or the failure of the call. */
  type Model = Pdf -> Completion<string>

  const FailureMessage := "Failed to extract data"
  const ContentTypeMessage := "Content type must be multipart/form-data"

  /** `event.headers['content-type'] || event.headers['Content-Type']`, with
      `None` for a falsy result (absent or empty). */
  function ContentType(headers: map<string, string>): (r: Option<string>)
    ensures r.Some? ==> r.value != ""
    ensures r.None? <==>
      ("content-type" !in headers || headers["content-type"] == "") &&
      ("Content-Type" !in headers || headers["Content-Type"] == "")
    ensures "content-type" in headers && headers["content-type"] != "" ==> r == Some(headers["content-type"])
  {
    if "content-type" in headers && headers["content-type"] != "" then Some(headers["content-type"])
    else if "Content-Type" in headers && headers["Content-Type"] != "" then Some(headers["Content-Type"])
    else None
  }

  /** A match of `/\{[\s\S]*\}/` spanning `s[i..j + 1]`: it opens with `{`
      and closes with `}`, and `[\s\S]*` takes any characters between. */
  predicate BraceMatch(s: string, i: int, j: int) {
    0 <= i < j < |s| && s[i] == '{' && s[j] == '}'
  }

  /** The match the regular expression reports: the leftmost start, and
      from there the longest match (the `*` is greedy), i.e. from the first
      `{` to the last `}` when the first `{` comes before the last `}`. */
  function BraceSpan(s: string): (r: Option<(nat, nat)>)
    ensures r.Some? <==> exists i, j :: BraceMatch(s, i, j)
    ensures r.Some? ==>
      && BraceMatch(s, r.value.0, r.value.1)
      && forall i, j :: BraceMatch(s, i, j) ==> r.value.0 <= i && j <= r.value.1
  {
    match (Text.IndexOfChar(s, '{'), Text.LastIndexOfChar(s, '}'))
    case (Some(i), Some(j)) =>
      if i < j then assert BraceMatch(s, i, j); Some((i, j)) else None
    case _ => None
  }

  /** `jsonMatch ? jsonMatch[0] : responseText`. */
  function JsonCandidate(text: string): string {
    match BraceSpan(text)
    case Some((i, j)) => text[i..j + 1]
    case None => text
  }

  /** The candidate is a contiguous piece of the reply; when the reply holds
      a `{` before a `}`, it opens at the first `{` and closes at the last
      `}`, so the text around it holds no `{` before and no `}` after. */
  lemma JsonCandidateIsOutermostBraces(text: string)
    ensures Text.Contains(text, JsonCandidate(text))
    ensures (exists i, j :: BraceMatch(text, i, j)) ==>
      var c := JsonCandidate(text);
      exists i :: Text.OccursAt(text, c, i)
        && |c| >= 2 && c[0] == '{' && c[|c| - 1] == '}'
        && (forall k :: 0 <= k < i ==> text[k] != '{')
        && (forall k :: i + |c| <= k < |text| ==> text[k] != '}')
    ensures (forall i, j :: !BraceMatch(text, i, j)) ==> JsonCandidate(text) == text
  {
    var c := JsonCandidate(text);
    match BraceSpan(text)
    case Some((i, j)) =>
      assert Text.OccursAt(text, c, i);
    case None =>
      assert Text.OccursAt(text, c, 0);
  }

  /** The handler. */
  function Handle(event: Event, multipart: MultipartParser, model: Model, parse: JsonParser): (r: Reply<JsValue>)
    ensures r == MethodNotAllowed <==> event.httpMethod != "POST"
    ensures event.httpMethod == "POST" && (ContentType(event.headers).None? ||
              !Text.Contains(ContentType(event.headers).value, "multipart/form-data")) ==>
      r == ServerError(FailureMessage, Error(ContentTypeMessage))
    ensures r == BadRequest("No PDF file provided") <==>
      && event.httpMethod == "POST" && ContentType(event.headers).Some?
      && Text.Contains(ContentType(event.headers).value, "multipart/form-data")
      && multipart(ContentType(event.headers).value, event.body) == Normal(None)
    ensures r.Success? ==>
      && event.httpMethod == "POST" && ContentType(event.headers).Some?
      && var form := multipart(ContentType(event.headers).value, event.body);
         && form.Normal? && form.value.Some?
         && model(form.value.value).Normal?
         && parse(JsonCandidate(model(form.value.value).value)) == Some(r.body)
    ensures event.httpMethod == "POST" && ContentType(event.headers).Some? &&
            Text.Contains(ContentType(event.headers).value, "multipart/form-data") ==>
      var form := multipart(ContentType(event.headers).value, event.body);
      && (form.Throw? ==> r == ServerError(FailureMessage, form.fault))
      && (form.Normal? && form.value.Some? ==>
            var answer := model(form.value.value);
            && (answer.Throw? ==> r == ServerError(FailureMessage, answer.fault))
            && (answer.Normal? && parse(JsonCandidate(answer.value)).None? ==>
                  r == ServerError(FailureMessage, SyntaxError))
            && (answer.Normal? && parse(JsonCandidate(answer.value)).Some? ==>
                  r == Success(parse(JsonCandidate(answer.value)).value)))
  {
    if event.httpMethod != "POST" then MethodNotAllowed
    else
      match ContentType(event.headers)
      case None => ServerError(FailureMessage, Error(ContentTypeMessage))
      case Some(contentType) =>
        if !Text.Contains(contentType, "multipart/form-data") then ServerError(FailureMessage, Error(ContentTypeMessage))
        else
          match multipart(contentType, event.body)
          case Throw(f) => ServerError(FailureMessage, f)
          case Normal(None) => BadRequest("No PDF file provided")
          case Normal(Some(pdf)) =>
            match model(pdf)
            case Throw(f) => ServerError(FailureMessage, f)
            case Normal(text) =>
              match parse(JsonCandidate(text))
              case None => ServerError(FailureMessage, SyntaxError)
              case Some(extracted) => Success(extracted)
  }
}
