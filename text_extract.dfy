/** netlify/functions/extract-gpc-data.mjs: the text extractor. It sends
    the document text to the language model and reads a JSON object back
    from the reply, either the whole reply or the contents of its first
    Markdown code fence, then records the uploaded file's name in it. */
module TextExtract {
  import opened Wrappers
  import opened JsValues
  import opened Http
  import Text

  /** The model call, left uninterpreted: given the document text that the
      fixed prompt wraps, the text of the first content block of the reply,
      or the failure of the call. */
  type Model = string -> Completion<string>

  const FailureMessage := "Failed to extract data from GPC"
  const NoFenceMessage := "Could not parse JSON from response"
  const JsonFence := "```json"
  const Fence := "```"

  /** The capture of `/<opener>\s*([\s\S]*?)\s*```/`, where `opener` is
      "```json" or "```". A match exists exactly when some closing "```"
      follows the first opener and the whitespace after it; the leftmost
      match starts at the first opener, the greedy `\s*` takes all that
      whitespace, and the lazy group stops at the first closing "```",
      leaving the whitespace before it to the second `\s*`. */
  function FenceBody(s: string, opener: string): Option<string> {
    match FenceSpan(s, opener)
    case None => None
    case Some((q, m)) => Some(Text.TrimEnd(s[q..m]))
  }

  /** Where the lazy group of a fence match may run: from `q`, just past the
      first opener and the whitespace after it, to `m`, the first closing
      fence at or after `q`. There is no match exactly when the opener is
      absent or no closing fence starts after the end of its first
      occurrence. */
  function FenceSpan(s: string, opener: string): (r: Option<(nat, nat)>)
    ensures r.Some? ==>
      var (q, m) := r.value;
      && Text.IndexOf(s, opener).Some?
      && var p := Text.IndexOf(s, opener).value;
         && p + |opener| <= q <= m && Text.OccursAt(s, Fence, m)
         && Text.AllSpace(s[p + |opener|..q]) && !Text.IsSpace(s[q])
         && (forall k :: q <= k < m ==> !Text.OccursAt(s, Fence, k))
    ensures r.None? <==>
      || Text.IndexOf(s, opener).None?
      || (forall k :: Text.IndexOf(s, opener).value + |opener| <= k ==> !Text.OccursAt(s, Fence, k))
  {
    match Text.IndexOf(s, opener)
    case None => None
    case Some(p) =>
      var rest := s[p + |opener|..];
      var n := Text.SpaceRun(rest);
      var q := p + |opener| + n;
      assert s[p + |opener|..q] == rest[..n];
      NoFenceInSpace(s, p + |opener|, q);
      match Text.IndexOfFrom(s, Fence, q)
      case None => None
      case Some(m) =>
        assert s[q] == rest[n] by {
          assert s[m] == '`';
        }
        Some((q, m))
  }

  /** A closing fence cannot start inside a run of whitespace. */
  lemma NoFenceInSpace(s: string, i: nat, j: nat)
    requires i <= j <= |s| && Text.AllSpace(s[i..j])
    ensures forall k :: i <= k < j ==> !Text.OccursAt(s, Fence, k)
  {
    forall k | i <= k < j
      ensures !Text.OccursAt(s, Fence, k)
    {
      assert s[k] == s[i..j][k - i];
      if k + |Fence| <= |s| {
        assert s[k..k + |Fence|][0] != Fence[0];
      }
    }
  }

  /** The captured body holds no fence and no whitespace at either end, and
      sits between the first opener and a closing fence. */
  lemma FenceBodyShape(s: string, opener: string)
    ensures FenceBody(s, opener).Some? ==> Text.Contains(s, opener) && Text.Contains(s, Fence)
    ensures FenceBody(s, opener).Some? ==>
      var b := FenceBody(s, opener).value;
      && !Text.Contains(b, Fence)
      && (b == [] || (!Text.IsSpace(b[0]) && !Text.IsSpace(b[|b| - 1])))
  {
    match FenceSpan(s, opener)
    case None =>
    case Some((q, m)) =>
      var b := Text.TrimEnd(s[q..m]);
      Text.TrimEndDropsSpace(s[q..m]);
      FenceFree(s, q, m, b);
      assert b != [] ==> b[0] == s[q];
  }

  /** Text that starts at `q` and ends before the first fence at or after
      `q` holds no fence. */
  lemma FenceFree(s: string, q: nat, m: nat, b: string)
    requires q <= m <= |s| && Text.IndexOfFrom(s, Fence, q) == Some(m)
    requires |b| <= m - q && b == s[q..q + |b|]
    ensures !Text.Contains(b, Fence)
  {
    forall k | 0 <= k <= |b| ensures !Text.OccursAt(b, Fence, k) {
      if k + |Fence| <= |b| {
        Text.SliceOfSlice(s, q, q + |b|, k, k + |Fence|);
        assert !Text.OccursAt(s, Fence, q + k);
      }
    }
  }

  /** A reply that is exactly one fenced block, with a newline after the
      opener and before the closing fence, gives back the block's contents
      (when they hold no fence and do not start or end with whitespace). */
  lemma {:induction false} FencedReplyRoundTrip(j: string, opener: string)
    requires !Text.Contains(j, Fence)
    requires j != [] && !Text.IsSpace(j[0]) && !Text.IsSpace(j[|j| - 1])
    ensures FenceBody(opener + "\n" + j + "\n" + Fence, opener) == Some(j)
  {
    var s := opener + "\n" + j + "\n" + Fence;
    var o := |opener|;
    assert Text.OccursAt(s, opener, 0);
    assert Text.IndexOf(s, opener) == Some(0);
    var rest := s[o..];
    assert rest[0] == '\n' && rest[1] == j[0];
    assert Text.SpaceRun(rest) == 1 by {
      assert Text.SpaceRun(rest[1..]) == 0;
    }
    var q := o + 1;
    var m := q + |j| + 1;
    assert s[q..q + |j|] == j && s[q + |j|] == '\n' && s[m..] == Fence;
    FirstFenceAfter(s, q, j);
    assert s[q..m] == j + "\n";
    assert Text.TrimEnd(j + "\n") == Text.TrimEnd(j) == j;
  }

  /** When `j` holds no fence and a newline and a fence follow it, the first
      fence after the start of `j` is that one. */
  lemma FirstFenceAfter(s: string, q: nat, j: string)
    requires q + |j| + 4 == |s| && s[q..q + |j|] == j && s[q + |j|] == '\n' && s[q + |j| + 1..] == Fence
    requires !Text.Contains(j, Fence)
    ensures Text.IndexOfFrom(s, Fence, q) == Some(q + |j| + 1)
  {
    var m := q + |j| + 1;
    assert |Fence| == 3;
    assert Text.OccursAt(s, Fence, m);
    forall k | q <= k < m
      ensures !Text.OccursAt(s, Fence, k)
    {
      if k + 3 <= q + |j| {
        Text.SliceOfSlice(s, q, q + |j|, k - q, k - q + 3);
        assert !Text.OccursAt(j, Fence, k - q);
      } else {
        assert s[k..k + 3][q + |j| - k] == '\n';
      }
    }
  }

  /** `JSON.parse(responseText)`, and when that throws, the body of the
      first "```json" fence, and failing that of the first "```" fence. A
      fence that is found but does not hold JSON is an error; so is a reply
      with no fence. */
  function ReadReply(responseText: string, parse: JsonParser): (r: Completion<JsValue>)
    ensures parse(responseText).Some? ==> r == Normal(parse(responseText).value)
    ensures r.Normal? ==>
      || parse(responseText) == Some(r.value)
      || (exists b :: FenceBody(responseText, JsonFence) == Some(b) && parse(b) == Some(r.value))
      || (FenceBody(responseText, JsonFence).None? &&
          exists b :: FenceBody(responseText, Fence) == Some(b) && parse(b) == Some(r.value))
    ensures parse(responseText).None? && FenceBody(responseText, JsonFence).Some? ==>
      r == (match parse(FenceBody(responseText, JsonFence).value)
            case Some(data) => Normal(data)
            case None => Throw(SyntaxError))
    ensures parse(responseText).None? && FenceBody(responseText, JsonFence).None? &&
            FenceBody(responseText, Fence).Some? ==>
      r == (match parse(FenceBody(responseText, Fence).value)
            case Some(data) => Normal(data)
            case None => Throw(SyntaxError))
    ensures r.Throw? ==> r.fault == SyntaxError || r.fault == Error(NoFenceMessage)
    ensures r == Throw(Error(NoFenceMessage)) <==>
      parse(responseText).None? && FenceBody(responseText, JsonFence).None? && FenceBody(responseText, Fence).None?
  {
    match parse(responseText)
    case Some(data) => Normal(data)
    case None =>
      var fenced := match FenceBody(responseText, JsonFence)
                    case Some(b) => Some(b)
                    case None => FenceBody(responseText, Fence);
      match fenced
      case None => Throw(Error(NoFenceMessage))
      case Some(b) =>
        match parse(b)
        case None => Throw(SyntaxError)
        case Some(data) => Normal(data)
  }

  /** The handler. */
  function Handle(event: Event, parse: JsonParser, model: Model): (r: Reply<JsValue>)
    ensures r == MethodNotAllowed <==> event.httpMethod != "POST"
    ensures r == BadRequest("No text provided") <==>
      && event.httpMethod == "POST" && parse(event.body).Some?
      && !Nullish(parse(event.body).value) && !Truthy(Get(parse(event.body).value, "text"))
    ensures event.httpMethod == "POST" && parse(event.body).None? ==> r == ServerError(FailureMessage, SyntaxError)
    ensures event.httpMethod == "POST" && parse(event.body).Some? && Nullish(parse(event.body).value) ==>
      r == ServerError(FailureMessage, TypeError)
    ensures r.Success? ==>
      && event.httpMethod == "POST" && parse(event.body).Some?
      && var request := parse(event.body).value;
         && Truthy(Get(request, "text"))
         && model(ToStr(Get(request, "text"))).Normal?
         && var reply := ReadReply(model(ToStr(Get(request, "text"))).value, parse);
            && reply.Normal? && (reply.value.Obj? || reply.value.Arr?)
            && (reply.value.Obj? ==> r.body == Obj(reply.value.fields["filename" := Get(request, "filename")]))
    ensures event.httpMethod == "POST" && parse(event.body).Some? && !Nullish(parse(event.body).value)
            && Truthy(Get(parse(event.body).value, "text")) ==>
      var request := parse(event.body).value;
      var answer := model(ToStr(Get(request, "text")));
      && (answer.Throw? ==> r == ServerError(FailureMessage, answer.fault))
      && (answer.Normal? ==>
            var reply := ReadReply(answer.value, parse);
            && (reply.Throw? ==> r == ServerError(FailureMessage, reply.fault))
            && (reply.Normal? ==>
                  r == match SetProp(reply.value, "filename", Get(request, "filename"))
                       case Normal(tagged) => Success(tagged)
                       case Throw(f) => ServerError(FailureMessage, f)))
  {
    if event.httpMethod != "POST" then MethodNotAllowed
    else
      match parse(event.body)
      case None => ServerError(FailureMessage, SyntaxError)
      case Some(request) =>
        if Nullish(request) then ServerError(FailureMessage, TypeError)
        else if !Truthy(Get(request, "text")) then BadRequest("No text provided")
        else
          match model(ToStr(Get(request, "text")))
          case Throw(f) => ServerError(FailureMessage, f)
          case Normal(responseText) =>
            match ReadReply(responseText, parse)
            case Throw(f) => ServerError(FailureMessage, f)
            case Normal(data) =>
              match SetProp(data, "filename", Get(request, "filename"))
              case Throw(f) => ServerError(FailureMessage, f)
              case Normal(tagged) => Success(tagged)
  }
}
