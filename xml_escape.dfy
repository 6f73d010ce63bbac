/** `escapeXml` of netlify/functions/generate-affidavit-ps.mjs: the five
    predefined entities of section 4.6 of the XML 1.0 recommendation,
    applied as a chain of global replaces with `&` first so that the `&` of
    the later entities is not escaped again. */
module XmlEscape {
  import opened JsValues
  import Text

  /** The chain `.replace(/&/g, '&amp;').replace(/</g, '&lt;')
      .replace(/>/g, '&gt;').replace(/"/g, '&quot;').replace(/'/g, '&apos;')`. */
  function EscapeXml(text: string): string {
    var amp := Text.ReplaceAll(text, "&", "&amp;");
    var lt := Text.ReplaceAll(amp, "<", "&lt;");
    var gt := Text.ReplaceAll(lt, ">", "&gt;");
    var quot := Text.ReplaceAll(gt, "\"", "&quot;");
    Text.ReplaceAll(quot, "'", "&apos;")
  }

  /** `escapeXml(v)` on any value: `''` for a falsy one, otherwise the chain
      applied to `v.toString()`. */
  function EscapeValue(v: JsValue): (r: string)
    ensures !Truthy(v) ==> r == ""
  {
    if !Truthy(v) then "" else EscapeXml(ToStr(v))
  }

  // ---------------------------------------------- per-character reference

  function EscapeChar(c: char): string {
    if c == '&' then "&amp;"
    else if c == '<' then "&lt;"
    else if c == '>' then "&gt;"
    else if c == '"' then "&quot;"
    else if c == '\'' then "&apos;"
    else [c]
  }

  /** Each character written as its entity or as itself. */
  function Escaped(s: string): string
    decreases |s|
  {
    if |s| == 0 then "" else EscapeChar(s[0]) + Escaped(s[1..])
  }

  /** The five single-character substitutions in the order of the chain. */
  function Chain(s: string): string {
    Text.Substitute(Text.Substitute(Text.Substitute(Text.Substitute(
      Text.Substitute(s, '&', "&amp;"), '<', "&lt;"), '>', "&gt;"), '"', "&quot;"), '\'', "&apos;")
  }

  lemma ChainAppend(a: string, b: string)
    ensures Chain(a + b) == Chain(a) + Chain(b)
  {
    var a1, b1 := Text.Substitute(a, '&', "&amp;"), Text.Substitute(b, '&', "&amp;");
    Text.SubstituteAppend(a, b, '&', "&amp;");
    var a2, b2 := Text.Substitute(a1, '<', "&lt;"), Text.Substitute(b1, '<', "&lt;");
    Text.SubstituteAppend(a1, b1, '<', "&lt;");
    var a3, b3 := Text.Substitute(a2, '>', "&gt;"), Text.Substitute(b2, '>', "&gt;");
    Text.SubstituteAppend(a2, b2, '>', "&gt;");
    var a4, b4 := Text.Substitute(a3, '"', "&quot;"), Text.Substitute(b3, '"', "&quot;");
    Text.SubstituteAppend(a3, b3, '"', "&quot;");
    Text.SubstituteAppend(a4, b4, '\'', "&apos;");
  }

  /** On one character the chain writes exactly that character's entity:
      no substitution touches what an earlier one wrote. */
  lemma ChainChar(c: char)
    ensures Chain([c]) == EscapeChar(c)
  {
    ChainCharWith(c, "&amp;", "&lt;", "&gt;", "&quot;", "&apos;");
  }

  /** `ChainChar` for any replacement texts that hold none of the
      characters replaced after them. */
  lemma ChainCharWith(c: char, amp: string, lt: string, gt: string, quot: string, apos: string)
    requires '<' !in amp && '>' !in amp && '"' !in amp && '\'' !in amp
    requires '>' !in lt && '"' !in lt && '\'' !in lt
    requires '"' !in gt && '\'' !in gt
    requires '\'' !in quot
    ensures Text.Substitute(Text.Substitute(Text.Substitute(Text.Substitute(
      Text.Substitute([c], '&', amp), '<', lt), '>', gt), '"', quot), '\'', apos)
      == if c == '&' then amp else if c == '<' then lt else if c == '>' then gt
         else if c == '"' then quot else if c == '\'' then apos else [c]
  {
    var s1 := Text.Substitute([c], '&', amp);
    var s2 := Text.Substitute(s1, '<', lt);
    var s3 := Text.Substitute(s2, '>', gt);
    var s4 := Text.Substitute(s3, '"', quot);
    Step([c], '&', amp);
    if c == '&' {
      Text.SubstituteAbsent(amp, '<', lt);
      Text.SubstituteAbsent(amp, '>', gt);
      Text.SubstituteAbsent(amp, '"', quot);
      Text.SubstituteAbsent(amp, '\'', apos);
    } else {
      Step([c], '<', lt);
      if c == '<' {
        Text.SubstituteAbsent(lt, '>', gt);
        Text.SubstituteAbsent(lt, '"', quot);
        Text.SubstituteAbsent(lt, '\'', apos);
      } else {
        Step([c], '>', gt);
        if c == '>' {
          Text.SubstituteAbsent(gt, '"', quot);
          Text.SubstituteAbsent(gt, '\'', apos);
        } else {
          Step([c], '"', quot);
          if c == '"' {
            Text.SubstituteAbsent(quot, '\'', apos);
          } else {
            Step([c], '\'', apos);
          }
        }
      }
    }
  }

  lemma Step(s: string, d: char, r: string)
    requires |s| == 1
    ensures Text.Substitute(s, d, r) == if s[0] == d then r else s
  {
    assert Text.Substitute(s, d, r) == (if s[0] == d then r else [s[0]]) + Text.Substitute(s[1..], d, r);
  }

  lemma {:induction false} ChainIsPerChar(s: string)
    ensures Chain(s) == Escaped(s)
    decreases |s|
  {
    if |s| > 0 {
      assert s == [s[0]] + s[1..];
      ChainAppend([s[0]], s[1..]);
      ChainChar(s[0]);
      ChainIsPerChar(s[1..]);
    }
  }

  /** The chain of replaces is the per-character escape. */
  lemma EscapeXmlIsPerChar(s: string)
    ensures EscapeXml(s) == Escaped(s)
  {
    var amp := Text.ReplaceAll(s, "&", "&amp;");
    Text.ReplaceAllOneChar(s, '&', "&amp;");
    var lt := Text.ReplaceAll(amp, "<", "&lt;");
    Text.ReplaceAllOneChar(amp, '<', "&lt;");
    var gt := Text.ReplaceAll(lt, ">", "&gt;");
    Text.ReplaceAllOneChar(lt, '>', "&gt;");
    var quot := Text.ReplaceAll(gt, "\"", "&quot;");
    Text.ReplaceAllOneChar(gt, '"', "&quot;");
    Text.ReplaceAllOneChar(quot, '\'', "&apos;");
    ChainIsPerChar(s);
  }

  // ---------------------------------------------- what the escape promises

  /** The characters that may not appear unescaped in the filled text. */
  predicate IsMarkup(c: char) { c == '<' || c == '>' || c == '"' || c == '\'' }

  /** One of the five entities starts at position `i` of `s`. */
  predicate EntityAt(s: string, i: int) {
    || Text.OccursAt(s, "&amp;", i) || Text.OccursAt(s, "&lt;", i) || Text.OccursAt(s, "&gt;", i)
    || Text.OccursAt(s, "&quot;", i) || Text.OccursAt(s, "&apos;", i)
  }

  /** Reads the five entities back, left to right. */
  function Unescape(s: string): string
    decreases |s|
  {
    if |s| == 0 then ""
    else if Text.StartsWith(s, "&amp;") then "&" + Unescape(s[5..])
    else if Text.StartsWith(s, "&lt;") then "<" + Unescape(s[4..])
    else if Text.StartsWith(s, "&gt;") then ">" + Unescape(s[4..])
    else if Text.StartsWith(s, "&quot;") then "\"" + Unescape(s[6..])
    else if Text.StartsWith(s, "&apos;") then "'" + Unescape(s[6..])
    else [s[0]] + Unescape(s[1..])
  }

  lemma {:induction false} EscapedHasNoMarkup(s: string)
    ensures forall i :: 0 <= i < |Escaped(s)| ==> !IsMarkup(Escaped(s)[i])
    decreases |s|
  {
    if |s| > 0 {
      EscapedHasNoMarkup(s[1..]);
      var e := EscapeChar(s[0]);
      assert forall i :: 0 <= i < |e| ==> !IsMarkup(e[i]);
    }
  }

  lemma OccursAtShift(x: string, rest: string, p: string, j: int)
    requires Text.OccursAt(rest, p, j)
    ensures Text.OccursAt(x + rest, p, j + |x|)
  {
    assert (x + rest)[j + |x|..j + |x| + |p|] == rest[j..j + |p|];
  }

  /** The escape of a character that needs one begins with an entity. */
  lemma EntityAtStart(c: char, rest: string)
    requires c == '&' || IsMarkup(c)
    ensures EntityAt(EscapeChar(c) + rest, 0)
  {
    var e := EscapeChar(c);
    assert (e + rest)[..|e|] == e;
  }

  /** Within one character's escape, `&` can only be the entity's first
      character. */
  lemma EscapeCharAmpersand(c: char, i: nat)
    requires i < |EscapeChar(c)| && EscapeChar(c)[i] == '&'
    ensures i == 0 && (c == '&' || IsMarkup(c))
  {
  }

  lemma EntityAtShift(x: string, rest: string, j: int)
    requires EntityAt(rest, j)
    ensures EntityAt(x + rest, j + |x|)
  {
    if Text.OccursAt(rest, "&amp;", j) { OccursAtShift(x, rest, "&amp;", j); }
    else if Text.OccursAt(rest, "&lt;", j) { OccursAtShift(x, rest, "&lt;", j); }
    else if Text.OccursAt(rest, "&gt;", j) { OccursAtShift(x, rest, "&gt;", j); }
    else if Text.OccursAt(rest, "&quot;", j) { OccursAtShift(x, rest, "&quot;", j); }
    else { OccursAtShift(x, rest, "&apos;", j); }
  }

  lemma {:induction false} EscapedAmpersandsStartEntities(s: string)
    ensures forall i :: 0 <= i < |Escaped(s)| && Escaped(s)[i] == '&' ==> EntityAt(Escaped(s), i)
    decreases |s|
  {
    if |s| > 0 {
      var e, rest := EscapeChar(s[0]), Escaped(s[1..]);
      assert Escaped(s) == e + rest;
      EscapedAmpersandsStartEntities(s[1..]);
      forall i | 0 <= i < |e + rest| && (e + rest)[i] == '&'
        ensures EntityAt(e + rest, i)
      {
        if i < |e| {
          assert e[i] == '&';
          EscapeCharAmpersand(s[0], i);
          EntityAtStart(s[0], rest);
        } else {
          assert rest[i - |e|] == '&';
          EntityAtShift(e, rest, i - |e|);
        }
      }
    }
  }

  /** Decoding the escape of one character, then the rest. */
  lemma UnescapeCons(c: char, rest: string)
    ensures Unescape(EscapeChar(c) + rest) == [c] + Unescape(rest)
  {
    if c == '&' {
      UnescapeAmp(rest);
    } else if c == '<' {
      UnescapeLt(rest);
    } else if c == '>' {
      UnescapeGt(rest);
    } else if c == '"' {
      UnescapeQuot(rest);
    } else if c == '\'' {
      UnescapeApos(rest);
    } else {
      UnescapePlain(c, rest);
    }
  }

  lemma UnescapeAmp(rest: string)
    ensures Unescape("&amp;" + rest) == "&" + Unescape(rest)
  {
    var s := "&amp;" + rest;
    assert s[..5] == "&amp;" && s[5..] == rest;
  }

  lemma UnescapePlain(c: char, rest: string)
    requires c != '&'
    ensures Unescape([c] + rest) == [c] + Unescape(rest)
  {
    var s := [c] + rest;
    assert s[0] == c && s[1..] == rest;
    HeadDiffers(s, "&amp;");
    HeadDiffers(s, "&lt;");
    HeadDiffers(s, "&gt;");
    HeadDiffers(s, "&quot;");
    HeadDiffers(s, "&apos;");
  }

  lemma HeadDiffers(s: string, p: string)
    requires |s| > 0 && |p| > 0 && s[0] != p[0]
    ensures !Text.StartsWith(s, p)
  {
    assert |p| > |s| || s[..|p|][0] != p[0];
  }

  lemma UnescapeLt(rest: string)
    ensures Unescape("&lt;" + rest) == "<" + Unescape(rest)
  {
    var s := "&lt;" + rest;
    assert s[1] == 'l' && s[..4] == "&lt;" && s[4..] == rest;
  }

  lemma UnescapeGt(rest: string)
    ensures Unescape("&gt;" + rest) == ">" + Unescape(rest)
  {
    var s := "&gt;" + rest;
    assert s[1] == 'g' && s[..4] == "&gt;" && s[4..] == rest;
  }

  lemma UnescapeQuot(rest: string)
    ensures Unescape("&quot;" + rest) == "\"" + Unescape(rest)
  {
    var s := "&quot;" + rest;
    assert s[1] == 'q' && s[..6] == "&quot;" && s[6..] == rest;
  }

  lemma UnescapeApos(rest: string)
    ensures Unescape("&apos;" + rest) == "'" + Unescape(rest)
  {
    var s := "&apos;" + rest;
    assert s[1] == 'a' && s[2] == 'p' && s[..6] == "&apos;" && s[6..] == rest;
  }

  lemma {:induction false} UnescapeEscaped(s: string)
    ensures Unescape(Escaped(s)) == s
    decreases |s|
  {
    if |s| > 0 {
      var rest := Escaped(s[1..]);
      assert Escaped(s) == EscapeChar(s[0]) + rest;
      assert Unescape(rest) == s[1..] by {
        UnescapeEscaped(s[1..]);
      }
      UnescapeCons(s[0], rest);
      assert s == [s[0]] + s[1..];
    }
  }

  /** What `escapeXml` promises of its output: no markup character is left,
      every `&` begins one of the five entities, and reading the entities
      back gives the input; text with nothing to escape passes unchanged. */
  lemma EscapeXmlIsSafe(s: string)
    ensures forall i :: 0 <= i < |EscapeXml(s)| ==> !IsMarkup(EscapeXml(s)[i])
    ensures forall i :: 0 <= i < |EscapeXml(s)| && EscapeXml(s)[i] == '&' ==> EntityAt(EscapeXml(s), i)
    ensures Unescape(EscapeXml(s)) == s
  {
    EscapeXmlIsPerChar(s);
    EscapedHasNoMarkup(s);
    EscapedAmpersandsStartEntities(s);
    UnescapeEscaped(s);
  }

  /** Text with no `&` and no markup character is left as it is. */
  lemma {:induction false} PlainTextIsUnchanged(s: string)
    requires forall i :: 0 <= i < |s| ==> s[i] != '&' && !IsMarkup(s[i])
    ensures EscapeXml(s) == s
    decreases |s|
  {
    EscapeXmlIsPerChar(s);
    PlainEscaped(s);
  }

  lemma {:induction false} PlainEscaped(s: string)
    requires forall i :: 0 <= i < |s| ==> s[i] != '&' && !IsMarkup(s[i])
    ensures Escaped(s) == s
    decreases |s|
  {
    if |s| > 0 {
      PlainEscaped(s[1..]);
      assert s == [s[0]] + s[1..];
    }
  }
}
