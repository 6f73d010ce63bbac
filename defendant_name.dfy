/** `formatDefendantName` of netlify/functions/generate-affidavit-ps.mjs:
    "Given SURNAME" casing. The name is trimmed and cut at whitespace; a
    single word is upper-cased; otherwise the last word is upper-cased and
    every earlier word gets a capital first letter and a lower-case rest,
    and the words are joined by single spaces. */
module DefendantName {
  import opened JsValues
  import Text

  /** `part.charAt(0).toUpperCase() + part.slice(1).toLowerCase()`. */
  function Capitalise(part: string): (r: string)
    ensures |r| == |part|
    ensures |part| > 0 ==> r[0] == Text.ToUpper(part[0])
    ensures forall i :: 1 <= i < |part| ==> r[i] == Text.ToLower(part[i])
  {
    if |part| == 0 then "" else [Text.ToUpper(part[0])] + Text.Lower(part[1..])
  }

  function CapitaliseAll(parts: seq<string>): (r: seq<string>)
    ensures |r| == |parts| && forall i :: 0 <= i < |parts| ==> r[i] == Capitalise(parts[i])
  {
    seq(|parts|, i requires 0 <= i < |parts| => Capitalise(parts[i]))
  }

  /** `formatDefendantName` on a string (the empty string gives ""). */
  function FormatDefendantName(name: string): string {
    var parts := Text.SplitOnSpace(Text.Trim(name));
    if |parts| == 1 then Text.Upper(parts[0])
    else Text.Join(CapitaliseAll(parts[..|parts| - 1]), " ") + " " + Text.Upper(parts[|parts| - 1])
  }

  /** The words of a name, as the formatter cuts them. */
  function Words(name: string): seq<string> {
    Text.SplitOnSpace(Text.Trim(name))
  }

  /** `formatDefendantName(v)` on any value: "" for a falsy one, and a
      TypeError for a truthy value that is not a string (it has no `trim`). */
  function FormatValue(v: JsValue): (r: Completion<string>)
    ensures r.Throw? <==> Truthy(v) && !v.Str?
    ensures v.Str? ==> r == Normal(FormatDefendantName(v.s))
  {
    if !Truthy(v) then Normal("")
    else if v.Str? then Normal(FormatDefendantName(v.s))
    else Throw(TypeError)
  }

  // -------------------------------------------------------------- words

  predicate IsWord(w: string) { w != [] && Text.NoSpace(w) }

  /** Words joined by single spaces are cut back into the same words. */
  lemma {:induction false} SplitJoinedWords(ws: seq<string>)
    requires |ws| >= 1 && forall i :: 0 <= i < |ws| ==> IsWord(ws[i])
    ensures Text.SplitOnSpace(Text.Join(ws, " ")) == ws
    decreases |ws|
  {
    var s := Text.Join(ws, " ");
    if |ws| > 1 {
      var rest := Text.Join(ws[1..], " ");
      assert s == ws[0] + " " + rest;
      Text.JoinHeadIsPrefix(ws[1..], " ");
      assert rest[0] == ws[1][0];
      var w := |ws[0]|;
      Text.WordRunOf(ws[0], " " + rest);
      assert s == ws[0] + (" " + rest);
      var after := s[w..];
      assert after == " " + rest;
      Text.SpaceRunOf(" ", rest);
      assert s[w + 1..] == rest;
      SplitJoinedWords(ws[1..]);
      assert ws == [ws[0]] + ws[1..];
    } else {
      Text.WordRunOf(s, []);
      assert s + [] == s;
    }
  }

  /** A trimmed, non-empty text is cut into non-empty words. */
  lemma {:induction false} SplitTrimmedIsWords(t: string)
    requires t != [] && !Text.IsSpace(t[0]) && !Text.IsSpace(t[|t| - 1])
    ensures forall i :: 0 <= i < |Text.SplitOnSpace(t)| ==> IsWord(Text.SplitOnSpace(t)[i])
    decreases |t|
  {
    var w := Text.WordRun(t);
    if w < |t| {
      var k := Text.SpaceRun(t[w..]);
      var rest := t[w + k..];
      assert w > 0;
      assert t[w..][|t[w..]| - 1] == t[|t| - 1];
      Text.SpaceRunStopsBefore(t[w..]);
      assert rest[0] == t[w..][k];
      assert rest[|rest| - 1] == t[|t| - 1];
      SplitTrimmedIsWords(rest);
    }
  }

  // -------------------------------------------------------------- casing

  lemma UpperKeepsWord(w: string)
    requires IsWord(w)
    ensures IsWord(Text.Upper(w)) && Text.Upper(Text.Upper(w)) == Text.Upper(w)
  {
  }

  lemma CapitaliseKeepsWord(w: string)
    requires IsWord(w)
    ensures IsWord(Capitalise(w)) && Capitalise(Capitalise(w)) == Capitalise(w)
  {
    var c := Capitalise(w);
    assert forall i :: 0 <= i < |w| ==> c[i] == Text.ToUpper(w[i]) || c[i] == Text.ToLower(w[i]);
  }

  // -------------------------------------------------------------- the formatter

  /** The words a name is cut into, with the casing the formatter gives them. */
  function CasedWords(ws: seq<string>): (cs: seq<string>)
    requires |ws| >= 1
    ensures |cs| == |ws| && cs[|ws| - 1] == Text.Upper(ws[|ws| - 1])
    ensures forall i :: 0 <= i < |ws| - 1 ==> cs[i] == Capitalise(ws[i])
  {
    if |ws| == 1 then [Text.Upper(ws[0])]
    else CapitaliseAll(ws[..|ws| - 1]) + [Text.Upper(ws[|ws| - 1])]
  }

  /** The formatted name is the cased words joined by single spaces. */
  lemma FormatIsJoinOfCasedWords(name: string)
    ensures FormatDefendantName(name) == Text.Join(CasedWords(Words(name)), " ")
  {
    var ws := Words(name);
    if |ws| > 1 {
      Text.JoinSnoc(CapitaliseAll(ws[..|ws| - 1]), Text.Upper(ws[|ws| - 1]), " ");
    }
  }

  /** Casing keeps every word a word. */
  lemma CasedWordsAreWords(ws: seq<string>)
    requires |ws| >= 1 && forall i :: 0 <= i < |ws| ==> IsWord(ws[i])
    ensures forall i :: 0 <= i < |ws| ==> IsWord(CasedWords(ws)[i])
  {
    var cs := CasedWords(ws);
    forall i | 0 <= i < |cs| ensures IsWord(cs[i]) {
      if i == |ws| - 1 { UpperKeepsWord(ws[i]); } else { CapitaliseKeepsWord(ws[i]); }
    }
  }

  /** Words joined by single spaces form a trimmed name with those words. */
  lemma JoinedWordsAreAName(ws: seq<string>)
    requires |ws| >= 1 && forall i :: 0 <= i < |ws| ==> IsWord(ws[i])
    ensures var f := Text.Join(ws, " "); Text.Trim(f) == f && Words(f) == ws
  {
    var f := Text.Join(ws, " ");
    Text.JoinHeadIsPrefix(ws, " ");
    Text.JoinLastIsSuffix(ws, " ");
    assert f[0] == ws[0][0];
    assert f[|f| - 1] == ws[|ws| - 1][|ws[|ws| - 1]| - 1];
    Text.TrimOfTrimmed(f);
    SplitJoinedWords(ws);
  }

  /** The words of a non-blank name are words. */
  lemma WordsOfName(name: string)
    requires Text.Trim(name) != []
    ensures forall i :: 0 <= i < |Words(name)| ==> IsWord(Words(name)[i])
  {
    Text.TrimmedEnds(name);
    SplitTrimmedIsWords(Text.Trim(name));
  }

  /** The formatter keeps the number of words of a non-blank name, upper-cases
      the last word and capitalises every earlier one; the output is again a
      trimmed, single-spaced name. */
  lemma FormatDefendantNameWords(name: string)
    requires Text.Trim(name) != []
    ensures var ws := Words(name); var out := Words(FormatDefendantName(name));
      && Text.Trim(FormatDefendantName(name)) == FormatDefendantName(name)
      && |out| == |ws| && out[|ws| - 1] == Text.Upper(ws[|ws| - 1])
      && forall i :: 0 <= i < |ws| - 1 ==> out[i] == Capitalise(ws[i])
  {
    var ws := Words(name);
    WordsOfName(name);
    CasedWordsAreWords(ws);
    FormatIsJoinOfCasedWords(name);
    JoinedWordsAreAName(CasedWords(ws));
  }

  /** A single word comes out upper-cased, and a blank name as "". */
  lemma SingleWordIsUpperCased(name: string)
    requires |Words(name)| == 1
    ensures FormatDefendantName(name) == Text.Upper(Text.Trim(name))
  {
    var t := Text.Trim(name);
    assert Text.WordRun(t) == |t|;
  }

  /** Formatting an already formatted name changes nothing. */
  lemma FormatDefendantNameIsIdempotent(name: string)
    ensures FormatDefendantName(FormatDefendantName(name)) == FormatDefendantName(name)
  {
    var f := FormatDefendantName(name);
    if Text.Trim(name) == [] {
      assert Text.WordRun(Text.Trim(name)) == 0;
      assert f == [];
    } else {
      var ws := Words(name);
      WordsOfName(name);
      CasedWordsAreWords(ws);
      FormatIsJoinOfCasedWords(name);
      JoinedWordsAreAName(CasedWords(ws));
      assert Words(f) == CasedWords(ws);
      CasedWordsAreStable(ws);
      FormatIsJoinOfCasedWords(f);
    }
  }

  /** Casing cased words again changes nothing. */
  lemma CasedWordsAreStable(ws: seq<string>)
    requires |ws| >= 1 && forall i :: 0 <= i < |ws| ==> IsWord(ws[i])
    ensures CasedWords(CasedWords(ws)) == CasedWords(ws)
  {
    var cs := CasedWords(ws);
    forall i | 0 <= i < |ws| ensures CasedWords(cs)[i] == cs[i] {
      if i == |ws| - 1 { UpperKeepsWord(ws[i]); } else { CapitaliseKeepsWord(ws[i]); }
    }
  }
}
