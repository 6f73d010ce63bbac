/** `fillServiceStatementPS` of netlify/functions/generate-affidavit-ps.mjs:
    the service statement of the PS template names the defendant in place
    of "the First Defendant" (any of the six ordinals) and of the sample
    name "Joe BLOGGS", then fills `[Place]` with the formatted address when
    there is an address and `[date]` with the lodgement date when there is
    one. */
module ServiceStatement {
  import opened Wrappers
  import opened JsValues
  import Text
  import GpcText

  /** The ordinal words of the template, in the order the alternation
      `(First|Second|Third|Fourth|Fifth|Sixth)` tries them. */
  const Ordinals: seq<string> := ["First", "Second", "Third", "Fourth", "Fifth", "Sixth"]

  /** The first alternative, from the `k`-th on, that occurs at `w`. */
  function OrdinalFrom(s: string, w: nat, k: nat): (r: Option<nat>)
    requires k <= |Ordinals|
    ensures r.Some? ==> k <= r.value < |Ordinals| && Text.OccursAt(s, Ordinals[r.value], w)
    ensures r.Some? ==> forall j :: k <= j < r.value ==> !Text.OccursAt(s, Ordinals[j], w)
    ensures r.None? ==> forall j :: k <= j < |Ordinals| ==> !Text.OccursAt(s, Ordinals[j], w)
    decreases |Ordinals| - k
  {
    if k == |Ordinals| then None
    else if Text.OccursAt(s, Ordinals[k], w) then Some(k)
    else OrdinalFrom(s, w, k + 1)
  }

  /** Two ordinal words that both occur at the same place are the same word:
      none is a prefix of another, so the alternation can never retry with a
      second word at the same place. */
  lemma OrdinalsArePrefixFree(s: string, w: nat, j: nat, k: nat)
    requires j < k < |Ordinals|
    requires Text.OccursAt(s, Ordinals[j], w)
    ensures !Text.OccursAt(s, Ordinals[k], w)
  {
    var a := Ordinals[j];
    var b := Ordinals[k];
    var t := if a[0] != b[0] then 0 else if a[1] != b[1] then 1 else 2;
    assert a[t] != b[t];
    assert s[w + t] == s[w..w + |a|][t] == a[t];
    if w + |b| <= |s| {
      assert s[w..w + |b|][t] == s[w + t];
    }
  }

  /** A match of `the\s+(First|...|Sixth)\s+Defendant` at `i`, and where it
      ends. Each `\s+` is followed by a letter, so it takes the whole run of
      whitespace. */
  function PhraseAt(s: string, i: nat): (r: Option<nat>)
    ensures r.Some? ==> i + 19 <= r.value <= |s|
    ensures r.Some? ==> Text.OccursAt(s, "the", i) && Text.OccursAt(s, "Defendant", r.value - 9)
  {
    if !Text.OccursAt(s, "the", i) then None
    else
      var k := GpcText.SpaceRunAt(s, i + 3);
      var w := i + 3 + k;
      match OrdinalFrom(s, w, 0)
      case None => None
      case Some(o) =>
        var m := GpcText.SpaceRunAt(s, w + |Ordinals[o]|);
        var d := w + |Ordinals[o]| + m;
        if k >= 1 && m >= 1 && Text.OccursAt(s, "Defendant", d) then Some(d + 9) else None
  }

  /** The global replace from index `i`: each match is replaced by `r` and the
      scan resumes after it. */
  function ReplacePhrasesFrom(s: string, i: nat, r: string): string
    decreases |s| - i
  {
    if i >= |s| then ""
    else
      match PhraseAt(s, i)
      case Some(e) => r + ReplacePhrasesFrom(s, e, r)
      case None => [s[i]] + ReplacePhrasesFrom(s, i + 1, r)
  }

  /** `s.replace(/the\s+(First|...|Sixth)\s+Defendant/g, r)`. */
  function ReplaceOrdinalPhrases(s: string, r: string): string {
    ReplacePhrasesFrom(s, 0, r)
  }

  /** The two naming steps: the ordinal phrases, then `Joe BLOGGS`. */
  function NamesFilled(xml: string, name: string): string {
    Text.ReplaceAll(ReplaceOrdinalPhrases(xml, name), "Joe BLOGGS", name)
  }

  /** The statement after all four steps. `formatAddress` is a parameter; it
      throws a TypeError on a truthy value that is not a string (it calls
      `replace` on it). */
  function ServiceStatement(xml: string, name: string, address: JsValue,
                            formatAddress: string -> string, dateLodged: string): (c: Completion<string>)
    ensures c.Throw? <==> Truthy(address) && !address.Str?
  {
    var named := NamesFilled(xml, name);
    if Truthy(address) && !address.Str? then Throw(TypeError)
    else
      var placed := if Truthy(address) then Text.ReplaceAll(named, "[Place]", formatAddress(address.s)) else named;
      Normal(if dateLodged != "" then Text.ReplaceAll(placed, "[date]", dateLodged) else placed)
  }

  /** The step-by-step reassignment of `result`. */
  method FillServiceStatementPS(xml: string, formattedDefendantName: string, defendantAddress: JsValue,
                                formatAddress: string -> string, dateLodged: string)
    returns (c: Completion<string>)
    ensures c == ServiceStatement(xml, formattedDefendantName, defendantAddress, formatAddress, dateLodged)
  {
    var result := xml;
    result := ReplaceOrdinalPhrases(result, formattedDefendantName);
    result := Text.ReplaceAll(result, "Joe BLOGGS", formattedDefendantName);
    if Truthy(defendantAddress) {
      if !defendantAddress.Str? {
        return Throw(TypeError);
      }
      var formattedAddress := formatAddress(defendantAddress.s);
      result := Text.ReplaceAll(result, "[Place]", formattedAddress);
    }
    if dateLodged != "" {
      result := Text.ReplaceAll(result, "[date]", dateLodged);
    }
    c := Normal(result);
  }

  // ------------------------------------------------------------ properties

  /** Where no phrase starts, the scan copies the text. */
  lemma {:induction false} NoPhraseKeepsText(s: string, i: nat, r: string)
    requires i <= |s|
    requires forall j: nat :: i <= j < |s| ==> PhraseAt(s, j).None?
    ensures ReplacePhrasesFrom(s, i, r) == s[i..]
    decreases |s| - i
  {
    if i < |s| {
      NoPhraseKeepsText(s, i + 1, r);
      assert s[i..] == [s[i]] + s[i + 1..];
    }
  }

  /** A statement holding none of the four patterns comes back unchanged,
      whatever the values (so long as the address does not throw). */
  lemma NothingToFillKeepsStatement(xml: string, name: string, address: JsValue,
                                    formatAddress: string -> string, dateLodged: string)
    requires forall j: nat :: j < |xml| ==> PhraseAt(xml, j).None?
    requires !Text.Contains(xml, "Joe BLOGGS") && !Text.Contains(xml, "[Place]") && !Text.Contains(xml, "[date]")
    requires !Truthy(address) || address.Str?
    ensures ServiceStatement(xml, name, address, formatAddress, dateLodged) == Normal(xml)
  {
    NoPhraseKeepsText(xml, 0, name);
    assert ReplaceOrdinalPhrases(xml, name) == xml;
    Text.ReplaceAllAbsent(xml, "Joe BLOGGS", name);
    Text.ReplaceAllAbsent(xml, "[Place]", if address.Str? then formatAddress(address.s) else "");
    Text.ReplaceAllAbsent(xml, "[date]", dateLodged);
  }

  /** An occurrence of `[Place]` and one of `[date]` never overlap: each
      bracket opens its own placeholder and the next characters differ. */
  lemma PlaceholdersDoNotOverlap(s: string, j: nat, t: nat)
    requires Text.OccursAt(s, "[Place]", j) && Text.OccursAt(s, "[date]", t)
    ensures t + 6 <= j || j + 7 <= t
  {
    assert s[j] == s[j..j + 7][0] == '[' && s[j + 1] == s[j..j + 7][1] == 'P';
    assert s[t] == s[t..t + 6][0] == '[' && s[t + 1] == s[t..t + 6][1] == 'd';
    assert forall d :: t < d < t + 6 ==> s[d] == s[t..t + 6][d - t];
    assert forall d :: j < d < j + 7 ==> s[d] == s[j..j + 7][d - j];
  }

  /** Without an address every `[Place]` the naming steps leave is still
      there at the end: the date step cannot touch one, so there are at
      least as many at the end. */
  lemma PlaceIsLeftWithoutAddress(xml: string, name: string, address: JsValue,
                                  formatAddress: string -> string, dateLodged: string)
    requires !Truthy(address)
    ensures ServiceStatement(xml, name, address, formatAddress, dateLodged).Normal?
    ensures Text.Count(ServiceStatement(xml, name, address, formatAddress, dateLodged).value, "[Place]")
            >= Text.Count(NamesFilled(xml, name), "[Place]")
  {
    var named := NamesFilled(xml, name);
    if dateLodged != "" {
      forall t, j | Text.OccursAt(named, "[date]", t) && Text.OccursAt(named, "[Place]", j)
        ensures t + 6 <= j || j + 7 <= t
      {
        PlaceholdersDoNotOverlap(named, j, t);
      }
      Text.ReplaceAllKeepsCount(named, "[date]", dateLodged, "[Place]");
    }
  }

  /** Without a date every `[date]` the naming steps leave is still there at
      the end: the address step cannot touch one, so there are at least as
      many at the end. */
  lemma DateIsLeftWithoutDate(xml: string, name: string, address: JsValue,
                              formatAddress: string -> string, dateLodged: string)
    requires dateLodged == "" && (!Truthy(address) || address.Str?)
    ensures ServiceStatement(xml, name, address, formatAddress, dateLodged).Normal?
    ensures Text.Count(ServiceStatement(xml, name, address, formatAddress, dateLodged).value, "[date]")
            >= Text.Count(NamesFilled(xml, name), "[date]")
  {
    var named := NamesFilled(xml, name);
    if Truthy(address) {
      forall j, t | Text.OccursAt(named, "[Place]", j) && Text.OccursAt(named, "[date]", t)
        ensures j + 7 <= t || t + 6 <= j
      {
        PlaceholdersDoNotOverlap(named, j, t);
      }
      Text.ReplaceAllKeepsCount(named, "[Place]", formatAddress(address.s), "[date]");
    }
  }

  /** A lodgement date of the shape `dd/dd/dddd` fills every `[date]`: none
      is left and none is formed, since the date shares no character with
      the placeholder. */
  lemma DateFillsEveryPlaceholder(xml: string, name: string, address: JsValue,
                                  formatAddress: string -> string, dateLodged: string)
    requires GpcText.IsDate(dateLodged)
    requires !Truthy(address) || address.Str?
    ensures ServiceStatement(xml, name, address, formatAddress, dateLodged).Normal?
    ensures !Text.Contains(ServiceStatement(xml, name, address, formatAddress, dateLodged).value, "[date]")
  {
    var d := dateLodged;
    forall c | c in d ensures c !in "[date]" {
      var t :| 0 <= t < |d| && d[t] == c;
      assert Text.IsDigit(c) || c == '/';
    }
    var named := NamesFilled(xml, name);
    var placed := if Truthy(address) then Text.ReplaceAll(named, "[Place]", formatAddress(address.s)) else named;
    Text.ReplaceAllLeavesNone(placed, "[date]", d);
  }
}
