/** The scanners of netlify/functions/generate-affidavit-ps.mjs that read the
    text of a General Procedure Claim: `extractRegistryInfo` (the court
    registry's name, street and town), `extractDateLodged`, and the
    `lodgedBy` rule of `extractLawFirmInfo`.

    Each regular expression is stated through indices. Where a greedy `\s+`,
    `\d+` or `[A-Z]{2,}` must be followed by a character its class does not
    hold, a backtracking engine can only succeed with the whole run, so the
    run is taken whole; where a `\s+` can give characters back to a class
    that holds spaces, the giving back is modelled step by step. */
module GpcText {
  import opened Wrappers
  import Text

  function Min(a: int, b: int): int { if a <= b then a else b }

  // ------------------------------------------------------------ runs

  /** `\s*` at index `i`. */
  function SpaceRunAt(s: string, i: nat): (n: nat)
    ensures i + n <= |s| || n == 0
    ensures forall t: nat :: i <= t < i + n ==> Text.IsSpace(s[t])
    ensures i + n < |s| ==> !Text.IsSpace(s[i + n])
  {
    if i > |s| then 0
    else
      var n := Text.SpaceRun(s[i..]);
      assert forall t: nat :: i <= t < i + n ==> s[t] == s[i..][..n][t - i];
      n
  }

  /** `\d*` at index `i`. */
  function DigitRunAt(s: string, i: nat): (n: nat)
    ensures i + n <= |s| || n == 0
    ensures forall t: nat :: i <= t < i + n ==> Text.IsDigit(s[t])
    ensures i + n < |s| ==> !Text.IsDigit(s[i + n])
  {
    if i > |s| then 0
    else
      var n := Text.DigitRun(s[i..]);
      assert forall t: nat :: i <= t < i + n ==> s[t] == s[i..][t - i];
      n
  }

  /** `[A-Z]*` at index `i`. */
  function UpperRunAt(s: string, i: nat): (n: nat)
    ensures i + n <= |s| || n == 0
    ensures forall t: nat :: i <= t < i + n ==> Text.IsUpper(s[t])
    ensures i + n < |s| ==> !Text.IsUpper(s[i + n])
  {
    if i > |s| then 0
    else
      var n := Text.UpperRun(s[i..]);
      assert forall t: nat :: i <= t < i + n ==> s[t] == s[i..][t - i];
      n
  }

  predicate DigitsAt(s: string, i: nat, n: nat) {
    i + n <= |s| && forall t: nat :: i <= t < i + n ==> Text.IsDigit(s[t])
  }

  // ------------------------------------------------------------ pieces of the patterns

  /** `\s+` and then the literal `lit` (which starts with a non-space) at `e`. */
  predicate SpacesThen(s: string, e: nat, lit: string) {
    var k := SpaceRunAt(s, e);
    k >= 1 && Text.OccursAt(s, lit, e + k)
  }

  /** `\s+[A-Z]{2,}\s+WA` at `e`. */
  predicate SpacesTownWa(s: string, e: nat) {
    var k := SpaceRunAt(s, e);
    var u := UpperRunAt(s, e + k);
    var m := SpaceRunAt(s, e + k + u);
    k >= 1 && u >= 2 && m >= 1 && Text.OccursAt(s, "WA", e + k + u + m)
  }

  /** `\s+WA\s+\d{4}` at `e`: where the match ends, if it matches. */
  function WaTail(s: string, e: nat): (r: Option<nat>)
    ensures r.Some? ==> e < r.value <= |s|
  {
    var k := SpaceRunAt(s, e);
    var w := e + k + 2;
    var m := SpaceRunAt(s, w);
    if k >= 1 && Text.OccursAt(s, "WA", e + k) && m >= 1 && DigitsAt(s, w + m, 4) then Some(w + m + 4)
    else None
  }

  /** `[A-Za-z\s]` on every character of `s[b..e]`. */
  predicate LettersOrSpaces(s: string, b: nat, e: nat) {
    b <= e <= |s| && forall t: nat :: b <= t < e ==> Text.IsLetter(s[t]) || Text.IsSpace(s[t])
  }

  /** `[A-Z\s]` on every character of `s[b..e]`. */
  predicate UppersOrSpaces(s: string, b: nat, e: nat) {
    b <= e <= |s| && forall t: nat :: b <= t < e ==> Text.IsUpper(s[t]) || Text.IsSpace(s[t])
  }

  // ------------------------------------------------------------ street: \d+\s+[A-Za-z\s]+?(?=...)

  /** `(?=\s+Date|\s+[A-Z]{2,}\s+WA)`, the lookahead on the registry line. */
  predicate BeforeDateOrTown(s: string, e: nat) { SpacesThen(s, e, "Date") || SpacesTownWa(s, e) }

  /** `(?=\s+Date|$)`, the lookahead on the lines after it. */
  predicate BeforeDateOrEnd(s: string, e: nat) { SpacesThen(s, e, "Date") || e == |s| }

  /** A match of `\d+\s+[A-Za-z\s]+?` from `p` to `e` in which `\s+` takes `j`
      characters and the lookahead `look` holds at `e`. `\d+` must take the
      whole digit run, since `\s+` cannot start on a digit. */
  predicate StreetAt(s: string, p: nat, j: nat, e: nat, look: nat -> bool) {
    && p < |s| && Text.IsDigit(s[p])
    && var b := p + DigitRunAt(s, p);
    && 1 <= j <= SpaceRunAt(s, b) && b + j < e && LettersOrSpaces(s, b + j, e) && look(e)
  }

  /** Which way the engine matched: how many spaces `\s+` kept, and where the
      lazy `[A-Za-z\s]+?` stopped. */
  datatype Choice = Choice(spaces: nat, end: nat)

  /** The engine at start `p`, with `\s+` holding at most `j` of the spaces
      after the digits: it tries `j` spaces first (every end, shortest first)
      and gives one back only when no end works. */
  function StreetGivingBack(s: string, p: nat, j: nat, look: nat -> bool): (r: Option<Choice>)
    requires p < |s| && Text.IsDigit(s[p])
    ensures r.Some? ==> 1 <= r.value.spaces <= j && StreetAt(s, p, r.value.spaces, r.value.end, look)
    ensures r.Some? ==> forall e: nat :: e < r.value.end ==> !StreetAt(s, p, r.value.spaces, e, look)
    ensures r.Some? ==> forall i: nat, e: nat :: r.value.spaces < i <= j ==> !StreetAt(s, p, i, e, look)
    ensures r.None? ==> forall i: nat, e: nat :: 1 <= i <= j ==> !StreetAt(s, p, i, e, look)
  {
    if j == 0 then None
    else
      match LazyStreetEnd(s, p, j, look)
      case Some(e) => Some(Choice(j, e))
      case None => StreetGivingBack(s, p, j - 1, look)
  }

  /** With `\s+` holding exactly `j` spaces, the shortest `[A-Za-z\s]+?` after
      which the lookahead holds. */
  function LazyStreetEnd(s: string, p: nat, j: nat, look: nat -> bool): (r: Option<nat>)
    requires p < |s| && Text.IsDigit(s[p])
    ensures r.Some? ==> StreetAt(s, p, j, r.value, look)
    ensures r.Some? ==> forall e: nat :: e < r.value ==> !StreetAt(s, p, j, e, look)
    ensures r.None? ==> forall e: nat :: !StreetAt(s, p, j, e, look)
  {
    var b := p + DigitRunAt(s, p);
    var P := (e: nat) => StreetAt(s, p, j, e, look);
    assert forall e: nat :: P(e) == StreetAt(s, p, j, e, look);
    Text.LeastIn(b + j + 1, |s| + 1, P)
  }

  /** The match of `\d+\s+[A-Za-z\s]+?(?=look)` that starts at `p`, if any. */
  function StreetFrom(s: string, p: nat, look: nat -> bool): (r: Option<Choice>)
    ensures r.Some? ==> StreetAt(s, p, r.value.spaces, r.value.end, look)
    ensures r.None? ==> forall i: nat, e: nat :: !StreetAt(s, p, i, e, look)
  {
    if p >= |s| || !Text.IsDigit(s[p]) then None
    else StreetGivingBack(s, p, SpaceRunAt(s, p + DigitRunAt(s, p)), look)
  }

  /** Where a match starts and ends. */
  datatype Span = Span(start: nat, end: nat)

  /** The leftmost street match of an unanchored search. */
  function FirstStreet(s: string, look: nat -> bool): (r: Option<Span>)
    ensures r.Some? ==> r.value.start < r.value.end <= |s|
    ensures r.Some? ==> StreetFrom(s, r.value.start, look).Some?
                        && r.value.end == StreetFrom(s, r.value.start, look).value.end
    ensures r.Some? ==> forall p: nat :: p < r.value.start ==> StreetFrom(s, p, look).None?
    ensures r.None? ==> forall p: nat :: StreetFrom(s, p, look).None?
  {
    var P := (p: nat) => StreetFrom(s, p, look).Some?;
    assert forall p: nat :: P(p) == StreetFrom(s, p, look).Some?;
    match Text.LeastIn(0, |s|, P)
    case Some(p) => Some(Span(p, StreetFrom(s, p, look).value.end))
    case None => None
  }

  // ------------------------------------------------------------ town: [A-Z\s]+?\s+WA\s+\d{4}

  /** The lazy `[A-Z\s]+?` from `p` stopping at `e` with the tail matching. */
  predicate CityAt(s: string, p: nat, e: nat) {
    p < e && UppersOrSpaces(s, p, e) && WaTail(s, e).Some?
  }

  /** Where the lazy part of a match from `p` stops: the shortest that works. */
  function CityLazyEnd(s: string, p: nat): (r: Option<nat>)
    ensures r.Some? ==> CityAt(s, p, r.value) && forall e: nat :: e < r.value ==> !CityAt(s, p, e)
    ensures r.None? ==> forall e: nat :: !CityAt(s, p, e)
  {
    var P := (e: nat) => CityAt(s, p, e);
    assert forall e: nat :: P(e) == CityAt(s, p, e);
    Text.LeastIn(p + 1, |s| + 1, P)
  }

  /** The leftmost match of `/([A-Z\s]+?\s+WA\s+\d{4})/`. */
  function FirstCity(s: string): (r: Option<Span>)
    ensures r.Some? ==> r.value.start < r.value.end <= |s|
    ensures r.Some? ==> CityLazyEnd(s, r.value.start).Some?
                        && WaTail(s, CityLazyEnd(s, r.value.start).value) == Some(r.value.end)
    ensures r.Some? ==> forall p: nat :: p < r.value.start ==> CityLazyEnd(s, p).None?
    ensures r.None? ==> forall p: nat :: CityLazyEnd(s, p).None?
  {
    var P := (p: nat) => CityLazyEnd(s, p).Some?;
    assert forall p: nat :: P(p) == CityLazyEnd(s, p).Some?;
    match Text.LeastIn(0, |s|, P)
    case Some(p) => Some(Span(p, WaTail(s, CityLazyEnd(s, p).value).value))
    case None => None
  }

  /** `[A-Z]{2,}\s+WA\s+\d{4}` at `p`. */
  predicate TownAt(s: string, p: nat) {
    var u := UpperRunAt(s, p);
    u >= 2 && WaTail(s, p + u).Some?
  }

  /** `line.match(/[A-Z]{2,}\s+WA\s+\d{4}/)` succeeds. */
  predicate HasTown(s: string) {
    exists p: nat | p < |s| :: TownAt(s, p)
  }

  // ------------------------------------------------------------ registry name

  /** `\s+(MAGISTRATES|Case|Ph:)` at `p`. */
  predicate CourtWordAt(s: string, p: nat) {
    && p < |s| && Text.IsSpace(s[p])
    && var q := p + SpaceRunAt(s, p);
    (Text.OccursAt(s, "MAGISTRATES", q) || Text.OccursAt(s, "Case", q) || Text.OccursAt(s, "Ph:", q))
  }

  /** `s.split(/\s+(MAGISTRATES|Case|Ph:)/)[0]`: the text before the first
      separator, or all of it. */
  function BeforeCourtWords(s: string): (r: string)
    ensures |r| <= |s| && r == s[..|r|]
    ensures forall p: nat :: p < |r| ==> !CourtWordAt(s, p)
    ensures |r| < |s| ==> CourtWordAt(s, |r|)
  {
    var P := (p: nat) => CourtWordAt(s, p);
    assert forall p: nat :: P(p) == CourtWordAt(s, p);
    match Text.LeastIn(0, |s|, P)
    case Some(p) => s[..p]
    case None => s
  }

  /** The `/^([^(]+?)(?:\s+\(|$)/` group may stop at `e`. */
  predicate NameEndsAt(line: string, e: nat) {
    1 <= e <= |line| && '(' !in line[..e] && (e == |line| || SpacesThen(line, e, "("))
  }

  /** The group of `/^([^(]+?)(?:\s+\(|$)/`: the shortest prefix that works. */
  function NameOfLine(line: string): (r: Option<string>)
    ensures r.Some? ==> NameEndsAt(line, |r.value|) && r.value == line[..|r.value|]
    ensures r.Some? ==> forall e: nat :: e < |r.value| ==> !NameEndsAt(line, e)
    ensures r.None? ==> forall e: nat :: !NameEndsAt(line, e)
  {
    var P := (e: nat) => NameEndsAt(line, e);
    assert forall e: nat :: P(e) == NameEndsAt(line, e);
    match Text.LeastIn(1, |line| + 1, P)
    case Some(e) => Some(line[..e])
    case None => None
  }

  /** The tests a line must pass before it is read as the registry's name. */
  predicate MayBeName(line: string) {
    && line != "" && |line| < 100
    && !Text.Contains(line, "Ph:") && !Text.IsDigit(line[0])
    && !Text.Contains(line, "Date lodged") && !Text.Contains(line, "PART")
    && !Text.Contains(line, "PLEASE READ")
  }

  /** `line.match(/^\d+\s+/)`. */
  predicate StartsStreet(line: string) {
    |line| > 0 && Text.IsDigit(line[0]) && SpaceRunAt(line, DigitRunAt(line, 0)) >= 1
  }

  // ------------------------------------------------------------ extractRegistryInfo

  const RegistryLabel: string := "REGISTRY AT:"

  datatype RegistryInfo = RegistryInfo(name: string, street: string, cityStatePostcode: string)

  const NoRegistry: RegistryInfo := RegistryInfo("", "", "")

  /** What the registry line itself yields. The text after the label is
      searched for a street and a town; the name is what precedes the street
      (its first occurrence), cut at the first court word. */
  function FirstLineInfo(line: string): RegistryInfo
    requires Text.Contains(line, RegistryLabel)
  {
    var at := Text.IndexOf(line, RegistryLabel).value;
    var after := Text.Trim(line[at + |RegistryLabel|..]);
    var street :=
      match FirstStreet(after, (e: nat) => BeforeDateOrTown(after, e))
      case Some(m) => Text.Trim(after[m.start..m.end])
      case None => "";
    var city :=
      match FirstCity(after)
      case Some(m) => Text.Trim(after[m.start..m.end])
      case None => "";
    var nameOnly :=
      if street == "" then after
      else match Text.IndexOf(after, street)
        case Some(i) => Text.Trim(after[..i])
        case None => "";
    RegistryInfo(Text.Trim(BeforeCourtWords(nameOnly)), street, city)
  }

  /** What the tests and regexes of the loop find on one line, once trimmed:
      a name, a street and a town, each `None` where its test or its match
      fails. */
  datatype LineReading = LineReading(name: Option<string>, street: Option<string>, city: Option<string>)

  function ReadLine(raw: string): LineReading {
    var line := Text.Trim(raw);
    var name :=
      if MayBeName(line) then
        match NameOfLine(line)
        case Some(g) => if Text.Trim(g) != "" then Some(Text.Trim(g)) else None
        case None => None
      else None;
    var street :=
      if StartsStreet(line) then
        match StreetFrom(line, 0, (e: nat) => BeforeDateOrEnd(line, e))
        case Some(c) => Some(Text.Trim(line[..c.end]))
        case None => None
      else None;
    var city :=
      if HasTown(line) then
        match FirstCity(line)
        case Some(m) => Some(Text.Trim(line[m.start..m.end]))
        case None => None
      else None;
    LineReading(name, street, city)
  }

  function Readings(lines: seq<string>): (rs: seq<LineReading>)
    ensures |rs| == |lines|
  {
    if |lines| == 0 then [] else [ReadLine(lines[0])] + Readings(lines[1..])
  }

  lemma {:induction false} ReadingAt(lines: seq<string>, k: nat)
    requires k < |lines|
    ensures Readings(lines)[k] == ReadLine(lines[k])
    decreases k
  {
    if k > 0 {
      ReadingAt(lines[1..], k - 1);
    }
  }

  /** One pass of the loop: the name is taken only on the first line after
      the registry line, a street or town only while that field is empty. */
  function ScanLine(info: RegistryInfo, l: LineReading, first: bool): RegistryInfo {
    RegistryInfo(
      if first && l.name.Some? then l.name.value else info.name,
      if info.street == "" && l.street.Some? then l.street.value else info.street,
      if info.cityStatePostcode == "" && l.city.Some? then l.city.value else info.cityStatePostcode)
  }

  /** The loop from line `i` up to (not including) `hi`. */
  function ScanFrom(info: RegistryInfo, rs: seq<LineReading>, start: nat, i: nat, hi: nat): RegistryInfo
    requires hi <= |rs|
    decreases hi - i
  {
    if i >= hi then info
    else ScanFrom(ScanLine(info, rs[i], i == start + 1), rs, start, i + 1, hi)
  }

  /** The index of the first line holding the label. */
  function FindRegistryLine(lines: seq<string>): (r: Option<nat>)
    ensures r.Some? ==> r.value < |lines| && Text.Contains(lines[r.value], RegistryLabel)
    ensures r.Some? ==> forall j: nat :: j < r.value ==> !Text.Contains(lines[j], RegistryLabel)
    ensures r.None? ==> forall j: nat :: j < |lines| ==> !Text.Contains(lines[j], RegistryLabel)
  {
    var P := (i: nat) => i < |lines| && Text.Contains(lines[i], RegistryLabel);
    assert forall i: nat :: P(i) == (i < |lines| && Text.Contains(lines[i], RegistryLabel));
    Text.LeastIn(0, |lines|, P)
  }

  function RegistryInfoOfLines(lines: seq<string>): RegistryInfo {
    match FindRegistryLine(lines)
    case None => NoRegistry
    case Some(r) => ScanFrom(FirstLineInfo(lines[r]), Readings(lines), r, r + 1, Min(r + 6, |lines|))
  }

  /** `extractRegistryInfo(gpcText)` as a value. */
  function RegistryInfoOf(gpcText: string): RegistryInfo {
    RegistryInfoOfLines(Text.Split(gpcText, "\n"))
  }

  /** `extractRegistryInfo`: find the registry line, read it, then update the
      fields from the next five lines. */
  method ExtractRegistryInfo(gpcText: string) returns (info: RegistryInfo)
    ensures info == RegistryInfoOf(gpcText)
  {
    info := NoRegistry;
    var lines := Text.Split(gpcText, "\n");
    var registryStart := FindRegistryStart(lines);
    if registryStart == -1 {
      return;
    }
    info := FirstLineInfo(lines[registryStart]);
    info := ScanFollowingLines(info, lines, registryStart);
  }

  /** The first loop of `extractRegistryInfo`: the index of the first line
      holding the label, or -1. */
  method FindRegistryStart(lines: seq<string>) returns (registryStart: int)
    ensures -1 <= registryStart
    ensures registryStart == -1 <==> FindRegistryLine(lines).None?
    ensures registryStart != -1 ==> FindRegistryLine(lines) == Some(registryStart as nat)
  {
    registryStart := -1;
    var i := 0;
    while i < |lines|
      invariant 0 <= i <= |lines|
      invariant forall j :: 0 <= j < i ==> !Text.Contains(lines[j], RegistryLabel)
    {
      if Text.Contains(lines[i], RegistryLabel) {
        return i;
      }
      i := i + 1;
    }
  }

  /** The second loop of `extractRegistryInfo`: lines `start + 1` to
      `start + 5` (those that exist) update the fields one after another. */
  method ScanFollowingLines(info0: RegistryInfo, lines: seq<string>, start: nat) returns (info: RegistryInfo)
    requires start < |lines|
    ensures info == ScanFrom(info0, Readings(lines), start, start + 1, Min(start + 6, |lines|))
  {
    info := info0;
    var hi := Min(start + 6, |lines|);
    ghost var rs := Readings(lines);
    var k := start + 1;
    while k < hi
      invariant start + 1 <= k <= hi
      invariant ScanFrom(info, rs, start, k, hi) == ScanFrom(info0, rs, start, start + 1, hi)
    {
      var reading := ReadLine(lines[k]);
      ReadingAt(lines, k);
      info := TakeReading(info, reading, k == start + 1);
      k := k + 1;
    }
  }

  /** One pass of the loop body: the name from the first following line, a
      street and a town only while none has been found. */
  method TakeReading(info0: RegistryInfo, reading: LineReading, first: bool) returns (info: RegistryInfo)
    ensures info == ScanLine(info0, reading, first)
  {
    info := info0;
    if first && reading.name.Some? {
      info := info.(name := reading.name.value);
    }
    if info.street == "" && reading.street.Some? {
      info := info.(street := reading.street.value);
    }
    if info.cityStatePostcode == "" && reading.city.Some? {
      info := info.(cityStatePostcode := reading.city.value);
    }
  }

  /** Without a registry line every field stays empty. */
  lemma NoRegistryLineLeavesBlank(gpcText: string)
    requires forall j: nat :: 0 <= j < |Text.Split(gpcText, "\n")| ==>
      !Text.Contains(Text.Split(gpcText, "\n")[j], RegistryLabel)
    ensures RegistryInfoOf(gpcText) == NoRegistry
  {
  }

  /** The loop reads the lines from `i` to `hi` and no others. */
  lemma {:induction false} ScanFromReadsOnlyItsLines(info: RegistryInfo, r1: seq<LineReading>, r2: seq<LineReading>, start: nat, i: nat, hi: nat)
    requires hi <= |r1| && hi <= |r2|
    requires forall t: nat :: i <= t < hi ==> r1[t] == r2[t]
    ensures ScanFrom(info, r1, start, i, hi) == ScanFrom(info, r2, start, i, hi)
    decreases hi - i
  {
    if i < hi {
      ScanFromReadsOnlyItsLines(ScanLine(info, r1[i], i == start + 1), r1, r2, start, i + 1, hi);
    }
  }

  /** Only the registry line and the five lines after it are inspected: two
      texts that agree on those lines (and on whether they reach that far)
      yield the same registry details. */
  lemma OnlyFiveLinesAfterAreRead(l1: seq<string>, l2: seq<string>, r: nat)
    requires FindRegistryLine(l1) == Some(r)
    requires Min(r + 6, |l1|) == Min(r + 6, |l2|)
    requires l1[..Min(r + 6, |l1|)] == l2[..Min(r + 6, |l1|)]
    ensures RegistryInfoOfLines(l1) == RegistryInfoOfLines(l2)
  {
    var n := Min(r + 6, |l1|);
    assert forall t: nat :: t < n ==> l1[t] == l2[t] by {
      assert forall t: nat :: t < n ==> l1[t] == l1[..n][t] && l2[t] == l2[..n][t];
    }
    assert FindRegistryLine(l2) == Some(r) by {
      SameRegistryLine(l1, l2, r, n);
    }
    assert forall t: nat :: t < n ==> Readings(l1)[t] == Readings(l2)[t] by {
      ReadingsAgree(l1, l2, n);
    }
    assert ScanFrom(FirstLineInfo(l1[r]), Readings(l1), r, r + 1, n) == ScanFrom(FirstLineInfo(l2[r]), Readings(l2), r, r + 1, n) by {
      ScanFromReadsOnlyItsLines(FirstLineInfo(l1[r]), Readings(l1), Readings(l2), r, r + 1, n);
    }
  }

  /** Two lists that agree up to the registry line find it at the same index. */
  lemma SameRegistryLine(l1: seq<string>, l2: seq<string>, r: nat, n: nat)
    requires FindRegistryLine(l1) == Some(r) && r < n <= |l1| && n <= |l2|
    requires forall t: nat :: t < n ==> l1[t] == l2[t]
    ensures FindRegistryLine(l2) == Some(r)
  {
    assert Text.Contains(l2[r], RegistryLabel);
    assert forall j: nat :: j < r ==> !Text.Contains(l2[j], RegistryLabel);
  }

  /** Two lists that agree on their first `n` lines read the same there. */
  lemma ReadingsAgree(l1: seq<string>, l2: seq<string>, n: nat)
    requires n <= |l1| && n <= |l2|
    requires forall t: nat :: t < n ==> l1[t] == l2[t]
    ensures forall t: nat :: t < n ==> Readings(l1)[t] == Readings(l2)[t]
  {
    forall t: nat | t < n ensures Readings(l1)[t] == Readings(l2)[t] {
      ReadingAt(l1, t);
      ReadingAt(l2, t);
    }
  }

  /** A street or town, once found, is never replaced; and the name can only
      change on the line right after the registry line. */
  lemma {:induction false} FoundFieldsAreKept(info: RegistryInfo, rs: seq<LineReading>, start: nat, i: nat, hi: nat)
    requires hi <= |rs|
    ensures var r := ScanFrom(info, rs, start, i, hi);
      && (info.street != "" ==> r.street == info.street)
      && (info.cityStatePostcode != "" ==> r.cityStatePostcode == info.cityStatePostcode)
      && (i > start + 1 ==> r.name == info.name)
    decreases hi - i
  {
    if i < hi {
      FoundFieldsAreKept(ScanLine(info, rs[i], i == start + 1), rs, start, i + 1, hi);
    }
  }

  // ------------------------------------------------------------ extractDateLodged

  /** `Date lodged:` under the `i` flag, at `p`. */
  predicate DateLabelAt(s: string, p: nat) {
    p + 12 <= |s| && Text.Lower(s[p..p + 12]) == "date lodged:"
  }

  /** `\d{2}\/\d{2}\/\d{4}` at `q`. */
  predicate DateShapeAt(s: string, q: nat) {
    && q + 10 <= |s|
    && DigitsAt(s, q, 2) && s[q + 2] == '/' && DigitsAt(s, q + 3, 2) && s[q + 5] == '/'
    && DigitsAt(s, q + 6, 4)
  }

  predicate IsDate(d: string) { |d| == 10 && DateShapeAt(d, 0) }

  /** Where the date starts when the pattern matches at `p`; `\s*` takes every
      space, since the date begins with a digit. */
  function DateAfterLabel(s: string, p: nat): (r: Option<nat>)
    ensures r.Some? ==> DateShapeAt(s, r.value)
  {
    if !DateLabelAt(s, p) then None
    else
      var q := p + 12 + SpaceRunAt(s, p + 12);
      if DateShapeAt(s, q) then Some(q) else None
  }

  lemma DateShapeOfSlice(s: string, q: nat)
    requires DateShapeAt(s, q)
    ensures IsDate(s[q..q + 10])
  {
    var d := s[q..q + 10];
    assert forall t: nat :: t < 10 ==> d[t] == s[q + t];
  }

  /** Where the leftmost match of `/Date lodged:\s*(\d{2}\/\d{2}\/\d{4})/i` starts. */
  function FirstDatedLabel(gpcText: string): (r: Option<nat>)
    ensures r.Some? ==> r.value < |gpcText| && DateAfterLabel(gpcText, r.value).Some?
    ensures r.Some? ==> forall p: nat :: p < r.value ==> DateAfterLabel(gpcText, p).None?
    ensures r.None? ==> forall p: nat :: p < |gpcText| ==> DateAfterLabel(gpcText, p).None?
  {
    var P := (p: nat) => DateAfterLabel(gpcText, p).Some?;
    assert forall p: nat :: P(p) == DateAfterLabel(gpcText, p).Some?;
    Text.LeastIn(0, |gpcText|, P)
  }

  /** `extractDateLodged`: the date of the leftmost match, or "". */
  function ExtractDateLodged(gpcText: string): (r: string)
    ensures r == "" || IsDate(r)
    ensures r == "" <==> forall p: nat :: p < |gpcText| ==> DateAfterLabel(gpcText, p).None?
  {
    match FirstDatedLabel(gpcText)
    case Some(p) =>
      var q := DateAfterLabel(gpcText, p).value;
      DateShapeOfSlice(gpcText, q);
      gpcText[q..q + 10]
    case None => ""
  }

  /** The first label followed by a date decides; earlier labels without a
      date are passed over. */
  lemma FirstDatedLabelWins(gpcText: string, p: nat)
    requires DateAfterLabel(gpcText, p).Some?
    requires forall p': nat :: p' < p ==> DateAfterLabel(gpcText, p').None?
    ensures var q := DateAfterLabel(gpcText, p).value;
      ExtractDateLodged(gpcText) == gpcText[q..q + 10]
  {
    assert p < |gpcText|;
    assert FirstDatedLabel(gpcText) == Some(p);
  }

  // ------------------------------------------------------------ lodgedBy

  /** The `lodgedBy` field of `extractLawFirmInfo`. */
  function LodgedBy(gpcText: string): string {
    if Text.Contains(gpcText, "Defendant's address") || Text.Contains(gpcText, "Defendant details")
       || Text.Contains(Text.Lower(gpcText), "defendant ref:")
    then "Defendant's Lawyer"
    else "Claimant's Lawyer"
  }

  /** A page carrying any of the defendant's markers makes the whole document
      the defendant's lawyer's, whatever text surrounds the page. */
  lemma {:induction false} DefendantMarkerAnywhere(x: string, page: string, y: string)
    requires LodgedBy(page) == "Defendant's Lawyer"
    ensures LodgedBy(x + page + y) == "Defendant's Lawyer"
  {
    var t := x + page + y;
    if Text.Contains(page, "Defendant's address") {
      Text.ContainsInContext(x, page, y, "Defendant's address");
    } else if Text.Contains(page, "Defendant details") {
      Text.ContainsInContext(x, page, y, "Defendant details");
    } else {
      Text.LowerAppend(x + page, y);
      Text.LowerAppend(x, page);
      Text.ContainsInContext(Text.Lower(x), Text.Lower(page), Text.Lower(y), "defendant ref:");
    }
  }

  /** The reference marker is matched in any letter case, wherever it stands
      in the text. */
  lemma {:induction false} ReferenceMarkerInAnyCase(x: string, t: string, y: string)
    requires Text.Lower(t) == "defendant ref:"
    ensures LodgedBy(x + t + y) == "Defendant's Lawyer"
  {
    assert Text.OccursAt(Text.Lower(t), "defendant ref:", 0);
    assert LodgedBy(t) == "Defendant's Lawyer";
    DefendantMarkerAnywhere(x, t, y);
  }
}
