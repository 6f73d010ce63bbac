/** String operations the handlers share: the ASCII part of JavaScript's case
    mapping, the whitespace set of the `\s` regex class (which is also the set
    `String.prototype.trim` removes), substring search, and the left-to-right
    replace-all that both `s.replace(/lit/g, r)` in JavaScript and
    `s.replace(lit, r)` in Python perform for a non-empty literal pattern. */
module Text {
  import opened Wrappers

  // ---------------------------------------------------------------- characters

  predicate IsDigit(c: char) { '0' <= c <= '9' }
  predicate IsUpper(c: char) { 'A' <= c <= 'Z' }
  predicate IsLower(c: char) { 'a' <= c <= 'z' }
  predicate IsLetter(c: char) { IsUpper(c) || IsLower(c) }
  predicate IsAlnum(c: char) { IsLetter(c) || IsDigit(c) }
  /** The `\w` class: a character that can end a word for `\b`. */
  predicate IsWordChar(c: char) { IsAlnum(c) || c == '_' }

  /** The characters of `\s` (WhiteSpace and LineTerminator of ECMAScript). */
  predicate IsSpace(c: char) {
    c == '\t' || c == '\n' || c == '\U{000B}' || c == '\U{000C}' || c == '\r' || c == ' '
    || c == '\U{00A0}' || c == '\U{1680}' || ('\U{2000}' <= c <= '\U{200A}')
    || c == '\U{2028}' || c == '\U{2029}' || c == '\U{202F}' || c == '\U{205F}'
    || c == '\U{3000}' || c == '\U{FEFF}'
  }

  function ToUpper(c: char): char {
    if IsLower(c) then (c as int - 32) as char else c
  }

  function ToLower(c: char): char {
    if IsUpper(c) then (c as int + 32) as char else c
  }

  /** `toUpperCase()`, restricted to ASCII letters. */
  function Upper(s: string): (r: string)
    ensures |r| == |s| && forall i :: 0 <= i < |s| ==> r[i] == ToUpper(s[i])
  {
    seq(|s|, i requires 0 <= i < |s| => ToUpper(s[i]))
  }

  /** `toLowerCase()`, restricted to ASCII letters. */
  function Lower(s: string): (r: string)
    ensures |r| == |s| && forall i :: 0 <= i < |s| ==> r[i] == ToLower(s[i])
  {
    seq(|s|, i requires 0 <= i < |s| => ToLower(s[i]))
  }

  /** Lowering case works character by character. */
  lemma LowerAppend(a: string, b: string)
    ensures Lower(a + b) == Lower(a) + Lower(b)
  {
  }

  predicate AllSpace(s: string) { forall i :: 0 <= i < |s| ==> IsSpace(s[i]) }
  predicate NoSpace(s: string) { forall i :: 0 <= i < |s| ==> !IsSpace(s[i]) }

  // ---------------------------------------------------------------- trimming

  function TrimStart(s: string): (r: string)
    ensures |r| <= |s| && (r == [] || !IsSpace(r[0]))
  {
    if |s| > 0 && IsSpace(s[0]) then TrimStart(s[1..]) else s
  }

  function TrimEnd(s: string): (r: string)
    ensures |r| <= |s| && (r == [] || !IsSpace(r[|r| - 1]))
  {
    if |s| > 0 && IsSpace(s[|s| - 1]) then TrimEnd(s[..|s| - 1]) else s
  }

  /** `trimStart` removes a prefix of whitespace and nothing else. */
  lemma {:induction false} TrimStartDropsSpace(s: string)
    ensures var r := TrimStart(s); r == s[|s| - |r|..] && AllSpace(s[..|s| - |r|])
    decreases |s|
  {
    if |s| > 0 && IsSpace(s[0]) {
      TrimStartDropsSpace(s[1..]);
      var r := TrimStart(s);
      assert s[1..][|s| - 1 - |r|..] == s[|s| - |r|..];
      assert forall i :: 1 <= i < |s| - |r| ==> s[i] == s[1..][..|s| - 1 - |r|][i - 1];
    }
  }

  /** `trimEnd` removes a suffix of whitespace and nothing else. */
  lemma {:induction false} TrimEndDropsSpace(s: string)
    ensures var r := TrimEnd(s); r == s[..|r|] && AllSpace(s[|r|..])
    decreases |s|
  {
    if |s| > 0 && IsSpace(s[|s| - 1]) {
      TrimEndDropsSpace(s[..|s| - 1]);
      var r := TrimEnd(s);
      assert s[..|s| - 1][..|r|] == s[..|r|];
      assert forall i :: |r| <= i < |s| - 1 ==> s[i] == s[..|s| - 1][|r|..][i - |r|];
    }
  }

  /** `String.prototype.trim`. */
  function Trim(s: string): string { TrimEnd(TrimStart(s)) }

  /** Text with no whitespace at either end is its own trim. */
  lemma TrimOfTrimmed(s: string)
    requires s == [] || (!IsSpace(s[0]) && !IsSpace(s[|s| - 1]))
    ensures Trim(s) == s
  {
  }

  /** What is left after trimming starts and ends with a non-space. */
  lemma TrimmedEnds(s: string)
    requires Trim(s) != []
    ensures !IsSpace(Trim(s)[0]) && !IsSpace(Trim(s)[|Trim(s)| - 1])
  {
    TrimEndDropsSpace(TrimStart(s));
    assert Trim(s)[0] == TrimStart(s)[0];
  }

  /** The number of `\s` characters at the front of `s`: what a greedy `\s*` takes. */
  function SpaceRun(s: string): (n: nat)
    ensures n <= |s| && AllSpace(s[..n]) && (n == |s| || !IsSpace(s[n]))
  {
    if |s| > 0 && IsSpace(s[0]) then 1 + SpaceRun(s[1..]) else 0
  }

  /** The number of non-`\s` characters at the front of `s`. */
  function WordRun(s: string): (n: nat)
    ensures n <= |s| && NoSpace(s[..n]) && (n == |s| || IsSpace(s[n]))
  {
    if |s| > 0 && !IsSpace(s[0]) then 1 + WordRun(s[1..]) else 0
  }

  lemma {:induction false} WordRunOf(a: string, b: string)
    requires NoSpace(a) && (b == [] || IsSpace(b[0]))
    ensures WordRun(a + b) == |a|
    decreases |a|
  {
    if |a| > 0 {
      assert (a + b)[0] == a[0] && (a + b)[1..] == a[1..] + b;
      WordRunOf(a[1..], b);
    } else {
      assert a + b == b;
    }
  }

  lemma {:induction false} SpaceRunOf(a: string, b: string)
    requires AllSpace(a) && (b == [] || !IsSpace(b[0]))
    ensures SpaceRun(a + b) == |a|
    decreases |a|
  {
    if |a| > 0 {
      assert (a + b)[0] == a[0] && (a + b)[1..] == a[1..] + b;
      SpaceRunOf(a[1..], b);
    } else {
      assert a + b == b;
    }
  }

  /** A whitespace run stops before a last character that is not whitespace. */
  lemma {:induction false} SpaceRunStopsBefore(s: string)
    requires |s| > 0 && !IsSpace(s[|s| - 1])
    ensures SpaceRun(s) < |s|
    decreases |s|
  {
    if IsSpace(s[0]) {
      assert |s| > 1;
      SpaceRunStopsBefore(s[1..]);
    }
  }

  /** `s.split(/\s+/)`: the pieces between maximal runs of whitespace. */
  function SplitOnSpace(s: string): (parts: seq<string>)
    ensures |parts| >= 1
    ensures forall i :: 0 <= i < |parts| ==> NoSpace(parts[i])
    decreases |s|
  {
    var w := WordRun(s);
    if w == |s| then [s]
    else [s[..w]] + SplitOnSpace(s[w + SpaceRun(s[w..])..])
  }

  /** The number of ASCII digits at the front of `s`: what a greedy `\d*` takes. */
  function DigitRun(s: string): (n: nat)
    ensures n <= |s| && (forall i :: 0 <= i < n ==> IsDigit(s[i])) && (n == |s| || !IsDigit(s[n]))
  {
    if |s| > 0 && IsDigit(s[0]) then 1 + DigitRun(s[1..]) else 0
  }

  /** The number of ASCII upper-case letters at the front of `s`. */
  function UpperRun(s: string): (n: nat)
    ensures n <= |s| && (forall i :: 0 <= i < n ==> IsUpper(s[i])) && (n == |s| || !IsUpper(s[n]))
  {
    if |s| > 0 && IsUpper(s[0]) then 1 + UpperRun(s[1..]) else 0
  }

  // ---------------------------------------------------------------- searching

  predicate OccursAt(s: string, p: string, i: int) {
    0 <= i && i + |p| <= |s| && s[i..i + |p|] == p
  }

  /** `s.includes(p)` / Python's `p in s`. */
  predicate Contains(s: string, p: string) {
    exists i | 0 <= i <= |s| :: OccursAt(s, p, i)
  }

  /** A text found in `a` is still found once `a` is embedded in a longer text. */
  lemma ContainsInContext(x: string, a: string, y: string, p: string)
    requires Contains(a, p)
    ensures Contains(x + a + y, p)
  {
    var i :| 0 <= i <= |a| && OccursAt(a, p, i);
    var s := x + a + y;
    assert s[|x| + i..|x| + i + |p|] == a[i..i + |p|];
    assert OccursAt(s, p, |x| + i);
  }

  /** A slice of a slice is a slice of the whole. */
  lemma SliceOfSlice(s: string, a: nat, b: nat, i: nat, j: nat)
    requires a <= b <= |s| && i <= j <= b - a
    ensures s[a..b][i..j] == s[a + i..a + j]
  {
    assert forall t | 0 <= t < j - i :: s[a..b][i..j][t] == s[a + i..a + j][t];
  }

  predicate StartsWith(s: string, p: string) { |p| <= |s| && s[..|p|] == p }
  predicate EndsWith(s: string, p: string) { |p| <= |s| && s[|s| - |p|..] == p }

  /** The first occurrence of `p` in `s` at or after `from`. */
  function IndexOfFrom(s: string, p: string, from: nat): (r: Option<nat>)
    ensures r.Some? ==> from <= r.value && OccursAt(s, p, r.value)
    ensures r.Some? ==> forall j :: from <= j < r.value ==> !OccursAt(s, p, j)
    ensures r.None? ==> forall j :: from <= j ==> !OccursAt(s, p, j)
    decreases |s| - from
  {
    if from + |p| > |s| then None
    else if OccursAt(s, p, from) then Some(from)
    else IndexOfFrom(s, p, from + 1)
  }

  /** `s.indexOf(p)`, with `None` for -1. */
  function IndexOf(s: string, p: string): (r: Option<nat>)
    ensures r.None? <==> !Contains(s, p)
    ensures r.Some? ==> OccursAt(s, p, r.value) && forall j :: 0 <= j < r.value ==> !OccursAt(s, p, j)
  {
    IndexOfFrom(s, p, 0)
  }

  /** `s.indexOf(c)` for one character, with `None` for -1. */
  function IndexOfChar(s: string, c: char): (r: Option<nat>)
    ensures r.Some? ==> r.value < |s| && s[r.value] == c && forall j :: 0 <= j < r.value ==> s[j] != c
    ensures r.None? ==> forall j :: 0 <= j < |s| ==> s[j] != c
  {
    if |s| == 0 then None
    else if s[0] == c then Some(0)
    else
      match IndexOfChar(s[1..], c)
      case None => None
      case Some(k) => Some(k + 1)
  }

  /** `s.lastIndexOf(c)` for one character, with `None` for -1. */
  function LastIndexOfChar(s: string, c: char): (r: Option<nat>)
    ensures r.Some? ==> r.value < |s| && s[r.value] == c && forall j :: r.value < j < |s| ==> s[j] != c
    ensures r.None? ==> forall j :: 0 <= j < |s| ==> s[j] != c
  {
    if |s| == 0 then None
    else if s[|s| - 1] == c then Some(|s| - 1)
    else LastIndexOfChar(s[..|s| - 1], c)
  }

  /** The least `i` in `[lo, hi)` with `P(i)`: how a regex engine settles on
      the leftmost start, or a lazy quantifier on the shortest end. */
  function LeastIn(lo: nat, hi: nat, P: nat -> bool): (r: Option<nat>)
    ensures r.Some? ==> lo <= r.value < hi && P(r.value)
    ensures r.Some? ==> forall j :: lo <= j < r.value ==> !P(j)
    ensures r.None? ==> forall j :: lo <= j < hi ==> !P(j)
    decreases hi - lo
  {
    if lo >= hi then None
    else if P(lo) then Some(lo)
    else LeastIn(lo + 1, hi, P)
  }

  // ---------------------------------------------------------------- replace all

  /** Replaces, scanning left to right, every non-overlapping occurrence of the
      non-empty literal `p` by `r`; the scan resumes after each replaced match. */
  function ReplaceAll(s: string, p: string, r: string): string
    requires |p| > 0
    decreases |s|
  {
    if |s| < |p| then s
    else if StartsWith(s, p) then r + ReplaceAll(s[|p|..], p, r)
    else [s[0]] + ReplaceAll(s[1..], p, r)
  }

  /** `s.split(p)` for a non-empty literal separator (reference for `ReplaceAll`). */
  function Split(s: string, p: string): (parts: seq<string>)
    requires |p| > 0
    ensures |parts| >= 1
    decreases |s|
  {
    if |s| < |p| then [s]
    else if StartsWith(s, p) then [""] + Split(s[|p|..], p)
    else
      var rest := Split(s[1..], p);
      [[s[0]] + rest[0]] + rest[1..]
  }

  /** `parts.join(sep)`. */
  function Join(parts: seq<string>, sep: string): string {
    if |parts| == 0 then ""
    else if |parts| == 1 then parts[0]
    else parts[0] + sep + Join(parts[1..], sep)
  }

  lemma JoinCons(a: string, rest: seq<string>, sep: string)
    requires |rest| >= 1
    ensures Join([a] + rest, sep) == a + sep + Join(rest, sep)
  {
    assert ([a] + rest)[1..] == rest;
  }

  /** Prepending text to the first part prepends it to the joined string. */
  lemma {:induction false} JoinExtendHead(x: string, parts: seq<string>, sep: string)
    requires |parts| >= 1
    ensures Join([x + parts[0]] + parts[1..], sep) == x + Join(parts, sep)
  {
    var ext := [x + parts[0]] + parts[1..];
    if |parts| == 1 {
      assert ext == [x + parts[0]];
    } else {
      assert ext[1..] == parts[1..];
      assert Join(ext, sep) == (x + parts[0]) + sep + Join(parts[1..], sep);
    }
  }

  lemma JoinHeadIsPrefix(parts: seq<string>, sep: string)
    requires |parts| >= 1
    ensures StartsWith(Join(parts, sep), parts[0])
  {
    if |parts| > 1 {
      assert Join(parts, sep) == parts[0] + (sep + Join(parts[1..], sep));
    }
  }

  /** Appending a part appends the separator and the part. */
  lemma {:induction false} JoinSnoc(parts: seq<string>, x: string, sep: string)
    requires |parts| >= 1
    ensures Join(parts + [x], sep) == Join(parts, sep) + sep + x
    decreases |parts|
  {
    if |parts| > 1 {
      assert (parts + [x])[1..] == parts[1..] + [x];
      JoinSnoc(parts[1..], x, sep);
    }
  }

  lemma {:induction false} JoinLastIsSuffix(parts: seq<string>, sep: string)
    requires |parts| >= 1
    ensures EndsWith(Join(parts, sep), parts[|parts| - 1])
    decreases |parts|
  {
    if |parts| > 1 {
      JoinLastIsSuffix(parts[1..], sep);
      var rest := Join(parts[1..], sep);
      assert Join(parts, sep) == (parts[0] + sep) + rest;
    }
  }

  /** Splitting and joining with the same separator gives back the string. */
  lemma {:induction false} SplitJoin(s: string, p: string)
    requires |p| > 0
    ensures Join(Split(s, p), p) == s
    decreases |s|
  {
    if |s| < |p| {
    } else if StartsWith(s, p) {
      var rest := Split(s[|p|..], p);
      assert Split(s, p) == [""] + rest;
      assert Join(rest, p) == s[|p|..] by {
        SplitJoin(s[|p|..], p);
      }
      JoinCons("", rest, p);
      assert s == "" + p + s[|p|..];
    } else {
      var rest := Split(s[1..], p);
      assert Split(s, p) == [[s[0]] + rest[0]] + rest[1..];
      assert Join(rest, p) == s[1..] by {
        SplitJoin(s[1..], p);
      }
      JoinExtendHead([s[0]], rest, p);
      assert s == [s[0]] + s[1..];
    }
  }

  /** The replace-all scan swaps every separator the split finds for `r`. */
  lemma {:induction false} ReplaceAllJoinsSplit(s: string, p: string, r: string)
    requires |p| > 0
    ensures ReplaceAll(s, p, r) == Join(Split(s, p), r)
    decreases |s|
  {
    if |s| < |p| {
    } else if StartsWith(s, p) {
      var rest := Split(s[|p|..], p);
      assert Split(s, p) == [""] + rest;
      assert ReplaceAll(s[|p|..], p, r) == Join(rest, r) by {
        ReplaceAllJoinsSplit(s[|p|..], p, r);
      }
      JoinCons("", rest, r);
    } else {
      var rest := Split(s[1..], p);
      assert Split(s, p) == [[s[0]] + rest[0]] + rest[1..];
      assert ReplaceAll(s[1..], p, r) == Join(rest, r) by {
        ReplaceAllJoinsSplit(s[1..], p, r);
      }
      JoinExtendHead([s[0]], rest, r);
    }
  }

  /** No part of the split holds an occurrence of the separator: the scan
      found every one of them. */
  lemma {:induction false} SplitPartsFree(s: string, p: string)
    requires |p| > 0
    ensures forall k :: 0 <= k < |Split(s, p)| ==> !Contains(Split(s, p)[k], p)
    decreases |s|
  {
    var parts := Split(s, p);
    if |s| < |p| {
      assert parts == [s];
      assert !Contains(s, p);
    } else if StartsWith(s, p) {
      var rest := Split(s[|p|..], p);
      assert parts == [""] + rest;
      assert forall k :: 0 <= k < |rest| ==> !Contains(rest[k], p) by {
        SplitPartsFree(s[|p|..], p);
      }
      assert !Contains("", p);
      forall k | 0 <= k < |parts| ensures !Contains(parts[k], p) {
        if k > 0 {
          assert parts[k] == rest[k - 1];
        }
      }
    } else {
      var rest := Split(s[1..], p);
      var head := [s[0]] + rest[0];
      assert parts == [head] + rest[1..];
      assert forall k :: 0 <= k < |rest| ==> !Contains(rest[k], p) by {
        SplitPartsFree(s[1..], p);
      }
      assert !Contains(head, p) by {
        SplitHeadIsPrefix(s[1..], p);
        ConsPrefixFree(s, p, rest[0]);
      }
      forall k | 0 <= k < |parts| ensures !Contains(parts[k], p) {
        if k > 0 {
          assert parts[k] == rest[k];
        }
      }
    }
  }

  /** When the text does not start with `p`, its first character followed
      by a `p`-free prefix of the rest holds no `p`. */
  lemma ConsPrefixFree(s: string, p: string, first: string)
    requires |p| > 0 && |first| < |s| && first == s[1..][..|first|]
    requires !StartsWith(s, p) && !Contains(first, p)
    ensures !Contains([s[0]] + first, p)
  {
    var x := [s[0]] + first;
    assert x == s[..|x|] by {
      assert s[..|x|] == [s[0]] + s[1..][..|first|];
    }
    assert x[1..] == first;
    PrefixFree(s, p, x);
  }

  lemma SplitHeadIsPrefix(t: string, p: string)
    requires |p| > 0
    ensures |Split(t, p)[0]| <= |t| && t[..|Split(t, p)[0]|] == Split(t, p)[0]
  {
    SplitJoin(t, p);
    JoinHeadIsPrefix(Split(t, p), p);
  }

  /** A prefix of a text that does not start with `p`, and whose tail after
      the first character holds no `p`, holds no `p`. */
  lemma PrefixFree(s: string, p: string, x: string)
    requires |p| > 0 && 1 <= |x| <= |s| && x == s[..|x|] && !StartsWith(s, p)
    requires !Contains(x[1..], p)
    ensures !Contains(x, p)
  {
    forall i | 0 <= i <= |x| ensures !OccursAt(x, p, i) {
      if i == 0 {
        if |p| <= |x| {
          assert x[..|p|] == s[..|p|];
        }
      } else if i + |p| <= |x| {
        assert x[1..][i - 1..i - 1 + |p|] == x[i..i + |p|];
        assert !OccursAt(x[1..], p, i - 1);
      }
    }
  }

  /** No character of `r` occurs in `p`. */
  predicate CharsDisjoint(r: string, p: string) {
    forall c :: c in r ==> c !in p
  }

  /** Gluing two texts free of `p` with a non-empty `r` that shares no
      character with `p` gives a text free of `p`. */
  lemma NoStraddle(a: string, r: string, b: string, p: string)
    requires |p| > 0 && |r| > 0 && CharsDisjoint(r, p)
    requires !Contains(a, p) && !Contains(b, p)
    ensures !Contains(a + r + b, p)
  {
    var s := a + r + b;
    forall i | 0 <= i <= |s| && i + |p| <= |s| ensures !OccursAt(s, p, i) {
      if i + |p| <= |a| {
        assert !OccursAt(a, p, i);
        assert a[i..i + |p|] == s[i..i + |p|];
      } else if i >= |a| + |r| {
        var j: nat := i - |a| - |r|;
        assert j + |p| <= |b|;
        assert !OccursAt(b, p, j);
        assert b[j..j + |p|] == s[i..i + |p|];
      } else {
        var k := if i < |a| then |a| else i;
        assert s[k] == r[k - |a|];
        assert s[k] !in p;
        assert p[k - i] in p;
        assert s[i..i + |p|][k - i] != p[k - i];
      }
    }
  }

  lemma {:induction false} JoinFree(parts: seq<string>, r: string, p: string)
    requires |p| > 0 && |r| > 0 && CharsDisjoint(r, p)
    requires forall k :: 0 <= k < |parts| ==> !Contains(parts[k], p)
    ensures !Contains(Join(parts, r), p)
    decreases |parts|
  {
    if |parts| == 0 {
      assert !OccursAt("", p, 0);
    } else if |parts| > 1 {
      JoinFree(parts[1..], r, p);
      NoStraddle(parts[0], r, Join(parts[1..], r), p);
    }
  }

  /** A replace-all by a non-empty text sharing no character with the
      pattern leaves no occurrence of the pattern behind: none survives the
      scan and none is formed across a replacement. */
  lemma ReplaceAllLeavesNone(s: string, p: string, r: string)
    requires |p| > 0 && |r| > 0 && CharsDisjoint(r, p)
    ensures !Contains(ReplaceAll(s, p, r), p)
  {
    ReplaceAllJoinsSplit(s, p, r);
    SplitPartsFree(s, p);
    JoinFree(Split(s, p), r, p);
  }

  /** Where no occurrence of the pattern starts before `n`, replace-all copies
      the first `n` characters. */
  lemma {:induction false} ReplaceAllCopiesPrefix(s: string, p: string, r: string, n: nat)
    requires |p| > 0 && n <= |s|
    requires forall t :: 0 <= t < n ==> !OccursAt(s, p, t)
    ensures ReplaceAll(s, p, r) == s[..n] + ReplaceAll(s[n..], p, r)
    decreases n
  {
    if n > 0 && |s| >= |p| {
      assert !OccursAt(s, p, 0);
      forall t | 0 <= t < n - 1 ensures !OccursAt(s[1..], p, t) {
        assert !OccursAt(s, p, t + 1);
        if t + |p| <= |s| - 1 {
          assert s[1..][t..t + |p|] == s[t + 1..t + 1 + |p|];
        }
      }
      ReplaceAllCopiesPrefix(s[1..], p, r, n - 1);
      assert s[1..][n - 1..] == s[n..];
      assert s[..n] == [s[0]] + s[1..][..n - 1];
    } else if n > 0 {
      assert s[..n] + s[n..] == s;
    }
  }

  /** An occurrence of `q` that no occurrence of `p` overlaps survives a
      replace-all of `p`. */
  lemma {:induction false} ReplaceAllKeepsOccurrence(s: string, p: string, r: string, q: string, j: nat)
    requires |p| > 0 && OccursAt(s, q, j)
    requires forall t :: 0 <= t <= |s| && OccursAt(s, p, t) ==> t + |p| <= j || j + |q| <= t
    ensures Contains(ReplaceAll(s, p, r), q)
    decreases |s|
  {
    var out := ReplaceAll(s, p, r);
    if |s| < |p| {
      assert OccursAt(out, q, j);
    } else if j == 0 {
      ReplaceAllCopiesPrefix(s, p, r, |q|);
      assert out[..|q|] == s[..|q|] == q;
      assert OccursAt(out, q, 0);
    } else {
      var d := if StartsWith(s, p) then |p| else 1;
      var front := if StartsWith(s, p) then r else [s[0]];
      assert d <= j by {
        if StartsWith(s, p) {
          assert OccursAt(s, p, 0);
        }
      }
      var rest := s[d..];
      var tail := ReplaceAll(rest, p, r);
      assert out == front + tail + "";
      assert Contains(tail, q) by {
        NoOverlapAfter(s, p, q, j, d);
        ReplaceAllKeepsOccurrence(rest, p, r, q, j - d);
      }
      ContainsInContext(front, tail, "", q);
    }
  }

  /** Dropping the first `d` characters keeps an occurrence of `q` at `j`
      and keeps it clear of every occurrence of `p`. */
  lemma NoOverlapAfter(s: string, p: string, q: string, j: nat, d: nat)
    requires d <= j && OccursAt(s, q, j)
    requires forall t :: 0 <= t <= |s| && OccursAt(s, p, t) ==> t + |p| <= j || j + |q| <= t
    ensures OccursAt(s[d..], q, j - d)
    ensures forall t :: 0 <= t <= |s[d..]| && OccursAt(s[d..], p, t) ==> t + |p| <= j - d || j - d + |q| <= t
  {
    var rest := s[d..];
    assert rest[j - d..j - d + |q|] == s[j..j + |q|];
    forall t | 0 <= t <= |rest| && OccursAt(rest, p, t)
      ensures t + |p| <= j - d || j - d + |q| <= t
    {
      assert s[t + d..t + d + |p|] == rest[t..t + |p|];
      assert OccursAt(s, p, t + d);
    }
  }

  /** The number of places where `q` occurs in `s` (overlaps counted). */
  function Count(s: string, q: string): nat
    decreases |s|
  {
    if |s| == 0 then 0 else (if OccursAt(s, q, 0) then 1 else 0) + Count(s[1..], q)
  }

  /** Text put in front never lowers the count. */
  lemma {:induction false} CountGrowsInFront(x: string, t: string, q: string)
    ensures Count(x + t, q) >= Count(t, q)
    decreases |x|
  {
    if |x| > 0 {
      assert (x + t)[1..] == x[1..] + t;
      CountGrowsInFront(x[1..], t, q);
    } else {
      assert x + t == t;
    }
  }

  /** Dropping a front that holds no start of `q` keeps the count. */
  lemma {:induction false} CountDropFront(s: string, q: string, d: nat)
    requires d <= |s| && forall j :: 0 <= j < d ==> !OccursAt(s, q, j)
    ensures Count(s, q) == Count(s[d..], q)
    decreases d
  {
    if d > 0 {
      forall j | 0 <= j < d - 1 ensures !OccursAt(s[1..], q, j) {
        assert !OccursAt(s, q, j + 1);
        if j + |q| <= |s| - 1 {
          assert s[1..][j..j + |q|] == s[j + 1..j + 1 + |q|];
        }
      }
      CountDropFront(s[1..], q, d - 1);
      assert s[1..][d - 1..] == s[d..];
    }
  }

  /** A replace-all of `p` keeps every occurrence of a `q` that no
      occurrence of `p` overlaps: the count of `q` never drops. */
  lemma {:induction false} ReplaceAllKeepsCount(s: string, p: string, r: string, q: string)
    requires |p| > 0 && |q| > 0
    requires forall t, j :: OccursAt(s, p, t) && OccursAt(s, q, j) ==> t + |p| <= j || j + |q| <= t
    ensures Count(ReplaceAll(s, p, r), q) >= Count(s, q)
    decreases |s|
  {
    var out := ReplaceAll(s, p, r);
    if |s| < |p| {
    } else if StartsWith(s, p) {
      var rest := s[|p|..];
      assert OccursAt(s, p, 0);
      CountDropFront(s, q, |p|);
      forall t, j | OccursAt(rest, p, t) && OccursAt(rest, q, j)
        ensures t + |p| <= j || j + |q| <= t
      {
        SliceOfSlice(s, |p|, |s|, t, t + |p|);
        SliceOfSlice(s, |p|, |s|, j, j + |q|);
        assert OccursAt(s, p, t + |p|) && OccursAt(s, q, j + |p|);
      }
      ReplaceAllKeepsCount(rest, p, r, q);
      CountGrowsInFront(r, ReplaceAll(rest, p, r), q);
    } else {
      var rest := s[1..];
      forall t, j | OccursAt(rest, p, t) && OccursAt(rest, q, j)
        ensures t + |p| <= j || j + |q| <= t
      {
        SliceOfSlice(s, 1, |s|, t, t + |p|);
        SliceOfSlice(s, 1, |s|, j, j + |q|);
        assert OccursAt(s, p, t + 1) && OccursAt(s, q, j + 1);
      }
      ReplaceAllKeepsCount(rest, p, r, q);
      assert out == [s[0]] + ReplaceAll(rest, p, r);
      assert out[1..] == ReplaceAll(rest, p, r);
      if OccursAt(s, q, 0) {
        assert forall t :: 0 <= t < |q| ==> !OccursAt(s, p, t);
        ReplaceAllCopiesPrefix(s, p, r, |q|);
        assert out[..|q|] == s[..|q|];
        assert OccursAt(out, q, 0);
      }
    }
  }

  /** At the first occurrence of the pattern, replace-all puts in the
      replacement and goes on after the occurrence. */
  lemma ReplaceAllAtOccurrence(s: string, p: string, r: string, n: nat)
    requires |p| > 0 && OccursAt(s, p, n)
    requires forall t :: 0 <= t < n ==> !OccursAt(s, p, t)
    ensures ReplaceAll(s, p, r) == s[..n] + r + ReplaceAll(s[n + |p|..], p, r)
  {
    var suffix := s[n..];
    assert ReplaceAll(s, p, r) == s[..n] + ReplaceAll(suffix, p, r) by {
      ReplaceAllCopiesPrefix(s, p, r, n);
    }
    assert |suffix| >= |p| && StartsWith(suffix, p) by {
      assert suffix[..|p|] == s[n..n + |p|];
    }
    var rest := s[n + |p|..];
    assert suffix[|p|..] == rest;
    var tail := ReplaceAll(rest, p, r);
    assert ReplaceAll(suffix, p, r) == r + tail;
    assert s[..n] + (r + tail) == s[..n] + r + tail;
  }

  /** Where the pattern occurs, replace-all puts the replacement in. */
  lemma ReplaceAllInserts(s: string, p: string, r: string)
    requires |p| > 0 && Contains(s, p)
    ensures Contains(ReplaceAll(s, p, r), r)
  {
    var n := IndexOf(s, p).value;
    ReplaceAllAtOccurrence(s, p, r, n);
    assert OccursAt(r, r, 0) by {
      assert r[0..|r|] == r;
    }
    ContainsInContext(s[..n], r, ReplaceAll(s[n + |p|..], p, r), r);
  }

  /** With no occurrence of the pattern, replace-all changes nothing. */
  lemma {:induction false} ReplaceAllAbsent(s: string, p: string, r: string)
    requires |p| > 0 && !Contains(s, p)
    ensures ReplaceAll(s, p, r) == s
    decreases |s|
  {
    if |s| >= |p| {
      assert !OccursAt(s, p, 0);
      forall i | OccursAt(s[1..], p, i) ensures false {
        assert s[i + 1..i + 1 + |p|] == s[1..][i..i + |p|];
        assert OccursAt(s, p, i + 1);
      }
      ReplaceAllAbsent(s[1..], p, r);
      assert s == [s[0]] + s[1..];
    }
  }

  /** Replacing a pattern by itself changes nothing. */
  lemma ReplaceAllSelf(s: string, p: string)
    requires |p| > 0
    ensures ReplaceAll(s, p, p) == s
  {
    ReplaceAllJoinsSplit(s, p, p);
    SplitJoin(s, p);
  }

  /** Replacing one character by one character works position by position. */
  lemma {:induction false} ReplaceCharAt(s: string, c: char, d: char)
    ensures |ReplaceAll(s, [c], [d])| == |s|
    ensures forall i :: 0 <= i < |s| ==> ReplaceAll(s, [c], [d])[i] == if s[i] == c then d else s[i]
    decreases |s|
  {
    if |s| > 0 {
      ReplaceCharAt(s[1..], c, d);
      var head := if s[0] == c then d else s[0];
      assert ReplaceAll(s, [c], [d]) == [head] + ReplaceAll(s[1..], [c], [d]);
    }
  }

  /** Every `c` of `s` written as `r`, character by character: the
      reference for a replace-all whose pattern is one character. */
  function Substitute(s: string, c: char, r: string): string
    decreases |s|
  {
    if |s| == 0 then "" else (if s[0] == c then r else [s[0]]) + Substitute(s[1..], c, r)
  }

  lemma {:induction false} ReplaceAllOneChar(s: string, c: char, r: string)
    ensures ReplaceAll(s, [c], r) == Substitute(s, c, r)
    decreases |s|
  {
    if |s| > 0 {
      ReplaceAllOneChar(s[1..], c, r);
      assert StartsWith(s, [c]) <==> s[0] == c;
    }
  }

  lemma {:induction false} SubstituteAppend(a: string, b: string, c: char, r: string)
    ensures Substitute(a + b, c, r) == Substitute(a, c, r) + Substitute(b, c, r)
    decreases |a|
  {
    if |a| > 0 {
      var h := if a[0] == c then r else [a[0]];
      var x, y := Substitute(a[1..], c, r), Substitute(b, c, r);
      assert (a + b)[0] == a[0] && (a + b)[1..] == a[1..] + b;
      assert Substitute(a + b, c, r) == h + Substitute(a[1..] + b, c, r);
      assert Substitute(a[1..] + b, c, r) == x + y by {
        SubstituteAppend(a[1..], b, c, r);
      }
      assert Substitute(a, c, r) == h + x;
      assert h + (x + y) == (h + x) + y;
    } else {
      assert a + b == b;
    }
  }

  lemma {:induction false} SubstituteAbsent(s: string, c: char, r: string)
    requires c !in s
    ensures Substitute(s, c, r) == s
    decreases |s|
  {
    if |s| > 0 {
      SubstituteAbsent(s[1..], c, r);
      assert s == [s[0]] + s[1..];
    }
  }
}
