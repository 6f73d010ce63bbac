/** Output file names: `Affidavit_{case}.docx` (browser client and the
    docxtemplater handler) and `Affidavit_{case}_{defendant}.docx` (the
    single-defendant handlers), where the case number has every `/` turned
    into `-` and the defendant name every character outside `[A-Za-z0-9]`
    turned into `_`. */
module Filenames {
  import Text

  /** `caseNumber.replace(/\//g, '-')`. */
  function SafeCaseNumber(c: string): (r: string)
    ensures |r| == |c|
    ensures forall i :: 0 <= i < |c| ==> r[i] == if c[i] == '/' then '-' else c[i]
  {
    Text.ReplaceCharAt(c, '/', '-');
    Text.ReplaceAll(c, "/", "-")
  }

  /** `name.replace(/[^a-zA-Z0-9]/g, '_')`. */
  function SafeName(n: string): (r: string)
    ensures |r| == |n|
    ensures forall i :: 0 <= i < |n| ==> r[i] == if Text.IsAlnum(n[i]) then n[i] else '_'
  {
    if |n| == 0 then ""
    else [if Text.IsAlnum(n[0]) then n[0] else '_'] + SafeName(n[1..])
  }

  /** `Affidavit_${safeCaseNumber}.docx`. */
  function CaseFilename(caseNumber: string): string {
    "Affidavit_" + SafeCaseNumber(caseNumber) + ".docx"
  }

  /** `Affidavit_${safeCaseNumber}_${safeDefendantName}.docx`. */
  function DefendantFilename(caseNumber: string, defendantName: string): string {
    "Affidavit_" + SafeCaseNumber(caseNumber) + "_" + SafeName(defendantName) + ".docx"
  }

  /** The case segment keeps the length of the case number and holds no `/`. */
  lemma SafeCaseNumberHasNoSlash(c: string)
    ensures |SafeCaseNumber(c)| == |c| && '/' !in SafeCaseNumber(c)
  {
  }

  /** The name segment keeps the length of the name, holds only
      `[A-Za-z0-9_]`, and keeps every letter and digit in place. */
  lemma SafeNameIsWordChars(n: string)
    ensures |SafeName(n)| == |n|
    ensures forall i :: 0 <= i < |n| ==> Text.IsAlnum(SafeName(n)[i]) || SafeName(n)[i] == '_'
    ensures forall i :: 0 <= i < |n| && Text.IsAlnum(n[i]) ==> SafeName(n)[i] == n[i]
  {
  }

  /** Both rewritings are idempotent. */
  lemma SanitisingIsIdempotent(c: string, n: string)
    ensures SafeCaseNumber(SafeCaseNumber(c)) == SafeCaseNumber(c)
    ensures SafeName(SafeName(n)) == SafeName(n)
  {
  }

  /** The file name is the case segment and the name segment between the
      fixed prefix, separator and extension, so both can be read back. */
  lemma {:induction false} DefendantFilenameSegments(c: string, n: string)
    ensures var f := DefendantFilename(c, n);
      && |f| == 10 + |c| + 1 + |n| + 5
      && f[..10] == "Affidavit_" && f[10..10 + |c|] == SafeCaseNumber(c)
      && f[10 + |c|] == '_' && f[11 + |c|..11 + |c| + |n|] == SafeName(n)
      && f[|f| - 5..] == ".docx"
  {
    var f := DefendantFilename(c, n);
    assert f == "Affidavit_" + SafeCaseNumber(c) + "_" + SafeName(n) + ".docx";
  }

  /** Distinct case numbers can share a file name: `/` and `-` are merged. */
  lemma CaseFilenamesCollide()
    ensures CaseFilename("A/1") == CaseFilename("A-1")
  {
    assert SafeCaseNumber("A/1") == "A-1";
    assert SafeCaseNumber("A-1") == "A-1";
  }

  /** A case number made of slash-separated parts, such as `GCLM/2763/2024`,
      becomes the same parts joined by hyphens (`GCLM-2763-2024`). */
  lemma {:induction false} CaseNumberParts(a: string, b: string, c: string)
    requires '/' !in a && '/' !in b && '/' !in c
    ensures SafeCaseNumber(a + "/" + b + "/" + c) == a + "-" + b + "-" + c
  {
    var s := a + "/" + b + "/" + c;
    var t := a + "-" + b + "-" + c;
    var r := SafeCaseNumber(s);
    forall i | 0 <= i < |s|
      ensures r[i] == t[i]
    {
      if i < |a| {
        assert s[i] == a[i] && t[i] == a[i];
      } else if i == |a| {
        assert s[i] == '/' && t[i] == '-';
      } else if i < |a| + 1 + |b| {
        assert s[i] == b[i - |a| - 1] && t[i] == b[i - |a| - 1];
      } else if i == |a| + 1 + |b| {
        assert s[i] == '/' && t[i] == '-';
      } else {
        assert s[i] == c[i - |a| - |b| - 2] && t[i] == c[i - |a| - |b| - 2];
      }
    }
  }
}
