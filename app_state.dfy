/** The browser client of app.js: the drop filter, the batch loop of
    `processFiles` over the chosen PDFs, the list of generated affidavits,
    the single and the staggered "download all" downloads, and "start over".
    The DOM, `fetch`, `URL.createObjectURL`, `setTimeout` and `confirm` are
    outside the model: what they answer for each file (or click) is a
    parameter. */
module BatchSession {
  import opened Wrappers
  import opened JsValues
  import Text
  import Filenames

  // ------------------------------------------------------------ the data

  /** A `File` of the drop or of the file input, as far as the client looks
      at it: its name and its MIME type. */
  datatype PdfFile = PdfFile(name: string, mimeType: string)

  /** The bytes of a generated .docx. */
  type Blob = seq<bv8>

  /** What the outside world answers for one file:
      `extracted` is the JSON body of a successful `extract-gpc-data` request
      (`None` when `fetch` rejects, the status is not ok, or the body is not
      JSON); `blob` is the body of a successful `generate-affidavit` request
      (`None` when it fails); `url` is what `URL.createObjectURL` returns. */
  datatype Reply = Reply(extracted: Option<JsValue>, blob: Option<Blob>, url: string)

  /** One entry of `appState.processedAffidavits`. */
  datatype Affidavit = Affidavit(fileName: string, caseNumber: string, claimant: JsValue,
                                 defendants: JsValue, url: string, blob: Blob)

  /** The anchor that `downloadSingleAffidavit` clicks: its `href` and its
      `download` name. */
  datatype Download = Download(href: string, name: string)

  /** A `setTimeout` of `downloadAllAffidavits`: the delay in milliseconds
      and the file name handed to `downloadSingleAffidavit` when it fires. */
  datatype Timer = Timer(delay: nat, fileName: string)

  // ------------------------------------------------------- the drop filter

  /** `f.type === 'application/pdf' || f.name.toLowerCase().endsWith('.pdf')`. */
  predicate IsPdf(f: PdfFile) {
    f.mimeType == "application/pdf" || Text.EndsWith(Text.Lower(f.name), ".pdf")
  }

  /** `Array.from(e.dataTransfer.files).filter(...)`. */
  function DropFilter(files: seq<PdfFile>): seq<PdfFile> {
    if |files| == 0 then []
    else (if IsPdf(files[0]) then [files[0]] else []) + DropFilter(files[1..])
  }

  /** Filtering a concatenation filters each part, in order. */
  lemma {:induction false} DropFilterAppend(a: seq<PdfFile>, b: seq<PdfFile>)
    ensures DropFilter(a + b) == DropFilter(a) + DropFilter(b)
    decreases |a|
  {
    if |a| == 0 {
      assert a + b == b;
    } else {
      var head := if IsPdf(a[0]) then [a[0]] else [];
      assert (a + b)[0] == a[0] && (a + b)[1..] == a[1..] + b;
      assert DropFilter(a + b) == head + DropFilter(a[1..] + b);
      DropFilterAppend(a[1..], b);
      assert DropFilter(a) == head + DropFilter(a[1..]);
      assert head + (DropFilter(a[1..]) + DropFilter(b)) == (head + DropFilter(a[1..])) + DropFilter(b);
    }
  }

  /** The filter keeps exactly the PDFs, each as often as it was dropped,
      and drops every other file. */
  lemma {:induction false} DropFilterCounts(files: seq<PdfFile>, f: PdfFile)
    ensures multiset(DropFilter(files))[f] == if IsPdf(f) then multiset(files)[f] else 0
    decreases |files|
  {
    if |files| > 0 {
      DropFilterCounts(files[1..], f);
      assert files == [files[0]] + files[1..];
    }
  }

  /** A file is kept if and only if it was dropped and is a PDF. */
  lemma DropFilterKeepsExactlyPdfs(files: seq<PdfFile>, f: PdfFile)
    ensures f in DropFilter(files) <==> f in files && IsPdf(f)
  {
    DropFilterCounts(files, f);
    assert f in DropFilter(files) <==> multiset(DropFilter(files))[f] > 0;
    assert f in files <==> multiset(files)[f] > 0;
  }

  /** The test is on the lowered name: `report.PDF` and `Report.Pdf` pass
      whatever their type, and a name that holds `.pdf` only before its end
      passes only by its type. */
  lemma PdfNameIgnoresCase(name: string, mimeType: string)
    requires |name| >= 4 && name[|name| - 4] == '.'
    requires Text.ToLower(name[|name| - 3]) == 'p' && Text.ToLower(name[|name| - 2]) == 'd'
    requires Text.ToLower(name[|name| - 1]) == 'f'
    ensures IsPdf(PdfFile(name, mimeType))
  {
    var low := Text.Lower(name);
    assert low[|low| - 4..] == ".pdf";
  }

  /** A file whose type is not `application/pdf` and whose name does not end
      in a (case-insensitive) `.pdf` is rejected. */
  lemma NonPdfNameIsDropped(name: string, mimeType: string)
    requires mimeType != "application/pdf"
    requires |name| >= 1 && Text.ToLower(name[|name| - 1]) != 'f'
    ensures !IsPdf(PdfFile(name, mimeType))
  {
    var low := Text.Lower(name);
    assert low[|low| - 1] != 'f';
    assert !Text.EndsWith(low, ".pdf") by {
      if |low| >= 4 {
        assert low[|low| - 4..][3] == low[|low| - 1];
      }
    }
  }

  // ------------------------------------------------ one file of the batch

  /** `processGPCAndGenerateAffidavit`: the entry pushed for a file, or
      `None` when the call throws. It throws when extraction fails, when the
      body is `null`/`undefined` (reading `data.error` throws) or has a
      truthy `error`, when generation fails, and when `caseNumber` is not a
      string (`caseNumber.replace` throws a TypeError). */
  function Attempt(r: Reply): (o: Option<Affidavit>)
    ensures o.Some? <==> r.extracted.Some? && r.blob.Some?
                         && Prop(r.extracted.value, "error").Normal?
                         && !Truthy(Prop(r.extracted.value, "error").value)
                         && Get(r.extracted.value, "caseNumber").Str?
    ensures o.Some? ==> (o.value.fileName == Filenames.CaseFilename(o.value.caseNumber)
                         && Get(r.extracted.value, "caseNumber") == Str(o.value.caseNumber)
                         && o.value.claimant == Get(r.extracted.value, "claimant")
                         && o.value.defendants == Get(r.extracted.value, "defendants")
                         && o.value.url == r.url && o.value.blob == r.blob.value)
  {
    match r.extracted
    case None => None
    case Some(data) =>
      match Prop(data, "error")
      case Throw(_) => None
      case Normal(err) =>
        if Truthy(err) then None
        else
          match r.blob
          case None => None
          case Some(blob) =>
            var caseNumber := Get(data, "caseNumber");
            if !caseNumber.Str? then None
            else
              Some(Affidavit(Filenames.CaseFilename(caseNumber.s), caseNumber.s,
                             Get(data, "claimant"), Get(data, "defendants"), r.url, blob))
  }

  /** An entry as `processGPCAndGenerateAffidavit` builds it: named after its
      own case number. */
  predicate WellNamed(e: Affidavit) {
    e.fileName == Filenames.CaseFilename(e.caseNumber)
  }

  /** What one file pushes: its entry, or nothing when it fails. */
  function Pushed(r: Reply): (p: seq<Affidavit>)
    ensures |p| <= 1 && (|p| == 1 <==> Attempt(r).Some?)
    ensures |p| == 1 ==> p[0] == Attempt(r).value
  {
    match Attempt(r) case Some(e) => [e] case None => []
  }

  /** The entries one batch pushes, in file order. */
  function Successes(rs: seq<Reply>): seq<Affidavit> {
    if |rs| == 0 then []
    else Pushed(rs[0]) + Successes(rs[1..])
  }

  /** The batch of a concatenation is the two batches one after the other:
      each file is handled on its own, in order. */
  lemma {:induction false} SuccessesAppend(a: seq<Reply>, b: seq<Reply>)
    ensures Successes(a + b) == Successes(a) + Successes(b)
    decreases |a|
  {
    if |a| == 0 {
      assert a + b == b;
    } else {
      var head := Pushed(a[0]);
      assert (a + b)[0] == a[0] && (a + b)[1..] == a[1..] + b;
      assert Successes(a + b) == head + Successes(a[1..] + b);
      SuccessesAppend(a[1..], b);
      assert Successes(a) == head + Successes(a[1..]);
      assert head + (Successes(a[1..]) + Successes(b)) == (head + Successes(a[1..])) + Successes(b);
    }
  }

  /** A failing file adds nothing and does not stop the files after it; a
      succeeding file adds its own entry exactly there. */
  lemma FailureDoesNotStopBatch(a: seq<Reply>, r: Reply, b: seq<Reply>)
    ensures Successes(a + [r] + b) ==
            Successes(a) + Pushed(r) + Successes(b)
  {
    var ar := a + [r];
    assert Successes(ar + b) == Successes(ar) + Successes(b) by {
      SuccessesAppend(ar, b);
    }
    assert Successes(ar) == Successes(a) + Successes([r]) by {
      SuccessesAppend(a, [r]);
    }
    assert Successes([r]) == Pushed(r) by {
      assert [r][1..] == [];
    }
  }

  /** The batch of the first `i + 1` files: that of the first `i`, then what
      file `i` pushes. */
  lemma SuccessesSnoc(rs: seq<Reply>, i: nat)
    requires i < |rs|
    ensures Successes(rs[..i + 1]) == Successes(rs[..i]) + Pushed(rs[i])
  {
    assert rs[..i + 1] == rs[..i] + [rs[i]];
    FailureDoesNotStopBatch(rs[..i], rs[i], []);
    assert rs[..i] + [rs[i]] + [] == rs[..i + 1];
  }

    /** There are at most as many entries as files, and exactly as many when
      no file fails. */
  lemma {:induction false} SuccessesCount(rs: seq<Reply>)
    ensures |Successes(rs)| <= |rs|
    ensures |Successes(rs)| == |rs| <==> forall k :: 0 <= k < |rs| ==> Attempt(rs[k]).Some?
    decreases |rs|
  {
    if |rs| > 0 {
      var tail := rs[1..];
      var head := Pushed(rs[0]);
      assert |Successes(rs)| == |head| + |Successes(tail)|;
      assert |Successes(tail)| <= |tail|
        && (|Successes(tail)| == |tail| <==> forall k :: 0 <= k < |tail| ==> Attempt(tail[k]).Some?) by {
        SuccessesCount(tail);
      }
      if Attempt(rs[0]).Some? {
        assert (forall k :: 0 <= k < |rs| ==> Attempt(rs[k]).Some?) <==>
               (forall k :: 0 <= k < |tail| ==> Attempt(tail[k]).Some?) by {
          forall k | 0 < k < |rs| ensures rs[k] == tail[k - 1] { }
        }
      }
    }
  }

  /** Every pushed entry is well named and comes from one file's reply. */
  lemma {:induction false} SuccessesOrigin(rs: seq<Reply>)
    ensures forall e :: e in Successes(rs) ==> WellNamed(e) && exists k :: 0 <= k < |rs| && Attempt(rs[k]) == Some(e)
    decreases |rs|
  {
    if |rs| > 0 {
      var tail := rs[1..];
      var head := Pushed(rs[0]);
      assert Successes(rs) == head + Successes(tail);
      assert forall e :: e in Successes(tail) ==> WellNamed(e) && exists k :: 0 <= k < |tail| && Attempt(tail[k]) == Some(e) by {
        SuccessesOrigin(tail);
      }
      forall e | e in Successes(rs)
        ensures WellNamed(e) && exists k :: 0 <= k < |rs| && Attempt(rs[k]) == Some(e)
      {
        if e in head {
          assert Attempt(rs[0]) == Some(e);
        } else {
          var k :| 0 <= k < |tail| && Attempt(tail[k]) == Some(e);
          assert Attempt(rs[k + 1]) == Some(e);
        }
      }
    }
  }

  // ----------------------------------------------------- the download list

  /** `processedAffidavits.find(a => a.fileName === fileName)`: the first
      entry with that name, if any. */
  function FindAffidavit(entries: seq<Affidavit>, fileName: string): (r: Option<nat>)
    ensures r.Some? ==> r.value < |entries| && entries[r.value].fileName == fileName
    ensures r.Some? ==> forall j :: 0 <= j < r.value ==> entries[j].fileName != fileName
    ensures r.None? <==> forall j :: 0 <= j < |entries| ==> entries[j].fileName != fileName
  {
    if |entries| == 0 then None
    else if entries[0].fileName == fileName then Some(0)
    else match FindAffidavit(entries[1..], fileName)
      case None => None
      case Some(k) => Some(k + 1)
  }

  /** The anchor for an entry: its URL, downloaded under its file name. */
  function AnchorFor(e: Affidavit): Download {
    Download(e.url, e.fileName)
  }

  /** What `downloadSingleAffidavit(fileName)` clicks, if anything. */
  function SingleDownload(entries: seq<Affidavit>, fileName: string): (d: Option<Download>)
    ensures d.None? <==> forall j :: 0 <= j < |entries| ==> entries[j].fileName != fileName
    ensures d.Some? ==> d.value.name == fileName
    ensures d.Some? ==>
      exists k :: && 0 <= k < |entries| && entries[k].fileName == fileName
                  && (forall j :: 0 <= j < k ==> entries[j].fileName != fileName)
                  && d.value == AnchorFor(entries[k])
  {
    match FindAffidavit(entries, fileName)
    case None => None
    case Some(k) => Some(AnchorFor(entries[k]))
  }

  /** The timers `downloadAllAffidavits` sets: one per entry, the `k`-th
      after `k * 500` ms, none on an empty list. */
  function Schedule(entries: seq<Affidavit>): (ts: seq<Timer>)
    ensures |ts| == |entries|
    ensures forall k :: 0 <= k < |ts| ==> ts[k] == Timer(k * 500, entries[k].fileName)
  {
    seq(|entries|, k requires 0 <= k < |entries| => Timer(k * 500, entries[k].fileName))
  }

  /** The anchors clicked as the timers fire, in firing order (the list is
      taken as it is when the timers were set). */
  function Fired(entries: seq<Affidavit>, ts: seq<Timer>): (ds: seq<Option<Download>>)
    ensures |ds| == |ts|
  {
    seq(|ts|, k requires 0 <= k < |ts| => SingleDownload(entries, ts[k].fileName))
  }

  /** With distinct file names "download all" clicks every entry once, in
      list order. */
  lemma DistinctNamesDownloadEachOnce(entries: seq<Affidavit>)
    requires forall i, j :: 0 <= i < j < |entries| ==> entries[i].fileName != entries[j].fileName
    ensures Fired(entries, Schedule(entries)) == seq(|entries|, k requires 0 <= k < |entries| => Some(AnchorFor(entries[k])))
  {
    var ds := Fired(entries, Schedule(entries));
    forall k | 0 <= k < |entries| ensures ds[k] == Some(AnchorFor(entries[k])) {
      var f := FindAffidavit(entries, entries[k].fileName);
      assert f.Some?;
      assert f.value == k;
    }
  }

  /** As written: two entries under one file name (two PDFs of one case, or
      the case numbers `A/1` and `A-1`, see `Filenames.CaseFilenamesCollide`)
      make "download all" click the first entry twice and never the second. */
  lemma DuplicateNameDownloadsFirstTwice(e0: Affidavit, e1: Affidavit)
    requires e0.fileName == e1.fileName
    ensures Fired([e0, e1], Schedule([e0, e1])) == [Some(AnchorFor(e0)), Some(AnchorFor(e0))]
  {
    var ds := Fired([e0, e1], Schedule([e0, e1]));
    assert FindAffidavit([e0, e1], e1.fileName) == Some(0);
    assert ds[1] == Some(AnchorFor(e0));
  }

  /** Counterexample: the case numbers `A/1` and `A-1` give one file name,
      so with their two (distinct) blob URLs the second affidavit is never
      downloaded. */
  lemma CollidingCasesLoseOne(e0: Affidavit, e1: Affidavit)
    requires e0.caseNumber == "A/1" && e1.caseNumber == "A-1" && WellNamed(e0) && WellNamed(e1)
    requires e0.url != e1.url
    ensures Some(AnchorFor(e1)) !in Fired([e0, e1], Schedule([e0, e1]))
  {
    Filenames.CaseFilenamesCollide();
    DuplicateNameDownloadsFirstTwice(e0, e1);
  }

  /** The intended "download all": each timer carries its entry's position
      rather than its name. */
  datatype IndexTimer = IndexTimer(delay: nat, index: nat)

  function IndexSchedule(entries: seq<Affidavit>): (ts: seq<IndexTimer>)
    ensures |ts| == |entries|
    ensures forall k :: 0 <= k < |ts| ==> ts[k] == IndexTimer(k * 500, k)
  {
    seq(|entries|, k requires 0 <= k < |entries| => IndexTimer(k * 500, k))
  }

  /** The anchors clicked as the position timers fire; a position that is no
      longer in the list clicks nothing. */
  function FiredByIndex(entries: seq<Affidavit>, ts: seq<IndexTimer>): (ds: seq<Option<Download>>)
    ensures |ds| == |ts|
  {
    seq(|ts|, k requires 0 <= k < |ts| =>
      if ts[k].index < |entries| then Some(AnchorFor(entries[ts[k].index])) else None)
  }

  /** Corrected: whatever the names, every entry is clicked exactly once, in
      list order, half a second apart. */
  lemma IndexScheduleDownloadsEachOnce(entries: seq<Affidavit>)
    ensures FiredByIndex(entries, IndexSchedule(entries)) ==
            seq(|entries|, k requires 0 <= k < |entries| => Some(AnchorFor(entries[k])))
  {
  }

  // -------------------------------------------------------------- appState

  /** The module-level `appState` object. */
  class AppState {
    var uploadedFiles: seq<PdfFile>
    var processedAffidavits: seq<Affidavit>
    var totalFiles: nat
    var successCount: nat
    var errorCount: nat

    /** The literal of app.js:2-8 and of `startOver`. */
    predicate IsInitial()
      reads this
    {
      uploadedFiles == [] && processedAffidavits == [] && totalFiles == 0 && successCount == 0 && errorCount == 0
    }

    /** What holds between batches: every file is counted once, as a success
        or as an error, each success has its entry, and every entry is named
        after its case number. */
    predicate Valid()
      reads this
    {
      totalFiles == |uploadedFiles| && successCount + errorCount == totalFiles
      && successCount == |processedAffidavits|
      && forall e :: e in processedAffidavits ==> WellNamed(e)
    }

    constructor()
      ensures IsInitial() && Valid()
    {
      uploadedFiles := [];
      processedAffidavits := [];
      totalFiles := 0;
      successCount := 0;
      errorCount := 0;
    }

    /** `processFiles(files)`, where `replies[i]` is what the outside world
        answers for `files[i]`. It resets the state, then handles the files
        strictly in order; `progress` lists the `updateProgress` calls. */
    method ProcessFiles(files: seq<PdfFile>, replies: seq<Reply>) returns (progress: seq<(nat, nat)>)
      requires |replies| == |files|
      modifies this
      ensures uploadedFiles == files && totalFiles == |files|
      ensures processedAffidavits == Successes(replies)
      ensures successCount == |Successes(replies)| && errorCount == |files| - |Successes(replies)|
      ensures Valid()
      ensures |progress| == |files| + 1 && forall k :: 0 <= k <= |files| ==> progress[k] == (k, |files|)
    {
      uploadedFiles := files;
      totalFiles := |files|;
      successCount := 0;
      errorCount := 0;
      processedAffidavits := [];
      progress := [(0, |files|)];
      for i := 0 to |files|
        invariant uploadedFiles == files && totalFiles == |files|
        invariant processedAffidavits == Successes(replies[..i])
        invariant successCount == |processedAffidavits| && successCount + errorCount == i
        invariant |progress| == i + 1 && forall k :: 0 <= k <= i ==> progress[k] == (k, |files|)
      {
        assert Successes(replies[..i + 1]) == processedAffidavits + Pushed(replies[i]) by {
          SuccessesSnoc(replies, i);
        }
        ProcessOne(replies[i]);
        progress := progress + [(i + 1, |files|)];
      }
      assert replies[..|files|] == replies;
      assert forall e :: e in Successes(replies) ==> WellNamed(e) by {
        SuccessesOrigin(replies);
      }
    }

    /** The `try`/`catch` around one file: a success pushes its entry and
        counts it, a failure only counts as an error. */
    method ProcessOne(reply: Reply)
      modifies this
      ensures processedAffidavits == old(processedAffidavits) + Pushed(reply)
      ensures successCount == old(successCount) + |Pushed(reply)|
      ensures errorCount == old(errorCount) + 1 - |Pushed(reply)|
      ensures uploadedFiles == old(uploadedFiles) && totalFiles == old(totalFiles)
    {
      match Attempt(reply) {
        case Some(e) =>
          processedAffidavits := processedAffidavits + [e];
          successCount := successCount + 1;
        case None =>
          errorCount := errorCount + 1;
      }
    }

    /** The drop handler: the PDFs among the dropped files are processed, or,
        when there are none, an alert is shown and nothing changes. */
    method Drop(dropped: seq<PdfFile>, replies: seq<Reply>) returns (alerted: bool, progress: seq<(nat, nat)>)
      requires |replies| == |DropFilter(dropped)|
      modifies this
      ensures alerted <==> forall f :: f in dropped ==> !IsPdf(f)
      ensures alerted ==> unchanged(this) && progress == []
      ensures !alerted ==> uploadedFiles == DropFilter(dropped) && processedAffidavits == Successes(replies)
                           && Valid() && |progress| == |replies| + 1
    {
      var files := DropFilter(dropped);
      assert |files| == 0 <==> forall f :: f in dropped ==> !IsPdf(f) by {
        forall f ensures f in files <==> f in dropped && IsPdf(f) {
          DropFilterKeepsExactlyPdfs(dropped, f);
        }
        if |files| > 0 {
          assert files[0] in files;
        }
      }
      if |files| > 0 {
        alerted := false;
        progress := ProcessFiles(files, replies);
      } else {
        alerted := true;
        progress := [];
      }
    }

    /** The file input handler: a non-empty choice is processed as it is (no
        filter); an empty one changes nothing. */
    method HandleFileSelect(files: seq<PdfFile>, replies: seq<Reply>) returns (progress: seq<(nat, nat)>)
      requires |replies| == |files|
      modifies this
      ensures |files| == 0 ==> unchanged(this) && progress == []
      ensures |files| > 0 ==> uploadedFiles == files && processedAffidavits == Successes(replies) && Valid()
    {
      progress := [];
      if |files| > 0 {
        progress := ProcessFiles(files, replies);
      }
    }

    /** `downloadSingleAffidavit(fileName)`: the anchor clicked, or nothing
        when no entry has that name. */
    method DownloadSingleAffidavit(fileName: string) returns (click: Option<Download>)
      ensures click == SingleDownload(processedAffidavits, fileName)
    {
      var found := FindAffidavit(processedAffidavits, fileName);
      if found.None? {
        return None;
      }
      var affidavit := processedAffidavits[found.value];
      click := Some(Download(affidavit.url, affidavit.fileName));
    }

    /** `downloadAllAffidavits()`: the timers set, one per entry in list
        order (the `forEach`), none when the list is empty; between batches
        there are as many as the success count shown. */
    method DownloadAllAffidavits() returns (timers: seq<Timer>)
      requires Valid()
      ensures timers == Schedule(processedAffidavits)
      ensures |timers| == successCount
    {
      timers := [];
      if |processedAffidavits| == 0 {
        return;
      }
      var index := 0;
      while index < |processedAffidavits|
        invariant index <= |processedAffidavits|
        invariant timers == Schedule(processedAffidavits[..index])
      {
        timers := timers + [Timer(index * 500, processedAffidavits[index].fileName)];
        index := index + 1;
      }
      assert processedAffidavits[..index] == processedAffidavits;
    }

    /** `startOver()`: when the user confirms, every blob URL is revoked (in
        list order) and the state is back to the initial literal; otherwise
        nothing happens. */
    method StartOver(confirmed: bool) returns (revoked: seq<string>)
      modifies this
      ensures confirmed ==> IsInitial() && Valid()
      ensures confirmed ==> |revoked| == |old(processedAffidavits)|
                            && forall k :: 0 <= k < |revoked| ==> revoked[k] == old(processedAffidavits)[k].url
      ensures !confirmed ==> unchanged(this) && revoked == []
    {
      revoked := [];
      if confirmed {
        for k := 0 to |processedAffidavits|
          invariant |revoked| == k
          invariant forall j :: 0 <= j < k ==> revoked[j] == processedAffidavits[j].url
        {
          revoked := revoked + [processedAffidavits[k].url];
        }
        uploadedFiles := [];
        processedAffidavits := [];
        totalFiles := 0;
        successCount := 0;
        errorCount := 0;
      }
    }
  }
}
