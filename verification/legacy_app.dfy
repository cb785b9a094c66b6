/**
 The earlier version of the converter (`src/app.tsx`).

 Its session has no document error. A declared non-PDF only raises an alert,
 a document the engine cannot open is an unhandled rejection that leaves the
 session as it was, a rejected render ends the page loop, and a page whose
 PNG encoding yields nothing is skipped without a trace.
 */
module LegacyApp {
  import opened Options
  import opened Numbers
  import opened Text
  import opened Inputs

  /** One converted page; the error slot exists in the type but nothing ever fills it. */
  datatype PageResult = PageResult(pageNumber: nat, objectUrl: Option<string>, error: Option<string>)

  datatype Session = Session(name: string, pageCount: nat, uploadProgress: JsNumber, pages: seq<PageResult>)

  type State = Option<Session>

  /** Nothing has been loaded into the session yet. */
  predicate Untouched(s: Session)
  {
    s.pageCount == 0 && s.pages == []
  }

  /**
   What this version's loop guarantees: page numbers strictly increase and lie
   in 1..pageCount, and every page has an image URL and no error. Gaps are
   allowed, so there may be fewer pages than `pageCount`.
   */
  predicate WellFormed(s: Session)
  {
    && |s.pages| <= s.pageCount
    && (forall i :: 0 <= i < |s.pages| ==>
         && 1 <= s.pages[i].pageNumber <= s.pageCount
         && s.pages[i].objectUrl.Some?
         && s.pages[i].error.None?)
    && forall i, j :: 0 <= i < j < |s.pages| ==> s.pages[i].pageNumber < s.pages[j].pageNumber
  }

  /** What the input-change handler did: the new state, whether a read started, whether it alerted. */
  datatype Upload = Upload(state: State, readStarted: bool, alerted: bool)

  /**
   `handlePDFUpload`: ignore an empty selection or a missing canvas; alert on a
   declared non-PDF and leave the state alone; otherwise start a session and
   the read.
   */
  function OnInputChange(st: State, files: Option<seq<File>>, canvasMounted: bool): (u: Upload)
    ensures files.None? || files.value == [] || !canvasMounted ==> u == Upload(st, false, false)
    ensures u.alerted <==>
      files.Some? && files.value != [] && canvasMounted && DeclaredNonPdf(files.value[0].mimeType)
    ensures u.alerted ==> u.state == st && !u.readStarted
    ensures u.readStarted <==>
      files.Some? && files.value != [] && canvasMounted && !DeclaredNonPdf(files.value[0].mimeType)
    ensures u.readStarted ==>
      && u.state.Some?
      && Untouched(u.state.value)
      && u.state.value.uploadProgress == Finite(0.0)
      && u.state.value.name == DerivedName(files.value[0].name)
  {
    if files.None? || |files.value| < 1 || !canvasMounted then Upload(st, false, false)
    else
      var file := files.value[0];
      if DeclaredNonPdf(file.mimeType) then Upload(st, false, true)
      else Upload(Some(Session(DerivedName(file.name), 0, Finite(0.0), [])), true, false)
  }

  /** The reader's `progress` handler: only a computable length moves the upload fraction. */
  function OnProgress(s: Session, ev: ProgressEvent): (s': Session)
    ensures s'.(uploadProgress := s.uploadProgress) == s
    ensures ev.lengthComputable ==> s'.uploadProgress == Div(ev.loaded as real, ev.total as real)
    ensures !ev.lengthComputable ==> s' == s
  {
    if ev.lengthComputable then s.(uploadProgress := Div(ev.loaded as real, ev.total as real)) else s
  }

  /** The number of pages before the loop stops: a rejected fetch or render ends it. */
  function FirstStop(outcomes: seq<PageOutcome>): (k: nat)
    ensures k <= |outcomes|
    ensures forall i :: 0 <= i < k ==> outcomes[i].NoPng? || outcomes[i].Png?
    ensures k < |outcomes| ==> outcomes[k].PageMissing? || outcomes[k].RenderThrew?
  {
    if outcomes == [] || outcomes[0].PageMissing? || outcomes[0].RenderThrew? then 0
    else 1 + FirstStop(outcomes[1..])
  }

  /** How many of the outcomes are encoded pages. */
  function CountPng(outcomes: seq<PageOutcome>): (n: nat)
    ensures n <= |outcomes|
  {
    if outcomes == [] then 0
    else (if outcomes[0].Png? then 1 else 0) + CountPng(outcomes[1..])
  }

  /** Every outcome counts exactly when every outcome is an encoded page. */
  lemma {:induction false} CountPngAll(outcomes: seq<PageOutcome>)
    ensures CountPng(outcomes) == |outcomes| <==> forall i :: 0 <= i < |outcomes| ==> outcomes[i].Png?
  {
    if outcomes != [] {
      CountPngAll(outcomes[1..]);
      assert forall i :: 1 <= i < |outcomes| ==> outcomes[i] == outcomes[1..][i - 1];
    }
  }

  lemma CountPngStep(outcomes: seq<PageOutcome>, k: nat)
    requires 0 < k <= |outcomes|
    ensures CountPng(outcomes[..k]) == (if outcomes[0].Png? then 1 else 0) + CountPng(outcomes[1..][..k - 1])
  {
    assert outcomes[..k][1..] == outcomes[1..][..k - 1];
  }

  /**
   The page loop from page `pageNumber` on: an encoded page is appended with
   its URL, an unencodable one is skipped, and a rejected fetch or render ends
   the loop.
   */
  function RunPages(s: Session, outcomes: seq<PageOutcome>, pageNumber: nat): (s': Session)
    ensures s'.(pages := s.pages) == s
    ensures |s.pages| <= |s'.pages| && s'.pages[..|s.pages|] == s.pages
    ensures |s'.pages| == |s.pages| + CountPng(outcomes[..FirstStop(outcomes)])
    decreases |outcomes|
  {
    if outcomes == [] || outcomes[0].PageMissing? || outcomes[0].RenderThrew? then s
    else
      var next := if outcomes[0].Png? then s.(pages := s.pages + [Encoded(pageNumber, outcomes[0])]) else s;
      var r := RunPages(next, outcomes[1..], pageNumber + 1);
      CountPngStep(outcomes, FirstStop(outcomes));
      assert r.pages[..|s.pages|] == next.pages[..|next.pages|][..|s.pages|];
      r
  }

  /** The page this version records for an encoded outcome. */
  function Encoded(pageNumber: nat, o: PageOutcome): PageResult
    requires o.Png?
  {
    PageResult(pageNumber, Some(o.url), None)
  }

  /**
   Each page from index `from` of `r` on is an encoded page of `outcomes`
   (numbered from `pageNumber`), numbered within the first `reached` pages,
   and the numbers strictly increase.
   */
  predicate AppendsEncoded(r: Session, from: nat, outcomes: seq<PageOutcome>, pageNumber: nat, reached: nat)
    requires reached <= |outcomes|
  {
    && (forall i :: from <= i < |r.pages| ==>
         && pageNumber <= r.pages[i].pageNumber < pageNumber + reached
         && outcomes[r.pages[i].pageNumber - pageNumber].Png?
         && r.pages[i] == Encoded(r.pages[i].pageNumber, outcomes[r.pages[i].pageNumber - pageNumber]))
    && forall i, j :: from <= i < j < |r.pages| ==> r.pages[i].pageNumber < r.pages[j].pageNumber
  }

  /** Renumbering against the whole outcome list a claim made about its tail. */
  lemma AppendsEncodedShift(r: Session, from: nat, outcomes: seq<PageOutcome>, pageNumber: nat)
    requires outcomes != [] && !outcomes[0].PageMissing? && !outcomes[0].RenderThrew?
    requires AppendsEncoded(r, from, outcomes[1..], pageNumber + 1, FirstStop(outcomes[1..]))
    ensures AppendsEncoded(r, from, outcomes, pageNumber, FirstStop(outcomes))
    ensures forall i :: from <= i < |r.pages| ==> pageNumber < r.pages[i].pageNumber
  {
    var tail := outcomes[1..];
    forall i | from <= i < |r.pages|
      ensures outcomes[r.pages[i].pageNumber - pageNumber] == tail[r.pages[i].pageNumber - (pageNumber + 1)]
    {
    }
  }

  /** Extending the claim by one encoded page in front of pages numbered after it. */
  lemma AppendsEncodedCons(r: Session, from: nat, outcomes: seq<PageOutcome>, pageNumber: nat, reached: nat)
    requires 0 < reached <= |outcomes| && outcomes[0].Png?
    requires from < |r.pages| && r.pages[from] == Encoded(pageNumber, outcomes[0])
    requires AppendsEncoded(r, from + 1, outcomes, pageNumber, reached)
    requires forall i :: from + 1 <= i < |r.pages| ==> pageNumber < r.pages[i].pageNumber
    ensures AppendsEncoded(r, from, outcomes, pageNumber, reached)
  {
  }

  /** What the loop appends are encoded pages it reached, in increasing page order. */
  lemma {:induction false} RunPagesAppendsEncoded(s: Session, outcomes: seq<PageOutcome>, pageNumber: nat)
    ensures AppendsEncoded(RunPages(s, outcomes, pageNumber), |s.pages|, outcomes, pageNumber, FirstStop(outcomes))
    decreases |outcomes|
  {
    if outcomes == [] || outcomes[0].PageMissing? || outcomes[0].RenderThrew? {
    } else if outcomes[0].Png? {
      var next := s.(pages := s.pages + [Encoded(pageNumber, outcomes[0])]);
      RunPagesAppendsEncoded(next, outcomes[1..], pageNumber + 1);
      var r := RunPages(next, outcomes[1..], pageNumber + 1);
      assert r == RunPages(s, outcomes, pageNumber);
      AppendsEncodedShift(r, |s.pages| + 1, outcomes, pageNumber);
      assert r.pages[|s.pages|] == next.pages[|s.pages|];
      AppendsEncodedCons(r, |s.pages|, outcomes, pageNumber, FirstStop(outcomes));
    } else {
      RunPagesAppendsEncoded(s, outcomes[1..], pageNumber + 1);
      AppendsEncodedShift(RunPages(s, outcomes[1..], pageNumber + 1), |s.pages|, outcomes, pageNumber);
    }
  }

  /**
   The reader's `load` handler: without a canvas, or when the engine cannot
   open the bytes (an unhandled rejection), nothing changes; otherwise the page
   count is set and the page loop runs.
   */
  function OnLoad(s: Session, canvasMounted: bool, open: OpenOutcome): (s': Session)
    ensures !canvasMounted || open.OpenFailed? ==> s' == s
    ensures canvasMounted && open.Opened? ==>
      && s'.pageCount == open.doc.NumPages()
      && s'.(pages := s.pages, pageCount := s.pageCount) == s
      && |s.pages| <= |s'.pages|
      && s'.pages[..|s.pages|] == s.pages
  {
    if !canvasMounted then s
    else match open
      case OpenFailed => s
      case Opened(doc) => RunPages(s.(pageCount := doc.NumPages()), doc.outcomes, 1)
  }

  /** `restart`: the session is dropped. */
  function Restart(st: State): (st': State)
    ensures st'.None?
  {
    None
  }

  /** In a well-formed session page `i` carries at least number `i + 1`: numbers start at 1 and strictly increase. */
  lemma {:induction false} NumberAtLeast(s: Session, i: nat)
    requires WellFormed(s) && i < |s.pages|
    ensures s.pages[i].pageNumber >= i + 1
    decreases i
  {
    if i > 0 {
      NumberAtLeast(s, i - 1);
    }
  }

  /** ... and at most `pageCount` less the number of pages after it. */
  lemma {:induction false} NumberAtMost(s: Session, i: nat)
    requires WellFormed(s) && i < |s.pages|
    ensures s.pages[i].pageNumber + (|s.pages| - 1 - i) <= s.pageCount
    decreases |s.pages| - i
  {
    if i + 1 < |s.pages| {
      NumberAtMost(s, i + 1);
    }
  }

  /** A well-formed session with as many pages as the document has skipped none: page `i + 1` sits at position `i`. */
  lemma NoPageSkipped(s: Session)
    requires WellFormed(s) && |s.pages| == s.pageCount
    ensures forall i :: 0 <= i < s.pageCount ==> s.pages[i].pageNumber == i + 1
  {
    forall i | 0 <= i < |s.pages|
      ensures s.pages[i].pageNumber == i + 1
    {
      NumberAtLeast(s, i);
      NumberAtMost(s, i);
    }
  }

  /**
   The Reset button is rendered exactly when there are as many pages as the
   page count. For a well-formed session that means every page of the document
   was encoded and none was skipped: page `i + 1` sits at position `i`.
   */
  function ResetShown(st: State): (shown: bool)
    ensures shown <==> st.Some? && |st.value.pages| == st.value.pageCount
    ensures shown && WellFormed(st.value) ==>
      forall i :: 0 <= i < st.value.pageCount ==> st.value.pages[i].pageNumber == i + 1
  {
    var shown := st.Some? && |st.value.pages| == st.value.pageCount;
    if shown && WellFormed(st.value) then NoPageSkipped(st.value); shown else shown
  }

  /** `progressValue`: 0 without a session, else the weighted upload and page fractions. */
  function ProgressValue(st: State): (v: JsNumber)
    ensures st.None? ==> v == Finite(0.0)
    ensures st.Some? ==> (v.Finite? <==> st.value.uploadProgress.Finite? && st.value.pageCount > 0)
    ensures st.Some? && v.Finite? ==>
      v.value == st.value.uploadProgress.value * UploadWeight
                 + (|st.value.pages| as real / st.value.pageCount as real) * PagesWeight
  {
    match st
    case None => Finite(0.0)
    case Some(s) => WeightedProgress(s.uploadProgress, |s.pages|, s.pageCount)
  }

  // ---------------------------------------------------------------------------
  // Properties of the whole conversion
  // ---------------------------------------------------------------------------

  /**
   Converting a document into a session nothing has been loaded into: the page
   count is the document's, the pages are the encoded pages before the first
   rejected fetch or render, with strictly increasing numbers, each with a URL
   and no error.
   */
  lemma ConvertDocument(s: Session, doc: Document)
    requires Untouched(s)
    ensures var r := OnLoad(s, true, Opened(doc));
      && WellFormed(r)
      && r.pageCount == doc.NumPages()
      && |r.pages| == CountPng(doc.outcomes[..FirstStop(doc.outcomes)])
  {
    var start := s.(pageCount := doc.NumPages());
    RunPagesAppendsEncoded(start, doc.outcomes, 1);
    var r := RunPages(start, doc.outcomes, 1);
    assert r == OnLoad(s, true, Opened(doc));
  }

  /**
   The Reset button appears after a conversion exactly when every page of the
   document was encoded: one skipped page or one rejected render hides it.
   */
  lemma ResetShownIffAllEncoded(s: Session, doc: Document)
    requires Untouched(s)
    ensures ResetShown(Some(OnLoad(s, true, Opened(doc)))) <==>
      forall i :: 0 <= i < |doc.outcomes| ==> doc.outcomes[i].Png?
  {
    var o := doc.outcomes;
    var k := FirstStop(o);
    CountPngAll(o[..k]);
    if k == |o| {
      assert o[..k] == o;
    }
  }

  /** After a skipped page no later upload-progress event brings the Reset button back. */
  lemma SkippedPageHidesReset(s: Session, doc: Document, i: nat, ev: ProgressEvent)
    requires Untouched(s)
    requires i < |doc.outcomes| && doc.outcomes[i].NoPng?
    ensures !ResetShown(Some(OnLoad(s, true, Opened(doc))))
    ensures !ResetShown(Some(OnProgress(OnLoad(s, true, Opened(doc)), ev)))
  {
    ResetShownIffAllEncoded(s, doc);
  }

  /**
   After a skipped page the progress bar never reaches 100, whatever the
   upload fraction in [0, 1]: fewer pages than `pageCount` are ever recorded.
   */
  lemma SkippedPageKeepsProgressBelowHundred(s: Session, doc: Document, i: nat)
    requires Untouched(s)
    requires s.uploadProgress.Finite? && 0.0 <= s.uploadProgress.value <= 1.0
    requires i < |doc.outcomes| && doc.outcomes[i].NoPng?
    ensures var v := ProgressValue(Some(OnLoad(s, true, Opened(doc))));
      v.Finite? && v.value < 100.0
  {
    var r := OnLoad(s, true, Opened(doc));
    ResetShownIffAllEncoded(s, doc);
    ConvertDocument(s, doc);
    WeightedProgressBelowHundred(s.uploadProgress.value, |r.pages|, r.pageCount);
  }

  /** Upload-progress events keep a well-formed session well-formed. */
  lemma ProgressKeepsWellFormed(s: Session, ev: ProgressEvent)
    requires WellFormed(s)
    ensures WellFormed(OnProgress(s, ev))
  {
  }
}
