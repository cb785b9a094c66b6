/**
 The PDF-to-PNG converter (the newest version, `src/pdftopng.tsx`).

 The component's state is either no session or one session. Every handler
 replaces the session with a new value derived from the previous one, so each
 handler is a pure function here. The page loop runs, one page at a time, over
 the outcomes the PDF engine and the PNG encoder produced for the document.
 */
module Converter {
  import opened Options
  import opened Numbers
  import opened Text
  import opened Seqs
  import opened Inputs

  /** Document-level failures: the declared type is wrong, or the PDF engine cannot open the bytes. */
  datatype DocError = NotPdf | InvalidPdf

  /** Page-level failures: rendering rejected, or the canvas yielded no PNG. */
  datatype PageError = RenderFailed | PngFailed

  /** One converted (or failed) page. */
  datatype PageResult = PageResult(
    pageNumber: nat,
    blob: Option<Blob>,
    objectUrl: Option<string>,
    size: nat,
    error: Option<PageError>)

  /** The conversion of one uploaded file. */
  datatype Session = Session(
    name: string,
    pageCount: nat,
    uploadProgress: JsNumber,
    error: Option<DocError>,
    pages: seq<PageResult>)

  type State = Option<Session>

  /** Exactly one of image and error: an image comes with its URL and its size, an error with neither and size 0. */
  predicate Settled(p: PageResult)
  {
    || (p.blob.Some? && p.objectUrl.Some? && p.size == p.blob.value.size && p.error.None?)
    || (p.blob.None? && p.objectUrl.None? && p.size == 0 && p.error.Some?)
  }

  /** Nothing has been loaded into the session yet (only the upload progress may have moved). */
  predicate Untouched(s: Session)
  {
    s.pageCount == 0 && s.pages == [] && s.error.None?
  }

  /**
   What conversion leaves behind: no more pages than the document has, page
   `i + 1` at position `i`, and every page settled.
   */
  predicate WellFormed(s: Session)
  {
    && |s.pages| <= s.pageCount
    && forall i :: 0 <= i < |s.pages| ==> s.pages[i].pageNumber == i + 1 && Settled(s.pages[i])
  }

  /** `handlePDFFile`: the session a newly accepted file starts. */
  function NewSession(file: File): (s: Session)
    ensures Untouched(s) && WellFormed(s)
    ensures s.uploadProgress == Finite(0.0)
    ensures '.' !in file.name ==> s.name == ""
    ensures s.name == DerivedName(file.name)
  {
    Session(DerivedName(file.name), 0, Finite(0.0), None, [])
  }

  /**
   The live upload path: the drop zone hands over the files that passed its
   type filter and the first one is converted. With an empty list `files[0]`
   is undefined and reading its name throws before the state is set, so the
   state stays as it was.
   */
  function OnFiles(st: State, files: seq<File>): (st': State)
    ensures files == [] ==> st' == st
    ensures files != [] ==> st' == Some(NewSession(files[0]))
  {
    if files == [] then st else Some(NewSession(files[0]))
  }

  /** What an input-change handler did: the new state, and whether a file read was started. */
  datatype Upload = Upload(state: State, readStarted: bool)

  /**
   `handlePDFUpload`: ignore an empty selection or a missing canvas; refuse a
   declared non-PDF with a session that carries the error; otherwise start the
   session and the read.
   */
  function OnInputChange(st: State, files: Option<seq<File>>, canvasMounted: bool): (u: Upload)
    ensures files.None? || files.value == [] || !canvasMounted ==> u == Upload(st, false)
    ensures u.readStarted <==>
      files.Some? && files.value != [] && canvasMounted && !DeclaredNonPdf(files.value[0].mimeType)
    ensures u.readStarted ==> u.state == Some(NewSession(files.value[0]))
    ensures files.Some? && files.value != [] && canvasMounted && DeclaredNonPdf(files.value[0].mimeType) ==>
      && u.state.Some?
      && u.state.value.error == Some(NotPdf)
      && u.state.value.pageCount == 0
      && u.state.value.pages == []
      && u.state.value.name == DerivedName(files.value[0].name)
  {
    if files.None? || |files.value| < 1 || !canvasMounted then Upload(st, false)
    else
      var file := files.value[0];
      if DeclaredNonPdf(file.mimeType) then
        Upload(Some(Session(DerivedName(file.name), 0, Finite(0.0), Some(NotPdf), [])), false)
      else
        Upload(Some(NewSession(file)), true)
  }

  /** The reader's `progress` handler: only a computable length moves the upload fraction. */
  function OnProgress(s: Session, ev: ProgressEvent): (s': Session)
    ensures s'.(uploadProgress := s.uploadProgress) == s
    ensures ev.lengthComputable ==> s'.uploadProgress == Div(ev.loaded as real, ev.total as real)
    ensures !ev.lengthComputable ==> s' == s
  {
    if ev.lengthComputable then s.(uploadProgress := Div(ev.loaded as real, ev.total as real)) else s
  }

  /** The result recorded for page `pageNumber` when fetching it did not reject. */
  function ConvertedPage(pageNumber: nat, o: PageOutcome): (p: PageResult)
    requires !o.PageMissing?
    ensures Settled(p) && p.pageNumber == pageNumber
    ensures p.blob.Some? <==> o.Png?
    ensures o.Png? ==> p.blob == Some(o.blob) && p.size == o.blob.size && p.objectUrl == Some(o.url)
    ensures o.RenderThrew? ==> p.error == Some(RenderFailed)
    ensures o.NoPng? ==> p.error == Some(PngFailed)
  {
    match o
    case Png(blob, url) => PageResult(pageNumber, Some(blob), Some(url), blob.size, None)
    case RenderThrew => PageResult(pageNumber, None, None, 0, Some(RenderFailed))
    case NoPng => PageResult(pageNumber, None, None, 0, Some(PngFailed))
  }

  /** The number of pages before the first one whose fetch rejected (all of them if none did). */
  function FirstMissing(outcomes: seq<PageOutcome>): (k: nat)
    ensures k <= |outcomes|
    ensures forall i :: 0 <= i < k ==> !outcomes[i].PageMissing?
    ensures k < |outcomes| ==> outcomes[k].PageMissing?
  {
    if outcomes == [] || outcomes[0].PageMissing? then 0
    else 1 + FirstMissing(outcomes[1..])
  }

  /**
   The page loop from page `pageNumber` on: each page appends one result, a
   failed render or encode included; a rejected fetch ends the loop.
   */
  function RunPages(s: Session, outcomes: seq<PageOutcome>, pageNumber: nat): (s': Session)
    ensures s'.(pages := s.pages) == s
    ensures |s'.pages| == |s.pages| + FirstMissing(outcomes)
    ensures s'.pages[..|s.pages|] == s.pages
    ensures forall i :: 0 <= i < FirstMissing(outcomes) ==>
      s'.pages[|s.pages| + i] == ConvertedPage(pageNumber + i, outcomes[i])
    decreases |outcomes|
  {
    if outcomes == [] || outcomes[0].PageMissing? then s
    else
      var next := s.(pages := s.pages + [ConvertedPage(pageNumber, outcomes[0])]);
      var r := RunPages(next, outcomes[1..], pageNumber + 1);
      assert r.pages[..|s.pages|] == next.pages[..|next.pages|][..|s.pages|];
      assert forall i :: 1 <= i < FirstMissing(outcomes) ==>
        r.pages[|s.pages| + i] == r.pages[|next.pages| + (i - 1)] && outcomes[i] == outcomes[1..][i - 1];
      r
  }

  /**
   The reader's `load` handler: without a canvas nothing happens; a document
   the engine cannot open records `InvalidPdf`; otherwise the page count is set
   and the page loop runs.
   */
  function OnLoad(s: Session, canvasMounted: bool, open: OpenOutcome): (s': Session)
    ensures !canvasMounted ==> s' == s
    ensures canvasMounted && open.OpenFailed? ==> s' == s.(error := Some(InvalidPdf))
    ensures canvasMounted && open.Opened? ==>
      && s'.pageCount == open.doc.NumPages()
      && s'.(pages := s.pages, pageCount := s.pageCount) == s
      && |s.pages| <= |s'.pages|
      && s'.pages[..|s.pages|] == s.pages
  {
    if !canvasMounted then s
    else match open
      case OpenFailed => s.(error := Some(InvalidPdf))
      case Opened(doc) => RunPages(s.(pageCount := doc.NumPages()), doc.outcomes, 1)
  }

  /** Reset from the progress bar, which asks for confirmation first. */
  function OnProgressClick(st: State, confirmed: bool): (st': State)
    ensures st' == st || st' == None
    ensures st' == None <==> st == None || confirmed
  {
    if st.Some? && confirmed then None else st
  }

  /** The Reset button: the session is dropped. */
  function Reset(st: State): (st': State)
    ensures st'.None?
  {
    None
  }

  /**
   Reset and Download-all are offered whenever there are as many pages as the
   page count and no document error was recorded. After a conversion that
   means every page number of the document has its result, and with the upload
   finished the bar reads 100; a session that has not read its document yet
   (count 0, no pages) shows them too.
   */
  function ControlsShown(st: State): (shown: bool)
    ensures shown <==> st.Some? && st.value.error.None? && |st.value.pages| == st.value.pageCount
    ensures shown && WellFormed(st.value) ==>
      && |st.value.pages| == st.value.pageCount
      && forall i :: 0 <= i < st.value.pageCount ==> st.value.pages[i].pageNumber == i + 1
    ensures shown && st.value.pageCount > 0 && st.value.uploadProgress == Finite(1.0) ==>
      WeightedProgress(st.value.uploadProgress, |st.value.pages|, st.value.pageCount) == Finite(100.0)
  {
    var shown := st.Some? && st.value.error.None? && |st.value.pages| == st.value.pageCount;
    if shown && st.value.pageCount > 0 then WeightedProgressComplete(st.value.pageCount); shown else shown
  }

  /** `progressValue`: 0 without a session, else the weighted upload and page fractions. */
  function ProgressValue(st: State): (v: JsNumber)
    ensures st.None? ==> v == Finite(0.0)
    ensures st.Some? ==> (v.Finite? <==> st.value.uploadProgress.Finite? && st.value.pageCount > 0)
    ensures st.Some? && v.Finite? ==>
      v.value == st.value.uploadProgress.value * UploadWeight
                 + (|st.value.pages| as real / st.value.pageCount as real) * PagesWeight
  {
    match st
    case None => Finite(0.0)
    case Some(s) => WeightedProgress(s.uploadProgress, |s.pages|, s.pageCount)
  }

  /** One file of the ZIP archive. */
  datatype Entry = Entry(path: string, blob: Blob)

  /** The archive `downloadAll` builds and saves, as its file name and entry list. */
  datatype Archive = Archive(fileName: string, entries: seq<Entry>)

  /** `{name}-page-{n}.png` */
  function EntryPath(name: string, pageNumber: nat): string
  {
    name + "-page-" + NatToString(pageNumber) + ".png"
  }

  /** The archive entry a page contributes: only an error-free page with an image has one. */
  function PageEntry(name: string, p: PageResult): (e: Option<Entry>)
    ensures e.Some? <==> p.error.None? && p.blob.Some?
    ensures e.Some? ==> e.value == Entry(EntryPath(name, p.pageNumber), p.blob.value)
  {
    if p.error.None? && p.blob.Some? then Some(Entry(EntryPath(name, p.pageNumber), p.blob.value))
    else None
  }

  /** `PageEntry` for a fixed document name, as the selector the archive applies to every page. */
  function EntrySelector(name: string): PageResult -> Option<Entry>
  {
    p => PageEntry(name, p)
  }

  /** Different page numbers give different entry paths. */
  lemma EntryPathInjective(name: string, m: nat, n: nat)
    ensures EntryPath(name, m) == EntryPath(name, n) ==> m == n
  {
    if EntryPath(name, m) == EntryPath(name, n) {
      SameFrame(name + "-page-", NatToString(m), NatToString(n), ".png");
      NatToStringInjective(m, n);
    }
  }

  /**
   The entries taken from `pages`: exactly the error-free pages with an image,
   each under its page's path.
   */
  lemma {:induction false} EntriesOfPages(name: string, pages: seq<PageResult>)
    ensures forall e :: e in FilterMap(EntrySelector(name), pages) <==>
      exists i :: 0 <= i < |pages| && pages[i].error.None? && pages[i].blob == Some(e.blob)
                  && e.path == EntryPath(name, pages[i].pageNumber)
  {
    forall e {
      FilterMapMember(EntrySelector(name), pages, e);
    }
  }

  /** In a well-formed session no two entries taken from the pages share a path, so none overwrites another. */
  lemma EntryPathsDistinct(s: Session)
    ensures WellFormed(s) ==> forall a, b :: 0 <= a < b < |FilterMap(EntrySelector(s.name), s.pages)| ==>
      FilterMap(EntrySelector(s.name), s.pages)[a].path != FilterMap(EntrySelector(s.name), s.pages)[b].path
  {
    if WellFormed(s) {
      var f := EntrySelector(s.name);
      var key := (e: Entry) => e.path;
      forall i, j | 0 <= i < j < |s.pages| && f(s.pages[i]).Some? && f(s.pages[j]).Some?
        ensures key(f(s.pages[i]).value) != key(f(s.pages[j]).value)
      {
        EntryPathInjective(s.name, i + 1, j + 1);
      }
      FilterMapDistinct(f, key, s.pages);
    }
  }

  /** `downloadAll`: nothing without a session, else `{name}-pages.zip` with the error-free pages in order. */
  function ZipArchive(st: State): (a: Option<Archive>)
    ensures a.None? <==> st.None?
    ensures a.Some? ==> a.value.fileName == st.value.name + "-pages.zip"
    ensures a.Some? ==> |a.value.entries| <= |st.value.pages|
    ensures a.Some? ==> forall e :: e in a.value.entries <==>
      exists i :: 0 <= i < |st.value.pages| && st.value.pages[i].error.None? && st.value.pages[i].blob == Some(e.blob)
                  && e.path == EntryPath(st.value.name, st.value.pages[i].pageNumber)
    ensures a.Some? && WellFormed(st.value) ==>
      forall x, y :: 0 <= x < y < |a.value.entries| ==> a.value.entries[x].path != a.value.entries[y].path
  {
    match st
    case None => None
    case Some(s) =>
      EntriesOfPages(s.name, s.pages);
      EntryPathsDistinct(s);
      Some(Archive(s.name + "-pages.zip", FilterMap(EntrySelector(s.name), s.pages)))
  }

  // ---------------------------------------------------------------------------
  // Properties of the whole conversion
  // ---------------------------------------------------------------------------

  /**
   Converting a document into a session nothing has been loaded into: the page
   count is the document's, page `i + 1` sits at position `i` and reflects that
   page's outcome, and every page is in exactly when no fetch rejected, however
   many renders or encodes failed.
   */
  lemma ConvertDocument(s: Session, doc: Document)
    requires Untouched(s)
    ensures var r := OnLoad(s, true, Opened(doc));
      && WellFormed(r)
      && r.pageCount == doc.NumPages()
      && r.error.None?
      && |r.pages| == FirstMissing(doc.outcomes)
      && (|r.pages| == r.pageCount <==> forall i :: 0 <= i < |doc.outcomes| ==> !doc.outcomes[i].PageMissing?)
      && (ControlsShown(Some(r)) <==> forall i :: 0 <= i < |doc.outcomes| ==> !doc.outcomes[i].PageMissing?)
      && forall i :: 0 <= i < |r.pages| ==> r.pages[i] == ConvertedPage(i + 1, doc.outcomes[i])
  {
    var r := OnLoad(s, true, Opened(doc));
    assert forall i :: 0 <= i < |r.pages| ==> r.pages[i] == ConvertedPage(i + 1, doc.outcomes[i]);
    assert forall i :: 0 <= i < |r.pages| ==> r.pages[i].pageNumber == i + 1 && Settled(r.pages[i]);
  }

  /** A document the engine cannot open leaves an error, no page count and no pages. */
  lemma OpenFailureLeavesNoPages(s: Session)
    requires Untouched(s)
    ensures var r := OnLoad(s, true, OpenFailed);
      r.error == Some(InvalidPdf) && r.pageCount == 0 && r.pages == [] && !ControlsShown(Some(r))
  {
  }

  /** Every transition keeps a well-formed session well-formed. */
  lemma TransitionsKeepWellFormed(s: Session, ev: ProgressEvent, open: OpenOutcome, canvasMounted: bool)
    requires WellFormed(s)
    ensures WellFormed(OnProgress(s, ev))
    ensures Untouched(s) ==> WellFormed(OnLoad(s, canvasMounted, open))
  {
    if Untouched(s) && canvasMounted && open.Opened? {
      ConvertDocument(s, open.doc);
    }
  }

  /** The controls already appear on a new session, during the upload and before any document is read. */
  lemma ControlsShownDuringUpload(file: File, ev: ProgressEvent)
    ensures ControlsShown(Some(NewSession(file)))
    ensures ControlsShown(Some(OnProgress(NewSession(file), ev)))
  {
  }

  /** A session created after a reset does not depend on anything the previous session held. */
  lemma FreshStartAfterReset(st: State, files: seq<File>)
    requires files != []
    ensures OnFiles(Reset(st), files) == OnFiles(st, files) == OnFiles(None, files)
    ensures var s := OnFiles(st, files).value; Untouched(s) && s.uploadProgress == Finite(0.0)
  {
  }

  /** Upload complete and every page in: the bar shows exactly 100. */
  lemma ProgressReachesHundred(s: Session, ev: ProgressEvent)
    requires |s.pages| == s.pageCount > 0
    requires ev.lengthComputable && ev.loaded == ev.total > 0
    ensures ProgressValue(Some(OnProgress(s, ev))) == Finite(100.0)
  {
    WeightedProgressComplete(s.pageCount);
  }

  /** With the upload fraction in [0, 1] a well-formed session's progress stays in [0, 100]. */
  lemma ProgressInRange(s: Session)
    requires WellFormed(s) && s.pageCount > 0
    requires s.uploadProgress.Finite? && 0.0 <= s.uploadProgress.value <= 1.0
    ensures var v := ProgressValue(Some(s)); v.Finite? && 0.0 <= v.value <= 100.0
  {
    WeightedProgressBounds(s.uploadProgress.value, |s.pages|, s.pageCount);
  }

  /** The entries a run over `outcomes` from page `n` yields: one per encoded page, in page order. */
  function PngEntries(name: string, outcomes: seq<PageOutcome>, n: nat): seq<Entry>
    decreases |outcomes|
  {
    if outcomes == [] then []
    else
      (if outcomes[0].Png? then [Entry(EntryPath(name, n), outcomes[0].blob)] else [])
      + PngEntries(name, outcomes[1..], n + 1)
  }

  lemma {:induction false} EntriesOfConvertedPages(name: string, pages: seq<PageResult>, outcomes: seq<PageOutcome>, n: nat)
    requires |pages| == |outcomes|
    requires forall i :: 0 <= i < |outcomes| ==> !outcomes[i].PageMissing?
    requires forall i :: 0 <= i < |pages| ==> pages[i] == ConvertedPage(n + i, outcomes[i])
    ensures FilterMap(EntrySelector(name), pages) == PngEntries(name, outcomes, n)
    decreases |outcomes|
  {
    if outcomes != [] {
      assert forall i :: 0 <= i < |pages[1..]| ==> pages[1..][i] == ConvertedPage(n + 1 + i, outcomes[1..][i]);
      EntriesOfConvertedPages(name, pages[1..], outcomes[1..], n + 1);
    }
  }

  /**
   The archive of a converted document holds exactly the pages that were
   encoded, in page order, each under `{name}-page-{n}.png`; failed pages are
   left out.
   */
  lemma ArchiveOfConversion(s: Session, doc: Document)
    requires Untouched(s)
    ensures var r := OnLoad(s, true, Opened(doc));
      ZipArchive(Some(r)) == Some(Archive(s.name + "-pages.zip",
        PngEntries(s.name, doc.outcomes[..FirstMissing(doc.outcomes)], 1)))
  {
    var r := OnLoad(s, true, Opened(doc));
    ConvertDocument(s, doc);
    var k := FirstMissing(doc.outcomes);
    var prefix := doc.outcomes[..k];
    assert forall i :: 0 <= i < |r.pages| ==> r.pages[i] == ConvertedPage(1 + i, prefix[i]);
    EntriesOfConvertedPages(s.name, r.pages, prefix, 1);
    assert ZipArchive(Some(r)).value.entries == FilterMap(EntrySelector(s.name), r.pages);
  }

  /** The entries of the outcomes [encoded, render failed, encoded]: pages 1 and 3. */
  lemma ThreePagesEntries(name: string, b1: Blob, b3: Blob, u1: string, u3: string)
    ensures PngEntries(name, [Png(b1, u1), RenderThrew, Png(b3, u3)], 1) ==
      [Entry(name + "-page-1.png", b1), Entry(name + "-page-3.png", b3)]
  {
    var o := [Png(b1, u1), RenderThrew, Png(b3, u3)];
    assert NatToString(1) == "1" && NatToString(3) == "3";
    assert o[1..][1..][1..] == [];
    assert PngEntries(name, o[1..][1..], 3) == [Entry(EntryPath(name, 3), b3)];
    assert PngEntries(name, o[1..], 2) == [Entry(EntryPath(name, 3), b3)];
    assert EntryPath(name, 1) == name + "-page-1.png";
    assert EntryPath(name, 3) == name + "-page-3.png";
  }

  /** A three-page document whose middle page fails to render gives three pages and a two-entry archive. */
  lemma ThreePagesOneFailure(s: Session, b1: Blob, b3: Blob, u1: string, u3: string)
    requires Untouched(s)
    ensures var r := OnLoad(s, true, Opened(Document([Png(b1, u1), RenderThrew, Png(b3, u3)])));
      && |r.pages| == 3 && r.pageCount == 3 && ControlsShown(Some(r))
      && r.pages[1].error == Some(RenderFailed)
      && ZipArchive(Some(r)).value.entries ==
        [Entry(s.name + "-page-1.png", b1), Entry(s.name + "-page-3.png", b3)]
  {
    var doc := Document([Png(b1, u1), RenderThrew, Png(b3, u3)]);
    assert FirstMissing(doc.outcomes) == 3;
    assert doc.outcomes[..3] == doc.outcomes;
    ConvertDocument(s, doc);
    ArchiveOfConversion(s, doc);
    ThreePagesEntries(s.name, b1, b3, u1, u3);
  }
}
