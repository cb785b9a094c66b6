# PDF → PNGs converter, modelled in Dafny

This project models the core of a browser tool that turns an uploaded PDF into
one PNG per page, shows the pages as downloadable thumbnails and bundles them
into a ZIP archive. The PDF engine (pdf.js), the canvas, the PNG encoder, the
file reader, object URLs and the ZIP library are foreign calls. Here they are
plain inputs: a document is a sequence of per-page outcomes, and the archive
is its list of entries.

What is modelled:

- **`Converter`**, from `src/pdftopng.tsx`, the newest version. The state is
  `Option<Session>`. A session holds the name, the page count, the upload
  fraction, the document error and the pages. Every handler is a pure function
  from one session value to the next: accept a file, refuse a declared
  non-PDF, a progress event, open failure or success, the page loop, reset.
  The page loop is a fold over the outcomes
  `PageMissing | RenderThrew | NoPng | Png(blob, url)`. `PageMissing` is a
  rejected `getPage`, which sits outside the `try` and so ends the loop. A
  failed render or encode records an error page and the loop carries on. The
  module also covers the ZIP entry selection and naming, the progress formula,
  and the condition for showing the Reset/Download-all controls.
- **`LegacyApp`**, from `src/app.tsx`, the earlier version. Its session has
  no document error. A declared non-PDF only raises an alert. A document that
  fails to open, and a render that fails, are unhandled rejections. A page
  whose PNG is null is skipped. So the page numbers only increase strictly,
  and the Reset button (shown when `pages.length == pageCount`) never comes
  back after one skipped page.
- **`FileSelector`**, from `src/components/FileSelector.tsx`. It covers drop
  collection from the item list or the file list, the exact-type filter, the
  unfiltered input-change path, and the two-state drag flag.
- Supporting modules:
  - `Text`: JavaScript `lastIndexOf`, `substring` with its clamping and
    swapping, `endsWith`, and the decimal page number in a template string.
  - `Numbers`: finite or non-finite (NaN/Infinity) JavaScript numbers, and
    the weighted progress.
  - `ByteFormat`: `formatBytes`.
  - `Inputs`: files, blobs and page outcomes.
  - `Seqs`: order-preserving selection.
  - `Options`: the optional value.

Behaviours of the code worth knowing:

- A file-read failure is not handled anywhere (there is no `error` listener),
  so no I/O error exists in the model.
- The declared-type check sits only in `handlePDFUpload`, which no element
  uses. On the live path, the drop zone silently filters out non-PDF types,
  and `onFiles([])` then throws reading `files[0].name` before any state is
  set (`Converter.OnFiles`: state unchanged). A file picked through the drop
  zone's own input reaches `handlePDFFile` with no type check at all.
- Nothing guards against results that arrive after a reset.
- The Reset and Download-all controls (Reset alone in `src/app.tsx`) test
  only that the page list is as long as the page count (and, in
  `src/pdftopng.tsx`, that no document error was recorded). A new session has
  count 0 and no pages, so they show during the upload, before any document
  is read (`Converter.ControlsShownDuringUpload`).

## Model

| member | source | states |
|---|---|---|
| Text.LastIndexOf | src/pdftopng.tsx:51 | `lastIndexOf(".")` is -1 exactly when there is no dot; otherwise it is a dot with no dot after it |
| Text.Substring | src/pdftopng.tsx:51 | `substring` on in-range ordered indices is the slice; a non-positive end clamps to 0, so the result is the prefix up to the clamped start |
| Text.SubstringSwap | src/pdftopng.tsx:51 | `substring` does not depend on the order of its two indices |
| Text.LastIndexOfAppend | src/pdftopng.tsx:51 | appending dot-free text does not move the last dot |
| Text.DerivedName | src/pdftopng.tsx:51 | the session name is the prefix before the last dot, followed in the file name by that dot with no dot after it; it is "" when the name has no dot |
| Text.DerivedNameOfJoin | src/pdftopng.tsx:51 | a stem plus "." plus a dot-free extension derives back exactly the stem |
| Text.DerivedNameSplit | src/app.tsx:52 | a dotted file name is its derived name, a dot, and a dot-free extension |
| Text.EndsWithSplit | src/pdftopng.tsx:157 | `endsWith(suffix)` holds exactly when the string is some prefix followed by the suffix |
| Text.EndsWithJoin | src/pdftopng.tsx:157 | any string followed by a suffix ends with that suffix |
| Text.NatToString | src/pdftopng.tsx:179 | a page number in a template string is a non-empty run of decimal digits with no leading zero |
| Text.NatToStringRoundTrip | src/pdftopng.tsx:179 | parsing the decimal rendering of a page number gives the number back |
| Text.NatToStringInjective | src/pdftopng.tsx:179 | distinct page numbers render as distinct strings |
| Inputs.DeclaredNonPdf | src/pdftopng.tsx:157 | a file is refused exactly when its declared type is non-empty and is not something followed by "pdf" (the same test as src/app.tsx:46) |
| Inputs.DeclaredTypeCheck | src/pdftopng.tsx:157 | an empty declared type and any type ending in "pdf" pass; a type is refused exactly when it is non-empty and its last three characters are not "pdf" |
| Numbers.Div | src/pdftopng.tsx:133 | `loaded / total` is finite exactly when `total` is non-zero, and then multiplying back by `total` gives `loaded` |
| Numbers.WeightedProgress | src/pdftopng.tsx:186-188 | the progress is finite exactly when the upload fraction is finite and `pageCount > 0`, and then equals `upload*25 + (pages/pageCount)*75` |
| Numbers.WeightedProgressComplete | src/pdftopng.tsx:186-188 | with the upload at 1 and every page done, the progress is exactly 100 |
| Numbers.WeightedProgressBounds | src/pdftopng.tsx:186-188 | an upload fraction in [0,1] with at most `pageCount` pages gives progress in [0,100] |
| Numbers.WeightedProgressBelowHundred | src/app.tsx:133-135 | with a page still missing, an upload fraction in [0,1] gives progress strictly below 100 |
| Numbers.WeightedProgressMonotone | src/pdftopng.tsx:186-188 | one more page never lowers the progress |
| ByteFormat.ScaleDown | src/pdftopng.tsx:33-36 | the loop stops with the value in [0,1024), at least 1 once it divided, and value × 1024^count equal to the byte count |
| ByteFormat.LabelOf | src/pdftopng.tsx:37 | the count brackets the bytes, and one decimal is chosen exactly when the count is positive and the bytes are below 10 × 1024^count |
| ByteFormat.FormatBytes | src/pdftopng.tsx:32-39 | the unit index `l` satisfies `1024^l <= n < 1024^(l+1)` (with `l = 0` below 1024); `scaled * 1024^l == n`; scaled lies in [1,1024) above bytes; one decimal exactly when `l > 0` and `n < 10*1024^l`; the unit is `units[l]`, or "undefined" past the array |
| ByteFormat.UnitIndexUnique | src/pdftopng.tsx:32-39 | only one unit index brackets a byte count, so the chosen unit is determined by the count |
| Converter.NewSession | src/pdftopng.tsx:49-56 | a new session has nothing loaded, upload 0, and the name `substring(0, lastIndexOf("."))` gives: the file name up to its last dot, and the empty name when there is no dot (the `-1` clamps to 0) |
| Converter.OnFiles | src/pdftopng.tsx:198 | the drop zone's callback starts a new session for the first file; an empty list leaves the state unchanged |
| Converter.OnInputChange | src/pdftopng.tsx:141-169 | a read starts exactly when there is a file and a canvas and the declared type passes; a refused type yields a session with error `NotPdf`, page count 0 and no pages, and no read; no file or no canvas changes nothing |
| Converter.OnProgress | src/pdftopng.tsx:129-136 | only the upload fraction changes, to `loaded/total`, and only when the length is computable |
| Converter.ConvertedPage | src/pdftopng.tsx:96-119 | the recorded page is settled: an image with its URL and `size == blob.size` and no error, or an error with no image and size 0 |
| Converter.FirstMissing | src/pdftopng.tsx:83-84 | the number of pages before the first rejected `getPage` |
| Converter.RunPages | src/pdftopng.tsx:83-125 | the loop only appends: the old pages stay a prefix, one result per page is added up to the first rejected fetch, the i-th added is page `start+i`'s result, and no other field changes |
| Converter.OnLoad | src/pdftopng.tsx:60-80 | no canvas changes nothing; an unopenable document sets `InvalidPdf` and nothing else; an opened one sets `pageCount := numPages` and only appends pages |
| Converter.OnProgressClick | src/pdftopng.tsx:208-215 | clicking the bar clears the session exactly when one exists and the reset is confirmed |
| Converter.Reset | src/pdftopng.tsx:264 | the Reset button leaves no session |
| Converter.ControlsShown | src/pdftopng.tsx:260 | Reset and Download-all are shown exactly when there is a session with no document error whose page list is as long as its page count; for a well-formed session every page number 1..pageCount then has its result, and with the upload done the bar reads 100 |
| Converter.ProgressValue | src/pdftopng.tsx:186-188 | 0 with no session; otherwise finite exactly when upload is finite and `pageCount > 0`, and then the weighted sum |
| Converter.PageEntry | src/pdftopng.tsx:178-179 | a page contributes an entry exactly when it has no error and has a blob; the entry is `{name}-page-{n}.png` with that blob |
| Converter.EntryPathInjective | src/pdftopng.tsx:179 | different page numbers give different entry paths |
| Converter.ZipArchive | src/pdftopng.tsx:171-184 | no archive without a session; otherwise `{name}-pages.zip` with no more entries than pages; a value is an entry exactly when some error-free page has that blob and the entry sits under `{name}-page-{n}.png` for that page's number; and in a well-formed session no two entries share a path, so each qualifying page appears once |
| Converter.EntriesOfPages | src/pdftopng.tsx:177-181 | the archive loop keeps exactly the pages with no error and a blob, each under its page's path |
| Converter.ConvertDocument | src/pdftopng.tsx:67-125 | converting into a fresh session sets `pageCount` to the document's page count and makes page `i+1` sit at index `i` with that page's outcome; every page is settled; all pages arrive, and the controls appear, exactly when no fetch rejects, however many renders or encodes fail |
| Converter.OpenFailureLeavesNoPages | src/pdftopng.tsx:67-78 | an unopenable document leaves `InvalidPdf`, page count 0, no pages, and no controls |
| Converter.TransitionsKeepWellFormed | src/pdftopng.tsx:80-136 | progress events keep a session well-formed, and a load into a fresh session yields a well-formed one (page numbers 1..k in order, no more than `pageCount`, every page settled) |
| Converter.ControlsShownDuringUpload | src/pdftopng.tsx:260 | Reset and Download-all already show on a new session and after any upload-progress event, before a document is read |
| Converter.FreshStartAfterReset | src/pdftopng.tsx:49-56 | a new file after a reset starts the same fresh session as from any previous state |
| Converter.ProgressReachesHundred | src/pdftopng.tsx:186-188 | all pages in, and an upload event with `loaded == total`, give progress exactly 100 |
| Converter.ProgressInRange | src/pdftopng.tsx:186-188 | a well-formed session with upload in [0,1] shows progress in [0,100] |
| Converter.EntriesOfConvertedPages | src/pdftopng.tsx:177-181 | the entries of converted pages are the encoded outcomes, in page order, named by page number |
| Converter.ArchiveOfConversion | src/pdftopng.tsx:172-184 | a converted document's archive holds exactly its encoded pages, in page order, under `{name}-page-{n}.png`; failed pages are left out |
| Converter.EntryPathsDistinct | src/pdftopng.tsx:177-181 | in a well-formed session no two entries taken from the pages share a path, so no entry overwrites another |
| Converter.ThreePagesEntries | src/pdftopng.tsx:177-181 | the entries of [encoded, render failure, encoded] are those of pages 1 and 3, named `{name}-page-1.png` and `{name}-page-3.png` |
| Converter.ThreePagesOneFailure | src/pdftopng.tsx:83-184 | [encoded, render failure, encoded] gives three pages, the middle one an error, the controls shown, and an archive of pages 1 and 3 |
| LegacyApp.OnInputChange | src/app.tsx:33-57 | a refused declared type alerts and leaves the state as it was; otherwise, with a file and a canvas, a read starts with a fresh session named from the file |
| LegacyApp.OnProgress | src/app.tsx:113-122 | only the upload fraction changes, to `loaded/total`, and only when the length is computable |
| LegacyApp.FirstStop | src/app.tsx:75-97 | the number of pages before the first rejected `getPage` or `render` |
| LegacyApp.CountPng | src/app.tsx:99-101 | the number of encoded outcomes never exceeds the number of outcomes |
| LegacyApp.CountPngAll | src/app.tsx:99-101 | every outcome counts exactly when every outcome is an encoded page |
| LegacyApp.RunPages | src/app.tsx:75-109 | the loop only appends, and adds exactly as many pages as there are encoded outcomes before it stops |
| LegacyApp.RunPagesAppendsEncoded | src/app.tsx:88-108 | each appended page is an encoded page the loop reached, with its URL and no error, and page numbers strictly increase |
| LegacyApp.OnLoad | src/app.tsx:60-72 | no canvas, or an unopenable document, changes nothing; an opened one sets `pageCount` and only appends pages |
| LegacyApp.Restart | src/app.tsx:129-131 | restart leaves no session |
| LegacyApp.ProgressValue | src/app.tsx:133-135 | 0 with no session; otherwise finite exactly when upload is finite and `pageCount > 0`, and then the weighted sum |
| LegacyApp.ConvertDocument | src/app.tsx:60-109 | after conversion, page numbers strictly increase within 1..pageCount, every page has a URL and no error, and `pages.length` is the number of encoded pages before the stop, so never more than `pageCount` |
| LegacyApp.ResetShown | src/app.tsx:187-191 | the Reset button shows exactly when there is a session whose page list is as long as its page count; in a well-formed session that means no page was skipped: page `i + 1` sits at position `i` for every page of the document |
| LegacyApp.NoPageSkipped | src/app.tsx:187 | strictly increasing page numbers in 1..pageCount, as many as pageCount, are exactly 1, 2, ..., pageCount |
| LegacyApp.ResetShownIffAllEncoded | src/app.tsx:187-191 | the Reset button appears after conversion exactly when every page of the document was encoded |
| LegacyApp.SkippedPageHidesReset | src/app.tsx:99-101 | one page with a null PNG hides the Reset button, and later progress events do not bring it back |
| LegacyApp.SkippedPageKeepsProgressBelowHundred | src/app.tsx:133-135 | after one page with a null PNG, the progress value stays finite and below 100 |
| LegacyApp.ProgressKeepsWellFormed | src/app.tsx:113-122 | progress events keep the session well-formed |
| FileSelector.ItemFile | src/components/FileSelector.tsx:44-48 | an item yields a file exactly when its kind is "file" and `getAsFile()` is not null |
| FileSelector.CollectItems | src/components/FileSelector.tsx:40-50 | the loop collects, in item order, the files of "file" items with a non-null `getAsFile()` |
| FileSelector.CollectFiles | src/components/FileSelector.tsx:51-56 | the loop collects every entry of `files`, in order |
| FileSelector.KeepTypes | src/components/FileSelector.tsx:58 | the filter keeps, in order, the files whose type is exactly one of `fileTypes` |
| FileSelector.HandleDrop | src/components/FileSelector.tsx:27-59 | a drop clears the drag flag; `onFiles` is called exactly when there is a `dataTransfer`, with the type-filtered files from a non-empty item list, or else from the file list |
| FileSelector.HandleFileInputChange | src/components/FileSelector.tsx:61-78 | with a file list, `onFiles` gets every non-null entry in order, with no type filter; with none it is not called |
| FileSelector.DroppedFileDelivered | src/components/FileSelector.tsx:58 | a file is handed over exactly when it was collected and its type is accepted |
| FileSelector.ItemCollected | src/components/FileSelector.tsx:40-50 | a file is collected from the items exactly when some "file" item yields it |
| FileSelector.TypeFilterKeepsOrder | src/components/FileSelector.tsx:58 | the type filter distributes over concatenation, so order is kept |
| FileSelector.InputKeepsEveryFile | src/components/FileSelector.tsx:69-74 | the input path hands over all entries exactly when none is null |
| FileSelector.AfterEvent | src/components/FileSelector.tsx:88-90 | `isDraggingOver` is set by over and enter and cleared by leave and drop |
| FileSelector.AfterEvents | src/components/FileSelector.tsx:18-35 | after a run of drag events the flag depends only on the last one (true exactly after over or enter); with no events it keeps its value |

## Left out

- The PDF engine (`getDocument`, `getPage`, `render`, the viewport scale of 3), the canvas and `toBlob`: foreign calls. They appear only as an `OpenOutcome` and one `PageOutcome` per page.
- `FileReader`, `URL.createObjectURL`, JSZip serialisation and `saveAs`: I/O and library calls. Object URLs are strings carried by the outcome. The archive is only its file name and entry list, and archive-generation failure is not modelled.
- Asynchronous interleaving: handlers are applied one after another, and the load and progress handlers take a present session. A page result that arrives after a reset, when the code dereferences a null session or appends to a newer one, is not modelled.
- Converter.ConvertDocument and LegacyApp.ConvertDocument: they assume a session nothing has been loaded into, because each file read fires its `load` event once. A second load into the same session is not modelled.
- Numbers: NaN and the infinities are one value, `NonFinite`. Doubles are exact reals and page numbers and sizes are unbounded integers, so floating-point rounding of `loaded/total` is not modelled.
- ByteFormat.FormatBytes: the `toFixed` digit rendering is left out. The label keeps the scaled value, the number of decimals and the unit.
- `src/progress.tsx` mapping a NaN value to 0%, JSX rendering, the thumbnail grid and per-page download links, and the global `workerSrc` setup: these are presentation. The `confirm` dialog is a boolean input to Converter.OnProgressClick.
- Clearing the input value after a selection, `dropEffect = "copy"`, `preventDefault`/`stopPropagation`, opening the file picker on click, and the `accept`/`multiple` attributes: these are browser UI effects with no state in the model.
- `src/components/CenterCard.tsx` and `vite.config.ts` are not part of this model.
