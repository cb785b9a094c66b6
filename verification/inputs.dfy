/**
 What the converter receives from the browser and from the PDF engine, as
 plain values. Reading the file, opening it with the PDF engine, rendering a
 page to the canvas, encoding the canvas as PNG and creating an object URL are
 all calls the converter cannot see into; each becomes an outcome here.
 */
module Inputs {
  import opened Text

  /** A user-supplied file: its name and the MIME type the browser declares for it. */
  datatype File = File(name: string, mimeType: string)

  /** An encoded PNG image; `id` stands for its identity, `size` is its length in bytes. */
  datatype Blob = Blob(id: nat, size: nat)

  /** What fetching, rendering and encoding one page produced. */
  datatype PageOutcome =
    | PageMissing                  // `doc.getPage(n)` rejected
    | RenderThrew                  // `page.render(...)` rejected
    | NoPng                        // `canvas.toBlob` yielded null
    | Png(blob: Blob, url: string) // the encoded page and the object URL created for it

  /** An opened document: one outcome per page, page 1 first. */
  datatype Document = Document(outcomes: seq<PageOutcome>) {
    function NumPages(): nat
    {
      |outcomes|
    }
  }

  /** What `getDocument(bytes).promise` settled to. */
  datatype OpenOutcome = OpenFailed | Opened(doc: Document)

  /** A `progress` event of the file reader. */
  datatype ProgressEvent = ProgressEvent(lengthComputable: bool, loaded: nat, total: nat)

  /** `file.type && !file.type.endsWith("pdf")`: the declared type rules the file out. */
  function DeclaredNonPdf(mimeType: string): (refused: bool)
    ensures refused <==>
      mimeType != "" && !(|mimeType| >= 3 && mimeType == mimeType[..|mimeType| - 3] + "pdf")
  {
    EndsWithSplit(mimeType, "pdf");
    mimeType != "" && !EndsWith(mimeType, "pdf")
  }

  /** An absent type and any type ending in "pdf" pass; anything else is refused. */
  lemma DeclaredTypeCheck(mimeType: string)
    ensures !DeclaredNonPdf("")
    ensures !DeclaredNonPdf(mimeType + "pdf")
    ensures DeclaredNonPdf(mimeType) <==> mimeType != "" && !(|mimeType| >= 3 && mimeType[|mimeType| - 3..] == "pdf")
  {
    EndsWithJoin(mimeType, "pdf");
  }
}
