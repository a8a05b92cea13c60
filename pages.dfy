/**
 * The `extract_pages` generator.  PyMuPDF is not modelled: an opened PDF is
 * the sequence of what `page.get_text("text")` did on each page, and a file
 * that `fitz.open` cannot read is `Unreadable`.
 */
module Pages {
  import opened Text

  /** The outcome of `page.get_text("text")` on one page. */
  datatype PageResult = Ok(text: PyStr) | Fail

  datatype Document = Unreadable | Pages(pages: seq<PageResult>)

  /**
   * `page.get_text("text") or ""` inside `try ... except Exception: ""`.
   * An empty text is falsy and becomes `""`, which is the same value.
   */
  function TextOf(p: PageResult): (text: PyStr)
    ensures p.Fail? ==> text == []
    ensures p.Ok? ==> text == p.text
  {
    match p
    case Ok(t) => if |t| == 0 then [] else t
    case Fail => []
  }

  /** `enumerate(doc, start=start)` paired with each page's text. */
  function Enumerate(pages: seq<PageResult>, start: int): (r: seq<(int, PyStr)>)
    ensures |r| == |pages|
    ensures forall i :: 0 <= i < |r| ==> r[i].0 == start + i && r[i].1 == TextOf(pages[i])
  {
    if pages == [] then []
    else [(start, TextOf(pages[0]))] + Enumerate(pages[1..], start + 1)
  }

  /**
   * `extract_pages` on a PDF that opened: one (page number, text) pair per
   * page, numbered 1..N in order; a failed page yields `""` and the
   * enumeration goes on.
   */
  function ExtractPages(pages: seq<PageResult>): (r: seq<(int, PyStr)>)
    ensures |r| == |pages|
    ensures forall i :: 0 <= i < |r| ==> r[i].0 == i + 1
    ensures forall i :: 0 <= i < |r| ==> (pages[i].Fail? ==> r[i].1 == []) && (pages[i].Ok? ==> r[i].1 == pages[i].text)
  {
    Enumerate(pages, 1)
  }
}
