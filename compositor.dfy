/**
 * The page compositor: one two-page document becomes one document with a single
 * page of twice the height, source page 1 drawn in the top half and source page 2
 * in the bottom half (src/App.jsx, lines 30-59).
 *
 * pdf-lib documents are modelled by their geometry only: a document is its
 * sequence of pages, a page is its size plus the drawPage calls made on it.
 * Coordinates have their origin at the bottom-left corner, y growing upward.
 */
module Compositor {

  /** Width and height of a page in document units, as page.getSize() reports them. */
  datatype PageSize = PageSize(width: real, height: real)

  /** An axis-aligned rectangle anchored at its bottom-left corner (x, y). */
  datatype Rect = Rect(x: real, y: real, width: real, height: real)

  /** One drawPage call: page `source` of the source document (0-based),
      embedded into the new document and drawn into the rectangle `at`. */
  datatype Draw = Draw(source: nat, at: Rect)

  datatype Page = Page(size: PageSize, draws: seq<Draw>)

  datatype Pdf = Pdf(pages: seq<Page>)

  /** The points a rectangle covers: half-open on the right and at the top,
      so that rectangles sharing an edge do not overlap. */
  predicate Contains(r: Rect, px: real, py: real)
  {
    r.x <= px < r.x + r.width && r.y <= py < r.y + r.height
  }

  /** The whole surface of a page of size s. */
  function Canvas(s: PageSize): Rect
  {
    Rect(0.0, 0.0, s.width, s.height)
  }

  /** The upper half of a page of size s. */
  function TopHalf(s: PageSize): Rect
  {
    Rect(0.0, s.height / 2.0, s.width, s.height / 2.0)
  }

  /** The lower half of a page of size s. */
  function BottomHalf(s: PageSize): Rect
  {
    Rect(0.0, 0.0, s.width, s.height / 2.0)
  }

  /** PDFDocument.create(): a new document without pages. */
  const EmptyPdf: Pdf := Pdf([])

  /** doc.addPage([width, height]): a blank page appended to the document. */
  function AddPage(doc: Pdf, size: PageSize): Pdf
  {
    Pdf(doc.pages + [Page(size, [])])
  }

  /** page.drawPage(embedded, {x, y, width, height}) on the page at index p. */
  function DrawPage(doc: Pdf, p: nat, d: Draw): Pdf
    requires p < |doc.pages|
  {
    var page := doc.pages[p];
    Pdf(doc.pages[p := Page(page.size, page.draws + [d])])
  }

  /**
   * The composite of a two-page document whose page sizes are `source`.
   * The canvas is page 1's width by twice page 1's height; page 1 fills the top
   * half and page 2 the bottom half, each drawn at page 1's size.
   */
  function Compose(source: seq<PageSize>): (r: Pdf)
    requires |source| == 2
    ensures |r.pages| == 1
    ensures r.pages[0].size.width == source[0].width
    ensures r.pages[0].size.height == 2.0 * source[0].height
    ensures |r.pages[0].draws| == 2
    ensures r.pages[0].draws[0] == Draw(0, TopHalf(r.pages[0].size))
    ensures r.pages[0].draws[1] == Draw(1, BottomHalf(r.pages[0].size))
    ensures forall d <- r.pages[0].draws ::
              d.source < |source| && d.at.width == source[0].width && d.at.height == source[0].height
  {
    var w := source[0].width;
    var h := source[0].height;
    var doc := AddPage(EmptyPdf, PageSize(w, h * 2.0));
    var doc := DrawPage(doc, 0, Draw(0, Rect(0.0, h, w, h)));
    DrawPage(doc, 0, Draw(1, Rect(0.0, 0.0, w, h)))
  }

  /** The two halves of any page partition it: every point of the page lies in
      exactly one half, and no point outside the page lies in either. */
  lemma HalvesTileCanvas(s: PageSize, px: real, py: real)
    ensures Contains(Canvas(s), px, py) <==> Contains(TopHalf(s), px, py) || Contains(BottomHalf(s), px, py)
    ensures !(Contains(TopHalf(s), px, py) && Contains(BottomHalf(s), px, py))
  {
  }

  /** In a composite, source page 1 and source page 2 cover disjoint regions that
      together are exactly the composite page, page 1 above page 2. */
  lemma ComposedPagesTileCanvas(source: seq<PageSize>, px: real, py: real)
    requires |source| == 2
    ensures var page := Compose(source).pages[0];
            var top := page.draws[0].at;
            var bottom := page.draws[1].at;
            && (Contains(Canvas(page.size), px, py) <==> Contains(top, px, py) || Contains(bottom, px, py))
            && !(Contains(top, px, py) && Contains(bottom, px, py))
            && top.y == bottom.y + bottom.height
  {
    HalvesTileCanvas(Compose(source).pages[0].size, px, py);
  }

  /** Only page 1's size is read: two documents that agree on page 1 give the same
      composite, whatever size their page 2 has (page 2 is scaled into (w, h)). */
  lemma ComposeReadsOnlyFirstPageSize(a: seq<PageSize>, b: seq<PageSize>)
    requires |a| == 2 && |b| == 2 && a[0] == b[0]
    ensures Compose(a) == Compose(b)
  {
  }
}
