/** Assembly of the whole PDF text: each page's lines are positioned, its
    images captioned with a document-wide figure counter, its figures sorted
    and interleaved with the lines, and the page output prefixed with a
    banner; the pages are joined with blank lines. */
module Document {
  import opened Wrappers
  import opened Text
  import opened LinePositions
  import opened Figures
  import opened Interleave

  /** What the extraction layer yields for one page: its text (`None` when it
      finds none), its words and its image regions, each image already paired
      with the description the vision model returned for it. */
  datatype Page = Page(text: Option<string>, words: seq<Word>, images: seq<Image>)

  /** `page.extract_text() or ""`. */
  function PageText(p: Page): string
  {
    if p.text.Some? then p.text.value else ""
  }

  /** `text.split('\n')`. */
  function PageLines(p: Page): seq<string>
  {
    Split(PageText(p), '\n')
  }

  function Positioned(lines: seq<string>, words: seq<Word>): seq<PosLine>
  {
    seq(|lines|, i requires 0 <= i < |lines| => PosLine(lines[i], LinePosition(words, lines[i])))
  }

  /** The entries of one page's output when its first image gets number `counter`. */
  function PageEntries(p: Page, figureText: string, counter: nat): seq<Entry>
  {
    Merge(Positioned(PageLines(p), p.words), SortByMid(PageFigs(p.images, figureText, counter)))
  }

  /** `"\n".join(output_lines)`. */
  function PageOutput(p: Page, figureText: string, counter: nat): string
  {
    Join(Texts(PageEntries(p, figureText, counter)), "\n")
  }

  /** `f"--- Page {page_num} ---\n"`. */
  function Banner(pageNum: nat): string
  {
    "--- Page " + NatToString(pageNum) + " ---\n"
  }

  /** Number of images on the given pages. */
  function TotalImages(pages: seq<Page>): nat
  {
    if pages == [] then 0
    else TotalImages(pages[..|pages| - 1]) + |pages[|pages| - 1].images|
  }

  /** The number of the first figure of page `i` (counting from 0): figures are
      numbered from 1 across the whole document. */
  function FirstFigure(pages: seq<Page>, i: nat): nat
    requires i <= |pages|
  {
    1 + TotalImages(pages[..i])
  }

  /** The entry of `text_pages` for page `i` (counting from 0), announced as
      page `i + 1`. */
  function PageString(pages: seq<Page>, figureText: string, i: nat): string
    requires i < |pages|
  {
    Banner(i + 1) + PageOutput(pages[i], figureText, FirstFigure(pages, i))
  }

  /** `text_pages` after the first `n` turns of the page loop. */
  function PageStringsUpTo(pages: seq<Page>, figureText: string, n: nat): (r: seq<string>)
    requires n <= |pages|
    ensures |r| == n
  {
    if n == 0 then [] else PageStringsUpTo(pages, figureText, n - 1) + [PageString(pages, figureText, n - 1)]
  }

  /** `text_pages` after the whole page loop. */
  function PageStrings(pages: seq<Page>, figureText: string): seq<string>
  {
    PageStringsUpTo(pages, figureText, |pages|)
  }

  /** `"\n\n".join(text_pages)` for a whole document. */
  function DocumentText(pages: seq<Page>, figureText: string): string
  {
    Join(PageStrings(pages, figureText), "\n\n")
  }

  /** All figures of the document, page by page, each page in image order. */
  function DocumentFigs(pages: seq<Page>, figureText: string): seq<Fig>
  {
    if pages == [] then []
    else
      var last := |pages| - 1;
      DocumentFigs(pages[..last], figureText)
        + PageFigs(pages[last].images, figureText, FirstFigure(pages, last))
  }

  /** The body of the page loop for one page: positions its lines, captions
      its images from `counter` on, sorts and interleaves the figures, and
      joins the result. */
  method ProcessPage(page: Page, figureText: string, counter: nat)
    returns (pageOutput: string, next: nat)
    ensures pageOutput == PageOutput(page, figureText, counter)
    ensures next == counter + |page.images|
  {
    var text := if page.text.Some? then page.text.value else "";
    var lines := Split(text, '\n');
    var positioned := PositionLines(lines, page.words);
    assert positioned == Positioned(lines, page.words);
    var figs;
    figs, next := CaptionImages(page.images, figureText, counter);
    figs := SortByMid(figs);
    var outputLines := InterleavePage(positioned, figs);
    pageOutput := Join(outputLines, "\n");
  }

  /** The page loop of the PDF path: `figure_counter` runs on across pages and
      `text_pages` grows by one banner-prefixed page string per page. */
  method ProcessPdf(pages: seq<Page>, figureText: string) returns (doc: string)
    ensures doc == DocumentText(pages, figureText)
  {
    var textPages: seq<string> := [];
    var figureCounter: nat := 1;
    for i := 0 to |pages|
      invariant figureCounter == FirstFigure(pages, i)
      invariant textPages == PageStringsUpTo(pages, figureText, i)
    {
      var pageOutput, next := ProcessPage(pages[i], figureText, figureCounter);
      FirstFigureStep(pages, i);
      PageStringIs(pages, figureText, i, pageOutput);
      textPages := textPages + [Banner(i + 1) + pageOutput];
      figureCounter := next;
    }
    doc := Join(textPages, "\n\n");
  }

  /** The banner of page `i + 1` followed by the output of page `i` is that
      page's entry of `text_pages`. */
  lemma PageStringIs(pages: seq<Page>, figureText: string, i: nat, pageOutput: string)
    requires i < |pages|
    requires pageOutput == PageOutput(pages[i], figureText, FirstFigure(pages, i))
    ensures Banner(i + 1) + pageOutput == PageString(pages, figureText, i)
  {
  }

  /** The figure counter after page `i` is the one before it plus the page's
      image count. */
  lemma FirstFigureStep(pages: seq<Page>, i: nat)
    requires i < |pages|
    ensures FirstFigure(pages, i + 1) == FirstFigure(pages, i) + |pages[i].images|
  {
    assert pages[..i + 1][..i] == pages[..i];
  }

  // ---------------------------------------------------------------------------
  // Properties of the document and of each page
  // ---------------------------------------------------------------------------

  /** Entry `i` of `text_pages` stays what turn `i` of the page loop appended:
      the banner of page `i + 1` and the output of page `i`. */
  lemma {:induction false} PageStringsAt(pages: seq<Page>, figureText: string, n: nat, i: nat)
    requires i < n <= |pages|
    ensures PageStringsUpTo(pages, figureText, n)[i] == PageString(pages, figureText, i)
  {
    var prev := PageStringsUpTo(pages, figureText, n - 1);
    assert PageStringsUpTo(pages, figureText, n) == prev + [PageString(pages, figureText, n - 1)];
    if i < n - 1 {
      PageStringsAt(pages, figureText, n - 1, i);
      assert (prev + [PageString(pages, figureText, n - 1)])[i] == prev[i];
    }
  }

  /** Figures are numbered 1, 2, ... through the whole document, never reset
      at a page boundary: with k images in all, the numbers are 1 to k. */
  lemma {:induction false} FiguresNumberedAcrossPages(pages: seq<Page>, figureText: string)
    ensures |DocumentFigs(pages, figureText)| == TotalImages(pages)
    ensures Consecutive(DocumentFigs(pages, figureText), 1)
  {
    if pages != [] {
      var last := |pages| - 1;
      FiguresNumberedAcrossPages(pages[..last], figureText);
      PageFigsConsecutive(pages[last].images, figureText, FirstFigure(pages, last));
    }
  }

  /** Removing the captions from one page's output leaves the page's text
      lines, in order; there is one entry per line and one per image. */
  lemma PageKeepsLines(p: Page, figureText: string, counter: nat)
    ensures |PageEntries(p, figureText, counter)| == |PageLines(p)| + |p.images|
    ensures LinesOf(PageEntries(p, figureText, counter)) == PageLines(p)
  {
    var lines := Positioned(PageLines(p), p.words);
    var figs := PageFigs(p.images, figureText, counter);
    var sorted := SortByMid(figs);
    assert |sorted| == |figs| by { assert |multiset(sorted)| == |multiset(figs)|; }
    MergeLength(lines, sorted, 0);
    MergeKeepsLines(lines, sorted, 0);
    assert LineTexts(lines) == PageLines(p);
  }

  /** Removing the text lines from one page's output leaves each of the page's
      figures exactly once, in stable midpoint order. */
  lemma PageFiguresOrdered(p: Page, figureText: string, counter: nat)
    ensures multiset(FigsOf(PageEntries(p, figureText, counter)))
      == multiset(PageFigs(p.images, figureText, counter))
    ensures StablyOrdered(FigsOf(PageEntries(p, figureText, counter)))
    ensures SortedByMid(FigsOf(PageEntries(p, figureText, counter)))
  {
    var lines := Positioned(PageLines(p), p.words);
    var figs := PageFigs(p.images, figureText, counter);
    var sorted := SortByMid(figs);
    MergeKeepsFigs(lines, sorted, 0);
    assert sorted[0..] == sorted;
    SortByMidStable(figs);
  }

  /** A page without images is output exactly as its extracted text. */
  lemma PageWithoutImages(p: Page, figureText: string, counter: nat)
    requires p.images == []
    ensures PageOutput(p, figureText, counter) == PageText(p)
  {
    var lines := Positioned(PageLines(p), p.words);
    assert PageFigs(p.images, figureText, counter) == [];
    MergeNoFigures(lines);
    assert Texts(LineEs(lines)) == PageLines(p);
    JoinSplit(PageText(p), '\n');
  }

  /** A page without text still yields one empty line, before any caption. */
  lemma EmptyPageText(p: Page, figureText: string, counter: nat)
    requires PageText(p) == ""
    ensures |PageEntries(p, figureText, counter)| == 1 + |p.images|
    ensures PageEntries(p, figureText, counter)[0] == LineE("")
  {
    var lines := Positioned(PageLines(p), p.words);
    var sorted := SortByMid(PageFigs(p.images, figureText, counter));
    assert |sorted| == |p.images| by {
      assert |multiset(sorted)| == |multiset(PageFigs(p.images, figureText, counter))|;
    }
    MergeLength(lines, sorted, 0);
    MergeStartsWithLine(lines, sorted, 0);
  }
}
