/**
 The whole-document pass of `extract_text_from_pdf` (extract.py): per page,
 the detected tables are normalised into regions, the block loop produces
 the page's text, the page texts are concatenated in page order and the
 result is cleaned.
 */
module Document {
  import opened Wrappers
  import opened Strings
  import opened Geometry
  import opened Tables
  import opened Pages
  import opened Cleaning

  /** A table as the backend detects it: its box and its grid of cells. */
  datatype DetectedTable = DetectedTable(box: Box, grid: Grid)

  /** What the backend reports for one page. The figure boxes come from the
      figure detector, which is not part of this model. */
  datatype Page = Page(tables: seq<DetectedTable>, figures: seq<Box>, blocks: seq<Block>)

  /** Why the pass stops: a grid the normaliser raises on, or a block that
      claims a region whose text is `None`. */
  datatype DocError =
    | TableRaised(page: nat, table: nat, error: TableError)
    | TableWithoutText(page: nat, table: nat)

  /** The text `normalize_table_to_list` gives a region, `pformat` of the
      rows being `render`. */
  function RegionText(n: Normalized, render: Linearized -> string): Option<string>
    requires !n.Raises?
  {
    if n.Rows? then Some(render(n.table)) else None
  }

  /** The region one detected table becomes, or the error its grid raises. */
  function Region(t: DetectedTable, render: Linearized -> string): (r: Result<TableRegion, TableError>)
    ensures r.Success? <==> !Normalize(t.grid, DefaultMinCells).Raises?
    ensures r.Success? ==>
      r.value.box == t.box && r.value.text == RegionText(Normalize(t.grid, DefaultMinCells), render)
    ensures r.Failure? ==> Normalize(t.grid, DefaultMinCells) == Raises(r.error)
  {
    var n := Normalize(t.grid, DefaultMinCells);
    if n.Raises? then Failure(n.error) else Success(TableRegion(t.box, RegionText(n, render)))
  }

  /** `table_blocks` of one page, built in detection order; the first grid
      the normaliser raises on stops the pass. */
  function Regions(tables: seq<DetectedTable>, render: Linearized -> string): (r: Result<seq<TableRegion>, (nat, TableError)>)
    ensures r.Success? ==> |r.value| == |tables|
    ensures r.Success? ==> forall i :: 0 <= i < |tables| ==> Region(tables[i], render) == Success(r.value[i])
    ensures r.Failure? ==>
      && r.error.0 < |tables|
      && Region(tables[r.error.0], render) == Failure(r.error.1)
      && forall j :: 0 <= j < r.error.0 ==> Region(tables[j], render).Success?
  {
    var rs := seq(|tables|, i requires 0 <= i < |tables| => Region(tables[i], render));
    assert forall i :: 0 <= i < |tables| ==> rs[i] == Region(tables[i], render);
    Collect(rs)
  }

  /** What an error says about the page it names: the table it names was
      detected there, and the normaliser raised that error on its grid or
      found it near-empty. */
  predicate Explains(page: Page, e: DocError) {
    && e.table < |page.tables|
    && match e
       case TableRaised(_, t, err) => Normalize(page.tables[t].grid, DefaultMinCells) == Raises(err)
       case TableWithoutText(_, t) => Normalize(page.tables[t].grid, DefaultMinCells).NoTable?
  }

  /** The text one page adds to `final_text`. It fails on a grid the
      normaliser raises on, or on a grid it found near-empty that some block
      overlaps first. */
  function PageText(page: Page, index: nat, render: Linearized -> string): (r: Result<string, DocError>)
    ensures r.Failure? ==> r.error.page == index && Explains(page, r.error)
  {
    match Regions(page.tables, render)
    case Failure((i, e)) => Failure(TableRaised(index, i, e))
    case Success(regions) =>
      match Run(page.blocks, regions, page.figures)
      case Failure(MissingTableText(i)) => Failure(TableWithoutText(index, i))
      case Success(st) => Success(st.out)
  }

  /** The texts of the pages, one after the other. */
  function Concat(ts: seq<string>): string {
    if |ts| == 0 then "" else Concat(ts[..|ts| - 1]) + ts[|ts| - 1]
  }

  /** `final_text` before cleaning: the page texts in page order. The first
      page that fails stops the pass with its error, and the pass succeeds
      exactly when every page does. */
  function RawText(pages: seq<Page>, render: Linearized -> string): (r: Result<string, DocError>)
    ensures r.Failure? ==>
      && r.error.page < |pages|
      && PageText(pages[r.error.page], r.error.page, render) == Failure(r.error)
      && forall q :: 0 <= q < r.error.page ==> PageText(pages[q], q, render).Success?
    ensures r.Success? <==> forall p :: 0 <= p < |pages| ==> PageText(pages[p], p, render).Success?
  {
    match Collect(PageTexts(pages, render))
    case Failure((_, e)) => Failure(e)
    case Success(ts) => Success(Concat(ts))
  }

  /** The result of each page's pass, in page order. */
  function PageTexts(pages: seq<Page>, render: Linearized -> string): (rs: seq<Result<string, DocError>>)
    ensures |rs| == |pages|
    ensures forall p :: 0 <= p < |pages| ==> rs[p] == PageText(pages[p], p, render)
  {
    seq(|pages|, p requires 0 <= p < |pages| => PageText(pages[p], p, render))
  }

  /** `extract_text_from_pdf` without the file I/O: the cleaned text. */
  function ExtractText(pages: seq<Page>, render: Linearized -> string): (r: Result<string, DocError>)
    ensures r.Success? ==> IsClean(r.value)
    ensures r.Success? <==> RawText(pages, render).Success?
    ensures r.Success? ==> Words(r.value) == Words(RemoveNul(RawText(pages, render).value))
    ensures r.Failure? ==> r.error == RawText(pages, render).error
  {
    match RawText(pages, render)
    case Failure(e) => Failure(e)
    case Success(t) =>
      CleanKeepsWords(t);
      Success(Clean(t))
  }

  // ---------------------------------------------------------------------
  // Properties

  /** A page's text is the reference text of its blocks: the regions
      claimed first and the prose blocks, in block order. */
  lemma PageTextMatchesClaims(page: Page, index: nat, render: Linearized -> string)
    requires Regions(page.tables, render).Success?
    ensures var rs := Regions(page.tables, render).value;
      PageText(page, index, render) ==
        match Render(Claims(page.blocks, rs, page.figures), rs)
        case Failure(MissingTableText(i)) => Failure(TableWithoutText(index, i))
        case Success(t) => Success(t)
  {
    var rs := Regions(page.tables, render).value;
    RunMatchesClaims(page.blocks, rs, page.figures);
  }

  /** The successful pass is the concatenation of the page texts, in page
      order. */
  lemma RawTextPages(pages: seq<Page>, render: Linearized -> string) returns (ts: seq<string>)
    requires RawText(pages, render).Success?
    ensures |ts| == |pages|
    ensures forall p :: 0 <= p < |pages| ==> PageText(pages[p], p, render) == Success(ts[p])
    ensures RawText(pages, render).value == Concat(ts)
  {
    ts := Collect(PageTexts(pages, render)).value;
  }

  /** The text of the first `m` pages is a prefix of the text of all of them. */
  lemma RawTextPrefix(pages: seq<Page>, m: nat, render: Linearized -> string)
    requires m <= |pages| && RawText(pages, render).Success?
    ensures RawText(pages[..m], render).Success?
    ensures RawText(pages[..m], render).value <= RawText(pages, render).value
  {
    var ts := RawTextPages(pages, render);
    var us := RawTextPages(pages[..m], render);
    forall p | 0 <= p < m ensures us[p] == ts[p] {
      assert pages[..m][p] == pages[p];
    }
    assert us == ts[..m];
    ConcatPrefix(ts, m);
  }

  lemma {:induction false} ConcatPrefix(ts: seq<string>, m: nat)
    requires m <= |ts|
    ensures Concat(ts[..m]) <= Concat(ts)
  {
    if m < |ts| {
      var n := |ts|;
      assert ts[..n - 1][..m] == ts[..m];
      ConcatPrefix(ts[..n - 1], m);
    } else {
      assert ts[..m] == ts;
    }
  }

  /** Cleaning the extracted text again changes nothing. */
  /** The words of the extracted text are the words of the pages' texts,
      in page order, with NUL characters dropped. */
  lemma ExtractWords(pages: seq<Page>, render: Linearized -> string) returns (ts: seq<string>)
    requires ExtractText(pages, render).Success?
    ensures |ts| == |pages|
    ensures forall p :: 0 <= p < |pages| ==> PageText(pages[p], p, render) == Success(ts[p])
    ensures Words(ExtractText(pages, render).value) == Words(RemoveNul(Concat(ts)))
  {
    ts := RawTextPages(pages, render);
  }

  lemma ExtractStable(pages: seq<Page>, render: Linearized -> string)
    requires ExtractText(pages, render).Success?
    ensures Clean(ExtractText(pages, render).value) == ExtractText(pages, render).value
  {
    CleanFixpoint(ExtractText(pages, render).value);
  }

  /** The texts of some blocks, each followed by a line break. */
  function BlockLines(blocks: seq<Block>): string {
    if |blocks| == 0 then ""
    else BlockLines(blocks[..|blocks| - 1]) + blocks[|blocks| - 1].text + "\n"
  }

  /** On a page without tables or figures every block is kept, in order. */
  lemma {:induction false} PlainPage(blocks: seq<Block>)
    ensures Run(blocks, [], []) == Success(PageState(BlockLines(blocks), []))
  {
    if |blocks| > 0 {
      PlainPage(blocks[..|blocks| - 1]);
      assert FirstTable(blocks[|blocks| - 1].box, []) == None;
      assert !OnFigure(blocks[|blocks| - 1].box, []);
    }
  }
}
