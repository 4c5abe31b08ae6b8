/**
 Table linearisation (extract.py, `normalize_table_to_list`): a detected
 grid of optional cell strings becomes a header row followed by data
 sub-rows, one per embedded line break of the tallest cell in each row.
 */
module Tables {
  import opened Wrappers
  import opened Strings

  /** A cell as the table extractor reports it: text or nothing. */
  type Cell = Option<string>

  /** Rows of cells; the first row is the header. */
  type Grid = seq<seq<Cell>>

  /** Threshold of filled cells below which a grid is not a table (the
      default `min_nonempty_cells=1`). */
  const DefaultMinCells: int := 1

  /** The exceptions `normalize_table_to_list` can raise. */
  datatype TableError =
    | EmptyGrid  // `raw_table[0]` on an empty grid (IndexError)
    | EmptyRow   // `max()` of the cells of a width-0 data row (ValueError)

  /** The linearised table: the header exactly as detected, then the data
      sub-rows. The text form is this row list rendered by `pformat`. */
  datatype Linearized = Linearized(header: seq<Cell>, body: seq<seq<string>>)

  datatype Normalized =
    | NoTable                  // fewer filled cells than the threshold: `None`
    | Rows(table: Linearized)
    | Raises(error: TableError)

  /** A cell that is neither `None` nor `''`; whitespace counts as content. */
  predicate Filled(c: Cell) {
    c.Some? && c.value != ""
  }

  /** The text a cell stands for: its string, or `''` for `None`. */
  function CellText(c: Cell): string {
    if c.Some? then c.value else ""
  }

  function FilledInRow(row: seq<Cell>): (n: nat)
    ensures n <= |row|
    ensures n == 0 <==> forall j :: 0 <= j < |row| ==> !Filled(row[j])
  {
    if |row| == 0 then 0
    else (if Filled(row[0]) then 1 else 0) + FilledInRow(row[1..])
  }

  /** Number of filled cells over the whole grid, header included. */
  function FilledCells(g: Grid): (n: nat)
    ensures n == 0 <==> forall k, j :: 0 <= k < |g| && 0 <= j < |g[k]| ==> !Filled(g[k][j])
  {
    if |g| == 0 then 0
    else
      assert forall k :: 1 <= k < |g| ==> g[k] == g[1..][k - 1];
      FilledInRow(g[0]) + FilledCells(g[1..])
  }

  /** A single cell counts one exactly when it is filled. */
  lemma FilledInCell(c: Cell)
    ensures FilledInRow([c]) == if Filled(c) then 1 else 0
  {
    assert [c][1..] == [];
  }

  /** The count over a row is the sum of the counts over its parts. */
  lemma {:induction false} FilledInRowConcat(r1: seq<Cell>, r2: seq<Cell>)
    ensures FilledInRow(r1 + r2) == FilledInRow(r1) + FilledInRow(r2)
    decreases |r1|
  {
    if |r1| > 0 {
      assert (r1 + r2)[0] == r1[0];
      assert (r1 + r2)[1..] == r1[1..] + r2;
      FilledInRowConcat(r1[1..], r2);
    } else {
      assert r1 + r2 == r2;
    }
  }

  /** A grid of one row counts that row's filled cells. */
  lemma FilledCellsRow(row: seq<Cell>)
    ensures FilledCells([row]) == FilledInRow(row)
  {
    assert [row][1..] == [];
  }

  /** The count over a grid is the sum of the counts over its row blocks. */
  lemma {:induction false} FilledCellsConcat(a: Grid, b: Grid)
    ensures FilledCells(a + b) == FilledCells(a) + FilledCells(b)
    decreases |a|
  {
    if |a| > 0 {
      assert (a + b)[0] == a[0];
      assert (a + b)[1..] == a[1..] + b;
      FilledCellsConcat(a[1..], b);
    } else {
      assert a + b == b;
    }
  }

  /** The lines of one cell: its string split on `'\n'`, or a single empty
      line for an empty cell. */
  function CellLines(c: Cell): (ls: seq<string>)
    ensures |ls| >= 1
    ensures Join(ls, '\n') == CellText(c)
    ensures forall i :: 0 <= i < |ls| ==> '\n' !in ls[i]
  {
    if Filled(c) then JoinSplit(c.value, '\n'); SplitOn(c.value, '\n') else [""]
  }

  /** A data row right-padded with `''` cells to the header's width. */
  function Pad(row: seq<Cell>, width: nat): (p: seq<Cell>)
    ensures |p| == if |row| < width then width else |row|
    ensures p[..|row|] == row
    ensures forall j :: |row| <= j < |p| ==> p[j] == Some("")
  {
    if |row| < width then row + seq(width - |row|, _ => Some("")) else row
  }

  /** The split cells of a padded data row. */
  function RowLines(row: seq<Cell>, width: nat): (lines: seq<seq<string>>)
    ensures |lines| == |Pad(row, width)|
    ensures forall j :: 0 <= j < |lines| ==> lines[j] == CellLines(Pad(row, width)[j])
  {
    var p := Pad(row, width);
    seq(|p|, j requires 0 <= j < |p| => CellLines(p[j]))
  }

  /** `max_len`: the largest line count over the row's cells (0 for no cells). */
  function MaxLines(lines: seq<seq<string>>): (m: nat)
    ensures forall j :: 0 <= j < |lines| ==> |lines[j]| <= m
    ensures |lines| == 0 ==> m == 0
    ensures |lines| > 0 ==> exists j :: 0 <= j < |lines| && |lines[j]| == m
  {
    if |lines| == 0 then 0
    else
      var rest := MaxLines(lines[1..]);
      assert forall j :: 1 <= j < |lines| ==> lines[j] == lines[1..][j - 1];
      if |lines[0]| >= rest then |lines[0]| else rest
  }

  /** The `i`-th sub-row: the `i`-th line of every cell, `''` where a cell
      has fewer lines. */
  function SubRow(lines: seq<seq<string>>, i: nat): seq<string> {
    seq(|lines|, j requires 0 <= j < |lines| => if i < |lines[j]| then lines[j][i] else "")
  }

  /** The sub-rows of a row of split cells, one per line of its tallest cell. */
  function Expand(lines: seq<seq<string>>): seq<seq<string>> {
    var m := MaxLines(lines);
    seq(m, i requires 0 <= i < m => SubRow(lines, i))
  }

  /** All sub-rows one data row expands to. */
  function RowBlock(row: seq<Cell>, width: nat): seq<seq<string>> {
    Expand(RowLines(row, width))
  }

  /** The padded data row has no cells, so `max()` would raise. */
  predicate Degenerate(row: seq<Cell>, width: nat) {
    width == 0 && row == []
  }

  /** The sub-rows of every data row, row by row. */
  function Blocks(rows: seq<seq<Cell>>, width: nat): (bs: seq<seq<seq<string>>>)
    ensures |bs| == |rows|
    ensures forall k :: 0 <= k < |rows| ==> bs[k] == RowBlock(rows[k], width)
  {
    if |rows| == 0 then [] else [RowBlock(rows[0], width)] + Blocks(rows[1..], width)
  }

  function Flatten<T>(xss: seq<seq<T>>): seq<T> {
    if |xss| == 0 then [] else xss[0] + Flatten(xss[1..])
  }

  /** The loop over the data rows: each row's sub-rows appended in order,
      or the error of the first degenerate row. */
  function LinearizeData(rows: seq<seq<Cell>>, width: nat): (r: Result<seq<seq<string>>, TableError>)
    ensures r.Failure? <==> exists k :: 0 <= k < |rows| && Degenerate(rows[k], width)
    ensures r.Failure? ==> r.error == EmptyRow
    ensures r.Success? ==> r.value == Flatten(Blocks(rows, width))
  {
    if |rows| == 0 then Success([])
    else if Degenerate(rows[0], width) then Failure(EmptyRow)
    else
      assert forall k :: 1 <= k < |rows| ==> rows[k] == rows[1..][k - 1];
      match LinearizeData(rows[1..], width)
      case Failure(e) => Failure(e)
      case Success(rest) => Success(RowBlock(rows[0], width) + rest)
  }

  /** `normalize_table_to_list(raw_table, min_nonempty_cells)`. */
  function Normalize(g: Grid, minCells: int): (r: Normalized)
    ensures r.NoTable? <==> FilledCells(g) < minCells
    ensures r.Raises? && r.error == EmptyGrid <==> FilledCells(g) >= minCells && |g| == 0
    ensures r.Raises? && r.error == EmptyRow <==>
      FilledCells(g) >= minCells && |g| > 0 && |g[0]| == 0
      && exists k :: 1 <= k < |g| && g[k] == []
    ensures r.Rows? ==> |g| > 0 && r.table.header == g[0]
  {
    if FilledCells(g) < minCells then NoTable
    else if |g| == 0 then Raises(EmptyGrid)
    else
      assert forall k :: 1 <= k < |g| ==> g[k] == g[1..][k - 1];
      match LinearizeData(g[1..], |g[0]|)
      case Failure(e) => Raises(e)
      case Success(body) => Rows(Linearized(g[0], body))
  }

  // ---------------------------------------------------------------------
  // Properties

  /** Column `j` of a list of sub-rows. */
  function Column(block: seq<seq<string>>, j: nat): seq<string>
    requires forall i :: 0 <= i < |block| ==> j < |block[i]|
  {
    seq(|block|, i requires 0 <= i < |block| => block[i][j])
  }

  /** The text of the `j`-th cell of a data row once padded: `''` for the
      padding and for `None`. */
  function PaddedText(row: seq<Cell>, j: nat): string {
    if j < |row| then CellText(row[j]) else ""
  }

  /** Expanding split cells: one sub-row per line of the tallest cell,
      each as wide as the row; column `j` holds the lines of cell `j`
      followed by `''` padding. */
  lemma ExpandShape(lines: seq<seq<string>>)
    requires forall j :: 0 <= j < |lines| ==> forall i :: 0 <= i < |lines[j]| ==> '\n' !in lines[j][i]
    ensures var block := Expand(lines);
      && |block| == MaxLines(lines)
      && (forall i :: 0 <= i < |block| ==> |block[i]| == |lines|)
      && (forall i, j :: 0 <= i < |block| && 0 <= j < |block[i]| ==> '\n' !in block[i][j])
      && (forall j :: 0 <= j < |lines| ==>
            && |lines[j]| <= |block|
            && Column(block, j)[..|lines[j]|] == lines[j]
            && forall i :: |lines[j]| <= i < |block| ==> block[i][j] == "")
  {
    var block := Expand(lines);
    forall j | 0 <= j < |lines|
      ensures Column(block, j)[..|lines[j]|] == lines[j]
    {
      assert |lines[j]| <= |block|;
      forall i | 0 <= i < |lines[j]|
        ensures Column(block, j)[i] == lines[j][i]
      {
        assert block[i] == SubRow(lines, i);
      }
    }
  }

  /** One data row expands to `max_len` sub-rows, each as wide as the padded
      row; the first `k` entries of column `j`, where `k` is the line count
      of cell `j`, join back (with `'\n'`) to that cell's text, and the rest
      of the column is `''`. */
  lemma RowBlockShape(row: seq<Cell>, width: nat)
    ensures var lines := RowLines(row, width);
      var block := RowBlock(row, width);
      && |block| == MaxLines(lines)
      && (forall i :: 0 <= i < |block| ==> |block[i]| == |Pad(row, width)|)
      && (forall i, j :: 0 <= i < |block| && 0 <= j < |block[i]| ==> '\n' !in block[i][j])
      && (forall j :: 0 <= j < |lines| ==>
            && |lines[j]| <= |block|
            && Join(Column(block, j)[..|lines[j]|], '\n') == PaddedText(row, j)
            && forall i :: |lines[j]| <= i < |block| ==> block[i][j] == "")
  {
    var lines := RowLines(row, width);
    var p := Pad(row, width);
    ExpandShape(lines);
    forall j | 0 <= j < |lines|
      ensures Join(lines[j], '\n') == PaddedText(row, j)
    {
      assert lines[j] == CellLines(p[j]);
      if j < |row| {
        assert p[j] == p[..|row|][j];
      }
    }
  }

  /** Sum of the sub-row counts of the data rows. */
  function SubRowTotal(rows: seq<seq<Cell>>, width: nat): nat {
    if |rows| == 0 then 0 else MaxLines(RowLines(rows[0], width)) + SubRowTotal(rows[1..], width)
  }

  lemma {:induction false} FlattenBlocksLength(rows: seq<seq<Cell>>, width: nat)
    ensures |Flatten(Blocks(rows, width))| == SubRowTotal(rows, width)
  {
    if |rows| > 0 {
      FlattenBlocksLength(rows[1..], width);
    }
  }

  /** A table that is kept has `1 + sum(max_len)` rows: the header, then
      `max_len` sub-rows for every data row. */
  lemma NormalizedRowCount(g: Grid, minCells: int)
    requires Normalize(g, minCells).Rows?
    ensures |Normalize(g, minCells).table.body| == SubRowTotal(g[1..], |g[0]|)
  {
    FlattenBlocksLength(g[1..], |g[0]|);
  }

  /** A header and one data row whose two cells hold three aligned lines
      each give the header and three sub-rows. */
  lemma NormalizeExample()
    ensures Normalize([[Some("Method"), Some("Score")], [Some("a\nb\nc"), Some("1\n2\n3")]], DefaultMinCells)
      == Rows(Linearized([Some("Method"), Some("Score")], [["a", "1"], ["b", "2"], ["c", "3"]]))
  {
    var header: seq<Cell> := [Some("Method"), Some("Score")];
    var row: seq<Cell> := [Some("a\nb\nc"), Some("1\n2\n3")];
    var g := [header, row];
    assert Filled(header[0]);
    HeaderCounts(header, row);
    assert g[1..] == [row];
    SingleDataRow(row, |header|);
    OneDataRow(header, row, DefaultMinCells);
    ExampleBlock(row);
  }

  /** A kept two-row grid is its header and the sub-rows of its data row. */
  lemma OneDataRow(header: seq<Cell>, row: seq<Cell>, minCells: int)
    requires Normalize([header, row], minCells).Rows?
    ensures Normalize([header, row], minCells) == Rows(Linearized(header, RowBlock(row, |header|)))
  {
    var g := [header, row];
    assert g[1..] == [row];
    assert !Degenerate(row, |header|);
    SingleDataRow(row, |header|);
  }

  lemma HeaderCounts(header: seq<Cell>, row: seq<Cell>)
    requires |header| > 0 && Filled(header[0])
    ensures FilledCells([header, row]) >= 1
  {
    var g := [header, row];
    assert FilledInRow(header) >= 1;
    assert g[0] == header;
  }

  lemma SingleDataRow(row: seq<Cell>, width: nat)
    requires !Degenerate(row, width)
    ensures LinearizeData([row], width) == Success(RowBlock(row, width))
  {
    assert [row][1..] == [];
    assert RowBlock(row, width) + [] == RowBlock(row, width);
  }

  lemma ExampleBlock(row: seq<Cell>)
    requires row == [Some("a\nb\nc"), Some("1\n2\n3")]
    ensures RowBlock(row, 2) == [["a", "1"], ["b", "2"], ["c", "3"]]
  {
    ExampleLines(row);
    ExampleExpand(RowLines(row, 2));
  }

  lemma ExampleLines(row: seq<Cell>)
    requires row == [Some("a\nb\nc"), Some("1\n2\n3")]
    ensures RowLines(row, 2) == [["a", "b", "c"], ["1", "2", "3"]]
  {
    ExampleCell('a', 'b', 'c');
    ExampleCell('1', '2', '3');
    assert row[0] == Some(['a', '\n', 'b', '\n', 'c']);
    assert row[1] == Some(['1', '\n', '2', '\n', '3']);
    TwoCellLines(row, ["a", "b", "c"], ["1", "2", "3"]);
  }

  lemma TwoCellLines(row: seq<Cell>, l0: seq<string>, l1: seq<string>)
    requires |row| == 2 && CellLines(row[0]) == l0 && CellLines(row[1]) == l1
    ensures RowLines(row, 2) == [l0, l1]
  {
    assert Pad(row, 2) == row;
    var lines := RowLines(row, 2);
    assert lines[0] == l0;
    assert lines[1] == l1;
  }

  lemma ExampleExpand(lines: seq<seq<string>>)
    requires lines == [["a", "b", "c"], ["1", "2", "3"]]
    ensures Expand(lines) == [["a", "1"], ["b", "2"], ["c", "3"]]
  {
    assert MaxLines(lines) == 3 by {
      assert lines[1..] == [lines[1]];
      assert MaxLines(lines[1..]) == 3;
    }
    var block := Expand(lines);
    assert block[0] == SubRow(lines, 0) == ["a", "1"];
    assert block[1] == SubRow(lines, 1) == ["b", "2"];
    assert block[2] == SubRow(lines, 2) == ["c", "3"];
  }

  /** A three-line cell splits into its three lines. */
  lemma ExampleCell(x: char, y: char, z: char)
    requires x != '\n' && y != '\n' && z != '\n'
    ensures CellLines(Some([x, '\n', y, '\n', z])) == [[x], [y], [z]]
  {
    var ls: seq<string> := [[x], [y], [z]];
    assert Join(ls[2..], '\n') == [z];
    assert Join(ls[1..], '\n') == [y, '\n', z];
    assert Join(ls, '\n') == [x, '\n', y, '\n', z];
    SplitJoin(ls, '\n');
  }
}
