/**
 * The canonical text of a generated puzzle that its content hash is taken over:
 * "<width>x<height>|<black cells>|<rows>", where the black cells are the distinct
 * cells "r,c" in ascending order joined by ";", and the rows are joined by "/" with
 * '#' for a black cell, '?' for a missing or empty letter, and the letter otherwise.
 * The SHA-256 digest of that text is not part of this model.
 */
module Hashing {
  import opened Wrappers
  import opened Text
  import Sorting
  import CrosswordGrid

  type Cell = CrosswordGrid.Cell

  /** The solution grid: rows of optional letters. */
  type SolutionGrid = seq<seq<Option<string>>>

  // ---------------------------------------------------------------------------
  // The black-cell part

  /** Python's order on (row, col) tuples. */
  predicate CellLe(a: Cell, b: Cell) {
    a.0 < b.0 || (a.0 == b.0 && a.1 <= b.1)
  }

  lemma CellOrder()
    ensures Sorting.TotalPreorder(CellLe) && Sorting.Antisymmetric(CellLe)
  {
  }

  /** `sorted({tuple(cell) for cell in black_cells})`. */
  function SortedCells(cells: seq<Cell>): (r: seq<Cell>)
    ensures Sorting.SortedBy(r, CellLe) && Sorting.Distinct(r)
    ensures forall c :: c in r <==> c in cells
  {
    var distinct := Sorting.Dedup(cells);
    var r := Sorting.SortBy(distinct, CellLe);
    CellOrder();
    Sorting.SortBySorted(distinct, CellLe);
    Sorting.MultisetDistinct(distinct, r);
    assert forall c :: c in r <==> c in multiset(distinct);
    r
  }

  /** `f"{r},{c}"`. */
  function CellText(c: Cell): string {
    IntToDecimal(c.0) + "," + IntToDecimal(c.1)
  }

  function CellTexts(cells: seq<Cell>): (r: seq<string>)
    ensures |r| == |cells| && forall k :: 0 <= k < |cells| ==> r[k] == CellText(cells[k])
  {
    if cells == [] then [] else [CellText(cells[0])] + CellTexts(cells[1..])
  }

  /** The black-cell part of the canonical text. */
  function BlackPart(cells: seq<Cell>): string {
    Join(";", CellTexts(SortedCells(cells)))
  }

  /** The black-cell part depends only on the set of black cells: not on their order or repetitions. */
  lemma BlackPartCanonical(a: seq<Cell>, b: seq<Cell>)
    requires forall c :: c in a <==> c in b
    ensures BlackPart(a) == BlackPart(b)
  {
    CellOrder();
    Sorting.SortedDistinctUnique(SortedCells(a), SortedCells(b), CellLe);
  }

  /** A cell's text has no ';' (nor '|'), so the black part splits back into the sorted cells. */
  lemma CellTextAvoids(c: Cell, ch: char)
    requires ch == ';' || ch == '|'
    ensures ch !in CellText(c)
  {
    assert CellText(c) == IntToDecimal(c.0) + [','] + IntToDecimal(c.1);
  }

  lemma BlackPartSplits(cells: seq<Cell>)
    requires cells != []
    ensures Split(BlackPart(cells), ';') == CellTexts(SortedCells(cells))
  {
    var texts := CellTexts(SortedCells(cells));
    assert cells[0] in SortedCells(cells);
    forall k | 0 <= k < |texts| ensures ';' !in texts[k] {
      CellTextAvoids(SortedCells(cells)[k], ';');
    }
    SplitJoin(texts, ';');
  }

  // ---------------------------------------------------------------------------
  // The rows part

  /** The cell is black, or the grid has a value there (Python would raise IndexError otherwise). */
  predicate Readable(black: set<Cell>, grid: SolutionGrid, row: nat, col: nat) {
    (row, col) in black || (row < |grid| && col < |grid[row]|)
  }

  /** Every cell of the width × height rectangle is readable. */
  predicate Covers(black: set<Cell>, grid: SolutionGrid, width: int, height: int) {
    forall row: nat, col: nat :: row < height && col < width ==> Readable(black, grid, row, col)
  }

  /** The symbol of one cell: '#' when black, the letter when present and non-empty, '?' otherwise. */
  function Symbol(black: set<Cell>, grid: SolutionGrid, row: nat, col: nat): string
    requires Readable(black, grid, row, col)
  {
    if (row, col) in black then "#"
    else
      var cell := grid[row][col];
      if cell.Some? && cell.value != "" then cell.value else "?"
  }

  /** The symbols of columns 0 .. n - 1 of a row. */
  function Symbols(black: set<Cell>, grid: SolutionGrid, row: nat, n: nat): (r: seq<string>)
    requires forall col: nat :: col < n ==> Readable(black, grid, row, col)
    ensures |r| == n
  {
    if n == 0 then [] else Symbols(black, grid, row, n - 1) + [Symbol(black, grid, row, n - 1)]
  }

  /** The text of a row. */
  function RowText(black: set<Cell>, grid: SolutionGrid, row: nat, width: int): string
    requires forall col: nat :: col < width ==> Readable(black, grid, row, col)
  {
    Concat(Symbols(black, grid, row, if width < 0 then 0 else width))
  }

  /** The texts of rows 0 .. n - 1. */
  function Rows(black: set<Cell>, grid: SolutionGrid, width: int, n: nat): (r: seq<string>)
    requires Covers(black, grid, width, n)
    ensures |r| == n
  {
    if n == 0 then [] else Rows(black, grid, width, n - 1) + [RowText(black, grid, n - 1, width)]
  }

  lemma {:induction false} SymbolsAt(black: set<Cell>, grid: SolutionGrid, row: nat, n: nat, col: nat)
    requires forall c: nat :: c < n ==> Readable(black, grid, row, c)
    requires col < n
    ensures Symbols(black, grid, row, n)[col] == Symbol(black, grid, row, col)
  {
    if col < n - 1 {
      SymbolsAt(black, grid, row, n - 1, col);
    }
  }

  /** Every letter of the grid is a single character. */
  predicate SingleLetters(grid: SolutionGrid) {
    forall row, col :: 0 <= row < |grid| && 0 <= col < |grid[row]| && grid[row][col].Some? ==>
      |grid[row][col].value| <= 1
  }

  /**
   * With single-character letters, a row's text has one character per column: '#' at a
   * black cell, the letter at a filled cell and '?' at a missing or empty one.
   */
  lemma RowTextAt(black: set<Cell>, grid: SolutionGrid, row: nat, width: nat, col: nat)
    requires forall c: nat :: c < width ==> Readable(black, grid, row, c)
    requires SingleLetters(grid) && col < width && Readable(black, grid, row, col)
    ensures |RowText(black, grid, row, width)| == width
    ensures RowText(black, grid, row, width)[col] ==
      if (row, col) in black then '#'
      else if grid[row][col].Some? && grid[row][col].value != "" then grid[row][col].value[0]
      else '?'
  {
    var symbols := Symbols(black, grid, row, width);
    forall k | 0 <= k < width ensures |symbols[k]| == 1 {
      SymbolsAt(black, grid, row, width, k);
      assert Readable(black, grid, row, k);
    }
    SymbolsAt(black, grid, row, width, col);
    ConcatSingles(symbols, col);
  }

  function RowsPart(black: set<Cell>, grid: SolutionGrid, width: int, height: int): string
    requires Covers(black, grid, width, height)
  {
    Join("/", Rows(black, grid, width, if height < 0 then 0 else height))
  }

  // ---------------------------------------------------------------------------
  // The canonical text

  function Dimensions(width: int, height: int): string {
    IntToDecimal(width) + "x" + IntToDecimal(height)
  }

  /** `canonical_bytes`, before the UTF-8 encoding. */
  function Canonical(width: int, height: int, blackCells: seq<Cell>, grid: SolutionGrid): string
    requires Covers(CrosswordGrid.CellSet(blackCells), grid, width, height)
  {
    var black := CrosswordGrid.CellSet(blackCells);
    Join("|", [Dimensions(width, height), BlackPart(blackCells), RowsPart(black, grid, width, height)])
  }

  /** No letter of the grid contains `ch`. */
  predicate LettersAvoid(grid: SolutionGrid, ch: char) {
    forall row, col :: 0 <= row < |grid| && 0 <= col < |grid[row]| && grid[row][col].Some? ==>
      ch !in grid[row][col].value
  }

  lemma {:induction false} SymbolsAvoid(black: set<Cell>, grid: SolutionGrid, row: nat, n: nat, ch: char)
    requires forall col: nat :: col < n ==> Readable(black, grid, row, col)
    requires LettersAvoid(grid, ch) && ch != '#' && ch != '?'
    ensures forall k :: 0 <= k < n ==> ch !in Symbols(black, grid, row, n)[k]
  {
    if n > 0 {
      SymbolsAvoid(black, grid, row, n - 1, ch);
      var last := Symbol(black, grid, row, n - 1);
      assert last == "#" || last == "?" || ch !in last;
    }
  }

  lemma {:induction false} ConcatAvoids(parts: seq<string>, ch: char)
    requires forall k :: 0 <= k < |parts| ==> ch !in parts[k]
    ensures ch !in Concat(parts)
  {
    if parts != [] {
      ConcatAvoids(parts[1..], ch);
    }
  }

  lemma {:induction false} RowsAvoid(black: set<Cell>, grid: SolutionGrid, width: int, n: nat, ch: char)
    requires Covers(black, grid, width, n)
    requires LettersAvoid(grid, ch) && ch != '#' && ch != '?'
    ensures forall k :: 0 <= k < n ==> ch !in Rows(black, grid, width, n)[k]
  {
    if n > 0 {
      RowsAvoid(black, grid, width, n - 1, ch);
      var w := if width < 0 then 0 else width;
      SymbolsAvoid(black, grid, n - 1, w, ch);
      ConcatAvoids(Symbols(black, grid, n - 1, w), ch);
    }
  }

  /** With at least one row and no '/' in any letter, the rows part splits back into its rows. */
  lemma RowsPartSplits(black: set<Cell>, grid: SolutionGrid, width: int, height: int)
    requires Covers(black, grid, width, height) && height >= 1 && LettersAvoid(grid, '/')
    ensures Split(RowsPart(black, grid, width, height), '/') == Rows(black, grid, width, height)
  {
    RowsAvoid(black, grid, width, height, '/');
    SplitJoin(Rows(black, grid, width, height), '/');
  }

  /**
   * The canonical text has exactly three '|'-separated sections, the dimensions, the
   * black cells and the rows, as long as no letter contains '|'.
   */
  lemma CanonicalSections(width: int, height: int, blackCells: seq<Cell>, grid: SolutionGrid)
    requires Covers(CrosswordGrid.CellSet(blackCells), grid, width, height)
    requires LettersAvoid(grid, '|')
    ensures Split(Canonical(width, height, blackCells, grid), '|') ==
      [Dimensions(width, height), BlackPart(blackCells), RowsPart(CrosswordGrid.CellSet(blackCells), grid, width, height)]
  {
    var black := CrosswordGrid.CellSet(blackCells);
    var parts := [Dimensions(width, height), BlackPart(blackCells), RowsPart(black, grid, width, height)];
    assert '|' !in parts[0] by {
      assert parts[0] == IntToDecimal(width) + ['x'] + IntToDecimal(height);
    }
    assert '|' !in parts[1] by { BlackPartAvoids(blackCells); }
    assert '|' !in parts[2] by { RowsPartAvoids(black, grid, width, height, '|'); }
    SplitJoin(parts, '|');
  }

  lemma BlackPartAvoids(blackCells: seq<Cell>)
    ensures '|' !in BlackPart(blackCells)
  {
    var texts := CellTexts(SortedCells(blackCells));
    forall k | 0 <= k < |texts| ensures '|' !in texts[k] {
      CellTextAvoids(SortedCells(blackCells)[k], '|');
    }
    JoinAvoids(";", texts, '|');
  }

  lemma RowsPartAvoids(black: set<Cell>, grid: SolutionGrid, width: int, height: int, ch: char)
    requires Covers(black, grid, width, height)
    requires LettersAvoid(grid, ch) && ch != '#' && ch != '?' && ch != '/'
    ensures ch !in RowsPart(black, grid, width, height)
  {
    var h := if height < 0 then 0 else height;
    RowsAvoid(black, grid, width, h, ch);
    JoinAvoids("/", Rows(black, grid, width, h), ch);
  }

  /**
   * The value the grid holds at a black cell is never read: two grids that agree on
   * every other cell have the same canonical text.
   */
  predicate AgreeOffBlack(black: set<Cell>, g1: SolutionGrid, g2: SolutionGrid, width: int, height: int)
    requires Covers(black, g1, width, height) && Covers(black, g2, width, height)
  {
    forall row: nat, col: nat :: row < height && col < width && (row, col) !in black ==>
      Readable(black, g1, row, col) && Readable(black, g2, row, col) && g1[row][col] == g2[row][col]
  }

  lemma {:induction false} RowsIgnoreBlack(black: set<Cell>, g1: SolutionGrid, g2: SolutionGrid, width: int, n: nat)
    requires Covers(black, g1, width, n) && Covers(black, g2, width, n)
    requires AgreeOffBlack(black, g1, g2, width, n)
    ensures Rows(black, g1, width, n) == Rows(black, g2, width, n)
  {
    if n > 0 {
      RowsIgnoreBlack(black, g1, g2, width, n - 1);
      var w := if width < 0 then 0 else width;
      SymbolsIgnoreBlack(black, g1, g2, n - 1, w);
    }
  }

  lemma {:induction false} SymbolsIgnoreBlack(black: set<Cell>, g1: SolutionGrid, g2: SolutionGrid, row: nat, n: nat)
    requires forall col: nat :: col < n ==> Readable(black, g1, row, col) && Readable(black, g2, row, col)
    requires forall col: nat :: col < n && (row, col) !in black ==>
      Readable(black, g1, row, col) && Readable(black, g2, row, col) && g1[row][col] == g2[row][col]
    ensures Symbols(black, g1, row, n) == Symbols(black, g2, row, n)
  {
    if n > 0 {
      SymbolsIgnoreBlack(black, g1, g2, row, n - 1);
    }
  }

  lemma CanonicalIgnoresBlackValues(width: int, height: int, blackCells: seq<Cell>, g1: SolutionGrid, g2: SolutionGrid)
    requires Covers(CrosswordGrid.CellSet(blackCells), g1, width, height)
    requires Covers(CrosswordGrid.CellSet(blackCells), g2, width, height)
    requires AgreeOffBlack(CrosswordGrid.CellSet(blackCells), g1, g2, width, height)
    ensures Canonical(width, height, blackCells, g1) == Canonical(width, height, blackCells, g2)
  {
    var h := if height < 0 then 0 else height;
    RowsIgnoreBlack(CrosswordGrid.CellSet(blackCells), g1, g2, width, h);
  }
}
