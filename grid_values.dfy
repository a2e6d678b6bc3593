/** grid_values: reading an 81-character puzzle string into a board. */
module Parser {
  import opened Topology
  import opened Boards

  datatype Option<T> = None | Some(value: T)

  /** The candidates one grid character contributes: all nine digits for
      '.', the digit itself for a digit, nothing for any other character. */
  function CharCells(ch: char): (r: seq<Cand>)
    ensures |r| <= 1
    ensures |r| == 1 <==> ch == '.' || ch in Digits
  {
    if ch == '.' then [Digits] else if ch in Digits then [[ch]] else []
  }

  /** The `for c in grid` loop of grid_values, over `grid` so far. */
  function GridCells(grid: string): seq<Cand> {
    if |grid| == 0 then [] else GridCells(grid[..|grid| - 1]) + CharCells(grid[|grid| - 1])
  }

  /** A cell as the puzzle string writes it: '.' when open, else its digit. */
  predicate IsGivenOrOpen(x: Cand) {
    x == Digits || (|x| == 1 && x[0] in Digits)
  }

  /** The boards grid_values can produce. */
  predicate IsPuzzle(b: seq<Cand>) {
    forall i :: 0 <= i < |b| ==> IsGivenOrOpen(b[i])
  }

  /** The characters grid_values reads rather than skips. */
  predicate IsGridChar(ch: char) {
    ch == '.' || ch in Digits
  }

  /** The character a cell is written as. */
  function RenderCell(x: Cand): (ch: char)
    requires IsGivenOrOpen(x)
    ensures IsGridChar(ch) && CharCells(ch) == [x]
  {
    if x == Digits then '.' else assert x == [x[0]]; x[0]
  }

  /** The puzzle string of a board: '.' for an open cell, the digit otherwise. */
  function Render(b: seq<Cand>): (r: string)
    requires IsPuzzle(b)
    ensures |r| == |b|
    ensures forall i :: 0 <= i < |r| ==> IsGridChar(r[i])
  {
    if |b| == 0 then [] else Render(b[..|b| - 1]) + [RenderCell(b[|b| - 1])]
  }

  lemma {:induction false} GridCellsAppend(g: string, h: string)
    ensures GridCells(g + h) == GridCells(g) + GridCells(h)
    decreases |h|
  {
    if |h| == 0 {
      assert g + h == g;
    } else {
      var h' := h[..|h| - 1];
      assert (g + h)[..|g + h| - 1] == g + h';
      assert (g + h)[|g + h| - 1] == h[|h| - 1];
      GridCellsAppend(g, h');
    }
  }

  lemma GridCellsSingle(ch: char)
    ensures GridCells([ch]) == CharCells(ch)
  {
    assert [ch][..0] == [];
  }

  /** Every cell grid_values produces is either open or a given digit. */
  lemma {:induction false} GridCellsArePuzzle(grid: string)
    ensures IsPuzzle(GridCells(grid))
  {
    if |grid| > 0 {
      GridCellsArePuzzle(grid[..|grid| - 1]);
    }
  }

  /** grid_values: the board when the grid yields exactly 81 cells. */
  function GridValues(grid: string): (r: Option<Board>)
    ensures r.Some? <==> |GridCells(grid)| == 81
    ensures r.Some? ==> IsPuzzle(r.value)
  {
    var cells := GridCells(grid);
    GridCellsArePuzzle(grid);
    if |cells| == 81 then var b: Board := cells; Some(b) else None
  }

  lemma RenderLast(b: seq<Cand>)
    requires IsPuzzle(b) && |b| > 0
    ensures IsPuzzle(b[..|b| - 1])
    ensures Render(b) == Render(b[..|b| - 1]) + [RenderCell(b[|b| - 1])]
  {
  }

  /** Reading back the rendering of a puzzle board gives the board. */
  lemma {:induction false} GridCellsRender(b: seq<Cand>)
    requires IsPuzzle(b)
    ensures GridCells(Render(b)) == b
  {
    if |b| > 0 {
      var b' := b[..|b| - 1];
      var x := b[|b| - 1];
      RenderLast(b);
      GridCellsRender(b');
      var r', ch := Render(b'), RenderCell(x);
      GridCellsAppend(r', [ch]);
      GridCellsSingle(ch);
      SplitLast(b);
    }
  }

  lemma RenderAppend(cells: seq<Cand>, x: Cand)
    requires IsPuzzle(cells) && IsGivenOrOpen(x)
    ensures IsPuzzle(cells + [x]) && Render(cells + [x]) == Render(cells) + [RenderCell(x)]
  {
    var b := cells + [x];
    assert b[..|b| - 1] == cells;
  }

  /** The cell a character of the grid is read as; rendering it gives the
      character back. */
  function CellOf(ch: char): (x: Cand)
    requires IsGridChar(ch)
    ensures CharCells(ch) == [x] && IsGivenOrOpen(x) && RenderCell(x) == ch
  {
    if ch == '.' then Digits
    else
      var x := [ch];
      assert x != Digits by { assert |x| != |Digits|; }
      x
  }

  /** Rendering what grid_values read from a grid of '.' and digits gives
      the grid back. */
  lemma {:induction false} RenderGridCells(grid: string)
    requires forall i :: 0 <= i < |grid| ==> IsGridChar(grid[i])
    ensures IsPuzzle(GridCells(grid)) && Render(GridCells(grid)) == grid
  {
    GridCellsArePuzzle(grid);
    if |grid| > 0 {
      var g' := grid[..|grid| - 1];
      var ch := grid[|grid| - 1];
      RenderGridCells(g');
      var x := CellOf(ch);
      assert GridCells(grid) == GridCells(g') + [x];
      RenderAppend(GridCells(g'), x);
      SplitLast(grid);
    }
  }

  /** grid_values and rendering are inverse on puzzle boards and on
      81-character grids of '.' and digits. */
  lemma GridValuesRoundTrip(b: Board, grid: string)
    requires IsPuzzle(b)
    requires |grid| == 81 && forall i :: 0 <= i < |grid| ==> IsGridChar(grid[i])
    ensures GridValues(Render(b)) == Some(b)
    ensures GridValues(grid).Some? && Render(GridValues(grid).value) == grid
  {
    GridCellsRender(b);
    RenderGridCells(grid);
  }

  /** The characters of `grid` that grid_values reads, in order. */
  function Kept(grid: string): (r: string)
    ensures forall i :: 0 <= i < |r| ==> IsGridChar(r[i])
  {
    if |grid| == 0 then []
    else Kept(grid[..|grid| - 1]) + (if IsGridChar(grid[|grid| - 1]) then [grid[|grid| - 1]] else [])
  }

  /** Characters other than '.' and digits are skipped: the grid reads as
      its kept characters do, one cell per kept character. */
  lemma {:induction false} GridCellsIgnoresOthers(grid: string)
    ensures GridCells(grid) == GridCells(Kept(grid))
    ensures |GridCells(grid)| == |Kept(grid)|
  {
    if |grid| > 0 {
      var g' := grid[..|grid| - 1];
      var ch := grid[|grid| - 1];
      GridCellsIgnoresOthers(g');
      assert GridCells(grid) == GridCells(g') + CharCells(ch);
      if IsGridChar(ch) {
        assert Kept(grid) == Kept(g') + [ch];
        GridCellsAppend(Kept(g'), [ch]);
        GridCellsSingle(ch);
        assert GridCells(Kept(grid)) == GridCells(Kept(g')) + CharCells(ch);
      } else {
        assert Kept(grid) == Kept(g') + [] == Kept(g');
        assert GridCells(grid) == GridCells(g') + [] == GridCells(g');
      }
    }
  }
}
