/** The text layout writeMAZE produces and readMAZE consumes, as a sequence
    of integer tokens (whitespace dropped):

      rows cols
      left value ... left value right      one line per row
      bottom ... bottom                     between rows only

    A wall token is 1 when the wall is present and 0 when it is open. Only
    one side of each shared wall is stored: a cell's left wall doubles as
    its left neighbour's right wall, and its bottom wall as the top wall of
    the cell below. */
module Layouts {
  import opened Cells
  import opened Grids

  function Bit(present: bool): int
  {
    if present then 1 else 0
  }

  /** Index of the first token of row i: two header tokens, then 3·cols + 1
      tokens for every earlier row. */
  function RowStart(cols: nat, i: nat): nat
  {
    if i == 0 then 2 else RowStart(cols, i - 1) + 3 * cols + 1
  }

  function LeftIdx(cols: nat, i: nat, j: nat): nat { RowStart(cols, i) + 2 * j }
  function ValueIdx(cols: nat, i: nat, j: nat): nat { RowStart(cols, i) + 2 * j + 1 }
  function RightIdx(cols: nat, i: nat): nat { RowStart(cols, i) + 2 * cols }
  function BottomIdx(cols: nat, i: nat, j: nat): nat { RowStart(cols, i) + 2 * cols + 1 + j }

  /** Number of tokens for a rows × cols maze: the last row has no bottom line. */
  function LayoutLength(rows: nat, cols: nat): int
  {
    RowStart(cols, rows) - cols
  }

  lemma {:induction false} RowStartMonotone(cols: nat, a: nat, b: nat)
    requires a <= b
    ensures RowStart(cols, a) + (if a < b then 3 * cols + 1 else 0) <= RowStart(cols, b)
    decreases b
  {
    if a < b {
      RowStartMonotone(cols, a, b - 1);
    }
  }

  /** Every index a cell's tokens use lies inside a layout of the right length. */
  lemma IndicesInRange(rows: nat, cols: nat, i: nat, j: nat)
    requires i < rows && j < cols
    ensures ValueIdx(cols, i, j) < RightIdx(cols, i) < LayoutLength(rows, cols)
    ensures i < rows - 1 ==> BottomIdx(cols, i, j) < LayoutLength(rows, cols)
    ensures i < rows - 1 ==> RightIdx(cols, i) < BottomIdx(cols, i, j) < RowStart(cols, i + 1)
  {
    RowStartMonotone(cols, i + 1, rows);
  }

  /** What readMAZE can parse: positive dimensions and exactly the number
      of tokens writeMAZE emits for them. */
  ghost predicate WellFormed(t: seq<int>)
  {
    && |t| >= 2 && t[0] >= 1 && t[1] >= 1
    && |t| == LayoutLength(t[0], t[1])
  }

  // ---- writing -----------------------------------------------------------

  /** The left-wall and label tokens of cells 0 .. j-1 of row i. */
  ghost function CellTokens(g: Grid, i: nat, j: nat): (r: seq<int>)
    requires g.Valid() && i < g.rows && j <= g.cols
    ensures |r| == 2 * j
  {
    if j == 0 then []
    else CellTokens(g, i, j - 1) + [Bit(g.At((i, j - 1)).left), g.At((i, j - 1)).value]
  }

  /** The bottom-wall tokens of cells 0 .. j-1 of row i. */
  ghost function BottomTokens(g: Grid, i: nat, j: nat): (r: seq<int>)
    requires g.Valid() && i < g.rows && j <= g.cols
    ensures |r| == j
  {
    if j == 0 then [] else BottomTokens(g, i, j - 1) + [Bit(g.At((i, j - 1)).bottom)]
  }

  /** All tokens of row i: its cells, the right wall of its last cell, and
      its bottom line unless it is the last row. */
  ghost function RowTokens(g: Grid, i: nat): (r: seq<int>)
    requires g.Valid() && i < g.rows && g.cols >= 1
    ensures |r| == 2 * g.cols + 1 + (if i < g.rows - 1 then g.cols else 0)
  {
    CellTokens(g, i, g.cols) + [Bit(g.At((i, g.cols - 1)).right)]
      + (if i < g.rows - 1 then BottomTokens(g, i, g.cols) else [])
  }

  /** The tokens of rows 0 .. n-1. */
  ghost function RowsTokens(g: Grid, n: nat): (r: seq<int>)
    requires g.Valid() && n <= g.rows && g.cols >= 1
  {
    if n == 0 then [] else RowsTokens(g, n - 1) + RowTokens(g, n - 1)
  }

  /** Appending row i's tokens to the tokens of the rows above it. */
  lemma RowsTokensAppend(g: Grid, i: nat, head: seq<int>, before: seq<int>, row: seq<int>)
    requires g.Valid() && i < g.rows && g.cols >= 1
    requires before == head + RowsTokens(g, i) && row == RowTokens(g, i)
    ensures before + row == head + RowsTokens(g, i + 1)
  {
  }

  /** The token sequence writeMAZE emits for a grid. */
  ghost function Layout(g: Grid): seq<int>
    requires g.Valid() && g.rows >= 1 && g.cols >= 1
  {
    [g.rows, g.cols] + RowsTokens(g, g.rows)
  }

  lemma {:induction false} RowsTokensLength(g: Grid, n: nat)
    requires g.Valid() && n <= g.rows && g.cols >= 1
    ensures n < g.rows ==> |RowsTokens(g, n)| == RowStart(g.cols, n) - 2
    ensures 1 <= n == g.rows ==> |RowsTokens(g, n)| == RowStart(g.cols, n) - 2 - g.cols
  {
    if n > 0 {
      RowsTokensLength(g, n - 1);
      assert |RowsTokens(g, n)| == |RowsTokens(g, n - 1)| + |RowTokens(g, n - 1)|;
      assert RowStart(g.cols, n) == RowStart(g.cols, n - 1) + 3 * g.cols + 1;
      assert |RowsTokens(g, n - 1)| == RowStart(g.cols, n - 1) - 2;
      if n == g.rows {
        assert |RowTokens(g, n - 1)| == 2 * g.cols + 1;
      }
    }
  }

  lemma PrefixOfLonger(a: seq<int>, b: seq<int>, c: seq<int>)
    requires a <= b
    ensures a <= b + c
  {
    assert (b + c)[..|b|] == b;
  }

  /** Rows 0 .. a are laid out at the front of rows 0 .. n-1, for a < n. */
  lemma {:induction false} RowsTokensPrefix(g: Grid, a: nat, n: nat)
    requires g.Valid() && a < n <= g.rows && g.cols >= 1
    ensures RowsTokens(g, a) + RowTokens(g, a) <= RowsTokens(g, n)
    decreases n
  {
    if a < n - 1 {
      RowsTokensPrefix(g, a, n - 1);
      PrefixOfLonger(RowsTokens(g, a) + RowTokens(g, a), RowsTokens(g, n - 1), RowTokens(g, n - 1));
    }
  }

  lemma {:induction false} CellTokensAt(g: Grid, i: nat, j: nat, b: nat)
    requires g.Valid() && i < g.rows && b < j <= g.cols
    ensures CellTokens(g, i, j)[2 * b] == Bit(g.At((i, b)).left)
    ensures CellTokens(g, i, j)[2 * b + 1] == g.At((i, b)).value
    decreases j
  {
    if b < j - 1 {
      CellTokensAt(g, i, j - 1, b);
    }
  }

  lemma {:induction false} BottomTokensAt(g: Grid, i: nat, j: nat, b: nat)
    requires g.Valid() && i < g.rows && b < j <= g.cols
    ensures BottomTokens(g, i, j)[b] == Bit(g.At((i, b)).bottom)
    decreases j
  {
    if b < j - 1 {
      BottomTokensAt(g, i, j - 1, b);
    }
  }

  /** The token at RowStart(i) + x is token x of row i. */
  lemma LayoutRowAt(g: Grid, i: nat, x: nat)
    requires g.Valid() && g.rows >= 1 && g.cols >= 1 && i < g.rows
    requires x < |RowTokens(g, i)|
    ensures |Layout(g)| == LayoutLength(g.rows, g.cols)
    ensures RowStart(g.cols, i) + x < |Layout(g)|
    ensures Layout(g)[RowStart(g.cols, i) + x] == RowTokens(g, i)[x]
  {
    RowsTokensLength(g, i);
    RowsTokensLength(g, g.rows);
    RowsTokensPrefix(g, i, g.rows);
    var pre := RowsTokens(g, i) + RowTokens(g, i);
    assert Layout(g)[RowStart(g.cols, i) + x] == pre[RowStart(g.cols, i) - 2 + x];
  }

  /** Where each stored wall and label of a grid ends up in its layout. */
  lemma LayoutTokens(g: Grid, i: nat, j: nat)
    requires g.Valid() && g.rows >= 1 && g.cols >= 1 && i < g.rows && j < g.cols
    ensures WellFormed(Layout(g)) && Layout(g)[0] == g.rows && Layout(g)[1] == g.cols
    ensures RightIdx(g.cols, i) < |Layout(g)|
    ensures i < g.rows - 1 ==> BottomIdx(g.cols, i, j) < |Layout(g)|
    ensures Layout(g)[LeftIdx(g.cols, i, j)] == Bit(g.At((i, j)).left)
    ensures Layout(g)[ValueIdx(g.cols, i, j)] == g.At((i, j)).value
    ensures Layout(g)[RightIdx(g.cols, i)] == Bit(g.At((i, g.cols - 1)).right)
    ensures i < g.rows - 1 ==> Layout(g)[BottomIdx(g.cols, i, j)] == Bit(g.At((i, j)).bottom)
  {
    var C := g.cols;
    assert Layout(g)[0] == g.rows && Layout(g)[1] == g.cols;
    IndicesInRange(g.rows, C, i, j);
    LayoutRowAt(g, i, 0);
    CellTokensAt(g, i, C, j);
    var row := RowTokens(g, i);
    assert row[2 * j] == CellTokens(g, i, C)[2 * j];
    assert row[2 * j + 1] == CellTokens(g, i, C)[2 * j + 1];
    LayoutRowAt(g, i, 2 * j);
    LayoutRowAt(g, i, 2 * j + 1);
    LayoutRowAt(g, i, 2 * C);
    if i < g.rows - 1 {
      BottomTokensAt(g, i, C, j);
      assert row[2 * C + 1 + j] == BottomTokens(g, i, C)[j];
      LayoutRowAt(g, i, 2 * C + 1 + j);
    }
  }

  // ---- reading -----------------------------------------------------------

  /** The cell (i, j) readMAZE rebuilds from a well-formed layout. A wall is
      present unless its stored token is 0; the right wall of a cell other
      than the last in its row comes from its right neighbour's left token,
      and the top wall of a cell below the first row from the bottom token
      of the cell above. The top of the first row and the bottom of the last
      row are never stored and stay present. */
  ghost function DecodeCell(t: seq<int>, i: nat, j: nat): (s: CellState)
    requires WellFormed(t) && i < t[0] && j < t[1]
    ensures !s.visited
  {
    var rows, cols := t[0], t[1];
    IndicesInRange(rows, cols, i, j);
    IndicesInRange(rows, cols, i, if j < cols - 1 then j + 1 else j);
    IndicesInRange(rows, cols, if i > 0 then i - 1 else i, j);
    CellState(
      top := i == 0 || t[BottomIdx(cols, i - 1, j)] != 0,
      right := if j < cols - 1 then t[LeftIdx(cols, i, j + 1)] != 0 else t[RightIdx(cols, i)] != 0,
      bottom := i == rows - 1 || t[BottomIdx(cols, i, j)] != 0,
      left := t[LeftIdx(cols, i, j)] != 0,
      value := t[ValueIdx(cols, i, j)],
      visited := false)
  }

  /** The outer top and bottom walls are present: they are not stored. */
  ghost predicate OuterRowsClosed(g: Grid)
    requires g.Valid()
  {
    && (forall p :: g.Contains(p) && p.0 == 0 ==> g.At(p).top)
    && (forall p :: g.Contains(p) && p.0 == g.rows - 1 ==> g.At(p).bottom)
  }

  /** The whole grid readMAZE rebuilds from a well-formed layout. */
  ghost function Decoded(t: seq<int>): (g: Grid)
    requires WellFormed(t)
    ensures g.Valid() && g.rows == t[0] && g.cols == t[1]
    ensures forall i: nat, j: nat :: i < t[0] && j < t[1] ==> g.At((i, j)) == DecodeCell(t, i, j)
  {
    Grid(t[0], t[1], seq(t[0], i requires 0 <= i < t[0] =>
                       seq(t[1], j requires 0 <= j < t[1] => DecodeCell(t, i, j))))
  }

  /** A grid read from any well-formed layout has consistent shared walls
      and closed outer top and bottom rows, because each shared wall is
      stored once and the outer ones not at all. */
  lemma DecodedConsistent(t: seq<int>)
    requires WellFormed(t)
    ensures WallsAgree(Decoded(t)) && OuterRowsClosed(Decoded(t))
  {
    var g := Decoded(t);
    forall p: Pos, w: WallCode | g.Contains(p) && g.Contains(Neighbour(p, w))
      ensures Wall(g.At(p), w) == Wall(g.At(Neighbour(p, w)), Opposite(w))
    {
      var n := Neighbour(p, w);
      assert g.At(p) == DecodeCell(t, p.0, p.1);
      assert g.At(n) == DecodeCell(t, n.0, n.1);
    }
  }

  /** Reading back what was written reproduces every wall and label of a
      grid whose shared walls agree and whose outer top and bottom walls are
      present; only the visited flags are lost. */
  lemma RoundTrip(g: Grid, i: nat, j: nat)
    requires g.Valid() && g.rows >= 1 && g.cols >= 1 && i < g.rows && j < g.cols
    requires WallsAgree(g) && OuterRowsClosed(g)
    ensures WellFormed(Layout(g))
    ensures DecodeCell(Layout(g), i, j) == g.At((i, j)).(visited := false)
  {
    var p := (i, j);
    LayoutTokens(g, i, j);
    var c := g.At(p);
    RightRoundTrip(g, i, j);
    TopRoundTrip(g, i, j);
    if i == g.rows - 1 {
      assert c.bottom;
    }
  }

  lemma RightRoundTrip(g: Grid, i: nat, j: nat)
    requires g.Valid() && g.rows >= 1 && g.cols >= 1 && i < g.rows && j < g.cols
    requires WallsAgree(g)
    ensures WellFormed(Layout(g))
    ensures DecodeCell(Layout(g), i, j).right == g.At((i, j)).right
  {
    LayoutTokens(g, i, j);
    if j < g.cols - 1 {
      LayoutTokens(g, i, j + 1);
      assert Neighbour((i, j), Right) == (i, j + 1);
      assert Wall(g.At((i, j)), Right) == Wall(g.At((i, j + 1)), Left);
    }
  }

  lemma TopRoundTrip(g: Grid, i: nat, j: nat)
    requires g.Valid() && g.rows >= 1 && g.cols >= 1 && i < g.rows && j < g.cols
    requires WallsAgree(g) && OuterRowsClosed(g)
    ensures WellFormed(Layout(g))
    ensures DecodeCell(Layout(g), i, j).top == g.At((i, j)).top
  {
    LayoutTokens(g, i, j);
    if i > 0 {
      LayoutTokens(g, i - 1, j);
      assert Neighbour((i, j), Top) == (i - 1, j);
      assert Wall(g.At((i, j)), Top) == Wall(g.At((i - 1, j)), Bottom);
    }
  }

  /** How far readMAZE has got: rows before `row` are finished; in row
      `row` the cells before `col` have been read, the trailing right wall
      once `trail` holds, and the bottom walls before `bottom`. */
  datatype Progress = Progress(row: nat, col: nat, trail: bool, bottom: nat)

  predicate CellRead(q: Progress, a: nat, b: nat)
  {
    a < q.row || (a == q.row && b < q.col)
  }

  predicate RightRead(q: Progress, a: nat)
  {
    a < q.row || (a == q.row && q.trail)
  }

  predicate BottomRead(q: Progress, a: nat, b: nat)
  {
    a < q.row || (a == q.row && b < q.bottom)
  }

  /** Cell (a, b) as readMAZE has left it at progress q: each wall is still
      present unless the token that removes it has been read and is 0, and
      the label is still newCELL's -1 until its token has been read. */
  ghost function PartialCell(t: seq<int>, q: Progress, a: nat, b: nat): (s: CellState)
    requires WellFormed(t) && a < t[0] && b < t[1]
  {
    var rows, cols := t[0], t[1];
    IndicesInRange(rows, cols, a, b);
    IndicesInRange(rows, cols, a, if b < cols - 1 then b + 1 else b);
    IndicesInRange(rows, cols, if a > 0 then a - 1 else a, b);
    CellState(
      top := !(a > 0 && BottomRead(q, a - 1, b) && t[BottomIdx(cols, a - 1, b)] == 0),
      right := if b < cols - 1 then !(CellRead(q, a, b + 1) && t[LeftIdx(cols, a, b + 1)] == 0)
               else !(RightRead(q, a) && t[RightIdx(cols, a)] == 0),
      bottom := !(a < rows - 1 && BottomRead(q, a, b) && t[BottomIdx(cols, a, b)] == 0),
      left := !(CellRead(q, a, b) && t[LeftIdx(cols, a, b)] == 0),
      value := if CellRead(q, a, b) then t[ValueIdx(cols, a, b)] else -1,
      visited := false)
  }

  /** The grid g is what readMAZE has built at progress q. */
  ghost predicate PartialGrid(g: Grid, t: seq<int>, q: Progress)
    requires WellFormed(t)
  {
    && g.Valid() && g.rows == t[0] && g.cols == t[1]
    && forall a: nat, b: nat :: a < g.rows && b < g.cols ==> g.At((a, b)) == PartialCell(t, q, a, b)
  }

  /** A grid of the dimensions a layout announces. */
  ghost predicate Fits(g: Grid, t: seq<int>)
    requires WellFormed(t)
  {
    g.Valid() && g.rows == t[0] && g.cols == t[1]
  }

  /** What readMAZE does with the left-wall and label tokens of cell (i, j):
      a 0 wall token opens the cell's left wall and, unless j is 0, its left
      neighbour's right wall; the label is stored. */
  ghost function ReadCellStep(g: Grid, t: seq<int>, i: nat, j: nat): (h: Grid)
    requires WellFormed(t) && Fits(g, t) && i < t[0] && j < t[1]
    ensures Fits(h, t)
  {
    IndicesInRange(t[0], t[1], i, j);
    var unwalled :=
      if t[LeftIdx(t[1], i, j)] == 0 then
        (var h := g.Put((i, j), WithoutWall(g.At((i, j)), Left));
         if j > 0 then h.Put((i, j - 1), WithoutWall(h.At((i, j - 1)), Right)) else h)
      else g;
    unwalled.Put((i, j), unwalled.At((i, j)).(value := t[ValueIdx(t[1], i, j)]))
  }

  /** The token after the last cell of row i: 0 opens that cell's right wall. */
  ghost function ReadRightStep(g: Grid, t: seq<int>, i: nat): (h: Grid)
    requires WellFormed(t) && Fits(g, t) && i < t[0]
    ensures Fits(h, t)
  {
    IndicesInRange(t[0], t[1], i, 0);
    if t[RightIdx(t[1], i)] == 0 then
      g.Put((i, t[1] - 1), WithoutWall(g.At((i, t[1] - 1)), Right))
    else g
  }

  /** Bottom token j under row i: 0 opens cell (i, j)'s bottom wall and the
      top wall of the cell below it. */
  ghost function ReadBottomStep(g: Grid, t: seq<int>, i: nat, j: nat): (h: Grid)
    requires WellFormed(t) && Fits(g, t) && i < t[0] - 1 && j < t[1]
    ensures Fits(h, t)
  {
    IndicesInRange(t[0], t[1], i, j);
    if t[BottomIdx(t[1], i, j)] == 0 then
      var h := g.Put((i, j), WithoutWall(g.At((i, j)), Bottom));
      h.Put((i + 1, j), WithoutWall(h.At((i + 1, j)), Top))
    else g
  }

  /** Reading cell (i, j) takes the partial grid one cell further. */
  lemma ReadCellAdvances(g: Grid, t: seq<int>, i: nat, j: nat)
    requires WellFormed(t) && i < t[0] && j < t[1]
    requires PartialGrid(g, t, Progress(i, j, false, 0))
    ensures PartialGrid(ReadCellStep(g, t, i, j), t, Progress(i, j + 1, false, 0))
  {
    forall a: nat, b: nat | a < t[0] && b < t[1]
      ensures ReadCellStep(g, t, i, j).At((a, b)) == PartialCell(t, Progress(i, j + 1, false, 0), a, b)
    {
      ReadCellAt(g, t, i, j, a, b);
    }
  }

  lemma ReadCellAt(g: Grid, t: seq<int>, i: nat, j: nat, a: nat, b: nat)
    requires WellFormed(t) && i < t[0] && j < t[1] && a < t[0] && b < t[1]
    requires PartialGrid(g, t, Progress(i, j, false, 0))
    ensures ReadCellStep(g, t, i, j).At((a, b)) == PartialCell(t, Progress(i, j + 1, false, 0), a, b)
  {
    var h := ReadCellStep(g, t, i, j);
    IndicesInRange(t[0], t[1], a, b);
    if (a, b) != (i, j) && (a, b) != (i, j - 1) {
      assert h.At((a, b)) == g.At((a, b));
    }
  }

  /** Reading the right-wall token completes row i's line. */
  lemma ReadRightAdvances(g: Grid, t: seq<int>, i: nat)
    requires WellFormed(t) && i < t[0]
    requires PartialGrid(g, t, Progress(i, t[1], false, 0))
    ensures PartialGrid(ReadRightStep(g, t, i), t, Progress(i, t[1], true, 0))
  {
    var h := ReadRightStep(g, t, i);
    forall a: nat, b: nat | a < t[0] && b < t[1]
      ensures h.At((a, b)) == PartialCell(t, Progress(i, t[1], true, 0), a, b)
    {
      if (a, b) != (i, t[1] - 1) {
        assert h.At((a, b)) == g.At((a, b));
      }
    }
  }

  /** Reading bottom token j under row i takes the partial grid one bottom
      wall further. */
  lemma ReadBottomAdvances(g: Grid, t: seq<int>, i: nat, j: nat)
    requires WellFormed(t) && i < t[0] - 1 && j < t[1]
    requires PartialGrid(g, t, Progress(i, t[1], true, j))
    ensures PartialGrid(ReadBottomStep(g, t, i, j), t, Progress(i, t[1], true, j + 1))
  {
    forall a: nat, b: nat | a < t[0] && b < t[1]
      ensures ReadBottomStep(g, t, i, j).At((a, b)) == PartialCell(t, Progress(i, t[1], true, j + 1), a, b)
    {
      ReadBottomAt(g, t, i, j, a, b);
    }
  }

  lemma ReadBottomAt(g: Grid, t: seq<int>, i: nat, j: nat, a: nat, b: nat)
    requires WellFormed(t) && i < t[0] - 1 && j < t[1] && a < t[0] && b < t[1]
    requires PartialGrid(g, t, Progress(i, t[1], true, j))
    ensures ReadBottomStep(g, t, i, j).At((a, b)) == PartialCell(t, Progress(i, t[1], true, j + 1), a, b)
  {
    var h := ReadBottomStep(g, t, i, j);
    IndicesInRange(t[0], t[1], a, b);
    if (a, b) != (i, j) && (a, b) != (i + 1, j) {
      assert h.At((a, b)) == g.At((a, b));
    }
  }

  /** A row's line read, with no bottom line (the last row) or with all of
      it, is the start of the next row. */
  lemma RowDone(g: Grid, t: seq<int>, i: nat)
    requires WellFormed(t) && i < t[0]
    requires if i < t[0] - 1 then PartialGrid(g, t, Progress(i, t[1], true, t[1]))
             else PartialGrid(g, t, Progress(i, t[1], true, 0))
    ensures PartialGrid(g, t, Progress(i + 1, 0, false, 0))
  {
    forall a: nat, b: nat | a < t[0] && b < t[1]
      ensures g.At((a, b)) == PartialCell(t, Progress(i + 1, 0, false, 0), a, b)
    {
    }
  }

  /** Before any token is read every cell is as newCELL made it, and after
      the last row every cell is the decoded one. */
  lemma PartialEnds(t: seq<int>, a: nat, b: nat)
    requires WellFormed(t) && a < t[0] && b < t[1]
    ensures PartialCell(t, Progress(0, 0, false, 0), a, b) == Fresh
    ensures PartialCell(t, Progress(t[0], 0, false, 0), a, b) == DecodeCell(t, a, b)
  {
  }
}
