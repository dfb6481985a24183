/** The maze object of maze.c: a rows × cols array of cells, each owned by
    the maze alone and carrying its own coordinates. `View` is the grid value
    the maze holds; every mutation below states its effect on that value. */
module Mazes {
  import opened Cells
  import opened Grids
  import opened Layouts
  import opened DynamicArrays

  class Maze {
    const rows: nat
    const cols: nat
    /** The C struct's `cells` field: one row of cell references per row. The
        rows are filled once by newMAZE and never reassigned. */
    const cells: seq<seq<Cell>>
    /** The cell objects of the maze. */
    ghost const CellSet: set<Cell>

    /** Cell (i, j) sits at row i, column j, knows its own coordinates, and
        is a different object from every other cell. */
    ghost predicate Valid()
    {
      && |cells| == rows
      && (forall i :: 0 <= i < rows ==> |cells[i]| == cols)
      && (forall i, j :: 0 <= i < rows && 0 <= j < cols ==>
            cells[i][j] in CellSet && cells[i][j].row == i && cells[i][j].col == j)
      && (forall c :: c in CellSet ==>
            0 <= c.row < rows && 0 <= c.col < cols && cells[c.row][c.col] == c)
    }

    predicate InMaze(p: Pos)
    {
      0 <= p.0 < rows && 0 <= p.1 < cols
    }

    /** The states of the first n cells of row i. */
    ghost function RowView(i: nat, n: nat): (r: seq<CellState>)
      reads CellSet
      requires Valid() && i < rows && n <= cols
      ensures |r| == n
    {
      if n == 0 then [] else RowView(i, n - 1) + [cells[i][n - 1].State()]
    }

    /** The states of the first n rows. */
    ghost function RowsView(n: nat): (r: seq<seq<CellState>>)
      reads CellSet
      requires Valid() && n <= rows
      ensures |r| == n && forall k :: 0 <= k < n ==> |r[k]| == cols
    {
      if n == 0 then [] else RowsView(n - 1) + [RowView(n - 1, cols)]
    }

    /** The grid value the maze currently holds. */
    ghost function View(): (g: Grid)
      reads CellSet
      requires Valid()
      ensures g.Valid() && g.rows == rows && g.cols == cols
    {
      Grid(rows, cols, RowsView(rows))
    }

    lemma {:induction false} RowViewAt(i: nat, n: nat, j: nat)
      requires Valid() && i < rows && j < n <= cols
      ensures RowView(i, n)[j] == cells[i][j].State()
    {
      if j < n - 1 {
        RowViewAt(i, n - 1, j);
      }
    }

    lemma {:induction false} RowsViewAt(n: nat, i: nat)
      requires Valid() && i < n <= rows
      ensures RowsView(n)[i] == RowView(i, cols)
    {
      if i < n - 1 {
        RowsViewAt(n - 1, i);
      }
    }

    /** The view holds, at each position, the state of the cell object there. */
    lemma ViewAt(i: nat, j: nat)
      requires Valid() && i < rows && j < cols
      ensures View().At((i, j)) == cells[i][j].State()
    {
      RowsViewAt(rows, i);
      RowViewAt(i, cols, j);
    }

    lemma ViewCells()
      requires Valid()
      ensures forall p :: InMaze(p) ==> View().At(p) == cells[p.0][p.1].State()
    {
      forall p | InMaze(p)
        ensures View().At(p) == cells[p.0][p.1].State()
      {
        ViewAt(p.0, p.1);
      }
    }

    /** newMAZE: every cell created by newCELL with its own coordinates. */
    constructor (rows: nat, cols: nat)
      ensures this.rows == rows && this.cols == cols
      ensures Valid() && fresh(CellSet)
      ensures View() == Blank(rows, cols)
    {
      var grid: seq<seq<Cell>> := [];
      ghost var made: set<Cell> := {};
      for i := 0 to rows
        invariant |grid| == i
        invariant forall i' :: 0 <= i' < i ==> |grid[i']| == cols
        invariant forall i', j' :: 0 <= i' < i && 0 <= j' < cols ==>
                    grid[i'][j'] in made && grid[i'][j'].row == i' && grid[i'][j'].col == j'
                    && grid[i'][j'].State() == Fresh
        invariant forall c :: c in made ==> 0 <= c.row < i && 0 <= c.col < cols && grid[c.row][c.col] == c
        invariant fresh(made)
      {
        var row := NewRow(i, cols);
        grid := grid + [row];
        made := made + set j | 0 <= j < cols :: row[j];
      }
      this.rows := rows;
      this.cols := cols;
      cells := grid;
      CellSet := made;
      new;
      ViewCells();
      GridExtensionality(View(), Blank(rows, cols));
    }

    /** removeCELLwall on the cell at p. */
    method RemoveWallAt(p: Pos, w: WallCode)
      requires Valid() && InMaze(p)
      modifies CellSet
      ensures View() == old(View()).Put(p, WithoutWall(old(View()).At(p), w))
    {
      ghost var g := View();
      var c := cells[p.0][p.1];
      ViewCells();
      c.RemoveWall(w);
      ViewCells();
      ghost var h := g.Put(p, WithoutWall(g.At(p), w));
      forall q | InMaze(q)
        ensures View().At(q) == h.At(q)
      {
        if q != p {
          assert cells[q.0][q.1].row != p.0 || cells[q.0][q.1].col != p.1;
        }
      }
      GridExtensionality(View(), h);
    }

    /** setCELLval on the cell at p, handing back the previous label. */
    method SetValueAt(p: Pos, value: int) returns (previous: int)
      requires Valid() && InMaze(p)
      modifies CellSet
      ensures previous == old(View()).At(p).value
      ensures View() == old(View()).Put(p, old(View()).At(p).(value := value))
    {
      ghost var g := View();
      var c := cells[p.0][p.1];
      ViewCells();
      previous := c.SetValue(value);
      ViewCells();
      ghost var h := g.Put(p, g.At(p).(value := value));
      forall q | InMaze(q)
        ensures View().At(q) == h.At(q)
      {
        if q != p {
          assert cells[q.0][q.1].row != p.0 || cells[q.0][q.1].col != p.1;
        }
      }
      GridExtensionality(View(), h);
    }

    /** setCELLvisited on the cell at p. */
    method SetVisitedAt(p: Pos)
      requires Valid() && InMaze(p)
      modifies CellSet
      ensures View() == old(View()).Put(p, old(View()).At(p).(visited := true))
    {
      ghost var g := View();
      var c := cells[p.0][p.1];
      ViewCells();
      c.SetVisited();
      ViewCells();
      ghost var h := g.Put(p, g.At(p).(visited := true));
      forall q | InMaze(q)
        ensures View().At(q) == h.At(q)
      {
        if q != p {
          assert cells[q.0][q.1].row != p.0 || cells[q.0][q.1].col != p.1;
        }
      }
      GridExtensionality(View(), h);
    }

    /** clearWALL on the cells at p and q, two different cells. */
    method ClearWallBetween(p: Pos, q: Pos)
      requires Valid() && InMaze(p) && InMaze(q) && p != q
      modifies CellSet
      ensures var (w, v) := ClearedWalls(p, q);
              View() == old(View()).Put(p, WithoutWall(old(View()).At(p), w))
                                   .Put(q, WithoutWall(old(View()).At(q), v))
    {
      ghost var g := View();
      var (w, v) := ClearedWalls(p, q);
      var cur, next := cells[p.0][p.1], cells[q.0][q.1];
      assert cur != next by {
        assert cur.row != next.row || cur.col != next.col;
      }
      ViewCells();
      ClearWall(cur, next);
      ViewCells();
      ghost var h := g.Put(p, WithoutWall(g.At(p), w)).Put(q, WithoutWall(g.At(q), v));
      forall r | InMaze(r)
        ensures View().At(r) == h.At(r)
      {
        if r != p && r != q {
          assert cells[r.0][r.1].row != p.0 || cells[r.0][r.1].col != p.1;
          assert cells[r.0][r.1].row != q.0 || cells[r.0][r.1].col != q.1;
        }
      }
      GridExtensionality(View(), h);
    }

    /** isWallEligible: the neighbour of c through `wall` exists and is
        unvisited. */
    function IsWallEligible(c: Cell, wall: WallCode): (eligible: bool)
      reads CellSet
      requires Valid() && c in CellSet
      ensures eligible == Eligible(View(), (c.row, c.col), wall)
    {
      ViewCells();
      if wall == 0 then
        if c.row == 0 then false
        else if cells[c.row - 1][c.col].visited then false
        else true
      else if wall == 1 then
        if c.col == 0 then false
        else if cells[c.row][c.col - 1].visited then false
        else true
      else if wall == 2 then
        if c.col == cols - 1 then false
        else if cells[c.row][c.col + 1].visited then false
        else true
      else
        if c.row == rows - 1 then false
        else if cells[c.row + 1][c.col].visited then false
        else true
    }

    /** isPathClear: c's own `wall` is open and the neighbour through it
        exists and is unvisited. */
    function IsPathClear(c: Cell, wall: WallCode): (clear: bool)
      reads CellSet
      requires Valid() && c in CellSet
      ensures clear == PathClear(View(), (c.row, c.col), wall)
    {
      ViewCells();
      if wall == 0 then
        if c.row == 0 || c.GetWall(0) then false
        else if cells[c.row - 1][c.col].visited then false
        else true
      else if wall == 1 then
        if c.col == 0 || c.GetWall(1) then false
        else if cells[c.row][c.col - 1].visited then false
        else true
      else if wall == 2 then
        if c.col == cols - 1 || c.GetWall(2) then false
        else if cells[c.row][c.col + 1].visited then false
        else true
      else
        if c.row == rows - 1 || c.GetWall(3) then false
        else if cells[c.row + 1][c.col].visited then false
        else true
    }

    /** makePosWallsArray: a new growable array holding the positions of the
        eligible neighbours of `cur`, tried top, left, right, bottom. */
    method MakePosWalls(cur: Pos) returns (posWalls: DynamicArray<Pos>)
      requires Valid() && InMaze(cur)
      ensures fresh(posWalls.Repr) && posWalls.Valid()
      ensures posWalls.Contents == Candidates(View(), cur)
    {
      posWalls := new DynamicArray();
      FillCandidates(posWalls, cur, View());
    }

    /** The four tests of makePosWallsArray on an empty array. */
    method FillCandidates(posWalls: DynamicArray<Pos>, cur: Pos, ghost g: Grid)
      requires Valid() && InMaze(cur) && posWalls.Valid() && posWalls.Contents == [] && g == View()
      requires posWalls.Repr !! CellSet
      modifies posWalls.Repr
      ensures posWalls.Valid() && fresh(posWalls.Repr - old(posWalls.Repr))
      ensures posWalls.Contents == Candidates(g, cur)
    {
      AppendIfEligible(posWalls, cur, Top, g);
      assert posWalls.Contents == CandidateIf(g, cur, Top);
      AppendIfEligible(posWalls, cur, Left, g);
      AppendIfEligible(posWalls, cur, Right, g);
      AppendIfEligible(posWalls, cur, Bottom, g);
    }

    /** One test of makePosWallsArray: append the neighbour of `cur` through
        `wall` when isWallEligible holds for it; `g` is the maze's view. */
    method AppendIfEligible(posWalls: DynamicArray<Pos>, cur: Pos, wall: WallCode, ghost g: Grid)
      requires Valid() && InMaze(cur) && posWalls.Valid() && g == View()
      requires posWalls.Repr !! CellSet
      modifies posWalls.Repr
      ensures posWalls.Valid() && fresh(posWalls.Repr - old(posWalls.Repr)) && posWalls.Repr !! CellSet
      ensures posWalls.Contents == old(posWalls.Contents) + CandidateIf(g, cur, wall)
    {
      if IsWallEligible(cells[cur.0][cur.1], wall) {
        posWalls.InsertBack(Neighbour(cur, wall));
      }
    }

    /** writeMAZE: the dimensions, then row by row each cell's left wall and
        label, the last cell's right wall and, between rows, the bottom
        walls. */
    method Write() returns (tokens: seq<int>)
      requires Valid() && rows >= 1 && cols >= 1
      ensures tokens == Layout(View())
    {
      ghost var g := View();
      var head := [rows, cols];
      tokens := head;
      for i := 0 to rows
        invariant tokens == head + RowsTokens(g, i)
      {
        var row := WriteRow(i);
        RowsTokensAppend(g, i, head, tokens, row);
        tokens := tokens + row;
      }
      assert tokens == Layout(g);
    }

    /** The lines writeMAZE prints for row i: the cell line, then (except
        after the last row) the bottom line. */
    method WriteRow(i: nat) returns (row: seq<int>)
      requires Valid() && i < rows && cols >= 1
      ensures row == RowTokens(View(), i)
    {
      var line := WriteCellLine(i);
      var bottoms := [];
      if i < rows - 1 {
        bottoms := WriteBottomLine(i);
      }
      row := line + bottoms;
    }

    /** The left wall and the label of every cell of row i, then the right
        wall of its last cell. */
    method WriteCellLine(i: nat) returns (line: seq<int>)
      requires Valid() && i < rows && cols >= 1
      ensures line == CellTokens(View(), i, cols) + [Bit(View().At((i, cols - 1)).right)]
    {
      ghost var g := View();
      line := [];
      for j := 0 to cols
        invariant line == CellTokens(g, i, j)
      {
        ViewAt(i, j);
        line := line + [Bit(cells[i][j].GetWall(1)), cells[i][j].value];
      }
      ViewAt(i, cols - 1);
      line := line + [Bit(cells[i][cols - 1].GetWall(2))];
    }

    /** The bottom wall of every cell of row i. */
    method WriteBottomLine(i: nat) returns (line: seq<int>)
      requires Valid() && i < rows
      ensures line == BottomTokens(View(), i, cols)
    {
      ghost var g := View();
      line := [];
      for j := 0 to cols
        invariant line == BottomTokens(g, i, j)
      {
        ViewAt(i, j);
        line := line + [Bit(cells[i][j].GetWall(3))];
      }
    }
  }

  /** The inner loop of newMAZE: row i of new cells, each created by
      newCELL with its own coordinates. */
  method NewRow(i: nat, cols: nat) returns (row: seq<Cell>)
    ensures |row| == cols
    ensures forall j :: 0 <= j < cols ==>
              fresh(row[j]) && row[j].row == i && row[j].col == j && row[j].State() == Fresh
  {
    row := [];
    for j := 0 to cols
      invariant |row| == j
      invariant forall j' :: 0 <= j' < j ==>
                  fresh(row[j']) && row[j'].row == i && row[j'].col == j' && row[j'].State() == Fresh
    {
      var c := new Cell(i, j);
      row := row + [c];
    }
  }

  /** readMAZE: build a fresh maze from a layout, removing a wall for every
      0 token on both cells that share it. */
  method ReadMaze(t: seq<int>) returns (m: Maze)
    requires WellFormed(t)
    ensures fresh(m.CellSet) && m.Valid()
    ensures m.rows == t[0] && m.cols == t[1]
    ensures forall i: nat, j: nat :: i < m.rows && j < m.cols ==>
              m.View().At((i, j)) == DecodeCell(t, i, j)
  {
    var rows, cols := t[0], t[1];
    var pos := 2;
    m := new Maze(rows, cols);
    forall a: nat, b: nat | a < rows && b < cols
      ensures m.View().At((a, b)) == PartialCell(t, Progress(0, 0, false, 0), a, b)
    {
      PartialEnds(t, a, b);
    }
    for i := 0 to rows
      invariant m.Valid() && fresh(m.CellSet)
      invariant m.rows == rows && m.cols == cols
      invariant i < rows ==> pos == RowStart(cols, i)
      invariant PartialGrid(m.View(), t, Progress(i, 0, false, 0))
    {
      pos := ReadRow(m, t, i, pos);
    }
    forall a: nat, b: nat | a < rows && b < cols
      ensures m.View().At((a, b)) == DecodeCell(t, a, b)
    {
      PartialEnds(t, a, b);
    }
  }

  /** One pass of readMAZE's outer loop: the line of row i, then (except
      after the last row) the line under it. */
  method ReadRow(m: Maze, t: seq<int>, i: nat, pos0: nat) returns (pos: nat)
    requires WellFormed(t) && m.Valid() && m.rows == t[0] && m.cols == t[1] && i < t[0]
    requires pos0 == RowStart(t[1], i)
    requires PartialGrid(m.View(), t, Progress(i, 0, false, 0))
    modifies m.CellSet
    ensures i < t[0] - 1 ==> pos == RowStart(t[1], i + 1)
    ensures PartialGrid(m.View(), t, Progress(i + 1, 0, false, 0))
  {
    var rows, cols := t[0], t[1];
    pos := ReadRowCells(m, t, i, pos0);
    ghost var g := m.View();
    pos := ReadRight(m, t, i, pos);
    ReadRightAdvances(g, t, i);
    if i < rows - 1 {
      pos := ReadRowBottoms(m, t, i, pos);
    }
    RowDone(m.View(), t, i);
  }

  /** The token after the last cell of row i: a 0 opens that cell's right
      wall. */
  method ReadRight(m: Maze, t: seq<int>, i: nat, pos0: nat) returns (pos: nat)
    requires WellFormed(t) && m.Valid() && m.rows == t[0] && m.cols == t[1] && i < t[0]
    requires pos0 == RightIdx(t[1], i)
    modifies m.CellSet
    ensures pos == pos0 + 1
    ensures m.View() == ReadRightStep(old(m.View()), t, i)
  {
    IndicesInRange(t[0], t[1], i, 0);
    var wall := t[pos0];
    pos := pos0 + 1;
    if wall == 0 {
      m.RemoveWallAt((i, t[1] - 1), Right);
    }
  }

  /** The inner loop of readMAZE over the cells of row i. */
  method ReadRowCells(m: Maze, t: seq<int>, i: nat, pos0: nat) returns (pos: nat)
    requires WellFormed(t) && m.Valid() && m.rows == t[0] && m.cols == t[1] && i < t[0]
    requires pos0 == RowStart(t[1], i)
    requires PartialGrid(m.View(), t, Progress(i, 0, false, 0))
    modifies m.CellSet
    ensures pos == RightIdx(t[1], i)
    ensures PartialGrid(m.View(), t, Progress(i, t[1], false, 0))
  {
    pos := pos0;
    for j := 0 to t[1]
      invariant pos == LeftIdx(t[1], i, j)
      invariant PartialGrid(m.View(), t, Progress(i, j, false, 0))
    {
      ghost var g := m.View();
      pos := ReadCell(m, t, i, j, pos);
      ReadCellAdvances(g, t, i, j);
    }
  }

  /** The left-wall and label tokens of cell (i, j): a 0 wall opens the
      cell's left wall and, unless j is 0, its left neighbour's right wall. */
  method ReadCell(m: Maze, t: seq<int>, i: nat, j: nat, pos0: nat) returns (pos: nat)
    requires WellFormed(t) && m.Valid() && m.rows == t[0] && m.cols == t[1]
    requires i < t[0] && j < t[1] && pos0 == LeftIdx(t[1], i, j)
    modifies m.CellSet
    ensures pos == pos0 + 2
    ensures m.View() == ReadCellStep(old(m.View()), t, i, j)
  {
    IndicesInRange(t[0], t[1], i, j);
    pos := pos0;
    var wall := t[pos];
    pos := pos + 1;
    if wall == 0 {
      m.RemoveWallAt((i, j), Left);
      if j > 0 {
        m.RemoveWallAt((i, j - 1), Right);
      }
    }
    var value := t[pos];
    pos := pos + 1;
    var _ := m.SetValueAt((i, j), value);
  }

  /** The bottom line of row i (not the last row). */
  method ReadRowBottoms(m: Maze, t: seq<int>, i: nat, pos0: nat) returns (pos: nat)
    requires WellFormed(t) && m.Valid() && m.rows == t[0] && m.cols == t[1] && i < t[0] - 1
    requires pos0 == BottomIdx(t[1], i, 0)
    requires PartialGrid(m.View(), t, Progress(i, t[1], true, 0))
    modifies m.CellSet
    ensures pos == RowStart(t[1], i + 1)
    ensures PartialGrid(m.View(), t, Progress(i, t[1], true, t[1]))
  {
    pos := pos0;
    for j := 0 to t[1]
      invariant pos == BottomIdx(t[1], i, j)
      invariant PartialGrid(m.View(), t, Progress(i, t[1], true, j))
    {
      ghost var g := m.View();
      pos := ReadBottom(m, t, i, j, pos);
      ReadBottomAdvances(g, t, i, j);
    }
  }

  /** Bottom token j under row i: a 0 opens cell (i, j)'s bottom wall and
      the top wall of the cell below (the C code tests `i < rows - 1` again
      here, which always holds). */
  method ReadBottom(m: Maze, t: seq<int>, i: nat, j: nat, pos0: nat) returns (pos: nat)
    requires WellFormed(t) && m.Valid() && m.rows == t[0] && m.cols == t[1]
    requires i < t[0] - 1 && j < t[1] && pos0 == BottomIdx(t[1], i, j)
    modifies m.CellSet
    ensures pos == pos0 + 1
    ensures m.View() == ReadBottomStep(old(m.View()), t, i, j)
  {
    IndicesInRange(t[0], t[1], i, j);
    var wall := t[pos0];
    pos := pos0 + 1;
    if wall == 0 {
      m.RemoveWallAt((i, j), Bottom);
      if i < t[0] - 1 {
        m.RemoveWallAt((i + 1, j), Top);
      }
    }
  }
}
