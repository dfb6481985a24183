/** The cell of cell.c: four walls, a label and a visited flag, plus the
    coordinates the cell was created with. The mutators update the cell in
    place; `CellState` is the value a cell holds at a given moment, which the
    maze reasons about. */
module Cells {

  /** Wall codes as getCELLwall and removeCELLwall number them:
      0 top, 1 left, 2 right, 3 bottom. */
  type WallCode = w: int | 0 <= w <= 3

  const Top: WallCode := 0
  const Left: WallCode := 1
  const Right: WallCode := 2
  const Bottom: WallCode := 3

  /** The wall on the far side of the neighbour: top faces bottom, left faces right. */
  function Opposite(w: WallCode): (o: WallCode)
    ensures o != w
  {
    3 - w
  }

  /** A (row, column) position; rows grow downwards, columns to the right. */
  type Pos = (int, int)

  /** The position one step through wall `w`. */
  function Neighbour(p: Pos, w: WallCode): (n: Pos)
    ensures n != p
    ensures n.0 == p.0 || n.1 == p.1
  {
    if w == Top then (p.0 - 1, p.1)
    else if w == Left then (p.0, p.1 - 1)
    else if w == Right then (p.0, p.1 + 1)
    else (p.0 + 1, p.1)
  }

  /** Stepping through a wall and back through the facing wall returns to
      the start; the four directions lead to four different cells. */
  lemma NeighbourInverse(p: Pos, w: WallCode)
    ensures Opposite(Opposite(w)) == w
    ensures Neighbour(Neighbour(p, w), Opposite(w)) == p
    ensures forall v: WallCode :: v != w ==> Neighbour(p, v) != Neighbour(p, w)
  {
  }

  /** What a cell holds; `true` means the wall is present (1 in the C code). */
  datatype CellState = CellState(top: bool, right: bool, bottom: bool, left: bool,
                                 value: int, visited: bool)

  /** newCELL's initial state: all walls up, label -1, unvisited. */
  const Fresh: CellState := CellState(true, true, true, true, -1, false)

  /** The getCELLwall view of a state. */
  function Wall(s: CellState, w: WallCode): bool
  {
    if w == Top then s.top
    else if w == Left then s.left
    else if w == Right then s.right
    else s.bottom
  }

  /** The state after removeCELLwall: wall `w` gone, everything else kept. */
  function WithoutWall(s: CellState, w: WallCode): (t: CellState)
    ensures !Wall(t, w)
    ensures forall v: WallCode :: v != w ==> Wall(t, v) == Wall(s, v)
    ensures t.value == s.value && t.visited == s.visited
  {
    if w == Top then s.(top := false)
    else if w == Left then s.(left := false)
    else if w == Right then s.(right := false)
    else s.(bottom := false)
  }

  /** Removing a wall twice is the same as removing it once. */
  lemma WithoutWallIdempotent(s: CellState, w: WallCode)
    ensures WithoutWall(WithoutWall(s, w), w) == WithoutWall(s, w)
  {
    var t := WithoutWall(s, w);
    assert forall v: WallCode :: Wall(WithoutWall(t, w), v) == Wall(t, v);
    assert WithoutWall(t, w).top == t.top by { assert Wall(WithoutWall(t, w), Top) == Wall(t, Top); }
    assert WithoutWall(t, w).left == t.left by { assert Wall(WithoutWall(t, w), Left) == Wall(t, Left); }
    assert WithoutWall(t, w).right == t.right by { assert Wall(WithoutWall(t, w), Right) == Wall(t, Right); }
    assert WithoutWall(t, w).bottom == t.bottom by { assert Wall(WithoutWall(t, w), Bottom) == Wall(t, Bottom); }
  }

  /** The walls clearWALL removes from the current and the next cell, chosen
      from their coordinates alone: on the same row by comparing columns,
      otherwise by comparing rows. For adjacent cells they are the two sides
      of the wall between them. */
  function ClearedWalls(cur: Pos, next: Pos): (r: (WallCode, WallCode))
    ensures forall w: WallCode :: next == Neighbour(cur, w) ==> r == (w, Opposite(w))
  {
    if cur.0 == next.0 then
      (if cur.1 < next.1 then (Right, Left) else (Left, Right))
    else
      (if cur.0 < next.0 then (Bottom, Top) else (Top, Bottom))
  }

  class Cell {
    const row: int
    const col: int
    var top: bool
    var right: bool
    var bottom: bool
    var left: bool
    var value: int
    var visited: bool

    ghost function State(): CellState
      reads this
    {
      CellState(top, right, bottom, left, value, visited)
    }

    /** newCELL */
    constructor (row: int, col: int)
      ensures this.row == row && this.col == col
      ensures State() == Fresh
    {
      this.row := row;
      this.col := col;
      top := true;
      right := true;
      bottom := true;
      left := true;
      value := -1;
      visited := false;
    }

    /** getCELLwall */
    function GetWall(w: WallCode): (present: bool)
      reads this
      ensures present == Wall(State(), w)
    {
      if w == 0 then top
      else if w == 1 then left
      else if w == 2 then right
      else bottom
    }

    /** removeCELLwall */
    method RemoveWall(w: WallCode)
      modifies this
      ensures State() == WithoutWall(old(State()), w)
    {
      if w == 0 {
        top := false;
      } else if w == 1 {
        left := false;
      } else if w == 2 {
        right := false;
      } else if w == 3 {
        bottom := false;
      }
    }

    /** setCELLval: store the new label and hand back the previous one. */
    method SetValue(newValue: int) returns (previous: int)
      modifies this
      ensures previous == old(value)
      ensures State() == old(State()).(value := newValue)
    {
      previous := value;
      value := newValue;
    }

    /** setCELLvisited: nothing in the C code ever clears the flag again. */
    method SetVisited()
      modifies this
      ensures State() == old(State()).(visited := true)
    {
      visited := true;
    }
  }

  /** clearWALL: remove the walls ClearedWalls names from the two cells. */
  method ClearWall(cur: Cell, next: Cell)
    modifies cur, next
    ensures var (w, v) := ClearedWalls((cur.row, cur.col), (next.row, next.col));
            if cur == next then cur.State() == WithoutWall(WithoutWall(old(cur.State()), w), v)
            else cur.State() == WithoutWall(old(cur.State()), w)
                 && next.State() == WithoutWall(old(next.State()), v)
  {
    if cur.row == next.row {
      if cur.col < next.col {
        cur.RemoveWall(2);
        next.RemoveWall(1);
      } else {
        cur.RemoveWall(1);
        next.RemoveWall(2);
      }
    } else {
      if cur.row < next.row {
        cur.RemoveWall(3);
        next.RemoveWall(0);
      } else {
        cur.RemoveWall(0);
        next.RemoveWall(3);
      }
    }
  }
}
