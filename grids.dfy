/** The maze as a value: the states of its rows × cols cells, indexed by
    position. The maze object of maze.c is related to this value by its
    `View`; everything the generator and the solver guarantee is stated
    here. */
module Grids {
  import opened Cells

  datatype Grid = Grid(rows: nat, cols: nat, cells: seq<seq<CellState>>) {

    ghost predicate Valid()
    {
      && |cells| == rows
      && forall i :: 0 <= i < rows ==> |cells[i]| == cols
    }

    predicate Contains(p: Pos)
    {
      0 <= p.0 < rows && 0 <= p.1 < cols
    }

    ghost function At(p: Pos): CellState
      requires Valid() && Contains(p)
    {
      cells[p.0][p.1]
    }

    /** The grid with the cell at `p` replaced by `s`. */
    ghost function Put(p: Pos, s: CellState): (h: Grid)
      requires Valid() && Contains(p)
      ensures h.Valid() && h.rows == rows && h.cols == cols
      ensures h.At(p) == s
      ensures forall q :: Contains(q) && q != p ==> h.At(q) == At(q)
    {
      Grid(rows, cols, cells[p.0 := cells[p.0][p.1 := s]])
    }
  }

  /** Two grids of the same shape are equal when they agree cell by cell. */
  lemma GridExtensionality(g: Grid, h: Grid)
    requires g.Valid() && h.Valid() && g.rows == h.rows && g.cols == h.cols
    requires forall p :: g.Contains(p) ==> g.At(p) == h.At(p)
    ensures g == h
  {
    forall i | 0 <= i < g.rows
      ensures g.cells[i] == h.cells[i]
    {
      forall j | 0 <= j < g.cols
        ensures g.cells[i][j] == h.cells[i][j]
      {
        assert g.At((i, j)) == h.At((i, j));
      }
    }
  }

  /** The grid newMAZE builds: every cell as newCELL leaves it. */
  ghost function Blank(rows: nat, cols: nat): (g: Grid)
    ensures g.Valid() && g.rows == rows && g.cols == cols
    ensures forall p :: g.Contains(p) ==> g.At(p) == Fresh
  {
    Grid(rows, cols, seq(rows, i => seq(cols, j => Fresh)))
  }

  /** Every position of a rows × cols grid. */
  ghost function AllPos(rows: nat, cols: nat): (s: set<Pos>)
    ensures forall p :: p in s <==> 0 <= p.0 < rows && 0 <= p.1 < cols
  {
    set i, j | 0 <= i < rows && 0 <= j < cols :: (i, j)
  }

  ghost function RowPos(i: int, cols: nat): (s: set<Pos>)
    ensures forall p :: p in s <==> p.0 == i && 0 <= p.1 < cols
  {
    set j | 0 <= j < cols :: (i, j)
  }

  lemma {:induction false} RowPosSize(i: int, cols: nat)
    ensures |RowPos(i, cols)| == cols
  {
    if cols > 0 {
      RowPosSize(i, cols - 1);
      assert RowPos(i, cols) == RowPos(i, cols - 1) + {(i, cols - 1)};
    } else {
      assert RowPos(i, cols) == {};
    }
  }

  /** The positions of the first rows rows are those of the rows above the
      last one plus the last row, and the two parts share nothing. */
  lemma AllPosSplit(rows: nat, cols: nat)
    requires rows > 0
    ensures AllPos(rows, cols) == AllPos(rows - 1, cols) + RowPos(rows - 1, cols)
    ensures AllPos(rows - 1, cols) !! RowPos(rows - 1, cols)
  {
  }

  lemma MultiplyStep(rows: nat, cols: nat)
    requires rows > 0
    ensures (rows - 1) * cols + cols == rows * cols
  {
  }

  /** A rows × cols grid has rows · cols cells. */
  lemma {:induction false} AllPosSize(rows: nat, cols: nat)
    ensures |AllPos(rows, cols)| == rows * cols
  {
    if rows > 0 {
      AllPosSize(rows - 1, cols);
      RowPosSize(rows - 1, cols);
      AllPosSplit(rows, cols);
      MultiplyStep(rows, cols);
    } else {
      assert AllPos(rows, cols) == {};
    }
  }

  /** Both sides of every shared wall agree: the wall of p facing its
      neighbour is present exactly when the neighbour's facing wall is. */
  ghost predicate WallsAgree(g: Grid)
    requires g.Valid()
  {
    forall p: Pos, w: WallCode :: g.Contains(p) && g.Contains(Neighbour(p, w)) ==>
      Wall(g.At(p), w) == Wall(g.At(Neighbour(p, w)), Opposite(w))
  }

  /** A move from p through wall w: the neighbour is inside the grid and p's
      own wall w is absent (the solver looks only at the current cell's
      wall). */
  ghost predicate CanMove(g: Grid, p: Pos, w: WallCode)
    requires g.Valid()
  {
    g.Contains(p) && g.Contains(Neighbour(p, w)) && !Wall(g.At(p), w)
  }

  /** One move from p to q, in one of the four directions. */
  ghost predicate Step(g: Grid, p: Pos, q: Pos)
    requires g.Valid()
  {
    || (CanMove(g, p, Top) && q == Neighbour(p, Top))
    || (CanMove(g, p, Left) && q == Neighbour(p, Left))
    || (CanMove(g, p, Right) && q == Neighbour(p, Right))
    || (CanMove(g, p, Bottom) && q == Neighbour(p, Bottom))
  }

  lemma StepIsMove(g: Grid, p: Pos, q: Pos, w: WallCode)
    requires g.Valid() && CanMove(g, p, w) && q == Neighbour(p, w)
    ensures Step(g, p, q)
  {
  }

  /** A walk through open walls, one move at a time. */
  ghost predicate IsWalk(g: Grid, path: seq<Pos>)
    requires g.Valid()
  {
    && |path| >= 1
    && g.Contains(path[0])
    && forall k :: 0 <= k < |path| - 1 ==> Step(g, path[k], path[k + 1])
  }

  /** p can be reached from the entrance cell (0, 0). */
  ghost predicate Reachable(g: Grid, p: Pos)
    requires g.Valid()
  {
    exists path :: IsWalk(g, path) && path[0] == (0, 0) && path[|path| - 1] == p
  }

  /** h has no wall that g lacks. */
  ghost predicate NoMoreWalls(g: Grid, h: Grid)
    requires g.Valid() && h.Valid()
  {
    && g.rows == h.rows && g.cols == h.cols
    && forall p: Pos, w: WallCode :: g.Contains(p) && Wall(h.At(p), w) ==> Wall(g.At(p), w)
  }

  /** Removing walls keeps every walk a walk. */
  lemma WalkSurvives(g: Grid, h: Grid, path: seq<Pos>)
    requires g.Valid() && h.Valid() && NoMoreWalls(g, h) && IsWalk(g, path)
    ensures IsWalk(h, path)
  {
    forall k | 0 <= k < |path| - 1
      ensures Step(h, path[k], path[k + 1])
    {
      assert Step(g, path[k], path[k + 1]);
    }
  }

  /** A walk extended by one move is a walk. */
  lemma WalkExtend(g: Grid, path: seq<Pos>, q: Pos)
    requires g.Valid() && IsWalk(g, path) && Step(g, path[|path| - 1], q)
    ensures IsWalk(g, path + [q])
  {
    var path' := path + [q];
    forall k | 0 <= k < |path'| - 1
      ensures Step(g, path'[k], path'[k + 1])
    {
      if k < |path| - 1 {
        assert path'[k] == path[k] && path'[k + 1] == path[k + 1];
      }
    }
  }

  /** The test isWallEligible makes: the neighbour through wall w exists
      and has not been visited; the wall itself does not matter. */
  ghost predicate Eligible(g: Grid, p: Pos, w: WallCode)
    requires g.Valid()
  {
    g.Contains(Neighbour(p, w)) && !g.At(Neighbour(p, w)).visited
  }

  /** The test isPathClear makes: p's wall w is absent, the neighbour
      exists and has not been visited. */
  ghost predicate PathClear(g: Grid, p: Pos, w: WallCode)
    requires g.Valid() && g.Contains(p)
  {
    CanMove(g, p, w) && !g.At(Neighbour(p, w)).visited
  }

  ghost function CandidateIf(g: Grid, p: Pos, w: WallCode): seq<Pos>
    requires g.Valid()
  {
    if Eligible(g, p, w) then [Neighbour(p, w)] else []
  }

  /** The list makePosWallsArray builds for p: the eligible neighbours,
      tried in the order top, left, right, bottom. */
  ghost function Candidates(g: Grid, p: Pos): seq<Pos>
    requires g.Valid()
  {
    CandidateIf(g, p, Top) + CandidateIf(g, p, Left) + CandidateIf(g, p, Right)
      + CandidateIf(g, p, Bottom)
  }

  /** The neighbour through w is a candidate exactly when it is eligible,
      and every candidate is such a neighbour. */
  lemma CandidatesAreEligible(g: Grid, p: Pos)
    requires g.Valid()
    ensures forall w: WallCode :: Neighbour(p, w) in Candidates(g, p) <==> Eligible(g, p, w)
    ensures forall q :: q in Candidates(g, p) ==>
              exists w: WallCode :: q == Neighbour(p, w) && Eligible(g, p, w)
    ensures |Candidates(g, p)| <= 4
  {
    var c := Candidates(g, p);
    forall w: WallCode
      ensures Neighbour(p, w) in c <==> Eligible(g, p, w)
    {
      NeighbourInverse(p, w);
    }
    forall q | q in c
      ensures exists w: WallCode :: q == Neighbour(p, w) && Eligible(g, p, w)
    {
      if q in CandidateIf(g, p, Top) {
        assert q == Neighbour(p, Top) && Eligible(g, p, Top);
      } else if q in CandidateIf(g, p, Left) {
        assert q == Neighbour(p, Left) && Eligible(g, p, Left);
      } else if q in CandidateIf(g, p, Right) {
        assert q == Neighbour(p, Right) && Eligible(g, p, Right);
      } else {
        assert q == Neighbour(p, Bottom) && Eligible(g, p, Bottom);
      }
    }
  }

  /** The candidates come in increasing wall-code order: top, left, right,
      bottom. */
  lemma CandidatesInWallOrder(g: Grid, p: Pos, a: nat, b: nat, v: WallCode, w: WallCode)
    requires g.Valid() && a < b < |Candidates(g, p)|
    requires Candidates(g, p)[a] == Neighbour(p, v) && Candidates(g, p)[b] == Neighbour(p, w)
    ensures v < w
  {
    var t, l, r, m := CandidateIf(g, p, Top), CandidateIf(g, p, Left),
                      CandidateIf(g, p, Right), CandidateIf(g, p, Bottom);
    var c := Candidates(g, p);
    assert c == t + l + r + m;
    NeighbourInverse(p, v);
    NeighbourInverse(p, w);
    // each piece holds at most the neighbour through its own wall
    assert forall k :: 0 <= k < |t| ==> c[k] == Neighbour(p, Top);
    assert forall k :: |t| <= k < |t| + |l| ==> c[k] == Neighbour(p, Left);
    assert forall k :: |t| + |l| <= k < |t| + |l| + |r| ==> c[k] == Neighbour(p, Right);
    assert forall k :: |t| + |l| + |r| <= k < |c| ==> c[k] == Neighbour(p, Bottom);
  }

  /** The list is empty exactly when every neighbour inside the grid has
      been visited: the dead end that sends the generator back. */
  lemma NoCandidatesMeansDeadEnd(g: Grid, p: Pos)
    requires g.Valid()
    ensures Candidates(g, p) == [] <==>
              forall w: WallCode :: g.Contains(Neighbour(p, w)) ==> g.At(Neighbour(p, w)).visited
  {
    CandidatesAreEligible(g, p);
    if Candidates(g, p) != [] {
      assert Candidates(g, p)[0] in Candidates(g, p);
    }
  }
}
