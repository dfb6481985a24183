/** createMAZE: a randomised depth-first search over the maze's cells with
    an explicit stack. Each carve clears the wall between a visited cell and
    an unvisited neighbour and visits the neighbour; a cell with no unvisited
    neighbour is popped. What the search guarantees is stated on the grid
    value the maze holds (`Perfect`). */
module Generation {
  import opened Cells
  import opened Grids
  import opened Layouts
  import opened DynamicArrays
  import opened Stacks
  import opened Mazes

  /** The cell the search starts from, whose left wall is the way in. */
  const Entrance: Pos := (0, 0)

  /** A carve: the wall `w` of cell `p` was cleared towards its neighbour,
      which was then visited. */
  type Edge = (Pos, WallCode)

  function Target(e: Edge): Pos
  {
    Neighbour(e.0, e.1)
  }

  /** The cells reached from the entrance by a sequence of carves. */
  ghost function Discovered(edges: seq<Edge>): set<Pos>
  {
    if edges == [] then {Entrance}
    else Discovered(edges[..|edges| - 1]) + {Target(edges[|edges| - 1])}
  }

  /** Each carve starts at a cell already reached and ends at one not yet
      reached: the carves are the edges of a tree rooted at the entrance. */
  ghost predicate GrowsTree(edges: seq<Edge>)
  {
    forall k :: 0 <= k < |edges| ==>
      edges[k].0 in Discovered(edges[..k]) && Target(edges[k]) !in Discovered(edges[..k])
  }

  lemma GrowsTreeExtend(edges: seq<Edge>, e: Edge)
    requires GrowsTree(edges)
    requires e.0 in Discovered(edges) && Target(e) !in Discovered(edges)
    ensures GrowsTree(edges + [e])
    ensures Discovered(edges + [e]) == Discovered(edges) + {Target(e)}
  {
    var es := edges + [e];
    assert es[..|edges|] == edges;
    forall k | 0 <= k < |es|
      ensures es[k].0 in Discovered(es[..k]) && Target(es[k]) !in Discovered(es[..k])
    {
      if k < |edges| {
        assert es[..k] == edges[..k];
      }
    }
  }

  /** A tree of n carves reaches n + 1 cells. */
  lemma {:induction false} DiscoveredSize(edges: seq<Edge>)
    requires GrowsTree(edges)
    ensures |Discovered(edges)| == |edges| + 1
  {
    if edges != [] {
      var n := |edges| - 1;
      var front := edges[..n];
      forall k | 0 <= k < n
        ensures front[k].0 in Discovered(front[..k]) && Target(front[k]) !in Discovered(front[..k])
      {
        assert front[..k] == edges[..k];
      }
      DiscoveredSize(front);
      assert Target(edges[n]) !in Discovered(front) by {
        assert edges[..n] == front;
      }
    }
  }

  /** The wall of p facing its neighbour through w was carved, from either side. */
  ghost predicate Carved(edges: seq<Edge>, p: Pos, w: WallCode)
  {
    (p, w) in edges || (Neighbour(p, w), Opposite(w)) in edges
  }

  /** One carve on the grid value: clearWALL on p and its neighbour through
      w, then setCELLvisited on the neighbour. */
  ghost function CarveStep(g: Grid, p: Pos, w: WallCode): (h: Grid)
    requires g.Valid() && g.Contains(p) && g.Contains(Neighbour(p, w))
    ensures h.Valid() && h.rows == g.rows && h.cols == g.cols
  {
    var q := Neighbour(p, w);
    var h := g.Put(p, WithoutWall(g.At(p), w)).Put(q, WithoutWall(g.At(q), Opposite(w)));
    h.Put(q, h.At(q).(visited := true))
  }

  /** A carve changes exactly two cells: one wall of p, and the facing wall
      and the visited flag of its neighbour. */
  lemma CarveStepAt(g: Grid, p: Pos, w: WallCode, r: Pos)
    requires g.Valid() && g.Contains(p) && g.Contains(Neighbour(p, w)) && g.Contains(r)
    ensures CarveStep(g, p, w).At(r) ==
              if r == p then WithoutWall(g.At(p), w)
              else if r == Neighbour(p, w) then WithoutWall(g.At(r), Opposite(w)).(visited := true)
              else g.At(r)
  {
  }

  /** A carve adds no wall. */
  lemma CarveNoMoreWalls(g: Grid, p: Pos, w: WallCode)
    requires g.Valid() && g.Contains(p) && g.Contains(Neighbour(p, w))
    ensures NoMoreWalls(g, CarveStep(g, p, w))
  {
    forall r: Pos, v: WallCode | g.Contains(r) && Wall(CarveStep(g, p, w).At(r), v)
      ensures Wall(g.At(r), v)
    {
      CarveStepAt(g, p, w, r);
    }
  }

  // ---- the loop invariant of createMAZE --------------------------------

  /** The visited flags mark exactly the cells reached so far. */
  ghost predicate SeenInv(g: Grid, seen: set<Pos>)
    requires g.Valid()
  {
    && (forall p :: p in seen ==> g.Contains(p))
    && (forall p :: g.Contains(p) ==> (g.At(p).visited <==> p in seen))
  }

  /** Every neighbour of p inside the grid has been reached. */
  ghost predicate DeadEnd(g: Grid, seen: set<Pos>, p: Pos)
  {
    forall w: WallCode :: g.Contains(Neighbour(p, w)) ==> Neighbour(p, w) in seen
  }

  /** The stack holds distinct reached cells, and a reached cell that is no
      longer on it has no neighbour left to reach. */
  ghost predicate StackInv(g: Grid, seen: set<Pos>, stack: seq<Pos>)
  {
    && (forall k :: 0 <= k < |stack| ==> stack[k] in seen)
    && (forall k, l :: 0 <= k < l < |stack| ==> stack[k] != stack[l])
    && (forall p {:trigger DeadEnd(g, seen, p)} :: p in seen && p !in stack ==> DeadEnd(g, seen, p))
  }

  /** An inner wall is open exactly where a carve went through it. */
  ghost predicate OpenExactlyCarved(g: Grid, edges: seq<Edge>)
    requires g.Valid()
  {
    forall p, w {:trigger Carved(edges, p, w)} :: g.Contains(p) && g.Contains(Neighbour(p, w)) ==>
      (!Wall(g.At(p), w) <==> Carved(edges, p, w))
  }

  /** The outer side walls stand: the left wall of every cell of column 0
      below the entrance, and the right wall of the first n cells of the
      last column. */
  ghost predicate SidesClosed(g: Grid, n: int)
    requires g.Valid()
  {
    && (forall p :: g.Contains(p) && p.0 > 0 && p.1 == 0 ==> g.At(p).left)
    && (forall p :: g.Contains(p) && p.0 < n && p.1 == g.cols - 1 ==> g.At(p).right)
  }

  /** The two sides of every shared wall agree, the outer walls stand but
      for the entrance's left wall, an inner wall is open exactly where a
      carve went through it, and no label has been set. */
  ghost predicate WallInv(g: Grid, edges: seq<Edge>)
    requires g.Valid()
  {
    && WallsAgree(g)
    && OuterRowsClosed(g) && SidesClosed(g, g.rows)
    && OpenExactlyCarved(g, edges)
    && (forall p :: g.Contains(p) ==> g.At(p).value == -1)
  }

  ghost predicate ReachInv(g: Grid, seen: set<Pos>)
    requires g.Valid()
  {
    forall p {:trigger Reachable(g, p)} :: p in seen ==> Reachable(g, p)
  }

  ghost predicate GenInv(g: Grid, rows: nat, cols: nat, stack: seq<Pos>, seen: set<Pos>, edges: seq<Edge>)
  {
    && g.Valid() && g.rows == rows && g.cols == cols && rows >= 1 && cols >= 1
    && seen == Discovered(edges) && GrowsTree(edges)
    && Entrance in seen && SeenInv(g, seen)
    && StackInv(g, seen, stack)
    && WallInv(g, edges)
    && ReachInv(g, seen)
    && !g.At(Entrance).left
  }

  /** The grid after the first three steps of createMAZE: the entrance's
      left wall removed and the entrance visited. */
  ghost function StartGrid(rows: nat, cols: nat): (g: Grid)
    requires rows >= 1 && cols >= 1
    ensures g.Valid() && g.rows == rows && g.cols == cols
  {
    var b := Blank(rows, cols);
    var h := b.Put(Entrance, WithoutWall(b.At(Entrance), Left));
    h.Put(Entrance, h.At(Entrance).(visited := true))
  }

  lemma GenStart(rows: nat, cols: nat)
    requires rows >= 1 && cols >= 1
    ensures GenInv(StartGrid(rows, cols), rows, cols, [Entrance], {Entrance}, [])
  {
    var g := StartGrid(rows, cols);
    assert forall p :: g.Contains(p) ==>
             g.At(p) == if p == Entrance then Fresh.(left := false, visited := true) else Fresh;
    assert IsWalk(g, [Entrance]);
    assert forall p, w :: g.Contains(p) && g.Contains(Neighbour(p, w)) ==> Wall(g.At(p), w) by {
      forall p, w | g.Contains(p) && g.Contains(Neighbour(p, w))
        ensures Wall(g.At(p), w)
      {
        assert p != Entrance || w != Left;
      }
    }
  }

  // ---- a carve keeps the invariant -------------------------------------

  lemma CarveKeepsSeen(g: Grid, seen: set<Pos>, p: Pos, w: WallCode)
    requires g.Valid() && g.Contains(p) && g.Contains(Neighbour(p, w))
    requires SeenInv(g, seen)
    ensures SeenInv(CarveStep(g, p, w), seen + {Neighbour(p, w)})
  {
    forall r | g.Contains(r)
      ensures CarveStep(g, p, w).At(r).visited <==> r in seen + {Neighbour(p, w)}
    {
      CarveStepAt(g, p, w, r);
    }
  }

  lemma CarveKeepsStack(g: Grid, seen: set<Pos>, stack: seq<Pos>, p: Pos, w: WallCode)
    requires g.Valid() && g.Contains(p) && g.Contains(Neighbour(p, w))
    requires StackInv(g, seen, stack) && Neighbour(p, w) !in seen
    ensures StackInv(CarveStep(g, p, w), seen + {Neighbour(p, w)}, stack + [Neighbour(p, w)])
  {
    var q := Neighbour(p, w);
    var h, seen', stack' := CarveStep(g, p, w), seen + {q}, stack + [q];
    forall r | r in seen' && r !in stack'
      ensures DeadEnd(h, seen', r)
    {
      assert r in seen && r !in stack;
      assert DeadEnd(g, seen, r);
    }
  }

  /** The pair (r, v) keeps its two sides in agreement through a carve. */
  lemma CarveAgreesAt(g: Grid, p: Pos, w: WallCode, r: Pos, v: WallCode)
    requires g.Valid() && g.Contains(p) && g.Contains(Neighbour(p, w))
    requires g.Contains(r) && g.Contains(Neighbour(r, v)) && WallsAgree(g)
    ensures Wall(CarveStep(g, p, w).At(r), v)
              == Wall(CarveStep(g, p, w).At(Neighbour(r, v)), Opposite(v))
  {
    var q, n := Neighbour(p, w), Neighbour(r, v);
    NeighbourInverse(p, w);
    NeighbourInverse(r, v);
    NeighbourInverse(q, Opposite(w));
    NeighbourInverse(n, Opposite(v));
    CarveStepAt(g, p, w, r);
    CarveStepAt(g, p, w, n);
    assert Wall(g.At(r), v) == Wall(g.At(n), Opposite(v));
  }

  /** The wall (r, v) is open after a carve exactly when some carve,
      this one included, went through it. */
  lemma CarvedAt(g: Grid, edges: seq<Edge>, p: Pos, w: WallCode, r: Pos, v: WallCode)
    requires g.Valid() && g.Contains(p) && g.Contains(Neighbour(p, w))
    requires g.Contains(r) && g.Contains(Neighbour(r, v))
    requires !Wall(g.At(r), v) <==> Carved(edges, r, v)
    ensures !Wall(CarveStep(g, p, w).At(r), v) <==> Carved(edges + [(p, w)], r, v)
  {
    var q, n := Neighbour(p, w), Neighbour(r, v);
    NeighbourInverse(p, w);
    NeighbourInverse(r, v);
    NeighbourInverse(q, Opposite(w));
    CarveStepAt(g, p, w, r);
    if (r, v) == (p, w) || (n, Opposite(v)) == (p, w) {
      assert Carved(edges + [(p, w)], r, v);
    } else {
      assert Carved(edges + [(p, w)], r, v) == Carved(edges, r, v);
    }
  }

  lemma CarveKeepsWalls(g: Grid, edges: seq<Edge>, p: Pos, w: WallCode)
    requires g.Valid() && g.Contains(p) && g.Contains(Neighbour(p, w))
    requires WallInv(g, edges)
    ensures WallInv(CarveStep(g, p, w), edges + [(p, w)])
  {
    CarveKeepsAgree(g, p, w);
    CarveKeepsCarved(g, edges, p, w);
    CarveKeepsOuter(g, p, w);
  }

  lemma CarveKeepsAgree(g: Grid, p: Pos, w: WallCode)
    requires g.Valid() && g.Contains(p) && g.Contains(Neighbour(p, w)) && WallsAgree(g)
    ensures WallsAgree(CarveStep(g, p, w))
  {
    var h := CarveStep(g, p, w);
    forall r, v | g.Contains(r) && g.Contains(Neighbour(r, v))
      ensures Wall(h.At(r), v) == Wall(h.At(Neighbour(r, v)), Opposite(v))
    {
      CarveAgreesAt(g, p, w, r, v);
    }
  }

  lemma CarveKeepsCarved(g: Grid, edges: seq<Edge>, p: Pos, w: WallCode)
    requires g.Valid() && g.Contains(p) && g.Contains(Neighbour(p, w))
    requires OpenExactlyCarved(g, edges)
    ensures OpenExactlyCarved(CarveStep(g, p, w), edges + [(p, w)])
  {
    var h := CarveStep(g, p, w);
    forall r, v | g.Contains(r) && g.Contains(Neighbour(r, v))
      ensures !Wall(h.At(r), v) <==> Carved(edges + [(p, w)], r, v)
    {
      assert Carved(edges, r, v) <==> !Wall(g.At(r), v);
      CarvedAt(g, edges, p, w, r, v);
    }
  }

  /** A carve opens a shared wall only: every outer wall stays up. */
  lemma CarveKeepsOuter(g: Grid, p: Pos, w: WallCode)
    requires g.Valid() && g.Contains(p) && g.Contains(Neighbour(p, w))
    requires OuterRowsClosed(g) && SidesClosed(g, g.rows)
    requires forall r :: g.Contains(r) ==> g.At(r).value == -1
    ensures var h := CarveStep(g, p, w);
            && OuterRowsClosed(h) && SidesClosed(h, h.rows)
            && forall r :: h.Contains(r) ==> h.At(r).value == -1
  {
    var h := CarveStep(g, p, w);
    forall r | g.Contains(r)
      ensures h.At(r).value == -1
      ensures r.0 == 0 ==> h.At(r).top
      ensures r.0 == g.rows - 1 ==> h.At(r).bottom
      ensures r.0 > 0 && r.1 == 0 ==> h.At(r).left
      ensures r.1 == g.cols - 1 ==> h.At(r).right
    {
      CarveStepAt(g, p, w, r);
      assert r.0 == 0 ==> g.At(r).top;
      assert r.0 == g.rows - 1 ==> g.At(r).bottom;
      assert r.0 > 0 && r.1 == 0 ==> g.At(r).left;
      assert r.1 == g.cols - 1 ==> g.At(r).right;
      if r == p {
        assert r.1 == 0 ==> w != Left;
        assert r.1 == g.cols - 1 ==> w != Right;
      } else if r == Neighbour(p, w) {
        assert r.1 == 0 ==> Opposite(w) != Left;
        assert r.1 == g.cols - 1 ==> Opposite(w) != Right;
      }
    }
  }

  lemma CarveKeepsReach(g: Grid, seen: set<Pos>, p: Pos, w: WallCode)
    requires g.Valid() && g.Contains(p) && g.Contains(Neighbour(p, w)) && p in seen
    requires ReachInv(g, seen)
    ensures ReachInv(CarveStep(g, p, w), seen + {Neighbour(p, w)})
  {
    var h, q := CarveStep(g, p, w), Neighbour(p, w);
    CarveNoMoreWalls(g, p, w);
    forall r | r in seen
      ensures Reachable(h, r)
    {
      assert Reachable(g, r);
      var path :| IsWalk(g, path) && path[0] == Entrance && path[|path| - 1] == r;
      WalkSurvives(g, h, path);
    }
    assert Reachable(g, p);
    var path :| IsWalk(g, path) && path[0] == Entrance && path[|path| - 1] == p;
    WalkSurvives(g, h, path);
    CarveStepAt(g, p, w, p);
    StepIsMove(h, p, q, w);
    WalkExtend(h, path, q);
    assert (path + [q])[0] == Entrance;
  }

  /** Carving from a reached cell p towards an unreached neighbour keeps
      the invariant, with the neighbour pushed and reached. */
  lemma CarveKeeps(g: Grid, rows: nat, cols: nat, stack: seq<Pos>, seen: set<Pos>,
                   edges: seq<Edge>, p: Pos, w: WallCode)
    requires GenInv(g, rows, cols, stack, seen, edges)
    requires p in seen && Eligible(g, p, w)
    ensures Neighbour(p, w) !in seen
    ensures GenInv(CarveStep(g, p, w), rows, cols, stack + [Neighbour(p, w)],
                   seen + {Neighbour(p, w)}, edges + [(p, w)])
  {
    var q := Neighbour(p, w);
    assert g.Contains(p) && q !in seen;
    GrowsTreeExtend(edges, (p, w));
    CarveKeepsSeen(g, seen, p, w);
    CarveKeepsStack(g, seen, stack, p, w);
    CarveKeepsWalls(g, edges, p, w);
    CarveKeepsReach(g, seen, p, w);
    CarveNoMoreWalls(g, p, w);
  }

  /** The top of the stack is a reached cell of the grid. */
  lemma TopReached(g: Grid, rows: nat, cols: nat, stack: seq<Pos>, seen: set<Pos>, edges: seq<Edge>)
    requires GenInv(g, rows, cols, stack, seen, edges) && |stack| > 0
    ensures stack[|stack| - 1] in seen && g.Contains(stack[|stack| - 1])
  {
  }

  /** Popping a cell with no unvisited neighbour keeps the invariant. */
  lemma PopKeeps(g: Grid, rows: nat, cols: nat, stack: seq<Pos>, seen: set<Pos>, edges: seq<Edge>)
    requires GenInv(g, rows, cols, stack, seen, edges) && |stack| > 0
    requires Candidates(g, stack[|stack| - 1]) == []
    ensures GenInv(g, rows, cols, stack[..|stack| - 1], seen, edges)
  {
    var top, rest := stack[|stack| - 1], stack[..|stack| - 1];
    NoCandidatesMeansDeadEnd(g, top);
    assert DeadEnd(g, seen, top);
    forall r | r in seen && r !in rest
      ensures DeadEnd(g, seen, r)
    {
      if r != top {
        assert r !in stack;
      }
    }
  }

  /** Once every reached cell is a dead end, every cell has been reached:
      (i, j) is reached through its left neighbour, or, in column 0,
      through the cell above. */
  lemma {:induction false} ReachedAll(g: Grid, seen: set<Pos>, i: nat, j: nat)
    requires Entrance in seen && forall p :: p in seen ==> DeadEnd(g, seen, p)
    requires g.Contains((i, j))
    ensures (i, j) in seen
    decreases i, j
  {
    if j > 0 {
      ReachedAll(g, seen, i, j - 1);
      assert DeadEnd(g, seen, (i, j - 1));
      assert Neighbour((i, j - 1), Right) == (i, j);
    } else if i > 0 {
      ReachedAll(g, seen, i - 1, 0);
      assert DeadEnd(g, seen, (i - 1, 0));
      assert Neighbour((i - 1, 0), Bottom) == (i, j);
    }
  }

  /** Every cell is reached once the stack is empty. */
  lemma SeenIsAll(g: Grid, seen: set<Pos>)
    requires g.Valid() && Entrance in seen && StackInv(g, seen, [])
    requires forall p :: p in seen ==> g.Contains(p)
    ensures seen == AllPos(g.rows, g.cols)
  {
    forall p | g.Contains(p)
      ensures p in seen
    {
      ReachedAll(g, seen, p.0, p.1);
    }
  }

  /** An empty stack means the search is over: every cell is reached, and
      by rows · cols − 1 carves. */
  lemma Finish(g: Grid, seen: set<Pos>, edges: seq<Edge>)
    requires g.Valid() && Entrance in seen && SeenInv(g, seen) && StackInv(g, seen, [])
    requires seen == Discovered(edges) && GrowsTree(edges)
    ensures seen == AllPos(g.rows, g.cols)
    ensures |edges| == g.rows * g.cols - 1
  {
    SeenIsAll(g, seen);
    AllPosSize(g.rows, g.cols);
    DiscoveredSize(edges);
  }

  /** What createMAZE leaves behind: a perfect maze. Every cell is visited
      and reachable from the entrance, whose left wall is open, as is the
      exit's right wall; every other outer wall stands and shared walls
      agree; the open inner walls are exactly the carves, which form a tree
      over all rows · cols cells; no label is set. */
  ghost predicate Perfect(g: Grid, edges: seq<Edge>)
    requires g.Valid()
  {
    && g.rows >= 1 && g.cols >= 1
    && WallsAgree(g) && OuterRowsClosed(g) && SidesClosed(g, g.rows - 1)
    && !g.At(Entrance).left && !g.At((g.rows - 1, g.cols - 1)).right
    && (forall p :: g.Contains(p) ==> g.At(p).visited && g.At(p).value == -1 && Reachable(g, p))
    && OpenExactlyCarved(g, edges)
    && GrowsTree(edges) && Discovered(edges) == AllPos(g.rows, g.cols)
    && |edges| == g.rows * g.cols - 1
  }

  /** The grid after removeCELLwall opens the exit's right wall. */
  ghost function ExitOpened(g: Grid): (h: Grid)
    requires g.Valid() && g.rows >= 1 && g.cols >= 1
    ensures h.Valid() && h.rows == g.rows && h.cols == g.cols
  {
    var exit := (g.rows - 1, g.cols - 1);
    g.Put(exit, WithoutWall(g.At(exit), Right))
  }

  /** The exit's right wall faces no cell, so opening it changes no inner
      wall. */
  lemma ExitKeepsWalls(g: Grid, edges: seq<Edge>)
    requires g.Valid() && g.rows >= 1 && g.cols >= 1 && WallInv(g, edges) && !g.At(Entrance).left
    ensures var h := ExitOpened(g);
            && WallsAgree(h) && OuterRowsClosed(h) && SidesClosed(h, h.rows - 1) && OpenExactlyCarved(h, edges)
            && !h.At(Entrance).left && !h.At((g.rows - 1, g.cols - 1)).right
            && NoMoreWalls(g, h)
            && forall p :: h.Contains(p) ==> h.At(p).visited == g.At(p).visited && h.At(p).value == g.At(p).value
  {
    var h := ExitOpened(g);
    forall p, w | h.Contains(p) && h.Contains(Neighbour(p, w))
      ensures Wall(h.At(p), w) == Wall(g.At(p), w)
    {
    }
    forall p, w | h.Contains(p) && h.Contains(Neighbour(p, w))
      ensures Wall(h.At(p), w) == Wall(h.At(Neighbour(p, w)), Opposite(w))
    {
      NeighbourInverse(p, w);
      assert Wall(h.At(Neighbour(p, w)), Opposite(w)) == Wall(g.At(Neighbour(p, w)), Opposite(w));
    }
    forall p, w | h.Contains(p) && h.Contains(Neighbour(p, w))
      ensures !Wall(h.At(p), w) <==> Carved(edges, p, w)
    {
      assert Wall(h.At(p), w) == Wall(g.At(p), w);
    }
  }

  /** Opening the exit keeps every cell visited, unlabelled and reachable. */
  lemma ExitKeepsCells(g: Grid, seen: set<Pos>)
    requires g.Valid() && g.rows >= 1 && g.cols >= 1
    requires SeenInv(g, seen) && ReachInv(g, seen) && seen == AllPos(g.rows, g.cols)
    requires forall p :: g.Contains(p) ==> g.At(p).value == -1
    requires NoMoreWalls(g, ExitOpened(g))
    requires forall p :: g.Contains(p) ==>
               ExitOpened(g).At(p).visited == g.At(p).visited && ExitOpened(g).At(p).value == g.At(p).value
    ensures forall p :: g.Contains(p) ==>
              ExitOpened(g).At(p).visited && ExitOpened(g).At(p).value == -1 && Reachable(ExitOpened(g), p)
  {
    var h := ExitOpened(g);
    forall p | g.Contains(p)
      ensures h.At(p).visited && h.At(p).value == -1 && Reachable(h, p)
    {
      assert p in seen;
      assert Reachable(g, p);
      var path :| IsWalk(g, path) && path[0] == Entrance && path[|path| - 1] == p;
      WalkSurvives(g, h, path);
    }
  }

  /** Opening the exit's right wall, an outer wall, turns the finished
      search into a perfect maze. */
  lemma ExitKeeps(g: Grid, rows: nat, cols: nat, seen: set<Pos>, edges: seq<Edge>)
    requires GenInv(g, rows, cols, [], seen, edges)
    ensures Perfect(ExitOpened(g), edges)
  {
    Finish(g, seen, edges);
    ExitKeepsWalls(g, edges);
    ExitKeepsCells(g, seen);
  }

  /** The generated layout reads back as the generated maze: readMAZE
      restores every wall and label, losing only the visited flags. */
  lemma PerfectReadsBack(g: Grid, edges: seq<Edge>)
    requires g.Valid() && Perfect(g, edges)
    ensures WellFormed(Layout(g))
    ensures forall i: nat, j: nat :: i < g.rows && j < g.cols ==>
              DecodeCell(Layout(g), i, j) == g.At((i, j)).(visited := false)
  {
    RoundTrip(g, 0, 0);
    forall i: nat, j: nat | i < g.rows && j < g.cols
      ensures DecodeCell(Layout(g), i, j) == g.At((i, j)).(visited := false)
    {
      RoundTrip(g, i, j);
    }
  }

  /** A maze createMAZE wrote can always be solved: once read back, its
      exit is reachable from the entrance. */
  lemma GeneratedSolvable(g: Grid, edges: seq<Edge>)
    requires g.Valid() && Perfect(g, edges)
    ensures WellFormed(Layout(g))
    ensures Reachable(Decoded(Layout(g)), (g.rows - 1, g.cols - 1))
  {
    PerfectReadsBack(g, edges);
    var t := Layout(g);
    var d := Decoded(t);
    forall p: Pos, w: WallCode | g.Contains(p) && Wall(d.At(p), w)
      ensures Wall(g.At(p), w)
    {
      assert d.At(p) == DecodeCell(t, p.0, p.1);
    }
    var exit := (g.rows - 1, g.cols - 1);
    assert g.Contains(exit) && Reachable(g, exit);
    var path :| IsWalk(g, path) && path[0] == (0, 0) && path[|path| - 1] == exit;
    WalkSurvives(g, d, path);
  }

  // ---- the method ------------------------------------------------------

  /** createMAZE: carve a rows × cols maze and write it out. `rand(k)` is
      the value of the k-th call of random(); the neighbour chosen is
      candidate number rand(k) mod the number of candidates. */
  method CreateMaze(rows: nat, cols: nat, rand: nat -> nat)
    returns (tokens: seq<int>, ghost g: Grid, ghost edges: seq<Edge>)
    requires rows > 0 && cols > 0
    ensures g.Valid() && g.rows == rows && g.cols == cols
    ensures tokens == Layout(g)
    ensures Perfect(g, edges)
    ensures WellFormed(tokens) && tokens[0] == rows && tokens[1] == cols
    ensures Reachable(Decoded(tokens), (rows - 1, cols - 1))
  {
    var m := new Maze(rows, cols);
    g, edges := Carve(m, rand);
    tokens := m.Write();
    GeneratedSolvable(g, edges);
    LayoutTokens(g, 0, 0);
  }

  /** createMAZE between newMAZE and writeMAZE: open the entrance, run the
      search with a new stack and open the exit. */
  method Carve(m: Maze, rand: nat -> nat) returns (ghost g: Grid, ghost edges: seq<Edge>)
    requires m.Valid() && m.rows >= 1 && m.cols >= 1 && m.View() == Blank(m.rows, m.cols)
    modifies m.CellSet
    ensures g == m.View() && g.Valid() && g.rows == m.rows && g.cols == m.cols
    ensures Perfect(g, edges)
  {
    var s := new Stack<Pos>();
    OpenEntrance(m, s);
    ghost var seen;
    seen, edges := Search(m, s, rand);
    g := OpenExit(m, seen, edges);
  }

  /** The start of createMAZE: the entrance loses its left wall, is
      visited and is pushed. */
  method OpenEntrance(m: Maze, s: Stack<Pos>)
    requires m.Valid() && m.rows >= 1 && m.cols >= 1 && m.View() == Blank(m.rows, m.cols)
    requires s.Valid() && s.Contents == [] && s.Repr !! m.CellSet
    modifies m.CellSet, s.Repr
    ensures s.Valid() && fresh(s.Repr - old(s.Repr)) && s.Repr !! m.CellSet
    ensures GenInv(m.View(), m.rows, m.cols, s.Contents, {Entrance}, [])
  {
    m.RemoveWallAt(Entrance, Left);
    m.SetVisitedAt(Entrance);
    ghost var start := m.View();
    s.Push(Entrance);
    assert m.View() == start == StartGrid(m.rows, m.cols);
    GenStart(m.rows, m.cols);
  }

  /** The loop of createMAZE: run search steps until the stack is empty.
      Each step reaches a new cell or pops one entry, so the unreached
      cells and then the stack height decrease. */
  method Search(m: Maze, s: Stack<Pos>, rand: nat -> nat) returns (ghost seen: set<Pos>, ghost edges: seq<Edge>)
    requires m.Valid() && s.Valid() && s.Repr !! m.CellSet
    requires GenInv(m.View(), m.rows, m.cols, s.Contents, {Entrance}, [])
    modifies m.CellSet, s.Repr
    ensures s.Valid() && fresh(s.Repr - old(s.Repr)) && s.Contents == []
    ensures GenInv(m.View(), m.rows, m.cols, [], seen, edges)
  {
    var cur := Entrance;
    var calls := 0;
    seen, edges := {Entrance}, [];
    while s.Size() > 0
      invariant s.Valid() && fresh(s.Repr - old(s.Repr)) && s.Repr !! m.CellSet
      invariant m.InMaze(cur) && cur in seen
      invariant GenInv(m.View(), m.rows, m.cols, s.Contents, seen, edges)
      decreases AllPos(m.rows, m.cols) - seen, |s.Contents|
    {
      cur, calls, seen, edges := SearchStep(m, s, cur, rand, calls, seen, edges);
    }
  }

  /** The end of createMAZE: the exit loses its right wall, which makes
      the finished search a perfect maze. */
  method OpenExit(m: Maze, ghost seen: set<Pos>, ghost edges: seq<Edge>) returns (ghost g: Grid)
    requires m.Valid() && GenInv(m.View(), m.rows, m.cols, [], seen, edges)
    modifies m.CellSet
    ensures g == m.View() && Perfect(g, edges)
  {
    ghost var carved := m.View();
    ExitKeeps(carved, m.rows, m.cols, seen, edges);
    m.RemoveWallAt((m.rows - 1, m.cols - 1), Right);
    assert m.View() == ExitOpened(carved);
    g := m.View();
  }

  /** One pass of createMAZE's loop: carve from the current cell if it has
      an unvisited neighbour; otherwise peek the stack and carve from its
      top, or pop it when it has none either. `calls` counts the calls of
      random() so far. Each pass reaches a new cell or shortens the stack. */
  method SearchStep(m: Maze, s: Stack<Pos>, cur: Pos, rand: nat -> nat, calls: nat,
                    ghost seen: set<Pos>, ghost edges: seq<Edge>)
    returns (cur': Pos, calls': nat, ghost seen': set<Pos>, ghost edges': seq<Edge>)
    requires m.Valid() && s.Valid() && s.Repr !! m.CellSet
    requires m.InMaze(cur) && cur in seen && |s.Contents| > 0
    requires GenInv(m.View(), m.rows, m.cols, s.Contents, seen, edges)
    modifies m.CellSet, s.Repr
    ensures s.Valid() && fresh(s.Repr - old(s.Repr)) && s.Repr !! m.CellSet
    ensures m.InMaze(cur') && cur' in seen'
    ensures GenInv(m.View(), m.rows, m.cols, s.Contents, seen', edges')
    ensures || AllPos(m.rows, m.cols) - seen' < AllPos(m.rows, m.cols) - seen
            || (seen' == seen && |s.Contents| < |old(s.Contents)|)
  {
    var posWalls := m.MakePosWalls(cur);
    if posWalls.Size() > 0 {
      cur', calls', seen', edges' := CarveChosen(m, s, cur, posWalls, rand, calls, seen, edges);
    } else {
      cur', calls', seen', edges' := Backtrack(m, s, rand, calls, seen, edges);
    }
  }

  /** The dead-end branch of createMAZE's loop: peek the stack, carve from
      its top if that cell has an unvisited neighbour, and pop it
      otherwise. The current cell becomes the peeked one in either case. */
  method Backtrack(m: Maze, s: Stack<Pos>, rand: nat -> nat, calls: nat,
                   ghost seen: set<Pos>, ghost edges: seq<Edge>)
    returns (cur': Pos, calls': nat, ghost seen': set<Pos>, ghost edges': seq<Edge>)
    requires m.Valid() && s.Valid() && s.Repr !! m.CellSet
    requires |s.Contents| > 0
    requires GenInv(m.View(), m.rows, m.cols, s.Contents, seen, edges)
    modifies m.CellSet, s.Repr
    ensures s.Valid() && fresh(s.Repr - old(s.Repr)) && s.Repr !! m.CellSet
    ensures m.InMaze(cur') && cur' in seen'
    ensures GenInv(m.View(), m.rows, m.cols, s.Contents, seen', edges')
    ensures || AllPos(m.rows, m.cols) - seen' < AllPos(m.rows, m.cols) - seen
            || (seen' == seen && |s.Contents| < |old(s.Contents)|)
  {
    var top := s.Peek();
    TopReached(m.View(), m.rows, m.cols, s.Contents, seen, edges);
    cur', calls', seen', edges' := CarveOrPop(m, s, top, rand, calls, seen, edges);
  }

  /** The second half of the dead-end branch: the peeked top of the stack
      is carved from when it has an unvisited neighbour and popped
      otherwise. */
  method CarveOrPop(m: Maze, s: Stack<Pos>, top: Pos, rand: nat -> nat, calls: nat,
                    ghost seen: set<Pos>, ghost edges: seq<Edge>)
    returns (cur': Pos, calls': nat, ghost seen': set<Pos>, ghost edges': seq<Edge>)
    requires m.Valid() && s.Valid() && s.Repr !! m.CellSet
    requires |s.Contents| > 0
    requires GenInv(m.View(), m.rows, m.cols, s.Contents, seen, edges)
    requires top == s.Contents[|s.Contents| - 1] && m.InMaze(top) && top in seen
    modifies m.CellSet, s.Repr
    ensures s.Valid() && fresh(s.Repr - old(s.Repr)) && s.Repr !! m.CellSet
    ensures m.InMaze(cur') && cur' in seen'
    ensures GenInv(m.View(), m.rows, m.cols, s.Contents, seen', edges')
    ensures || AllPos(m.rows, m.cols) - seen' < AllPos(m.rows, m.cols) - seen
            || (seen' == seen && |s.Contents| < |old(s.Contents)|)
  {
    var nextWalls := m.MakePosWalls(top);
    if nextWalls.Size() > 0 {
      cur', calls', seen', edges' := CarveChosen(m, s, top, nextWalls, rand, calls, seen, edges);
    } else {
      cur', calls', seen', edges' := PopDeadEnd(m, s, top, calls, seen, edges);
    }
  }

  /** The pop of createMAZE: the top of the stack has no unvisited
      neighbour, so it leaves the stack for good and stays the current
      cell. */
  method PopDeadEnd(m: Maze, s: Stack<Pos>, top: Pos, calls: nat, ghost seen: set<Pos>, ghost edges: seq<Edge>)
    returns (cur': Pos, calls': nat, ghost seen': set<Pos>, ghost edges': seq<Edge>)
    requires m.Valid() && s.Valid() && s.Repr !! m.CellSet
    requires |s.Contents| > 0
    requires GenInv(m.View(), m.rows, m.cols, s.Contents, seen, edges)
    requires top == s.Contents[|s.Contents| - 1] && m.InMaze(top) && top in seen
    requires Candidates(m.View(), top) == []
    modifies s.Repr
    ensures s.Valid() && fresh(s.Repr - old(s.Repr)) && s.Repr !! m.CellSet
    ensures m.InMaze(cur') && cur' in seen'
    ensures GenInv(m.View(), m.rows, m.cols, s.Contents, seen', edges')
    ensures || AllPos(m.rows, m.cols) - seen' < AllPos(m.rows, m.cols) - seen
            || (seen' == seen && |s.Contents| < |old(s.Contents)|)
  {
    ghost var g := m.View();
    PopKeeps(g, m.rows, m.cols, s.Contents, seen, edges);
    var _ := s.Pop();
    assert m.View() == g;
    cur', calls', seen', edges' := top, calls, seen, edges;
  }

  /** The random choice of createMAZE: the `calls`-th value of random()
      modulo the number of candidates picks the neighbour that is carved to
      and becomes the current cell. */
  method CarveChosen(m: Maze, s: Stack<Pos>, cur: Pos, posWalls: DynamicArray<Pos>,
                     rand: nat -> nat, calls: nat, ghost seen: set<Pos>, ghost edges: seq<Edge>)
    returns (cur': Pos, calls': nat, ghost seen': set<Pos>, ghost edges': seq<Edge>)
    requires m.Valid() && s.Valid() && posWalls.Valid()
    requires s.Repr !! m.CellSet
    requires m.InMaze(cur) && cur in seen
    requires posWalls.Contents == Candidates(m.View(), cur) && |posWalls.Contents| > 0
    requires GenInv(m.View(), m.rows, m.cols, s.Contents, seen, edges)
    modifies m.CellSet, s.Repr
    ensures s.Valid() && fresh(s.Repr - old(s.Repr)) && s.Repr !! m.CellSet
    ensures cur' == old(posWalls.Contents)[rand(calls) % |old(posWalls.Contents)|]
    ensures calls' == calls + 1
    ensures m.InMaze(cur') && cur' !in seen && seen' == seen + {cur'}
    ensures GenInv(m.View(), m.rows, m.cols, s.Contents, seen', edges')
    ensures AllPos(m.rows, m.cols) - seen' < AllPos(m.rows, m.cols) - seen
  {
    var index := rand(calls) % posWalls.Size();
    cur' := posWalls.Get(index);
    calls' := calls + 1;
    ghost var g, stack := m.View(), s.Contents;
    ghost var w := CarveFrom(m, s, cur, cur');
    CarveKeeps(g, m.rows, m.cols, stack, seen, edges, cur, w);
    seen' := seen + {cur'};
    edges' := edges + [(cur, w)];
  }

  /** One carve of createMAZE from `cur` to `next`, one of its
      candidates: clearWALL on the two cells, then `next` is visited and
      pushed. `w` is the wall of `cur` facing `next`. */
  method CarveFrom(m: Maze, s: Stack<Pos>, cur: Pos, next: Pos) returns (ghost w: WallCode)
    requires m.Valid() && s.Valid()
    requires s.Repr !! m.CellSet
    requires m.InMaze(cur) && next in Candidates(m.View(), cur)
    modifies m.CellSet, s.Repr
    ensures s.Valid() && fresh(s.Repr - old(s.Repr))
    ensures s.Repr !! m.CellSet
    ensures s.Contents == old(s.Contents) + [next]
    ensures next == Neighbour(cur, w) && Eligible(old(m.View()), cur, w)
    ensures m.View() == CarveStep(old(m.View()), cur, w)
  {
    ghost var g := m.View();
    CandidatesAreEligible(g, cur);
    w :| next == Neighbour(cur, w) && Eligible(g, cur, w);
    assert ClearedWalls(cur, next) == (w, Opposite(w));
    ghost var h0 := g.Put(cur, WithoutWall(g.At(cur), w)).Put(next, WithoutWall(g.At(next), Opposite(w)));
    m.ClearWallBetween(cur, next);
    assert m.View() == h0;
    m.SetVisitedAt(next);
    ghost var h := m.View();
    s.Push(next);
    assert m.View() == h;
  }
}
