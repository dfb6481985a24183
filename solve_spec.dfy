/** What solveMAZE computes, stated on grid values. The solver is a
    breadth-first search from the entrance (0, 0) towards the exit
    (rows - 1, cols - 1): each pass dequeues a cell, marks it visited and
    enqueues every neighbour it can step to that is still unvisited,
    labelling it one more than itself modulo 10. Afterwards whatever is left
    in the queue is relabelled -1. */
module SolveSpec {
  import opened Capacity
  import opened Cells
  import opened Grids
  import opened Layouts

  const Start: Pos := (0, 0)

  function Exit(g: Grid): Pos
  {
    (g.rows - 1, g.cols - 1)
  }

  /** C's `a % 10`: the quotient is truncated toward zero, so the
      remainder takes the sign of the dividend. */
  function CRem10(a: int): (r: int)
    ensures (a - r) % 10 == 0
    ensures a >= 0 ==> 0 <= r < 10
    ensures a < 0 ==> -10 < r <= 0
  {
    if a >= 0 then a % 10 else -((-a) % 10)
  }

  /** The label a neighbour gets: `(getCELLval(curCell) + 1) % 10`. */
  function NextLabel(v: int): int
  {
    CRem10(v + 1)
  }

  /** On the labels the solver hands out, the step counts 0, 1, ..., 9, 0, ... */
  lemma NextLabelCycles(v: int)
    requires 0 <= v <= 9
    ensures NextLabel(v) == if v == 9 then 0 else v + 1
  {
  }

  /** The four walls of two cell states agree. */
  ghost predicate SameWalls(a: CellState, b: CellState)
  {
    a.top == b.top && a.right == b.right && a.bottom == b.bottom && a.left == b.left
  }

  // ---- one pass of the loop ----------------------------------------------

  /** setCELLvisited on the dequeued cell. */
  ghost function Mark(g: Grid, x: Pos): (h: Grid)
    requires g.Valid() && g.Contains(x)
    ensures h.Valid() && h.rows == g.rows && h.cols == g.cols
  {
    g.Put(x, g.At(x).(visited := true))
  }

  /** One of the four if-blocks of the loop: when the path through wall w
      of x is clear, the neighbour gets the next label. */
  ghost function Label(g: Grid, x: Pos, w: WallCode): (h: Grid)
    requires g.Valid() && g.Contains(x)
    ensures h.Valid() && h.rows == g.rows && h.cols == g.cols
  {
    if PathClear(g, x, w) then
      var y := Neighbour(x, w);
      g.Put(y, g.At(y).(value := NextLabel(g.At(x).value)))
    else g
  }

  /** What the same if-block enqueues. */
  ghost function Enqueues(g: Grid, x: Pos, w: WallCode): seq<Pos>
    requires g.Valid() && g.Contains(x)
  {
    if PathClear(g, x, w) then [Neighbour(x, w)] else []
  }

  /** One pass for the dequeued cell x: the grid after it and the cells it
      enqueues, in the order top, left, right, bottom. */
  ghost function Pass(g: Grid, x: Pos): (r: (Grid, seq<Pos>))
    requires g.Valid() && g.Contains(x)
    ensures r.0.Valid() && r.0.rows == g.rows && r.0.cols == g.cols
  {
    var g1 := Mark(g, x);
    var g2 := Label(g1, x, Top);
    var g3 := Label(g2, x, Left);
    var g4 := Label(g3, x, Right);
    (Label(g4, x, Bottom),
     Enqueues(g1, x, Top) + Enqueues(g2, x, Left) + Enqueues(g3, x, Right) + Enqueues(g4, x, Bottom))
  }

  /** The effect of a pass cell by cell: x becomes visited, walls stay, and
      exactly the unvisited neighbours x can step to are enqueued and
      labelled one more than x. */
  ghost predicate PassEffect(g: Grid, x: Pos, h: Grid, adds: seq<Pos>)
    requires g.Valid() && h.Valid() && g.Contains(x)
  {
    && h.rows == g.rows && h.cols == g.cols
    && |adds| <= 4
    && (forall w: WallCode :: Neighbour(x, w) in adds <==> PathClear(g, x, w))
    && (forall y :: y in adds ==> exists w: WallCode :: y == Neighbour(x, w) && PathClear(g, x, w))
    && (forall p :: g.Contains(p) ==> h.At(p).visited == (g.At(p).visited || p == x))
    && (forall p :: g.Contains(p) ==> SameWalls(h.At(p), g.At(p)))
    && (forall p :: g.Contains(p) ==>
          h.At(p).value == if p in adds then NextLabel(g.At(x).value) else g.At(p).value)
  }

  lemma MarkEffect(g: Grid, x: Pos)
    requires g.Valid() && g.Contains(x)
    ensures forall p :: g.Contains(p) ==>
              && Mark(g, x).At(p).visited == (g.At(p).visited || p == x)
              && SameWalls(Mark(g, x).At(p), g.At(p))
              && Mark(g, x).At(p).value == g.At(p).value
    ensures forall v: WallCode :: PathClear(Mark(g, x), x, v) == PathClear(g, x, v)
  {
    forall v: WallCode
      ensures PathClear(Mark(g, x), x, v) == PathClear(g, x, v)
    {
      if g.Contains(Neighbour(x, v)) {
        assert Mark(g, x).At(Neighbour(x, v)) == g.At(Neighbour(x, v));
      }
    }
  }

  lemma LabelEffect(g: Grid, x: Pos, w: WallCode)
    requires g.Valid() && g.Contains(x)
    ensures forall p :: g.Contains(p) ==>
              && Label(g, x, w).At(p).visited == g.At(p).visited
              && SameWalls(Label(g, x, w).At(p), g.At(p))
              && Label(g, x, w).At(p).value ==
                   if PathClear(g, x, w) && p == Neighbour(x, w) then NextLabel(g.At(x).value)
                   else g.At(p).value
    ensures forall v: WallCode :: PathClear(Label(g, x, w), x, v) == PathClear(g, x, v)
  {
    var h := Label(g, x, w);
    forall v: WallCode
      ensures PathClear(h, x, v) == PathClear(g, x, v)
    {
      if g.Contains(Neighbour(x, v)) {
        assert h.At(Neighbour(x, v)).visited == g.At(Neighbour(x, v)).visited;
      }
    }
  }

  /** A pass changes only the visited flag of the dequeued cell. */
  lemma PassFlags(g: Grid, x: Pos)
    requires g.Valid() && g.Contains(x)
    ensures forall p :: g.Contains(p) ==>
              && Pass(g, x).0.At(p).visited == (g.At(p).visited || p == x)
              && SameWalls(Pass(g, x).0.At(p), g.At(p))
  {
    var g1 := Mark(g, x);
    var g2 := Label(g1, x, Top);
    var g3 := Label(g2, x, Left);
    var g4 := Label(g3, x, Right);
    MarkEffect(g, x);
    LabelEffect(g1, x, Top);
    LabelEffect(g2, x, Left);
    LabelEffect(g3, x, Right);
    LabelEffect(g4, x, Bottom);
  }

  /** A pass enqueues the unvisited neighbours the dequeued cell can step to. */
  lemma PassAdds(g: Grid, x: Pos)
    requires g.Valid() && g.Contains(x)
    ensures Pass(g, x).1 == Enqueues(g, x, Top) + Enqueues(g, x, Left) + Enqueues(g, x, Right)
                            + Enqueues(g, x, Bottom)
  {
    var g1 := Mark(g, x);
    var g2 := Label(g1, x, Top);
    var g3 := Label(g2, x, Left);
    var g4 := Label(g3, x, Right);
    MarkEffect(g, x);
    LabelEffect(g1, x, Top);
    LabelEffect(g2, x, Left);
    LabelEffect(g3, x, Right);
  }

  /** The same list, described by membership. */
  lemma EnqueuedAll(g: Grid, x: Pos)
    requires g.Valid() && g.Contains(x)
    ensures var adds := Enqueues(g, x, Top) + Enqueues(g, x, Left) + Enqueues(g, x, Right)
                        + Enqueues(g, x, Bottom);
            && |adds| <= 4
            && (forall w: WallCode :: Neighbour(x, w) in adds <==> PathClear(g, x, w))
            && (forall y :: y in adds ==> exists w: WallCode :: y == Neighbour(x, w) && PathClear(g, x, w))
  {
    var a, b, c, d := Enqueues(g, x, Top), Enqueues(g, x, Left), Enqueues(g, x, Right),
                      Enqueues(g, x, Bottom);
    var adds := a + b + c + d;
    forall w: WallCode
      ensures Neighbour(x, w) in adds <==> PathClear(g, x, w)
    {
      NeighbourInverse(x, w);
    }
    forall y | y in adds
      ensures exists w: WallCode :: y == Neighbour(x, w) && PathClear(g, x, w)
    {
      if y in a {
        assert y == Neighbour(x, Top) && PathClear(g, x, Top);
      } else if y in b {
        assert y == Neighbour(x, Left) && PathClear(g, x, Left);
      } else if y in c {
        assert y == Neighbour(x, Right) && PathClear(g, x, Right);
      } else {
        assert y == Neighbour(x, Bottom) && PathClear(g, x, Bottom);
      }
    }
  }

  /** A pass labels the enqueued neighbours one more than the dequeued
      cell and leaves every other label alone. */
  lemma PassValues(g: Grid, x: Pos)
    requires g.Valid() && g.Contains(x)
    ensures forall p :: g.Contains(p) ==>
              Pass(g, x).0.At(p).value ==
                if p in Enqueues(g, x, Top) + Enqueues(g, x, Left) + Enqueues(g, x, Right)
                        + Enqueues(g, x, Bottom)
                then NextLabel(g.At(x).value) else g.At(p).value
  {
    var g1 := Mark(g, x);
    var g2 := Label(g1, x, Top);
    var g3 := Label(g2, x, Left);
    var g4 := Label(g3, x, Right);
    MarkEffect(g, x);
    LabelEffect(g1, x, Top);
    LabelEffect(g2, x, Left);
    LabelEffect(g3, x, Right);
    LabelEffect(g4, x, Bottom);
    NeighbourInverse(x, Top);
    NeighbourInverse(x, Left);
    NeighbourInverse(x, Right);
  }

  /** The grid and queue a pass produces have the effect PassEffect
      describes. */
  lemma PassHasEffect(g: Grid, x: Pos)
    requires g.Valid() && g.Contains(x)
    ensures PassEffect(g, x, Pass(g, x).0, Pass(g, x).1)
  {
    PassFlags(g, x);
    PassAdds(g, x);
    EnqueuedAll(g, x);
    PassValues(g, x);
  }

  // ---- the invariant of the search ---------------------------------------

  /** p has been dequeued at some time or is waiting in the queue. */
  ghost predicate Tracked(g: Grid, q: seq<Pos>, p: Pos)
    requires g.Valid()
  {
    g.Contains(p) && (g.At(p).visited || p in q)
  }

  /** The label of p continues the label of its neighbour through wall w:
      that neighbour has been visited and steps through its facing wall to
      p. Following such neighbours leads back to the entrance. */
  ghost predicate Trail(g: Grid, p: Pos, w: WallCode)
    requires g.Valid() && g.Contains(p)
  {
    var r := Neighbour(p, w);
    && g.Contains(r) && g.At(r).visited && CanMove(g, r, Opposite(w))
    && g.At(p).value == NextLabel(g.At(r).value)
  }

  /** The search changes labels and visited flags only; the cells it has
      not reached keep the label they were read with. */
  ghost predicate Untouched(g0: Grid, g: Grid, q: seq<Pos>)
    requires g0.Valid() && g.Valid()
  {
    && g.rows == g0.rows && g.cols == g0.cols
    && (forall p :: g0.Contains(p) ==> SameWalls(g.At(p), g0.At(p)))
    && (forall p :: g0.Contains(p) && !Tracked(g, q, p) ==> g.At(p).value == g0.At(p).value)
  }

  /** Every cell the search has reached carries a label 0..9, can be
      reached from the entrance, and (except the entrance) continues a
      visited neighbour's label. */
  ghost predicate Labelled(g0: Grid, g: Grid, q: seq<Pos>)
    requires g0.Valid() && g.Valid()
  {
    && (forall k :: 0 <= k < |q| ==> g.Contains(q[k]))
    && (forall p :: Tracked(g, q, p) ==> 0 <= g.At(p).value <= 9 && Reachable(g0, p))
    && (forall p :: Tracked(g, q, p) && p != Start ==> exists w: WallCode :: Trail(g, p, w))
  }

  /** Every step out of a visited cell leads to a visited or queued cell. */
  ghost predicate Closed(g: Grid, q: seq<Pos>)
    requires g.Valid()
  {
    forall p, w: WallCode :: g.Contains(p) && g.At(p).visited && CanMove(g, p, w) ==>
      Tracked(g, q, Neighbour(p, w))
  }

  /** The entrance is labelled 0 and is either the only queued cell, before
      the first pass, or visited and gone from the queue (in a one-cell maze,
      where the entrance is the exit, there is no pass); the current cell is
      the last one dequeued, and the exit is visited only once it has been
      the current cell. */
  ghost predicate SearchProgress(g: Grid, q: seq<Pos>, cur: Pos)
    requires g.Valid() && g.rows >= 1 && g.cols >= 1
  {
    && g.At(Start).value == 0
    && (|| (q == [Start] && !g.At(Start).visited && cur == Start)
        || (g.At(Start).visited && Start !in q))
    && (Exit(g) == Start ==> q == [Start] && !g.At(Start).visited)
    && g.Contains(cur) && (cur == Start || g.At(cur).visited)
    && (g.At(Exit(g)).visited ==> cur == Exit(g))
  }

  ghost predicate SolveInv(g0: Grid, g: Grid, q: seq<Pos>, cur: Pos)
    requires g0.Valid() && g.Valid()
  {
    && g0.rows >= 1 && g0.cols >= 1
    && Untouched(g0, g, q)
    && Labelled(g0, g, q)
    && Closed(g, q)
    && SearchProgress(g, q, cur)
  }

  /** Before the loop: nothing visited, the entrance labelled 0 and queued. */
  ghost function Started(g0: Grid): (g: Grid)
    requires g0.Valid() && g0.rows >= 1 && g0.cols >= 1
    ensures g.Valid() && g.rows == g0.rows && g.cols == g0.cols
  {
    g0.Put(Start, g0.At(Start).(value := 0))
  }

  lemma SolveStart(g0: Grid, g: Grid, q: seq<Pos>)
    requires g0.Valid() && g0.rows >= 1 && g0.cols >= 1
    requires forall p :: g0.Contains(p) ==> !g0.At(p).visited
    requires g == Started(g0) && q == [Start]
    ensures g.Valid() && SolveInv(g0, g, q, Start)
  {
    assert IsWalk(g0, [Start]);
    assert forall p :: Tracked(g, [Start], p) ==> p == Start;
  }

  // ---- a pass keeps the invariant ----------------------------------------

  lemma PassKeepsUntouched(g0: Grid, g: Grid, q: seq<Pos>, h: Grid, adds: seq<Pos>)
    requires g0.Valid() && g.Valid() && h.Valid() && |q| > 0 && g.Contains(q[0])
    requires Untouched(g0, g, q) && PassEffect(g, q[0], h, adds)
    ensures Untouched(g0, h, q[1..] + adds)
  {
    var q' := q[1..] + adds;
    forall p | g0.Contains(p) && !Tracked(h, q', p)
      ensures h.At(p).value == g0.At(p).value
    {
      assert p !in adds && p != q[0];
    }
  }

  lemma PassKeepsRange(g0: Grid, g: Grid, q: seq<Pos>, h: Grid, adds: seq<Pos>, p: Pos)
    requires g0.Valid() && g.Valid() && h.Valid() && |q| > 0 && g.Contains(q[0])
    requires Labelled(g0, g, q) && PassEffect(g, q[0], h, adds)
    requires forall v: WallCode :: CanMove(g, q[0], v) ==> CanMove(g0, q[0], v)
    requires Tracked(h, q[1..] + adds, p)
    ensures 0 <= h.At(p).value <= 9 && Reachable(g0, p)
  {
    var x := q[0];
    assert Tracked(g, q, x);
    if p in adds {
      var w: WallCode :| p == Neighbour(x, w) && PathClear(g, x, w);
      assert CanMove(g0, x, w);
      var path :| IsWalk(g0, path) && path[0] == Start && path[|path| - 1] == x;
      StepIsMove(g0, x, p, w);
      WalkExtend(g0, path, p);
      assert (path + [p])[|path + [p]| - 1] == p;
    } else if p != x && !g.At(p).visited {
      assert p in q[1..];
    }
  }

  /** A freshly enqueued neighbour continues the label of the dequeued cell. */
  lemma TrailOfAdded(g: Grid, x: Pos, h: Grid, adds: seq<Pos>, p: Pos)
    requires g.Valid() && h.Valid() && g.Contains(x) && PassEffect(g, x, h, adds)
    requires p in adds
    ensures h.Contains(p) && exists w: WallCode :: Trail(h, p, w)
  {
    var w: WallCode :| p == Neighbour(x, w) && PathClear(g, x, w);
    NeighbourInverse(x, w);
    assert x !in adds;
    assert SameWalls(h.At(x), g.At(x));
    assert Trail(h, p, Opposite(w));
  }

  /** A cell the pass does not enqueue keeps its trail: the neighbour it
      continues is visited, so the pass does not relabel it. */
  lemma TrailOfKept(g: Grid, x: Pos, h: Grid, adds: seq<Pos>, p: Pos, w: WallCode)
    requires g.Valid() && h.Valid() && g.Contains(x) && PassEffect(g, x, h, adds)
    requires g.Contains(p) && p !in adds && Trail(g, p, w)
    ensures Trail(h, p, w)
  {
    var r := Neighbour(p, w);
    assert r !in adds;
    assert SameWalls(h.At(r), g.At(r));
  }

  lemma PassKeepsTrail(g0: Grid, g: Grid, q: seq<Pos>, h: Grid, adds: seq<Pos>, p: Pos)
    requires g0.Valid() && g.Valid() && h.Valid() && |q| > 0 && g.Contains(q[0])
    requires Labelled(g0, g, q) && PassEffect(g, q[0], h, adds)
    requires Tracked(h, q[1..] + adds, p) && p != Start
    ensures exists w: WallCode :: Trail(h, p, w)
  {
    if p in adds {
      TrailOfAdded(g, q[0], h, adds, p);
    } else {
      if p != q[0] && !g.At(p).visited {
        assert p in q[1..];
      }
      assert Tracked(g, q, p);
      var w: WallCode :| Trail(g, p, w);
      TrailOfKept(g, q[0], h, adds, p, w);
    }
  }

  lemma PassKeepsLabelled(g0: Grid, g: Grid, q: seq<Pos>, h: Grid, adds: seq<Pos>)
    requires g0.Valid() && g.Valid() && h.Valid() && |q| > 0 && g.Contains(q[0])
    requires Untouched(g0, g, q) && Labelled(g0, g, q) && PassEffect(g, q[0], h, adds)
    ensures Labelled(g0, h, q[1..] + adds)
  {
    var q' := q[1..] + adds;
    forall v: WallCode | CanMove(g, q[0], v)
      ensures CanMove(g0, q[0], v)
    {
      assert SameWalls(g.At(q[0]), g0.At(q[0]));
    }
    forall p | Tracked(h, q', p)
      ensures 0 <= h.At(p).value <= 9 && Reachable(g0, p)
    {
      PassKeepsRange(g0, g, q, h, adds, p);
    }
    forall p | Tracked(h, q', p) && p != Start
      ensures exists w: WallCode :: Trail(h, p, w)
    {
      PassKeepsTrail(g0, g, q, h, adds, p);
    }
    forall k | 0 <= k < |q'|
      ensures h.Contains(q'[k])
    {
      if k >= |q| - 1 {
        assert q'[k] in adds;
      }
    }
  }

  lemma PassKeepsClosed(g: Grid, q: seq<Pos>, h: Grid, adds: seq<Pos>)
    requires g.Valid() && h.Valid() && |q| > 0 && g.Contains(q[0])
    requires Closed(g, q) && PassEffect(g, q[0], h, adds)
    ensures Closed(h, q[1..] + adds)
  {
    var x, q' := q[0], q[1..] + adds;
    forall p, w: WallCode | h.Contains(p) && h.At(p).visited && CanMove(h, p, w)
      ensures Tracked(h, q', Neighbour(p, w))
    {
      var n := Neighbour(p, w);
      assert SameWalls(h.At(p), g.At(p));
      assert CanMove(g, p, w);
      if p == x {
        if !PathClear(g, x, w) {
          assert g.At(n).visited;
        }
      } else {
        assert Tracked(g, q, n);
        if n != x && !g.At(n).visited {
          assert n in q[1..];
        }
      }
    }
  }

  lemma PassKeepsProgress(g: Grid, q: seq<Pos>, cur: Pos, h: Grid, adds: seq<Pos>)
    requires g.Valid() && h.Valid() && g.rows >= 1 && g.cols >= 1 && |q| > 0 && g.Contains(q[0])
    requires SearchProgress(g, q, cur) && cur != Exit(g) && PassEffect(g, q[0], h, adds)
    ensures SearchProgress(h, q[1..] + adds, q[0])
  {
    assert Start !in adds;
  }

  /** A pass keeps the invariant, the pass's cell becoming the current one. */
  lemma PassKeeps(g0: Grid, g: Grid, q: seq<Pos>, cur: Pos)
    requires g0.Valid() && g.Valid() && SolveInv(g0, g, q, cur)
    requires |q| > 0 && cur != Exit(g)
    ensures g.Contains(q[0])
    ensures SolveInv(g0, Pass(g, q[0]).0, q[1..] + Pass(g, q[0]).1, q[0])
  {
    var x := q[0];
    var (h, adds) := Pass(g, x);
    PassHasEffect(g, x);
    PassKeepsUntouched(g0, g, q, h, adds);
    PassKeepsLabelled(g0, g, q, h, adds);
    PassKeepsClosed(g, q, h, adds);
    PassKeepsProgress(g, q, cur, h, adds);
  }

  // ---- termination ---------------------------------------------------------

  ghost function Unvisited(g: Grid): (s: set<Pos>)
    requires g.Valid()
    ensures forall p :: p in s <==> g.Contains(p) && !g.At(p).visited
  {
    set p | p in AllPos(g.rows, g.cols) && !g.At(p).visited
  }

  /** A queued cell that is still unvisited weighs 1, a visited one 5: a
      pass for a visited cell removes 5 and adds at most four unvisited
      cells. */
  ghost function Weight(g: Grid, q: seq<Pos>): nat
    requires g.Valid() && forall k :: 0 <= k < |q| ==> g.Contains(q[k])
  {
    if q == [] then 0 else (if g.At(q[0]).visited then 5 else 1) + Weight(g, q[1..])
  }

  lemma {:induction false} WeightAppend(g: Grid, a: seq<Pos>, b: seq<Pos>)
    requires g.Valid() && forall k :: 0 <= k < |a + b| ==> g.Contains((a + b)[k])
    ensures forall k :: 0 <= k < |a| ==> g.Contains(a[k])
    ensures forall k :: 0 <= k < |b| ==> g.Contains(b[k])
    ensures Weight(g, a + b) == Weight(g, a) + Weight(g, b)
    decreases |a|
  {
    assert forall k :: 0 <= k < |a| ==> a[k] == (a + b)[k];
    assert forall k :: 0 <= k < |b| ==> b[k] == (a + b)[|a| + k];
    if a == [] {
      assert a + b == b;
    } else {
      assert (a + b)[1..] == a[1..] + b;
      WeightAppend(g, a[1..], b);
    }
  }

  lemma {:induction false} WeightSameFlags(g: Grid, h: Grid, q: seq<Pos>)
    requires g.Valid() && h.Valid() && h.rows == g.rows && h.cols == g.cols
    requires forall k :: 0 <= k < |q| ==> g.Contains(q[k])
    requires forall k :: 0 <= k < |q| ==> h.Contains(q[k]) && h.At(q[k]).visited == g.At(q[k]).visited
    ensures Weight(h, q) == Weight(g, q)
    decreases |q|
  {
    if q != [] {
      WeightSameFlags(g, h, q[1..]);
    }
  }

  lemma {:induction false} WeightUnvisited(g: Grid, q: seq<Pos>)
    requires g.Valid() && forall k :: 0 <= k < |q| ==> g.Contains(q[k]) && !g.At(q[k]).visited
    ensures Weight(g, q) == |q|
    decreases |q|
  {
    if q != [] {
      WeightUnvisited(g, q[1..]);
    }
  }

  /** The queue after a pass still holds positions of the grid only. */
  lemma PassQueueInside(g: Grid, q: seq<Pos>, h: Grid, adds: seq<Pos>)
    requires g.Valid() && h.Valid() && |q| > 0 && forall k :: 0 <= k < |q| ==> g.Contains(q[k])
    requires PassEffect(g, q[0], h, adds)
    ensures forall y :: y in adds ==> h.Contains(y) && !h.At(y).visited
    ensures forall k :: 0 <= k < |q[1..] + adds| ==> h.Contains((q[1..] + adds)[k])
  {
    forall y | y in adds
      ensures h.Contains(y) && !h.At(y).visited
    {
      var w: WallCode :| y == Neighbour(q[0], w) && PathClear(g, q[0], w);
    }
    var q' := q[1..] + adds;
    forall k | 0 <= k < |q'|
      ensures h.Contains(q'[k])
    {
      if k >= |q| - 1 {
        assert q'[k] in adds;
      }
    }
  }

  /** A pass for a cell dequeued before: no flag changes, and the queue
      loses a weight of 5 and gains at most four of 1. */
  lemma PassLightens(g: Grid, q: seq<Pos>, h: Grid, adds: seq<Pos>)
    requires g.Valid() && h.Valid() && |q| > 0 && forall k :: 0 <= k < |q| ==> g.Contains(q[k])
    requires PassEffect(g, q[0], h, adds) && g.At(q[0]).visited
    requires forall y :: y in adds ==> h.Contains(y) && !h.At(y).visited
    requires forall k :: 0 <= k < |q[1..] + adds| ==> h.Contains((q[1..] + adds)[k])
    ensures Unvisited(h) == Unvisited(g)
    ensures Weight(h, q[1..] + adds) < Weight(g, q)
  {
    assert forall p :: g.Contains(p) ==> h.At(p).visited == g.At(p).visited;
    WeightAppend(h, q[1..], adds);
    WeightSameFlags(g, h, q[1..]);
    WeightUnvisited(h, adds);
  }

  /** Each pass visits a new cell or, for a cell dequeued again, lightens
      the queue: the search cannot run forever. */
  lemma PassDecreases(g: Grid, q: seq<Pos>)
    requires g.Valid() && |q| > 0 && forall k :: 0 <= k < |q| ==> g.Contains(q[k])
    ensures var (h, adds) := Pass(g, q[0]);
            && (forall k :: 0 <= k < |q[1..] + adds| ==> h.Contains((q[1..] + adds)[k]))
            && (|| Unvisited(h) < Unvisited(g)
                || (Unvisited(h) == Unvisited(g) && Weight(h, q[1..] + adds) < Weight(g, q)))
  {
    var x := q[0];
    var (h, adds) := Pass(g, x);
    PassHasEffect(g, x);
    PassQueueInside(g, q, h, adds);
    if g.At(x).visited {
      PassLightens(g, q, h, adds);
    } else {
      assert x in Unvisited(g) - Unvisited(h);
    }
  }

  // ---- how the search ends ---------------------------------------------------

  lemma {:induction false} ClosedWalk(g0: Grid, g: Grid, path: seq<Pos>)
    requires g0.Valid() && g.Valid() && Untouched(g0, g, []) && Closed(g, [])
    requires IsWalk(g0, path) && g.At(path[0]).visited
    ensures g.Contains(path[|path| - 1]) && g.At(path[|path| - 1]).visited
    decreases |path|
  {
    if |path| > 1 {
      var init := path[..|path| - 1];
      assert IsWalk(g0, init) by {
        forall k | 0 <= k < |init| - 1
          ensures Step(g0, init[k], init[k + 1])
        {
          assert Step(g0, path[k], path[k + 1]);
        }
      }
      ClosedWalk(g0, g, init);
      var a, b := path[|path| - 2], path[|path| - 1];
      assert Step(g0, a, b);
      var w: WallCode :| CanMove(g0, a, w) && b == Neighbour(a, w);
      assert SameWalls(g.At(a), g0.At(a));
      assert CanMove(g, a, w);
    }
  }

  /** A cell the search never visited, once the queue is empty, is out of
      reach from the entrance. */
  lemma UnvisitedUnreachable(g0: Grid, g: Grid, p: Pos)
    requires g0.Valid() && g.Valid() && Untouched(g0, g, []) && Closed(g, [])
    requires g.Contains(Start) && g.At(Start).visited && g.Contains(p) && !g.At(p).visited
    ensures !Reachable(g0, p)
  {
    if Reachable(g0, p) {
      var path :| IsWalk(g0, path) && path[0] == Start && path[|path| - 1] == p;
      ClosedWalk(g0, g, path);
    }
  }

  /** The queue ran dry before the exit was dequeued: then the exit cannot
      be reached from the entrance. */
  lemma NoWayOut(g0: Grid, g: Grid, q: seq<Pos>, cur: Pos)
    requires g0.Valid() && g.Valid() && SolveInv(g0, g, q, cur) && |q| == 0 && cur != Exit(g0)
    ensures !Reachable(g0, Exit(g0))
  {
    assert q == [];
    assert SearchProgress(g, [], cur) && Untouched(g0, g, []) && Closed(g, []);
    UnvisitedUnreachable(g0, g, Exit(g));
  }

  /** The exit was dequeued: it can be reached from the entrance. */
  lemma WayOut(g0: Grid, g: Grid, q: seq<Pos>, exit: Pos)
    requires g0.Valid() && g.Valid() && SolveInv(g0, g, q, exit) && exit == Exit(g0)
    ensures Reachable(g0, Exit(g0))
  {
    assert Untouched(g0, g, q) && Labelled(g0, g, q) && SearchProgress(g, q, exit);
    CurrentReached(g0, g, q, exit);
  }

  /** The current cell is the entrance or a visited cell, so it can be
      reached. */
  lemma CurrentReached(g0: Grid, g: Grid, q: seq<Pos>, cur: Pos)
    requires g0.Valid() && g.Valid() && g.rows >= 1 && g.cols >= 1
    requires Labelled(g0, g, q) && SearchProgress(g, q, cur)
    ensures Reachable(g0, cur)
  {
    if cur == Start {
      assert IsWalk(g0, [Start]);
    } else {
      assert Tracked(g, q, cur);
    }
  }

  // ---- the whole search ------------------------------------------------------

  /** The main loop of solveMAZE as a function: passes run, first in first
      out, until the exit is the current cell (Some: the grid and the queue
      at that moment) or the queue is empty first (None, where dequeue's
      assertion would stop the program). */
  ghost function Search(g: Grid, q: seq<Pos>, cur: Pos): Option<(Grid, seq<Pos>)>
    requires g.Valid() && forall k :: 0 <= k < |q| ==> g.Contains(q[k])
    decreases Unvisited(g), Weight(g, q), 2
  {
    if cur == Exit(g) then Some((g, q))
    else if q == [] then None
    else SearchOn(g, q)
  }

  /** A non-empty queue: its head is dequeued and becomes current. */
  ghost function SearchOn(g: Grid, q: seq<Pos>): Option<(Grid, seq<Pos>)>
    requires g.Valid() && |q| > 0 && forall k :: 0 <= k < |q| ==> g.Contains(q[k])
    decreases Unvisited(g), Weight(g, q), 1
  {
    SearchFrom(g, q[1..], q[0])
  }

  /** The pass for the dequeued cell cur, then the search goes on. */
  ghost function SearchFrom(g: Grid, rest: seq<Pos>, cur: Pos): Option<(Grid, seq<Pos>)>
    requires g.Valid() && g.Contains(cur) && forall k :: 0 <= k < |rest| ==> g.Contains(rest[k])
    decreases Unvisited(g), Weight(g, [cur] + rest), 0
  {
    PassDecreases(g, [cur] + rest);
    assert ([cur] + rest)[1..] == rest;
    Search(Pass(g, cur).0, rest + Pass(g, cur).1, cur)
  }

  /** How many passes the search makes before it stops. */
  ghost function Passes(g: Grid, q: seq<Pos>, cur: Pos): nat
    requires g.Valid() && forall k :: 0 <= k < |q| ==> g.Contains(q[k])
    decreases Unvisited(g), Weight(g, q), 1
  {
    if cur == Exit(g) || q == [] then 0 else PassesOn(g, q)
  }

  /** The passes from the one for the head of a non-empty queue on. */
  ghost function PassesOn(g: Grid, q: seq<Pos>): nat
    requires g.Valid() && |q| > 0 && forall k :: 0 <= k < |q| ==> g.Contains(q[k])
    decreases Unvisited(g), Weight(g, q), 0
  {
    PassDecreases(g, q);
    1 + Passes(Pass(g, q[0]).0, q[1..] + Pass(g, q[0]).1, q[0])
  }

  /** Before the exit and with a non-empty queue, the search goes on from
      the state after one pass. */
  lemma SearchUnfold(g: Grid, q: seq<Pos>, cur: Pos)
    requires g.Valid() && forall k :: 0 <= k < |q| ==> g.Contains(q[k])
    requires cur != Exit(g) && |q| > 0
    ensures forall k :: 0 <= k < |q[1..] + Pass(g, q[0]).1| ==> Pass(g, q[0]).0.Contains((q[1..] + Pass(g, q[0]).1)[k])
    ensures Search(g, q, cur) == Search(Pass(g, q[0]).0, q[1..] + Pass(g, q[0]).1, q[0])
    ensures Passes(g, q, cur) == 1 + Passes(Pass(g, q[0]).0, q[1..] + Pass(g, q[0]).1, q[0])
  {
    PassDecreases(g, q);
    assert Search(g, q, cur) == SearchOn(g, q) == SearchFrom(g, q[1..], q[0]);
    assert Passes(g, q, cur) == PassesOn(g, q);
  }

  /** The search keeps the dimensions and ends with a queue of positions
      of the grid. */
  lemma {:induction false} SearchShape(g: Grid, q: seq<Pos>, cur: Pos)
    requires g.Valid() && forall k :: 0 <= k < |q| ==> g.Contains(q[k])
    ensures var r := Search(g, q, cur);
            r.Some? ==> && r.value.0.Valid() && r.value.0.rows == g.rows && r.value.0.cols == g.cols
                        && forall k :: 0 <= k < |r.value.1| ==> r.value.0.Contains(r.value.1[k])
    decreases Unvisited(g), Weight(g, q)
  {
    if cur != Exit(g) && q != [] {
      PassDecreases(g, q);
      SearchUnfold(g, q, cur);
      SearchShape(Pass(g, q[0]).0, q[1..] + Pass(g, q[0]).1, q[0]);
    }
  }

  /** Where the search stops: at the exit, or with an empty queue. */
  lemma SearchStops(g: Grid, q: seq<Pos>, cur: Pos)
    requires g.Valid() && forall k :: 0 <= k < |q| ==> g.Contains(q[k])
    ensures cur == Exit(g) ==> Search(g, q, cur) == Some((g, q))
    ensures cur != Exit(g) && q == [] ==> Search(g, q, cur) == None
  {
  }

  /** The search invariant keeps the dimensions of the maze and the queue
      inside it. */
  lemma InvShape(g0: Grid, g: Grid, q: seq<Pos>, cur: Pos)
    requires g0.Valid() && g.Valid() && SolveInv(g0, g, q, cur)
    ensures g.rows == g0.rows && g.cols == g0.cols && Exit(g) == Exit(g0)
    ensures forall k :: 0 <= k < |q| ==> g.Contains(q[k])
  {
    assert Untouched(g0, g, q) && Labelled(g0, g, q);
    SameExit(g0, g);
  }

  lemma SameExit(g0: Grid, g: Grid)
    requires g.rows == g0.rows && g.cols == g0.cols
    ensures Exit(g) == Exit(g0)
  {
  }

  /** One pass from a state meeting the search invariant, seen from
      outside: the state it leads to meets the invariant again, the search
      goes on from it to the same end, and it is closer to that end. */
  lemma Advance(g0: Grid, g: Grid, q: seq<Pos>, cur: Pos) returns (h: Grid, q': seq<Pos>, cur': Pos)
    requires g0.Valid() && g.Valid() && SolveInv(g0, g, q, cur)
    requires forall k :: 0 <= k < |q| ==> g.Contains(q[k])
    requires |q| > 0 && cur != Exit(g)
    ensures h.Valid() && (forall k :: 0 <= k < |q'| ==> h.Contains(q'[k])) && SolveInv(g0, h, q', cur')
    ensures Search(g, q, cur) == Search(h, q', cur')
    ensures || Unvisited(h) < Unvisited(g)
            || (Unvisited(h) == Unvisited(g) && Weight(h, q') < Weight(g, q))
  {
    PassKeeps(g0, g, q, cur);
    PassDecreases(g, q);
    SearchUnfold(g, q, cur);
    h, q', cur' := Pass(g, q[0]).0, q[1..] + Pass(g, q[0]).1, q[0];
  }

  /** From a state meeting the search invariant, a search that reaches the
      exit leaves a state that meets it with the exit current. */
  lemma {:induction false} SearchKeeps(g0: Grid, g: Grid, q: seq<Pos>, cur: Pos)
    requires g0.Valid() && g.Valid() && SolveInv(g0, g, q, cur)
    requires forall k :: 0 <= k < |q| ==> g.Contains(q[k])
    ensures var r := Search(g, q, cur);
            r.Some? ==> r.value.0.Valid() && SolveInv(g0, r.value.0, r.value.1, Exit(g0))
    decreases Unvisited(g), Weight(g, q)
  {
    InvShape(g0, g, q, cur);
    if cur == Exit(g) || q == [] {
      SearchStops(g, q, cur);
    } else {
      var h, q', cur' := Advance(g0, g, q, cur);
      SearchKeeps(g0, h, q', cur');
    }
  }

  /** From a state meeting the search invariant, a search whose queue runs
      dry shows that the exit cannot be reached. */
  lemma {:induction false} SearchFails(g0: Grid, g: Grid, q: seq<Pos>, cur: Pos)
    requires g0.Valid() && g.Valid() && SolveInv(g0, g, q, cur)
    requires forall k :: 0 <= k < |q| ==> g.Contains(q[k])
    ensures Search(g, q, cur).None? ==> !Reachable(g0, Exit(g0))
    decreases Unvisited(g), Weight(g, q)
  {
    InvShape(g0, g, q, cur);
    if cur == Exit(g) {
      SearchStops(g, q, cur);
    } else {
      if q == [] {
        NoWayOut(g0, g, q, cur);
      } else {
        var h, q', cur' := Advance(g0, g, q, cur);
        SearchFails(g0, h, q', cur');
      }
    }
  }

  /** From any state meeting the search invariant, the search reaches the
      exit exactly when the exit can be reached, and then leaves a state
      that meets the invariant with the exit as the current cell. */
  lemma SearchFinds(g0: Grid, g: Grid, q: seq<Pos>, cur: Pos)
    requires g0.Valid() && g.Valid() && SolveInv(g0, g, q, cur)
    ensures forall k :: 0 <= k < |q| ==> g.Contains(q[k])
    ensures Search(g, q, cur).Some? <==> Reachable(g0, Exit(g0))
    ensures var r := Search(g, q, cur);
            r.Some? ==> r.value.0.Valid() && SolveInv(g0, r.value.0, r.value.1, Exit(g0))
  {
    InvShape(g0, g, q, cur);
    SearchKeeps(g0, g, q, cur);
    SearchFails(g0, g, q, cur);
    var r := Search(g, q, cur);
    if r.Some? {
      WayOut(g0, r.value.0, r.value.1, Exit(g0));
    }
  }

  // ---- the drain -------------------------------------------------------------

  /** The loop after the search: every cell left in the queue gets -1. */
  ghost function Cleared(g: Grid, q: seq<Pos>): (h: Grid)
    requires g.Valid() && forall k :: 0 <= k < |q| ==> g.Contains(q[k])
    ensures h.Valid() && h.rows == g.rows && h.cols == g.cols
    decreases |q|
  {
    if q == [] then g else Cleared(g.Put(q[0], g.At(q[0]).(value := -1)), q[1..])
  }

  /** The drain relabels exactly the queued cells and nothing else. */
  lemma {:induction false} ClearedAt(g: Grid, q: seq<Pos>, p: Pos)
    requires g.Valid() && g.Contains(p) && forall k :: 0 <= k < |q| ==> g.Contains(q[k])
    ensures Cleared(g, q).At(p) == if p in q then g.At(p).(value := -1) else g.At(p)
    decreases |q|
  {
    if q != [] {
      var g' := g.Put(q[0], g.At(q[0]).(value := -1));
      ClearedAt(g', q[1..], p);
      if p != q[0] && p in q {
        assert p in q[1..];
      }
    }
  }

  // ---- the solution file -------------------------------------------------------

  /** p's label in f continues the label of its neighbour through wall w:
      the way from that neighbour to p is open in g0, and either p's label
      is the neighbour's plus one modulo 10, or the neighbour was still
      queued at the end and so carries -1. */
  ghost predicate Continues(g0: Grid, f: Grid, p: Pos, w: WallCode)
    requires g0.Valid() && f.Valid() && f.rows == g0.rows && f.cols == g0.cols && g0.Contains(p)
  {
    var r := Neighbour(p, w);
    && g0.Contains(r) && CanMove(g0, r, Opposite(w))
    && (f.At(r).value == -1 || f.At(p).value == NextLabel(f.At(r).value))
  }

  /** Every label 0..9 the solver wrote, other than the entrance's,
      continues the label of a neighbour it was reached from. */
  ghost predicate LabelsFollow(g0: Grid, f: Grid)
    requires g0.Valid() && f.Valid() && f.rows == g0.rows && f.cols == g0.cols
  {
    forall p :: g0.Contains(p) && p != Start && 0 <= f.At(p).value <= 9 && f.At(p).value != g0.At(p).value ==>
      exists w: WallCode :: Continues(g0, f, p, w)
  }

  /** u is the drained grid of a search of t that ended at the exit. */
  ghost predicate SearchOutput(t: seq<int>, u: seq<int>)
    requires WellFormed(t)
  {
    exists s: Grid, left: seq<Pos> ::
      && s.Valid() && s.rows == t[0] && s.cols == t[1]
      && SolveInv(Decoded(t), s, left, Exit(Decoded(t)))
      && (forall k :: 0 <= k < |left| ==> s.Contains(left[k]))
      && u == Layout(Cleared(s, left))
  }

  /** What the solution file u says about the maze file t it was solved
      from: the same dimensions and walls; labels changed only on cells
      reachable from the entrance, each to 0..9 or to -1; the entrance
      labelled 0, or -1 when it is also the exit; and every new label 0..9
      other than the entrance's is one more, modulo 10, than the label of a
      neighbour with an open way to it (or that neighbour carries -1). */
  ghost predicate Relabelled(t: seq<int>, u: seq<int>)
    requires WellFormed(t)
  {
    && WellFormed(u) && u[0] == t[0] && u[1] == t[1]
    && CellsRelabelled(t, u)
    && DecodeCell(u, 0, 0).value == (if t[0] == 1 && t[1] == 1 then -1 else 0)
    && LabelsFollow(Decoded(t), Decoded(u))
  }

  /** Cell by cell: the same walls, and a label either kept or changed to
      -1..9, and kept on every cell not reachable from the entrance. */
  ghost predicate CellsRelabelled(t: seq<int>, u: seq<int>)
    requires WellFormed(t) && WellFormed(u) && u[0] == t[0] && u[1] == t[1]
  {
    forall i: nat, j: nat :: i < t[0] && j < t[1] ==>
      && SameWalls(DecodeCell(u, i, j), DecodeCell(t, i, j))
      && (|| DecodeCell(u, i, j).value == DecodeCell(t, i, j).value
          || -1 <= DecodeCell(u, i, j).value <= 9)
      && (!Reachable(Decoded(t), (i, j)) ==> DecodeCell(u, i, j).value == DecodeCell(t, i, j).value)
  }

  /** The solution file is relabelled as above and is what a search of t
      that reached the exit leaves behind once the queue is drained. */
  ghost predicate Solved(t: seq<int>, u: seq<int>)
    requires WellFormed(t)
  {
    Relabelled(t, u) && SearchOutput(t, u)
  }

  /** The grid after the drain keeps the walls of the grid that was read. */
  lemma DrainedWalls(g0: Grid, s: Grid, left: seq<Pos>)
    requires g0.Valid() && s.Valid() && Untouched(g0, s, left)
    requires forall k :: 0 <= k < |left| ==> s.Contains(left[k])
    requires WallsAgree(g0) && OuterRowsClosed(g0)
    ensures forall p :: g0.Contains(p) ==> SameWalls(Cleared(s, left).At(p), g0.At(p))
    ensures WallsAgree(Cleared(s, left)) && OuterRowsClosed(Cleared(s, left))
  {
    var f := Cleared(s, left);
    forall p | g0.Contains(p)
      ensures SameWalls(f.At(p), g0.At(p))
    {
      ClearedAt(s, left, p);
    }
    forall p, w: WallCode | f.Contains(p) && f.Contains(Neighbour(p, w))
      ensures Wall(f.At(p), w) == Wall(f.At(Neighbour(p, w)), Opposite(w))
    {
      assert SameWalls(f.At(p), g0.At(p));
      assert SameWalls(f.At(Neighbour(p, w)), g0.At(Neighbour(p, w)));
    }
  }

  /** The labels after the drain, cell by cell. */
  lemma DrainedLabel(g0: Grid, s: Grid, left: seq<Pos>, p: Pos)
    requires g0.Valid() && s.Valid() && SolveInv(g0, s, left, Exit(g0)) && g0.Contains(p)
    ensures forall k :: 0 <= k < |left| ==> s.Contains(left[k])
    ensures var v := Cleared(s, left).At(p).value;
            && (v == g0.At(p).value || -1 <= v <= 9)
            && (!Reachable(g0, p) ==> v == g0.At(p).value)
            && (p == Start ==> v == if g0.rows == 1 && g0.cols == 1 then -1 else 0)
  {
    ClearedAt(s, left, p);
    if p == Start && (g0.rows > 1 || g0.cols > 1) {
      assert Exit(s) != Start;
    }
  }

  /** A label the search set and the drain kept continues the label of the
      visited neighbour it was reached from, unless the drain relabelled
      that neighbour -1. */
  lemma DrainedTrail(g0: Grid, s: Grid, left: seq<Pos>, p: Pos)
    requires g0.Valid() && s.Valid() && Untouched(g0, s, left) && Labelled(g0, s, left)
    requires g0.Contains(p) && p != Start
    requires forall k :: 0 <= k < |left| ==> s.Contains(left[k])
    ensures var f := Cleared(s, left);
            0 <= f.At(p).value <= 9 && f.At(p).value != g0.At(p).value ==>
              exists w: WallCode :: Continues(g0, f, p, w)
  {
    var f := Cleared(s, left);
    ClearedAt(s, left, p);
    if 0 <= f.At(p).value <= 9 && f.At(p).value != g0.At(p).value {
      assert Tracked(s, left, p);
      var w: WallCode :| Trail(s, p, w);
      var r := Neighbour(p, w);
      NeighbourInverse(p, w);
      ClearedAt(s, left, r);
      assert SameWalls(s.At(r), g0.At(r));
      assert Continues(g0, f, p, w);
    }
  }

  /** Writing a grid with consistent walls and reading cell (i, j) back. */
  lemma ReadBackCell(t: seq<int>, f: Grid, i: nat, j: nat)
    requires WellFormed(t) && f.Valid() && f.rows == t[0] && f.cols == t[1] && i < t[0] && j < t[1]
    requires WallsAgree(f) && OuterRowsClosed(f)
    ensures WellFormed(Layout(f)) && Layout(f)[0] == t[0] && Layout(f)[1] == t[1]
    ensures DecodeCell(Layout(f), i, j) == f.At((i, j)).(visited := false)
  {
    RoundTrip(f, i, j);
    LayoutTokens(f, i, j);
  }

  /** The grid after the drain, compared with the grid that was read:
      same walls, labels changed only on reachable cells and only to -1..9,
      the entrance labelled 0 or, when it is also the exit, -1. */
  ghost predicate DrainedFrom(g0: Grid, f: Grid)
    requires g0.Valid() && f.Valid()
  {
    && g0.rows >= 1 && g0.cols >= 1 && f.rows == g0.rows && f.cols == g0.cols
    && WallsAgree(f) && OuterRowsClosed(f)
    && (forall p :: g0.Contains(p) ==>
          && SameWalls(f.At(p), g0.At(p))
          && (f.At(p).value == g0.At(p).value || -1 <= f.At(p).value <= 9)
          && (!Reachable(g0, p) ==> f.At(p).value == g0.At(p).value))
    && f.At(Start).value == (if g0.rows == 1 && g0.cols == 1 then -1 else 0)
    && LabelsFollow(g0, f)
  }

  lemma Drained(g0: Grid, s: Grid, left: seq<Pos>)
    requires g0.Valid() && s.Valid() && SolveInv(g0, s, left, Exit(g0))
    requires WallsAgree(g0) && OuterRowsClosed(g0)
    ensures forall k :: 0 <= k < |left| ==> s.Contains(left[k])
    ensures DrainedFrom(g0, Cleared(s, left))
  {
    DrainedWalls(g0, s, left);
    forall p | g0.Contains(p)
      ensures var v := Cleared(s, left).At(p).value;
              && (v == g0.At(p).value || -1 <= v <= 9)
              && (!Reachable(g0, p) ==> v == g0.At(p).value)
    {
      DrainedLabel(g0, s, left, p);
    }
    DrainedLabel(g0, s, left, Start);
    forall p | g0.Contains(p) && p != Start
      ensures var f := Cleared(s, left);
              0 <= f.At(p).value <= 9 && f.At(p).value != g0.At(p).value ==>
                exists w: WallCode :: Continues(g0, f, p, w)
    {
      DrainedTrail(g0, s, left, p);
    }
  }

  /** Writing the drained grid gives a solution file of the maze file. */
  /** LabelsFollow looks only at the labels. */
  lemma FollowSameLabels(g0: Grid, f: Grid, h: Grid)
    requires g0.Valid() && f.Valid() && h.Valid()
    requires f.rows == g0.rows && f.cols == g0.cols && h.rows == g0.rows && h.cols == g0.cols
    requires forall i: nat, j: nat :: i < g0.rows && j < g0.cols ==> h.At((i, j)).value == f.At((i, j)).value
    requires LabelsFollow(g0, f)
    ensures LabelsFollow(g0, h)
  {
    forall p | g0.Contains(p) && p != Start && 0 <= h.At(p).value <= 9 && h.At(p).value != g0.At(p).value
      ensures exists w: WallCode :: Continues(g0, h, p, w)
    {
      var w: WallCode :| Continues(g0, f, p, w);
      var r := Neighbour(p, w);
      assert h.At((r.0, r.1)).value == f.At((r.0, r.1)).value;
      assert h.At((p.0, p.1)).value == f.At((p.0, p.1)).value;
      assert Continues(g0, h, p, w);
    }
  }

  /** Writing a grid with consistent walls and reading it back keeps every label. */
  lemma ReadBackLabels(t: seq<int>, f: Grid)
    requires WellFormed(t) && f.Valid() && f.rows == t[0] && f.cols == t[1]
    requires WallsAgree(f) && OuterRowsClosed(f)
    ensures WellFormed(Layout(f))
    ensures forall i: nat, j: nat :: i < f.rows && j < f.cols ==> Decoded(Layout(f)).At((i, j)).value == f.At((i, j)).value
  {
    ReadBackCell(t, f, 0, 0);
    forall i: nat, j: nat | i < f.rows && j < f.cols
      ensures Decoded(Layout(f)).At((i, j)).value == f.At((i, j)).value
    {
      ReadBackCell(t, f, i, j);
    }
  }

  /** The drained grid, written and read back, relabels the maze cell by cell. */
  lemma SolvedCells(t: seq<int>, f: Grid)
    requires WellFormed(t) && f.Valid() && DrainedFrom(Decoded(t), f)
    ensures WellFormed(Layout(f)) && Layout(f)[0] == t[0] && Layout(f)[1] == t[1]
    ensures CellsRelabelled(t, Layout(f))
    ensures DecodeCell(Layout(f), 0, 0).value == (if t[0] == 1 && t[1] == 1 then -1 else 0)
  {
    var g0 := Decoded(t);
    var u := Layout(f);
    ReadBackCell(t, f, 0, 0);
    forall i: nat, j: nat | i < t[0] && j < t[1]
      ensures && SameWalls(DecodeCell(u, i, j), DecodeCell(t, i, j))
              && (|| DecodeCell(u, i, j).value == DecodeCell(t, i, j).value
                  || -1 <= DecodeCell(u, i, j).value <= 9)
              && (!Reachable(g0, (i, j)) ==> DecodeCell(u, i, j).value == DecodeCell(t, i, j).value)
    {
      ReadBackCell(t, f, i, j);
      assert DecodeCell(t, i, j) == g0.At((i, j));
      assert g0.Contains((i, j));
    }
  }

  lemma SolvedFile(t: seq<int>, f: Grid)
    requires WellFormed(t) && f.Valid() && DrainedFrom(Decoded(t), f)
    ensures Relabelled(t, Layout(f))
  {
    SolvedCells(t, f);
    ReadBackLabels(t, f);
    FollowSameLabels(Decoded(t), f, Decoded(Layout(f)));
  }

  /** The solution file: the drained grid written out. */
  lemma SolvedOutput(t: seq<int>, s: Grid, left: seq<Pos>)
    requires WellFormed(t) && s.Valid() && SolveInv(Decoded(t), s, left, Exit(Decoded(t)))
    ensures forall k :: 0 <= k < |left| ==> s.Contains(left[k])
    ensures Cleared(s, left).rows >= 1 && Cleared(s, left).cols >= 1
    ensures Solved(t, Layout(Cleared(s, left)))
  {
    DecodedConsistent(t);
    Drained(Decoded(t), s, left);
    SolvedFile(t, Cleared(s, left));
    assert SearchOutput(t, Layout(Cleared(s, left)));
  }

  /** What solveMAZE writes when started from grid g with queue q and the
      entrance current: the search, then the drain and writeMAZE; None when
      the queue runs dry before the exit is dequeued. */
  ghost function Outcome(g: Grid, q: seq<Pos>): Option<seq<int>>
    requires g.Valid() && g.rows >= 1 && g.cols >= 1
    requires forall k :: 0 <= k < |q| ==> g.Contains(q[k])
  {
    SearchShape(g, q, Start);
    match Search(g, q, Start)
    case None => None
    case Some((h, left)) => Some(Layout(Cleared(h, left)))
  }

  /** What solveMAZE writes for the maze file t: the search starts with the
      entrance labelled 0 and alone in the queue. */
  ghost function Solution(t: seq<int>): Option<seq<int>>
    requires WellFormed(t)
  {
    Outcome(Started(Decoded(t)), [Start])
  }

  /** solveMAZE's output is None exactly when the exit cannot be reached,
      and otherwise a solution of the maze file. */
  lemma SolutionSolved(t: seq<int>)
    requires WellFormed(t)
    ensures Solution(t).None? <==> !Reachable(Decoded(t), Exit(Decoded(t)))
    ensures Solution(t).Some? ==> Solved(t, Solution(t).value)
  {
    var g0 := Decoded(t);
    assert forall p :: g0.Contains(p) ==> !g0.At(p).visited by {
      forall p | g0.Contains(p)
        ensures !g0.At(p).visited
      {
        assert g0.At((p.0, p.1)) == DecodeCell(t, p.0, p.1);
      }
    }
    SolveStart(g0, Started(g0), [Start]);
    SearchFinds(g0, Started(g0), [Start], Start);
    SearchShape(Started(g0), [Start], Start);
    match Search(Started(g0), [Start], Start)
    case None =>
    case Some((h, left)) =>
      SolvedOutput(t, h, left);
  }

  /** On the open 1x2 maze [1, 2, 0, -1, 0, -1, 0] solveMAZE writes
      [1, 2, 0, 0, 0, 1, 0]: the entrance 0 and the exit 1, nothing left to
      drain. */
  lemma OpenPairSearch(t: seq<int>)
    requires t == [1, 2, 0, -1, 0, -1, 0]
    ensures WellFormed(t)
    ensures var r := Search(Started(Decoded(t)), [Start], Start);
            && r.Some? && r.value.1 == []
            && r.value.0.Valid() && r.value.0.rows == 1 && r.value.0.cols == 2
            && r.value.0.At((0, 0)).value == 0 && r.value.0.At((0, 1)).value == 1
            && !r.value.0.At((0, 0)).left && !r.value.0.At((0, 1)).left && !r.value.0.At((0, 1)).right
  {
    var g0 := Decoded(t);
    assert RowStart(2, 0) == 2;
    var c0, c1 := DecodeCell(t, 0, 0), DecodeCell(t, 0, 1);
    assert g0.At((0, 0)) == c0 && g0.At((0, 1)) == c1;
    assert !c0.right && !c1.left && c0.top && c0.bottom && c1.top && c1.bottom;
    var g := Started(g0);
    assert g.rows == 1 && g.cols == 2 && Exit(g) == (0, 1);
    // first pass: the entrance is visited and the exit labelled 1 and queued
    var (g1, adds1) := Pass(g, Start);
    assert adds1 == [(0, 1)];
    assert g1.At((0, 1)).value == 1 && g1.At((0, 0)).value == 0;
    // second pass: the exit is visited, nothing to enqueue
    var (g2, adds2) := Pass(g1, (0, 1));
    assert adds2 == [];
    assert g2.At((0, 0)).value == 0 && g2.At((0, 1)).value == 1;
    assert !g2.At((0, 0)).left && !g2.At((0, 1)).left && !g2.At((0, 1)).right;
    assert g1.rows == g2.rows == 1 && g1.cols == g2.cols == 2;
    assert [Start][1..] + adds1 == adds1 && adds1[1..] + adds2 == [];
    SearchUnfold(g, [Start], Start);
    SearchUnfold(g1, adds1, Start);
    SearchStops(g2, [], (0, 1));
  }

  lemma OpenPairSolution()
    ensures Solution([1, 2, 0, -1, 0, -1, 0]) == Some([1, 2, 0, 0, 0, 1, 0])
  {
    var t := [1, 2, 0, -1, 0, -1, 0];
    OpenPairSearch(t);
    var h := Search(Started(Decoded(t)), [Start], Start).value.0;
    assert Cleared(h, []) == h;
    var u := Layout(h);
    LayoutTokens(h, 0, 0);
    LayoutTokens(h, 0, 1);
    assert |u| == 7;
    assert u == [1, 2, 0, 0, 0, 1, 0];
  }


  /** The open 1x2 maze [1, 2, 0, -1, 0, -1, 0] relabelled to
      [1, 2, 0, 0, 0, 7, 0]: the exit's 7 continues no neighbour's label,
      since its only neighbour is the entrance, labelled 0. */
  lemma SevenFollowsNothing()
    ensures !LabelsFollow(Decoded([1, 2, 0, -1, 0, -1, 0]), Decoded([1, 2, 0, 0, 0, 7, 0]))
  {
    var t := [1, 2, 0, -1, 0, -1, 0];
    var u := [1, 2, 0, 0, 0, 7, 0];
    var g0 := Decoded(t);
    var h := Decoded(u);
    assert RowStart(2, 0) == 2;
    assert h.At((0, 1)).value == DecodeCell(u, 0, 1).value == 7;
    assert h.At((0, 0)).value == DecodeCell(u, 0, 0).value == 0;
    assert g0.At((0, 1)).value == DecodeCell(t, 0, 1).value == -1;
    forall w: WallCode
      ensures !Continues(g0, h, (0, 1), w)
    {
      if w == Left {
        assert NextLabel(0) == 1;
      }
    }
  }

  /** Hence that file is not a solution of that maze. */
  lemma NotSolvedSeven()
    ensures !Solved([1, 2, 0, -1, 0, -1, 0], [1, 2, 0, 0, 0, 7, 0])
  {
    SevenFollowsNothing();
  }
}
