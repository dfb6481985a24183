/** solveMAZE on the maze object: read the maze file, search it breadth
    first from the entrance with a queue of positions until the exit is
    dequeued, relabel whatever is still queued -1 and write the maze back
    out. The grid-level meaning of each step is in SolveSpec. */
module Solving {
  import opened Capacity
  import opened Cells
  import opened Grids
  import opened Layouts
  import opened Queues
  import opened Mazes
  import opened SolveSpec

  /** One if-block of the loop: when the path through wall w of x is clear,
      enqueue the neighbour and give it the label after x's. */
  method Expand(m: Maze, q: Queue<Pos>, x: Pos, w: WallCode)
    requires m.Valid() && q.Valid() && q.Repr !! m.CellSet && m.InMaze(x)
    modifies m.CellSet, q.Repr
    ensures q.Valid() && fresh(q.Repr - old(q.Repr)) && q.Repr !! m.CellSet
    ensures q.Contents == old(q.Contents) + Enqueues(old(m.View()), x, w)
    ensures m.View() == Label(old(m.View()), x, w)
  {
    var c := m.cells[x.0][x.1];
    m.ViewAt(x.0, x.1);
    if m.IsPathClear(c, w) {
      var y := Neighbour(x, w);
      q.Enqueue(y);
      var _ := m.SetValueAt(y, NextLabel(c.value));
    }
  }

  lemma AppendFour<T>(p: seq<T>, a: seq<T>, b: seq<T>, c: seq<T>, d: seq<T>)
    ensures p + a + b + c + d == p + (a + b + c + d)
  {
  }

  /** One pass of the loop: dequeue a cell, mark it visited and try its
      four walls in the order top, left, right, bottom. */
  method SolvePass(m: Maze, q: Queue<Pos>) returns (cur: Pos)
    requires m.Valid() && q.Valid() && q.Repr !! m.CellSet
    requires |q.Contents| > 0 && m.InMaze(q.Contents[0])
    modifies m.CellSet, q.Repr
    ensures q.Valid() && fresh(q.Repr - old(q.Repr)) && q.Repr !! m.CellSet
    ensures cur == old(q.Contents)[0]
    ensures m.View() == Pass(old(m.View()), cur).0
    ensures q.Contents == old(q.Contents)[1..] + Pass(old(m.View()), cur).1
  {
    ghost var g, queue := m.View(), q.Contents;
    cur := q.Dequeue();
    m.SetVisitedAt(cur);
    ghost var g1 := m.View();
    Expand(m, q, cur, Top);
    ghost var g2 := m.View();
    Expand(m, q, cur, Left);
    ghost var g3 := m.View();
    Expand(m, q, cur, Right);
    ghost var g4 := m.View();
    Expand(m, q, cur, Bottom);
    ghost var a, b, c, d := Enqueues(g1, cur, Top), Enqueues(g2, cur, Left),
                            Enqueues(g3, cur, Right), Enqueues(g4, cur, Bottom);
    assert q.Contents == queue[1..] + a + b + c + d;
    assert Pass(g, cur) == (m.View(), a + b + c + d);
    AppendFour(queue[1..], a, b, c, d);
  }

  /** The main loop of solveMAZE, run until the exit has been dequeued.
      When the queue runs dry first, dequeue's assertion would stop the
      program; here the search reports failure instead. It fails exactly
      when the exit cannot be reached, and on success the grid and queue
      are those Search gives and satisfy the search invariant with the exit
      as the current cell. */
  method Explore(m: Maze, q: Queue<Pos>, ghost g0: Grid) returns (found: bool)
    requires m.Valid() && q.Valid() && q.Repr !! m.CellSet
    requires g0.Valid() && SolveInv(g0, m.View(), q.Contents, Start)
    modifies m.CellSet, q.Repr
    ensures q.Valid() && fresh(q.Repr - old(q.Repr)) && q.Repr !! m.CellSet
    ensures found <==> Reachable(g0, Exit(g0))
    ensures found ==> SolveInv(g0, m.View(), q.Contents, Exit(g0))
    ensures found <==> Search(old(m.View()), old(q.Contents), Start).Some?
    ensures found ==> Search(old(m.View()), old(q.Contents), Start) == Some((m.View(), q.Contents))
  {
    SearchFinds(g0, m.View(), q.Contents, Start);
    found := RunSearch(m, q, m.View(), q.Contents);
  }

  /** The loop itself, started from grid g and queue queue with the
      entrance current: it ends where Search ends. */
  method RunSearch(m: Maze, q: Queue<Pos>, ghost g: Grid, ghost queue: seq<Pos>) returns (found: bool)
    requires m.Valid() && q.Valid() && q.Repr !! m.CellSet
    requires g == m.View() && queue == q.Contents
    requires forall k :: 0 <= k < |queue| ==> g.Contains(queue[k])
    modifies m.CellSet, q.Repr
    ensures q.Valid() && fresh(q.Repr - old(q.Repr)) && q.Repr !! m.CellSet
    ensures found <==> Search(g, queue, Start).Some?
    ensures found ==> Search(g, queue, Start) == Some((m.View(), q.Contents))
  {
    var cur := Start;
    ghost var h, left := g, queue;
    while cur != (m.rows - 1, m.cols - 1)
      invariant q.Valid() && fresh(q.Repr - old(q.Repr)) && q.Repr !! m.CellSet
      invariant h == m.View() && left == q.Contents
      invariant forall k :: 0 <= k < |left| ==> h.Contains(left[k])
      invariant Search(h, left, cur) == Search(g, queue, Start)
      decreases Passes(h, left, cur)
    {
      if q.Size() == 0 {
        break;
      }
      cur, h, left := SearchPass(m, q, cur, h, left);
    }
    SearchStops(h, left, cur);
    found := cur == (m.rows - 1, m.cols - 1);
  }

  /** One pass of the main loop (SolvePass), seen through Search: Search
      from the new state, with the dequeued cell current, ends where it did
      from the old one, and one pass fewer remains before it stops. The
      ghost results name the grid and the queue after the pass. */
  method SearchPass(m: Maze, q: Queue<Pos>, cur: Pos, ghost g: Grid, ghost queue: seq<Pos>)
      returns (cur': Pos, ghost g': Grid, ghost queue': seq<Pos>)
    requires m.Valid() && q.Valid() && q.Repr !! m.CellSet
    requires g == m.View() && queue == q.Contents
    requires g.Valid() && forall k :: 0 <= k < |queue| ==> g.Contains(queue[k])
    requires |queue| > 0 && cur != Exit(g)
    modifies m.CellSet, q.Repr
    ensures q.Valid() && fresh(q.Repr - old(q.Repr)) && q.Repr !! m.CellSet
    ensures g' == m.View() && queue' == q.Contents && g'.Valid() && g'.rows == g.rows && g'.cols == g.cols
    ensures forall k :: 0 <= k < |queue'| ==> g'.Contains(queue'[k])
    ensures Search(g', queue', cur') == Search(g, queue, cur)
    ensures Passes(g', queue', cur') == Passes(g, queue, cur) - 1
  {
    PassDecreases(g, queue);
    SearchUnfold(g, queue, cur);
    cur' := SolvePass(m, q);
    g', queue' := m.View(), q.Contents;
  }

  /** The loop after the search: every cell still queued is labelled -1. */
  method DrainLabels(m: Maze, q: Queue<Pos>)
    requires m.Valid() && q.Valid() && q.Repr !! m.CellSet
    requires forall k :: 0 <= k < |q.Contents| ==> m.View().Contains(q.Contents[k])
    modifies m.CellSet, q.Repr
    ensures q.Valid() && q.Contents == []
    ensures m.View() == Cleared(old(m.View()), old(q.Contents))
  {
    ghost var g, queue := m.View(), q.Contents;
    while q.Size() > 0
      invariant q.Valid() && fresh(q.Repr - old(q.Repr)) && q.Repr !! m.CellSet
      invariant g == m.View() && queue == q.Contents && g.Valid()
      invariant forall k :: 0 <= k < |queue| ==> g.Contains(queue[k])
      invariant Cleared(g, queue) == Cleared(old(m.View()), old(q.Contents))
      decreases |queue|
    {
      var p := q.Dequeue();
      var _ := m.SetValueAt(p, -1);
      ghost var g', queue' := m.View(), q.Contents;
      assert g' == g.Put(queue[0], g.At(queue[0]).(value := -1)) && queue' == queue[1..];
      g, queue := g', queue';
    }
  }

  /** solveMAZE from the tokens of the maze file to those of the solution
      file. None stands for the run that dequeue's assertion stops, which
      happens exactly when the exit cannot be reached from the entrance. */
  method SolveMaze(t: seq<int>) returns (out: Option<seq<int>>)
    requires WellFormed(t)
    ensures out.None? <==> !Reachable(Decoded(t), (t[0] - 1, t[1] - 1))
    ensures out.Some? ==> Solved(t, out.value)
    ensures out == Solution(t)
  {
    var m := ReadMaze(t);
    GridExtensionality(m.View(), Decoded(t));
    DecodedExit(t);
    out := SolveRead(m, t);
  }

  lemma DecodedExit(t: seq<int>)
    requires WellFormed(t)
    ensures Exit(Decoded(t)) == (t[0] - 1, t[1] - 1)
  {
  }

  /** The start of solveMAZE after readMAZE: a new queue holding the
      entrance, labelled 0. */
  method SolveRead(m: Maze, t: seq<int>) returns (out: Option<seq<int>>)
    requires WellFormed(t) && m.Valid() && m.View() == Decoded(t)
    modifies m.CellSet
    ensures out.None? <==> !Reachable(Decoded(t), Exit(Decoded(t)))
    ensures out.Some? ==> Solved(t, out.value)
    ensures out == Solution(t)
  {
    var q := new Queue<Pos>();
    var _ := m.SetValueAt(Start, 0);
    q.Enqueue(Start);
    SolveStart(Decoded(t), m.View(), q.Contents);
    out := SolveQueued(m, q, t);
  }

  /** The search, then the drain and writeMAZE when the exit was found. */
  method SolveQueued(m: Maze, q: Queue<Pos>, t: seq<int>) returns (out: Option<seq<int>>)
    requires WellFormed(t) && m.Valid() && q.Valid() && q.Repr !! m.CellSet
    requires SolveInv(Decoded(t), m.View(), q.Contents, Start)
    modifies m.CellSet, q.Repr
    ensures out.None? <==> !Reachable(Decoded(t), Exit(Decoded(t)))
    ensures out.Some? ==> Solved(t, out.value)
    ensures out == Outcome(old(m.View()), old(q.Contents))
  {
    var found := Explore(m, q, Decoded(t));
    if !found {
      return None;
    }
    var tokens := Finish(m, q, t);
    out := Some(tokens);
  }

  /** The end of solveMAZE: drain the queue and write the maze. */
  method Finish(m: Maze, q: Queue<Pos>, t: seq<int>) returns (tokens: seq<int>)
    requires WellFormed(t) && m.Valid() && q.Valid() && q.Repr !! m.CellSet
    requires SolveInv(Decoded(t), m.View(), q.Contents, Exit(Decoded(t)))
    modifies m.CellSet, q.Repr
    ensures Solved(t, tokens)
    ensures tokens == Layout(Cleared(old(m.View()), old(q.Contents)))
  {
    ghost var g, queue := m.View(), q.Contents;
    SolvedOutput(t, g, queue);
    tokens := DrainAndWrite(m, q, g, queue);
  }

  /** Drain the queue, then write the maze out. */
  method DrainAndWrite(m: Maze, q: Queue<Pos>, ghost g: Grid, ghost queue: seq<Pos>) returns (tokens: seq<int>)
    requires m.Valid() && q.Valid() && q.Repr !! m.CellSet
    requires g == m.View() && queue == q.Contents
    requires forall k :: 0 <= k < |queue| ==> g.Contains(queue[k])
    requires Cleared(g, queue).rows >= 1 && Cleared(g, queue).cols >= 1
    modifies m.CellSet, q.Repr
    ensures tokens == Layout(Cleared(g, queue))
  {
    DrainLabels(m, q);
    tokens := m.Write();
  }
}
