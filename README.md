# Maze generator and solver: a verified model

This project models the core of a small C program that carves a random
perfect maze, writes it to a text file, reads such a file back and
solves it with a breadth-first search. The search labels each cell it
enqueues with its predecessor's label plus one, modulo 10, starting from 0
at the entrance; cells still queued when the exit is dequeued get -1. The model has four layers:

- **Containers.** The growable array `DA` (da.c) and the circular growable
  array `CDA` (cda.c) are Dafny classes over an `array`. Each carries a ghost
  `Contents` sequence, its footprint `Repr` and the same resize policy as the
  C code. The stack (stack.c) and the queue (queue.c) are thin classes
  over them.
- **Cells.** `CELL` (cell.c) is a class whose fields the methods update in
  place. The maze (`MAZE`, maze.c) is a class holding one cell object per
  position.
- **Grid value.** Every state change on the maze is also stated on a grid
  value (`Grids.Grid`, taken with `Maze.View()`). The algorithms' promises
  are proved as lemmas about that value.
- **Algorithms.**
  - `createMAZE` is a randomised depth-first search with an explicit stack.
    It produces a perfect maze: a tree of carves over all cells, entrance
    and exit open, every cell reachable.
  - `writeMAZE` and `readMAZE` convert between a maze and its token layout,
    and read-after-write restores every wall and label.
  - `solveMAZE` labels reachable cells only, uses the labels 0..9 and -1,
    and finishes exactly when the exit can be reached. Each label 0..9 it
    writes, other than the entrance's 0, is one more (mod 10) than the
    label of a neighbour with an open way to it, or that neighbour was
    still queued and was drained to -1. The model returns
    `None` where the C program would stop on `dequeue`'s assertion.

The I/O is modelled as token sequences. The file writeMAZE prints is the
sequence of integers it writes, in order. readMAZE takes such a sequence,
well formed, as its input. `random()` becomes a function `rand: nat -> nat`
giving the value of its k-th call.

## Model

| member | source | states |
|---|---|---|
| Capacity.InsertKeepsBalanced | da.c:53-65 | an insertion into a balanced array always finds a free slot and stays balanced; capacity doubles exactly when the array was full |
| Capacity.RemoveKeepsBalanced | da.c:67-81 | a removal followed by the halving rule (size below a quarter of the capacity) keeps the array balanced, and the halved buffer still holds every element |
| DynamicArrays.DynamicArray.constructor | da.c:28-41 | newDA: empty, capacity 1 |
| DynamicArrays.DynamicArray.Size | da.c:121 | sizeDA is the number of stored elements |
| DynamicArrays.DynamicArray.Get | da.c:101-105 | getDA returns element `index` and changes nothing |
| DynamicArrays.DynamicArray.DoubleCap | da.c:175-180 | doubleCap: twice the capacity, same elements |
| DynamicArrays.DynamicArray.HalveCap | da.c:182-190 | halveCap: half the capacity (1 when empty), same elements |
| DynamicArrays.DynamicArray.Insert | da.c:53-65 | insertDA: the value lands at `index`, later elements shift right by one, and the capacity follows the growth rule |
| DynamicArrays.DynamicArray.ShiftUp | da.c:62-63 | the shifting loop moves elements `index..size-2` up by one and leaves the prefix alone |
| DynamicArrays.DynamicArray.InsertBack | da.c:53-65 | insertDA at `size` appends the value |
| DynamicArrays.DynamicArray.Remove | da.c:67-81 | removeDA returns element `index`, closes the gap and shrinks by the halving rule |
| DynamicArrays.DynamicArray.RemoveBack | da.c:67-81 | removeDA at `size-1` returns and drops the last element |
| DynamicArrays.DynamicArray.Set | da.c:107-119 | setDA at `size` appends and returns None; below `size` it replaces and returns the old element |
| DynamicArrays.DynamicArray.Union | da.c:84-99 | unionDA: the recipient gains the donor's elements in order and the donor ends empty |
| CircularArrays.Slot | cda.c:117-123 | getCDA's physical slot for a logical index lies inside the buffer |
| CircularArrays.SlotIsModulo | cda.c:117-123 | the slot is (start + index) mod capacity, even when the start equals the capacity |
| CircularArrays.SlotInjective | cda.c:117-123 | distinct logical indices never share a physical slot |
| CircularArrays.IncrementIndex | cda.c:230-235 | incrementIndex wraps only once the index passes the capacity, and a start moved by it maps logical i+1 to the same slot as logical i before |
| CircularArrays.DecrementIndex | cda.c:239-244 | decrementIndex wraps below 0, and a start moved by it maps logical i-1 to the slot of logical i before |
| CircularArrays.CircularArray.constructor | cda.c:30-44 | newCDA: empty, capacity 1, start 0 |
| CircularArrays.CircularArray.Size | cda.c:145 | sizeCDA is the number of stored elements |
| CircularArrays.CircularArray.Get | cda.c:117-123 | getCDA returns logical element `index` |
| CircularArrays.CircularArray.DoubleCap | cda.c:199-209 | doubleCap copies the elements in logical order into twice the capacity and resets the start to 0 |
| CircularArrays.CircularArray.HalveCap | cda.c:211-226 | halveCap copies the elements in logical order into half the capacity and resets the start to 0 |
| CircularArrays.CircularArray.Insert | cda.c:56-80 | insertCDA puts the value at logical `index` with the other elements in order, grows by the doubling rule, and moves the start back one slot exactly for front-half insertions |
| CircularArrays.CircularArray.Place | cda.c:62-79 | with room in the buffer, the value lands at logical `index` with the others in order; the start moves back one slot exactly for front-half insertions |
| CircularArrays.CircularArray.RoomAtFront | cda.c:65-69 | the front-half case: the start moves back one slot and the first `index` elements move down with it, the rest stay |
| CircularArrays.CircularArray.RoomAtBack | cda.c:74-77 | the back-half case: the start stays and the elements from `index` on move up one slot |
| CircularArrays.CircularArray.ShiftDown | cda.c:68-69 | the front-half loop moves logical elements lo..hi down one slot |
| CircularArrays.CircularArray.ShiftUp | cda.c:76-77 | the back-half loop moves logical elements lo..hi up one slot |
| CircularArrays.CircularArray.Remove | cda.c:82-108 | removeCDA returns logical element `index`, keeps the rest in order, moves the start forward only for front-half removals and shrinks by the halving rule |
| CircularArrays.CircularArray.InsertFront | cda.c:56-80 | insertCDA at 0 prepends |
| CircularArrays.CircularArray.InsertBack | cda.c:56-80 | insertCDA at `size` appends |
| CircularArrays.CircularArray.RemoveFront | cda.c:82-108 | removeCDA at 0 returns and drops the head |
| CircularArrays.CircularArray.RemoveBack | cda.c:82-108 | removeCDA at `size-1` returns and drops the tail |
| CircularArrays.CircularArray.Set | cda.c:125-143 | setCDA at -1 prepends, at `size` appends (both return None), otherwise it replaces and returns the old element |
| CircularArrays.CircularArray.Union | cda.c:111-115 | unionCDA moves the donor's elements, front first, to the recipient's back |
| Stacks.Stack.constructor | stack.c:21-31 | newSTACK is empty |
| Stacks.Stack.Size | stack.c:103 | sizeSTACK is the height |
| Stacks.Stack.Push | stack.c:44-47 | push appends at the top |
| Stacks.Stack.Pop | stack.c:49-53 | pop returns and removes the top |
| Stacks.Stack.Peek | stack.c:55-59 | peekSTACK returns the top and changes nothing |
| Stacks.PushAllPopAll | stack.c:44-53 | last in, first out: pushing a sequence and popping everything yields it reversed |
| Queues.Queue.constructor | queue.c:21-31 | newQUEUE is empty |
| Queues.Queue.Size | queue.c:103 | sizeQUEUE is the length |
| Queues.Queue.Enqueue | queue.c:44-47 | enqueue appends at the tail |
| Queues.Queue.Dequeue | queue.c:49-53 | dequeue returns and removes the head |
| Queues.Queue.Peek | queue.c:55-59 | peekQUEUE returns the head and changes nothing |
| Queues.RunScript | queue.c:44-53 | first in, first out: for any script of enqueues and dequeues, the values dequeued followed by those left are exactly the values enqueued, in order |
| Queues.Drain | queue.c:49-53 | dequeuing until empty yields the contents head first |
| Cells.NeighbourInverse | cell.c:82-110 | stepping through a wall and back through the facing wall returns to the start, and different walls lead to different neighbours |
| Cells.WithoutWall | cell.c:64-80 | removing wall w clears w and keeps the other walls, the label and the flag |
| Cells.WithoutWallIdempotent | cell.c:64-80 | removing a wall twice is the same as removing it once |
| Cells.ClearedWalls | cell.c:82-110 | clearWALL picks, for a neighbour through wall w, exactly w on the current cell and the opposite wall on the next |
| Cells.Cell.constructor | cell.c:29-44 | newCELL: own coordinates, all four walls, label -1, unvisited |
| Cells.Cell.GetWall | cell.c:46-62 | getCELLwall reports whether the numbered wall is present |
| Cells.Cell.RemoveWall | cell.c:64-80 | removeCELLwall: the new state is the old one without that wall |
| Cells.Cell.SetValue | cell.c:114-119 | setCELLval stores the label and returns the previous one |
| Cells.Cell.SetVisited | cell.c:127 | setCELLvisited sets the flag and nothing else |
| Cells.ClearWall | cell.c:82-110 | clearWALL removes the shared wall from both cells |
| Grids.CandidatesAreEligible | maze.c:255-276 | a neighbour is in makePosWallsArray's list exactly when it is eligible |
| Grids.CandidatesInWallOrder | maze.c:255-276 | the list holds the eligible neighbours in the order top, left, right, bottom |
| Grids.NoCandidatesMeansDeadEnd | maze.c:61-75 | an empty list means every neighbour inside the grid has been visited |
| Mazes.Maze.constructor | maze.c:236-253 | newMAZE: rows × cols fresh cells, each with its own coordinates; the view is the blank grid |
| Mazes.NewRow | maze.c:243-248 | the inner loop creates `cols` distinct fresh cells for row i |
| Mazes.Maze.RemoveWallAt | cell.c:64-80 | removeCELLwall on one cell of the maze changes that cell of the view only |
| Mazes.Maze.SetValueAt | cell.c:114-119 | setCELLval on one cell of the maze changes that label of the view only |
| Mazes.Maze.SetVisitedAt | cell.c:127 | setCELLvisited on one cell of the maze changes that flag of the view only |
| Mazes.Maze.ClearWallBetween | cell.c:82-110 | clearWALL on two cells of the maze opens the wall they share on both sides |
| Mazes.Maze.IsWallEligible | maze.c:352-384 | isWallEligible holds exactly when the neighbour through the wall exists and is unvisited |
| Mazes.Maze.IsPathClear | maze.c:386-421 | isPathClear holds exactly when the cell's own wall is open and the neighbour through it exists and is unvisited |
| Mazes.Maze.MakePosWalls | maze.c:255-276 | makePosWallsArray returns a new array holding exactly the eligible neighbours in wall order |
| Mazes.Maze.FillCandidates | maze.c:259-273 | the four tests in wall order fill an empty array with exactly the eligible neighbours |
| Mazes.Maze.AppendIfEligible | maze.c:260-261 | one test appends the neighbour exactly when it is eligible |
| Mazes.Maze.Write | maze.c:278-311 | writeMAZE emits the layout of the maze's view: dimensions, then per row each left wall and label, the last right wall and, between rows, the bottom walls |
| Mazes.Maze.WriteRow | maze.c:292-310 | one row's cell line followed, except after the last row, by its bottom line |
| Mazes.Maze.WriteCellLine | maze.c:294-299 | left wall and label of each cell, then the last right wall |
| Mazes.Maze.WriteBottomLine | maze.c:301-309 | the bottom wall of each cell of the row |
| Mazes.ReadMaze | maze.c:313-350 | readMAZE on a well-formed layout builds a fresh maze whose every cell is the decoded cell: walls opened by 0 tokens on both sides, labels copied, nothing visited |
| Mazes.ReadRow | maze.c:320-348 | one pass of the outer loop advances the partially read grid by one row |
| Mazes.ReadRowCells | maze.c:322-332 | the inner loop reads all cells of the row |
| Mazes.ReadCell | maze.c:324-331 | a 0 left-wall token opens the cell's left wall and its left neighbour's right wall; the label is stored |
| Mazes.ReadRight | maze.c:333-334 | a 0 token opens the row's last right wall |
| Mazes.ReadRowBottoms | maze.c:336-347 | the bottom line of a row that is not the last |
| Mazes.ReadBottom | maze.c:340-345 | a 0 token opens the cell's bottom wall and the top wall of the cell below |
| Layouts.IndicesInRange | maze.c:291-309 | every token a cell writes lies inside a layout of the right length, in row order |
| Layouts.LayoutTokens | maze.c:278-311 | where each wall and label of a grid lands in its layout; the layout is well formed |
| Layouts.DecodedConsistent | maze.c:313-350 | any well-formed layout reads back as a grid whose shared walls agree and whose outer top and bottom walls stand |
| Layouts.RoundTrip | maze.c:278-350 | read after write restores every wall and label, with the visited flag cleared, for a grid with consistent walls |
| Layouts.PartialEnds | maze.c:313-350 | before any token readMAZE's grid is blank; after all rows it is the decoded grid |
| Generation.GrowsTreeExtend | maze.c:61-69 | a carve from a reached cell to an unreached one keeps the carves a tree and reaches exactly one cell more |
| Generation.DiscoveredSize | maze.c:61-69 | a tree of n carves reaches n + 1 cells |
| Generation.CarveStepAt | maze.c:65-66 | a carve changes exactly two cells: one wall of the current cell, and the facing wall and visited flag of the next |
| Generation.GenStart | maze.c:47-56 | after the entrance is opened, visited and pushed the search invariant holds, with every other outer wall standing |
| Generation.CarveKeepsOuter | maze.c:65-66 | a carve opens a shared wall only: the outer top, bottom and side walls all stay up and no label is set |
| Generation.CarveKeeps | maze.c:61-69 | carving towards an unvisited neighbour keeps the search invariant: flags mark the reached cells, walls agree, every outer wall but the entrance's left one stands, open inner walls are exactly the carves, every reached cell is reachable |
| Generation.PopKeeps | maze.c:95-99 | popping a cell with no unvisited neighbour keeps the search invariant |
| Generation.ReachedAll | maze.c:57-101 | when every reached cell is a dead end, every cell of the grid has been reached |
| Generation.SeenIsAll | maze.c:57-101 | once the stack is empty the reached cells are exactly the cells of the grid |
| Generation.Finish | maze.c:57-101 | when the loop ends every cell is reached and there are rows·cols - 1 carves |
| Generation.ExitKeeps | maze.c:102 | opening the exit's right wall turns the finished search into a perfect maze: the entrance's left and the exit's right wall are the only open outer walls |
| Generation.PerfectReadsBack | maze.c:102-103 | the layout createMAZE writes reads back as the generated maze, visited flags aside |
| Generation.GeneratedSolvable | maze.c:40-106 | the layout of any perfect maze is well formed and, read back, still has its exit reachable from the entrance |
| Generation.CreateMaze | maze.c:40-106 | createMAZE writes the layout of a perfect maze of the requested size: a tree of carves over all cells, every outer wall standing except the entrance's left and the exit's right one; the tokens are a well-formed maze file of that size whose exit is reachable once read back, so solveMAZE on it succeeds |
| Generation.Carve | maze.c:51-102 | between newMAZE and writeMAZE the maze becomes perfect |
| Generation.OpenEntrance | maze.c:54-56 | the entrance loses its left wall, is visited and pushed |
| Generation.Search | maze.c:57-101 | the loop ends with an empty stack while keeping the search invariant: the tree of carves, flags marking the reached cells, walls agreeing, outer walls standing but the entrance's, inner walls open exactly at carves, every reached cell reachable |
| Generation.OpenExit | maze.c:102 | the exit's right wall is removed and the result is perfect |
| Generation.SearchStep | maze.c:59-100 | one loop pass keeps the search invariant and either reaches a new cell or shortens the stack, so the loop ends |
| Generation.Backtrack | maze.c:72-100 | the dead-end branch peeks the top of the stack, then carves from it or pops it; the search invariant holds after and the same progress is made |
| Generation.CarveOrPop | maze.c:78-99 | the peeked top carves when it has an unvisited neighbour and is popped otherwise, keeping the search invariant with progress |
| Generation.PopDeadEnd | maze.c:95-99 | popping a top with no unvisited neighbour keeps the search invariant, reaches nothing new and shortens the stack |
| Generation.CarveChosen | maze.c:63-69 | the next cell is candidate number random() mod the candidate count; it was unreached, is now reached, and the search invariant still holds |
| Generation.CarveFrom | maze.c:65-67 | clearWALL, setCELLvisited and push for one eligible neighbour: the stack gains it and the grid changes by exactly that carve |
| SolveSpec.CRem10 | maze.c:202-203 | C's `% 10` truncates toward zero: the remainder differs from the dividend by a multiple of 10 and takes the dividend's sign |
| SolveSpec.NextLabelCycles | maze.c:202-203 | on labels 0..9 the next label counts 0, 1, ..., 9, 0 |
| SolveSpec.PassFlags | maze.c:193-196 | a pass changes only the dequeued cell's visited flag |
| SolveSpec.EnqueuedAll | maze.c:198-228 | a pass enqueues exactly the neighbours whose path is clear |
| SolveSpec.PassValues | maze.c:198-228 | a pass gives each enqueued neighbour the dequeued cell's label plus one mod 10 and leaves other labels alone |
| SolveSpec.SolveStart | maze.c:185-189 | with the entrance labelled 0 and queued, the search invariant holds |
| SolveSpec.PassKeeps | maze.c:191-229 | a pass keeps the search invariant: walls unchanged, tracked cells labelled 0..9 and reachable, each non-entrance label continuing a visited neighbour's, every move out of a visited cell leading to a tracked cell |
| SolveSpec.PassDecreases | maze.c:191-229 | each pass visits a new cell or shortens the weighted queue, so the loop ends |
| SolveSpec.SearchUnfold | maze.c:191-229 | before the exit is current and with a non-empty queue, the search is one pass (dequeue the head, then Pass) followed by the search from the state it leaves |
| SolveSpec.SearchShape | maze.c:191-229 | the search keeps the maze's dimensions and ends with a queue of cells of the maze |
| SolveSpec.Advance | maze.c:191-229 | one pass from a state meeting the search invariant leads to a state meeting it again, from which the search ends in the same place, and which is closer to that end |
| SolveSpec.SearchKeeps | maze.c:191-229 | a search from a state meeting the invariant that reaches the exit leaves a state meeting it with the exit current |
| SolveSpec.SearchFails | maze.c:191-193 | a search from a state meeting the invariant whose queue runs dry shows the exit unreachable |
| SolveSpec.SearchFinds | maze.c:191-229 | from a state meeting the invariant, the search reaches the exit exactly when the exit is reachable, and leaves the invariant with the exit current |
| SolveSpec.NoWayOut | maze.c:191-193 | when the queue runs dry before the exit is dequeued, the exit cannot be reached |
| SolveSpec.WayOut | maze.c:191 | when the exit is the current cell, it can be reached |
| SolveSpec.ClearedAt | maze.c:230 | the drain sets -1 on exactly the queued cells |
| SolveSpec.DrainedTrail | maze.c:198-230 | after the drain, every label 0..9 the search set (other than the entrance's) is one more, mod 10, than the label of a neighbour with an open way to it, unless the drain gave that neighbour -1 |
| SolveSpec.SolvedOutput | maze.c:230-232 | after the drain the written layout is a solution of the input: same dimensions and walls; labels changed only on reachable cells, to 0..9 or -1; entrance 0, or -1 in a one-cell maze; each new label 0..9 continues an open neighbour's label plus one mod 10 (or that neighbour was drained to -1); and the file is the written drain of a search state that reached the exit |
| SolveSpec.SolutionSolved | maze.c:182-232 | the output the reference search gives (None when the queue runs dry) is None exactly when the exit is unreachable, and otherwise a solution of the input in the sense of SolvedOutput |
| SolveSpec.OpenPairSearch | maze.c:191-229 | on the open 1x2 maze the search takes two passes, labels the exit 1 and stops at the exit with an empty queue |
| SolveSpec.OpenPairSolution | maze.c:182-232 | solveMAZE writes [1, 2, 0, 0, 0, 1, 0] for the open 1x2 maze [1, 2, 0, -1, 0, -1, 0]: entrance 0, exit 1 |
| SolveSpec.SevenFollowsNothing | maze.c:199-203 | in the open 1x2 maze, an exit labelled 7 next to an entrance labelled 0 continues no neighbour's label |
| SolveSpec.NotSolvedSeven | maze.c:182-232 | so the open 1x2 maze relabelled with 7 at the exit is not a solution of it |
| Solving.Expand | maze.c:199-204 | one if-block enqueues and labels the neighbour exactly as the grid-level Label and Enqueues say |
| Solving.SolvePass | maze.c:193-228 | one loop pass dequeues, marks and expands top, left, right, bottom, as Pass says |
| Solving.SearchPass | maze.c:191-229 | one pass leaves a state from which the search ends where it did before, one pass sooner |
| Solving.RunSearch | maze.c:191-229 | the loop reports success exactly when the reference search reaches the exit, and then leaves exactly the grid and queue that search ends with |
| Solving.Explore | maze.c:191-229 | the loop finds the exit exactly when it is reachable; it then leaves the grid and queue the reference search ends with, which meet the search invariant with the exit current |
| Solving.DrainLabels | maze.c:230 | the drain empties the queue and relabels the queued cells -1 |
| Solving.SolveMaze | maze.c:182-234 | solveMAZE's output is exactly the reference one (Solution): the breadth-first search run to the exit, drained and written; it fails exactly when the exit cannot be reached, and otherwise the output is a solution of the input: walls kept, labels changed only on reachable cells, each new label 0..9 one more mod 10 than an open neighbour's (or that neighbour drained to -1) |
| Solving.SolveRead | maze.c:184-189 | with the entrance labelled 0 and queued on a new queue, the rest of solveMAZE gives exactly the reference output for the file |
| Solving.SolveQueued | maze.c:191-232 | search, then drain and write when the exit was found: exactly the reference output from the state it starts in |
| Solving.Finish | maze.c:230-232 | drain and writeMAZE produce exactly the layout of the drained grid, which is a solution of the input |
| Solving.DrainAndWrite | maze.c:230-232 | the written tokens are the layout of the grid after the queued cells are relabelled -1 |

## Left out

- Solving.SolveMaze: the output is pinned to the reference search (SolveSpec.Search, then the drain and the layout). The model does not prove that each label equals the cell's shortest distance from the entrance modulo 10, which the first-in first-out order of maze.c:191-229 also gives.
- amaze.c (argument handling, `main`) and `drawMAZE` are left out. They only
  render a solved file as text and call the core.
- The display and debug functions of the containers, the `setXXXdisplay`
  and `setXXXfree` hooks, and every `free*` function are left out: they
  deal with printing and memory only.
- The file I/O of writeMAZE and readMAZE is modelled as integer token
  sequences. Whitespace and newlines are not modelled.
- `srandom`/`random` are replaced by the parameter `rand`.
- The stack and the queue hold `(row, col)` positions instead of `CELL*`
  pointers. The maze's cells are the only cell objects, so a position
  names a cell.
- The containers in the model hold one element type. They do not store
  `void*`.
- The C assertions become preconditions of the model:
  - da.c:55, 69, 103 and 109: the index bounds of insertDA, removeDA,
    getDA and setDA.
  - cda.c:58, 84-85, 119 and 127: the index bounds of insertCDA, removeCDA,
    getCDA and setCDA.
  - pop, peek and dequeue on an empty container.
  - maze.c:45: positive dimensions for createMAZE.
  - cell.c:56 and 74, maze.c:354 and 391: a wall code in 0..3. These are
    enforced by the `WallCode` subtype instead of a `requires` clause.

  In solveMAZE a dequeue on an empty queue is the run where the exit is
  unreachable; the model returns `None` there instead of aborting.
- DynamicArrays.DynamicArray.Union: requires two different arrays
  (`Repr !! donor.Repr`). When recipient and donor are the same array,
  unionDA never ends on a non-empty array, because its loop bound
  `sizeDA(donor)` grows by one with every append (da.c:94-95). The model
  does not capture that non-terminating call.
- CircularArrays.CircularArray.Union: requires two different arrays
  (`Repr !! donor.Repr`). When recipient and donor are the same array,
  unionCDA never ends on a non-empty array, because every removal from the
  front is followed by an insertion at the back (cda.c:113-114). The
  promise that the donor ends empty (cda.c:110) cannot hold then, and the
  model does not capture that call.
- Mazes.ReadMaze: requires a well-formed layout (positive dimensions and
  the exact token count). readMAZE does not check its input.
- The getters of cell.c (`getCELLval`, `getCELLrow`, `getCELLcol`,
  `isCELLvisited`) are plain field reads in the model.
- C `int` overflow is not modelled. Labels stay within -1..10 and indices
  within the maze.
- Where the code and its documented behaviour differ, the model follows
  the code:
  - A 1×1 maze is never searched, because the entrance is already the exit.
    The drain then relabels the still-queued entrance -1, not 0.
  - A cell can be queued twice before it is dequeued, because the visited
    flag is set only at dequeue time. A copy left in the queue when the
    exit is reached is relabelled -1 by the drain, even if that cell was
    visited. In a fully open 2×2 maze this is the exit itself.
  - In cda.c the start index may equal the capacity. incrementIndex wraps
    only past it, and Slot reduces it modulo the capacity.
  - createMAZE's dead-end branch does one peek, then either one carve or one
    pop, per loop pass. The model keeps that control flow.
