/**
 * The path-finding algorithms of the visualiser: breadth-first search,
 * depth-first search and Dijkstra's algorithm on a grid, each recording a
 * snapshot after every visit and a final one carrying the path.
 */
module Pathfinding {
  import opened Util
  import opened GridModel
  import opened PathSpec
  import opened BfsSpec
  import opened DfsSpec
  import opened DijkstraSpec
  import opened BfsLayers
  import opened DijkstraOrder

  class PathfindingAlgorithms {
    /** The trace being recorded; every search starts it afresh. */
    var steps: seq<PathfindingStep>
    const rows: nat
    const cols: nat

    /** A searcher for grids of `rows` x `cols` cells (the visualiser uses 20 x 30). */
    constructor (rows: nat, cols: nat)
      ensures this.rows == rows && this.cols == cols && steps == []
    {
      this.rows := rows;
      this.cols := cols;
      steps := [];
    }

    /** The snapshot grid: a copy of `grid` in which exactly the listed positions that lie on it are marked as path. */
    method MarkPath(grid: Grid, path: seq<Pos>) returns (updated: Grid)
      ensures updated == Marked(grid, path)
    {
      updated := Marked(grid, []);
      for k := 0 to |path|
        invariant |updated| == |grid| && forall r :: 0 <= r < |grid| ==> |updated[r]| == |grid[r]|
        invariant forall r, c :: 0 <= r < |grid| && 0 <= c < |grid[r]| ==>
          updated[r][c] == grid[r][c].(isPath := Pos(r, c) in path[..k])
      {
        var p := path[k];
        assert path[..k + 1] == path[..k] + [p];
        if 0 <= p.row < |updated| && 0 <= p.col < |updated[p.row]| {
          updated := updated[p.row := updated[p.row][p.col := updated[p.row][p.col].(isPath := true)]];
        }
      }
      assert path[..|path|] == path;
      MarkedExt(updated, grid, path);
    }

    /** Records a snapshot of `grid` with the given lists, the cells of `path` marked. */
    method AddStep(grid: Grid, visited: seq<Pos>, current: seq<Pos>, path: seq<Pos>)
      modifies this
      ensures steps == old(steps) + [Snapshot(grid, visited, current, path)]
    {
      var updated := MarkPath(grid, path);
      steps := steps + [PathfindingStep(updated, visited, current, path)];
    }

    /** A fresh grid: every cell unvisited, off the path, unreached, without parent, a wall exactly when listed. */
    method CreateGrid(walls: seq<Pos>) returns (grid: Grid)
      ensures Shaped(grid, rows, cols)
      ensures forall p :: InBounds(p, rows, cols) ==> At(grid, p) == NewCell(p.row, p.col, walls)
    {
      grid := [];
      for row := 0 to rows
        invariant |grid| == row
        invariant forall r :: 0 <= r < row ==> |grid[r]| == cols
        invariant forall r, c :: 0 <= r < row && 0 <= c < cols ==> grid[r][c] == NewCell(r, c, walls)
      {
        var cells := [];
        for col := 0 to cols
          invariant |cells| == col
          invariant forall c :: 0 <= c < col ==> cells[c] == NewCell(row, c, walls)
        {
          cells := cells + [NewCell(row, col, walls)];
        }
        grid := grid + [cells];
      }
    }

    /** The open cells next to `cell`, tried up, down, left, right. */
    method GetNeighbors(grid: Grid, cell: Pos) returns (neighbors: seq<Pos>)
      requires Shaped(grid, rows, cols)
      ensures neighbors == Neighbors(grid, rows, cols, cell)
      ensures forall q :: q in neighbors <==> Open(grid, rows, cols, q) && Adjacent(cell, q)
      ensures NoDup(neighbors) && OnGrid(neighbors, rows, cols)
    {
      neighbors := [];
      for k := 0 to 4
        invariant neighbors == NeighborsTo(grid, rows, cols, cell, k)
      {
        var next := Toward(cell, k);
        if 0 <= next.row < rows && 0 <= next.col < cols && !grid[next.row][next.col].isWall {
          neighbors := neighbors + [next];
        }
      }
      NeighborsExact(grid, rows, cols, cell);
    }

    /**
     * The path to `end`, found by following parent links back from it:
     * it starts at the root of the parent forest, the start, and is a walk
     * without repeats through visited cells.
     */
    method ReconstructPath(grid: Grid, end: Pos, ghost visited: seq<Pos>, ghost walls: seq<Pos>, ghost start: Pos)
      returns (path: seq<Pos>)
      requires Shaped(grid, rows, cols) && VisitList(visited, rows, cols, walls, start)
      requires Forest(grid, rows, cols, visited, start) && end in visited
      ensures OnGrid(path, rows, cols) && FollowsParents(grid, rows, cols, path)
      ensures Last(path) == end && forall x :: x in path ==> x in visited
      ensures Walk(path, rows, cols, walls, start, end) && NoDup(path)
    {
      path := [];
      var current := Some(end);
      while current.Some?
        invariant PartialChain(grid, rows, cols, visited, end, path, current)
        decreases if current.Some? then IndexOf(visited, current.value) + 1 else 0
      {
        var cell := current.value;
        ParentEarlier(grid, rows, cols, walls, visited, start, cell);
        ChainExtend(grid, rows, cols, visited, end, path, current);
        path := [cell] + path;
        current := At(grid, cell).parent;
      }
      ChainIsWalk(grid, rows, cols, walls, visited, start, path);
    }

    /**
     * Dijkstra's algorithm with unit weights from `start` towards `end`:
     * every round stable-sorts the unvisited cells by distance and takes
     * the first; an unreached one ends the search. A snapshot is recorded
     * before the first round, one per visited cell and, when `end` is
     * reached, one with the path. `end` is visited exactly when it is
     * reachable.
     */
    method Dijkstra(start: Pos, end: Pos, walls: seq<Pos>) returns (r: seq<PathfindingStep>)
      requires InBounds(start, rows, cols)
      modifies this
      ensures r == steps && SearchTrace(r, rows, cols, walls, start, end)
      ensures ShortestTrace(r, rows, cols, walls, start, end) && ExtractedTrace(r, rows, cols)
    {
      var grid, unvisited := InitDijkstra(start, end, walls);
      var visited: seq<Pos> := [];
      ghost var done := false;
      while |unvisited| > 0
        invariant DijkstraLoop(steps, grid, rows, cols, walls, start, end, visited, unvisited)
        invariant Ordered(grid, rows, cols, walls, visited) && ExtractedTrace(steps, rows, cols)
        invariant !done
        decreases |unvisited|
      {
        ghost var steps0, grid0, visited0 := steps, grid, visited;
        assert Shaped(grid, rows, cols) && OnGrid(unvisited, rows, cols);
        DijkstraSort(steps, grid, rows, cols, walls, start, end, visited, unvisited);
        unvisited := SortByDistance(grid, rows, cols, unvisited);
        ghost var sorted := unvisited;
        var current := unvisited[0];
        assert InBounds(current, rows, cols) by {
          assert current in sorted;
        }
        unvisited := unvisited[1..];
        if grid[current.row][current.col].distance.Inf? {
          DijkstraStuck(steps, grid, rows, cols, walls, start, end, visited, sorted);
          done := true;
          break;
        }
        var d := grid[current.row][current.col].distance.n;
        grid := MarkVisited(grid, rows, cols, current);
        visited := visited + [current];
        AddStep(grid, visited, [current], []);
        if current == end {
          DijkstraFinish(grid, visited, steps0, grid0, visited0, sorted, walls, start, end);
          done := true;
          break;
        }
        var neighbors := GetNeighbors(grid, current);
        var grid' := RelaxNeighbors(grid, current, d, neighbors);
        DijkstraStep(steps0, steps, grid0, grid', rows, cols, walls, start, end, visited0, sorted, visited, neighbors);
        grid := grid';
      }
      if !done {
        DijkstraExit(steps, grid, rows, cols, walls, start, end, visited);
      }
      r := steps;
    }

    /**
     * The round of Dijkstra's algorithm that reaches the goal: the path back
     * to the start is recorded in one more snapshot. The trace is then
     * complete, the path is a shortest walk to the goal, and every snapshot
     * lists its visited cells in the order of their distances.
     */
    method DijkstraFinish(grid: Grid, visited: seq<Pos>, ghost steps0: seq<PathfindingStep>, ghost grid0: Grid,
                          ghost visited0: seq<Pos>, ghost sorted: seq<Pos>, ghost walls: seq<Pos>, ghost start: Pos, end: Pos)
      requires DijkstraLoop(steps0, grid0, rows, cols, walls, start, end, visited0, sorted)
      requires Ordered(grid0, rows, cols, walls, visited0) && ExtractedTrace(steps0, rows, cols)
      requires Shaped(grid0, rows, cols) && OnGrid(sorted, rows, cols) && ByDistance(grid0, rows, cols, sorted)
      requires sorted != [] && sorted[0] == end && At(grid0, end).distance.Fin?
      requires grid == MarkVisited(grid0, rows, cols, end) && visited == visited0 + [end]
      requires steps == steps0 + [Snapshot(grid, visited, [end], [])]
      modifies this
      ensures SearchTrace(steps, rows, cols, walls, start, end) && ShortestTrace(steps, rows, cols, walls, start, end)
      ensures ExtractedTrace(steps, rows, cols)
    {
      DijkstraVisit(steps0, grid0, rows, cols, walls, start, end, visited0, sorted);
      HeadLeast(grid0, rows, cols, visited0, sorted);
      ExtractedVisit(grid0, rows, cols, walls, visited0, end);
      ExtractedSnoc(steps0, grid, rows, cols, visited, [end], []);
      var path := ReconstructPath(grid, end, visited, walls, start);
      ghost var steps1 := steps;
      AddStep(grid, visited, [], path);
      FoundTrace(steps1, visited, grid, path, rows, cols, walls, start, end);
      DijkstraShortest(grid0, rows, cols, walls, start, end, visited0, path);
      ShortestSnoc(steps1, grid, visited, path, rows, cols, walls, start, end);
      ExtractedSnoc(steps1, grid, rows, cols, visited, [], path);
    }

    /**
     * The set-up of Dijkstra's algorithm: a fresh trace and grid, the start
     * at distance zero, every position unvisited in row order, and the
     * first snapshot recorded.
     */
    method InitDijkstra(start: Pos, ghost end: Pos, walls: seq<Pos>) returns (grid: Grid, unvisited: seq<Pos>)
      requires InBounds(start, rows, cols)
      modifies this
      ensures unvisited == AllCells(rows, cols) && steps == [Snapshot(grid, [], [], [])]
      ensures DijkstraLoop(steps, grid, rows, cols, walls, start, end, [], unvisited)
      ensures Ordered(grid, rows, cols, walls, []) && ExtractedTrace(steps, rows, cols)
    {
      steps := [];
      grid := CreateGrid(walls);
      DijkstraStart(grid, rows, cols, walls, start, end);
      grid := Seeded(grid, rows, cols, start);
      OrderedStart(grid, rows, cols, walls);
      unvisited := AllPositions();
      AddStep(grid, [], [], []);
    }

    /** Every position of the grid, row by row. */
    method AllPositions() returns (cells: seq<Pos>)
      ensures cells == AllCells(rows, cols)
      ensures forall p :: p in cells <==> InBounds(p, rows, cols)
      ensures NoDup(cells)
    {
      cells := [];
      for row := 0 to rows
        invariant cells == AllCells(row, cols)
      {
        for col := 0 to cols
          invariant cells == AllCells(row, cols) + RowCells(row, col)
        {
          AppendAssoc(AllCells(row, cols), RowCells(row, col), [Pos(row, col)]);
          cells := cells + [Pos(row, col)];
        }
      }
      AllCellsExact(rows, cols);
    }

    /**
     * Relaxes each neighbour not yet visited from `current` at distance `d`:
     * when `d + 1` beats its distance, that becomes its distance and `current`
     * its parent.
     */
    method RelaxNeighbors(grid: Grid, current: Pos, d: nat, neighbors: seq<Pos>) returns (grid': Grid)
      requires Shaped(grid, rows, cols) && OnGrid(neighbors, rows, cols) && NoDup(neighbors)
      ensures grid' == UpdatedTo(grid, rows, cols, neighbors, |neighbors|, RelaxFrom(d, current))
    {
      grid' := grid;
      for k := 0 to |neighbors|
        invariant grid' == UpdatedTo(grid, rows, cols, neighbors, k, RelaxFrom(d, current))
      {
        var neighbor := neighbors[k];
        assert neighbor in neighbors && neighbor !in neighbors[..k];
        UpdatedAt(grid, rows, cols, neighbors, k, RelaxFrom(d, current), neighbor);
        var cell := grid'[neighbor.row][neighbor.col];
        if !cell.isVisited {
          var tentative := d + 1;
          if cell.distance.Inf? || tentative < cell.distance.n {
            grid' := SetCell(grid', rows, cols, neighbor, cell.(distance := Fin(tentative), parent := Some(current)));
          } else {
            SetCellSame(grid', rows, cols, neighbor);
          }
        } else {
          SetCellSame(grid', rows, cols, neighbor);
        }
      }
    }

    /**
     * Breadth-first search from `start` towards `end`: a snapshot before the
     * first round, one per visited cell, and, when `end` is reached, one
     * with the path. `end` is visited exactly when it is reachable.
     */
    method Bfs(start: Pos, end: Pos, walls: seq<Pos>) returns (r: seq<PathfindingStep>)
      requires InBounds(start, rows, cols)
      modifies this
      ensures r == steps && SearchTrace(r, rows, cols, walls, start, end)
      ensures ShortestTrace(r, rows, cols, walls, start, end)
    {
      var grid := InitBfs(start, end, walls);
      var visited: seq<Pos> := [];
      var queue := [start];
      ghost var depth := map[start := 0];
      ghost var found := false;
      while |queue| > 0
        invariant BfsLoop(steps, grid, rows, cols, walls, start, end, visited, queue)
        invariant Layered(grid, rows, cols, walls, start, visited, queue, depth)
        invariant !found
        decreases Remaining(rows, cols, visited + queue), |queue|
      {
        var current := queue[0];
        ghost var steps0, visited0, queue0 := steps, visited, queue;
        queue := queue[1..];
        visited := visited + [current];
        AddStep(grid, visited, [current], []);
        if current == end {
          BfsFinish(grid, visited, steps0, visited0, queue0, depth, walls, start, end);
          found := true;
          break;
        }
        var neighbors := GetNeighbors(grid, current);
        var grid', queue' := EnqueueNeighbors(grid, current, neighbors, queue);
        depth := BfsStep(steps0, steps, grid, grid', rows, cols, walls, start, end, visited0, queue0, visited, queue', neighbors, depth);
        grid, queue := grid', queue';
      }
      if !found {
        BfsExit(steps, grid, rows, cols, walls, start, end, visited);
      }
      r := steps;
    }

    /**
     * The set-up of the breadth-first search: a fresh trace and grid, the
     * start marked and alone in the queue at depth zero, and the first
     * snapshot recorded.
     */
    method InitBfs(start: Pos, ghost end: Pos, walls: seq<Pos>) returns (grid: Grid)
      requires InBounds(start, rows, cols)
      modifies this
      ensures steps == [Snapshot(grid, [], [], [])]
      ensures BfsLoop(steps, grid, rows, cols, walls, start, end, [], [start])
      ensures Layered(grid, rows, cols, walls, start, [], [start], map[start := 0])
    {
      steps := [];
      grid := CreateGrid(walls);
      BfsStart(grid, rows, cols, walls, start, end);
      grid := SetCell(grid, rows, cols, start, At(grid, start).(isVisited := true));
      LayeredStart(grid, rows, cols, walls, start);
      AddStep(grid, [], [], []);
    }

    /**
     * The round of the breadth-first search that reaches the goal: the path
     * back to the start is recorded in one more snapshot. The trace is then
     * complete, and the path is a shortest walk to the goal.
     */
    method BfsFinish(grid: Grid, visited: seq<Pos>, ghost steps0: seq<PathfindingStep>, ghost visited0: seq<Pos>,
                     ghost queue0: seq<Pos>, ghost depth: map<Pos, nat>, ghost walls: seq<Pos>, ghost start: Pos, end: Pos)
      requires BfsLoop(steps0, grid, rows, cols, walls, start, end, visited0, queue0) && queue0 != [] && queue0[0] == end
      requires Layered(grid, rows, cols, walls, start, visited0, queue0, depth)
      requires visited == visited0 + [end] && steps == steps0 + [Snapshot(grid, visited, [end], [])]
      modifies this
      ensures SearchTrace(steps, rows, cols, walls, start, end) && ShortestTrace(steps, rows, cols, walls, start, end)
    {
      BfsVisit(steps0, grid, rows, cols, walls, start, end, visited0, queue0);
      var path := ReconstructPath(grid, end, visited, walls, start);
      ghost var steps1 := steps;
      AddStep(grid, visited, [], path);
      FoundTrace(steps1, visited, grid, path, rows, cols, walls, start, end);
      LayeredShortest(grid, rows, cols, walls, start, end, visited0, queue0, depth, path);
      ShortestSnoc(steps1, grid, visited, path, rows, cols, walls, start, end);
    }

    /**
     * Depth-first search from `start` towards `end`: the stack is popped
     * until empty, a cell popped again after its visit is skipped, and
     * otherwise a snapshot is recorded per visit and, when `end` is reached,
     * one with the path. `end` is visited exactly when it is reachable.
     */
    method Dfs(start: Pos, end: Pos, walls: seq<Pos>) returns (r: seq<PathfindingStep>)
      requires InBounds(start, rows, cols)
      modifies this
      ensures r == steps && SearchTrace(r, rows, cols, walls, start, end)
    {
      var grid := InitDfs(start, end, walls);
      var visited: seq<Pos> := [];
      var stack := [start];
      ghost var found := false;
      while |stack| > 0
        invariant DfsLoop(steps, grid, rows, cols, walls, start, end, visited, stack)
        invariant !found
        decreases Remaining(rows, cols, visited), |stack|
      {
        var current := stack[|stack| - 1];
        ghost var steps0, grid0, visited0, stack0 := steps, grid, visited, stack;
        assert InBounds(current, rows, cols) by {
          assert current in stack;
        }
        stack := stack[..|stack| - 1];
        if grid[current.row][current.col].isVisited {
          DfsSkip(steps, grid, rows, cols, walls, start, end, visited, stack0);
          continue;
        }
        grid := MarkVisited(grid, rows, cols, current);
        visited := visited + [current];
        AddStep(grid, visited, [current], []);
        if current == end {
          DfsVisit(steps0, grid0, rows, cols, walls, start, end, visited0, stack0);
          var path := ReconstructPath(grid, current, visited, walls, start);
          ghost var steps1 := steps;
          AddStep(grid, visited, [], path);
          FoundTrace(steps1, visited, grid, path, rows, cols, walls, start, end);
          found := true;
          break;
        }
        var neighbors := GetNeighbors(grid, current);
        var grid', stack' := PushNeighbors(grid, current, neighbors, stack);
        DfsAdvance(steps0, grid0, grid', rows, cols, walls, start, end, visited0, stack0, neighbors);
        grid, stack := grid', stack';
      }
      if !found {
        DfsExit(steps, grid, rows, cols, walls, start, end, visited);
      }
      r := steps;
    }

    /**
     * The set-up of the depth-first search: a fresh trace and grid, the
     * start alone on the stack and still unvisited, and the first snapshot
     * recorded.
     */
    method InitDfs(start: Pos, ghost end: Pos, walls: seq<Pos>) returns (grid: Grid)
      requires InBounds(start, rows, cols)
      modifies this
      ensures steps == [Snapshot(grid, [], [], [])]
      ensures DfsLoop(steps, grid, rows, cols, walls, start, end, [], [start])
    {
      steps := [];
      grid := CreateGrid(walls);
      DfsStart(grid, rows, cols, walls, start, end);
      AddStep(grid, [], [], []);
    }

    /** Links each unvisited neighbour to `current` and pushes it, in order; a cell may be pushed again later. */
    method PushNeighbors(grid: Grid, current: Pos, neighbors: seq<Pos>, stack: seq<Pos>)
      returns (grid': Grid, stack': seq<Pos>)
      requires Shaped(grid, rows, cols) && OnGrid(neighbors, rows, cols) && NoDup(neighbors)
      ensures grid' == UpdatedTo(grid, rows, cols, neighbors, |neighbors|, PushFrom(current))
      ensures stack' == stack + Unmarked(grid, rows, cols, neighbors)
    {
      grid', stack' := grid, stack;
      for k := 0 to |neighbors|
        invariant grid' == UpdatedTo(grid, rows, cols, neighbors, k, PushFrom(current))
        invariant stack' == stack + UnmarkedTo(grid, rows, cols, neighbors, k)
      {
        var neighbor := neighbors[k];
        assert neighbor in neighbors && neighbor !in neighbors[..k];
        UpdatedAt(grid, rows, cols, neighbors, k, PushFrom(current), neighbor);
        if !grid'[neighbor.row][neighbor.col].isVisited {
          grid' := SetCell(grid', rows, cols, neighbor, At(grid', neighbor).(parent := Some(current)));
          AppendAssoc(stack, UnmarkedTo(grid, rows, cols, neighbors, k), [neighbor]);
          stack' := stack' + [neighbor];
        } else {
          SetCellSame(grid', rows, cols, neighbor);
          assert UnmarkedTo(grid, rows, cols, neighbors, k) + [] == UnmarkedTo(grid, rows, cols, neighbors, k);
        }
      }
    }

    /** Marks each unmarked neighbour visited, links it to `current`, and queues it, in order. */
    method EnqueueNeighbors(grid: Grid, current: Pos, neighbors: seq<Pos>, queue: seq<Pos>)
      returns (grid': Grid, queue': seq<Pos>)
      requires Shaped(grid, rows, cols) && OnGrid(neighbors, rows, cols) && NoDup(neighbors)
      ensures grid' == UpdatedTo(grid, rows, cols, neighbors, |neighbors|, EnqueueFrom(current))
      ensures queue' == queue + Unmarked(grid, rows, cols, neighbors)
    {
      grid', queue' := grid, queue;
      for k := 0 to |neighbors|
        invariant grid' == UpdatedTo(grid, rows, cols, neighbors, k, EnqueueFrom(current))
        invariant queue' == queue + UnmarkedTo(grid, rows, cols, neighbors, k)
      {
        var neighbor := neighbors[k];
        assert neighbor in neighbors && neighbor !in neighbors[..k];
        UpdatedAt(grid, rows, cols, neighbors, k, EnqueueFrom(current), neighbor);
        if !grid'[neighbor.row][neighbor.col].isVisited {
          grid' := SetCell(grid', rows, cols, neighbor, At(grid', neighbor).(isVisited := true, parent := Some(current)));
          AppendAssoc(queue, UnmarkedTo(grid, rows, cols, neighbors, k), [neighbor]);
          queue' := queue' + [neighbor];
        } else {
          SetCellSame(grid', rows, cols, neighbor);
          assert UnmarkedTo(grid, rows, cols, neighbors, k) + [] == UnmarkedTo(grid, rows, cols, neighbors, k);
        }
      }
    }

    /** The search named by `algorithm`; an unknown name selects breadth-first search. */
    method GetSteps(algorithm: string, start: Pos, end: Pos, walls: seq<Pos>) returns (r: seq<PathfindingStep>)
      requires InBounds(start, rows, cols)
      modifies this
      ensures r == steps && SearchTrace(r, rows, cols, walls, start, end)
      ensures algorithm != "dfs" ==> ShortestTrace(r, rows, cols, walls, start, end)
      ensures algorithm == "dijkstra" ==> ExtractedTrace(r, rows, cols)
    {
      match algorithm {
        case "dijkstra" => r := Dijkstra(start, end, walls);
        case "bfs" => r := Bfs(start, end, walls);
        case "dfs" => r := Dfs(start, end, walls);
        case _ => r := Bfs(start, end, walls);
      }
    }
  }

  /** A grid with the shape of `g` whose every cell is that of `g` with the path flag set exactly for `path` is `Marked(g, path)`. */
  lemma MarkedExt(u: Grid, g: Grid, path: seq<Pos>)
    requires |u| == |g| && forall r :: 0 <= r < |g| ==> |u[r]| == |g[r]|
    requires forall r, c :: 0 <= r < |g| && 0 <= c < |g[r]| ==> u[r][c] == g[r][c].(isPath := Pos(r, c) in path)
    ensures u == Marked(g, path)
  {
    var m := Marked(g, path);
    forall r | 0 <= r < |g|
      ensures u[r] == m[r]
    {
      assert forall c :: 0 <= c < |g[r]| ==> u[r][c] == m[r][c];
    }
  }
}
