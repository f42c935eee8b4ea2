/**
 * The order in which Dijkstra's algorithm visits cells. With unit weights
 * the visited cells leave the unvisited list at distances that never
 * decrease, every unvisited cell is at least as far as each visited one, a
 * parent link is one step shorter than its child, and the open neighbours
 * of a visited cell are at most one step further. From this the path found
 * to the goal has the fewest cells of any walk there.
 */
module DijkstraOrder {
  import opened Util
  import opened GridModel
  import opened PathSpec
  import opened DijkstraSpec

  /** One unit step further than `d`; the unreached sentinel stays unreached. */
  function Next(d: Dist): (e: Dist)
    ensures e.Fin? <==> d.Fin?
    ensures d.Fin? ==> e.n == d.n + 1
  {
    if d.Inf? then Inf else Fin(d.n + 1)
  }

  /** The cells of `visited` lie on the grid, are all reached, and their distances never decrease along the list. */
  ghost predicate Extracted(g: Grid, rows: nat, cols: nat, visited: seq<Pos>)
  {
    && Shaped(g, rows, cols) && OnGrid(visited, rows, cols)
    && forall i, j :: 0 <= i <= j < |visited| ==>
      (assert visited[i] in visited && visited[j] in visited;
       At(g, visited[i]).distance.Fin? && DistLe(At(g, visited[i]).distance, At(g, visited[j]).distance))
  }

  /** Every snapshot of the trace lists its visited cells in the order of their distances. */
  ghost predicate ExtractedTrace(r: seq<PathfindingStep>, rows: nat, cols: nat)
  {
    forall k :: 0 <= k < |r| ==> Extracted(r[k].grid, rows, cols, r[k].visited)
  }

  /**
   * The distances between rounds: the visited cells in order; every cell
   * not visited at least as far as each visited one; a linked cell one step
   * further than its visited parent; an open neighbour of a visited cell at
   * most one step further than it.
   */
  ghost predicate Ordered(g: Grid, rows: nat, cols: nat, walls: seq<Pos>, visited: seq<Pos>)
  {
    && Extracted(g, rows, cols, visited)
    && (forall y, p :: y in visited && InBounds(p, rows, cols) && p !in visited ==>
          DistLe(At(g, y).distance, At(g, p).distance))
    && (forall p :: InBounds(p, rows, cols) && At(g, p).parent.Some? ==>
          At(g, p).parent.value in visited && At(g, p).distance == Next(At(g, At(g, p).parent.value).distance))
    && (forall y, n :: y in visited && Adjacent(y, n) && InBounds(n, rows, cols) && n !in walls ==>
          DistLe(At(g, n).distance, Next(At(g, y).distance)))
  }

  /** Before the first round nothing is visited and no cell has a parent. */
  lemma OrderedStart(g: Grid, rows: nat, cols: nat, walls: seq<Pos>)
    requires Shaped(g, rows, cols)
    requires forall p :: InBounds(p, rows, cols) ==> At(g, p).parent == None
    ensures Ordered(g, rows, cols, walls, [])
    ensures ExtractedTrace([Snapshot(g, [], [], [])], rows, cols)
  {
  }

  /** Marking the path changes no distance. */
  lemma ExtractedMarked(g: Grid, rows: nat, cols: nat, visited: seq<Pos>, path: seq<Pos>)
    requires Extracted(g, rows, cols, visited)
    ensures Extracted(Marked(g, path), rows, cols, visited)
  {
    forall p | InBounds(p, rows, cols)
      ensures At(Marked(g, path), p).distance == At(g, p).distance
    {
      MarkedAt(g, path, p);
    }
  }

  /** A snapshot of cells listed in the order of their distances extends such a trace. */
  lemma ExtractedSnoc(steps: seq<PathfindingStep>, g: Grid, rows: nat, cols: nat,
                      visited: seq<Pos>, current: seq<Pos>, path: seq<Pos>)
    requires ExtractedTrace(steps, rows, cols) && Extracted(g, rows, cols, visited)
    ensures ExtractedTrace(steps + [Snapshot(g, visited, current, path)], rows, cols)
  {
    ExtractedMarked(g, rows, cols, visited, path);
  }

  /** The head of the unvisited cells, ordered by distance, is no further than any cell not visited. */
  lemma HeadLeast(g: Grid, rows: nat, cols: nat, visited: seq<Pos>, sorted: seq<Pos>)
    requires Shaped(g, rows, cols) && Split(visited, sorted, rows, cols) && ByDistance(g, rows, cols, sorted)
    requires sorted != []
    ensures InBounds(sorted[0], rows, cols)
    ensures forall p :: InBounds(p, rows, cols) && p !in visited ==> DistLe(At(g, sorted[0]).distance, At(g, p).distance)
  {
    assert sorted[0] in sorted;
    forall p | InBounds(p, rows, cols) && p !in visited
      ensures DistLe(At(g, sorted[0]).distance, At(g, p).distance)
    {
      var j :| 0 <= j < |sorted| && sorted[j] == p;
      if j > 0 {
        assert DistLe(DistAt(g, rows, cols, sorted[0]), DistAt(g, rows, cols, sorted[j]));
      }
    }
  }

  /** Visiting a reached cell that is no further than any unvisited one keeps the visited cells in order. */
  lemma ExtractedVisit(g: Grid, rows: nat, cols: nat, walls: seq<Pos>, visited: seq<Pos>, x: Pos)
    requires Ordered(g, rows, cols, walls, visited) && InBounds(x, rows, cols) && x !in visited
    requires At(g, x).distance.Fin?
    ensures Extracted(MarkVisited(g, rows, cols, x), rows, cols, visited + [x])
  {
    var g', v := MarkVisited(g, rows, cols, x), visited + [x];
    assert forall p :: InBounds(p, rows, cols) ==> At(g', p).distance == At(g, p).distance;
    forall i, j | 0 <= i <= j < |v|
      ensures At(g', v[i]).distance.Fin? && DistLe(At(g', v[i]).distance, At(g', v[j]).distance)
    {
      if j == |visited| && i < j {
        assert v[i] in visited;
      }
    }
  }

  /**
   * How the cells of the grid change in a round that visits `x` at distance
   * `d` and relaxes its neighbours: visited cells keep their distance and
   * parent; any other cell keeps both or is now one step beyond `x`, linked
   * to it; an open neighbour of `x` is at most one step beyond it; and no
   * distance grows.
   */
  ghost predicate Relaxation(g: Grid, g'': Grid, rows: nat, cols: nat, walls: seq<Pos>, v: seq<Pos>, x: Pos, d: nat)
  {
    && Shaped(g, rows, cols) && Shaped(g'', rows, cols)
    && (forall p :: InBounds(p, rows, cols) && p in v ==>
          At(g'', p).distance == At(g, p).distance && At(g'', p).parent == At(g, p).parent)
    && (forall p :: InBounds(p, rows, cols) && p !in v ==>
          || (At(g'', p).distance == At(g, p).distance && At(g'', p).parent == At(g, p).parent)
          || (At(g'', p).distance == Fin(d + 1) && At(g'', p).parent == Some(x)))
    && (forall p :: InBounds(p, rows, cols) && p !in v && Adjacent(x, p) && p !in walls ==>
          DistLe(At(g'', p).distance, Fin(d + 1)))
    && (forall p :: InBounds(p, rows, cols) ==> DistLe(At(g'', p).distance, At(g, p).distance))
  }

  /** Relaxing the unvisited neighbours of the newly visited `x` is such a change. */
  lemma RelaxationHolds(g: Grid, g': Grid, g'': Grid, rows: nat, cols: nat, walls: seq<Pos>,
                        visited: seq<Pos>, ns: seq<Pos>, x: Pos, d: nat)
    requires Shaped(g, rows, cols) && Shaped(g'', rows, cols) && InBounds(x, rows, cols)
    requires g' == MarkVisited(g, rows, cols, x)
    requires Layout(g', rows, cols, walls) && MarksExactly(g', rows, cols, visited + [x])
    requires forall q :: q in ns <==> Open(g', rows, cols, q) && Adjacent(x, q)
    requires forall p :: InBounds(p, rows, cols) ==>
      At(g'', p) == (if p in ns then Relaxed(At(g', p), d, x) else At(g', p))
    ensures Relaxation(g, g'', rows, cols, walls, visited + [x], x, d)
  {
    var v := visited + [x];
    assert forall p :: InBounds(p, rows, cols) ==> At(g', p).distance == At(g, p).distance && At(g', p).parent == At(g, p).parent;
    forall p | InBounds(p, rows, cols) && p !in v && Adjacent(x, p) && p !in walls
      ensures DistLe(At(g'', p).distance, Fin(d + 1))
    {
      assert p in ns;
    }
  }

  /** A round that visits the least unvisited `x` and relaxes its neighbours keeps the distances ordered. */
  lemma OrderedRelax(g: Grid, g'': Grid, rows: nat, cols: nat, walls: seq<Pos>, visited: seq<Pos>, x: Pos, d: nat)
    requires Ordered(g, rows, cols, walls, visited) && InBounds(x, rows, cols) && x !in visited
    requires At(g, x).distance == Fin(d)
    requires forall p :: InBounds(p, rows, cols) && p !in visited ==> DistLe(Fin(d), At(g, p).distance)
    requires Extracted(MarkVisited(g, rows, cols, x), rows, cols, visited + [x])
    requires Relaxation(g, g'', rows, cols, walls, visited + [x], x, d)
    ensures Ordered(g'', rows, cols, walls, visited + [x])
  {
    RelaxExtracted(g, g'', rows, cols, walls, visited, x, d);
    RelaxFrontier(g, g'', rows, cols, walls, visited, x, d);
    RelaxLinks(g, g'', rows, cols, walls, visited, x, d);
    RelaxNear(g, g'', rows, cols, walls, visited, x, d);
  }

  /** The visited cells, `x` last, are still in the order of their distances after the relaxation. */
  lemma RelaxExtracted(g: Grid, g'': Grid, rows: nat, cols: nat, walls: seq<Pos>, visited: seq<Pos>, x: Pos, d: nat)
    requires Relaxation(g, g'', rows, cols, walls, visited + [x], x, d)
    requires InBounds(x, rows, cols) && Extracted(MarkVisited(g, rows, cols, x), rows, cols, visited + [x])
    ensures Extracted(g'', rows, cols, visited + [x])
  {
    var v := visited + [x];
    forall i, j | 0 <= i <= j < |v|
      ensures At(g'', v[i]).distance.Fin? && DistLe(At(g'', v[i]).distance, At(g'', v[j]).distance)
    {
      assert v[i] in v && v[j] in v;
      assert At(MarkVisited(g, rows, cols, x), v[i]).distance == At(g, v[i]).distance;
      assert At(MarkVisited(g, rows, cols, x), v[j]).distance == At(g, v[j]).distance;
    }
  }

  /** After the relaxation no cell left unvisited is nearer than a visited one. */
  lemma RelaxFrontier(g: Grid, g'': Grid, rows: nat, cols: nat, walls: seq<Pos>, visited: seq<Pos>, x: Pos, d: nat)
    requires Ordered(g, rows, cols, walls, visited) && InBounds(x, rows, cols) && x !in visited
    requires At(g, x).distance == Fin(d)
    requires forall p :: InBounds(p, rows, cols) && p !in visited ==> DistLe(Fin(d), At(g, p).distance)
    requires Relaxation(g, g'', rows, cols, walls, visited + [x], x, d)
    ensures forall y, p :: y in visited + [x] && InBounds(p, rows, cols) && p !in visited + [x] ==>
      DistLe(At(g'', y).distance, At(g'', p).distance)
  {
    var v := visited + [x];
    assert forall y :: y in visited ==> DistLe(At(g, y).distance, Fin(d));
    forall y, p | y in v && InBounds(p, rows, cols) && p !in v
      ensures DistLe(At(g'', y).distance, At(g'', p).distance)
    {
      assert InBounds(y, rows, cols);
    }
  }

  /** After the relaxation every link still goes to a visited parent one step nearer. */
  lemma RelaxLinks(g: Grid, g'': Grid, rows: nat, cols: nat, walls: seq<Pos>, visited: seq<Pos>, x: Pos, d: nat)
    requires Ordered(g, rows, cols, walls, visited) && InBounds(x, rows, cols)
    requires At(g, x).distance == Fin(d)
    requires Relaxation(g, g'', rows, cols, walls, visited + [x], x, d)
    ensures forall p :: InBounds(p, rows, cols) && At(g'', p).parent.Some? ==>
      At(g'', p).parent.value in visited + [x] && At(g'', p).distance == Next(At(g'', At(g'', p).parent.value).distance)
  {
    var v := visited + [x];
    forall p | InBounds(p, rows, cols) && At(g'', p).parent.Some?
      ensures At(g'', p).parent.value in v && At(g'', p).distance == Next(At(g'', At(g'', p).parent.value).distance)
    {
      if At(g'', p).parent != At(g, p).parent || At(g'', p).distance != At(g, p).distance {
        assert p !in v && At(g'', p).parent == Some(x);
      } else {
        var q := At(g, p).parent.value;
        assert q in visited && InBounds(q, rows, cols);
      }
    }
  }

  /** After the relaxation the open neighbours of the visited cells, `x` included, are at most one step further. */
  lemma RelaxNear(g: Grid, g'': Grid, rows: nat, cols: nat, walls: seq<Pos>, visited: seq<Pos>, x: Pos, d: nat)
    requires Ordered(g, rows, cols, walls, visited) && InBounds(x, rows, cols) && x !in visited
    requires At(g, x).distance == Fin(d)
    requires Relaxation(g, g'', rows, cols, walls, visited + [x], x, d)
    ensures forall y, n :: y in visited + [x] && Adjacent(y, n) && InBounds(n, rows, cols) && n !in walls ==>
      DistLe(At(g'', n).distance, Next(At(g'', y).distance))
  {
    var v := visited + [x];
    forall y, n | y in v && Adjacent(y, n) && InBounds(n, rows, cols) && n !in walls
      ensures DistLe(At(g'', n).distance, Next(At(g'', y).distance))
    {
      assert InBounds(y, rows, cols);
      if y == x {
        if n in visited {
          assert DistLe(At(g, n).distance, Fin(d));
        }
      } else {
        assert y in visited;
        assert DistLe(At(g, n).distance, Next(At(g, y).distance));
      }
    }
  }

  /**
   * One round of Dijkstra's algorithm that does not reach the goal, with
   * the state after it named: the loop invariant, the order of the
   * distances and the order of every snapshot carry over.
   */
  lemma DijkstraStep(steps: seq<PathfindingStep>, steps': seq<PathfindingStep>, g: Grid, g'': Grid,
                     rows: nat, cols: nat, walls: seq<Pos>, start: Pos, end: Pos,
                     visited: seq<Pos>, sorted: seq<Pos>, visited': seq<Pos>, ns: seq<Pos>)
    requires DijkstraLoop(steps, g, rows, cols, walls, start, end, visited, sorted)
    requires Ordered(g, rows, cols, walls, visited) && ExtractedTrace(steps, rows, cols)
    requires Shaped(g, rows, cols) && OnGrid(sorted, rows, cols) && ByDistance(g, rows, cols, sorted)
    requires sorted != [] && At(g, sorted[0]).distance.Fin? && sorted[0] != end
    requires ns == Neighbors(MarkVisited(g, rows, cols, sorted[0]), rows, cols, sorted[0]) && OnGrid(ns, rows, cols)
    requires g'' == UpdatedTo(MarkVisited(g, rows, cols, sorted[0]), rows, cols, ns, |ns|,
                              RelaxFrom(At(g, sorted[0]).distance.n, sorted[0]))
    requires visited' == visited + [sorted[0]]
    requires steps' == steps + [Snapshot(MarkVisited(g, rows, cols, sorted[0]), visited', [sorted[0]], [])]
    ensures DijkstraLoop(steps', g'', rows, cols, walls, start, end, visited', sorted[1..])
    ensures Ordered(g'', rows, cols, walls, visited') && ExtractedTrace(steps', rows, cols)
  {
    DijkstraAdvance(steps, g, g'', rows, cols, walls, start, end, visited, sorted, ns);
    var x, g' := sorted[0], MarkVisited(g, rows, cols, sorted[0]);
    var d := At(g, x).distance.n;
    DijkstraVisit(steps, g, rows, cols, walls, start, end, visited, sorted);
    HeadLeast(g, rows, cols, visited, sorted);
    ExtractedVisit(g, rows, cols, walls, visited, x);
    ExtractedSnoc(steps, g', rows, cols, visited', [x], []);
    NeighborsExact(g', rows, cols, x);
    UpdatedCells(g', rows, cols, ns, RelaxFrom(d, x));
    assert forall p :: InBounds(p, rows, cols) ==>
      At(g'', p) == (if p in ns then Relaxed(At(g', p), d, x) else At(g', p));
    RelaxationHolds(g, g', g'', rows, cols, walls, visited, ns, x, d);
    OrderedRelax(g, g'', rows, cols, walls, visited, x, d);
  }

  // ------------------------------------------------------ shortest paths

  /** Down a parent chain from the start, the distances count the steps taken. */
  lemma {:induction false} ChainDist(g: Grid, rows: nat, cols: nat, walls: seq<Pos>, visited: seq<Pos>,
                                     path: seq<Pos>, k: nat)
    requires Ordered(g, rows, cols, walls, visited)
    requires OnGrid(path, rows, cols) && FollowsParents(g, rows, cols, path)
    requires InBounds(path[0], rows, cols) && At(g, path[0]).distance == Fin(0) && k < |path|
    ensures InBounds(path[k], rows, cols) && At(g, path[k]).distance == Fin(k)
  {
    assert path[k] in path;
    if k > 0 {
      ChainDist(g, rows, cols, walls, visited, path, k - 1);
      assert path[k] in path && path[k - 1] in path;
      assert At(g, path[k]).parent == Some(path[k - 1]);
    }
  }

  /**
   * While a walk from the start has taken fewer steps than the distance `d`
   * of the least unvisited cell, it stays among the visited cells, each
   * reached no later than the walk reaches it.
   */
  lemma {:induction false} WalkDist(g: Grid, rows: nat, cols: nat, walls: seq<Pos>, visited: seq<Pos>,
                                    d: nat, w: seq<Pos>, k: nat)
    requires Ordered(g, rows, cols, walls, visited)
    requires forall p :: InBounds(p, rows, cols) && p !in visited ==> DistLe(Fin(d), At(g, p).distance)
    requires |w| > 0 && Walk(w, rows, cols, walls, w[0], Last(w)) && At(g, w[0]).distance == Fin(0)
    requires k < |w| && k <= d
    ensures DistLe(At(g, w[k]).distance, Fin(k)) && (k < d ==> w[k] in visited)
  {
    if k > 0 {
      WalkDist(g, rows, cols, walls, visited, d, w, k - 1);
      assert Adjacent(w[k - 1], w[k]) && w[k] !in walls;
      assert DistLe(At(g, w[k]).distance, Next(At(g, w[k - 1]).distance));
    }
  }

  /**
   * When the least unvisited cell is the goal, a parent chain from the start
   * to it has no more cells than any walk from the start to the goal.
   */
  lemma DijkstraShortest(g: Grid, rows: nat, cols: nat, walls: seq<Pos>, start: Pos, end: Pos,
                         visited: seq<Pos>, path: seq<Pos>)
    requires Ordered(g, rows, cols, walls, visited) && InBounds(end, rows, cols) && end !in visited
    requires InBounds(start, rows, cols) && At(g, start).distance == Fin(0)
    requires forall p :: InBounds(p, rows, cols) && p !in visited ==> DistLe(At(g, end).distance, At(g, p).distance)
    requires OnGrid(path, rows, cols) && FollowsParents(MarkVisited(g, rows, cols, end), rows, cols, path)
    requires path[0] == start && Last(path) == end
    ensures Shortest(path, rows, cols, walls, start, end)
  {
    var g' := MarkVisited(g, rows, cols, end);
    assert forall p :: InBounds(p, rows, cols) ==> At(g', p).parent == At(g, p).parent;
    assert FollowsParents(g, rows, cols, path) by {
      assert forall x :: x in path ==> InBounds(x, rows, cols);
    }
    ChainDist(g, rows, cols, walls, visited, path, |path| - 1);
    var d := |path| - 1;
    assert At(g, end).distance == Fin(d);
    forall w | Walk(w, rows, cols, walls, start, end)
      ensures |path| <= |w|
    {
      if |w| < |path| {
        WalkDist(g, rows, cols, walls, visited, d, w, |w| - 1);
      }
    }
  }
}
