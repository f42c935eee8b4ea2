/**
 * The layers of the breadth-first search: a ghost depth for every cell the
 * search has seen, one more than that of the cell it was linked from. The
 * queue runs through at most two consecutive layers in order, and the open
 * neighbours of a visited cell lie at most one layer below it. From this
 * the path found to the goal has the fewest cells of any walk there.
 */
module BfsLayers {
  import opened Util
  import opened GridModel
  import opened PathSpec
  import opened BfsSpec

  /** `depth` with the cells of `u` set to depth `d`. */
  ghost function Deepen(depth: map<Pos, nat>, u: seq<Pos>, d: nat): (m: map<Pos, nat>)
    ensures Deepened(depth, m, u, d)
    decreases |u|
  {
    if u == [] then depth
    else
      var m := Deepen(depth, u[..|u| - 1], d)[Last(u) := d];
      assert forall p :: p in u <==> p in u[..|u| - 1] || p == Last(u) by {
        assert u == u[..|u| - 1] + [Last(u)];
      }
      m
  }

  /** `depth'` is `depth` with the cells of `u` set to depth `d`. */
  ghost predicate Deepened(depth: map<Pos, nat>, depth': map<Pos, nat>, u: seq<Pos>, d: nat)
  {
    && (forall p :: p in depth' <==> p in depth || p in u)
    && (forall p :: p in depth' ==> depth'[p] == if p in u then d else depth[p])
  }

  /**
   * The layering of the seen cells: each has a depth, the start depth zero,
   * and a linked cell one more than its parent; queued depths never drop
   * along the queue and stay within one of its head, which no visited
   * depth exceeds; an open cell next to a visited one is at most one deeper.
   */
  ghost predicate Layered(g: Grid, rows: nat, cols: nat, walls: seq<Pos>, start: Pos,
                          visited: seq<Pos>, queue: seq<Pos>, depth: map<Pos, nat>)
  {
    && Shaped(g, rows, cols)
    && (forall x :: x in visited + queue ==> x in depth)
    && start in depth && depth[start] == 0
    && (forall x {:trigger At(g, x)} :: x in visited + queue && InBounds(x, rows, cols) && At(g, x).parent.Some? ==>
          At(g, x).parent.value in depth && depth[At(g, x).parent.value] + 1 == depth[x])
    && (forall i, j :: 0 <= i <= j < |queue| ==> depth[queue[i]] <= depth[queue[j]] <= depth[queue[0]] + 1)
    && (forall y :: y in visited && queue != [] ==> depth[y] <= depth[queue[0]])
    && (forall y, n {:trigger Adjacent(y, n)} :: y in visited && Adjacent(y, n) && InBounds(n, rows, cols) && n !in walls ==>
          n in depth && depth[n] <= depth[y] + 1)
  }

  /** Before the first round only the start is seen, at depth zero. */
  lemma LayeredStart(g: Grid, rows: nat, cols: nat, walls: seq<Pos>, start: Pos)
    requires BfsState(g, rows, cols, walls, start, [], [start])
    ensures Layered(g, rows, cols, walls, start, [], [start], map[start := 0])
  {
  }

  /**
   * A round that does not reach the goal keeps the layering, the newly
   * queued neighbours one layer below the head.
   */
  lemma LayeredAdvance(g: Grid, g': Grid, rows: nat, cols: nat, walls: seq<Pos>, start: Pos,
                       visited: seq<Pos>, queue: seq<Pos>, ns: seq<Pos>, depth: map<Pos, nat>)
    returns (depth': map<Pos, nat>)
    requires BfsState(g, rows, cols, walls, start, visited, queue) && queue != []
    requires Layered(g, rows, cols, walls, start, visited, queue, depth)
    requires ns == Neighbors(g, rows, cols, queue[0]) && OnGrid(ns, rows, cols)
    requires g' == UpdatedTo(g, rows, cols, ns, |ns|, EnqueueFrom(queue[0]))
    ensures Layered(g', rows, cols, walls, start, visited + [queue[0]], queue[1..] + Unmarked(g, rows, cols, ns), depth')
  {
    var x := queue[0];
    assert x in visited + queue;
    NeighborsExact(g, rows, cols, x);
    UpdatedCells(g, rows, cols, ns, EnqueueFrom(x));
    assert start in visited + queue;
    var u := Unmarked(g, rows, cols, ns);
    depth' := Deepen(depth, u, depth[x] + 1);
    LayeredRound(g, g', rows, cols, walls, start, visited, queue, ns, u, depth, depth');
  }

  /**
   * One round of the search that does not reach the goal: the loop
   * invariant carries over to the state after it, the layers extend to the
   * newly queued cells at the returned depths, and the measure of the loop
   * goes down.
   */
  lemma BfsStep(steps: seq<PathfindingStep>, steps': seq<PathfindingStep>, g: Grid, g': Grid,
                rows: nat, cols: nat, walls: seq<Pos>, start: Pos, end: Pos,
                visited: seq<Pos>, queue: seq<Pos>, visited': seq<Pos>, queue': seq<Pos>, ns: seq<Pos>,
                depth: map<Pos, nat>)
    returns (depth': map<Pos, nat>)
    requires BfsLoop(steps, g, rows, cols, walls, start, end, visited, queue) && queue != [] && queue[0] != end
    requires Layered(g, rows, cols, walls, start, visited, queue, depth)
    requires ns == Neighbors(g, rows, cols, queue[0]) && OnGrid(ns, rows, cols)
    requires g' == UpdatedTo(g, rows, cols, ns, |ns|, EnqueueFrom(queue[0]))
    requires visited' == visited + [queue[0]] && queue' == queue[1..] + Unmarked(g, rows, cols, ns)
    requires steps' == steps + [Snapshot(g, visited', [queue[0]], [])]
    ensures BfsLoop(steps', g', rows, cols, walls, start, end, visited', queue')
    ensures Layered(g', rows, cols, walls, start, visited', queue', depth')
    ensures || Remaining(rows, cols, visited' + queue') < Remaining(rows, cols, visited + queue)
            || (Remaining(rows, cols, visited' + queue') == Remaining(rows, cols, visited + queue) && |queue'| < |queue|)
  {
    BfsAdvance(steps, g, g', rows, cols, walls, start, end, visited, queue, ns);
    depth' := LayeredAdvance(g, g', rows, cols, walls, start, visited, queue, ns, depth);
  }

  /** `LayeredAdvance` with the neighbours and the updated grid given by their properties. */
  lemma LayeredRound(g: Grid, g': Grid, rows: nat, cols: nat, walls: seq<Pos>, start: Pos,
                     visited: seq<Pos>, queue: seq<Pos>, ns: seq<Pos>, u: seq<Pos>,
                     depth: map<Pos, nat>, depth': map<Pos, nat>)
    requires Layout(g, rows, cols, walls) && OnGrid(visited, rows, cols) && queue != [] && start in visited + queue
    requires MarksExactly(g, rows, cols, visited + queue) && Forest(g, rows, cols, visited, start)
    requires ClosedInto(visited, visited + queue, rows, cols, walls)
    requires Layered(g, rows, cols, walls, start, visited, queue, depth)
    requires forall q :: q in ns <==> Open(g, rows, cols, q) && Adjacent(queue[0], q)
    requires OnGrid(ns, rows, cols) && Shaped(g', rows, cols)
    requires forall p :: InBounds(p, rows, cols) ==>
      At(g', p) == (if p in ns then Enqueued(At(g, p), queue[0]) else At(g, p))
    requires forall y :: y in u <==> y in ns && !At(g, y).isVisited
    requires queue[0] in depth && Deepened(depth, depth', u, depth[queue[0]] + 1)
    ensures Layered(g', rows, cols, walls, start, visited + [queue[0]], queue[1..] + u, depth')
  {
    var x := queue[0];
    assert forall y :: y in u ==> y !in visited + queue;
    LayeredLinks(g, g', rows, cols, walls, start, visited, queue, ns, u, depth, depth');
    LayeredQueue(visited, queue, u, depth, depth');
    LayeredClosed(g, rows, cols, walls, visited, queue, ns, u, depth, depth');
    LayeredJoin(g', rows, cols, walls, start, visited + [x], queue[1..] + u, depth');
  }

  /** The conditions of the layering, put together. */
  lemma LayeredJoin(g: Grid, rows: nat, cols: nat, walls: seq<Pos>, start: Pos,
                    visited: seq<Pos>, queue: seq<Pos>, depth: map<Pos, nat>)
    requires Shaped(g, rows, cols)
    requires forall x :: x in visited + queue ==> x in depth
    requires start in depth && depth[start] == 0
    requires forall x :: x in visited + queue && InBounds(x, rows, cols) && At(g, x).parent.Some? ==>
      At(g, x).parent.value in depth && depth[At(g, x).parent.value] + 1 == depth[x]
    requires forall i, j :: 0 <= i <= j < |queue| ==> depth[queue[i]] <= depth[queue[j]] <= depth[queue[0]] + 1
    requires forall y :: y in visited && queue != [] ==> depth[y] <= depth[queue[0]]
    requires forall y, n :: y in visited && Adjacent(y, n) && InBounds(n, rows, cols) && n !in walls ==>
      n in depth && depth[n] <= depth[y] + 1
    ensures Layered(g, rows, cols, walls, start, visited, queue, depth)
  {
  }

  /** The depths of seen cells and the links between them survive the round; new links go one layer down. */
  lemma LayeredLinks(g: Grid, g': Grid, rows: nat, cols: nat, walls: seq<Pos>, start: Pos,
                     visited: seq<Pos>, queue: seq<Pos>, ns: seq<Pos>, u: seq<Pos>,
                     depth: map<Pos, nat>, depth': map<Pos, nat>)
    requires Shaped(g, rows, cols) && OnGrid(visited, rows, cols) && queue != []
    requires MarksExactly(g, rows, cols, visited + queue) && Forest(g, rows, cols, visited, start)
    requires start in visited + queue
    requires Layered(g, rows, cols, walls, start, visited, queue, depth)
    requires OnGrid(ns, rows, cols) && Shaped(g', rows, cols)
    requires forall p :: InBounds(p, rows, cols) ==>
      At(g', p) == (if p in ns then Enqueued(At(g, p), queue[0]) else At(g, p))
    requires forall y :: y in u <==> y in ns && !At(g, y).isVisited
    requires queue[0] in depth && Deepened(depth, depth', u, depth[queue[0]] + 1)
    requires forall y :: y in u ==> y !in visited + queue
    ensures Shaped(g', rows, cols)
    ensures forall y :: y in (visited + [queue[0]]) + (queue[1..] + u) ==> y in depth'
    ensures start in depth' && depth'[start] == 0
    ensures forall y :: y in (visited + [queue[0]]) + (queue[1..] + u) && InBounds(y, rows, cols) && At(g', y).parent.Some? ==>
      At(g', y).parent.value in depth' && depth'[At(g', y).parent.value] + 1 == depth'[y]
  {
    var x := queue[0];
    ShiftHead(visited, queue, u);
    forall y | y in (visited + queue) + u && InBounds(y, rows, cols) && At(g', y).parent.Some?
      ensures At(g', y).parent.value in depth' && depth'[At(g', y).parent.value] + 1 == depth'[y]
    {
      if y in u {
        assert At(g', y).parent == Some(x);
        assert x in visited + queue;
      } else {
        assert At(g, y).isVisited;
        assert At(g', y) == At(g, y);
        var p := At(g, y).parent.value;
        assert LinkOk(visited, y, p);
      }
    }
  }

  /** The queue without its head, followed by the new layer, is still ordered and within one layer of its head. */
  lemma LayeredQueue(visited: seq<Pos>, queue: seq<Pos>, u: seq<Pos>, depth: map<Pos, nat>, depth': map<Pos, nat>)
    requires queue != [] && forall y :: y in visited + queue ==> y in depth
    requires forall i, j :: 0 <= i <= j < |queue| ==> depth[queue[i]] <= depth[queue[j]] <= depth[queue[0]] + 1
    requires forall y :: y in visited ==> depth[y] <= depth[queue[0]]
    requires Deepened(depth, depth', u, depth[queue[0]] + 1)
    requires forall y :: y in u ==> y !in visited + queue
    ensures forall i, j :: 0 <= i <= j < |queue[1..] + u| ==>
      depth'[(queue[1..] + u)[i]] <= depth'[(queue[1..] + u)[j]] <= depth'[(queue[1..] + u)[0]] + 1
    ensures forall y :: y in visited + [queue[0]] && queue[1..] + u != [] ==> depth'[y] <= depth'[(queue[1..] + u)[0]]
  {
    var d := depth[queue[0]];
    var v, q := visited + [queue[0]], queue[1..] + u;
    assert forall i :: 0 <= i < |queue| ==> queue[i] in visited + queue;
    assert q != [] ==> d <= depth'[q[0]] by {
      if q != [] && |queue| > 1 {
        assert q[0] == queue[1];
      }
    }
    forall i, j | 0 <= i <= j < |q|
      ensures depth'[q[i]] <= depth'[q[j]] <= depth'[q[0]] + 1
    {
      if j < |queue| - 1 {
        assert q[i] == queue[i + 1] && q[j] == queue[j + 1];
      } else if i < |queue| - 1 {
        assert q[i] == queue[i + 1] && q[j] in u;
      } else {
        assert q[i] in u && q[j] in u;
      }
    }
  }

  /** After the head is visited, its open neighbours lie at most one layer below it. */
  lemma LayeredClosed(g: Grid, rows: nat, cols: nat, walls: seq<Pos>,
                      visited: seq<Pos>, queue: seq<Pos>, ns: seq<Pos>, u: seq<Pos>,
                      depth: map<Pos, nat>, depth': map<Pos, nat>)
    requires Layout(g, rows, cols, walls) && queue != []
    requires ClosedInto(visited, visited + queue, rows, cols, walls)
    requires forall y :: y in visited + queue ==> y in depth
    requires forall i, j :: 0 <= i <= j < |queue| ==> depth[queue[i]] <= depth[queue[j]] <= depth[queue[0]] + 1
    requires forall y :: y in visited ==> depth[y] <= depth[queue[0]]
    requires forall y, n :: y in visited && Adjacent(y, n) && InBounds(n, rows, cols) && n !in walls ==>
      n in depth && depth[n] <= depth[y] + 1
    requires forall q :: q in ns <==> Open(g, rows, cols, q) && Adjacent(queue[0], q)
    requires forall y :: y in ns ==> y in visited + queue || y in u
    requires Deepened(depth, depth', u, depth[queue[0]] + 1)
    requires forall y :: y in u ==> y !in visited + queue
    ensures forall y, n :: y in visited + [queue[0]] && Adjacent(y, n) && InBounds(n, rows, cols) && n !in walls ==>
      n in depth' && depth'[n] <= depth'[y] + 1
  {
    var x := queue[0];
    forall y, n | y in visited + [x] && Adjacent(y, n) && InBounds(n, rows, cols) && n !in walls
      ensures n in depth' && depth'[n] <= depth'[y] + 1
    {
      if y in visited {
        assert n in visited + queue;
      } else {
        assert Open(g, rows, cols, n);
        if n in visited + queue {
          if n in queue {
            var k :| 0 <= k < |queue| && queue[k] == n;
            assert depth[queue[0]] <= depth[queue[k]] <= depth[queue[0]] + 1;
          }
        }
        assert x in visited + queue;
      }
    }
  }

  /** Down a parent chain from the start, the depths count the cells passed. */
  lemma {:induction false} ChainDepth(g: Grid, rows: nat, cols: nat, walls: seq<Pos>, start: Pos,
                                      visited: seq<Pos>, queue: seq<Pos>, depth: map<Pos, nat>, path: seq<Pos>, k: nat)
    requires Layered(g, rows, cols, walls, start, visited, queue, depth)
    requires OnGrid(path, rows, cols) && FollowsParents(g, rows, cols, path) && path[0] == start
    requires forall x :: x in path ==> x in visited + queue
    requires k < |path|
    ensures path[k] in depth && depth[path[k]] == k
  {
    if k > 0 {
      ChainDepth(g, rows, cols, walls, start, visited, queue, depth, path, k - 1);
      assert path[k] in path && At(g, path[k]).parent == Some(path[k - 1]);
    }
  }

  /**
   * Walking from the start, the first cells of a walk that come no later
   * than the head's layer are seen at no greater depth than their place in
   * the walk.
   */
  lemma {:induction false} WalkDepth(g: Grid, rows: nat, cols: nat, walls: seq<Pos>, start: Pos,
                                     visited: seq<Pos>, queue: seq<Pos>, depth: map<Pos, nat>, w: seq<Pos>, k: nat)
    requires ClosedInto(visited, visited + queue, rows, cols, walls) && start in visited + queue && queue != []
    requires Layered(g, rows, cols, walls, start, visited, queue, depth)
    requires |w| > 0 && Walk(w, rows, cols, walls, start, Last(w))
    requires k < |w| && queue[0] in depth && k <= depth[queue[0]]
    ensures w[k] in visited + queue && depth[w[k]] <= k
    ensures k == |w| - 1 ==> depth[Last(w)] <= k
  {
    if k > 0 {
      WalkDepth(g, rows, cols, walls, start, visited, queue, depth, w, k - 1);
      var y := w[k - 1];
      if y in queue {
        var i :| 0 <= i < |queue| && queue[i] == y;
        assert depth[queue[0]] <= depth[queue[i]];
      }
      assert y in visited;
      assert Adjacent(y, w[k]);
    }
  }

  /**
   * When the goal heads the queue, a parent chain from the start to it has
   * no more cells than any walk from the start to the goal.
   */
  lemma LayeredShortest(g: Grid, rows: nat, cols: nat, walls: seq<Pos>, start: Pos, end: Pos,
                        visited: seq<Pos>, queue: seq<Pos>, depth: map<Pos, nat>, path: seq<Pos>)
    requires ClosedInto(visited, visited + queue, rows, cols, walls) && start in visited + queue
    requires queue != [] && queue[0] == end
    requires Layered(g, rows, cols, walls, start, visited, queue, depth)
    requires OnGrid(path, rows, cols) && FollowsParents(g, rows, cols, path)
    requires path[0] == start && Last(path) == end && forall x :: x in path ==> x in visited + [end]
    ensures Shortest(path, rows, cols, walls, start, end)
  {
    assert forall x :: x in path ==> x in visited + queue;
    ChainDepth(g, rows, cols, walls, start, visited, queue, depth, path, |path| - 1);
    assert end in depth && depth[end] == |path| - 1;
    forall w | Walk(w, rows, cols, walls, start, end)
      ensures |path| <= |w|
    {
      if |w| < |path| {
        WalkDepth(g, rows, cols, walls, start, visited, queue, depth, w, |w| - 1);
      }
    }
  }
}
