/**
 * The grid of the path-finding tracer: positions, cells, the neighbour
 * order, the path marking of a snapshot, and the stable ordering of
 * Dijkstra's unvisited cells by distance.
 *
 * A cell's `parent` is the position of the cell it was reached from (the
 * source holds a reference to that cell object).
 */
module GridModel {
  import opened Util

  /** A `{ row, col }` position; it may lie outside the grid. */
  datatype Pos = Pos(row: int, col: int)

  /** A distance: a number of unit steps, or the unreached sentinel `Infinity`. */
  datatype Dist = Inf | Fin(n: nat)

  /** One grid cell. */
  datatype Cell = Cell(row: int, col: int, isWall: bool, isVisited: bool, isPath: bool, distance: Dist, parent: Option<Pos>)

  /** A grid: `rows` rows of `cols` cells each, indexed `grid[row][col]`. */
  type Grid = seq<seq<Cell>>

  predicate InBounds(p: Pos, rows: int, cols: int)
  {
    0 <= p.row < rows && 0 <= p.col < cols
  }

  /** `g` has `rows` rows of `cols` cells. */
  predicate Shaped(g: Grid, rows: nat, cols: nat)
  {
    |g| == rows && forall r :: 0 <= r < rows ==> |g[r]| == cols
  }

  /** The cell at a position of the grid. */
  function At(g: Grid, p: Pos): Cell
    requires 0 <= p.row < |g| && 0 <= p.col < |g[p.row]|
  {
    g[p.row][p.col]
  }

  /** The grid with the cell at `p` replaced by `c`. */
  function SetCell(g: Grid, rows: nat, cols: nat, p: Pos, c: Cell): (g': Grid)
    requires Shaped(g, rows, cols) && InBounds(p, rows, cols)
    ensures Shaped(g', rows, cols) && At(g', p) == c
    ensures forall q :: InBounds(q, rows, cols) && q != p ==> At(g', q) == At(g, q)
  {
    g[p.row := g[p.row][p.col := c]]
  }

  /** The universe of positions of a rows x cols grid. */
  ghost function Universe(rows: nat, cols: nat): set<Pos>
  {
    set r, c | 0 <= r < rows && 0 <= c < cols :: Pos(r, c)
  }

  /** How many positions of the grid are not yet in `s`: a termination measure. */
  ghost function Remaining(rows: nat, cols: nat, s: seq<Pos>): nat
  {
    |Universe(rows, cols) - (set x | x in s)|
  }

  /** Adding to `s` a position of the grid it lacks lowers what remains. */
  lemma RemainingShrinks(rows: nat, cols: nat, s: seq<Pos>, t: seq<Pos>, x: Pos)
    requires forall y :: y in s ==> y in t
    requires x in t && x !in s && InBounds(x, rows, cols)
    ensures Remaining(rows, cols, t) < Remaining(rows, cols, s)
  {
    var a := Universe(rows, cols) - (set y | y in t);
    var b := Universe(rows, cols) - (set y | y in s);
    assert x in Universe(rows, cols);
    assert a <= b && x in b - a;
    assert b == a + (b - a);
  }

  // ------------------------------------------------------------- the grid

  /** A fresh cell: a wall exactly when listed in `walls`, not visited, not on a path, unreached. */
  function NewCell(r: int, c: int, walls: seq<Pos>): Cell
  {
    Cell(r, c, Pos(r, c) in walls, false, false, Inf, None)
  }

  // ------------------------------------------------------------ neighbours

  /** The moves tried from a cell, in order: up, down, left, right. */
  const Directions: seq<(int, int)> := [(-1, 0), (1, 0), (0, -1), (0, 1)]

  /** The position one move in direction `k` away from `p`. */
  function Toward(p: Pos, k: int): Pos
    requires 0 <= k < 4
  {
    Pos(p.row + Directions[k].0, p.col + Directions[k].1)
  }

  /** `p` and `q` are one orthogonal step apart. */
  predicate Adjacent(p: Pos, q: Pos)
  {
    (p.row == q.row && (p.col - q.col == 1 || q.col - p.col == 1))
    || (p.col == q.col && (p.row - q.row == 1 || q.row - p.row == 1))
  }

  /** A cell that a search may enter: inside the grid and not a wall. */
  predicate Open(g: Grid, rows: nat, cols: nat, q: Pos)
    requires Shaped(g, rows, cols)
  {
    InBounds(q, rows, cols) && !At(g, q).isWall
  }

  /** The open cells among the first `k` moves from `p` (up, down, left, right), in that order. */
  function NeighborsTo(g: Grid, rows: nat, cols: nat, p: Pos, k: nat): seq<Pos>
    requires Shaped(g, rows, cols) && k <= 4
  {
    if k == 0 then []
    else NeighborsTo(g, rows, cols, p, k - 1) + (if Open(g, rows, cols, Toward(p, k - 1)) then [Toward(p, k - 1)] else [])
  }

  /** The neighbours of `p` a search expands, in the order up, down, left, right. */
  function Neighbors(g: Grid, rows: nat, cols: nat, p: Pos): seq<Pos>
    requires Shaped(g, rows, cols)
  {
    NeighborsTo(g, rows, cols, p, 4)
  }

  /** Which move leads from `p` to an adjacent `q`: 0 up, 1 down, 2 left, 3 right. */
  function DirectionOf(p: Pos, q: Pos): int
  {
    if q.row < p.row then 0 else if q.row > p.row then 1 else if q.col < p.col then 2 else 3
  }

  /** The first k moves reach, in increasing move order, exactly the open cells they lead to, at most k of them. */
  lemma {:induction false} NeighborsToExact(g: Grid, rows: nat, cols: nat, p: Pos, k: nat)
    requires Shaped(g, rows, cols) && k <= 4
    ensures forall q :: q in NeighborsTo(g, rows, cols, p, k) <==>
      Open(g, rows, cols, q) && Adjacent(p, q) && DirectionOf(p, q) < k
    ensures forall i, j :: 0 <= i < j < |NeighborsTo(g, rows, cols, p, k)| ==>
      DirectionOf(p, NeighborsTo(g, rows, cols, p, k)[i]) < DirectionOf(p, NeighborsTo(g, rows, cols, p, k)[j])
    ensures |NeighborsTo(g, rows, cols, p, k)| <= k
  {
    if k > 0 {
      NeighborsToExact(g, rows, cols, p, k - 1);
      var q := Toward(p, k - 1);
      assert Adjacent(p, q) && DirectionOf(p, q) == k - 1;
      forall x | Adjacent(p, x) && DirectionOf(p, x) == k - 1
        ensures x == q
      {
      }
      var a := NeighborsTo(g, rows, cols, p, k - 1);
      var b := if Open(g, rows, cols, q) then [q] else [];
      forall i, j | 0 <= i < j < |a + b|
        ensures DirectionOf(p, (a + b)[i]) < DirectionOf(p, (a + b)[j])
      {
        if j >= |a| {
          assert (a + b)[j] == q && (a + b)[i] == a[i] && a[i] in a;
        } else {
          assert (a + b)[i] == a[i] && (a + b)[j] == a[j];
        }
      }
    }
  }

  /**
   * The neighbours of `p` are exactly the open cells one step away, at most
   * four, each once, listed in the order up, down, left, right.
   */
  lemma NeighborsExact(g: Grid, rows: nat, cols: nat, p: Pos)
    requires Shaped(g, rows, cols)
    ensures forall q :: q in Neighbors(g, rows, cols, p) <==> Open(g, rows, cols, q) && Adjacent(p, q)
    ensures forall i, j :: 0 <= i < j < |Neighbors(g, rows, cols, p)| ==>
      DirectionOf(p, Neighbors(g, rows, cols, p)[i]) < DirectionOf(p, Neighbors(g, rows, cols, p)[j])
    ensures NoDup(Neighbors(g, rows, cols, p)) && |Neighbors(g, rows, cols, p)| <= 4
    ensures OnGrid(Neighbors(g, rows, cols, p), rows, cols)
  {
    NeighborsToExact(g, rows, cols, p, 4);
  }

  // ------------------------------------------------------------ path marks

  /**
   * The grid of a snapshot: a copy of `g` in which a cell is on the path
   * exactly when its position is listed in `path`.
   */
  function Marked(g: Grid, path: seq<Pos>): (m: Grid)
    ensures |m| == |g| && forall r :: 0 <= r < |g| ==> |m[r]| == |g[r]|
  {
    seq(|g|, r requires 0 <= r < |g| => seq(|g[r]|, c requires 0 <= c < |g[r]| => g[r][c].(isPath := Pos(r, c) in path)))
  }

  /** A marked cell is the cell of `g` with only its path flag changed, set exactly for path positions. */
  lemma MarkedAt(g: Grid, path: seq<Pos>, p: Pos)
    requires 0 <= p.row < |g| && 0 <= p.col < |g[p.row]|
    ensures At(Marked(g, path), p) == At(g, p).(isPath := p in path)
  {
  }

  // ------------------------------------------------------- all the cells

  /** The positions of row r, columns 0 .. cols - 1, left to right. */
  function RowCells(r: int, cols: nat): seq<Pos>
  {
    if cols == 0 then [] else RowCells(r, cols - 1) + [Pos(r, cols - 1)]
  }

  /** The positions of a rows x cols grid in row-major order. */
  function AllCells(rows: nat, cols: nat): seq<Pos>
  {
    if rows == 0 then [] else AllCells(rows - 1, cols) + RowCells(rows - 1, cols)
  }

  /** A row lists each of its positions once. */
  lemma {:induction false} RowCellsExact(r: int, cols: nat)
    ensures forall x :: x in RowCells(r, cols) <==> x.row == r && 0 <= x.col < cols
    ensures NoDup(RowCells(r, cols))
  {
    if cols > 0 {
      RowCellsExact(r, cols - 1);
      NoDupSnoc(RowCells(r, cols - 1), Pos(r, cols - 1));
    }
  }

  /** The row-major list holds every position of the grid exactly once. */
  lemma {:induction false} AllCellsExact(rows: nat, cols: nat)
    ensures forall x :: x in AllCells(rows, cols) <==> InBounds(x, rows, cols)
    ensures NoDup(AllCells(rows, cols))
  {
    if rows > 0 {
      AllCellsExact(rows - 1, cols);
      RowCellsExact(rows - 1, cols);
      var a, b := AllCells(rows - 1, cols), RowCells(rows - 1, cols);
      forall i, j | 0 <= i < j < |a + b|
        ensures (a + b)[i] != (a + b)[j]
      {
        if j < |a| {
          assert (a + b)[i] == a[i] && (a + b)[j] == a[j];
        } else if i >= |a| {
          assert (a + b)[i] == b[i - |a|] && (a + b)[j] == b[j - |a|];
        } else {
          assert (a + b)[i] == a[i] && (a + b)[j] == b[j - |a|];
          assert a[i] in a && b[j - |a|] in b;
        }
      }
    }
  }

  // ---------------------------------------------- ordering by distances

  /**
   * The order of `a.distance - b.distance`: numbers by value, `Infinity`
   * after every number, and two `Infinity`s (whose difference is NaN) tied.
   */
  predicate DistLe(d: Dist, e: Dist)
  {
    e.Inf? || (d.Fin? && d.n <= e.n)
  }

  /** All positions of `s` lie on the grid. */
  predicate OnGrid(s: seq<Pos>, rows: nat, cols: nat)
  {
    forall x :: x in s ==> InBounds(x, rows, cols)
  }

  /** The distance recorded at position `p`. */
  function DistAt(g: Grid, rows: nat, cols: nat, p: Pos): Dist
    requires Shaped(g, rows, cols) && InBounds(p, rows, cols)
  {
    At(g, p).distance
  }

  /** `x` goes into the ordered `s` before the first element whose distance is not below its own. */
  function InsertByDistance(g: Grid, rows: nat, cols: nat, x: Pos, s: seq<Pos>): (r: seq<Pos>)
    requires Shaped(g, rows, cols) && InBounds(x, rows, cols) && OnGrid(s, rows, cols)
    ensures multiset(r) == multiset(s) + multiset{x} && |r| == |s| + 1 && OnGrid(r, rows, cols)
  {
    if s == [] || DistLe(DistAt(g, rows, cols, x), DistAt(g, rows, cols, s[0])) then [x] + s
    else
      assert s == [s[0]] + s[1..];
      [s[0]] + InsertByDistance(g, rows, cols, x, s[1..])
  }

  /**
   * `unvisited.sort((a, b) => a.distance - b.distance)`: a stable sort
   * (the order ECMAScript requires of `Array.prototype.sort`) by the
   * distances the grid records.
   */
  function SortByDistance(g: Grid, rows: nat, cols: nat, s: seq<Pos>): (r: seq<Pos>)
    requires Shaped(g, rows, cols) && OnGrid(s, rows, cols)
    ensures multiset(r) == multiset(s) && |r| == |s| && OnGrid(r, rows, cols)
  {
    if s == [] then []
    else
      assert s == [s[0]] + s[1..];
      InsertByDistance(g, rows, cols, s[0], SortByDistance(g, rows, cols, s[1..]))
  }

  /** `s` is in non-decreasing order of distance. */
  predicate ByDistance(g: Grid, rows: nat, cols: nat, s: seq<Pos>)
    requires Shaped(g, rows, cols) && OnGrid(s, rows, cols)
  {
    forall i, j :: 0 <= i < j < |s| ==> DistLe(DistAt(g, rows, cols, s[i]), DistAt(g, rows, cols, s[j]))
  }

  /** The elements of `s` whose distance is `d`, in their order in `s`. */
  function WithDist(g: Grid, rows: nat, cols: nat, s: seq<Pos>, d: Dist): seq<Pos>
    requires Shaped(g, rows, cols) && OnGrid(s, rows, cols)
  {
    if s == [] then []
    else (if DistAt(g, rows, cols, s[0]) == d then [s[0]] else []) + WithDist(g, rows, cols, s[1..], d)
  }

  /** A stable reordering of `s`: it keeps, for every distance, the order of the elements at that distance. */
  ghost predicate Stable(g: Grid, rows: nat, cols: nat, s: seq<Pos>, r: seq<Pos>)
    requires Shaped(g, rows, cols) && OnGrid(s, rows, cols) && OnGrid(r, rows, cols)
  {
    forall d :: WithDist(g, rows, cols, r, d) == WithDist(g, rows, cols, s, d)
  }

  /** Inserting into an ordered sequence keeps it ordered. */
  lemma {:induction false} InsertOrdered(g: Grid, rows: nat, cols: nat, x: Pos, s: seq<Pos>)
    requires Shaped(g, rows, cols) && InBounds(x, rows, cols) && OnGrid(s, rows, cols)
    requires ByDistance(g, rows, cols, s)
    ensures ByDistance(g, rows, cols, InsertByDistance(g, rows, cols, x, s))
  {
    var r := InsertByDistance(g, rows, cols, x, s);
    if s != [] && !DistLe(DistAt(g, rows, cols, x), DistAt(g, rows, cols, s[0])) {
      var t := InsertByDistance(g, rows, cols, x, s[1..]);
      InsertOrdered(g, rows, cols, x, s[1..]);
      assert r == [s[0]] + t;
      forall j | 0 <= j < |t|
        ensures DistLe(DistAt(g, rows, cols, s[0]), DistAt(g, rows, cols, t[j]))
      {
        assert t[j] in multiset(s[1..]) + multiset{x};
        if t[j] != x {
          assert t[j] in s[1..];
          var m :| 0 <= m < |s[1..]| && s[1..][m] == t[j];
          assert s[m + 1] == t[j];
        }
      }
    }
  }

  /** Inserting `x` places it first among the elements at its distance. */
  lemma {:induction false} InsertStable(g: Grid, rows: nat, cols: nat, x: Pos, s: seq<Pos>, d: Dist)
    requires Shaped(g, rows, cols) && InBounds(x, rows, cols) && OnGrid(s, rows, cols)
    requires ByDistance(g, rows, cols, s)
    ensures WithDist(g, rows, cols, InsertByDistance(g, rows, cols, x, s), d)
      == WithDist(g, rows, cols, [x] + s, d)
  {
    var dx := DistAt(g, rows, cols, x);
    if s != [] && !DistLe(dx, DistAt(g, rows, cols, s[0])) {
      InsertStable(g, rows, cols, x, s[1..], d);
      assert ([x] + s)[1..] == s;
      assert ([x] + s[1..])[1..] == s[1..];
      assert ([x] + s)[0] == x && ([x] + s[1..])[0] == x;
      if DistAt(g, rows, cols, s[0]) == d {
        assert dx != d;
        assert WithDist(g, rows, cols, s[1..], d) == WithDist(g, rows, cols, s[1..], d);
      }
    }
  }

  /**
   * The distance sort puts `s` in non-decreasing order of distance and keeps
   * the order among equal distances, so its head is the first position of
   * `s` with the least distance.
   */
  lemma {:induction false} SortByDistanceCorrect(g: Grid, rows: nat, cols: nat, s: seq<Pos>)
    requires Shaped(g, rows, cols) && OnGrid(s, rows, cols)
    ensures ByDistance(g, rows, cols, SortByDistance(g, rows, cols, s))
    ensures Stable(g, rows, cols, s, SortByDistance(g, rows, cols, s))
  {
    if s != [] {
      var t := SortByDistance(g, rows, cols, s[1..]);
      SortByDistanceCorrect(g, rows, cols, s[1..]);
      InsertOrdered(g, rows, cols, s[0], t);
      forall d
        ensures WithDist(g, rows, cols, SortByDistance(g, rows, cols, s), d) == WithDist(g, rows, cols, s, d)
      {
        InsertStable(g, rows, cols, s[0], t, d);
        assert ([s[0]] + t)[1..] == t && ([s[0]] + t)[0] == s[0];
        assert s[1..] == s[1..];
      }
    }
  }
}
