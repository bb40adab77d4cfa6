/**
  The grid model of app.js: a rectangular array of cells, each with four
  wall flags and a generation-time visited flag, plus the wall queries that
  the generator, the solvers and manual player movement share.
  Coordinates follow the source: `i` is the column, `j` the row, and the
  grid is stored row-major as `grid[j][i]`.
*/
module Grid {

  datatype Option<T> = None | Some(value: T)

  /** No entry of `s` occurs twice. */
  predicate Distinct<T(==)>(s: seq<T>) {
    forall a, b :: 0 <= a < b < |s| ==> s[a] != s[b]
  }

  /** A coordinate pair: column `i`, row `j`. */
  datatype Pos = Pos(i: int, j: int)

  /** The four directions; Up/Down are the source's 'top'/'bottom' (or 'up'/'down'). */
  datatype Dir = Up | Right | Down | Left

  /** Wall flags of one cell; `true` means the wall is standing. */
  datatype Walls = Walls(top: bool, right: bool, bottom: bool, left: bool)

  /** A cell remembers its own coordinates, its walls and whether generation reached it. */
  datatype Cell = Cell(i: int, j: int, walls: Walls, visited: bool)

  datatype Maze = Maze(rows: nat, cols: nat, grid: seq<seq<Cell>>)

  const AllWalls := Walls(true, true, true, true)
  const Origin := Pos(0, 0)

  /** The positional order used by `neighbors`: top, right, bottom, left. */
  const Dirs: seq<Dir> := [Up, Right, Down, Left]

  function Opposite(d: Dir): Dir {
    match d
    case Up => Down
    case Right => Left
    case Down => Up
    case Left => Right
  }

  /** The position one step from `p` in direction `d`. */
  function Move(p: Pos, d: Dir): Pos {
    match d
    case Up => Pos(p.i, p.j - 1)
    case Right => Pos(p.i + 1, p.j)
    case Down => Pos(p.i, p.j + 1)
    case Left => Pos(p.i - 1, p.j)
  }

  /** Whether the wall of `w` facing `d` is standing. */
  function Wall(w: Walls, d: Dir): bool {
    match d
    case Up => w.top
    case Right => w.right
    case Down => w.bottom
    case Left => w.left
  }

  /** `w` with the wall facing `d` knocked down and the other three kept. */
  function Open(w: Walls, d: Dir): (r: Walls)
    ensures !Wall(r, d)
    ensures forall e :: e != d ==> Wall(r, e) == Wall(w, e)
  {
    match d
    case Up => w.(top := false)
    case Right => w.(right := false)
    case Down => w.(bottom := false)
    case Left => w.(left := false)
  }

  lemma MoveBack(p: Pos, d: Dir)
    ensures Move(Move(p, d), Opposite(d)) == p
    ensures Opposite(Opposite(d)) == d
    ensures Move(p, d) != p
  {
  }

  predicate InBounds(m: Maze, p: Pos) {
    0 <= p.i < m.cols && 0 <= p.j < m.rows
  }

  /** The shape the constructor builds: `rows` rows of `cols` cells, each
      cell storing its own coordinates. */
  predicate Shaped(m: Maze) {
    && |m.grid| == m.rows
    && (forall j :: 0 <= j < m.rows ==> |m.grid[j]| == m.cols)
    && (forall j, i :: 0 <= j < m.rows && 0 <= i < m.cols ==>
          m.grid[j][i].i == i && m.grid[j][i].j == j)
  }

  function At(m: Maze, p: Pos): (c: Cell)
    requires Shaped(m) && InBounds(m, p)
    ensures c.i == p.i && c.j == p.j
  {
    m.grid[p.j][p.i]
  }

  /** The cell at `p` replaced by `c` (which must carry the same coordinates). */
  function Update(m: Maze, p: Pos, c: Cell): (r: Maze)
    requires Shaped(m) && InBounds(m, p) && c.i == p.i && c.j == p.j
    ensures Shaped(r) && r.rows == m.rows && r.cols == m.cols
    ensures At(r, p) == c
    ensures forall q :: InBounds(m, q) && q != p ==> At(r, q) == At(m, q)
  {
    m.(grid := m.grid[p.j := m.grid[p.j][p.i := c]])
  }

  /** A fresh cell: all four walls standing, not visited. */
  predicate Pristine(c: Cell) {
    c.walls == AllWalls && !c.visited
  }

  /** `new Maze(rows, cols)`: every cell built with four walls, unvisited. */
  function NewMaze(rows: nat, cols: nat): (r: Maze)
    ensures Shaped(r) && r.rows == rows && r.cols == cols
    ensures forall p :: InBounds(r, p) ==> Pristine(At(r, p))
  {
    Maze(rows, cols, seq(rows, j => seq(cols, i => Cell(i, j, AllWalls, false))))
  }

  /** The first loop of `generate`: every cell back to four walls, unvisited,
      keeping its coordinates. */
  function Reset(m: Maze): (r: Maze)
    requires Shaped(m)
    ensures Shaped(r) && r.rows == m.rows && r.cols == m.cols
    ensures forall p :: InBounds(r, p) ==> Pristine(At(r, p))
  {
    var g := m.grid;
    m.(grid := seq(|g|, j requires 0 <= j < |g| =>
                  seq(|g[j]|, i requires 0 <= i < |g[j]| =>
                    g[j][i].(walls := AllWalls, visited := false))))
  }

  /** Two shaped mazes of equal size agreeing on every cell are equal. */
  lemma {:induction false} SameCells(a: Maze, b: Maze)
    requires Shaped(a) && Shaped(b) && a.rows == b.rows && a.cols == b.cols
    requires forall p :: InBounds(a, p) ==> At(a, p) == At(b, p)
    ensures a == b
  {
    forall j | 0 <= j < a.rows
      ensures a.grid[j] == b.grid[j]
    {
      forall i | 0 <= i < a.cols
        ensures a.grid[j][i] == b.grid[j][i]
      {
        assert At(a, Pos(i, j)) == At(b, Pos(i, j));
      }
    }
  }

  /** Resetting a maze, whatever walls it had, gives exactly the maze the
      constructor builds. */
  lemma ResetIsFresh(m: Maze)
    requires Shaped(m)
    ensures Reset(m) == NewMaze(m.rows, m.cols)
  {
    SameCells(Reset(m), NewMaze(m.rows, m.cols));
  }

  /** `Maze.index`: the cell at (i, j), or None outside the grid. */
  function Index(m: Maze, i: int, j: int): (r: Option<Cell>)
    requires Shaped(m)
    ensures r.None? <==> !InBounds(m, Pos(i, j))
    ensures r.Some? ==> r.value.i == i && r.value.j == j && r.value == At(m, Pos(i, j))
  {
    if i >= 0 && j >= 0 && i < m.cols && j < m.rows then Some(m.grid[j][i]) else None
  }

  /** `Maze.neighbors`: the four adjacent cells in the order top, right,
      bottom, left, None for those outside the grid. */
  function Neighbors(m: Maze, i: int, j: int): (r: seq<Option<Cell>>)
    requires Shaped(m)
    ensures |r| == 4
    ensures forall k :: 0 <= k < 4 ==>
              (r[k].Some? <==> InBounds(m, Move(Pos(i, j), Dirs[k])))
              && (r[k].Some? ==> r[k].value == At(m, Move(Pos(i, j), Dirs[k])))
  {
    [Index(m, i, j - 1), Index(m, i + 1, j), Index(m, i, j + 1), Index(m, i - 1, j)]
  }

  /** No wall on the outer boundary of the grid is open. */
  ghost predicate BoundaryIntact(m: Maze)
    requires Shaped(m)
  {
    forall p, d :: InBounds(m, p) && !InBounds(m, Move(p, d)) ==> Wall(At(m, p).walls, d)
  }

  /** Every wall between two adjacent cells looks the same from both sides
      (a.right == b.left for horizontal neighbours, a.bottom == b.top for
      vertical ones). */
  ghost predicate WallsSymmetric(m: Maze)
    requires Shaped(m)
  {
    forall p, d :: InBounds(m, p) && InBounds(m, Move(p, d)) ==>
      Wall(At(m, p).walls, d) == Wall(At(m, Move(p, d)).walls, Opposite(d))
  }

  /** `canMove`: whether the wall of the cell at `p` facing `d` is down. */
  function CanMove(m: Maze, p: Pos, d: Dir): bool
    requires Shaped(m) && InBounds(m, p)
  {
    !Wall(At(m, p).walls, d)
  }

  /** With the boundary intact, every permitted move stays inside the grid. */
  lemma CanMoveStaysInside(m: Maze, p: Pos, d: Dir)
    requires Shaped(m) && BoundaryIntact(m) && InBounds(m, p)
    ensures CanMove(m, p, d) ==> InBounds(m, Move(p, d))
  {
  }

  /** With symmetric walls, a move is permitted exactly when the move back is. */
  lemma CanMoveReversible(m: Maze, p: Pos, d: Dir)
    requires Shaped(m) && WallsSymmetric(m) && InBounds(m, p) && InBounds(m, Move(p, d))
    ensures CanMove(m, p, d) <==> CanMove(m, Move(p, d), Opposite(d))
  {
  }

  /** The position update of `stepPlayer`: nothing happens while a solver
      animation runs or when a wall blocks the way. */
  function StepPlayer(m: Maze, animating: bool, player: Pos, d: Dir): (r: Pos)
    requires Shaped(m) && InBounds(m, player)
    ensures r == player || (r == Move(player, d) && CanMove(m, player, d) && !animating)
    ensures !animating && CanMove(m, player, d) ==> r != player
    ensures BoundaryIntact(m) ==> InBounds(m, r)
  {
    if animating then player
    else if !CanMove(m, player, d) then player
    else Move(player, d)
  }

  /** In a maze with symmetric walls every player step can be undone by the
      opposite step. */
  lemma StepPlayerUndo(m: Maze, player: Pos, d: Dir)
    requires Shaped(m) && BoundaryIntact(m) && WallsSymmetric(m) && InBounds(m, player)
    ensures var q := StepPlayer(m, false, player, d);
            q != player ==> StepPlayer(m, false, q, Opposite(d)) == player
  {
    MoveBack(player, d);
  }

  /** Where `q` stands among the four steps from `p` in the order up, right,
      down, left; 4 when it is none of them. */
  function Rank(p: Pos, q: Pos): (k: nat)
    ensures k < 4 ==> q == Move(p, Dirs[k])
    ensures forall d :: q == Move(p, d) ==> k < 4 && Dirs[k] == d
  {
    if q == Move(p, Up) then 0
    else if q == Move(p, Right) then 1
    else if q == Move(p, Down) then 2
    else if q == Move(p, Left) then 3
    else 4
  }

  lemma RankOfStep(p: Pos, k: nat)
    requires k < 4
    ensures Rank(p, Move(p, Dirs[k])) == k
  {
    MoveBack(p, Up);
    MoveBack(p, Right);
    MoveBack(p, Down);
  }

  /** The entries of `r` are steps from `p` in directions `k..3`, in
      strictly increasing direction order. */
  predicate RankedFrom(p: Pos, r: seq<Pos>, k: nat) {
    && (forall t :: 0 <= t < |r| ==> k <= Rank(p, r[t]) < 4)
    && (forall a, b :: 0 <= a < b < |r| ==> Rank(p, r[a]) < Rank(p, r[b]))
  }

  lemma RankedWeaken(p: Pos, r: seq<Pos>, k: nat)
    requires RankedFrom(p, r, k + 1)
    ensures RankedFrom(p, r, k)
  {
  }

  /** Putting a step of rank `k` in front of steps of higher ranks, in
      increasing order, keeps the order increasing. */
  lemma ConsOrdered(p: Pos, h: Pos, rest: seq<Pos>, k: nat)
    requires Rank(p, h) == k < 4
    requires RankedFrom(p, rest, k + 1)
    ensures RankedFrom(p, [h] + rest, k)
  {
    var r := [h] + rest;
    forall a, b | 0 <= a < b < |r|
      ensures Rank(p, r[a]) < Rank(p, r[b])
    {
      assert r[b] == rest[b - 1];
      if a > 0 {
        assert r[a] == rest[a - 1];
      }
    }
  }

  /** The open steps from `p` in directions `Dirs[k..]`, in that order. */
  function OpenFrom(m: Maze, p: Pos, k: nat): seq<Pos>
    requires Shaped(m) && InBounds(m, p) && k <= 4
    decreases 4 - k
  {
    if k == 4 then []
    else (if CanMove(m, p, Dirs[k]) then [Move(p, Dirs[k])] else []) + OpenFrom(m, p, k + 1)
  }

  /** The steps `OpenFrom(m, p, k)` lists lie in directions `k..3`, in
      strictly increasing direction order. */
  lemma {:induction false} OpenFromOrdered(m: Maze, p: Pos, k: nat)
    requires Shaped(m) && InBounds(m, p) && k <= 4
    ensures RankedFrom(p, OpenFrom(m, p, k), k)
    decreases 4 - k
  {
    if k < 4 {
      OpenFromOrdered(m, p, k + 1);
      var rest := OpenFrom(m, p, k + 1);
      if CanMove(m, p, Dirs[k]) {
        RankOfStep(p, k);
        assert OpenFrom(m, p, k) == [Move(p, Dirs[k])] + rest;
        ConsOrdered(p, Move(p, Dirs[k]), rest, k);
      } else {
        assert OpenFrom(m, p, k) == rest;
        RankedWeaken(p, rest, k);
      }
    }
  }

  /** `neighborsOpen`: the positions reachable through an open wall of the
      cell at `p`, in the order up, right, down, left. */
  function OpenNeighbors(m: Maze, p: Pos): (r: seq<Pos>)
    requires Shaped(m) && InBounds(m, p)
    ensures forall d :: Move(p, d) in r <==> CanMove(m, p, d)
    ensures forall q :: q in r ==> exists d :: q == Move(p, d) && CanMove(m, p, d)
    ensures Distinct(r) && |r| <= 4
  {
    OpenStepsMembers(m, p);
    OpenStepsOnly(m, p);
    OpenStepsDistinct(m, p);
    OpenSteps(m, p)
  }

  /** The list `neighborsOpen` builds: one optional entry per direction. */
  function OpenSteps(m: Maze, p: Pos): seq<Pos>
    requires Shaped(m) && InBounds(m, p)
  {
    (if CanMove(m, p, Up) then [Move(p, Up)] else [])
    + ((if CanMove(m, p, Right) then [Move(p, Right)] else [])
       + ((if CanMove(m, p, Down) then [Move(p, Down)] else [])
          + (if CanMove(m, p, Left) then [Move(p, Left)] else [])))
  }

  lemma OpenStepsMembers(m: Maze, p: Pos)
    requires Shaped(m) && InBounds(m, p)
    ensures forall d :: Move(p, d) in OpenSteps(m, p) <==> CanMove(m, p, d)
  {
  }

  lemma OpenStepsOnly(m: Maze, p: Pos)
    requires Shaped(m) && InBounds(m, p)
    ensures forall q :: q in OpenSteps(m, p) ==> exists d :: q == Move(p, d) && CanMove(m, p, d)
  {
  }

  lemma OpenStepsDistinct(m: Maze, p: Pos)
    requires Shaped(m) && InBounds(m, p)
    ensures Distinct(OpenSteps(m, p)) && |OpenSteps(m, p)| <= 4
  {
  }

  /** A cell is never its own open neighbour. */
  lemma OpenNeighborsNotSelf(m: Maze, p: Pos)
    requires Shaped(m) && InBounds(m, p)
    ensures p !in OpenNeighbors(m, p)
  {
  }

  /** `neighborsOpen` lists the open steps in the order up, right, down, left:
      with the membership above, this fixes the list entirely. */
  lemma OpenNeighborsInOrder(m: Maze, p: Pos)
    requires Shaped(m) && InBounds(m, p)
    ensures RankedFrom(p, OpenNeighbors(m, p), 0)
  {
    OpenFromStart(m, p);
    OpenFromOrdered(m, p, 0);
  }

  lemma OpenFromStart(m: Maze, p: Pos)
    requires Shaped(m) && InBounds(m, p)
    ensures OpenNeighbors(m, p) == OpenFrom(m, p, 0)
  {
    var up := if CanMove(m, p, Up) then [Move(p, Up)] else [];
    var right := if CanMove(m, p, Right) then [Move(p, Right)] else [];
    var down := if CanMove(m, p, Down) then [Move(p, Down)] else [];
    var left := if CanMove(m, p, Left) then [Move(p, Left)] else [];
    assert Dirs[0] == Up && Dirs[1] == Right && Dirs[2] == Down && Dirs[3] == Left;
    assert OpenFrom(m, p, 3) == left by {
      assert OpenFrom(m, p, 4) == [];
    }
    assert OpenFrom(m, p, 2) == down + left;
    assert OpenFrom(m, p, 1) == right + (down + left);
    assert OpenFrom(m, p, 0) == up + (right + (down + left));
  }

  /** A walk: a non-empty sequence of in-bounds positions, each step going
      through an open wall. */
  predicate IsWalk(m: Maze, w: seq<Pos>) {
    && Shaped(m)
    && |w| >= 1
    && (forall t :: 0 <= t < |w| ==> InBounds(m, w[t]))
    && (forall t :: 0 <= t < |w| - 1 ==> w[t + 1] in OpenNeighbors(m, w[t]))
  }

  /** The sequence read back to front. */
  function Reverse<T>(s: seq<T>): (r: seq<T>)
    ensures |r| == |s|
    ensures forall t :: 0 <= t < |s| ==> r[t] == s[|s| - 1 - t]
  {
    if |s| == 0 then [] else Reverse(s[1..]) + [s[0]]
  }

  /** Reversing a walk gives a walk when walls are symmetric. */
  lemma WalkReverses(m: Maze, w: seq<Pos>)
    requires IsWalk(m, w) && WallsSymmetric(m)
    ensures IsWalk(m, Reverse(w))
  {
    var v := Reverse(w);
    forall t | 0 <= t < |v| - 1
      ensures v[t + 1] in OpenNeighbors(m, v[t])
    {
      var a := w[|w| - 2 - t];
      var b := w[|w| - 1 - t];
      assert b in OpenNeighbors(m, a);
      var d :| b == Move(a, d) && CanMove(m, a, d);
      MoveBack(a, d);
      assert CanMove(m, b, Opposite(d));
    }
  }

  // ---------------------------------------------------------------------
  // How many cells there are
  // ---------------------------------------------------------------------

  lemma RowsTimesCols(n: nat, cols: nat)
    requires n > 0
    ensures (n - 1) * cols + cols == n * cols
  {
  }

  /** Positions of row `j` with a column below `cols` number at most `cols`. */
  lemma {:induction false} RowCard(s: set<Pos>, j: int, cols: nat)
    requires forall p :: p in s ==> p.j == j && 0 <= p.i < cols
    ensures |s| <= cols
  {
    if cols > 0 {
      var rest := s - {Pos(cols - 1, j)};
      RowCard(rest, j, cols - 1);
    } else {
      assert s == {};
    }
  }

  /** Positions inside a `rows` by `cols` grid number at most `rows * cols`. */
  lemma {:induction false} GridCard(s: set<Pos>, rows: nat, cols: nat)
    requires forall p :: p in s ==> 0 <= p.i < cols && 0 <= p.j < rows
    ensures |s| <= rows * cols
  {
    if rows > 0 {
      var last := set p | p in s && p.j == rows - 1;
      var rest := s - last;
      RowCard(last, rows - 1, cols);
      GridCard(rest, rows - 1, cols);
      assert s == rest + last;
      RowsTimesCols(rows, cols);
    } else {
      assert s == {};
    }
  }

  /** A set of cells of a maze has at most `rows * cols` members. */
  lemma InBoundsCard(m: Maze, s: set<Pos>)
    requires forall p :: p in s ==> InBounds(m, p)
    ensures |s| <= m.rows * m.cols
  {
    GridCard(s, m.rows, m.cols);
  }
}
