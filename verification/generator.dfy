/**
  `Maze.generate` of app.js: the randomized depth-first backtracker. It
  resets every cell, starts at (0, 0) with an explicit stack, and on each
  round either carves into a randomly chosen unvisited neighbour of the
  stack top (knocking the shared wall down on both sides) or pops the top.
  `Math.random` is replaced by an oracle `rand`; the k-th random draw is
  `rand(k)`, reduced modulo the number of candidates.
*/
module Generator {
  import opened Grid

  /** An entry of `neighbors` that generation may still carve into. */
  predicate Unvisited(o: Option<Cell>) {
    o.Some? && !o.value.visited
  }

  /** The `neigh` list of `generate`: the directions of the in-bounds,
      unvisited neighbours of `p`, in the order top, right, bottom, left. */
  function Candidates(m: Maze, p: Pos): (r: seq<Dir>)
    requires Shaped(m) && InBounds(m, p)
    ensures forall d :: d in r <==> InBounds(m, Move(p, d)) && !At(m, Move(p, d)).visited
  {
    var list := Neighbors(m, p.i, p.j);
    assert Dirs[0] == Up && Dirs[1] == Right && Dirs[2] == Down && Dirs[3] == Left;
    (if Unvisited(list[0]) then [Up] else [])
    + (if Unvisited(list[1]) then [Right] else [])
    + (if Unvisited(list[2]) then [Down] else [])
    + (if Unvisited(list[3]) then [Left] else [])
  }

  /** Knock down the wall between `p` and its neighbour in direction `d` on
      both sides, and mark that neighbour visited. */
  function Carve(m: Maze, p: Pos, d: Dir): (r: Maze)
    requires Shaped(m) && InBounds(m, p) && InBounds(m, Move(p, d))
    ensures Shaped(r) && r.rows == m.rows && r.cols == m.cols
    ensures At(r, p) == At(m, p).(walls := Open(At(m, p).walls, d))
    ensures At(r, Move(p, d)) ==
              At(m, Move(p, d)).(walls := Open(At(m, Move(p, d)).walls, Opposite(d)), visited := true)
    ensures forall x :: InBounds(m, x) && x != p && x != Move(p, d) ==> At(r, x) == At(m, x)
  {
    MoveBack(p, d);
    var q := Move(p, d);
    var c := At(m, p);
    var m1 := Update(m, p, c.(walls := Open(c.walls, d)));
    var n := At(m1, q);
    Update(m1, q, n.(walls := Open(n.walls, Opposite(d)), visited := true))
  }

  // ---------------------------------------------------------------------
  // Counting cells and passages
  // ---------------------------------------------------------------------

  function SumRow(row: seq<Cell>, f: Cell -> nat): nat {
    if |row| == 0 then 0 else SumRow(row[..|row| - 1], f) + f(row[|row| - 1])
  }

  function SumGrid(g: seq<seq<Cell>>, f: Cell -> nat): nat {
    if |g| == 0 then 0 else SumGrid(g[..|g| - 1], f) + SumRow(g[|g| - 1], f)
  }

  function VisitedWeight(c: Cell): nat {
    if c.visited then 1 else 0
  }

  /** Passages counted from the cell left of or above them: the open right
      and bottom walls, so that each passage between two cells counts once. */
  function OpenWeight(c: Cell): nat {
    (if c.walls.right then 0 else 1) + (if c.walls.bottom then 0 else 1)
  }

  function VisitedCount(m: Maze): nat {
    SumGrid(m.grid, VisitedWeight)
  }

  /** The number of passages (edges of the open-wall graph) of a maze whose
      walls are symmetric and whose boundary is intact. */
  function EdgeCount(m: Maze): nat {
    SumGrid(m.grid, OpenWeight)
  }

  lemma {:induction false} SumRowUpdate(row: seq<Cell>, i: nat, c: Cell, f: Cell -> nat)
    requires i < |row|
    ensures SumRow(row[i := c], f) + f(row[i]) == SumRow(row, f) + f(c)
  {
    var n := |row|;
    var r := row[i := c];
    if i == n - 1 {
      assert r[..n - 1] == row[..n - 1];
    } else {
      SumRowUpdate(row[..n - 1], i, c, f);
      assert r[..n - 1] == row[..n - 1][i := c];
    }
  }

  lemma {:induction false} SumGridUpdate(g: seq<seq<Cell>>, j: nat, row: seq<Cell>, f: Cell -> nat)
    requires j < |g|
    ensures SumGrid(g[j := row], f) + SumRow(g[j], f) == SumGrid(g, f) + SumRow(row, f)
  {
    var n := |g|;
    var h := g[j := row];
    if j == n - 1 {
      assert h[..n - 1] == g[..n - 1];
    } else {
      SumGridUpdate(g[..n - 1], j, row, f);
      assert h[..n - 1] == g[..n - 1][j := row];
    }
  }

  /** Replacing one cell changes a grid sum by the difference of the two weights. */
  lemma UpdateSum(m: Maze, p: Pos, c: Cell, f: Cell -> nat)
    requires Shaped(m) && InBounds(m, p) && c.i == p.i && c.j == p.j
    ensures SumGrid(Update(m, p, c).grid, f) + f(At(m, p)) == SumGrid(m.grid, f) + f(c)
  {
    SumRowUpdate(m.grid[p.j], p.i, c, f);
    SumGridUpdate(m.grid, p.j, m.grid[p.j][p.i := c], f);
  }

  lemma {:induction false} SumRowBounds(row: seq<Cell>, f: Cell -> nat)
    ensures (forall k :: 0 <= k < |row| ==> f(row[k]) <= 1) ==> SumRow(row, f) <= |row|
    ensures (forall k :: 0 <= k < |row| ==> f(row[k]) == 1) ==> SumRow(row, f) == |row|
    ensures (forall k :: 0 <= k < |row| ==> f(row[k]) == 0) ==> SumRow(row, f) == 0
  {
    if |row| > 0 {
      SumRowBounds(row[..|row| - 1], f);
    }
  }

  lemma {:induction false} SumGridBounds(g: seq<seq<Cell>>, f: Cell -> nat, cols: nat)
    requires forall j :: 0 <= j < |g| ==> |g[j]| == cols
    ensures (forall j, i :: 0 <= j < |g| && 0 <= i < cols ==> f(g[j][i]) <= 1) ==> SumGrid(g, f) <= |g| * cols
    ensures (forall j, i :: 0 <= j < |g| && 0 <= i < cols ==> f(g[j][i]) == 1) ==> SumGrid(g, f) == |g| * cols
    ensures (forall j, i :: 0 <= j < |g| && 0 <= i < cols ==> f(g[j][i]) == 0) ==> SumGrid(g, f) == 0
  {
    if |g| > 0 {
      var n := |g|;
      var init := g[..n - 1];
      assert forall j :: 0 <= j < n - 1 ==> init[j] == g[j];
      SumGridBounds(init, f, cols);
      SumRowBounds(g[n - 1], f);
      assert SumGrid(g, f) == SumGrid(init, f) + SumRow(g[n - 1], f);
      RowsTimesCols(n, cols);
    }
  }

  lemma VisitedCountBound(m: Maze)
    requires Shaped(m)
    ensures VisitedCount(m) <= m.rows * m.cols
    ensures (forall p :: InBounds(m, p) ==> At(m, p).visited) ==> VisitedCount(m) == m.rows * m.cols
    ensures (forall p :: InBounds(m, p) ==> !At(m, p).visited) ==> VisitedCount(m) == 0
  {
    SumGridBounds(m.grid, VisitedWeight, m.cols);
    if forall p :: InBounds(m, p) ==> At(m, p).visited {
      forall j, i | 0 <= j < m.rows && 0 <= i < m.cols
        ensures VisitedWeight(m.grid[j][i]) == 1
      {
        assert At(m, Pos(i, j)).visited;
      }
    }
    if forall p :: InBounds(m, p) ==> !At(m, p).visited {
      forall j, i | 0 <= j < m.rows && 0 <= i < m.cols
        ensures VisitedWeight(m.grid[j][i]) == 0
      {
        assert !At(m, Pos(i, j)).visited;
      }
    }
  }

  lemma NoEdges(m: Maze)
    requires Shaped(m)
    requires forall p :: InBounds(m, p) ==> At(m, p).walls == AllWalls
    ensures EdgeCount(m) == 0
  {
    SumGridBounds(m.grid, OpenWeight, m.cols);
    forall j, i | 0 <= j < m.rows && 0 <= i < m.cols
      ensures OpenWeight(m.grid[j][i]) == 0
    {
      assert At(m, Pos(i, j)).walls == AllWalls;
    }
  }

  // ---------------------------------------------------------------------
  // What one carve does
  // ---------------------------------------------------------------------

  /** The wall of any cell facing any direction after a carve. */
  lemma CarveWall(m: Maze, p: Pos, d: Dir, x: Pos, e: Dir)
    requires Shaped(m) && InBounds(m, p) && InBounds(m, Move(p, d)) && InBounds(m, x)
    ensures Wall(At(Carve(m, p, d), x).walls, e) ==
              if (x == p && e == d) || (x == Move(p, d) && e == Opposite(d)) then false
              else Wall(At(m, x).walls, e)
  {
    MoveBack(p, d);
  }

  lemma CarveSymmetric(m: Maze, p: Pos, d: Dir)
    requires Shaped(m) && InBounds(m, p) && InBounds(m, Move(p, d)) && WallsSymmetric(m)
    ensures WallsSymmetric(Carve(m, p, d))
  {
    var r := Carve(m, p, d);
    var q := Move(p, d);
    MoveBack(p, d);
    forall x, e | InBounds(r, x) && InBounds(r, Move(x, e))
      ensures Wall(At(r, x).walls, e) == Wall(At(r, Move(x, e)).walls, Opposite(e))
    {
      var y := Move(x, e);
      MoveBack(x, e);
      CarveWall(m, p, d, x, e);
      CarveWall(m, p, d, y, Opposite(e));
    }
  }

  lemma CarveBoundary(m: Maze, p: Pos, d: Dir)
    requires Shaped(m) && InBounds(m, p) && InBounds(m, Move(p, d)) && BoundaryIntact(m)
    ensures BoundaryIntact(Carve(m, p, d))
  {
    var r := Carve(m, p, d);
    MoveBack(p, d);
    forall x, e | InBounds(r, x) && !InBounds(r, Move(x, e))
      ensures Wall(At(r, x).walls, e)
    {
      CarveWall(m, p, d, x, e);
    }
  }

  /** Carving into an untouched cell adds exactly one visited cell and one
      edge. */
  lemma CarveCounts(m: Maze, p: Pos, d: Dir)
    requires Shaped(m) && InBounds(m, p) && InBounds(m, Move(p, d)) && WallsSymmetric(m)
    requires Pristine(At(m, Move(p, d)))
    ensures VisitedCount(Carve(m, p, d)) == VisitedCount(m) + 1
    ensures EdgeCount(Carve(m, p, d)) == EdgeCount(m) + 1
  {
    var q := Move(p, d);
    MoveBack(p, d);
    var c := At(m, p);
    var m1 := Update(m, p, c.(walls := Open(c.walls, d)));
    var n := At(m1, q);
    assert n == At(m, q);
    var nq := n.(walls := Open(n.walls, Opposite(d)), visited := true);
    assert Carve(m, p, d) == Update(m1, q, nq);
    UpdateSum(m, p, c.(walls := Open(c.walls, d)), VisitedWeight);
    UpdateSum(m1, q, nq, VisitedWeight);
    UpdateSum(m, p, c.(walls := Open(c.walls, d)), OpenWeight);
    UpdateSum(m1, q, nq, OpenWeight);
    assert Wall(c.walls, d) == Wall(n.walls, Opposite(d));
  }

  /** A carve only knocks walls down and only marks cells visited. */
  lemma CarveMonotone(m: Maze, p: Pos, d: Dir, x: Pos, e: Dir)
    requires Shaped(m) && InBounds(m, p) && InBounds(m, Move(p, d)) && InBounds(m, x)
    ensures CanMove(m, x, e) ==> CanMove(Carve(m, p, d), x, e)
    ensures At(m, x).visited ==> At(Carve(m, p, d), x).visited
  {
    CarveWall(m, p, d, x, e);
  }

  // ---------------------------------------------------------------------
  // Walks and connectivity
  // ---------------------------------------------------------------------

  /** Every cell can be reached from (0, 0) through open walls. */
  ghost predicate Connected(m: Maze)
    requires Shaped(m)
  {
    forall p :: InBounds(m, p) ==>
      exists w :: IsWalk(m, w) && w[0] == Origin && w[|w| - 1] == p
  }

  /** A walk stays a walk when walls are only knocked down. */
  lemma WalkPersists(m: Maze, r: Maze, w: seq<Pos>)
    requires IsWalk(m, w) && Shaped(r) && r.rows == m.rows && r.cols == m.cols
    requires forall x, e :: InBounds(m, x) && CanMove(m, x, e) ==> CanMove(r, x, e)
    ensures IsWalk(r, w)
  {
    forall t | 0 <= t < |w| - 1
      ensures w[t + 1] in OpenNeighbors(r, w[t])
    {
      assert w[t + 1] in OpenNeighbors(m, w[t]);
      var e :| w[t + 1] == Move(w[t], e) && CanMove(m, w[t], e);
      assert CanMove(r, w[t], e);
    }
  }

  lemma WalkExtend(m: Maze, w: seq<Pos>, q: Pos)
    requires IsWalk(m, w) && q in OpenNeighbors(m, w[|w| - 1]) && InBounds(m, q)
    ensures IsWalk(m, w + [q])
  {
    var v := w + [q];
    assert forall t :: 0 <= t < |w| ==> v[t] == w[t];
    assert v[|w|] == q;
    forall t | 0 <= t < |v| - 1
      ensures v[t + 1] in OpenNeighbors(m, v[t])
    {
      if t < |w| - 1 {
        assert v[t + 1] in OpenNeighbors(m, w[t]);
      } else {
        assert v[t] == w[|w| - 1];
      }
    }
  }

  /** Each visited cell has a recorded walk from (0, 0). */
  ghost predicate Walks(m: Maze, paths: map<Pos, seq<Pos>>)
    requires Shaped(m)
  {
    forall p :: InBounds(m, p) && At(m, p).visited ==>
      p in paths && IsWalk(m, paths[p]) && paths[p][0] == Origin && paths[p][|paths[p]| - 1] == p
  }

  /** If (0, 0) is visited and visited cells have only visited neighbours,
      then every cell is visited. */
  lemma {:induction false} Reached(m: Maze, p: Pos)
    requires Shaped(m) && InBounds(m, Origin) && At(m, Origin).visited
    requires forall x, e :: InBounds(m, x) && At(m, x).visited && InBounds(m, Move(x, e)) ==>
               At(m, Move(x, e)).visited
    requires InBounds(m, p)
    ensures At(m, p).visited
    decreases p.i + p.j
  {
    if p.i > 0 {
      var x := Pos(p.i - 1, p.j);
      Reached(m, x);
      assert Move(x, Right) == p;
    } else if p.j > 0 {
      var x := Pos(p.i, p.j - 1);
      Reached(m, x);
      assert Move(x, Down) == p;
    }
  }

  // ---------------------------------------------------------------------
  // The loop invariant of `generate`
  // ---------------------------------------------------------------------

  /** A cell generation has not reached still has all four walls. */
  ghost predicate UntouchedWalled(m: Maze)
    requires Shaped(m)
  {
    forall p :: InBounds(m, p) && !At(m, p).visited ==> At(m, p).walls == AllWalls
  }

  /** The stack holds distinct visited cells. */
  ghost predicate StackOk(m: Maze, stack: seq<Pos>)
    requires Shaped(m)
  {
    && (forall t :: 0 <= t < |stack| ==> InBounds(m, stack[t]) && At(m, stack[t]).visited)
    && Distinct(stack)
  }

  /** A visited cell that has left the stack has no unvisited neighbour. */
  ghost predicate Finished(m: Maze, stack: seq<Pos>)
    requires Shaped(m)
  {
    forall p, e :: InBounds(m, p) && At(m, p).visited && p !in stack && InBounds(m, Move(p, e)) ==>
      At(m, Move(p, e)).visited
  }

  /** `order` lists the visited cells, once each, starting at (0, 0). */
  ghost predicate OrderOk(m: Maze, order: seq<Pos>)
    requires Shaped(m)
  {
    && |order| >= 1 && order[0] == Origin && Distinct(order)
    && (forall t :: 0 <= t < |order| ==> InBounds(m, order[t]))
    && (forall p :: InBounds(m, p) ==> (At(m, p).visited <==> p in order))
  }

  ghost predicate GenInv(m: Maze, rows: nat, cols: nat, stack: seq<Pos>, order: seq<Pos>,
                         paths: map<Pos, seq<Pos>>)
  {
    && Shaped(m) && m.rows == rows && m.cols == cols
    && WallsSymmetric(m) && BoundaryIntact(m)
    && UntouchedWalled(m)
    && StackOk(m, stack)
    && Finished(m, stack)
    && OrderOk(m, order)
    && |order| == VisitedCount(m)
    // one edge per visited cell but the first
    && EdgeCount(m) + 1 == VisitedCount(m)
    && VisitedCount(m) <= rows * cols
    && Walks(m, paths)
  }

  lemma StartInv(m: Maze) returns (m1: Maze)
    requires Shaped(m) && m.rows >= 1 && m.cols >= 1
    ensures m1 == (var m0 := Reset(m); Update(m0, Origin, At(m0, Origin).(visited := true)))
    ensures GenInv(m1, m.rows, m.cols, [Origin], [Origin], map[Origin := [Origin]])
  {
    var m0 := Reset(m);
    m1 := Update(m0, Origin, At(m0, Origin).(visited := true));
    UpdateSum(m0, Origin, At(m0, Origin).(visited := true), VisitedWeight);
    VisitedCountBound(m0);
    NoEdges(m0);
    NoEdges(m1);
    assert 1 <= m.rows * m.cols;
    assert IsWalk(m1, [Origin]);
  }

  /** After a carve a cell is visited exactly when it was before or is the
      carved-into neighbour. */
  lemma CarveVisited(m: Maze, p: Pos, d: Dir, x: Pos)
    requires Shaped(m) && InBounds(m, p) && InBounds(m, Move(p, d)) && InBounds(m, x)
    ensures At(Carve(m, p, d), x).visited <==> At(m, x).visited || x == Move(p, d)
  {
    MoveBack(p, d);
  }

  lemma CarveStackOk(m: Maze, stack: seq<Pos>, p: Pos, d: Dir)
    requires Shaped(m) && InBounds(m, p) && InBounds(m, Move(p, d)) && !At(m, Move(p, d)).visited
    requires StackOk(m, stack)
    ensures StackOk(Carve(m, p, d), stack + [Move(p, d)])
  {
    var q := Move(p, d);
    var r := Carve(m, p, d);
    var s' := stack + [q];
    assert q !in stack;
    forall t | 0 <= t < |s'|
      ensures InBounds(r, s'[t]) && At(r, s'[t]).visited
    {
      CarveVisited(m, p, d, s'[t]);
    }
  }

  lemma CarveFinished(m: Maze, stack: seq<Pos>, d: Dir)
    requires Shaped(m) && |stack| > 0 && StackOk(m, stack) && Finished(m, stack)
    requires InBounds(m, Move(stack[|stack| - 1], d))
    ensures var p := stack[|stack| - 1];
            Finished(Carve(m, p, d), stack + [Move(p, d)])
  {
    var p := stack[|stack| - 1];
    var q := Move(p, d);
    var r := Carve(m, p, d);
    var s' := stack + [q];
    forall x, e | InBounds(r, x) && At(r, x).visited && x !in s' && InBounds(r, Move(x, e))
      ensures At(r, Move(x, e)).visited
    {
      assert x != p && x != q;
      CarveVisited(m, p, d, x);
      CarveVisited(m, p, d, Move(x, e));
    }
  }

  lemma CarveOrder(m: Maze, order: seq<Pos>, p: Pos, d: Dir)
    requires Shaped(m) && InBounds(m, p) && InBounds(m, Move(p, d)) && !At(m, Move(p, d)).visited
    requires OrderOk(m, order)
    ensures OrderOk(Carve(m, p, d), order + [Move(p, d)])
  {
    var q := Move(p, d);
    var r := Carve(m, p, d);
    var o' := order + [q];
    assert q !in order;
    forall x | InBounds(r, x)
      ensures At(r, x).visited <==> x in o'
    {
      CarveVisited(m, p, d, x);
    }
  }

  lemma CarveUntouched(m: Maze, p: Pos, d: Dir)
    requires Shaped(m) && InBounds(m, p) && InBounds(m, Move(p, d)) && At(m, p).visited
    requires UntouchedWalled(m)
    ensures UntouchedWalled(Carve(m, p, d))
  {
    var r := Carve(m, p, d);
    forall x | InBounds(r, x) && !At(r, x).visited
      ensures At(r, x).walls == AllWalls
    {
      CarveVisited(m, p, d, x);
      assert x != p;
    }
  }

  lemma CarveOpens(m: Maze, p: Pos, d: Dir)
    requires Shaped(m) && InBounds(m, p) && InBounds(m, Move(p, d))
    ensures forall x, e :: InBounds(m, x) && CanMove(m, x, e) ==> CanMove(Carve(m, p, d), x, e)
  {
    forall x, e | InBounds(m, x) && CanMove(m, x, e)
      ensures CanMove(Carve(m, p, d), x, e)
    {
      CarveMonotone(m, p, d, x, e);
    }
  }

  /** The recorded walk of one visited cell after a carve. */
  lemma CarveWalkOf(m: Maze, paths: map<Pos, seq<Pos>>, p: Pos, d: Dir, x: Pos)
    requires Shaped(m) && InBounds(m, p) && InBounds(m, Move(p, d)) && At(m, p).visited
    requires Walks(m, paths)
    requires InBounds(m, x) && At(Carve(m, p, d), x).visited
    ensures var q := Move(p, d);
            var w := paths[q := paths[p] + [q]];
            x in w && IsWalk(Carve(m, p, d), w[x]) && w[x][0] == Origin && w[x][|w[x]| - 1] == x
  {
    var q := Move(p, d);
    var r := Carve(m, p, d);
    CarveOpens(m, p, d);
    CarveVisited(m, p, d, x);
    if x == q {
      WalkPersists(m, r, paths[p]);
      assert CanMove(r, p, d);
      WalkExtend(r, paths[p], q);
    } else {
      WalkPersists(m, r, paths[x]);
    }
  }

  lemma CarveWalks(m: Maze, paths: map<Pos, seq<Pos>>, p: Pos, d: Dir)
    requires Shaped(m) && InBounds(m, p) && InBounds(m, Move(p, d)) && At(m, p).visited
    requires Walks(m, paths)
    ensures var q := Move(p, d);
            Walks(Carve(m, p, d), paths[q := paths[p] + [q]])
  {
    var q := Move(p, d);
    var r := Carve(m, p, d);
    var paths' := paths[q := paths[p] + [q]];
    forall x | InBounds(r, x) && At(r, x).visited
      ensures x in paths' && IsWalk(r, paths'[x]) && paths'[x][0] == Origin
              && paths'[x][|paths'[x]| - 1] == x
    {
      CarveWalkOf(m, paths, p, d, x);
    }
  }

  lemma CarveInv(m: Maze, rows: nat, cols: nat, stack: seq<Pos>, order: seq<Pos>,
                 paths: map<Pos, seq<Pos>>, d: Dir)
    requires GenInv(m, rows, cols, stack, order, paths) && |stack| > 0
    requires d in Candidates(m, stack[|stack| - 1])
    ensures var p := stack[|stack| - 1];
            var q := Move(p, d);
            var r := Carve(m, p, d);
            && GenInv(r, rows, cols, stack + [q], order + [q], paths[q := paths[p] + [q]])
            && VisitedCount(r) == VisitedCount(m) + 1
  {
    var p := stack[|stack| - 1];
    CarveSymmetric(m, p, d);
    CarveBoundary(m, p, d);
    CarveCounts(m, p, d);
    VisitedCountBound(Carve(m, p, d));
    CarveStackOk(m, stack, p, d);
    CarveFinished(m, stack, d);
    CarveOrder(m, order, p, d);
    CarveUntouched(m, p, d);
    CarveWalks(m, paths, p, d);
  }

  lemma PopInv(m: Maze, rows: nat, cols: nat, stack: seq<Pos>, order: seq<Pos>,
               paths: map<Pos, seq<Pos>>)
    requires GenInv(m, rows, cols, stack, order, paths) && |stack| > 0
    requires Candidates(m, stack[|stack| - 1]) == []
    ensures GenInv(m, rows, cols, stack[..|stack| - 1], order, paths)
  {
    PopFinished(m, stack);
  }

  /** Popping a cell without candidates leaves every visited cell off the
      stack without an unvisited neighbour. */
  lemma PopFinished(m: Maze, stack: seq<Pos>)
    requires Shaped(m) && StackOk(m, stack) && Finished(m, stack) && |stack| > 0
    requires Candidates(m, stack[|stack| - 1]) == []
    ensures Finished(m, stack[..|stack| - 1])
  {
    var p := stack[|stack| - 1];
    var s' := stack[..|stack| - 1];
    assert p !in s';
    forall x, e | InBounds(m, x) && At(m, x).visited && x !in s' && InBounds(m, Move(x, e))
      ensures At(m, Move(x, e)).visited
    {
      if x == p {
        assert e !in Candidates(m, p);
      } else {
        assert x !in stack;
      }
    }
  }

  /** `generate`: the randomized depth-first backtracker. The result is a
      perfect maze: every cell is reached, the open-wall graph is connected
      and has exactly rows * cols - 1 passages, walls agree from both sides and
      the outer boundary stays closed. `order` lists the cells in the order
      they were visited and pushed, each exactly once. */
  method Generate(m: Maze, rand: nat -> nat) returns (r: Maze, order: seq<Pos>)
    requires Shaped(m) && m.rows >= 1 && m.cols >= 1
    ensures Shaped(r) && r.rows == m.rows && r.cols == m.cols
    ensures WallsSymmetric(r) && BoundaryIntact(r)
    ensures forall p :: InBounds(r, p) ==> At(r, p).visited
    ensures Connected(r)
    ensures EdgeCount(r) == r.rows * r.cols - 1
    ensures |order| == r.rows * r.cols && Distinct(order) && order[0] == Origin
    ensures forall p :: InBounds(r, p) <==> p in order
  {
    var rows, cols := m.rows, m.cols;
    var g := Reset(m);
    g := Update(g, Origin, At(g, Origin).(visited := true));
    var stack := [Origin];
    order := [Origin];
    ghost var paths := map[Origin := [Origin]];
    ghost var g1 := StartInv(m);
    var k := 0;
    while |stack| > 0
      invariant GenInv(g, rows, cols, stack, order, paths)
      decreases rows * cols - VisitedCount(g), |stack|
    {
      var current := stack[|stack| - 1];
      var neigh := Candidates(g, current);
      if |neigh| > 0 {
        var d := neigh[rand(k) % |neigh|];
        k := k + 1;
        var next := Move(current, d);
        CarveInv(g, rows, cols, stack, order, paths, d);
        g := Carve(g, current, d);
        stack := stack + [next];
        order := order + [next];
        paths := paths[next := paths[current] + [next]];
      } else {
        PopInv(g, rows, cols, stack, order, paths);
        stack := stack[..|stack| - 1];
      }
    }
    forall p | InBounds(g, p)
      ensures At(g, p).visited
    {
      Reached(g, p);
    }
    VisitedCountBound(g);
    forall p | InBounds(g, p)
      ensures exists w :: IsWalk(g, w) && w[0] == Origin && w[|w| - 1] == p
    {
      assert IsWalk(g, paths[p]);
    }
    r := g;
  }
}
