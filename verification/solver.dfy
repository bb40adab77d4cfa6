/**
  `makeSolver` and its `step` closure from app.js: one resumable search over
  the open-wall graph that is breadth-first (a queue), depth-first (a stack),
  Dijkstra or A* (a priority queue re-sorted on every push). Every edge costs
  1 and the A* heuristic is the Manhattan distance. The closure's variables
  become the `Search` datatype and `step` a pure transition that also returns
  the visited and frontier snapshots it would write for the display.
*/
module Solver {
  import opened Grid
  import opened PriorityQueue

  datatype Algo = Bfs | Dfs | Dijkstra | AStar {
    /** The algorithms whose frontier is a plain array rather than a `PriorityQueue`. */
    predicate Plain() {
      Bfs? || Dfs?
    }
  }

  /** The state captured by the `step` closure. */
  datatype Search = Search(
    algo: Algo,
    start: Pos,
    goal: Pos,
    visited: set<Pos>,
    frontier: seq<Node>,
    came: map<Pos, Pos>,   // child -> parent
    dist: map<Pos, nat>)

  /** `{done:false}`, `{done:true, found:false}` and `{done:true, found:true, path}`. */
  datatype Status = Running | Exhausted | Found(path: seq<Pos>)

  /** The outcome of one step: the status, the state to resume from, and the
      snapshots assigned to `state.visitedSet` and `state.frontierSet`
      (None where the step leaves them alone). */
  datatype StepResult = StepResult(
    status: Status,
    next: Search,
    visitedView: Option<set<Pos>>,
    frontierView: Option<set<Pos>>)

  function Abs(x: int): nat {
    if x < 0 then -x else x
  }

  /** `manhattan` */
  function Manhattan(a: Pos, b: Pos): (r: nat)
    ensures r == 0 <==> a == b
  {
    Abs(a.i - b.i) + Abs(a.j - b.j)
  }

  /** The score a neighbour is pushed with, given its new distance `d`:
      none (0) for the array frontiers, `d` for Dijkstra, `d` plus the
      Manhattan distance to the goal for A*. */
  function Score(algo: Algo, d: nat, nb: Pos, goal: Pos): (r: int)
    ensures r >= 0
    ensures algo.Dijkstra? ==> r == d
    ensures algo.AStar? ==> r == d + Manhattan(nb, goal)
  {
    match algo
    case Bfs => 0
    case Dfs => 0
    case Dijkstra => d
    case AStar => d + Manhattan(nb, goal)
  }

  /** `frontier.push`: appended to an array, or sorted into the priority queue. */
  function Enqueue(algo: Algo, f: seq<Node>, n: Node): (r: seq<Node>)
    ensures |r| == |f| + 1 && n in r
    ensures forall x :: x in f ==> x in r
    ensures forall x :: x in r ==> x in f || x == n
    ensures multiset(r) == multiset(f) + multiset{n}
    ensures forall v :: WithScore(r, v) == WithScore(f + [n], v)
    ensures algo.Plain() ==> r == f + [n]
    ensures !algo.Plain() ==> Sorted(r)
  {
    if algo.Plain() then f + [n]
    else
      var r := Push(f, n);
      assert n in multiset(r);
      assert forall x :: x in f || x == n <==> x in multiset(r);
      r
  }

  /** Taking the next node: `pop` from the end for DFS, `shift` from the
      front otherwise. */
  function Pop(algo: Algo, f: seq<Node>): (r: (Node, seq<Node>))
    requires |f| > 0
    ensures |r.1| == |f| - 1 && r.0 in f && forall n :: n in r.1 ==> n in f
    ensures multiset(f) == multiset(r.1) + multiset{r.0}
    ensures algo.Dfs? ==> r.0 == f[|f| - 1] && f == r.1 + [r.0]
    ensures !algo.Dfs? ==> r.0 == f[0] && f == [r.0] + r.1
    ensures !algo.Plain() && Sorted(f) ==> Sorted(r.1) && forall n :: n in f ==> r.0.score <= n.score
  {
    if algo.Dfs? then
      assert f == f[..|f| - 1] + [f[|f| - 1]];
      (f[|f| - 1], f[..|f| - 1])
    else
      var s := Shift(f);
      assert f == [f[0]] + f[1..];
      s.value
  }

  /** `dist.get(key) || 0` */
  function DistOr0(dist: map<Pos, nat>, k: Pos): nat {
    if k in dist then dist[k] else 0
  }

  /** The positions held in a frontier: the set drawn for `state.frontierSet`. */
  function Positions(f: seq<Node>): (r: set<Pos>)
    ensures forall p :: p in r <==> exists n :: n in f && n.pos == p
  {
    set n | n in f :: n.pos
  }

  /** `makeSolver(algo, start, goal)`: nothing visited, the start enqueued
      with score 0 and distance 0. */
  function MakeSolver(algo: Algo, start: Pos, goal: Pos): (r: Search)
    ensures r.algo == algo && r.start == start && r.goal == goal
    ensures r.visited == {} && r.came == map[] && r.dist == map[start := 0]
    ensures r.frontier == [Node(start, 0)]
  {
    Search(algo, start, goal, {}, Enqueue(algo, [], Node(start, 0)), map[], map[start := 0])
  }

  // ---------------------------------------------------------------------
  // Relaxing the open neighbours of the node just settled
  // ---------------------------------------------------------------------

  /** `s` and `t` hold the same predecessor and distance entries for `k`. */
  predicate Agree(s: Search, t: Search, k: Pos) {
    && (k in s.came <==> k in t.came)
    && (k in s.came ==> s.came[k] == t.came[k])
    && (k in s.dist <==> k in t.dist)
    && (k in s.dist ==> s.dist[k] == t.dist[k])
  }

  /** `k` got `cur` as predecessor and one more than `cur`'s distance, and
      only because it had no distance before or the new one is smaller. */
  predicate RelaxedThrough(s: Search, t: Search, cur: Pos, k: Pos) {
    && k !in s.visited
    && k in t.came && t.came[k] == cur
    && k in t.dist && t.dist[k] == DistOr0(s.dist, cur) + 1
    && (k !in s.dist || t.dist[k] < s.dist[k])
  }

  /** The nodes the loop over `nbs` pushes when it runs from `s` to `t`: one
      per neighbour relaxed on the way, carrying its new score, in the order
      of `nbs`. */
  function Pushed(s: Search, t: Search, cur: Pos, nbs: seq<Pos>): (r: seq<Node>)
    ensures |r| <= |nbs|
    ensures Distinct(nbs) ==> Distinct(r)
    ensures forall n :: n in r ==>
              && n.pos in nbs && RelaxedThrough(s, t, cur, n.pos)
              && n.score == Score(s.algo, t.dist[n.pos], n.pos, s.goal)
    ensures forall k :: k in nbs && RelaxedThrough(s, t, cur, k) ==>
              Node(k, Score(s.algo, t.dist[k], k, s.goal)) in r
  {
    if |nbs| == 0 then []
    else
      (if RelaxedThrough(s, t, cur, nbs[0])
       then [Node(nbs[0], Score(s.algo, t.dist[nbs[0]], nbs[0], s.goal))] else [])
      + Pushed(s, t, cur, nbs[1..])
  }

  /** One iteration of the loop over `neighborsOpen(cur)`: a relaxed
      neighbour is pushed once, with its new score; otherwise nothing
      changes. */
  function RelaxOne(s: Search, cur: Pos, nb: Pos): (r: Search)
    requires cur in s.visited
    ensures r.algo == s.algo && r.start == s.start && r.goal == s.goal && r.visited == s.visited
    ensures s.came.Keys <= r.came.Keys && s.dist.Keys <= r.dist.Keys
    ensures forall k :: k != nb ==> Agree(s, r, k)
    ensures !Agree(s, r, nb) ==> RelaxedThrough(s, r, cur, nb)
    ensures !RelaxedThrough(s, r, cur, nb) ==> r == s
    ensures nb !in s.visited && (nb !in s.dist || DistOr0(s.dist, cur) + 1 < s.dist[nb]) ==>
              RelaxedThrough(s, r, cur, nb)
    ensures RelaxedThrough(s, r, cur, nb) ==>
              r.frontier == Enqueue(s.algo, s.frontier, Node(nb, Score(s.algo, r.dist[nb], nb, s.goal)))
  {
    if nb in s.visited then s
    else
      var newDist := DistOr0(s.dist, cur) + 1;
      if nb !in s.dist || newDist < s.dist[nb] then
        s.(dist := s.dist[nb := newDist],
           came := s.came[nb := cur],
           frontier := Enqueue(s.algo, s.frontier, Node(nb, Score(s.algo, newDist, nb, s.goal))))
      else s
  }

  /** The frontier after one iteration: the old one plus the node `Pushed`
      names for that neighbour, if any. */
  lemma RelaxOneFrontier(s: Search, cur: Pos, nb: Pos)
    requires cur in s.visited
    ensures var r := RelaxOne(s, cur, nb);
            && (s.algo.Plain() ==> r.frontier == s.frontier + Pushed(s, r, cur, [nb]))
            && multiset(r.frontier) == multiset(s.frontier) + multiset(Pushed(s, r, cur, [nb]))
            && (forall v :: WithScore(r.frontier, v) == WithScore(s.frontier + Pushed(s, r, cur, [nb]), v))
            && (!s.algo.Plain() && Sorted(s.frontier) ==> Sorted(r.frontier))
  {
    var r := RelaxOne(s, cur, nb);
    assert [nb][1..] == [];
    if RelaxedThrough(s, r, cur, nb) {
      assert Pushed(s, r, cur, [nb]) == [Node(nb, Score(s.algo, r.dist[nb], nb, s.goal))];
    } else {
      assert Pushed(s, r, cur, [nb]) == [];
      assert s.frontier + [] == s.frontier;
    }
  }

  /** The whole loop over the open neighbours `nbs` of `cur`, in order. */
  function Relax(s: Search, cur: Pos, nbs: seq<Pos>): (r: Search)
    requires cur in s.visited
    requires Distinct(nbs)
    ensures r.algo == s.algo && r.start == s.start && r.goal == s.goal && r.visited == s.visited
    ensures s.came.Keys <= r.came.Keys && s.dist.Keys <= r.dist.Keys
    ensures forall k :: !Agree(s, r, k) ==> k in nbs && RelaxedThrough(s, r, cur, k)
    ensures forall k :: k in nbs && k !in s.visited && (k !in s.dist || DistOr0(s.dist, cur) + 1 < s.dist[k]) ==>
              RelaxedThrough(s, r, cur, k)
    decreases |nbs|
  {
    if |nbs| == 0 then s
    else
      var s1 := RelaxOne(s, cur, nbs[0]);
      var r := Relax(s1, cur, nbs[1..]);
      RelaxChain(s, s1, r, cur, nbs);
      r
  }

  /** The frontier after the loop: for BFS and DFS, the old frontier followed
      by one node per relaxed neighbour in the order of `nbs`; for every
      frontier, the old contents plus those nodes, each score's run extended
      by them in that order, and a sorted queue kept sorted. */
  lemma {:induction false} RelaxFrontier(s: Search, cur: Pos, nbs: seq<Pos>)
    requires cur in s.visited
    requires Distinct(nbs)
    ensures s.algo.Plain() ==> Relax(s, cur, nbs).frontier == s.frontier + Pushed(s, Relax(s, cur, nbs), cur, nbs)
    ensures multiset(Relax(s, cur, nbs).frontier)
            == multiset(s.frontier) + multiset(Pushed(s, Relax(s, cur, nbs), cur, nbs))
    ensures forall v :: WithScore(Relax(s, cur, nbs).frontier, v)
                        == WithScore(s.frontier + Pushed(s, Relax(s, cur, nbs), cur, nbs), v)
    ensures !s.algo.Plain() && Sorted(s.frontier) ==> Sorted(Relax(s, cur, nbs).frontier)
    decreases |nbs|
  {
    if |nbs| == 0 {
      assert s.frontier + Pushed(s, s, cur, nbs) == s.frontier;
    } else {
      var s1 := RelaxOne(s, cur, nbs[0]);
      var r := Relax(s1, cur, nbs[1..]);
      assert Relax(s, cur, nbs) == r;
      RelaxOneFrontier(s, cur, nbs[0]);
      RelaxFrontier(s1, cur, nbs[1..]);
      RelaxChain(s, s1, r, cur, nbs);
      PushedSplit(s, s1, r, cur, nbs);
      FrontierChain(s.algo.Plain(), s.frontier, s1.frontier, r.frontier,
                    Pushed(s, s1, cur, [nbs[0]]), Pushed(s1, r, cur, nbs[1..]));
    }
  }

  /** How the contracts of the first iteration and of the rest of the loop
      combine. */
  lemma RelaxChain(s: Search, s1: Search, r: Search, cur: Pos, nbs: seq<Pos>)
    requires |nbs| > 0 && cur in s.visited
    requires Distinct(nbs)
    requires s1.algo == s.algo && s1.start == s.start && s1.goal == s.goal && s1.visited == s.visited
    requires forall k :: k != nbs[0] ==> Agree(s, s1, k)
    requires !Agree(s, s1, nbs[0]) ==> RelaxedThrough(s, s1, cur, nbs[0])
    requires forall k :: !Agree(s1, r, k) ==> k in nbs[1..] && RelaxedThrough(s1, r, cur, k)
    ensures forall k :: !Agree(s, r, k) ==> k in nbs && RelaxedThrough(s, r, cur, k)
    ensures forall k :: k in nbs[1..] ==> Agree(s, s1, k)
    ensures Agree(s1, r, nbs[0])
    ensures DistOr0(s1.dist, cur) == DistOr0(s.dist, cur)
  {
    assert nbs[0] !in nbs[1..];
    assert Agree(s, s1, cur);
    assert DistOr0(s1.dist, cur) == DistOr0(s.dist, cur);
    forall k | !Agree(s, r, k)
      ensures k in nbs && RelaxedThrough(s, r, cur, k)
    {
      if k == nbs[0] {
        assert Agree(s1, r, k);
        assert RelaxedThrough(s, s1, cur, k);
      } else {
        assert Agree(s, s1, k);
        assert k in nbs[1..] && RelaxedThrough(s1, r, cur, k);
        assert k in nbs;
      }
    }
  }

  /** A frontier that gained exactly the entries of `p` holds its old nodes
      and nothing but them and the entries of `p`. */
  lemma Gained(f: seq<Node>, g: seq<Node>, p: seq<Node>)
    requires multiset(g) == multiset(f) + multiset(p)
    ensures forall n :: n in f ==> n in g
    ensures forall n :: n in p ==> n in g
    ensures forall n :: n in g ==> n in f || n in p
  {
    forall n | n in f
      ensures n in g
    {
      assert multiset(g)[n] >= multiset(f)[n] > 0;
    }
    forall n | n in p
      ensures n in g
    {
      assert multiset(g)[n] >= multiset(p)[n] > 0;
    }
    forall n | n in g
      ensures n in f || n in p
    {
      assert n in multiset(g);
    }
  }

  /** Relaxation is judged the same from `s` and from `s1` for neighbours on
      which the two agree. */
  lemma {:induction false} PushedFrom(s: Search, s1: Search, r: Search, cur: Pos, nbs: seq<Pos>)
    requires s1.algo == s.algo && s1.goal == s.goal && s1.visited == s.visited
    requires DistOr0(s1.dist, cur) == DistOr0(s.dist, cur)
    requires forall k :: k in nbs ==> Agree(s, s1, k)
    ensures Pushed(s, r, cur, nbs) == Pushed(s1, r, cur, nbs)
  {
    if |nbs| > 0 {
      assert Agree(s, s1, nbs[0]);
      PushedFrom(s, s1, r, cur, nbs[1..]);
    }
  }

  /** A frontier extended by `head` and then by `tail` is the first one
      extended by both, in every sense the loop promises. */
  lemma {:induction false} FrontierChain(plain: bool, f: seq<Node>, f1: seq<Node>, g: seq<Node>,
                                         head: seq<Node>, tail: seq<Node>)
    requires plain ==> f1 == f + head
    requires multiset(f1) == multiset(f) + multiset(head)
    requires forall v :: WithScore(f1, v) == WithScore(f + head, v)
    requires plain ==> g == f1 + tail
    requires multiset(g) == multiset(f1) + multiset(tail)
    requires forall v :: WithScore(g, v) == WithScore(f1 + tail, v)
    ensures plain ==> g == f + (head + tail)
    ensures multiset(g) == multiset(f) + multiset(head + tail)
    ensures forall v :: WithScore(g, v) == WithScore(f + (head + tail), v)
  {
    assert f + head + tail == f + (head + tail);
    forall v
      ensures WithScore(g, v) == WithScore(f + (head + tail), v)
    {
      WithScoreAppend(f1, tail, v);
      WithScoreAppend(f, head, v);
      WithScoreAppend(f + head, tail, v);
    }
  }

  /** The pushes of the whole loop are those of the first iteration followed
      by those of the rest. */
  lemma PushedSplit(s: Search, s1: Search, r: Search, cur: Pos, nbs: seq<Pos>)
    requires |nbs| > 0 && Distinct(nbs)
    requires s1.algo == s.algo && s1.goal == s.goal && s1.visited == s.visited
    requires DistOr0(s1.dist, cur) == DistOr0(s.dist, cur)
    requires forall k :: k in nbs[1..] ==> Agree(s, s1, k)
    requires Agree(s1, r, nbs[0])
    ensures Pushed(s, r, cur, nbs) == Pushed(s, s1, cur, [nbs[0]]) + Pushed(s1, r, cur, nbs[1..])
  {
    PushedFrom(s, s1, r, cur, nbs[1..]);
    assert [nbs[0]][1..] == [];
  }

  // ---------------------------------------------------------------------
  // Path reconstruction
  // ---------------------------------------------------------------------

  /** Every predecessor entry sits one distance unit below its child, so
      following `came` always terminates. */
  ghost predicate Chained(came: map<Pos, Pos>, dist: map<Pos, nat>) {
    forall k :: k in came ==> k in dist && came[k] in dist && dist[k] == dist[came[k]] + 1
  }

  /** The keys the loop of `reconstruct` pushes: `k`, its predecessor, and
      so on until a key without one. */
  function Trace(came: map<Pos, Pos>, dist: map<Pos, nat>, k: Pos): (r: seq<Pos>)
    requires Chained(came, dist)
    ensures |r| >= 1 && r[0] == k && r[|r| - 1] !in came
    ensures forall t :: 0 <= t < |r| - 1 ==> r[t] in came && came[r[t]] == r[t + 1]
    ensures k in dist ==> r[|r| - 1] in dist && dist[k] == dist[r[|r| - 1]] + |r| - 1
    decreases if k in dist then dist[k] else 0
  {
    if k in came then [k] + Trace(came, dist, came[k]) else [k]
  }

  /** `reconstruct(came, endKey)`: the trace back from `k`, reversed, so it
      runs from a key without predecessor forward to `k`. */
  function Reconstruct(came: map<Pos, Pos>, dist: map<Pos, nat>, k: Pos): (r: seq<Pos>)
    requires Chained(came, dist)
    ensures |r| >= 1 && r[|r| - 1] == k && r[0] !in came
    ensures forall t :: 0 < t < |r| ==> r[t] in came && came[r[t]] == r[t - 1]
    ensures k in dist ==> r[0] in dist && dist[k] == dist[r[0]] + |r| - 1
  {
    ReversedTrace(came, Trace(came, dist, k));
    Reverse(Trace(came, dist, k))
  }

  /** A chain of predecessor links read back to front links each key to the
      one before it. */
  lemma ReversedTrace(came: map<Pos, Pos>, tr: seq<Pos>)
    requires forall t :: 0 <= t < |tr| - 1 ==> tr[t] in came && came[tr[t]] == tr[t + 1]
    ensures var r := Reverse(tr);
            forall t :: 0 < t < |r| ==> r[t] in came && came[r[t]] == r[t - 1]
  {
    var r := Reverse(tr);
    forall t | 0 < t < |r|
      ensures r[t] in came && came[r[t]] == r[t - 1]
    {
      assert r[t] == tr[|tr| - 1 - t] && r[t - 1] == tr[|tr| - 1 - t + 1];
    }
  }

  // ---------------------------------------------------------------------
  // The step
  // ---------------------------------------------------------------------

  /** The invariant of every state `step` can reach from `makeSolver`, over
      a maze whose boundary is intact and with start and goal inside it. */
  ghost predicate Valid(m: Maze, s: Search) {
    && Shaped(m) && BoundaryIntact(m)
    && InBounds(m, s.start) && InBounds(m, s.goal)
    && (forall n :: n in s.frontier ==>
          InBounds(m, n.pos) && n.score >= 0 && (n.pos == s.start || n.pos in s.came))
    && (!s.algo.Plain() ==> Sorted(s.frontier))
    && (forall p :: p in s.visited ==> InBounds(m, p) && (p == s.start || p in s.came))
    && (s.visited != {} ==> s.start in s.visited)
    && s.start in s.dist && s.dist[s.start] == 0 && s.start !in s.came
    && (forall k :: k in s.came ==>
          && k in s.dist && s.came[k] in s.visited && s.came[k] in s.dist
          && s.dist[k] == s.dist[s.came[k]] + 1
          && InBounds(m, s.came[k]) && k in OpenNeighbors(m, s.came[k]))
  }

  /** The settled state: the popped node taken off the frontier and marked
      visited. */
  function Settle(s: Search): (r: Search)
    requires |s.frontier| > 0
    ensures r.visited == s.visited + {Pop(s.algo, s.frontier).0.pos}
    ensures r.frontier == Pop(s.algo, s.frontier).1
    ensures r.came == s.came && r.dist == s.dist
  {
    s.(frontier := Pop(s.algo, s.frontier).1, visited := s.visited + {Pop(s.algo, s.frontier).0.pos})
  }

  /** The position of the node the next step takes off the frontier. */
  function Popped(s: Search): (p: Pos)
    requires |s.frontier| > 0
    ensures exists n :: n in s.frontier && n.pos == p
  {
    Pop(s.algo, s.frontier).0.pos
  }

  /** `step()`. An empty frontier reports exhaustion and changes nothing; a
      node already visited is dropped without other effect; otherwise the
      node is settled, and either it is the goal and the path is returned, or
      its open neighbours are relaxed. */
  function Step(m: Maze, s: Search): (r: StepResult)
    requires Valid(m, s)
    ensures r.next.algo == s.algo && r.next.start == s.start && r.next.goal == s.goal
    ensures |s.frontier| == 0 ==> r == StepResult(Exhausted, s, None, None)
    ensures |s.frontier| > 0 && Pop(s.algo, s.frontier).0.pos in s.visited ==>
              r == StepResult(Running, s.(frontier := Pop(s.algo, s.frontier).1), None, None)
    ensures |s.frontier| > 0 && Pop(s.algo, s.frontier).0.pos !in s.visited ==>
              && r.next.visited == s.visited + {Pop(s.algo, s.frontier).0.pos}
              && r.visitedView == Some(r.next.visited)
              && (r.status.Found? <==> Pop(s.algo, s.frontier).0.pos == s.goal)
              && (Pop(s.algo, s.frontier).0.pos != s.goal ==> r.status == Running && r.frontierView.Some?)
    ensures r.status.Found? ==> r.next == Settle(s) && r.frontierView == None
    ensures r.frontierView.Some? ==> r.frontierView.value == Positions(r.next.frontier)
  {
    if |s.frontier| == 0 then StepResult(Exhausted, s, None, None)
    else
      var cur := Pop(s.algo, s.frontier).0.pos;
      if cur in s.visited then StepResult(Running, s.(frontier := Pop(s.algo, s.frontier).1), None, None)
      else
        var settled := Settle(s);
        if cur == s.goal then
          StepResult(Found(Reconstruct(s.came, s.dist, cur)), settled, Some(settled.visited), None)
        else
          var r := Relax(settled, cur, OpenNeighbors(m, cur));
          StepResult(Running, r, Some(settled.visited), Some(Positions(r.frontier)))
  }

  /** The state after a step that expands `Pop(..).0`: the settled state with
      its open neighbours relaxed. */
  lemma StepExpands(m: Maze, s: Search)
    requires Valid(m, s) && |s.frontier| > 0
    requires Pop(s.algo, s.frontier).0.pos !in s.visited && Pop(s.algo, s.frontier).0.pos != s.goal
    ensures InBounds(m, Pop(s.algo, s.frontier).0.pos)
    ensures Step(m, s).next
            == Relax(Settle(s), Pop(s.algo, s.frontier).0.pos, OpenNeighbors(m, Pop(s.algo, s.frontier).0.pos))
  {
  }

  /** Distances and predecessors of a step: visited positions keep theirs,
      and any entry that changes is a neighbour through an open wall of the
      popped node, relaxed because it had no distance or a longer one, and
      now one more than the popped node's distance with the popped node as
      its predecessor. */
  lemma StepRelaxes(m: Maze, s: Search)
    requires Valid(m, s) && |s.frontier| > 0
    ensures forall k :: k in s.visited ==> Agree(s, Step(m, s).next, k)
    ensures forall k :: !Agree(s, Step(m, s).next, k) ==>
              && k in OpenNeighbors(m, Pop(s.algo, s.frontier).0.pos)
              && RelaxedThrough(Settle(s), Step(m, s).next, Pop(s.algo, s.frontier).0.pos, k)
  {
    var cur := Pop(s.algo, s.frontier).0.pos;
    if cur !in s.visited && cur != s.goal {
      StepExpands(m, s);
      ChangesThrough(s, Settle(s), Step(m, s).next, cur, OpenNeighbors(m, cur));
    } else {
      NoChanges(s, Step(m, s).next);
    }
  }

  /** What a step leaves in the frontier. Unless the popped node is expanded,
      exactly the nodes behind it. When it is expanded, those nodes plus one
      node per relaxed open neighbour, in `neighborsOpen` order: appended
      behind them for the array frontiers, and sorted in behind every node of
      equal score for the priority queue. */
  lemma StepPushes(m: Maze, s: Search)
    requires Valid(m, s) && |s.frontier| > 0
    ensures InBounds(m, Popped(s))
    ensures Popped(s) in s.visited || Popped(s) == s.goal ==>
              Step(m, s).next.frontier == Pop(s.algo, s.frontier).1
    ensures Popped(s) !in s.visited && Popped(s) != s.goal && s.algo.Plain() ==>
              Step(m, s).next.frontier
              == Pop(s.algo, s.frontier).1 + Pushed(Settle(s), Step(m, s).next, Popped(s), OpenNeighbors(m, Popped(s)))
    ensures Popped(s) !in s.visited && Popped(s) != s.goal ==>
              multiset(Step(m, s).next.frontier)
              == multiset(Pop(s.algo, s.frontier).1)
                 + multiset(Pushed(Settle(s), Step(m, s).next, Popped(s), OpenNeighbors(m, Popped(s))))
    ensures Popped(s) !in s.visited && Popped(s) != s.goal ==>
              forall v :: WithScore(Step(m, s).next.frontier, v)
                          == WithScore(Pop(s.algo, s.frontier).1
                                       + Pushed(Settle(s), Step(m, s).next, Popped(s), OpenNeighbors(m, Popped(s))), v)
  {
    if Popped(s) !in s.visited && Popped(s) != s.goal {
      StepExpands(m, s);
      RelaxFrontier(Settle(s), Popped(s), OpenNeighbors(m, Popped(s)));
    }
  }

  /** A step that expands the popped node relaxes every open neighbour that
      is unvisited and has no distance or a longer one than through the
      popped node, and queues it with its new score. */
  lemma StepRelaxesAll(m: Maze, s: Search, k: Pos)
    requires Valid(m, s) && |s.frontier| > 0
    requires Popped(s) !in s.visited && Popped(s) != s.goal
    requires InBounds(m, Popped(s)) && k in OpenNeighbors(m, Popped(s)) && k !in s.visited
    requires k !in s.dist || DistOr0(s.dist, Popped(s)) + 1 < s.dist[k]
    ensures RelaxedThrough(Settle(s), Step(m, s).next, Popped(s), k)
    ensures Node(k, Score(s.algo, Step(m, s).next.dist[k], k, s.goal)) in Step(m, s).next.frontier
  {
    var cur := Popped(s);
    var t := Settle(s);
    var nbs := OpenNeighbors(m, cur);
    OpenNeighborsNotSelf(m, cur);
    assert k !in t.visited && t.dist == s.dist;
    StepExpands(m, s);
    RelaxReaches(t, cur, nbs, k);
  }

  /** The loop relaxes and queues every listed neighbour it can improve. */
  lemma RelaxReaches(t: Search, cur: Pos, nbs: seq<Pos>, k: Pos)
    requires cur in t.visited && Distinct(nbs)
    requires k in nbs && k !in t.visited && (k !in t.dist || DistOr0(t.dist, cur) + 1 < t.dist[k])
    ensures RelaxedThrough(t, Relax(t, cur, nbs), cur, k)
    ensures Node(k, Score(t.algo, Relax(t, cur, nbs).dist[k], k, t.goal)) in Relax(t, cur, nbs).frontier
  {
    var r := Relax(t, cur, nbs);
    var p := Pushed(t, r, cur, nbs);
    var n := Node(k, Score(t.algo, r.dist[k], k, t.goal));
    assert RelaxedThrough(t, r, cur, k);
    assert n in p;
    RelaxFrontier(t, cur, nbs);
    Gained(t.frontier, r.frontier, p);
  }

  /** Two states with the same distances and predecessors agree everywhere. */
  lemma NoChanges(s: Search, r: Search)
    requires r.came == s.came && r.dist == s.dist
    ensures forall k :: Agree(s, r, k)
  {
  }

  /** Agreement with the settled state carries over to the state before it,
      which shares its distances and predecessors. */
  lemma ChangesThrough(s: Search, t: Search, r: Search, cur: Pos, nbs: seq<Pos>)
    requires t.came == s.came && t.dist == s.dist && s.visited <= t.visited
    requires forall k :: !Agree(t, r, k) ==> k in nbs && RelaxedThrough(t, r, cur, k)
    ensures forall k :: k in s.visited ==> Agree(s, r, k)
    ensures forall k :: !Agree(s, r, k) ==> k in nbs && RelaxedThrough(t, r, cur, k)
  {
    forall k | k in s.visited
      ensures Agree(s, r, k)
    {
      if !Agree(t, r, k) {
        assert false;
      }
    }
  }

  // ---------------------------------------------------------------------
  // Properties
  // ---------------------------------------------------------------------

  /** A fresh solver satisfies the invariant. */
  lemma MakeSolverValid(m: Maze, algo: Algo, start: Pos, goal: Pos)
    requires Shaped(m) && BoundaryIntact(m) && InBounds(m, start) && InBounds(m, goal)
    ensures Valid(m, MakeSolver(algo, start, goal))
  {
  }

  /** The first step of a fresh solver settles the start: it is the goal's
      one-cell path when start and goal coincide, and otherwise the search
      goes on. */
  lemma FirstStep(m: Maze, algo: Algo, start: Pos, goal: Pos)
    requires Shaped(m) && BoundaryIntact(m) && InBounds(m, start) && InBounds(m, goal)
    ensures Valid(m, MakeSolver(algo, start, goal))
    ensures var r := Step(m, MakeSolver(algo, start, goal));
            && r.next.visited == {start}
            && (start == goal ==> r.status == Found([start]))
            && (start != goal ==> r.status == Running)
  {
    MakeSolverValid(m, algo, start, goal);
    var s := MakeSolver(algo, start, goal);
    assert Pop(algo, s.frontier).0.pos == start;
    if start == goal {
      assert Trace(s.came, s.dist, start) == [start];
    }
  }

  /** Settling a node not yet visited keeps the invariant. */
  lemma SettleValid(m: Maze, s: Search)
    requires Valid(m, s) && |s.frontier| > 0
    ensures Valid(m, Settle(s))
  {
    var cur := Pop(s.algo, s.frontier).0;
    assert cur.pos in s.came ==> s.came[cur.pos] in s.visited;
  }

  /** Relaxing the open neighbours of a visited node keeps the invariant. */
  lemma RelaxValid(m: Maze, t: Search, cur: Pos)
    requires Valid(m, t) && cur in t.visited
    ensures InBounds(m, cur)
    ensures Valid(m, Relax(t, cur, OpenNeighbors(m, cur)))
  {
    var nbs := OpenNeighbors(m, cur);
    var r := Relax(t, cur, nbs);
    assert Agree(t, r, t.start);
    forall k | k in r.came
      ensures && k in r.dist && r.came[k] in r.visited && r.came[k] in r.dist
              && r.dist[k] == r.dist[r.came[k]] + 1
              && InBounds(m, r.came[k]) && k in OpenNeighbors(m, r.came[k])
    {
      if !Agree(t, r, k) {
        assert Agree(t, r, cur);
      } else {
        assert Agree(t, r, t.came[k]);
      }
    }
    RelaxFrontier(t, cur, nbs);
    Gained(t.frontier, r.frontier, Pushed(t, r, cur, nbs));
    forall n | n in r.frontier
      ensures InBounds(m, n.pos) && n.score >= 0 && (n.pos == r.start || n.pos in r.came)
    {
      if n !in t.frontier {
        assert n.pos in nbs;
        var e :| n.pos == Move(cur, e) && CanMove(m, cur, e);
      }
    }
  }

  /** Every step keeps the invariant. */
  lemma StepValid(m: Maze, s: Search)
    requires Valid(m, s)
    ensures Valid(m, Step(m, s).next)
  {
    if |s.frontier| > 0 {
      var cur := Pop(s.algo, s.frontier).0.pos;
      if cur !in s.visited {
        SettleValid(m, s);
        if cur != s.goal {
          StepExpands(m, s);
          RelaxValid(m, Settle(s), cur);
        }
      }
    }
  }

  /** Following predecessors back from a position the search has reached
      gives a walk from the start through open walls, of one cell more than
      the position's distance, over visited cells except possibly the last. */
  lemma ReconstructWalk(m: Maze, s: Search, k: Pos)
    requires Valid(m, s) && InBounds(m, k) && (k == s.start || k in s.came)
    ensures Chained(s.came, s.dist)
    ensures var path := Reconstruct(s.came, s.dist, k);
            && path[0] == s.start && path[|path| - 1] == k
            && IsWalk(m, path)
            && k in s.dist && |path| == s.dist[k] + 1
            && forall t :: 0 <= t < |path| - 1 ==> path[t] in s.visited
  {
    var path := Reconstruct(s.came, s.dist, k);
    if |path| > 1 {
      assert path[0] == s.came[path[1]];
    }
    forall t | 0 <= t < |path| - 1
      ensures path[t] in s.visited && InBounds(m, path[t]) && path[t + 1] in OpenNeighbors(m, path[t])
    {
      assert path[t + 1] in s.came && s.came[path[t + 1]] == path[t];
    }
  }

  /** When `step` reports the goal found, the path runs from the start to the
      goal through open walls, one cell more than the goal's distance, over
      visited cells. */
  lemma FoundPath(m: Maze, s: Search)
    requires Valid(m, s) && Step(m, s).status.Found?
    ensures var path := Step(m, s).status.path;
            && path[0] == s.start && path[|path| - 1] == s.goal
            && IsWalk(m, path)
            && s.goal in s.dist && |path| == s.dist[s.goal] + 1
            && forall t :: 0 <= t < |path| ==> path[t] in Step(m, s).next.visited
  {
    var cur := Pop(s.algo, s.frontier).0;
    assert cur.pos == s.goal;
    ReconstructWalk(m, s, s.goal);
    assert Step(m, s).status.path == Reconstruct(s.came, s.dist, s.goal);
  }

  /** Once exhausted, stepping again returns the same result and state. */
  lemma ExhaustedIsFinal(m: Maze, s: Search)
    requires Valid(m, s) && Step(m, s).status.Exhausted?
    ensures Step(m, Step(m, s).next) == Step(m, s)
  {
  }

  /** The priority queue serves nodes in ascending score order: the node taken
      by Dijkstra or A* scores no more than anything left behind. */
  lemma PopIsMinimal(m: Maze, s: Search)
    requires Valid(m, s) && !s.algo.Plain() && |s.frontier| > 0
    ensures forall n :: n in s.frontier ==> Pop(s.algo, s.frontier).0.score <= n.score
  {
  }

  /** Manhattan distance never overestimates the length of a walk, so the A*
      heuristic is admissible on every maze. */
  lemma {:induction false} ManhattanAdmissible(m: Maze, w: seq<Pos>)
    requires IsWalk(m, w)
    ensures Manhattan(w[0], w[|w| - 1]) <= |w| - 1
  {
    if |w| > 1 {
      var v := w[1..];
      assert IsWalk(m, v) by {
        forall t | 0 <= t < |v| - 1
          ensures v[t + 1] in OpenNeighbors(m, v[t])
        {
          assert v[t] == w[t + 1] && v[t + 1] == w[t + 2];
        }
      }
      ManhattanAdmissible(m, v);
      ManhattanConsistent(m, w[0], w[1], w[|w| - 1]);
    }
  }

  /** The heuristic drops by at most one per step through an open wall. */
  lemma ManhattanConsistent(m: Maze, p: Pos, q: Pos, g: Pos)
    requires Shaped(m) && InBounds(m, p) && q in OpenNeighbors(m, p)
    ensures Manhattan(p, g) <= Manhattan(q, g) + 1
  {
    var e :| q == Move(p, e) && CanMove(m, p, e);
  }

  // ---------------------------------------------------------------------
  // Running a search to the end
  // ---------------------------------------------------------------------

  /** The visited cells lie in the grid, so there are at most `rows * cols`
      of them. */
  lemma VisitedBound(m: Maze, s: Search)
    requires Valid(m, s)
    ensures |s.visited| <= m.rows * m.cols
  {
    InBoundsCard(m, s.visited);
  }

  /** A step that keeps running either drops a node from the frontier and
      leaves the visited set alone, or adds exactly the popped cell to the
      visited set. */
  lemma StepProgress(m: Maze, s: Search)
    requires Valid(m, s) && Step(m, s).status.Running?
    ensures || (Step(m, s).next.visited == s.visited && |Step(m, s).next.frontier| < |s.frontier|)
            || (s.visited < Step(m, s).next.visited && |Step(m, s).next.visited| == |s.visited| + 1)
  {
    var r := Step(m, s);
    var cur := Pop(s.algo, s.frontier).0.pos;
    if cur in s.visited {
      assert r.next == s.(frontier := Pop(s.algo, s.frontier).1);
    } else {
      assert r.next.visited == s.visited + {cur};
      GrowsByOne(s.visited, cur);
    }
  }

  lemma GrowsByOne(v: set<Pos>, x: Pos)
    requires x !in v
    ensures v < v + {x} && |v + {x}| == |v| + 1
  {
  }

  /** The frame loop of the animation, without its timing: `step()` again
      and again until it reports `done`. Every run ends, with a found path
      or with an exhausted frontier, because each running step either
      visits a new cell, of which there are at most `rows * cols`, or
      shrinks the frontier. A found path runs from the start to the goal
      through open walls. */
  function Run(m: Maze, s: Search): (r: StepResult)
    requires Valid(m, s)
    ensures !r.status.Running?
    ensures Valid(m, r.next)
    ensures r.status.Exhausted? ==> |r.next.frontier| == 0
    ensures r.status.Found? ==>
              var path := r.status.path;
              && |path| > 0 && path[0] == s.start && path[|path| - 1] == s.goal
              && IsWalk(m, path)
    decreases m.rows * m.cols - |s.visited|, |s.frontier|
  {
    var res := Step(m, s);
    StepValid(m, s);
    if res.status.Running? then
      StepProgress(m, s);
      VisitedBound(m, res.next);
      Run(m, res.next)
    else
      if res.status.Found? then
        FoundPath(m, s);
        res
      else
        res
  }

  // ---------------------------------------------------------------------
  // Exhaustion means there is no path
  // ---------------------------------------------------------------------

  /** Every position with a distance is visited or waits in the frontier. */
  ghost predicate Covered(keys: set<Pos>, vis: set<Pos>, f: seq<Node>) {
    forall k :: k in keys ==> k in vis || k in Positions(f)
  }

  /** What a search that has not yet reached the goal knows about the cells
      it has not visited: the goal is not visited, every position with a
      distance is visited or in the frontier, and every open neighbour of a
      visited cell has a distance. */
  ghost predicate Complete(m: Maze, s: Search) {
    && s.goal !in s.visited
    && Covered(s.dist.Keys, s.visited, s.frontier)
    && (forall v, k :: Shaped(m) && v in s.visited && InBounds(m, v) && k in OpenNeighbors(m, v) ==> k in s.dist)
  }

  lemma MakeSolverComplete(m: Maze, algo: Algo, start: Pos, goal: Pos)
    ensures Complete(m, MakeSolver(algo, start, goal))
  {
    var s := MakeSolver(algo, start, goal);
    assert start in Positions(s.frontier) by {
      assert s.frontier[0] in s.frontier;
    }
  }

  /** Taking `x` off a frontier whose position is then visited keeps every
      key covered. */
  lemma CoverPop(keys: set<Pos>, vis: set<Pos>, vis2: set<Pos>, f: seq<Node>, rest: seq<Node>, x: Node)
    requires Covered(keys, vis, f)
    requires multiset(f) == multiset(rest) + multiset{x}
    requires vis <= vis2 && x.pos in vis2
    ensures Covered(keys, vis2, rest)
  {
    forall k | k in keys && k !in vis2
      ensures k in Positions(rest)
    {
      var n :| n in f && n.pos == k;
      assert n in multiset(f);
      assert n != x;
      assert n in multiset(rest);
    }
  }

  /** A frontier that keeps its nodes and gains nodes for every new key
      keeps every key covered. */
  lemma CoverGain(keys: set<Pos>, keys2: set<Pos>, vis: set<Pos>, f: seq<Node>, g: seq<Node>, p: seq<Node>)
    requires Covered(keys, vis, f)
    requires forall n :: n in f ==> n in g
    requires forall n :: n in p ==> n in g
    requires forall k :: k in keys2 && k !in keys ==> k in Positions(p)
    ensures Covered(keys2, vis, g)
  {
    forall k | k in keys2 && k !in vis
      ensures k in Positions(g)
    {
      if k in keys {
        var n :| n in f && n.pos == k;
      } else {
        var n :| n in p && n.pos == k;
      }
    }
  }

  /** Every position the loop gives a distance is pushed. */
  lemma NewKeysPushed(t: Search, cur: Pos, nbs: seq<Pos>)
    requires cur in t.visited && Distinct(nbs)
    ensures forall k :: k in Relax(t, cur, nbs).dist && k !in t.dist ==>
              k in Positions(Pushed(t, Relax(t, cur, nbs), cur, nbs))
  {
    var r := Relax(t, cur, nbs);
    forall k | k in r.dist && k !in t.dist
      ensures k in Positions(Pushed(t, r, cur, nbs))
    {
      assert !Agree(t, r, k);
      assert Node(k, Score(t.algo, r.dist[k], k, t.goal)) in Pushed(t, r, cur, nbs);
    }
  }

  /** After the loop every open neighbour of `cur` has a distance. */
  lemma RelaxCloses(m: Maze, t: Search, cur: Pos)
    requires Valid(m, t) && cur in t.visited
    ensures InBounds(m, cur)
    ensures forall k :: k in OpenNeighbors(m, cur) ==> k in Relax(t, cur, OpenNeighbors(m, cur)).dist
  {
    var nbs := OpenNeighbors(m, cur);
    var r := Relax(t, cur, nbs);
    forall k | k in nbs
      ensures k in r.dist
    {
      if k in t.visited {
        assert k == t.start || k in t.came;
      }
    }
  }

  /** A running step keeps `Complete`. */
  lemma StepComplete(m: Maze, s: Search)
    requires Valid(m, s) && Complete(m, s) && Step(m, s).status.Running?
    ensures Complete(m, Step(m, s).next)
  {
    var x := Pop(s.algo, s.frontier).0;
    var rest := Pop(s.algo, s.frontier).1;
    var r := Step(m, s).next;
    if x.pos in s.visited {
      assert r == s.(frontier := rest);
      CoverPop(s.dist.Keys, s.visited, s.visited, s.frontier, rest, x);
    } else {
      var t := Settle(s);
      var nbs := OpenNeighbors(m, x.pos);
      SettleValid(m, s);
      StepExpands(m, s);
      assert r == Relax(t, x.pos, nbs);
      CoverPop(s.dist.Keys, s.visited, t.visited, s.frontier, rest, x);
      RelaxFrontier(t, x.pos, nbs);
      Gained(t.frontier, r.frontier, Pushed(t, r, x.pos, nbs));
      NewKeysPushed(t, x.pos, nbs);
      CoverGain(t.dist.Keys, r.dist.Keys, t.visited, t.frontier, r.frontier, Pushed(t, r, x.pos, nbs));
      RelaxCloses(m, t, x.pos);
      ClosedAfter(m, s, t, r, x.pos);
    }
  }

  /** The open neighbours of the visited cells, the newly settled one
      included, all have distances after its loop. */
  lemma ClosedAfter(m: Maze, s: Search, t: Search, r: Search, cur: Pos)
    requires Shaped(m) && InBounds(m, cur)
    requires forall v, k :: Shaped(m) && v in s.visited && InBounds(m, v) && k in OpenNeighbors(m, v) ==> k in s.dist
    requires t.visited == s.visited + {cur} && r.visited == t.visited
    requires s.dist.Keys <= r.dist.Keys
    requires forall k :: k in OpenNeighbors(m, cur) ==> k in r.dist
    ensures forall v, k :: Shaped(m) && v in r.visited && InBounds(m, v) && k in OpenNeighbors(m, v) ==> k in r.dist
  {
  }

  /** Once the frontier is empty, the visited cells are closed under open
      steps, so a walk from the start never leaves them and never reaches
      the goal. */
  lemma ExhaustedUnreachable(m: Maze, s: Search, w: seq<Pos>)
    requires Valid(m, s) && Complete(m, s) && |s.frontier| == 0
    requires IsWalk(m, w) && w[0] == s.start
    ensures w[|w| - 1] != s.goal
  {
    assert s.start in s.visited;
    WalkStays(m, s, w, |w| - 1);
  }

  lemma {:induction false} WalkStays(m: Maze, s: Search, w: seq<Pos>, t: nat)
    requires Complete(m, s) && |s.frontier| == 0
    requires IsWalk(m, w) && w[0] in s.visited && t < |w|
    ensures w[t] in s.visited
  {
    if t > 0 {
      WalkStays(m, s, w, t - 1);
      assert w[t] in OpenNeighbors(m, w[t - 1]);
      assert w[t] in s.dist;
    }
  }

  /** A run that keeps `Complete` from its start finds the goal whenever a
      walk from the start reaches it. */
  lemma {:induction false} RunFinds(m: Maze, s: Search, w: seq<Pos>)
    requires Valid(m, s) && Complete(m, s)
    requires IsWalk(m, w) && w[0] == s.start && w[|w| - 1] == s.goal
    ensures Run(m, s).status.Found?
    decreases m.rows * m.cols - |s.visited|, |s.frontier|
  {
    var res := Step(m, s);
    StepValid(m, s);
    if res.status.Running? {
      StepProgress(m, s);
      VisitedBound(m, res.next);
      StepComplete(m, s);
      RunFinds(m, res.next, w);
    } else if res.status.Exhausted? {
      assert |s.frontier| == 0;
      ExhaustedUnreachable(m, s, w);
    }
  }

  /** `Run` from a fresh solver finds a path whenever the goal can be
      reached from the start through open walls; so "No path" is only ever
      reported when there is none. */
  lemma RunComplete(m: Maze, algo: Algo, start: Pos, goal: Pos, w: seq<Pos>)
    requires Shaped(m) && BoundaryIntact(m) && InBounds(m, start) && InBounds(m, goal)
    requires IsWalk(m, w) && w[0] == start && w[|w| - 1] == goal
    ensures Run(m, MakeSolver(algo, start, goal)).status.Found?
  {
    MakeSolverValid(m, algo, start, goal);
    MakeSolverComplete(m, algo, start, goal);
    RunFinds(m, MakeSolver(algo, start, goal), w);
  }
}
