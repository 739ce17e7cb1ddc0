/** The A* search engine: Manhattan heuristic, bounded four-neighbour
    expansion, a working list re-sorted by f-score on every iteration, and a
    relaxation step that only ever lowers g-scores. */
module AStar {
  import opened Scores
  import opened Grid
  import opened FScoreSort

  function Dist(x: nat, y: nat): nat {
    if x <= y then y - x else x - y
  }

  /** `calculateHeuristic`: the Manhattan distance between two positions. */
  function Heuristic(a: Coord, b: Coord): (h: nat)
    ensures h == 0 <==> a == b
  {
    Dist(a.col, b.col) + Dist(a.row, b.row)
  }

  /** One step changes the heuristic by exactly one, so it is consistent. */
  lemma HeuristicStep(a: Coord, b: Coord, f: Coord)
    ensures Heuristic(a, b) == Heuristic(b, a)
    ensures Adjacent(a, b) <==> Heuristic(a, b) == 1
    ensures Adjacent(a, b) ==> Heuristic(a, f) <= Heuristic(b, f) + 1
  {
  }

  lemma HeuristicTriangle(a: Coord, b: Coord, c: Coord)
    ensures Heuristic(a, c) <= Heuristic(a, b) + Heuristic(b, c)
  {
  }

  /** A walk of single orthogonal steps needs at least as many steps as the
      Manhattan distance between its ends. */
  lemma {:induction false} WalkLength(s: seq<Coord>)
    requires |s| >= 1
    requires forall i :: 0 <= i < |s| - 1 ==> Adjacent(s[i], s[i + 1])
    ensures Heuristic(s[0], s[|s| - 1]) < |s|
  {
    if |s| > 1 {
      WalkLength(s[1..]);
      assert s[1..][0] == s[1] && s[1..][|s| - 2] == s[|s| - 1];
      HeuristicTriangle(s[0], s[1], s[|s| - 1]);
      HeuristicStep(s[0], s[1], s[|s| - 1]);
    }
  }

  // ---------------------------------------------------------------- neighbours

  /** Where `d` lies relative to `c`: 0 up, 1 down, 2 left, 3 right. */
  function DirRank(c: Coord, d: Coord): nat {
    if d.row < c.row then 0
    else if d.row > c.row then 1
    else if d.col < c.col then 2
    else 3
  }

  predicate InDirectionOrder(c: Coord, s: seq<Coord>) {
    forall i, j :: 0 <= i < j < |s| ==> DirRank(c, s[i]) < DirRank(c, s[j])
  }

  /** The position one step from `c` in direction `dir` (0 up, 1 down,
      2 left, 3 right), when it lies inside the grid; the column bound is taken
      from the first row, as the source does. */
  function StepTo(g: Grid, c: Coord, dir: nat): Option<Coord>
    requires |g| > 0
  {
    if dir == 0 then (if c.row > 0 then Some(Coord(c.row - 1, c.col)) else None)
    else if dir == 1 then (if c.row < |g| - 1 then Some(Coord(c.row + 1, c.col)) else None)
    else if dir == 2 then (if c.col > 0 then Some(Coord(c.row, c.col - 1)) else None)
    else if dir == 3 then (if c.col < |g[0]| - 1 then Some(Coord(c.row, c.col + 1)) else None)
    else None
  }

  /** A step lands exactly on the in-bounds neighbour in that direction. */
  lemma StepToSpec(g: Grid, c: Coord, dir: nat, d: Coord)
    requires WellFormed(g) && InBounds(g, c) && dir < 4
    ensures StepTo(g, c, dir) == Some(d) <==> InBounds(g, d) && Adjacent(c, d) && DirRank(c, d) == dir
  {
    assert |g[c.row]| == |g[0]|;
    if d.row < |g| {
      assert |g[d.row]| == |g[0]|;
    }
  }

  lemma PrependCandidate(c: Coord, dir: nat, d: Coord, rest: seq<Coord>)
    requires DirRank(c, d) == dir
    requires forall i :: 0 <= i < |rest| ==> dir + 1 <= DirRank(c, rest[i])
    requires InDirectionOrder(c, rest)
    ensures InDirectionOrder(c, [d] + rest)
  {
    var s := [d] + rest;
    forall i, j | 0 <= i < j < |s|
      ensures DirRank(c, s[i]) < DirRank(c, s[j])
    {
      assert s[j] == rest[j - 1];
      if i > 0 {
        assert s[i] == rest[i - 1];
      }
    }
  }

  /** The positions pushed for directions `dir` to 3, in that order. */
  function Candidates(g: Grid, c: Coord, dir: nat): (r: seq<Coord>)
    requires WellFormed(g) && InBounds(g, c) && dir <= 4
    ensures |r| <= 4 - dir
    ensures forall i :: 0 <= i < |r| ==>
              InBounds(g, r[i]) && Adjacent(c, r[i]) && dir <= DirRank(c, r[i])
    ensures forall d :: InBounds(g, d) && Adjacent(c, d) && dir <= DirRank(c, d) ==> d in r
    ensures InDirectionOrder(c, r)
    decreases 4 - dir
  {
    if dir >= 4 then []
    else
      var rest := Candidates(g, c, dir + 1);
      assert forall d :: StepTo(g, c, dir) == Some(d) <==>
          InBounds(g, d) && Adjacent(c, d) && DirRank(c, d) == dir by {
        forall d {
          StepToSpec(g, c, dir, d);
        }
      }
      match StepTo(g, c, dir)
      case Some(d) =>
        PrependCandidate(c, dir, d, rest);
        [d] + rest
      case None => rest
  }

  /** The elements of `s` whose cell is not yet visited, in order. */
  function Unvisited(g: Grid, s: seq<Coord>): (r: seq<Coord>)
    requires AllIn(g, s)
    ensures |r| <= |s| && AllIn(g, r)
    ensures forall i :: 0 <= i < |r| ==> r[i] in s && !At(g, r[i]).isVisited
    ensures forall i :: 0 <= i < |s| && !At(g, s[i]).isVisited ==> s[i] in r
  {
    if |s| == 0 then []
    else
      var rest := Unvisited(g, s[1..]);
      if At(g, s[0]).isVisited then rest else [s[0]] + rest
  }

  lemma {:induction false} UnvisitedKeepsOrder(g: Grid, c: Coord, s: seq<Coord>)
    requires AllIn(g, s) && InDirectionOrder(c, s)
    ensures InDirectionOrder(c, Unvisited(g, s))
  {
    if |s| > 0 {
      var tail := s[1..];
      var rest := Unvisited(g, tail);
      assert InDirectionOrder(c, tail) by {
        forall i, j | 0 <= i < j < |tail|
          ensures DirRank(c, tail[i]) < DirRank(c, tail[j])
        {
          assert tail[i] == s[i + 1] && tail[j] == s[j + 1];
        }
      }
      UnvisitedKeepsOrder(g, c, tail);
      if !At(g, s[0]).isVisited {
        forall j | 0 <= j < |rest|
          ensures DirRank(c, s[0]) + 1 <= DirRank(c, rest[j])
        {
          assert rest[j] in tail;
          var k :| 0 <= k < |tail| && tail[k] == rest[j];
          assert s[k + 1] == rest[j];
        }
        PrependCandidate(c, DirRank(c, s[0]), s[0], rest);
      }
    }
  }

  /** `getUnvisitedNeighbors`. */
  function Neighbors(g: Grid, c: Coord): (r: seq<Coord>)
    requires WellFormed(g) && InBounds(g, c)
    ensures |r| <= 4 && AllIn(g, r)
    ensures forall i :: 0 <= i < |r| ==> Adjacent(c, r[i]) && !At(g, r[i]).isVisited
    ensures forall d :: InBounds(g, d) && Adjacent(c, d) && !At(g, d).isVisited ==> d in r
    ensures InDirectionOrder(c, r)
    ensures Distinct(r) && c !in r
  {
    var cands := Candidates(g, c, 0);
    UnvisitedKeepsOrder(g, c, cands);
    Unvisited(g, cands)
  }

  // ----------------------------------------------------------------- all nodes

  /** No position occurs twice, stated on multiplicities. It says the same as
      `Grid.Distinct` (see `DistinctIsUnique` and `UniqueIsDistinct`); the
      multiset form is the one the permutation reasoning of
      `ShiftPermutation` and `PopCheapest` works with. */
  ghost predicate Unique(s: seq<Coord>) {
    forall x :: multiset(s)[x] <= 1
  }

  lemma {:induction false} DistinctIsUnique(s: seq<Coord>)
    requires Distinct(s)
    ensures Unique(s)
  {
    if |s| > 0 {
      assert s == [s[0]] + s[1..];
      DistinctIsUnique(s[1..]);
      assert s[0] !in s[1..];
    }
  }

  lemma UniqueIsDistinct(s: seq<Coord>)
    requires Unique(s)
    ensures Distinct(s)
  {
    forall i, j | 0 <= i < j < |s|
      ensures s[i] != s[j]
    {
      assert s == s[..j] + s[j..];
      assert multiset(s) == multiset(s[..j]) + multiset(s[j..]);
      assert s[..j][i] == s[i] && s[j..][0] == s[j];
      assert multiset(s[..j])[s[i]] >= 1;
      assert multiset(s[j..])[s[j]] >= 1;
      assert multiset(s)[s[j]] <= 1;
    }
  }

  /** `getAllNodes`: the row-major flattening of the grid. */
  method AllNodes(g: Grid) returns (nodes: seq<Coord>)
    requires WellFormed(g)
    ensures |nodes| == |g| * |g[0]|
    ensures forall i :: 0 <= i < |nodes| ==>
              InBounds(g, nodes[i]) && nodes[i].row * |g[0]| + nodes[i].col == i
    ensures forall c :: InBounds(g, c) ==> c in nodes
    ensures Distinct(nodes)
  {
    var cols := |g[0]|;
    nodes := [];
    var r := 0;
    while r < |g|
      invariant 0 <= r <= |g|
      invariant |nodes| == r * cols
      invariant forall i :: 0 <= i < |nodes| ==>
                  InBounds(g, nodes[i]) && nodes[i].row * cols + nodes[i].col == i
      invariant forall c :: InBounds(g, c) && c.row < r ==> c in nodes
    {
      var c := 0;
      while c < |g[r]|
        invariant 0 <= c <= cols
        invariant |nodes| == r * cols + c
        invariant forall i :: 0 <= i < |nodes| ==>
                    InBounds(g, nodes[i]) && nodes[i].row * cols + nodes[i].col == i
        invariant forall d :: InBounds(g, d) && (d.row < r || (d.row == r && d.col < c)) ==> d in nodes
      {
        var x := Coord(r, c);
        assert forall i :: 0 <= i < |nodes| ==> nodes[i] != x;
        nodes := nodes + [x];
        c := c + 1;
      }
      assert (r + 1) * cols == r * cols + cols;
      r := r + 1;
    }
  }

  // ---------------------------------------------------------------- relaxation

  /** Start initialisation: distance and g-score 0, h-score and f-score the
      heuristic distance to the finish. */
  function InitStart(g: Grid, start: Coord, finish: Coord): (r: Grid)
    requires WellFormed(g) && InBounds(g, start)
    ensures WellFormed(r) && LayoutKept(g, r)
    ensures At(r, start).distance == Fin(0) && At(r, start).gScore == Fin(0)
    ensures At(r, start).hScore == Fin(Heuristic(start, finish))
    ensures At(r, start).fScore == At(r, start).hScore
    ensures At(r, start).previous == At(g, start).previous
    ensures At(r, start).isVisited == At(g, start).isVisited
    ensures forall d :: InBounds(g, d) && d != start ==> At(r, d) == At(g, d)
  {
    var h := Heuristic(start, finish);
    SetNode(g, start, At(g, start).(distance := Fin(0), gScore := Fin(0), hScore := Fin(h), fScore := Fin(0 + h)))
  }

  function MarkVisited(g: Grid, x: Coord): (r: Grid)
    requires WellFormed(g) && InBounds(g, x)
    ensures WellFormed(r) && LayoutKept(g, r)
    ensures At(r, x) == At(g, x).(isVisited := true)
    ensures forall d :: InBounds(g, d) && d != x ==> At(r, d) == At(g, d)
  {
    SetNode(g, x, At(g, x).(isVisited := true))
  }

  /** The body of the relaxation loop for one neighbour `c` of `cur`: when
      one more step from `cur` beats the neighbour's g-score, the neighbour
      takes the new g-score, its heuristic, their sum as f-score, the g-score
      as distance, and `cur` as predecessor; otherwise it is left as it was. */
  function RelaxOne(g: Grid, cur: Coord, c: Coord, finish: Coord): (n: Node)
    requires InBounds(g, cur) && InBounds(g, c)
    ensures Le(n.gScore, At(g, c).gScore)
    ensures n == At(g, c) <==> !Lt(Succ(At(g, cur).gScore), At(g, c).gScore)
    ensures n != At(g, c) ==>
              && At(g, cur).gScore.Fin?
              && n == At(g, c).(gScore := Fin(At(g, cur).gScore.n + 1),
                                hScore := Fin(Heuristic(Pos(At(g, c)), finish)),
                                fScore := Fin(At(g, cur).gScore.n + 1 + Heuristic(Pos(At(g, c)), finish)),
                                distance := Fin(At(g, cur).gScore.n + 1),
                                previous := Some(cur))
  {
    var node := At(g, cur);
    var neighbor := At(g, c);
    var gScore := Succ(node.gScore);
    if Lt(gScore, neighbor.gScore) then
      var h := Heuristic(Pos(neighbor), finish);
      neighbor.(gScore := gScore, hScore := Fin(h), fScore := Fin(gScore.n + h),
                distance := gScore, previous := Some(cur))
    else
      neighbor
  }

  /** `updateUnvisitedNeighborsAStar`: relaxes each listed neighbour in turn.
      As the neighbours are distinct and differ from `cur`, the result is the
      same as relaxing each of them against the grid as it was. */
  function Relax(g: Grid, cur: Coord, ns: seq<Coord>, finish: Coord): (r: Grid)
    requires WellFormed(g) && InBounds(g, cur) && AllIn(g, ns)
    requires Distinct(ns) && cur !in ns
    ensures WellFormed(r) && LayoutKept(g, r)
    ensures forall c :: InBounds(g, c) ==>
              At(r, c) == (if c in ns then RelaxOne(g, cur, c, finish) else At(g, c))
    decreases |ns|
  {
    if |ns| == 0 then g
    else
      var g1 := SetNode(g, ns[0], RelaxOne(g, cur, ns[0], finish));
      assert At(g1, cur) == At(g, cur);
      assert forall c :: c in ns[1..] ==> c != ns[0] && c in ns;
      Relax(g1, cur, ns[1..], finish)
  }

  // ---------------------------------------------------------------- invariants

  /** The scores of one cell agree with each other: either the cell has not
      been reached (everything infinite), or f = g + h with h the heuristic
      and the distance mirroring g. */
  predicate CellConsistent(n: Node, finish: Coord) {
    || (n.gScore == Inf && n.hScore == Inf && n.fScore == Inf && n.distance == Inf)
    || (&& n.gScore.Fin?
        && n.hScore == Fin(Heuristic(Pos(n), finish))
        && n.fScore == Fin(n.gScore.n + Heuristic(Pos(n), finish))
        && n.distance == n.gScore)
  }

  /** A predecessor link points at an adjacent, already expanded cell whose
      g-score is one less; a reached cell without predecessor is the start. */
  ghost predicate LinkOk(g: Grid, start: Coord, c: Coord)
    requires InBounds(g, c)
  {
    match At(g, c).previous
    case None => At(g, c).gScore.Fin? ==> c == start
    case Some(p) =>
      && InBounds(g, p) && Adjacent(p, c) && At(g, p).isVisited
      && At(g, p).gScore.Fin?
      && At(g, c).gScore == Fin(At(g, p).gScore.n + 1)
  }

  /** What holds of the search state at every iteration when the search
      starts from a reset snapshot. */
  ghost predicate SearchInvariant(g: Grid, start: Coord, finish: Coord) {
    && WellFormed(g) && InBounds(g, start)
    && At(g, start).gScore == Fin(0) && At(g, start).previous == None
    && (forall c :: InBounds(g, c) ==> CellConsistent(At(g, c), finish))
    && (forall c {:trigger LinkOk(g, start, c)} :: InBounds(g, c) ==> LinkOk(g, start, c))
    && (forall c :: InBounds(g, c) && At(g, c).isVisited ==> !At(g, c).isWall && At(g, c).gScore.Fin?)
  }

  lemma InitStartEstablishes(g: Grid, start: Coord, finish: Coord)
    requires WellFormed(g) && InBounds(g, start) && IsSearchReset(g)
    ensures SearchInvariant(InitStart(g, start, finish), start, finish)
  {
    var r := InitStart(g, start, finish);
    assert Pos(At(g, start)) == start;
    forall c | InBounds(r, c)
      ensures CellConsistent(At(r, c), finish) && LinkOk(r, start, c)
    {
      assert SearchFieldsReset(At(g, c));
    }
  }

  lemma MarkVisitedPreserves(g: Grid, x: Coord, start: Coord, finish: Coord)
    requires SearchInvariant(g, start, finish) && InBounds(g, x)
    requires !At(g, x).isWall && At(g, x).fScore != Inf
    ensures SearchInvariant(MarkVisited(g, x), start, finish)
  {
    var r := MarkVisited(g, x);
    assert CellConsistent(At(g, x), finish);
    forall c | InBounds(r, c)
      ensures CellConsistent(At(r, c), finish) && LinkOk(r, start, c)
    {
      assert CellConsistent(At(g, c), finish) && LinkOk(g, start, c);
      match At(g, c).previous
      case None =>
      case Some(p) =>
        if p == x {
          assert At(r, p) == At(g, p).(isVisited := true);
        } else {
          assert At(r, p) == At(g, p);
        }
    }
  }

  /** The expansion step of the loop: mark the cell visited, then relax its
      unvisited neighbours. The expanded cell only becomes visited; each
      unvisited cell next to it is relaxed against it; every other cell is
      left as it was. */
  function Expand(g: Grid, x: Coord, finish: Coord): (r: Grid)
    requires WellFormed(g) && InBounds(g, x)
    ensures WellFormed(r) && LayoutKept(g, r)
    ensures At(r, x) == At(g, x).(isVisited := true)
    ensures forall d :: InBounds(g, d) && d != x ==>
              At(r, d) == (if Adjacent(x, d) && !At(g, d).isVisited then RelaxOne(g, x, d, finish) else At(g, d))
    ensures ExpandedFrom(g, r, x, finish)
  {
    var marked := MarkVisited(g, x);
    var ns := Neighbors(marked, x);
    var r := Relax(marked, x, ns, finish);
    MarkThenRelax(g, marked, ns, r, x, finish);
    r
  }

  /** What `Expand` promises, as a relation between the grids before and
      after, so that the proofs below need not unfold it. */
  ghost predicate ExpandedFrom(g: Grid, r: Grid, x: Coord, finish: Coord) {
    && WellFormed(g) && InBounds(g, x) && WellFormed(r) && LayoutKept(g, r)
    && At(r, x) == At(g, x).(isVisited := true)
    && forall d :: InBounds(g, d) && d != x ==>
         At(r, d) == (if Adjacent(x, d) && !At(g, d).isVisited then RelaxOne(g, x, d, finish) else At(g, d))
  }

  /** Marking `x` visited and then relaxing the unvisited cells next to it
      is what `ExpandedFrom` describes. The premises are the contracts of
      `MarkVisited`, `Neighbors` and `Relax`. */
  lemma MarkThenRelax(g: Grid, marked: Grid, ns: seq<Coord>, r: Grid, x: Coord, finish: Coord)
    requires WellFormed(g) && InBounds(g, x)
    requires WellFormed(marked) && LayoutKept(g, marked)
    requires At(marked, x) == At(g, x).(isVisited := true)
    requires forall d :: InBounds(g, d) && d != x ==> At(marked, d) == At(g, d)
    requires AllIn(marked, ns) && x !in ns
    requires forall i :: 0 <= i < |ns| ==> Adjacent(x, ns[i]) && !At(marked, ns[i]).isVisited
    requires forall d :: InBounds(marked, d) && Adjacent(x, d) && !At(marked, d).isVisited ==> d in ns
    requires WellFormed(r) && LayoutKept(marked, r)
    requires forall c :: InBounds(marked, c) ==>
               At(r, c) == (if c in ns then RelaxOne(marked, x, c, finish) else At(marked, c))
    ensures ExpandedFrom(g, r, x, finish)
  {
    LayoutKeptTrans(g, marked, r);
    forall d | InBounds(g, d) && d != x
      ensures At(r, d) == (if Adjacent(x, d) && !At(g, d).isVisited then RelaxOne(g, x, d, finish) else At(g, d))
    {
      if Adjacent(x, d) && !At(g, d).isVisited {
        assert d in ns;
      }
    }
  }

  /** One cell after expansion: a relaxed cell links to the expanded cell;
      every other cell keeps a link whose target expansion left alone, or
      whose target is the expanded cell, now visited. */
  lemma ExpandKeepsCell(g: Grid, r: Grid, x: Coord, start: Coord, finish: Coord, c: Coord)
    requires SearchInvariant(g, start, finish) && ExpandedFrom(g, r, x, finish)
    requires !At(g, x).isWall && At(g, x).fScore != Inf
    requires InBounds(g, c)
    ensures CellConsistent(At(r, c), finish) && LinkOk(r, start, c)
    ensures At(r, c).isVisited ==> !At(r, c).isWall && At(r, c).gScore.Fin?
  {
    assert CellConsistent(At(g, x), finish);
    assert CellConsistent(At(g, c), finish) && LinkOk(g, start, c);
    if c != x && At(r, c) != At(g, c) {
      assert Pos(At(g, c)) == c;
    } else {
      match At(g, c).previous
      case None =>
      case Some(p) =>
        if p != x {
          assert At(r, p) == At(g, p);
        }
    }
  }

  lemma ExpandPreserves(g: Grid, r: Grid, x: Coord, start: Coord, finish: Coord)
    requires SearchInvariant(g, start, finish) && ExpandedFrom(g, r, x, finish)
    requires !At(g, x).isWall && At(g, x).fScore != Inf
    ensures SearchInvariant(r, start, finish)
  {
    assert At(r, start).gScore == Fin(0) && At(r, start).previous == None by {
      if start != x && Adjacent(x, start) && !At(g, start).isVisited {
        assert !Lt(Succ(At(g, x).gScore), At(g, start).gScore);
      }
    }
    forall c | InBounds(r, c)
      ensures CellConsistent(At(r, c), finish) && LinkOk(r, start, c)
      ensures At(r, c).isVisited ==> !At(r, c).isWall && At(r, c).gScore.Fin?
    {
      ExpandKeepsCell(g, r, x, start, finish, c);
    }
  }

  // ------------------------------------------------------------ shortest walks

  /** A walk of open cells from `start`: every cell inside the grid and not a
      wall, each one step from the cell before it. */
  ghost predicate OpenWalk(grid: Grid, start: Coord, w: seq<Coord>) {
    && |w| >= 1 && w[0] == start
    && (forall i :: 0 <= i < |w| ==> InBounds(grid, w[i]) && !At(grid, w[i]).isWall)
    && (forall i :: 0 <= i < |w| - 1 ==> Adjacent(w[i], w[i + 1]))
  }

  ghost predicate Reachable(grid: Grid, start: Coord, c: Coord) {
    exists w :: OpenWalk(grid, start, w) && w[|w| - 1] == c
  }

  /** `v` has a finite g-score no larger than the number of steps of any open
      walk from the start to it. */
  ghost predicate Settled(grid: Grid, g: Grid, start: Coord, v: Coord)
    requires InBounds(g, v)
  {
    forall w :: OpenWalk(grid, start, w) && w[|w| - 1] == v ==>
      At(g, v).gScore.Fin? && At(g, v).gScore.n < |w|
  }

  /** The frontier of the search on a reset snapshot: expanded cells are
      settled and gone from the working list, every open cell not yet
      expanded still waits in it, and every cell next to an expanded one has
      been relaxed against it. */
  ghost predicate Frontier(grid: Grid, g: Grid, work: seq<Coord>, start: Coord) {
    && (forall c :: InBounds(g, c) && At(g, c).isVisited ==> c !in work && Settled(grid, g, start, c))
    && (forall c :: InBounds(g, c) && !At(g, c).isWall && !At(g, c).isVisited ==> c in work)
    && (forall z, y :: InBounds(g, z) && InBounds(g, y) && Adjacent(z, y) && At(g, z).isVisited && !At(g, y).isVisited
          ==> Le(At(g, y).gScore, Succ(At(g, z).gScore)))
  }

  /** Walks only look at positions and walls, which the search never changes. */
  lemma OpenWalkLayout(a: Grid, b: Grid, start: Coord, w: seq<Coord>)
    requires LayoutKept(a, b)
    ensures OpenWalk(a, start, w) <==> OpenWalk(b, start, w)
    ensures OpenWalk(a, start, w) ==> AllIn(b, w)
  {
    forall i | 0 <= i < |w|
      ensures InBounds(a, w[i]) <==> InBounds(b, w[i])
      ensures InBounds(a, w[i]) ==> At(a, w[i]).isWall == At(b, w[i]).isWall
    {
      if w[i].row < |a| {
        assert |a[w[i].row]| == |b[w[i].row]|;
        if InBounds(a, w[i]) {
          assert SameLayout(At(a, w[i]), At(b, w[i]));
        }
      }
    }
  }

  lemma ReachableLayout(a: Grid, b: Grid, start: Coord, c: Coord)
    requires LayoutKept(a, b)
    ensures Reachable(a, start, c) <==> Reachable(b, start, c)
  {
    if Reachable(a, start, c) {
      var w :| OpenWalk(a, start, w) && w[|w| - 1] == c;
      OpenWalkLayout(a, b, start, w);
    }
    if Reachable(b, start, c) {
      var w :| OpenWalk(b, start, w) && w[|w| - 1] == c;
      OpenWalkLayout(a, b, start, w);
    }
  }

  lemma {:induction false} OpenWalkPrefix(grid: Grid, start: Coord, w: seq<Coord>, k: nat)
    requires OpenWalk(grid, start, w) && 1 <= k <= |w|
    ensures OpenWalk(grid, start, w[..k])
  {
    assert forall i :: 0 <= i < k ==> w[..k][i] == w[i];
  }

  /** The first cell on a walk that has not been expanded. */
  lemma FirstUnexpanded(g: Grid, w: seq<Coord>) returns (k: nat)
    requires |w| >= 1 && AllIn(g, w) && !At(g, w[|w| - 1]).isVisited
    ensures k < |w| && !At(g, w[k]).isVisited
    ensures forall i :: 0 <= i < k ==> At(g, w[i]).isVisited
  {
    k := 0;
    while At(g, w[k]).isVisited
      invariant k < |w| && forall i :: 0 <= i < k ==> At(g, w[i]).isVisited
      decreases |w| - k
    {
      k := k + 1;
    }
  }

  /** The first unexpanded cell of an open walk waits in the working list,
      reached in no more steps than its place on the walk: either it is the
      start, or the cell before it was expanded, settled, and relaxed it. */
  lemma WaitingOnWalk(grid: Grid, g: Grid, work: seq<Coord>, start: Coord, finish: Coord, w: seq<Coord>, k: nat)
    requires LayoutKept(grid, g) && SearchInvariant(g, start, finish) && Frontier(grid, g, work, start)
    requires OpenWalk(grid, start, w) && AllIn(g, w) && k < |w|
    requires !At(g, w[k]).isVisited && forall i :: 0 <= i < k ==> At(g, w[i]).isVisited
    ensures w[k] in work && At(g, w[k]).gScore.Fin? && At(g, w[k]).gScore.n <= k
  {
    var y := w[k];
    assert SameLayout(At(grid, y), At(g, y));
    if k > 0 {
      var z := w[k - 1];
      OpenWalkPrefix(grid, start, w, k);
      assert w[..k][k - 1] == z;
      assert Settled(grid, g, start, z);
      assert Adjacent(z, y);
    }
  }

  /** Every cell in the working list is at least as dear as the popped one. */
  lemma PoppedLeast(g: Grid, work: seq<Coord>, x: Coord, rest: seq<Coord>, y: Coord)
    requires PoppedFrom(g, work, x, rest) && y in work
    ensures InBounds(g, y) && Le(Key(g, x), Key(g, y))
  {
    if y != x {
      var j :| 0 <= j < |rest| && rest[j] == y;
    }
  }

  /** The open walk from the first unexpanded cell `y` on to `x` bounds the
      g-score of `x` when `x` is no dearer than `y`: the heuristic of `y` is
      at most the steps left to `x` plus the heuristic of `x`. */
  lemma ThroughFrontier(g: Grid, finish: Coord, x: Coord, y: Coord, w: seq<Coord>, k: nat)
    requires InBounds(g, x) && InBounds(g, y) && Pos(At(g, x)) == x && Pos(At(g, y)) == y
    requires CellConsistent(At(g, x), finish) && CellConsistent(At(g, y), finish)
    requires At(g, y).gScore.Fin? && At(g, y).gScore.n <= k && Le(Key(g, x), Key(g, y))
    requires k < |w| && w[k] == y && w[|w| - 1] == x
    requires forall i :: 0 <= i < |w| - 1 ==> Adjacent(w[i], w[i + 1])
    ensures At(g, x).gScore.Fin? && At(g, x).gScore.n < |w|
  {
    var tail := w[k..];
    forall i | 0 <= i < |tail| - 1
      ensures Adjacent(tail[i], tail[i + 1])
    {
      assert tail[i] == w[k + i] && tail[i + 1] == w[k + i + 1];
    }
    WalkLength(tail);
    assert tail[0] == y && tail[|tail| - 1] == x;
    HeuristicTriangle(y, x, finish);
  }

  /** The popped cell is reached, and within the length of any open walk to
      a cell that waits: take the first unexpanded cell `y` on the walk; it
      waits, so the popped cell is no dearer than `y`. */
  lemma PoppedWithinWalk(grid: Grid, g: Grid, work: seq<Coord>, start: Coord, finish: Coord,
                         x: Coord, rest: seq<Coord>, w: seq<Coord>)
    requires LayoutKept(grid, g) && SearchInvariant(g, start, finish) && Frontier(grid, g, work, start)
    requires PoppedFrom(g, work, x, rest)
    requires OpenWalk(grid, start, w) && w[|w| - 1] in work
    ensures At(g, x).fScore.Fin?
    ensures w[|w| - 1] == x ==> At(g, x).gScore.Fin? && At(g, x).gScore.n < |w|
  {
    OpenWalkLayout(grid, g, start, w);
    assert !At(g, w[|w| - 1]).isVisited;
    var k := FirstUnexpanded(g, w);
    WaitingOnWalk(grid, g, work, start, finish, w, k);
    var y := w[k];
    PoppedLeast(g, work, x, rest, y);
    assert Pos(At(g, y)) == y && CellConsistent(At(g, y), finish);
    assert Pos(At(g, x)) == x && CellConsistent(At(g, x), finish);
    if w[|w| - 1] == x && y != x {
      ThroughFrontier(g, finish, x, y, w, k);
    }
  }

  /** The cell popped with a finite f-score is settled. */
  lemma PoppedSettled(grid: Grid, g: Grid, work: seq<Coord>, start: Coord, finish: Coord, x: Coord, rest: seq<Coord>)
    requires LayoutKept(grid, g) && SearchInvariant(g, start, finish) && Frontier(grid, g, work, start)
    requires PoppedFrom(g, work, x, rest)
    ensures Settled(grid, g, start, x)
  {
    forall w | OpenWalk(grid, start, w) && w[|w| - 1] == x
      ensures At(g, x).gScore.Fin? && At(g, x).gScore.n < |w|
    {
      PoppedWithinWalk(grid, g, work, start, finish, x, rest, w);
    }
  }

  /** Every expanded cell is settled. */
  ghost predicate AllSettled(grid: Grid, g: Grid, start: Coord) {
    forall c :: InBounds(g, c) && At(g, c).isVisited ==> Settled(grid, g, start, c)
  }

  /** Marking the popped finish visited settles it, and the cells expanded
      before keep their g-scores. */
  lemma FoundSettled(grid: Grid, g: Grid, work: seq<Coord>, start: Coord, finish: Coord, rest: seq<Coord>)
    requires LayoutKept(grid, g) && SearchInvariant(g, start, finish) && Frontier(grid, g, work, start)
    requires PoppedFrom(g, work, finish, rest)
    ensures AllSettled(grid, MarkVisited(g, finish), start)
  {
    var r := MarkVisited(g, finish);
    PoppedSettled(grid, g, work, start, finish, finish, rest);
    forall c | InBounds(r, c) && At(r, c).isVisited
      ensures Settled(grid, r, start, c)
    {
      assert |g[c.row]| == |r[c.row]|;
      assert At(r, c).gScore == At(g, c).gScore;
      assert Settled(grid, g, start, c);
    }
  }

  lemma FrontierStart(grid: Grid, work: seq<Coord>, start: Coord, finish: Coord)
    requires WellFormed(grid) && InBounds(grid, start) && IsSearchReset(grid)
    requires forall c :: InBounds(grid, c) ==> c in work
    ensures Frontier(grid, InitStart(grid, start, finish), work, start)
  {
    var g := InitStart(grid, start, finish);
    forall c | InBounds(g, c)
      ensures InBounds(grid, c) && !At(g, c).isVisited
    {
      assert |g[c.row]| == |grid[c.row]|;
      assert SearchFieldsReset(At(grid, c));
    }
  }

  lemma FrontierSkip(grid: Grid, g: Grid, work: seq<Coord>, start: Coord, x: Coord, rest: seq<Coord>)
    requires Frontier(grid, g, work, start) && PoppedFrom(g, work, x, rest) && At(g, x).isWall
    ensures Frontier(grid, g, rest, start)
  {
  }

  /** Expansion keeps each cell next to an expanded cell relaxed: the
      expanded cell relaxes its own unvisited neighbours, and otherwise
      g-scores only drop on unvisited cells while expanded ones keep theirs. */
  lemma ExpandKeepsRelaxed(grid: Grid, g: Grid, r: Grid, work: seq<Coord>, start: Coord, finish: Coord,
                           x: Coord, z: Coord, y: Coord)
    requires Frontier(grid, g, work, start) && ExpandedFrom(g, r, x, finish) && !At(g, x).isVisited
    requires InBounds(r, z) && InBounds(r, y) && Adjacent(z, y) && At(r, z).isVisited && !At(r, y).isVisited
    ensures Le(At(r, y).gScore, Succ(At(r, z).gScore))
  {
    assert InBounds(g, z) && InBounds(g, y) by {
      assert |g[z.row]| == |r[z.row]| && |g[y.row]| == |r[y.row]|;
    }
    assert y != x;
    assert At(r, z).gScore == At(g, z).gScore;
    if z != x {
      assert At(g, z).isVisited;
      assert Le(At(g, y).gScore, Succ(At(g, z).gScore));
    }
  }

  lemma FrontierExpand(grid: Grid, g: Grid, r: Grid, work: seq<Coord>, start: Coord, finish: Coord,
                       x: Coord, rest: seq<Coord>)
    requires LayoutKept(grid, g) && SearchInvariant(g, start, finish) && Frontier(grid, g, work, start)
    requires PoppedFrom(g, work, x, rest) && ExpandedFrom(g, r, x, finish) && At(g, x).fScore != Inf
    ensures Frontier(grid, r, rest, start)
  {
    PoppedSettled(grid, g, work, start, finish, x, rest);
    assert !At(g, x).isVisited;
    forall c | InBounds(r, c)
      ensures InBounds(g, c) && At(r, c).isWall == At(g, c).isWall
      ensures At(r, c).isVisited == (c == x || At(g, c).isVisited)
      ensures At(r, c).isVisited ==> At(r, c).gScore == At(g, c).gScore
    {
      assert |g[c.row]| == |r[c.row]|;
      assert SameLayout(At(g, c), At(r, c));
    }
    forall c | InBounds(r, c) && At(r, c).isVisited
      ensures c !in rest && Settled(grid, r, start, c)
    {
      assert Settled(grid, g, start, c);
    }
    forall z, y | InBounds(r, z) && InBounds(r, y) && Adjacent(z, y) && At(r, z).isVisited && !At(r, y).isVisited
      ensures Le(At(r, y).gScore, Succ(At(r, z).gScore))
    {
      ExpandKeepsRelaxed(grid, g, r, work, start, finish, x, z, y);
    }
  }

  /** When the cheapest waiting cell has an infinite f-score, no open walk
      leads from the start to a waiting finish. */
  lemma NoWalkWhenStuck(grid: Grid, g: Grid, work: seq<Coord>, start: Coord, finish: Coord, x: Coord, rest: seq<Coord>)
    requires LayoutKept(grid, g) && SearchInvariant(g, start, finish) && Frontier(grid, g, work, start)
    requires PoppedFrom(g, work, x, rest) && At(g, x).fScore == Inf
    requires InBounds(grid, finish) && (finish in work || At(grid, finish).isWall)
    ensures !Reachable(grid, start, finish)
  {
    if Reachable(grid, start, finish) {
      var w :| OpenWalk(grid, start, w) && w[|w| - 1] == finish;
      PoppedWithinWalk(grid, g, work, start, finish, x, rest, w);
    }
  }

  // -------------------------------------------------------------------- search

  /** Shifting the head off a permutation of a list without repetitions. */
  lemma ShiftPermutation(work: seq<Coord>, sorted: seq<Coord>)
    requires |sorted| > 0 && multiset(sorted) == multiset(work) && Unique(work)
    ensures multiset(work) == multiset{sorted[0]} + multiset(sorted[1..])
    ensures sorted[0] in work && sorted[0] !in sorted[1..]
    ensures Unique(sorted[1..])
    ensures forall y :: y in sorted[1..] ==> y in work
    ensures forall y :: y in work && y != sorted[0] ==> y in sorted[1..]
  {
    assert sorted == [sorted[0]] + sorted[1..];
    assert multiset(sorted) == multiset{sorted[0]} + multiset(sorted[1..]);
    assert sorted[0] in multiset(work);
    forall y | y in sorted[1..]
      ensures y in work
    {
      assert y in multiset(sorted[1..]);
      assert multiset(work)[y] >= multiset(sorted[1..])[y];
      assert y in multiset(work);
    }
    forall y | y in work && y != sorted[0]
      ensures y in sorted[1..]
    {
      assert y in multiset(work);
      assert multiset(work)[y] == multiset(sorted[1..])[y];
    }
    forall x
      ensures multiset(sorted[1..])[x] <= 1
    {
      assert multiset(work)[x] <= 1;
      assert multiset(work)[x] == multiset{sorted[0]}[x] + multiset(sorted[1..])[x];
    }
  }

  /** The selection step of the loop: sort the working list by f-score, then
      shift its head off. Exactly one element leaves the list and it has the
      least f-score of all (`PoppedFrom`). The taken cell followed by what is
      left is the stable sort of the list: sorted by f-score, with the cells
      of each f-score in their old order. */
  method PopCheapest(g: Grid, work: seq<Coord>) returns (closest: Coord, rest: seq<Coord>)
    requires AllIn(g, work) && |work| > 0 && Unique(work)
    ensures PoppedFrom(g, work, closest, rest)
    ensures AllIn(g, [closest] + rest) && Sorted(g, [closest] + rest)
    ensures forall k :: WithKey(g, [closest] + rest, k) == WithKey(g, work, k)
  {
    var sorted := SortByFScore(g, work);
    ShiftPermutation(work, sorted);
    closest, rest := sorted[0], sorted[1..];
    assert sorted == [closest] + rest;
    forall k
      ensures WithKey(g, [closest] + rest, k) == WithKey(g, work, k)
    {
      SortStable(g, work, k);
    }
  }

  /** What `PopCheapest` promises about the cell it takes and the list it
      leaves: the list loses exactly that cell, stays free of repeats, and
      holds nothing cheaper than it. */
  ghost predicate PoppedFrom(g: Grid, work: seq<Coord>, x: Coord, rest: seq<Coord>) {
    && AllIn(g, work) && Unique(work)
    && multiset(work) == multiset{x} + multiset(rest)
    && x in work && x !in rest && InBounds(g, x)
    && |rest| == |work| - 1 && AllIn(g, rest) && Unique(rest)
    && (forall y :: y in rest ==> y in work)
    && (forall y :: y in work && y != x ==> y in rest)
    && (forall i :: 0 <= i < |rest| ==> Le(Key(g, x), Key(g, rest[i])))
  }

  /** Ties are broken by the old order: a popped head that keeps the order of
      its f-score class is the first cell of that f-score in the list. */
  lemma PopTieBreak(g: Grid, work: seq<Coord>, closest: Coord, rest: seq<Coord>)
    requires AllIn(g, work) && AllIn(g, [closest] + rest)
    requires forall k :: WithKey(g, [closest] + rest, k) == WithKey(g, work, k)
    ensures InBounds(g, closest)
    ensures WithKey(g, work, Key(g, closest)) != [] && WithKey(g, work, Key(g, closest))[0] == closest
  {
    assert ([closest] + rest)[0] == closest;
    var k := Key(g, closest);
    assert ([closest] + rest)[0] == closest && ([closest] + rest)[1..] == rest;
    assert WithKey(g, [closest] + rest, k) == [closest] + WithKey(g, rest, k);
  }

  /** Why the search loop ended. `Found`: the finish was expanded.
      `Unreachable`: the cheapest remaining cell had an infinite f-score.
      `Exhausted`: the working list ran empty, where the source falls off the
      end of the function and returns `undefined`. */
  datatype Stop = Found | Unreachable | Exhausted

  /** The loop invariant of `Search`: the search state `g` keeps the layout of
      the input grid; the working list holds each remaining position once; the
      expanded positions are distinct non-wall cells marked visited and no
      longer in the working list; the finish is still waiting unless it is a
      wall; and at most one cell leaves the list per iteration. On a reset
      snapshot the search invariant, the expansion order and the frontier
      hold as well. */
  ghost predicate Progress(grid: Grid, g: Grid, work: seq<Coord>, visited: seq<Coord>, start: Coord, finish: Coord) {
    && WellFormed(grid) && InBounds(grid, finish)
    && WellFormed(g) && LayoutKept(grid, g)
    && AllIn(g, work) && Unique(work)
    && VisitedOk(grid, g, work, visited)
    && (finish in work || At(grid, finish).isWall)
    && |visited| + |work| <= |grid| * |grid[0]|
    && (IsSearchReset(grid) ==>
          SearchInvariant(g, start, finish) && ExpansionOrdered(g, work, visited) && Frontier(grid, g, work, start))
  }

  /** The expanded cells: distinct, inside the grid, not walls, marked
      visited in `g`, and gone from the working list. */
  ghost predicate VisitedOk(grid: Grid, g: Grid, work: seq<Coord>, visited: seq<Coord>) {
    && Distinct(visited)
    && forall i :: 0 <= i < |visited| ==>
         && InBounds(grid, visited[i])
         && !At(grid, visited[i]).isWall
         && InBounds(g, visited[i]) && At(g, visited[i]).isVisited
         && visited[i] !in work
  }

  /** The expansion order of A* with a consistent heuristic: the expanded
      cells come in order of non-decreasing f-score, and nothing left in the
      working list is cheaper than the last of them. */
  ghost predicate ExpansionOrdered(g: Grid, work: seq<Coord>, visited: seq<Coord>) {
    && AllIn(g, work) && AllIn(g, visited)
    && Sorted(g, visited)
    && (|visited| > 0 ==> forall i :: 0 <= i < |work| ==> Le(Key(g, visited[|visited| - 1]), Key(g, work[i])))
  }

  lemma OrderSkip(g: Grid, work: seq<Coord>, visited: seq<Coord>, x: Coord, rest: seq<Coord>)
    requires PoppedFrom(g, work, x, rest) && ExpansionOrdered(g, work, visited)
    ensures ExpansionOrdered(g, rest, visited)
  {
    if |visited| > 0 {
      forall i | 0 <= i < |rest|
        ensures Le(Key(g, visited[|visited| - 1]), Key(g, rest[i]))
      {
        assert rest[i] in work;
        var j :| 0 <= j < |work| && work[j] == rest[i];
      }
    }
  }

  /** Appending a cell no cheaper than the last one keeps the order, provided
      the scores of the listed cells are those of `g`. */
  lemma OrderAppend(g: Grid, r: Grid, visited: seq<Coord>, x: Coord)
    requires AllIn(g, visited) && Sorted(g, visited) && AllIn(r, visited)
    requires InBounds(g, x) && InBounds(r, x) && Key(r, x) == Key(g, x)
    requires forall i :: 0 <= i < |visited| ==> Key(r, visited[i]) == Key(g, visited[i])
    requires |visited| > 0 ==> Le(Key(g, visited[|visited| - 1]), Key(g, x))
    ensures AllIn(r, visited + [x]) && Sorted(r, visited + [x])
  {
    var v := visited + [x];
    forall i, j | 0 <= i < j < |v|
      ensures Le(Key(r, v[i]), Key(r, v[j]))
    {
      if j == |visited| && i < |visited| - 1 {
        LtStrictTotalOrder(Key(g, v[i]), Key(g, visited[|visited| - 1]), Key(g, x));
      }
    }
  }

  /** A cell no cheaper than the expanded one stays no cheaper: a relaxed
      neighbour's new f-score is one step more than the expanded cell's
      g-score plus its own heuristic, and one step changes the heuristic by
      at most one. */
  lemma ExpandKeepsAbove(g: Grid, r: Grid, x: Coord, start: Coord, finish: Coord, y: Coord)
    requires SearchInvariant(g, start, finish) && ExpandedFrom(g, r, x, finish)
    requires At(g, x).fScore != Inf && InBounds(g, y) && y != x
    requires Le(Key(g, x), Key(g, y))
    ensures InBounds(r, y) && Le(Key(g, x), Key(r, y))
  {
    assert Pos(At(g, x)) == x;
    assert CellConsistent(At(g, x), finish);
    if At(r, y) != At(g, y) {
      assert Pos(At(g, y)) == y;
      HeuristicStep(x, y, finish);
    }
  }

  /** Expanding the cheapest cell keeps the expansion order. Expansion leaves
      the scores of the expanded cell and of the cells expanded before it
      alone, since relaxation only touches unvisited cells. */
  lemma OrderExpand(g: Grid, r: Grid, work: seq<Coord>, visited: seq<Coord>, start: Coord, finish: Coord,
                    x: Coord, rest: seq<Coord>)
    requires SearchInvariant(g, start, finish) && ExpandedFrom(g, r, x, finish)
    requires ExpansionOrdered(g, work, visited)
    requires forall i :: 0 <= i < |visited| ==> At(g, visited[i]).isVisited
    requires x in work && At(g, x).fScore != Inf && AllIn(g, rest)
    requires forall i :: 0 <= i < |rest| ==> rest[i] != x && Le(Key(g, x), Key(g, rest[i]))
    ensures ExpansionOrdered(r, rest, visited + [x])
  {
    forall i | 0 <= i < |visited|
      ensures InBounds(r, visited[i]) && Key(r, visited[i]) == Key(g, visited[i])
    {
      assert InBounds(g, visited[i]);
    }
    var j :| 0 <= j < |work| && work[j] == x;
    assert |visited| > 0 ==> Le(Key(g, visited[|visited| - 1]), Key(g, work[j]));
    OrderAppend(g, r, visited, x);
    forall i | 0 <= i < |rest|
      ensures InBounds(r, rest[i]) && Le(Key(r, x), Key(r, rest[i]))
    {
      ExpandKeepsAbove(g, r, x, start, finish, rest[i]);
    }
  }

  lemma OrderFound(g: Grid, work: seq<Coord>, visited: seq<Coord>, finish: Coord)
    requires WellFormed(g) && AllIn(g, work) && finish in work && ExpansionOrdered(g, work, visited)
    ensures AllIn(MarkVisited(g, finish), visited + [finish])
    ensures Sorted(MarkVisited(g, finish), visited + [finish])
  {
    var r := MarkVisited(g, finish);
    var j :| 0 <= j < |work| && work[j] == finish;
    assert |visited| > 0 ==> Le(Key(g, visited[|visited| - 1]), Key(g, work[j]));
    forall i | 0 <= i < |visited|
      ensures InBounds(r, visited[i]) && Key(r, visited[i]) == Key(g, visited[i])
    {
      assert InBounds(g, visited[i]);
    }
    OrderAppend(g, r, visited, finish);
  }

  lemma ExtendVisited(grid: Grid, g: Grid, r: Grid, work: seq<Coord>, rest: seq<Coord>, visited: seq<Coord>, x: Coord)
    requires VisitedOk(grid, g, work, visited)
    requires InBounds(grid, x) && !At(grid, x).isWall && InBounds(r, x) && At(r, x).isVisited
    requires x in work && x !in rest && forall y :: y in rest ==> y in work
    requires SameShape(g, r)
    requires forall d :: InBounds(g, d) && d != x ==> At(r, d).isVisited == At(g, d).isVisited
    ensures VisitedOk(grid, r, rest, visited + [x])
  {
    var v := visited + [x];
    forall i | 0 <= i < |v|
      ensures InBounds(grid, v[i]) && !At(grid, v[i]).isWall && InBounds(r, v[i]) && At(r, v[i]).isVisited && v[i] !in rest
    {
      if i < |visited| {
        assert v[i] == visited[i] && v[i] != x;
        assert |g[v[i].row]| == |r[v[i].row]|;
      }
    }
  }

  lemma SkipWallStep(grid: Grid, g: Grid, work: seq<Coord>, visited: seq<Coord>, start: Coord, finish: Coord,
                     x: Coord, rest: seq<Coord>)
    requires Progress(grid, g, work, visited, start, finish)
    requires PoppedFrom(g, work, x, rest) && At(g, x).isWall
    ensures Progress(grid, g, rest, visited, start, finish)
  {
    if finish == x {
      assert SameLayout(At(grid, finish), At(g, finish));
    }
    if IsSearchReset(grid) {
      OrderSkip(g, work, visited, x, rest);
      FrontierSkip(grid, g, work, start, x, rest);
    }
  }

  lemma ExpandStep(grid: Grid, g: Grid, work: seq<Coord>, visited: seq<Coord>, start: Coord, finish: Coord,
                   x: Coord, rest: seq<Coord>, r: Grid)
    requires Progress(grid, g, work, visited, start, finish)
    requires PoppedFrom(g, work, x, rest) && ExpandedFrom(g, r, x, finish)
    requires !At(g, x).isWall && At(g, x).fScore != Inf && x != finish
    ensures Progress(grid, r, rest, visited + [x], start, finish)
  {
    if IsSearchReset(grid) {
      ExpandPreserves(g, r, x, start, finish);
      OrderExpand(g, r, work, visited, start, finish, x, rest);
      FrontierExpand(grid, g, r, work, start, finish, x, rest);
    }
    LayoutKeptTrans(grid, g, r);
    assert AllIn(r, rest) by {
      forall i | 0 <= i < |rest|
        ensures InBounds(r, rest[i])
      {
        assert |g[rest[i].row]| == |r[rest[i].row]|;
      }
    }
    assert SameLayout(At(grid, x), At(g, x));
    assert forall d :: InBounds(g, d) && d != x ==> At(r, d).isVisited == At(g, d).isVisited;
    ExtendVisited(grid, g, r, work, rest, visited, x);
    assert finish in rest || At(grid, finish).isWall;
  }

  lemma FoundStep(grid: Grid, g: Grid, work: seq<Coord>, visited: seq<Coord>, start: Coord, finish: Coord,
                  rest: seq<Coord>)
    requires Progress(grid, g, work, visited, start, finish)
    requires PoppedFrom(g, work, finish, rest) && !At(g, finish).isWall
    requires At(g, finish).fScore != Inf
    ensures WellFormed(MarkVisited(g, finish)) && LayoutKept(grid, MarkVisited(g, finish))
    ensures VisitedOk(grid, MarkVisited(g, finish), rest, visited + [finish])
    ensures |visited + [finish]| <= |grid| * |grid[0]|
    ensures IsSearchReset(grid) ==> SearchInvariant(MarkVisited(g, finish), start, finish)
    ensures IsSearchReset(grid) ==>
              AllIn(MarkVisited(g, finish), visited + [finish]) && Sorted(MarkVisited(g, finish), visited + [finish])
    ensures IsSearchReset(grid) ==> AllSettled(grid, MarkVisited(g, finish), start)
  {
    var r := MarkVisited(g, finish);
    if IsSearchReset(grid) {
      MarkVisitedPreserves(g, finish, start, finish);
      OrderFound(g, work, visited, finish);
      FoundSettled(grid, g, work, start, finish, rest);
    }
    LayoutKeptTrans(grid, g, r);
    assert SameLayout(At(grid, finish), At(g, finish));
    ExtendVisited(grid, g, r, work, rest, visited, finish);
  }

  /** Before the first iteration: every position waits in the working list
      and only the start has been initialised. */
  lemma StartProgress(grid: Grid, work: seq<Coord>, start: Coord, finish: Coord)
    requires WellFormed(grid) && InBounds(grid, start) && InBounds(grid, finish)
    requires |work| == |grid| * |grid[0]| && AllIn(grid, work) && Distinct(work)
    requires forall c :: InBounds(grid, c) ==> c in work
    ensures Progress(grid, InitStart(grid, start, finish), work, [], start, finish)
  {
    DistinctIsUnique(work);
    var g := InitStart(grid, start, finish);
    if IsSearchReset(grid) {
      InitStartEstablishes(grid, start, finish);
      FrontierStart(grid, work, start, finish);
    }
    assert AllIn(g, work) by {
      forall i | 0 <= i < |work|
        ensures InBounds(g, work[i])
      {
        assert |g[work[i].row]| == |grid[work[i].row]|;
      }
    }
  }

  /** `astar`: repeatedly sort the working list by f-score, take its head,
      skip walls, stop on an infinite f-score, otherwise expand the cell and
      relax its unvisited neighbours. Returns the expanded cells in order. */
  method Search(grid: Grid, start: Coord, finish: Coord) returns (visited: seq<Coord>, stop: Stop, final: Grid)
    requires WellFormed(grid) && InBounds(grid, start) && InBounds(grid, finish)
    ensures WellFormed(final) && LayoutKept(grid, final)
    ensures forall i :: 0 <= i < |visited| ==>
              && InBounds(grid, visited[i])
              && !At(grid, visited[i]).isWall
              && At(final, visited[i]).isVisited
    ensures Distinct(visited)
    ensures |visited| <= |grid| * |grid[0]|
    ensures finish in visited <==> stop == Found
    ensures stop == Found ==> visited[|visited| - 1] == finish
    ensures stop == Exhausted ==> At(grid, finish).isWall
    ensures stop == Unreachable ==> At(grid, finish).isWall || At(final, finish).fScore == Inf
    ensures IsSearchReset(grid) ==> SearchInvariant(final, start, finish)
    ensures IsSearchReset(grid) ==> AllIn(final, visited) && Sorted(final, visited)
    ensures IsSearchReset(grid) ==> AllSettled(grid, final, start)
    ensures IsSearchReset(grid) && Reachable(grid, start, finish) ==> stop == Found
  {
    var work := AllNodes(grid);
    var g := InitStart(grid, start, finish);
    visited := [];
    StartProgress(grid, work, start, finish);
    while |work| > 0
      invariant Progress(grid, g, work, visited, start, finish)
      decreases |work|
    {
      var closest, rest := PopCheapest(g, work);
      if At(g, closest).isWall {
        SkipWallStep(grid, g, work, visited, start, finish, closest, rest);
        work := rest;
        continue;
      }
      if At(g, closest).fScore == Inf {
        if IsSearchReset(grid) {
          NoWalkWhenStuck(grid, g, work, start, finish, closest, rest);
        }
        stop := Unreachable;
        final := g;
        return;
      }
      if closest == finish {
        FoundStep(grid, g, work, visited, start, finish, rest);
        visited := visited + [closest];
        stop := Found;
        final := MarkVisited(g, closest);
        return;
      }
      var next := Expand(g, closest, finish);
      ExpandStep(grid, g, work, visited, start, finish, closest, rest, next);
      g := next;
      visited := visited + [closest];
      work := rest;
    }
    stop := Exhausted;
    final := g;
  }
}
