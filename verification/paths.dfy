/** `getNodesInShortestPathOrder`: follows predecessor links back from a cell
    and returns the chain in start-to-end order. */
module Paths {
  import opened Scores
  import opened Grid
  import opened AStar

  function Rank(g: Grid, c: Coord): nat
    requires InBounds(g, c)
  {
    match At(g, c).gScore
    case Fin(n) => n
    case Inf => 0
  }

  /** The chain of predecessors ending at `c`: it ends with `c`, its first
      cell has no predecessor, and each cell is the predecessor of the next. */
  function PathTo(g: Grid, c: Coord): (path: seq<Coord>)
    requires InBounds(g, c) && LinksRanked(g)
    ensures |path| >= 1 && path[|path| - 1] == c
    ensures AllIn(g, path)
    ensures At(g, path[0]).previous == None
    ensures forall i :: 0 <= i < |path| - 1 ==> At(g, path[i + 1]).previous == Some(path[i])
    decreases Rank(g, c)
  {
    assert RankedLink(g, c);
    match At(g, c).previous
    case None => [c]
    case Some(p) =>
      var front := PathTo(g, p);
      assert (front + [c])[|front| - 1] == p;
      front + [c]
  }

  /** A search state only ever holds ranked links. */
  lemma SearchLinksRanked(g: Grid, start: Coord, finish: Coord)
    requires SearchInvariant(g, start, finish)
    ensures LinksRanked(g)
  {
    forall c | InBounds(g, c)
      ensures RankedLink(g, c)
    {
      assert LinkOk(g, start, c);
    }
  }

  /** From a reached cell the chain leads back to the start through adjacent,
      expanded cells, and it has exactly g-score + 1 cells. */
  lemma {:induction false} ReachedPath(g: Grid, start: Coord, finish: Coord, c: Coord)
    requires SearchInvariant(g, start, finish) && InBounds(g, c) && At(g, c).gScore.Fin?
    ensures LinksRanked(g)
    ensures PathTo(g, c)[0] == start
    ensures |PathTo(g, c)| == At(g, c).gScore.n + 1
    ensures forall i :: 0 <= i < |PathTo(g, c)| - 1 ==>
              Adjacent(PathTo(g, c)[i], PathTo(g, c)[i + 1]) && At(g, PathTo(g, c)[i]).isVisited
    decreases At(g, c).gScore.n
  {
    SearchLinksRanked(g, start, finish);
    assert LinkOk(g, start, c);
    match At(g, c).previous
    case None =>
    case Some(p) =>
      ReachedPath(g, start, finish, p);
      var front := PathTo(g, p);
      assert PathTo(g, c) == front + [c];
      forall i | 0 <= i < |front + [c]| - 1
        ensures Adjacent((front + [c])[i], (front + [c])[i + 1]) && At(g, (front + [c])[i]).isVisited
      {
        if i == |front| - 1 {
          assert (front + [c])[i] == p && (front + [c])[i + 1] == c;
        } else {
          assert (front + [c])[i] == front[i] && (front + [c])[i + 1] == front[i + 1];
        }
      }
  }

  /** A cell never reached has no predecessor, so its chain is the cell alone;
      it is not the start, whose g-score is 0. */
  lemma UnreachedPath(g: Grid, start: Coord, finish: Coord, c: Coord)
    requires SearchInvariant(g, start, finish) && InBounds(g, c) && At(g, c).gScore == Inf
    ensures LinksRanked(g)
    ensures PathTo(g, c) == [c] && c != start
  {
    SearchLinksRanked(g, start, finish);
    assert LinkOk(g, start, c);
  }

  /** The chain rebuilt from an expanded, settled cell is a shortest open
      walk to it: it is an open walk of g-score + 1 cells, and settledness
      bounds the g-score by the length of every other open walk. */
  lemma FoundPathShortest(grid: Grid, g: Grid, start: Coord, finish: Coord, c: Coord)
    requires SearchInvariant(g, start, finish) && LayoutKept(grid, g) && AllSettled(grid, g, start)
    requires InBounds(g, c) && At(g, c).isVisited
    ensures LinksRanked(g)
    ensures OpenWalk(grid, start, PathTo(g, c))
    ensures forall w :: OpenWalk(grid, start, w) && w[|w| - 1] == c ==> |PathTo(g, c)| <= |w|
  {
    ReachedPath(g, start, finish, c);
    var path := PathTo(g, c);
    forall i | 0 <= i < |path|
      ensures InBounds(grid, path[i]) && !At(grid, path[i]).isWall
    {
      assert |g[path[i].row]| == |grid[path[i].row]|;
      assert SameLayout(At(grid, path[i]), At(g, path[i]));
      if i < |path| - 1 {
        assert At(g, path[i]).isVisited;
      }
    }
    assert Settled(grid, g, start, c);
  }
}
