/** One A* run as the visualizer performs it: take a reset snapshot of the
    board, search it, then rebuild the path from the finish cell. */
module Visualize {
  import opened Scores
  import opened Grid
  import opened Board
  import opened AStar
  import opened Paths

  method VisualizeAStar(board: Grid, startPos: Coord, finishPos: Coord)
    returns (visited: seq<Coord>, stop: Stop, path: seq<Coord>)
    requires WellFormed(board) && InBounds(board, startPos) && InBounds(board, finishPos)
    ensures forall i :: 0 <= i < |visited| ==> InBounds(board, visited[i]) && !At(board, visited[i]).isWall
    ensures Distinct(visited)
    ensures finishPos in visited <==> stop == Found
    ensures stop == Found ==> visited[|visited| - 1] == finishPos
    ensures stop == Exhausted ==> At(board, finishPos).isWall
    ensures |path| >= 1 && path[|path| - 1] == finishPos && AllIn(board, path)
    ensures stop == Found <==> Reachable(board, startPos, finishPos)
    ensures stop == Found ==>
              && OpenWalk(board, startPos, path)
              && (forall w :: OpenWalk(board, startPos, w) && w[|w| - 1] == finishPos ==> |path| <= |w|)
              && Heuristic(startPos, finishPos) < |path|
    ensures stop != Found && !At(board, finishPos).isWall ==> path == [finishPos] && finishPos != startPos
    ensures !At(board, finishPos).isWall ==> (stop == Found <==> path[0] == startPos)
  {
    var snapshot := SearchSnapshot(board);
    var final;
    visited, stop, final := Search(snapshot, startPos, finishPos);
    LayoutKeptTrans(board, snapshot, final);
    assert SameLayout(At(board, finishPos), At(snapshot, finishPos));
    SearchLinksRanked(final, startPos, finishPos);
    path := PathTo(final, finishPos);
    assert forall i :: 0 <= i < |path| ==> InBounds(board, path[i]) by {
      forall i | 0 <= i < |path|
        ensures InBounds(board, path[i])
      {
        assert |final[path[i].row]| == |board[path[i].row]|;
      }
    }
    ReachableLayout(board, snapshot, startPos, finishPos);
    if stop == Found {
      FoundOnBoard(board, snapshot, final, startPos, finishPos);
    } else if !At(board, finishPos).isWall {
      assert SameLayout(At(board, finishPos), At(snapshot, finishPos));
      assert CellConsistent(At(final, finishPos), finishPos);
      UnreachedPath(final, startPos, finishPos, finishPos);
    }
  }

  /** The path rebuilt after a successful search is, on the board itself, a
      shortest open walk from the start to the finish. */
  lemma FoundOnBoard(board: Grid, snapshot: Grid, final: Grid, start: Coord, finish: Coord)
    requires LayoutKept(board, snapshot) && LayoutKept(snapshot, final)
    requires SearchInvariant(final, start, finish) && AllSettled(snapshot, final, start)
    requires InBounds(final, finish) && At(final, finish).isVisited
    ensures LinksRanked(final)
    ensures OpenWalk(board, start, PathTo(final, finish))
    ensures forall w :: OpenWalk(board, start, w) && w[|w| - 1] == finish ==> |PathTo(final, finish)| <= |w|
    ensures Heuristic(start, finish) < |PathTo(final, finish)|
  {
    FoundPathShortest(snapshot, final, start, finish, finish);
    var path := PathTo(final, finish);
    OpenWalkLayout(board, snapshot, start, path);
    forall w | OpenWalk(board, start, w) && w[|w| - 1] == finish
      ensures |path| <= |w|
    {
      OpenWalkLayout(board, snapshot, start, w);
    }
    WalkLength(path);
  }
}
